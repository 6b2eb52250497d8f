/**
 * Congestion control: src/cc/congestion_control.c.
 *
 * The C code computes in double and truncates; here every quotient is an exact rational that is
 * rounded down once, where the C code casts to an integer.
 */
module CongestionControl {
  import opened Octets

  const ADD_INCREASE := 100_000
  const RTT_SCALE := 10_000_000  // ADD_INCREASE at a round trip of 100 ms

  datatype Config = Config(minBitrate: uint32, maxBitrate: uint32, initialBitrate: uint32, enablePacing: bool)

  datatype Rates = Rates(target: uint32, estimate: uint32)

  /** 0.85 of the old estimate and 0.15 of the new target. */
  function Smoothed(estimate: uint32, target: uint32): uint32 {
    (85 * estimate + 15 * target) / 100
  }

  function AfterCongestion(config: Config, r: Rates): Rates {
    var halved := r.target / 2;
    var target := if halved < config.minBitrate then config.minBitrate else halved;
    Rates(target, Smoothed(r.estimate, target))
  }

  /** More than 2% lost, of a fraction given in 256ths. */
  predicate IsLoss(fractionLost: byte) {
    fractionLost * 100 > 2 * 256
  }

  function Increase(rttMs: uint32): uint32 {
    if rttMs > 0 then RTT_SCALE / rttMs else ADD_INCREASE
  }

  function Raised(config: Config, r: Rates, rttMs: uint32): Rates {
    var sum := (r.target + Increase(rttMs)) % TWO_32;
    var target := if sum > config.maxBitrate then config.maxBitrate else sum;
    Rates(target, Smoothed(r.estimate, target))
  }

  function Clamped(config: Config, r: Rates): Rates {
    var low := if r.target < config.minBitrate then r.(target := config.minBitrate) else r;
    if low.target > config.maxBitrate then low.(target := config.maxBitrate) else low
  }

  function AfterFeedback(config: Config, r: Rates, rttMs: uint32, fractionLost: byte): Rates {
    Clamped(config, if IsLoss(fractionLost) then AfterCongestion(config, r) else Raised(config, r, rttMs))
  }

  // ----- pacing -----

  /** How long a packet of this size occupies the link, in whole milliseconds. */
  function WaitMs(size: nat, target: uint32): nat {
    8000 * size / (if target < 1 then 1 else target)
  }

  /** The time before which nothing more may be sent (0 before the first packet), and whether the packet may go. */
  function Paced(next: uint64, target: uint32, size: nat, now: uint64): (uint64, bool) {
    if next == 0 then (now, true)
    else if now < next then (next, false)
    else ((now + WaitMs(size, target) % TWO_32) % TWO_64, true)
  }

  class Controller {
    const config: Config
    var estimatedBandwidth: uint32
    var targetBitrate: uint32
    var totalBytesSent: uint64
    var totalPacketsSent: uint32
    var lastUpdateTimeMs: uint64
    var bytesThisInterval: uint32
    var pacingNextSendTimeMs: uint64

    function CurrentRates(): Rates
      reads this
    {
      Rates(targetBitrate, estimatedBandwidth)
    }

    constructor (config: Config)
      ensures this.config == config && CurrentRates() == Rates(config.initialBitrate, config.initialBitrate)
      ensures pacingNextSendTimeMs == 0 && bytesThisInterval == 0 && totalBytesSent == 0 && totalPacketsSent == 0
    {
      this.config := config;
      estimatedBandwidth, targetBitrate := config.initialBitrate, config.initialBitrate;
      totalBytesSent, totalPacketsSent, lastUpdateTimeMs := 0, 0, 0;
      bytesThisInterval, pacingNextSendTimeMs := 0, 0;
    }

    method ReportPacketSent(sendTimeMs: uint64, size: nat)
      modifies `totalBytesSent, `totalPacketsSent, `bytesThisInterval, `lastUpdateTimeMs
      ensures totalBytesSent == (old(totalBytesSent) + size) % TWO_64
      ensures totalPacketsSent == (old(totalPacketsSent) + 1) % TWO_32
      ensures bytesThisInterval == (old(bytesThisInterval) + size) % TWO_32
      ensures lastUpdateTimeMs == sendTimeMs
    {
      totalBytesSent := (totalBytesSent + size) % TWO_64;
      totalPacketsSent := (totalPacketsSent + 1) % TWO_32;
      bytesThisInterval := (bytesThisInterval + size) % TWO_32;
      lastUpdateTimeMs := sendTimeMs;
    }

    method ReportCongestion()
      modifies `targetBitrate, `estimatedBandwidth
      ensures CurrentRates() == AfterCongestion(config, old(CurrentRates()))
    {
      var newTarget := targetBitrate / 2;
      if newTarget < config.minBitrate {
        newTarget := config.minBitrate;
      }
      estimatedBandwidth := Smoothed(estimatedBandwidth, newTarget);
      targetBitrate := newTarget;
    }

    method ReportFeedback(rttMs: uint32, fractionLost: byte)
      modifies `targetBitrate, `estimatedBandwidth
      ensures CurrentRates() == AfterFeedback(config, old(CurrentRates()), rttMs, fractionLost)
    {
      if IsLoss(fractionLost) {
        ReportCongestion();
      } else {
        var increase := ADD_INCREASE;
        if rttMs > 0 {
          increase := RTT_SCALE / rttMs;
        }
        var newTarget := (targetBitrate + increase) % TWO_32;
        if newTarget > config.maxBitrate {
          newTarget := config.maxBitrate;
        }
        estimatedBandwidth := Smoothed(estimatedBandwidth, newTarget);
        targetBitrate := newTarget;
      }
      if targetBitrate < config.minBitrate {
        targetBitrate := config.minBitrate;
      }
      if targetBitrate > config.maxBitrate {
        targetBitrate := config.maxBitrate;
      }
    }

    method CanSend(size: nat, nowMs: uint64) returns (granted: bool)
      modifies `pacingNextSendTimeMs, `bytesThisInterval
      ensures if config.enablePacing
        then (pacingNextSendTimeMs, granted) == Paced(old(pacingNextSendTimeMs), targetBitrate, size, nowMs)
        else granted && pacingNextSendTimeMs == old(pacingNextSendTimeMs)
      ensures bytesThisInterval ==
        if !config.enablePacing || !granted then old(bytesThisInterval)
        else if old(pacingNextSendTimeMs) == 0 then 0
        else (old(bytesThisInterval) + size) % TWO_32
    {
      if !config.enablePacing {
        return true;
      }
      if pacingNextSendTimeMs == 0 {
        pacingNextSendTimeMs := nowMs;
        bytesThisInterval := 0;
        return true;
      }
      if nowMs < pacingNextSendTimeMs {
        return false;
      }
      pacingNextSendTimeMs := (nowMs + WaitMs(size, targetBitrate) % TWO_32) % TWO_64;
      bytesThisInterval := (bytesThisInterval + size) % TWO_32;
      return true;
    }
  }
}
