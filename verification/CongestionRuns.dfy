/**
 * What congestion control does over runs of reports and send requests
 * (src/cc/congestion_control.c, lines 152 to 259 and 279 to 303).
 */
module CongestionRuns {
  import opened Octets
  import opened Quotients
  import opened CongestionControl

  datatype Report = Feedback(rttMs: uint32, fractionLost: byte) | Congestion

  function After(config: Config, r: Rates, report: Report): Rates {
    match report
    case Feedback(rttMs, fractionLost) => AfterFeedback(config, r, rttMs, fractionLost)
    case Congestion => AfterCongestion(config, r)
  }

  function Run(config: Config, r: Rates, reports: seq<Report>): Rates
    decreases |reports|
  {
    if reports == [] then r else Run(config, After(config, r, reports[0]), reports[1..])
  }

  lemma {:induction false} RunAppend(config: Config, r: Rates, a: seq<Report>, b: seq<Report>)
    ensures Run(config, r, a + b) == Run(config, Run(config, r, a), b)
    decreases |a|
  {
    hide After;
    if a == [] {
      assert a + b == b;
    } else {
      assert (a + b)[1..] == a[1..] + b;
      RunAppend(config, After(config, r, a[0]), a[1..], b);
    }
  }

  // ----- bounds -----

  /** The limits are ordered, with room below 2^32 for the largest increase. */
  predicate Usable(config: Config) {
    config.minBitrate <= config.maxBitrate <= TWO_32 - RTT_SCALE - 1
  }

  predicate InBounds(config: Config, r: Rates) {
    && config.minBitrate <= r.target <= config.maxBitrate
    && config.minBitrate <= r.estimate <= config.maxBitrate
  }

  lemma IncreaseBound(rttMs: uint32)
    ensures Increase(rttMs) <= RTT_SCALE
    ensures Increase(rttMs) >= 1 <==> rttMs <= RTT_SCALE
  {
    if rttMs > 0 {
      QuotientRange(RTT_SCALE, rttMs);
    }
  }

  lemma SmoothedWithin(estimate: uint32, target: uint32, low: int, high: int)
    requires low <= estimate <= high && low <= target <= high
    ensures low <= Smoothed(estimate, target) <= high
  {
  }

  lemma CongestionInBounds(config: Config, r: Rates)
    requires Usable(config) && InBounds(config, r)
    ensures InBounds(config, AfterCongestion(config, r))
  {
    hide Smoothed;
    SmoothedWithin(r.estimate, AfterCongestion(config, r).target, config.minBitrate, config.maxBitrate);
  }

  lemma RaisedInBounds(config: Config, r: Rates, rttMs: uint32)
    requires Usable(config) && InBounds(config, r)
    ensures InBounds(config, Raised(config, r, rttMs))
  {
    hide Smoothed, Increase;
    IncreaseBound(rttMs);
    SmoothedWithin(r.estimate, Raised(config, r, rttMs).target, config.minBitrate, config.maxBitrate);
  }

  lemma AfterInBounds(config: Config, r: Rates, report: Report)
    requires Usable(config) && InBounds(config, r)
    ensures InBounds(config, After(config, r, report))
  {
    hide IsLoss, AfterCongestion, Raised;
    CongestionInBounds(config, r);
    if report.Feedback? {
      RaisedInBounds(config, r, report.rttMs);
    }
  }

  /** Target and estimate stay within the configured limits over every run of reports. */
  lemma {:induction false} AlwaysInBounds(config: Config, r: Rates, reports: seq<Report>)
    requires Usable(config) && InBounds(config, r)
    ensures InBounds(config, Run(config, r, reports))
    decreases |reports|
  {
    hide After;
    if reports != [] {
      AfterInBounds(config, r, reports[0]);
      AlwaysInBounds(config, After(config, r, reports[0]), reports[1..]);
    }
  }

  // ----- losses -----

  predicate Losses(reports: seq<Report>) {
    forall report :: report in reports ==> report == Congestion || IsLoss(report.fractionLost)
  }

  function Larger(a: int, b: int): int {
    if a < b then b else a
  }

  lemma LossHalves(config: Config, r: Rates, report: Report)
    requires Usable(config) && InBounds(config, r) && Losses([report])
    ensures After(config, r, report) == AfterCongestion(config, r)
    ensures After(config, r, report).target == Larger(config.minBitrate, r.target / 2)
  {
    assert report in [report];
    hide Smoothed;
    AfterInBounds(config, r, report);
  }

  lemma HalvedTwice(t: nat, k: nat)
    ensures t / 2 / Pow2(k) == t / Pow2(k + 1)
  {
    var p := Pow2(k);
    var q, m := t / 2 / p, t / 2 % p;
    Division(t / 2, p);
    assert 2 * (q * p) == q * (2 * p);
    QuotientIs(t, 2 * p, q, 2 * m + t % 2);
  }

  /** Divided by two at least k times. */
  predicate Halved(a: nat, b: nat, k: nat) {
    b <= a / Pow2(k)
  }

  lemma HalvedOnce(a: nat, b: nat, c: nat, k: nat)
    requires k > 0 && b <= a / 2 && Halved(b, c, k - 1)
    ensures Halved(a, c, k)
  {
    HalvedTwice(a, k - 1);
    QuotientMonotone(b, a / 2, Pow2(k - 1));
  }

  lemma HalvedNot(a: nat, b: nat)
    ensures Halved(a, b, 0) <==> b <= a
  {
  }

  /** k losses from target t leave max(min, t / 2^k). */
  lemma {:induction false} KLosses(config: Config, r: Rates, reports: seq<Report>)
    requires Usable(config) && InBounds(config, r) && Losses(reports)
    ensures Run(config, r, reports).target == Larger(config.minBitrate, r.target / Pow2(|reports|))
    decreases |reports|
  {
    hide After;
    if reports != [] {
      assert reports[0] in reports;
      LossHalves(config, r, reports[0]);
      AfterInBounds(config, r, reports[0]);
      var r1 := After(config, r, reports[0]);
      KLosses(config, r1, reports[1..]);
      HalvedTwice(r.target, |reports| - 1);
      if r1.target == config.minBitrate {
        QuotientRange(config.minBitrate, Pow2(|reports| - 1));
        QuotientMonotone(r.target / 2, config.minBitrate, Pow2(|reports| - 1));
      }
    }
  }

  lemma TargetAtMin(config: Config, r: Rates, reports: seq<Report>)
    requires Usable(config) && InBounds(config, r) && Losses(reports) && |reports| >= 32
    ensures Run(config, r, reports).target == config.minBitrate
  {
    KLosses(config, r, reports);
    Pow2AtLeast(|reports|);
    assert r.target / Pow2(|reports|) == 0 by {
      QuotientIs(r.target, Pow2(|reports|), 0, r.target);
    }
  }

  lemma {:induction false} Pow2AtLeast(n: nat)
    requires n >= 32
    ensures Pow2(n) >= TWO_32
  {
    if n == 32 {
      assert Pow2(16) == 0x1_0000 by { assert Pow2(8) == 256; }
      assert Pow2(24) == 0x100_0000 by { assert Pow2(20) == 0x10_0000; }
      assert Pow2(28) == 0x1000_0000;
    } else {
      Pow2AtLeast(n - 1);
    }
  }

  /** At the minimum target, a loss leaves 85 of 100 parts of what the estimate is too high. */
  lemma ExcessShrinks(config: Config, r: Rates, report: Report)
    requires Usable(config) && InBounds(config, r) && Losses([report]) && r.target == config.minBitrate
    ensures var r1 := After(config, r, report);
      && r1.target == config.minBitrate
      && r1.estimate - config.minBitrate == 85 * (r.estimate - config.minBitrate) / 100
  {
    hide After;
    LossHalves(config, r, report);
  }

  /** Five times 85 of 100 is less than half. */
  lemma FiveShrinkings(a: nat, b: nat, c: nat, d: nat, e: nat, f: nat)
    requires b == 85 * a / 100 && c == 85 * b / 100 && d == 85 * c / 100 && e == 85 * d / 100 && f == 85 * e / 100
    ensures f <= a / 2
  {
  }

  lemma {:induction false} FiveLosses(config: Config, r: Rates, reports: seq<Report>)
    requires Usable(config) && InBounds(config, r) && Losses(reports) && r.target == config.minBitrate && |reports| == 5
    ensures var r5 := Run(config, r, reports);
      && InBounds(config, r5) && r5.target == config.minBitrate
      && r5.estimate - config.minBitrate <= (r.estimate - config.minBitrate) / 2
  {
    hide After;
    var r1 := OneLoss(config, r, reports);
    var r2 := OneLoss(config, r1, reports[1..]);
    var r3 := OneLoss(config, r2, reports[1..][1..]);
    var r4 := OneLoss(config, r3, reports[1..][1..][1..]);
    var r5 := OneLoss(config, r4, reports[1..][1..][1..][1..]);
    assert Run(config, r5, reports[1..][1..][1..][1..][1..]) == r5;
    var m := config.minBitrate;
    FiveShrinkings(r.estimate - m, r1.estimate - m, r2.estimate - m, r3.estimate - m, r4.estimate - m, r5.estimate - m);
  }

  lemma OneLoss(config: Config, r: Rates, reports: seq<Report>) returns (next: Rates)
    requires Usable(config) && InBounds(config, r) && r.target == config.minBitrate
    requires Losses(reports) && reports != []
    ensures Run(config, r, reports) == Run(config, next, reports[1..])
    ensures InBounds(config, next) && next.target == config.minBitrate && Losses(reports[1..])
    ensures next.estimate - config.minBitrate == 85 * (r.estimate - config.minBitrate) / 100
  {
    hide After;
    assert reports[0] in reports;
    next := After(config, r, reports[0]);
    AfterInBounds(config, r, reports[0]);
    ExcessShrinks(config, r, reports[0]);
  }

  /** Once the target is at the minimum, the excess of the estimate halves with every five losses. */
  lemma {:induction false} EstimateFalls(config: Config, r: Rates, reports: seq<Report>, k: nat)
    requires Usable(config) && InBounds(config, r) && Losses(reports) && r.target == config.minBitrate
    requires |reports| >= 5 * k
    ensures var r2 := Run(config, r, reports);
      && InBounds(config, r2) && r2.target == config.minBitrate
      && Halved(r.estimate - config.minBitrate, r2.estimate - config.minBitrate, k)
    decreases |reports|
  {
    hide After, Run, Halved;
    if k > 0 {
      var first, rest := reports[..5], reports[5..];
      assert first + rest == reports;
      RunAppend(config, r, first, rest);
      FiveLosses(config, r, first);
      var r5 := Run(config, r, first);
      EstimateFalls(config, r5, rest, k - 1);
      var r2 := Run(config, r5, rest);
      HalvedOnce(r.estimate - config.minBitrate, r5.estimate - config.minBitrate, r2.estimate - config.minBitrate, k);
    } else if reports != [] {
      MoreLosses(config, r, reports);
      var r1 := After(config, r, reports[0]);
      EstimateFalls(config, r1, reports[1..], 0);
      var r2 := Run(config, r, reports);
      HalvedNot(r1.estimate - config.minBitrate, r2.estimate - config.minBitrate);
      HalvedNot(r.estimate - config.minBitrate, r2.estimate - config.minBitrate);
    } else {
      assert Run(config, r, []) == r by { NoReports(config, r); }
      HalvedNot(r.estimate - config.minBitrate, r.estimate - config.minBitrate);
    }
  }

  lemma NoReports(config: Config, r: Rates)
    ensures Run(config, r, []) == r
  {
  }

  lemma MoreLosses(config: Config, r: Rates, reports: seq<Report>)
    requires Usable(config) && InBounds(config, r) && r.target == config.minBitrate
    requires Losses(reports) && reports != []
    ensures var r1 := After(config, r, reports[0]);
      && Run(config, r, reports) == Run(config, r1, reports[1..]) && Losses(reports[1..])
      && InBounds(config, r1) && r1.target == config.minBitrate && r1.estimate <= r.estimate
  {
    hide After;
    assert reports[0] in reports;
    AfterInBounds(config, r, reports[0]);
    ExcessShrinks(config, r, reports[0]);
  }

  /** 192 losses in a row end with target and estimate both at the minimum, whatever the limits. */
  lemma LossRun(config: Config, r: Rates, reports: seq<Report>)
    requires Usable(config) && InBounds(config, r) && Losses(reports) && |reports| >= 192
    ensures Run(config, r, reports) == Rates(config.minBitrate, config.minBitrate)
  {
    hide After, Run;
    var first, rest := reports[..32], reports[32..];
    assert first + rest == reports;
    RunAppend(config, r, first, rest);
    TargetAtMin(config, r, first);
    AlwaysInBounds(config, r, first);
    var r1 := Run(config, r, first);
    EstimateFalls(config, r1, rest, 32);
    Pow2AtLeast(32);
    QuotientIs(r1.estimate - config.minBitrate, Pow2(32), 0, r1.estimate - config.minBitrate);
  }

  // ----- no losses -----

  predicate Successes(reports: seq<Report>) {
    forall report :: report in reports ==>
      report.Feedback? && !IsLoss(report.fractionLost) && report.rttMs <= RTT_SCALE
  }

  /** A report without loss raises a target below the maximum if and only if the round trip is at most 10^7 ms. */
  lemma RaisedExactly(config: Config, r: Rates, report: Report)
    requires Usable(config) && InBounds(config, r) && report.Feedback? && !IsLoss(report.fractionLost)
    ensures After(config, r, report).target == Min(config.maxBitrate, r.target + Increase(report.rttMs))
    ensures r.target < config.maxBitrate ==>
      (After(config, r, report).target > r.target <==> report.rttMs <= RTT_SCALE)
    ensures After(config, r, report).estimate == Smoothed(r.estimate, After(config, r, report).target)
  {
    hide Increase, IsLoss, Smoothed;
    IncreaseBound(report.rttMs);
  }

  /** What the reports raise the target by, together. */
  function Raise(reports: seq<Report>): nat
    requires Successes(reports)
    decreases |reports|
  {
    if reports == [] then 0
    else
      assert reports[0] in reports;
      Increase(reports[0].rttMs) + Raise(reports[1..])
  }

  /** Reports without loss raise the target by the sum of their increases, up to the maximum. */
  lemma {:induction false} TargetRises(config: Config, r: Rates, reports: seq<Report>)
    requires Usable(config) && InBounds(config, r) && Successes(reports)
    ensures Run(config, r, reports).target == Min(config.maxBitrate, r.target + Raise(reports))
    decreases |reports|
  {
    hide After, Increase;
    if reports != [] {
      assert reports[0] in reports;
      RaisedExactly(config, r, reports[0]);
      AfterInBounds(config, r, reports[0]);
      TargetRises(config, After(config, r, reports[0]), reports[1..]);
    }
  }

  /** At the maximum target, a report without loss leaves 85 of 100 parts, rounded up, of what the estimate is too low. */
  lemma OneSuccess(config: Config, r: Rates, reports: seq<Report>) returns (next: Rates)
    requires Usable(config) && InBounds(config, r) && r.target == config.maxBitrate
    requires Successes(reports) && reports != []
    ensures Run(config, r, reports) == Run(config, next, reports[1..])
    ensures InBounds(config, next) && next.target == config.maxBitrate && Successes(reports[1..])
    ensures Shrunk(Above(config.maxBitrate - r.estimate), Above(config.maxBitrate - next.estimate))
    ensures Above(config.maxBitrate - next.estimate) <= Above(config.maxBitrate - r.estimate)
    ensures config.maxBitrate - r.estimate >= 6 ==> config.maxBitrate - next.estimate >= 6
  {
    hide After, Increase, Above;
    assert reports[0] in reports;
    RaisedExactly(config, r, reports[0]);
    AfterInBounds(config, r, reports[0]);
    next := After(config, r, reports[0]);
    GapShrinks(config.maxBitrate - r.estimate, config.maxBitrate - next.estimate);
    GapFalls(config.maxBitrate - r.estimate, config.maxBitrate - next.estimate);
  }

  predicate Shrunk(a: nat, b: nat) {
    b <= (85 * a + 9) / 100
  }

  function Above(gap: nat): nat {
    if gap > 6 then gap - 6 else 0
  }

  /** Rounding up, the gap to the maximum shrinks towards 6: what it has above 6 halves in five reports. */
  lemma GapShrinks(a: nat, b: nat)
    requires b == (85 * a + 99) / 100
    ensures Above(b) == if a >= 6 then (85 * Above(a) + 9) / 100 else 0
    ensures a >= 6 ==> b >= 6
  {
  }

  lemma FiveGaps(a: nat, b: nat, c: nat, d: nat, e: nat, f: nat)
    requires Shrunk(a, b) && Shrunk(b, c) && Shrunk(c, d) && Shrunk(d, e) && Shrunk(e, f)
    ensures f <= a / 2
  {
    if a <= 5 {
      assert a > 0 ==> b < a;
      assert b > 0 ==> c < b;
      assert c > 0 ==> d < c;
      assert d > 0 ==> e < d;
      assert e > 0 ==> f < e;
    } else {
      assert 10_000_000_000 * f <= 85 * 85 * 85 * 85 * 85 * a
        + 9 * (85 * 85 * 85 * 85 + 85 * 85 * 85 * 100 + 85 * 85 * 10_000 + 85 * 1_000_000 + 100_000_000);
    }
  }

  lemma FiveSuccesses(config: Config, r: Rates, reports: seq<Report>)
    requires Usable(config) && InBounds(config, r) && Successes(reports)
    requires r.target == config.maxBitrate && |reports| == 5
    ensures var r5 := Run(config, r, reports);
      && InBounds(config, r5) && r5.target == config.maxBitrate
      && Above(config.maxBitrate - r5.estimate) <= Above(config.maxBitrate - r.estimate) / 2
      && (config.maxBitrate - r.estimate >= 6 ==> config.maxBitrate - r5.estimate >= 6)
  {
    hide After, Above, Run, Successes, Shrunk, Usable;
    var m := config.maxBitrate;
    var p1, p2, p3, p4 := reports[1..], reports[1..][1..], reports[1..][1..][1..], reports[1..][1..][1..][1..];
    var r1 := OneSuccess(config, r, reports);
    var r2 := OneSuccess(config, r1, p1);
    var r3 := OneSuccess(config, r2, p2);
    var r4 := OneSuccess(config, r3, p3);
    var r5 := OneSuccess(config, r4, p4);
    assert p4[1..] == [];
    NoReports(config, r5);
    FiveGaps(Above(m - r.estimate), Above(m - r1.estimate), Above(m - r2.estimate), Above(m - r3.estimate),
             Above(m - r4.estimate), Above(m - r5.estimate));
  }

  /** Once the target is at the maximum, what the gap has above 6 halves with every five reports. */
  lemma {:induction false} EstimateRises(config: Config, r: Rates, reports: seq<Report>, k: nat)
    requires Usable(config) && InBounds(config, r) && Successes(reports) && r.target == config.maxBitrate
    requires |reports| >= 5 * k
    ensures var r2 := Run(config, r, reports);
      && InBounds(config, r2) && r2.target == config.maxBitrate
      && Halved(Above(config.maxBitrate - r.estimate), Above(config.maxBitrate - r2.estimate), k)
      && (config.maxBitrate - r.estimate >= 6 ==> config.maxBitrate - r2.estimate >= 6)
    decreases |reports|
  {
    hide After, Run, Above, Halved;
    var m := config.maxBitrate;
    if k > 0 {
      var first, rest := reports[..5], reports[5..];
      assert first + rest == reports;
      RunAppend(config, r, first, rest);
      FiveSuccesses(config, r, first);
      var r5 := Run(config, r, first);
      EstimateRises(config, r5, rest, k - 1);
      HalvedOnce(Above(m - r.estimate), Above(m - r5.estimate), Above(m - Run(config, r5, rest).estimate), k);
    } else if reports != [] {
      var r1 := OneSuccess(config, r, reports);
      EstimateRises(config, r1, reports[1..], 0);
      var r2 := Run(config, r, reports);
      HalvedNot(Above(m - r1.estimate), Above(m - r2.estimate));
      HalvedNot(Above(m - r.estimate), Above(m - r2.estimate));
    } else {
      NoReports(config, r);
      HalvedNot(Above(m - r.estimate), Above(m - r.estimate));
    }
  }

  lemma GapFalls(a: nat, b: nat)
    requires b == (85 * a + 99) / 100
    ensures Above(b) <= Above(a)
  {
  }

  /**
   * Reports without loss whose increases cover the way to the maximum, and 160 more, end with the target
   * at the maximum and the estimate within 6 of it, whatever the limits. Rounding down keeps an estimate
   * that was at least 6 below when the target arrived exactly 6 below.
   */
  lemma NoLossRun(config: Config, r: Rates, climb: seq<Report>, settle: seq<Report>)
    requires Usable(config) && InBounds(config, r) && Successes(climb) && Successes(settle)
    requires Raise(climb) >= config.maxBitrate - r.target && |settle| >= 160
    ensures var r1, r2 := Run(config, r, climb), Run(config, r, climb + settle);
      && r1.target == r2.target == config.maxBitrate
      && config.maxBitrate - 6 <= r2.estimate <= config.maxBitrate
      && (r1.estimate <= config.maxBitrate - 6 ==> r2.estimate == config.maxBitrate - 6)
  {
    hide After, Run, Raise;
    RunAppend(config, r, climb, settle);
    TargetRises(config, r, climb);
    AlwaysInBounds(config, r, climb);
    var r1 := Run(config, r, climb);
    EstimateRises(config, r1, settle, 32);
    Pow2AtLeast(32);
    QuotientIs(Above(config.maxBitrate - r1.estimate), Pow2(32), 0, Above(config.maxBitrate - r1.estimate));
  }

  // ----- pacing -----

  datatype Request = Request(size: nat, now: uint64)

  /** The pacer's clock, and the requests it has granted. */
  datatype Pacer = Pacer(next: uint64, granted: seq<Request>)

  function Ask(p: Pacer, target: uint32, request: Request): Pacer {
    var (next, granted) := Paced(p.next, target, request.size, request.now);
    Pacer(next, if granted then p.granted + [request] else p.granted)
  }

  function AskAll(target: uint32, requests: seq<Request>): Pacer {
    if requests == [] then Pacer(0, [])
    else Ask(AskAll(target, requests[..|requests| - 1]), target, requests[|requests| - 1])
  }

  /** Times are not 0, which means "never", and neither waits nor times overflow their types. */
  predicate Representable(target: uint32, requests: seq<Request>) {
    forall q :: q in requests ==>
      && q.now > 0
      && WaitMs(q.size, target) < TWO_32
      && q.now + WaitMs(q.size, target) < TWO_64
  }

  function Total(requests: seq<Request>): nat {
    if requests == [] then 0 else Total(requests[..|requests| - 1]) + requests[|requests| - 1].size
  }

  /** The total size of all grants but the first and the last. */
  function Middle(granted: seq<Request>): nat {
    if |granted| <= 2 then 0 else Total(granted[1..|granted| - 1])
  }

  predicate WithinRate(target: uint32, granted: seq<Request>)
    requires |granted| >= 2
  {
    var n := |granted|;
    var budget := target * (granted[n - 1].now - granted[1].now + n - 2);
    if n == 2 then budget == 0 else 8000 * Middle(granted) < budget
  }

  predicate PacerInvariant(target: uint32, p: Pacer) {
    var n := |p.granted|;
    && (n == 0 <==> p.next == 0)
    && (n == 1 ==> p.next == p.granted[0].now)
    && (n >= 2 ==>
          && p.next == p.granted[n - 1].now + WaitMs(p.granted[n - 1].size, target)
          && WithinRate(target, p.granted))
  }

  lemma WaitCovers(size: nat, target: uint32)
    requires target > 0
    ensures 8000 * size < target * (WaitMs(size, target) + 1)
  {
    var w := WaitMs(size, target);
    Division(8000 * size, target);
    assert target * (w + 1) == w * target + target;
  }

  lemma MiddleGrows(granted: seq<Request>, request: Request)
    requires |granted| >= 2
    ensures Middle(granted + [request]) == Middle(granted) + granted[|granted| - 1].size
  {
    var n := |granted|;
    var more := granted + [request];
    assert more[1..n] == granted[1..n - 1] + [granted[n - 1]];
    TotalGrows(granted[1..n - 1], granted[n - 1]);
    if n == 2 {
      assert granted[1..1] == [];
    }
  }

  lemma TotalGrows(requests: seq<Request>, request: Request)
    ensures Total(requests + [request]) == Total(requests) + request.size
    ensures Total([]) == 0
  {
    assert (requests + [request])[..|requests|] == requests;
  }

  lemma AskKeepsRate(target: uint32, p: Pacer, request: Request)
    requires target > 0 && PacerInvariant(target, p) && Representable(target, [request])
    ensures PacerInvariant(target, Ask(p, target, request))
  {
    hide WaitMs, Middle, Total, WithinRate;
    assert request in [request];
    var n := |p.granted|;
    if n >= 2 && request.now >= p.next {
      BudgetStep(target, p.granted, request);
    } else if n == 1 && request.now >= p.next {
      NoBudget(target, p.granted[0], request);
      assert p.granted + [request] == [p.granted[0], request];
    }
  }

  lemma NoBudget(target: uint32, first: Request, second: Request)
    ensures WithinRate(target, [first, second])
  {
    assert target * 0 == 0;
  }

  lemma NoMiddle(granted: seq<Request>)
    requires |granted| == 2
    ensures Middle(granted) == 0
  {
  }

  lemma BudgetStep(target: uint32, granted: seq<Request>, request: Request)
    requires target > 0 && |granted| >= 2 && WithinRate(target, granted)
    requires request.now >= granted[|granted| - 1].now + WaitMs(granted[|granted| - 1].size, target)
    ensures WithinRate(target, granted + [request])
  {
    hide WaitMs, Middle, Total;
    var n := |granted|;
    var last := granted[n - 1];
    MiddleGrows(granted, request);
    WaitCovers(last.size, target);
    var spent := last.now - granted[1].now + n - 2;
    var step := request.now - last.now + 1;
    assert target * (spent + step) == target * spent + target * step;
    ProductMonotone(target, WaitMs(last.size, target) + 1, step);
    assert (granted + [request])[1] == granted[1];
    if n == 2 {
      NoMiddle(granted);
    }
  }

  lemma {:induction false} AskAllInvariant(target: uint32, requests: seq<Request>)
    requires target > 0 && Representable(target, requests)
    ensures PacerInvariant(target, AskAll(target, requests))
  {
    hide Ask, PacerInvariant;
    if requests == [] {
      assert PacerInvariant(target, Pacer(0, [])) by { EmptyPacer(target); }
    } else {
      var k := |requests| - 1;
      assert requests[k] in requests;
      AskAllInvariant(target, requests[..k]);
      AskKeepsRate(target, AskAll(target, requests[..k]), requests[k]);
    }
  }

  lemma EmptyPacer(target: uint32)
    ensures PacerInvariant(target, Pacer(0, []))
  {
  }

  /**
   * The pacing guarantee at a constant target: over any interleaving of refused and granted requests,
   * the grants between the second and the last carry fewer bits than the target allows from the second
   * grant to the last, plus one millisecond of rounding for each of them.
   */
  lemma PacingRate(target: uint32, requests: seq<Request>)
    requires target > 0 && Representable(target, requests)
    ensures var g := AskAll(target, requests).granted;
      |g| > 2 ==>
        8000 * Total(g[1..|g| - 1]) < target * ((g[|g| - 1].now - g[1].now) + (|g| - 2))
  {
    AskAllInvariant(target, requests);
    hide AskAll, Total;
  }

  /** w is the time that `size` bytes take at this rate, at least one bit per second, in whole milliseconds. */
  predicate IsWait(w: nat, size: nat, target: uint32) {
    var rate := if target == 0 then 1 else target;
    rate * w <= 8000 * size < rate * (w + 1)
  }

  lemma WaitIs(size: nat, target: uint32, w: nat)
    ensures IsWait(WaitMs(size, target), size, target)
    ensures IsWait(w, size, target) ==> w == WaitMs(size, target)
  {
    var rate := if target == 0 then 1 else target;
    Division(8000 * size, rate);
    var v := WaitMs(size, target);
    assert rate * (v + 1) == rate * v + rate;
    if IsWait(w, size, target) {
      assert rate * (w + 1) == rate * w + rate;
      QuotientIs(8000 * size, rate, w, 8000 * size - rate * w);
    }
  }

  /** When the next request may go: after one grant at its time, after more when the last one has been sent. */
  ghost predicate Free(target: uint32, granted: seq<Request>, now: uint64) {
    var n := |granted|;
    if n == 0 then true
    else if n == 1 then now >= granted[0].now
    else SentBy(target, granted[n - 1], now)
  }

  ghost predicate SentBy(target: uint32, last: Request, now: uint64) {
    exists w: nat :: IsWait(w, last.size, target) && now >= last.now + w
  }

  /** The clock is set by the grants. */
  predicate ClockSet(target: uint32, p: Pacer) {
    var n := |p.granted|;
    && (n == 0 <==> p.next == 0)
    && (n == 1 ==> p.next == p.granted[0].now)
    && (n >= 2 ==> p.next == p.granted[n - 1].now + WaitMs(p.granted[n - 1].size, target))
  }

  lemma {:induction false} AskAllClock(target: uint32, requests: seq<Request>)
    requires Representable(target, requests)
    ensures ClockSet(target, AskAll(target, requests))
  {
    hide Ask, ClockSet;
    if requests == [] {
      assert ClockSet(target, Pacer(0, [])) by { BlankClock(target); }
    } else {
      var k := |requests| - 1;
      assert requests[k] in requests;
      AskAllClock(target, requests[..k]);
      AskSetsClock(target, AskAll(target, requests[..k]), requests[k]);
    }
  }

  lemma BlankClock(target: uint32)
    ensures ClockSet(target, Pacer(0, []))
  {
  }

  lemma AskSetsClock(target: uint32, p: Pacer, request: Request)
    requires ClockSet(target, p) && Representable(target, [request])
    ensures ClockSet(target, Ask(p, target, request))
  {
    hide WaitMs;
    assert request in [request];
  }

  /**
   * Exactly which requests are granted, over every run at a constant target: those made when the packet
   * granted before has had its time.
   */
  lemma GrantedExactly(target: uint32, requests: seq<Request>, request: Request)
    requires Representable(target, requests + [request])
    ensures var g := AskAll(target, requests).granted;
      AskAll(target, requests + [request]).granted ==
        if Free(target, g, request.now) then g + [request] else g
  {
    hide WaitMs, IsWait;
    RepresentableParts(target, requests, request);
    AskAllClock(target, requests);
    var all := requests + [request];
    assert all[..|requests|] == requests;
    var p := AskAll(target, requests);
    assert AskAll(target, all) == Ask(p, target, request);
    var n := |p.granted|;
    assert request in [request];
    if n >= 2 {
      var size := p.granted[n - 1].size;
      var w := WaitMs(size, target);
      WaitIs(size, target, w);
      forall v: nat | IsWait(v, size, target)
        ensures v == w
      {
        WaitIs(size, target, v);
      }
    }
  }

  lemma RepresentableParts(target: uint32, requests: seq<Request>, request: Request)
    requires Representable(target, requests + [request])
    ensures Representable(target, requests) && Representable(target, [request])
  {
    hide WaitMs;
    assert request in requests + [request];
    assert forall q :: q in requests ==> q in requests + [request];
  }

  // ----- the numbers -----

  /** A report counts as a loss from 6 of 256 packets on. */
  lemma LossThreshold(fractionLost: byte)
    ensures IsLoss(fractionLost) <==> fractionLost >= 6
  {
  }

  /** The raise is 100000 for an unknown round trip, and else ten million over it, rounded down. */
  lemma IncreaseIs(rttMs: uint32)
    ensures rttMs == 0 ==> Increase(rttMs) == 100_000
    ensures rttMs > 0 ==> Increase(rttMs) * rttMs <= 10_000_000 < (Increase(rttMs) + 1) * rttMs
  {
    if rttMs > 0 {
      Division(10_000_000, rttMs);
      Distribute(Increase(rttMs), 1, rttMs);
    }
  }

  /** The estimate becomes 85 parts of itself and 15 of the new target, rounded down. */
  lemma SmoothedIs(config: Config, r: Rates, report: Report)
    requires Usable(config) && InBounds(config, r)
    ensures var u := After(config, r, report);
      100 * u.estimate <= 85 * r.estimate + 15 * u.target < 100 * (u.estimate + 1)
  {
    hide Increase, IsLoss, Smoothed;
    SmoothedRange(r.estimate, After(config, r, report).target);
    if report.Feedback? {
      IncreaseBound(report.rttMs);
    }
  }

  lemma SmoothedRange(estimate: uint32, target: uint32)
    ensures var n := Smoothed(estimate, target);
      100 * n <= 85 * estimate + 15 * target < 100 * (n + 1)
  {
  }

  /** Whatever the limits: a report without loss adds the increase modulo 2^32, and the limits come after. */
  lemma RaiseWraps(config: Config, r: Rates, rttMs: uint32, fractionLost: byte)
    requires config.minBitrate <= config.maxBitrate && fractionLost < 6
    ensures var sum := (r.target + Increase(rttMs)) % 0x1_0000_0000;
      After(config, r, Feedback(rttMs, fractionLost)).target ==
        if sum < config.minBitrate then config.minBitrate else Min(sum, config.maxBitrate)
  {
    hide Increase, Smoothed;
  }

  /** One report of feedback is enough to bring any target between the limits. */
  lemma BroughtInBounds(config: Config, r: Rates, rttMs: uint32, fractionLost: byte)
    requires config.minBitrate <= config.maxBitrate
    ensures config.minBitrate <= After(config, r, Feedback(rttMs, fractionLost)).target <= config.maxBitrate
  {
    hide Increase, IsLoss, Smoothed;
  }
}
