/**
 * The jitter buffer: src/media/rtp.c, lines 469 to 693.
 *
 * The class keeps four parallel arrays sorted by 16-bit sequence number and shifts them in
 * place. Its methods are tied to a list of entries and a playout clock, and the properties of
 * whole runs are proved about those.
 */
module JitterBuffer {
  import opened Octets
  import opened Results
  import Rtp

  datatype Config = Config(minDelayMs: uint32, maxDelayMs: uint32, bufferSize: uint32)

  datatype Entry = Entry(packet: Bytes, sequence: uint16, arrival: uint64)

  datatype State = State(entries: seq<Entry>, nextPlayout: uint64)

  const HALF := 0x8000

  /** (int16_t)(a - b) < 0: a comes before b in wrapping order. */
  predicate Before(a: uint16, b: uint16) {
    (a - b) % TWO_16 >= HALF
  }

  /** Where the scan stops: at the first entry the sequence number comes before. */
  function InsertPosition(entries: seq<Entry>, sequence: uint16): (p: nat)
    ensures p <= |entries|
    ensures forall i :: 0 <= i < p ==> !Before(sequence, entries[i].sequence)
    ensures p < |entries| ==> Before(sequence, entries[p].sequence)
  {
    if entries == [] || Before(sequence, entries[0].sequence) then 0
    else 1 + InsertPosition(entries[1..], sequence)
  }

  lemma InsertPositionUnique(entries: seq<Entry>, sequence: uint16, p: nat)
    requires p <= |entries|
    requires forall i :: 0 <= i < p ==> !Before(sequence, entries[i].sequence)
    requires p < |entries| ==> Before(sequence, entries[p].sequence)
    ensures p == InsertPosition(entries, sequence)
  {
    var q := InsertPosition(entries, sequence);
    assert !(p < q);
    assert !(q < p);
  }

  function Insert<T>(s: seq<T>, at: nat, x: T): seq<T>
    requires at <= |s|
  {
    s[..at] + [x] + s[at..]
  }

  /** A full buffer loses its first entry before the new packet is even looked at. */
  function WithRoom(config: Config, entries: seq<Entry>): (r: seq<Entry>) {
    if |entries| >= config.bufferSize && entries != [] then entries[1..] else entries
  }

  function Delayed(now: uint64, delay: uint32): uint64 {
    (now + delay) % TWO_64
  }

  function Add(config: Config, s: State, packet: Bytes, now: uint64): (State, Status) {
    var kept := WithRoom(config, s.entries);
    var header := Rtp.Parsed(packet);
    if header == None then (State(kept, s.nextPlayout), InvalidArg)
    else
      var sequence := header.value.sequence;
      var entries := Insert(kept, InsertPosition(kept, sequence), Entry(packet, sequence, now));
      (State(entries, if |entries| == 1 then Delayed(now, config.minDelayMs) else s.nextPlayout), Ok)
  }

  /** The playout clock after a packet is taken out. */
  function NextPlayout(config: Config, now: uint64): uint64 {
    var next := Delayed(now, config.minDelayMs);
    if (next - now) % TWO_64 > config.maxDelayMs then Delayed(now, config.maxDelayMs) else next
  }

  function Get(config: Config, s: State, maxLen: nat, now: uint64): (State, Status) {
    if s.entries == [] || now < s.nextPlayout then (s, NotFound)
    else if |s.entries[0].packet| > maxLen then (s, Error)
    else (State(s.entries[1..], NextPlayout(config, now)), Ok)
  }

  // ----- the class -----

  function Zip(packets: seq<Bytes>, sequences: seq<uint16>, times: seq<uint64>): (r: seq<Entry>)
    requires |packets| == |sequences| == |times|
    ensures |r| == |packets|
    ensures forall i :: 0 <= i < |r| ==> r[i] == Entry(packets[i], sequences[i], times[i])
  {
    seq(|packets|, i requires 0 <= i < |packets| => Entry(packets[i], sequences[i], times[i]))
  }

  /** A list whose elements from position i up to n have been copied one place up. */
  ghost function Shifted<T>(s: seq<T>, i: nat, n: nat): (r: seq<T>)
    requires i <= n < |s|
    ensures |r| == |s|
  {
    s[..i + 1] + s[i..n] + s[n + 1..]
  }

  lemma ShiftedNone<T>(s: seq<T>, n: nat)
    requires n < |s|
    ensures Shifted(s, n, n) == s
  {
  }

  lemma ShiftedStep<T>(s: seq<T>, i: nat, n: nat)
    requires 0 < i <= n < |s|
    ensures Shifted(s, i, n)[i := Shifted(s, i, n)[i - 1]] == Shifted(s, i - 1, n)
  {
  }

  lemma StoredAt<T>(s: seq<T>, at: nat, n: nat, x: T, after: seq<T>)
    requires at <= n < |s| && after == Shifted(s, at, n)[at := x]
    ensures after[..n + 1] == Insert(s[..n], at, x)
  {
  }

  lemma ZipInsert(packets: seq<Bytes>, sequences: seq<uint16>, times: seq<uint64>, at: nat, e: Entry)
    requires |packets| == |sequences| == |times| && at <= |packets|
    ensures |Insert(packets, at, e.packet)| == |Insert(sequences, at, e.sequence)| == |Insert(times, at, e.arrival)|
    ensures Zip(Insert(packets, at, e.packet), Insert(sequences, at, e.sequence), Insert(times, at, e.arrival))
         == Insert(Zip(packets, sequences, times), at, e)
  {
  }

  lemma LengthsInsert(packets: seq<Bytes>, lengths: seq<nat>, at: nat, packet: Bytes)
    requires |packets| == |lengths| && at <= |packets|
    requires forall k :: 0 <= k < |packets| ==> lengths[k] == |packets[k]|
    ensures |Insert<nat>(lengths, at, |packet|)| == |Insert(packets, at, packet)| == |packets| + 1
    ensures forall k :: 0 <= k <= |packets| ==> Insert<nat>(lengths, at, |packet|)[k] == |Insert(packets, at, packet)[k]|
  {
  }

  lemma LengthsWithin(packets: seq<Bytes>, lengths: seq<nat>, n: nat)
    requires n <= |packets| == |lengths|
    requires forall k :: 0 <= k < n ==> lengths[..n][k] == |packets[..n][k]|
    ensures forall k :: 0 <= k < n ==> lengths[k] == |packets[k]|
  {
    assert forall k :: 0 <= k < n ==> lengths[k] == lengths[..n][k] && packets[k] == packets[..n][k];
  }

  /** A list whose elements from position 1 up to i have been copied one place down. */
  ghost function Lowered<T>(s: seq<T>, i: nat): (r: seq<T>)
    requires 0 < i <= |s|
    ensures |r| == |s|
  {
    s[1..i] + s[i - 1..]
  }

  lemma LoweredNone<T>(s: seq<T>)
    requires |s| > 0
    ensures Lowered(s, 1) == s
  {
  }

  lemma LoweredStep<T>(s: seq<T>, i: nat)
    requires 0 < i < |s|
    ensures Lowered(s, i)[i - 1 := Lowered(s, i)[i]] == Lowered(s, i + 1)
  {
  }

  lemma LoweredPrefix<T>(s: seq<T>, n: nat)
    requires 0 < n <= |s|
    ensures Lowered(s, n)[..n - 1] == s[..n][1..]
  {
  }

  lemma ZipTail(packets: seq<Bytes>, sequences: seq<uint16>, times: seq<uint64>)
    requires |packets| == |sequences| == |times| > 0
    ensures Zip(packets[1..], sequences[1..], times[1..]) == Zip(packets, sequences, times)[1..]
  {
  }

  class Buffer {
    const config: Config
    var packets: array<Bytes>
    var packetLen: array<nat>
    var sequence: array<uint16>
    var arrivalTime: array<uint64>
    var count: nat
    var nextPlayoutTime: uint64
    ghost const Repr: set<object>

    ghost predicate Valid()
      reads this, Repr
    {
      && Repr == {this, packets, packetLen, sequence, arrivalTime}
      && packetLen as object != sequence && packetLen as object != arrivalTime
      && sequence as object != arrivalTime
      && packets as object != packetLen && packets as object != sequence && packets as object != arrivalTime
      && 0 < config.bufferSize
      && packets.Length == packetLen.Length == sequence.Length == arrivalTime.Length == config.bufferSize
      && count <= config.bufferSize
      && forall i :: 0 <= i < count ==> packetLen[i] == |packets[i]|
    }

    ghost function Contents(): State
      requires Valid()
      reads this, Repr
    {
      State(Zip(packets[..count], sequence[..count], arrivalTime[..count]), nextPlayoutTime)
    }

    constructor (config: Config)
      requires config.bufferSize > 0
      ensures Valid() && fresh(Repr) && this.config == config
      ensures Contents() == State([], 0)
    {
      this.config := config;
      packets := new Bytes[config.bufferSize](_ => []);
      packetLen := new nat[config.bufferSize](_ => 0);
      sequence := new uint16[config.bufferSize](_ => 0);
      arrivalTime := new uint64[config.bufferSize](_ => 0);
      count, nextPlayoutTime := 0, 0;
      Repr := {this, packets, packetLen, sequence, arrivalTime};
    }

    /** Moves everything one place down, over the first entry. */
    method DropFirst()
      requires Valid() && count > 0
      modifies Repr
      ensures Valid()
      ensures Contents() == State(old(Contents()).entries[1..], old(nextPlayoutTime))
    {
      hide Lowered, Zip;
      ghost var p, l, s, t := packets[..], packetLen[..], sequence[..], arrivalTime[..];
      LoweredNone(p);
      LoweredNone(l);
      LoweredNone(s);
      LoweredNone(t);
      var i := 1;
      while i < count
        invariant 1 <= i <= count == old(count)
        invariant packets == old(packets) && packetLen == old(packetLen)
        invariant sequence == old(sequence) && arrivalTime == old(arrivalTime)
        invariant nextPlayoutTime == old(nextPlayoutTime)
        invariant packets[..] == Lowered(p, i) && packetLen[..] == Lowered(l, i)
        invariant sequence[..] == Lowered(s, i) && arrivalTime[..] == Lowered(t, i)
      {
        LoweredStep(p, i);
        LoweredStep(l, i);
        LoweredStep(s, i);
        LoweredStep(t, i);
        packets[i - 1] := packets[i];
        packetLen[i - 1] := packetLen[i];
        sequence[i - 1] := sequence[i];
        arrivalTime[i - 1] := arrivalTime[i];
        i := i + 1;
      }
      LoweredPrefix(p, i);
      LoweredPrefix(l, i);
      LoweredPrefix(s, i);
      LoweredPrefix(t, i);
      ZipTail(p[..i], s[..i], t[..i]);
      count := count - 1;
      forall k | 0 <= k < count
        ensures packetLen[k] == |packets[k]|
      {
        assert packetLen[k] == packetLen[..count][k] && packets[k] == packets[..count][k];
      }
    }

    /** Moves everything from a position on one place up. */
    method ShiftUp(at: nat)
      requires Valid() && at <= count < config.bufferSize
      modifies packets, packetLen, sequence, arrivalTime
      ensures packets[..] == Shifted(old(packets[..]), at, count)
      ensures packetLen[..] == Shifted(old(packetLen[..]), at, count)
      ensures sequence[..] == Shifted(old(sequence[..]), at, count)
      ensures arrivalTime[..] == Shifted(old(arrivalTime[..]), at, count)
    {
      hide Shifted;
      ghost var p, l, s, t := packets[..], packetLen[..], sequence[..], arrivalTime[..];
      ShiftedNone(p, count);
      ShiftedNone(l, count);
      ShiftedNone(s, count);
      ShiftedNone(t, count);
      var i := count;
      while i > at
        invariant at <= i <= count
        invariant packets[..] == Shifted(p, i, count) && packetLen[..] == Shifted(l, i, count)
        invariant sequence[..] == Shifted(s, i, count) && arrivalTime[..] == Shifted(t, i, count)
      {
        ShiftedStep(p, i, count);
        ShiftedStep(l, i, count);
        ShiftedStep(s, i, count);
        ShiftedStep(t, i, count);
        packets[i] := packets[i - 1];
        packetLen[i] := packetLen[i - 1];
        sequence[i] := sequence[i - 1];
        arrivalTime[i] := arrivalTime[i - 1];
        i := i - 1;
      }
    }

    /** Makes room at a position and puts an entry there. */
    method InsertAt(at: nat, entry: Entry)
      requires Valid() && at <= count < config.bufferSize
      modifies Repr
      ensures Valid()
      ensures Contents() == State(Insert(old(Contents()).entries, at, entry), old(nextPlayoutTime))
    {
      hide Insert, Shifted, Zip;
      ghost var p, l, s, t := packets[..], packetLen[..], sequence[..], arrivalTime[..];
      ShiftUp(at);
      packets[at] := entry.packet;
      packetLen[at] := |entry.packet|;
      sequence[at] := entry.sequence;
      arrivalTime[at] := entry.arrival;
      StoredAt(p, at, count, entry.packet, packets[..]);
      StoredAt<nat>(l, at, count, |entry.packet|, packetLen[..]);
      StoredAt(s, at, count, entry.sequence, sequence[..]);
      StoredAt(t, at, count, entry.arrival, arrivalTime[..]);
      ZipInsert(p[..count], s[..count], t[..count], at, entry);
      LengthsInsert(p[..count], l[..count], at, entry.packet);
      count := count + 1;
      LengthsWithin(packets[..], packetLen[..], count);
    }

    method FindPosition(number: uint16) returns (at: nat)
      requires Valid()
      ensures at == InsertPosition(Contents().entries, number)
    {
      at := count;
      var i := 0;
      while i < count
        invariant 0 <= i <= count && at == count
        invariant forall k :: 0 <= k < i ==> !Before(number, sequence[k])
      {
        if Before(number, sequence[i]) {
          at := i;
          break;
        }
        i := i + 1;
      }
      InsertPositionUnique(Contents().entries, number, at);
    }

    method AddPacket(packet: Bytes, timestamp: uint64) returns (status: Status)
      requires Valid()
      modifies Repr
      ensures Valid()
      ensures (Contents(), status) == Add(config, old(Contents()), packet, timestamp)
    {
      hide InsertPosition, Before, Rtp.Parsed, Zip;
      if count >= config.bufferSize {
        DropFirst();
      }
      var header := Rtp.ParseHeader(packet);
      if header == None {
        return InvalidArg;
      }
      var number := header.value.sequence;
      var at := FindPosition(number);
      InsertAt(at, Entry(packet, number, timestamp));
      if count == 1 {
        nextPlayoutTime := Delayed(timestamp, config.minDelayMs);
      }
      status := Ok;
    }

    /** The packet comes back as `out`, meaningful only when the status is Ok. */
    method GetPacket(maxLen: nat, currentTimeMs: uint64) returns (status: Status, out: Bytes)
      requires Valid()
      modifies Repr
      ensures Valid()
      ensures (Contents(), status) == Get(config, old(Contents()), maxLen, currentTimeMs)
      ensures status == Ok ==> out == old(Contents()).entries[0].packet
    {
      hide NextPlayout;
      out := [];
      if count == 0 {
        return NotFound, out;
      }
      if currentTimeMs < nextPlayoutTime {
        return NotFound, out;
      }
      var len := packetLen[0];
      if len > maxLen {
        return Error, out;
      }
      out := packets[0];
      DropFirst();
      Restart(currentTimeMs);
      status := Ok;
    }

    /** Sets the playout clock. */
    method Restart(now: uint64)
      requires Valid()
      modifies this`nextPlayoutTime
      ensures Valid() && Contents() == old(Contents()).(nextPlayout := NextPlayout(config, now))
    {
      hide Delayed;
      nextPlayoutTime := Delayed(now, config.minDelayMs);
      if (nextPlayoutTime - now) % TWO_64 > config.maxDelayMs {
        nextPlayoutTime := Delayed(now, config.maxDelayMs);
      }
    }
  }
}
