/**
 * What the jitter buffer guarantees over whole runs of arrivals and playouts
 * (src/media/rtp.c, lines 548 to 678).
 */
module JitterRuns {
  import opened Octets
  import opened Results
  import Rtp
  import opened JitterBuffer

  datatype Event = Arrive(packet: Bytes, now: uint64) | Play(maxLen: nat, now: uint64)

  /** The buffer with everything that went in and came out of it so far. */
  datatype Trace = Trace(
    state: State,
    accepted: seq<Entry>,
    returned: seq<Entry>,
    evicted: seq<Entry>,
    playedAt: seq<uint64>)

  function Dropped(config: Config, entries: seq<Entry>): seq<Entry> {
    if |entries| >= config.bufferSize && entries != [] then [entries[0]] else []
  }

  function Step(config: Config, t: Trace, e: Event): Trace {
    match e
    case Arrive(packet, now) =>
      var (s, status) := Add(config, t.state, packet, now);
      t.(state := s,
         accepted := t.accepted + (if status == Ok then [Entry(packet, Rtp.Parsed(packet).value.sequence, now)] else []),
         evicted := t.evicted + Dropped(config, t.state.entries))
    case Play(maxLen, now) =>
      var (s, status) := Get(config, t.state, maxLen, now);
      if status != Ok then t
      else t.(state := s, returned := t.returned + [t.state.entries[0]], playedAt := t.playedAt + [now])
  }

  function Run(config: Config, events: seq<Event>): Trace {
    if events == [] then Trace(State([], 0), [], [], [], [])
    else Step(config, Run(config, events[..|events| - 1]), events[|events| - 1])
  }

  // ----- nothing is lost silently -----

  ghost predicate Balanced(config: Config, t: Trace) {
    && multiset(t.accepted) == multiset(t.returned) + multiset(t.evicted) + multiset(t.state.entries)
    && |t.state.entries| <= config.bufferSize
  }

  lemma InsertMultiset<T>(s: seq<T>, at: nat, x: T)
    requires at <= |s|
    ensures multiset(Insert(s, at, x)) == multiset(s) + multiset{x}
  {
    assert s == s[..at] + s[at..];
  }

  lemma RoomMultiset(config: Config, entries: seq<Entry>)
    ensures multiset(entries) == multiset(Dropped(config, entries)) + multiset(WithRoom(config, entries))
    ensures config.bufferSize > 0 && |entries| <= config.bufferSize ==> |WithRoom(config, entries)| < config.bufferSize
  {
    if entries != [] {
      assert entries == [entries[0]] + entries[1..];
    }
  }

  lemma ArriveBalanced(config: Config, t: Trace, packet: Bytes, now: uint64)
    requires config.bufferSize > 0 && Balanced(config, t)
    ensures Balanced(config, Step(config, t, Arrive(packet, now)))
  {
    hide InsertPosition, Before, Rtp.Parsed, Insert, WithRoom, Dropped;
    var kept := WithRoom(config, t.state.entries);
    RoomMultiset(config, t.state.entries);
    var header := Rtp.Parsed(packet);
    if header.Some? {
      var entry := Entry(packet, header.value.sequence, now);
      var at := InsertPosition(kept, entry.sequence);
      InsertMultiset(kept, at, entry);
      InsertLength(kept, at, entry);
      assert multiset(t.accepted + [entry]) == multiset(t.accepted) + multiset{entry};
    }
  }

  lemma PlayBalanced(config: Config, t: Trace, maxLen: nat, now: uint64)
    requires Balanced(config, t)
    ensures Balanced(config, Step(config, t, Play(maxLen, now)))
  {
    var entries := t.state.entries;
    if Get(config, t.state, maxLen, now).1 == Ok {
      assert entries == [entries[0]] + entries[1..];
      assert multiset(entries) == multiset{entries[0]} + multiset(entries[1..]);
    }
  }

  lemma InsertLength<T>(s: seq<T>, at: nat, x: T)
    requires at <= |s|
    ensures |Insert(s, at, x)| == |s| + 1
  {
  }

  /** Accepted packets are exactly the returned, the evicted and the held ones, and the buffer never overfills. */
  lemma {:induction false} Conservation(config: Config, events: seq<Event>)
    requires config.bufferSize > 0
    ensures Balanced(config, Run(config, events))
  {
    if events != [] {
      Conservation(config, events[..|events| - 1]);
      match events[|events| - 1]
      case Arrive(packet, now) => ArriveBalanced(config, Run(config, events[..|events| - 1]), packet, now);
      case Play(maxLen, now) => PlayBalanced(config, Run(config, events[..|events| - 1]), maxLen, now);
    }
  }

  // ----- serial order -----

  /**
   * The sender numbers its packets 0, 1, 2, ... and puts the number modulo 2^16 in the header.
   * A labelling gives the number of every arrival; `live` and `out` follow it through the buffer.
   */
  datatype Labels = Labels(live: seq<nat>, out: seq<nat>)

  function LabelStep(config: Config, t: Trace, labels: Labels, e: Event, n: nat): Labels {
    match e
    case Arrive(packet, now) =>
      var kept := if |t.state.entries| >= config.bufferSize && labels.live != [] then labels.live[1..] else labels.live;
      var header := Rtp.Parsed(packet);
      if header == None then labels.(live := kept)
      else
        var at := InsertPosition(WithRoom(config, t.state.entries), header.value.sequence);
        labels.(live := if at <= |kept| then Insert(kept, at, n) else kept)
    case Play(maxLen, now) =>
      if Get(config, t.state, maxLen, now).1 != Ok || labels.live == [] then labels
      else Labels(labels.live[1..], labels.out + [labels.live[0]])
  }

  function LabelRun(config: Config, events: seq<Event>, ns: seq<nat>): Labels
    requires |ns| == |events|
  {
    if events == [] then Labels([], [])
    else
      var k := |events| - 1;
      LabelStep(config, Run(config, events[..k]), LabelRun(config, events[..k], ns[..k]), events[k], ns[k])
  }

  predicate Near(m: int, n: int) {
    -HALF < m - n < HALF
  }

  /** The arrival is numbered as its header says, near the packets held, and not before the last one returned. */
  predicate InWindow(config: Config, t: Trace, labels: Labels, e: Event, n: nat) {
    e.Arrive? && Rtp.Parsed(e.packet).Some? ==>
      && n % TWO_16 == Rtp.Parsed(e.packet).value.sequence
      && (forall l :: l in labels.live ==> Near(l, n))
      && (labels.out != [] ==> labels.out[|labels.out| - 1] <= n < labels.out[|labels.out| - 1] + HALF)
  }

  predicate Admissible(config: Config, events: seq<Event>, ns: seq<nat>)
    requires |ns| == |events|
  {
    forall k :: 0 <= k < |events| ==>
      InWindow(config, Run(config, events[..k]), LabelRun(config, events[..k], ns[..k]), events[k], ns[k])
  }

  /** Within half a window, the signed 16-bit difference tells which number is smaller. */
  lemma BeforeIsLess(m: nat, n: nat)
    requires Near(m, n)
    ensures Before(m % TWO_16, n % TWO_16) <==> m < n
  {
    var a, b: int := m % TWO_16, n % TWO_16;
    assert (a - b) % TWO_16 == (m - n) % TWO_16;
  }

  predicate Sorted(ns: seq<nat>) {
    forall i, j :: 0 <= i < j < |ns| ==> ns[i] <= ns[j]
  }

  predicate AllNear(ns: seq<nat>) {
    forall i, j :: 0 <= i < |ns| && 0 <= j < |ns| ==> Near(ns[i], ns[j])
  }

  predicate Numbered(ns: seq<nat>, entries: seq<Entry>) {
    |ns| == |entries| && forall i :: 0 <= i < |ns| ==> ns[i] % TWO_16 == entries[i].sequence
  }

  /** Each packet played is at or after the one before it, by less than half a window. */
  predicate Ascending(ns: seq<nat>) {
    forall i :: 0 < i < |ns| ==> ns[i - 1] <= ns[i] < ns[i - 1] + HALF
  }

  predicate Ordered(t: Trace, labels: Labels) {
    && Numbered(labels.live, t.state.entries) && Numbered(labels.out, t.returned)
    && Sorted(labels.live) && AllNear(labels.live)
    && Ascending(labels.out)
    && (labels.out != [] ==>
          forall l :: l in labels.live ==> labels.out[|labels.out| - 1] <= l < labels.out[|labels.out| - 1] + HALF)
  }

  lemma InsertKeepsSorted(ns: seq<nat>, at: nat, n: nat)
    requires at <= |ns| && Sorted(ns)
    requires forall i :: 0 <= i < at ==> ns[i] <= n
    requires at < |ns| ==> n <= ns[at]
    ensures Sorted(Insert<nat>(ns, at, n))
  {
  }

  lemma InsertKeepsNear(ns: seq<nat>, at: nat, n: nat)
    requires at <= |ns| && AllNear(ns) && forall l :: l in ns ==> Near(l, n)
    ensures AllNear(Insert<nat>(ns, at, n))
  {
    hide Near;
    forall i, j | 0 <= i <= |ns| && 0 <= j <= |ns|
      ensures Near(Insert<nat>(ns, at, n)[i], Insert<nat>(ns, at, n)[j])
    {
      NearSymmetric(n, n);
      if i != at {
        assert Insert<nat>(ns, at, n)[i] == ns[if i < at then i else i - 1];
        NearSymmetric(ns[if i < at then i else i - 1], n);
      }
      if j != at {
        assert Insert<nat>(ns, at, n)[j] == ns[if j < at then j else j - 1];
        NearSymmetric(ns[if j < at then j else j - 1], n);
      }
    }
  }

  lemma NearSymmetric(m: nat, n: nat)
    ensures Near(m, n) <==> Near(n, m)
    ensures Near(n, n)
  {
  }

  lemma InsertKeepsNumbered(ns: seq<nat>, entries: seq<Entry>, at: nat, n: nat, e: Entry)
    requires Numbered(ns, entries) && at <= |ns| && n % TWO_16 == e.sequence
    ensures Numbered(Insert<nat>(ns, at, n), Insert(entries, at, e))
  {
  }

  /** The insertion point, found by wrapping comparison, is the one that keeps the numbers sorted and stable. */
  lemma InsertSorted(ns: seq<nat>, entries: seq<Entry>, n: nat, sequence: uint16, e: Entry)
    requires Numbered(ns, entries) && Sorted(ns) && AllNear(ns)
    requires n % TWO_16 == sequence == e.sequence && forall l :: l in ns ==> Near(l, n)
    ensures var at := InsertPosition(entries, sequence);
      && (forall i :: 0 <= i < at ==> ns[i] <= n) && (forall i :: at <= i < |ns| ==> n < ns[i])
      && Numbered(Insert(ns, at, n), Insert(entries, at, e))
      && Sorted(Insert(ns, at, n)) && AllNear(Insert(ns, at, n))
  {
    hide Before, InsertPosition, Insert;
    var at := InsertPosition(entries, sequence);
    forall i | 0 <= i < |ns|
      ensures Before(sequence, entries[i].sequence) <==> n < ns[i]
    {
      assert ns[i] in ns;
      BeforeIsLess(n, ns[i]);
    }
    assert at < |ns| ==> n < ns[at];
    InsertKeepsSorted(ns, at, n);
    InsertKeepsNear(ns, at, n);
    InsertKeepsNumbered(ns, entries, at, n, e);
  }

  lemma TailOrdered(ns: seq<nat>, entries: seq<Entry>)
    requires Numbered(ns, entries) && Sorted(ns) && AllNear(ns) && ns != []
    ensures Numbered(ns[1..], entries[1..]) && Sorted(ns[1..]) && AllNear(ns[1..])
    ensures forall l :: l in ns[1..] ==> l in ns && ns[0] <= l < ns[0] + HALF
  {
    forall l | l in ns[1..]
      ensures l in ns && ns[0] <= l < ns[0] + HALF
    {
      var i :| 0 <= i < |ns[1..]| && ns[1..][i] == l;
      assert ns[i + 1] == l && Near(l, ns[0]);
    }
  }

  lemma ArriveOrdered(config: Config, t: Trace, labels: Labels, e: Event, n: nat)
    requires e.Arrive? && Ordered(t, labels) && InWindow(config, t, labels, e, n)
    ensures Ordered(Step(config, t, e), LabelStep(config, t, labels, e, n))
  {
    hide Before, InsertPosition, Rtp.Parsed, Sorted, AllNear, Numbered, Ascending, Insert;
    var full := |t.state.entries| >= config.bufferSize && labels.live != [];
    var kept := if full then labels.live[1..] else labels.live;
    var entries := WithRoom(config, t.state.entries);
    NumberedLength(labels.live, t.state.entries);
    if full {
      TailOrdered(labels.live, t.state.entries);
    }
    var header := Rtp.Parsed(e.packet);
    if header.Some? {
      var sequence := header.value.sequence;
      InsertSorted(kept, entries, n, sequence, Entry(e.packet, sequence, e.now));
      InsertMembers(kept, InsertPosition(entries, sequence), n);
      NumberedLength(kept, entries);
    }
  }

  lemma NumberedLength(ns: seq<nat>, entries: seq<Entry>)
    requires Numbered(ns, entries)
    ensures |ns| == |entries|
  {
  }

  lemma InsertMembers(ns: seq<nat>, at: nat, n: nat)
    requires at <= |ns|
    ensures forall l :: l in Insert<nat>(ns, at, n) ==> l == n || l in ns
  {
  }

  lemma PlayOrdered(config: Config, t: Trace, labels: Labels, e: Event, n: nat)
    requires e.Play? && Ordered(t, labels)
    ensures Ordered(Step(config, t, e), LabelStep(config, t, labels, e, n))
  {
    hide Sorted, AllNear;
    if Get(config, t.state, e.maxLen, e.now).1 == Ok {
      assert labels.live[0] in labels.live;
      TailOrdered(labels.live, t.state.entries);
    }
  }

  lemma {:induction false} RunOrdered(config: Config, events: seq<Event>, ns: seq<nat>)
    requires config.bufferSize > 0 && |ns| == |events| && Admissible(config, events, ns)
    ensures Ordered(Run(config, events), LabelRun(config, events, ns))
  {
    hide Ordered, InWindow, Step, LabelStep;
    var k := |events| - 1;
    if events == [] {
      EmptyOrdered();
    } else {
      PrefixAdmissible(config, events, ns);
      RunOrdered(config, events[..k], ns[..k]);
      if events[k].Arrive? {
        ArriveOrdered(config, Run(config, events[..k]), LabelRun(config, events[..k], ns[..k]), events[k], ns[k]);
      } else {
        PlayOrdered(config, Run(config, events[..k]), LabelRun(config, events[..k], ns[..k]), events[k], ns[k]);
      }
    }
  }

  lemma EmptyOrdered()
    ensures Ordered(Trace(State([], 0), [], [], [], []), Labels([], []))
  {
  }

  lemma PrefixAdmissible(config: Config, events: seq<Event>, ns: seq<nat>)
    requires |ns| == |events| > 0 && Admissible(config, events, ns)
    ensures var k := |events| - 1;
      && Admissible(config, events[..k], ns[..k])
      && InWindow(config, Run(config, events[..k]), LabelRun(config, events[..k], ns[..k]), events[k], ns[k])
  {
    hide InWindow, Run, LabelRun;
    var k := |events| - 1;
    forall j | 0 <= j < k
      ensures InWindow(config, Run(config, events[..k][..j]), LabelRun(config, events[..k][..j], ns[..k][..j]),
                       events[..k][j], ns[..k][j])
    {
      assert events[..k][..j] == events[..j] && ns[..k][..j] == ns[..j];
    }
  }

  /** No packet is serially before the one ahead of it. */
  predicate InSerialOrder(entries: seq<Entry>) {
    forall i :: 0 < i < |entries| ==> !Before(entries[i].sequence, entries[i - 1].sequence)
  }

  lemma OrderedIsSerial(ns: seq<nat>, entries: seq<Entry>)
    requires Numbered(ns, entries) && Ascending(ns)
    ensures InSerialOrder(entries)
  {
    hide Before;
    forall i | 0 < i < |entries|
      ensures !Before(entries[i].sequence, entries[i - 1].sequence)
    {
      BeforeIsLess(ns[i], ns[i - 1]);
    }
  }

  /**
   * Over every run that stays within half a window, the buffer stays sorted and plays out in
   * order: the sender's numbers never go down, so the 16-bit numbers never step back, not even
   * from 65535 to 0.
   */
  lemma PlayoutOrder(config: Config, events: seq<Event>, ns: seq<nat>)
    requires config.bufferSize > 0 && |ns| == |events| && Admissible(config, events, ns)
    ensures var t := Run(config, events); var labels := LabelRun(config, events, ns);
      && Numbered(labels.out, t.returned) && Sorted(labels.out)
      && InSerialOrder(t.returned)
      && Numbered(labels.live, t.state.entries) && Sorted(labels.live)
      && InSerialOrder(t.state.entries)
  {
    hide Run, LabelRun, Admissible, Before;
    var t := Run(config, events);
    var labels := LabelRun(config, events, ns);
    RunOrdered(config, events, ns);
    OrderedIsSerial(labels.out, t.returned);
    AscendingIsSorted(labels.out);
    forall i | 0 < i < |labels.live|
      ensures labels.live[i - 1] <= labels.live[i] < labels.live[i - 1] + HALF
    {
      assert Near(labels.live[i], labels.live[i - 1]);
    }
    OrderedIsSerial(labels.live, t.state.entries);
  }

  lemma {:induction false} AscendingIsSorted(ns: seq<nat>)
    requires Ascending(ns)
    ensures Sorted(ns)
  {
    if |ns| > 1 {
      var k := |ns| - 1;
      AscendingIsSorted(ns[..k]);
      forall i | 0 <= i < k
        ensures ns[i] <= ns[k]
      {
        assert i < k - 1 ==> ns[..k][i] <= ns[..k][k - 1];
      }
    }
  }

  // ----- pacing -----

  predicate ClocksAscend(events: seq<Event>) {
    forall i, j :: 0 <= i < j < |events| ==> events[i].now <= events[j].now
  }

  predicate NoOverflow(config: Config, events: seq<Event>) {
    forall e :: e in events ==> e.now + config.minDelayMs < TWO_64
  }

  function Gap(config: Config): nat {
    Min(config.minDelayMs, config.maxDelayMs)
  }

  predicate Spaced(gap: nat, times: seq<uint64>) {
    forall i :: 0 < i < |times| ==> times[i] >= times[i - 1] + gap
  }

  predicate Paced(config: Config, t: Trace, now: int) {
    && Spaced(Gap(config), t.playedAt)
    && (t.playedAt != [] ==>
          && t.playedAt[|t.playedAt| - 1] <= now
          && t.state.nextPlayout >= t.playedAt[|t.playedAt| - 1] + Gap(config))
  }

  lemma StepPaced(config: Config, t: Trace, e: Event, before: int)
    requires Paced(config, t, before) && before <= e.now && e.now + config.minDelayMs < TWO_64
    ensures Paced(config, Step(config, t, e), e.now)
  {
    hide Rtp.Parsed, InsertPosition, Insert, WithRoom;
    if e.Arrive? {
      ArriveKeepsPlayout(config, t, e);
    }
  }

  /** An arrival moves the playout clock only when nothing is held, and then behind its own time. */
  lemma ArriveKeepsPlayout(config: Config, t: Trace, e: Event)
    requires e.Arrive? && e.now + config.minDelayMs < TWO_64
    ensures var u := Step(config, t, e);
      && u.playedAt == t.playedAt
      && (u.state.nextPlayout == t.state.nextPlayout || u.state.nextPlayout == e.now + config.minDelayMs)
  {
    hide Rtp.Parsed, InsertPosition, Insert, WithRoom, Dropped;
  }

  /** With clocks that never go back, successful playouts are at least min(min_delay, max_delay) apart. */
  lemma {:induction false} PlayoutPaced(config: Config, events: seq<Event>)
    requires ClocksAscend(events) && NoOverflow(config, events)
    ensures Spaced(Gap(config), Run(config, events).playedAt)
    ensures Paced(config, Run(config, events), if events == [] then -1 else events[|events| - 1].now)
  {
    hide Step;
    if events != [] {
      var k := |events| - 1;
      PlayoutPaced(config, events[..k]);
      assert events[k] in events;
      StepPaced(config, Run(config, events[..k]), events[k], if k == 0 then -1 else events[k - 1].now);
    }
  }

  // ----- when a packet is returned -----

  /** Before event n. */
  function At(config: Config, events: seq<Event>, n: nat): Trace
    requires n <= |events|
  {
    Run(config, events[..n])
  }

  lemma AtNext(config: Config, events: seq<Event>, n: nat)
    requires n < |events|
    ensures At(config, events, n + 1) == Step(config, At(config, events, n), events[n])
  {
    hide Step;
    assert events[..n + 1][..n] == events[..n];
  }

  /** Event n is an arrival that is accepted and then held alone. */
  predicate Starts(config: Config, events: seq<Event>, n: nat)
    requires n < |events|
  {
    var before, after := At(config, events, n), At(config, events, n + 1);
    events[n].Arrive? && |after.accepted| > |before.accepted| && |after.state.entries| == 1
  }

  /** Event n returns a packet. */
  predicate Returns(config: Config, events: seq<Event>, n: nat)
    requires n < |events|
  {
    |At(config, events, n + 1).returned| > |At(config, events, n).returned|
  }

  /** Event i is the last one before n that sets the time of the next playout. */
  predicate Governs(config: Config, events: seq<Event>, i: nat, n: nat)
    requires n <= |events|
  {
    && i < n && (Starts(config, events, i) || Returns(config, events, i))
    && forall j :: i < j < n ==> !Starts(config, events, j) && !Returns(config, events, j)
  }

  /** The full delay after an arrival, and at most the maximal delay after a playout. */
  function DueTime(config: Config, events: seq<Event>, i: nat): nat
    requires i < |events|
  {
    events[i].now + if events[i].Arrive? then config.minDelayMs else Min(config.minDelayMs, config.maxDelayMs)
  }

  lemma StepDue(config: Config, t: Trace, e: Event)
    requires e.now + config.minDelayMs < TWO_64
    ensures var u := Step(config, t, e);
      if e.Arrive? && |u.accepted| > |t.accepted| && |u.state.entries| == 1
      then u.state.nextPlayout == e.now + config.minDelayMs
      else if |u.returned| > |t.returned|
      then e.Play? && u.state.nextPlayout == e.now + Min(config.minDelayMs, config.maxDelayMs)
      else u.state.nextPlayout == t.state.nextPlayout
    ensures e.Arrive? ==> Step(config, t, e).returned == t.returned
  {
    hide Rtp.Parsed, InsertPosition, Insert, WithRoom, Dropped;
  }

  lemma {:induction false} ClockGoverned(config: Config, events: seq<Event>, i: nat, n: nat)
    requires n <= |events| && Governs(config, events, i, n) && NoOverflow(config, events)
    ensures At(config, events, n).state.nextPlayout == DueTime(config, events, i)
    decreases n
  {
    hide Step, Run;
    var k := n - 1;
    AtNext(config, events, k);
    assert events[k] in events;
    StepDue(config, At(config, events, k), events[k]);
    if i < k {
      assert !Starts(config, events, k) && !Returns(config, events, k);
      ClockGoverned(config, events, i, k);
    } else {
      assert At(config, events, n) == At(config, events, i + 1);
    }
  }

  /** While something is held, some event governs. */
  lemma {:induction false} Governor(config: Config, events: seq<Event>, n: nat) returns (i: nat)
    requires n <= |events| && At(config, events, n).state.entries != []
    ensures Governs(config, events, i, n)
    decreases n
  {
    hide Step, Run;
    if n == 0 {
      NothingHeld(config, events);
    } else {
      i := n - 1;
      AtNext(config, events, i);
      if !Starts(config, events, i) && !Returns(config, events, i) {
        if At(config, events, i).state.entries == [] {
          FirstHeld(config, At(config, events, i), events[i]);
        }
        i := Governor(config, events, i);
      }
    }
  }

  lemma NothingHeld(config: Config, events: seq<Event>)
    ensures At(config, events, 0).state.entries == []
  {
  }

  lemma FirstHeld(config: Config, t: Trace, e: Event)
    requires t.state.entries == []
    ensures var u := Step(config, t, e);
      u.state.entries != [] ==> e.Arrive? && |u.accepted| > |t.accepted| && |u.state.entries| == 1
  {
    hide Rtp.Parsed, InsertPosition;
  }

  /**
   * Exactly when a playout returns a packet, over every run: something is held, it fits, and the delay
   * that the last start or the last playout set has passed. It is then the first packet held.
   */
  lemma PlayoutExactly(config: Config, events: seq<Event>, n: nat)
    requires n < |events| && events[n].Play? && NoOverflow(config, events)
    ensures var t, u := At(config, events, n), At(config, events, n + 1);
      var held := t.state.entries;
      && (Returns(config, events, n) <==>
            && held != [] && |held[0].packet| <= events[n].maxLen
            && exists i :: Governs(config, events, i, n) && events[n].now >= DueTime(config, events, i))
      && (if Returns(config, events, n) then u.returned == t.returned + [held[0]] && u.state.entries == held[1..]
          else u == t)
  {
    hide Run, Governs, DueTime;
    var t := At(config, events, n);
    AtNext(config, events, n);
    if t.state.entries != [] {
      var i := Governor(config, events, n);
      ClockGoverned(config, events, i, n);
      GovernorUnique(config, events, i, n);
    }
  }

  lemma GovernorUnique(config: Config, events: seq<Event>, i: nat, n: nat)
    requires n <= |events| && Governs(config, events, i, n)
    ensures forall j :: Governs(config, events, j, n) ==> j == i
  {
    hide Starts, Returns;
  }

  /** A packet that finds the buffer empty waits for the whole delay, and so does everything behind it. */
  lemma {:induction false} InitialDelay(config: Config, events: seq<Event>, i: nat, n: nat)
    requires i < n < |events| && Starts(config, events, i) && events[n].Play?
    requires ClocksAscend(events) && NoOverflow(config, events)
    requires events[n].now < events[i].now + config.minDelayMs
    ensures !Returns(config, events, n)
    decreases n
  {
    hide Starts, Returns, Run;
    PlayoutExactly(config, events, n);
    if Returns(config, events, n) {
      var g: nat :| Governs(config, events, g, n) && events[n].now >= DueTime(config, events, g);
      if g > i && Returns(config, events, g) {
        assert events[g].now <= events[n].now;
        PlaysReturn(config, events, g);
        InitialDelay(config, events, i, g);
      } else if g > i {
        assert events[i].now <= events[g].now;
        StartsArrive(config, events, g);
      } else if g == i {
        StartsArrive(config, events, i);
      }
    }
  }

  lemma StartsArrive(config: Config, events: seq<Event>, n: nat)
    requires n < |events| && Starts(config, events, n)
    ensures events[n].Arrive?
  {
  }

  lemma PlaysReturn(config: Config, events: seq<Event>, n: nat)
    requires n < |events| && Returns(config, events, n)
    ensures events[n].Play?
  {
    hide Rtp.Parsed, Run, Get, Add;
    AtNext(config, events, n);
  }

  /**
   * What an arrival does, over every run: a full buffer gives up its first packet, even for a packet that
   * is then refused, and an accepted one goes behind all that are not later in serial order.
   */
  lemma ArrivalExactly(config: Config, events: seq<Event>, n: nat) returns (at: nat)
    requires n < |events| && events[n].Arrive? && config.bufferSize > 0
    ensures var t, u := At(config, events, n), At(config, events, n + 1);
      var held, packet := t.state.entries, events[n].packet;
      var full := |held| == config.bufferSize;
      var kept := if full then held[1..] else held;
      && u.evicted == t.evicted + (if full then [held[0]] else [])
      && u.returned == t.returned
      && match Rtp.Parsed(packet)
         case None => u.state.entries == kept && u.accepted == t.accepted
         case Some(header) =>
           var entry := Entry(packet, header.sequence, events[n].now);
           && u.accepted == t.accepted + [entry] && at <= |kept|
           && u.state.entries == kept[..at] + [entry] + kept[at..]
           && (forall i :: 0 <= i < at ==> (header.sequence - kept[i].sequence) % 65536 < 32768)
           && (at < |kept| ==> (header.sequence - kept[at].sequence) % 65536 >= 32768)
  {
    hide Rtp.Parsed, Run, InsertPosition;
    AtNext(config, events, n);
    Conservation(config, events[..n]);
    at := 0;
    var header := Rtp.Parsed(events[n].packet);
    if header.Some? {
      at := InsertPosition(WithRoom(config, At(config, events, n).state.entries), header.value.sequence);
    }
  }
}
