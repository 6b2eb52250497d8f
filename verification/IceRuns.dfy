/**
 * Runs of the ICE agent: remote candidates, packets and ticks in any order after gathering.
 * src/ice/ice.c, lines 143 to 159, 315 to 351 and 353 to 644.
 */
module IceRuns {
  import opened Octets
  import opened Results
  import opened Stun
  import opened Ice
  import Sdp
  import StunMessages
  import Text

  type Length = n: nat | n <= BUFFER_LEN

  datatype Event =
    | Learn(candidate: Sdp.Candidate)
    | Receive(b: Datagram, len: Length, source: Option<Address>)
    | Elapse(now: uint64, clocks: nat -> uint64)

  function Step(s: IceState, e: Event): IceState {
    match e
    case Learn(c) => AddRemote(s, c)
    case Receive(b, len, source) => Packet(s, b, len, source)
    case Elapse(now, clocks) => Tick(s, now, clocks)
  }

  function Run(s: IceState, events: seq<Event>): IceState
    decreases |events|
  {
    if events == [] then s else Step(Run(s, events[..|events| - 1]), events[|events| - 1])
  }

  lemma RunStep(s: IceState, events: seq<Event>, n: nat)
    requires n < |events|
    ensures Run(s, events[..n + 1]) == Step(Run(s, events[..n]), events[n])
  {
    hide Step;
    assert events[..n + 1][..n] == events[..n];
  }

  // ----- the check list is the product -----

  predicate Links(p: Pair, i: nat, j: nat) {
    p.local == i && p.remote == j
  }

  function Count(pairs: seq<Pair>, i: nat, j: nat): nat
    decreases |pairs|
  {
    if pairs == [] then 0
    else Count(pairs[..|pairs| - 1], i, j) + (if Links(pairs[|pairs| - 1], i, j) then 1 else 0)
  }

  lemma CountSnoc(pairs: seq<Pair>, p: Pair, i: nat, j: nat)
    ensures Count(pairs + [p], i, j) == Count(pairs, i, j) + (if Links(p, i, j) then 1 else 0)
  {
    assert (pairs + [p])[..|pairs|] == pairs;
  }

  /** Each local and remote candidate are paired exactly once, and there are no other pairs. */
  ghost predicate IsProduct(s: IceState) {
    && |s.pairs| == |s.locals| * |s.remotes|
    && (forall i: nat, j: nat :: Count(s.pairs, i, j) == if i < |s.locals| && j < |s.remotes| then 1 else 0)
  }

  predicate SameLinks(p: seq<Pair>, q: seq<Pair>) {
    |p| == |q| && forall k :: 0 <= k < |p| ==> p[k].local == q[k].local && p[k].remote == q[k].remote
  }

  lemma {:induction false} SameCount(p: seq<Pair>, q: seq<Pair>, i: nat, j: nat)
    requires SameLinks(p, q)
    ensures Count(p, i, j) == Count(q, i, j)
    decreases |p|
  {
    if p != [] {
      SameCount(p[..|p| - 1], q[..|q| - 1], i, j);
    }
  }

  /** Untouched pairs that are in q but not in p. */
  predicate GrowsBy(p: seq<Pair>, q: seq<Pair>, n: nat) {
    && |q| == |p| + n && p == q[..|p|]
    && forall k :: |p| <= k < |q| ==> q[k] == NewPair(q[k].local, q[k].remote)
  }

  lemma {:induction false} PairsForRemoteAdded(p: seq<Pair>, local: nat, locals: nat, r: nat, i: nat, j: nat)
    requires local <= locals && |p| + locals - local <= MAX_PAIRS
    ensures var q := PairsForRemote(p, local, locals, r);
      && GrowsBy(p, q, locals - local)
      && (forall k :: |p| <= k < |q| ==> q[k].local < locals && q[k].remote == r)
      && Count(q, i, j) == Count(p, i, j) + (if local <= i < locals && j == r then 1 else 0)
    decreases locals - local
  {
    hide Count;
    if local < locals {
      PairsForRemoteAdded(p + [NewPair(local, r)], local + 1, locals, r, i, j);
      CountSnoc(p, NewPair(local, r), i, j);
    }
  }

  lemma {:induction false} PairsForLocalAdded(p: seq<Pair>, l: nat, remote: nat, remotes: nat, i: nat, j: nat)
    requires remote <= remotes && |p| + remotes - remote <= MAX_PAIRS
    ensures var q := PairsForLocal(p, l, remote, remotes);
      && GrowsBy(p, q, remotes - remote)
      && (forall k :: |p| <= k < |q| ==> q[k].local == l && q[k].remote < remotes)
      && Count(q, i, j) == Count(p, i, j) + (if i == l && remote <= j < remotes then 1 else 0)
    decreases remotes - remote
  {
    hide Count;
    if remote < remotes {
      PairsForLocalAdded(p + [NewPair(l, remote)], l, remote + 1, remotes, i, j);
      CountSnoc(p, NewPair(l, remote), i, j);
    }
  }

  /** Without the product to bound them, new pairs stop at the capacity of the list. */
  lemma {:induction false} CapacityCuts(p: seq<Pair>, first: nat, end: nat, other: nat)
    requires first <= end && |p| <= MAX_PAIRS
    ensures |PairsForRemote(p, first, end, other)| == Min(1024, |p| + end - first)
    ensures |PairsForLocal(p, other, first, end)| == Min(1024, |p| + end - first)
    decreases end - first
  {
    if first < end && |p| < MAX_PAIRS {
      CapacityCuts(p + [NewPair(first, other)], first + 1, end, other);
      CapacityCuts(p + [NewPair(other, first)], first + 1, end, other);
    }
  }

  // ----- what every step keeps -----

  /** Phase 4 means that a pair is selected; its local candidate, and no other, is flagged. */
  predicate Consistent(s: IceState) {
    && 2 <= s.phase <= 4
    && (s.phase == 4 <==> s.selected.Some?)
    && (s.selected.Some? ==> s.selected.value < |s.pairs| && s.pairs[s.selected.value].succeeded)
    && (forall i :: 0 <= i < |s.locals| ==>
          (s.locals[i].selected <==> s.selected.Some? && i == s.pairs[s.selected.value].local))
  }

  ghost predicate Inv(s: IceState) {
    Linked(s) && IsProduct(s) && Consistent(s)
  }

  lemma Squares(locals: nat, remotes: nat)
    requires locals <= MAX_CANDIDATES && remotes <= MAX_CANDIDATES
    ensures locals * remotes <= MAX_PAIRS
    ensures locals * (remotes + 1) == locals * remotes + locals
    ensures (locals + 1) * remotes == locals * remotes + remotes
  {
    assert locals * remotes <= MAX_CANDIDATES * remotes;
  }

  lemma LearnKeeps(s: IceState, c: Sdp.Candidate)
    requires Inv(s)
    ensures Inv(AddRemote(s, c)) && Grown(s, AddRemote(s, c))
  {
    hide Count, PairsForRemote;
    var t := AddRemote(s, c);
    if t != s {
      var L, R := |s.locals|, |s.remotes|;
      Squares(L, R);
      Squares(L, R + 1);
      forall i: nat, j: nat
        ensures Count(t.pairs, i, j) == if i < L && j < R + 1 then 1 else 0
      {
        PairsForRemoteAdded(s.pairs, 0, L, R, i, j);
        assert Count(s.pairs, i, j) == if i < L && j < R then 1 else 0;
      }
      PairsForRemoteAdded(s.pairs, 0, L, R, 0, 0);
    }
  }

  lemma ReflexiveKeeps(s: IceState, ip: uint32, port: uint16)
    requires Inv(s)
    ensures Inv(AddReflexive(s, ip, port)) && Grown(s, AddReflexive(s, ip, port))
  {
    hide Count, PairsForLocal, Dotted;
    var t := AddReflexive(s, ip, port);
    if t != s {
      var L, R := |s.locals|, |s.remotes|;
      Squares(L, R);
      Squares(L + 1, R);
      forall i: nat, j: nat
        ensures Count(t.pairs, i, j) == if i < L + 1 && j < R then 1 else 0
      {
        PairsForLocalAdded(s.pairs, L, 0, R, i, j);
        assert Count(s.pairs, i, j) == if i < L && j < R then 1 else 0;
      }
      PairsForLocalAdded(s.pairs, L, 0, R, 0, 0);
    }
  }

  /** Later pairs for earlier ones: same links, success is kept. */
  predicate Advanced(p: seq<Pair>, q: seq<Pair>) {
    SameLinks(p, q) && forall k :: 0 <= k < |p| ==> p[k].succeeded ==> q[k].succeeded
  }

  lemma AdvanceKeeps(s: IceState, q: seq<Pair>)
    requires Inv(s) && Advanced(s.pairs, q)
    ensures Inv(s.(pairs := q)) && Grown(s, s.(pairs := q))
  {
    hide Count;
    forall i: nat, j: nat
      ensures Count(q, i, j) == Count(s.pairs, i, j)
    {
      SameCount(s.pairs, q, i, j);
    }
  }

  lemma SelectKeeps(s: IceState)
    requires Inv(s)
    ensures Inv(Select(s)) && Grown(s, Select(s))
  {
    hide IsProduct, FirstSucceeded;
    assert IsProduct(Select(s)) by { SameSizes(s, Select(s)); }
  }

  lemma SameSizes(s: IceState, t: IceState)
    requires IsProduct(s) && |s.locals| == |t.locals| && s.remotes == t.remotes && s.pairs == t.pairs
    ensures IsProduct(t)
  {
    hide Count;
  }

  /** How a state may change: candidates and links stay, success and a selection are kept. */
  predicate Grown(s: IceState, t: IceState) {
    && |s.locals| <= |t.locals| && |s.remotes| <= |t.remotes| && |s.pairs| <= |t.pairs|
    && s.remotes == t.remotes[..|s.remotes|]
    && s.serverId == t.serverId
    && (forall i :: 0 <= i < |s.locals| ==> t.locals[i].(selected := s.locals[i].selected) == s.locals[i])
    && Advanced(s.pairs, t.pairs[..|s.pairs|])
    && s.phase <= t.phase
    && (s.selected.Some? ==> t.selected == s.selected)
  }

  lemma GrownTwice(s: IceState, t: IceState, u: IceState)
    requires Grown(s, t) && Grown(t, u)
    ensures Grown(s, u)
  {
    forall i | 0 <= i < |s.locals|
      ensures u.locals[i].(selected := s.locals[i].selected) == s.locals[i]
    {
      assert t.locals[i].(selected := s.locals[i].selected) == s.locals[i];
      assert u.locals[i].(selected := t.locals[i].selected) == t.locals[i];
    }
    forall k | 0 <= k < |s.pairs|
      ensures u.pairs[k].local == s.pairs[k].local && u.pairs[k].remote == s.pairs[k].remote
      ensures s.pairs[k].succeeded ==> u.pairs[k].succeeded
    {
      assert t.pairs[..|s.pairs|][k] == t.pairs[k] && u.pairs[..|t.pairs|][k] == u.pairs[k];
    }
    assert s.remotes == u.remotes[..|s.remotes|] by {
      assert u.remotes[..|t.remotes|][..|s.remotes|] == u.remotes[..|s.remotes|];
    }
  }

  lemma GrownSame(s: IceState)
    ensures Grown(s, s)
  {
  }

  lemma {:induction false} AnsweredAt(pairs: seq<Pair>, id: TransactionId, k: nat)
    requires k < |pairs|
    ensures Answered(pairs, id)[k] ==
      if pairs[k].id == Some(id) && (forall m :: 0 <= m < k ==> pairs[m].id != Some(id))
      then pairs[k].(succeeded := true) else pairs[k]
    decreases |pairs|
  {
    if pairs[0].id != Some(id) && k > 0 {
      AnsweredAt(pairs[1..], id, k - 1);
      assert forall m :: 0 <= m < k - 1 ==> pairs[1..][m] == pairs[m + 1];
      assert pairs[1..][k - 1] == pairs[k];
    }
  }

  lemma PacketKeeps(s: IceState, b: Datagram, len: Length, source: Option<Address>)
    requires Inv(s)
    ensures Inv(Packet(s, b, len, source)) && Grown(s, Packet(s, b, len, source))
  {
    hide Inv, Grown, Comes, Processed, AddReflexive, Answered, Read16, IsStun;
    GrownSame(s);
    if IsStun(b, len) {
      if Read16(b, 0) == BINDING_REQUEST {
        if source.Some? {
          AdvanceKeeps(s, Marked(s, source.value));
        }
      } else {
        var t := AfterResponse(s, b);
        if t != s {
          forall k | 0 <= k < |s.pairs|
            ensures t.pairs[k] == s.pairs[k] || t.pairs[k] == s.pairs[k].(succeeded := true)
          {
            AnsweredAt(s.pairs, Incoming(b), k);
          }
          AdvanceKeeps(s, t.pairs);
        }
        var seen := Processed(b, len, 64, 0);
        if seen.status == Ok {
          FoundWhenOk(b, len);
          ReflexiveKeeps(t, seen.seen.ip.value, seen.seen.port);
          GrownTwice(s, t, AddReflexive(t, seen.seen.ip.value, seen.seen.port));
        }
      }
    }
  }

  lemma TickKeeps(s: IceState, now: uint64, clocks: nat -> uint64)
    requires Inv(s)
    ensures Inv(Tick(s, now, clocks)) && Grown(s, Tick(s, now, clocks))
  {
    hide Inv, Grown, Select, Due, IdAt;
    InvPhase(s);
    GrownSame(s);
    if s.phase >= 2 {
      var t := s.(phase := if s.phase == 2 then 3 else s.phase);
      Checking(s);
      AdvanceKeeps(t, Pinged(s.pairs, now, clocks));
      var u := t.(pairs := Pinged(s.pairs, now, clocks));
      GrownTwice(s, t, u);
      SelectKeeps(u);
      GrownTwice(s, u, Select(u));
    }
  }

  lemma InvPhase(s: IceState)
    requires Inv(s)
    ensures 2 <= s.phase <= 4
  {
    hide IsProduct;
  }

  lemma Checking(s: IceState)
    requires Inv(s)
    ensures var t := s.(phase := if s.phase == 2 then 3 else s.phase); Inv(t) && Grown(s, t)
  {
    hide Count;
  }

  lemma StepKeeps(s: IceState, e: Event)
    requires Inv(s)
    ensures Inv(Step(s, e)) && Grown(s, Step(s, e))
  {
    hide Inv, Grown, AddRemote, Packet, Tick;
    match e
    case Learn(c) => LearnKeeps(s, c);
    case Receive(b, len, source) => PacketKeeps(s, b, len, source);
    case Elapse(now, clocks) => TickKeeps(s, now, clocks);
  }

  lemma {:induction false} HostsAdded(locals: seq<Candidate>, addresses: seq<uint32>, port: uint16)
    requires |locals| <= MAX_CANDIDATES && forall i :: 0 <= i < |locals| ==> !locals[i].selected
    ensures var r := AddHosts(locals, addresses, port);
      |r| <= MAX_CANDIDATES && forall i :: 0 <= i < |r| ==> !r[i].selected
    decreases |addresses|
  {
    hide Dotted, HostPriority;
    if addresses != [] {
      HostsAdded(AddLocal(locals, Dotted(addresses[0]), port, HostPriority(|locals|)), addresses[1..], port);
    }
  }

  lemma GatheredInv(addresses: seq<uint32>, port: Option<uint16>, server: Option<uint64>)
    ensures Inv(Gathered(addresses, port, server))
  {
    hide AddHosts, IdAt;
    if port.Some? {
      HostsAdded([], addresses, port.value);
    }
    var s := Gathered(addresses, port, server);
    assert |s.locals| * 0 == 0;
  }

  lemma {:induction false} RunKeeps(s: IceState, events: seq<Event>)
    requires Inv(s)
    ensures Inv(Run(s, events))
    decreases |events|
  {
    hide Inv, Step;
    if events != [] {
      RunKeeps(s, events[..|events| - 1]);
      StepKeeps(Run(s, events[..|events| - 1]), events[|events| - 1]);
    }
  }

  /**
   * Whatever arrives in whatever order, the check list holds every pair of a local and a remote
   * candidate once, and exactly one local candidate is flagged once a pair is selected.
   */
  lemma AlwaysProduct(addresses: seq<uint32>, port: Option<uint16>, server: Option<uint64>, events: seq<Event>)
    ensures var t := Run(Gathered(addresses, port, server), events);
      IsProduct(t) && Consistent(t) && Linked(t)
  {
    hide Gathered, Run, IsProduct, Consistent, Linked;
    GatheredInv(addresses, port, server);
    RunKeeps(Gathered(addresses, port, server), events);
  }

  lemma {:induction false} RunGrows(s: IceState, events: seq<Event>, m: nat, n: nat)
    requires Inv(s) && m <= n <= |events|
    ensures Grown(Run(s, events[..m]), Run(s, events[..n]))
    decreases n
  {
    hide Inv, Grown, Run, Step;
    if m == n {
      GrownSame(Run(s, events[..m]));
    } else {
      RunGrows(s, events, m, n - 1);
      RunKeeps(s, events[..n - 1]);
      RunStep(s, events, n - 1);
      StepKeeps(Run(s, events[..n - 1]), events[n - 1]);
      GrownTwice(Run(s, events[..m]), Run(s, events[..n - 1]), Run(s, events[..n]));
    }
  }

  /**
   * Once a pair is selected it stays selected and succeeded and joins the same candidates; the phase
   * never goes back.
   */
  lemma SelectionStable(s: IceState, events: seq<Event>, m: nat, n: nat)
    requires Inv(s) && m <= n <= |events|
    ensures var t, u := Run(s, events[..m]), Run(s, events[..n]);
      && t.phase <= u.phase
      && (t.selected.Some? ==>
            var k := t.selected.value;
            && k < |t.pairs| <= |u.pairs|
            && u.selected == t.selected && IsConnected(u)
            && u.pairs[k].local == t.pairs[k].local && u.pairs[k].remote == t.pairs[k].remote)
  {
    hide Run, IsProduct;
    RunGrows(s, events, m, n);
    RunKeeps(s, events[..m]);
    RunKeeps(s, events[..n]);
    var t, u := Run(s, events[..m]), Run(s, events[..n]);
    if t.selected.Some? {
      assert u.pairs[..|t.pairs|][t.selected.value] == u.pairs[t.selected.value];
    }
  }

  /** Only a tick selects, and it takes the succeeded pair with the lowest index. */
  lemma LowestSelected(s: IceState, e: Event)
    requires Inv(s) && s.selected.None?
    ensures var t := Step(s, e);
      && (t.selected.Some? ==> e.Elapse?)
      && (t.selected.Some? ==>
            && t.selected.value < |t.pairs| && t.pairs[t.selected.value].succeeded
            && forall k :: 0 <= k < t.selected.value ==> !t.pairs[k].succeeded)
      && (e.Elapse? && t.selected.None? ==> forall k :: 0 <= k < |t.pairs| ==> !t.pairs[k].succeeded)
  {
    hide IsProduct, Due, IdAt, Answered, Marked, Processed, PairsForRemote, PairsForLocal, Flagged;
  }

  // ----- why a pair succeeds -----

  /** A text with the four bytes of an address in decimal, most significant first. */
  predicate Spells(text: string, ip: uint32) {
    text == Text.Decimal(ip / 0x100_0000) + "." + Text.Decimal(ip / 0x1_0000 % 0x100) + "."
            + Text.Decimal(ip / 0x100 % 0x100) + "." + Text.Decimal(ip % 0x100)
  }

  /** The candidate has this port, and its address is written as this one is. */
  predicate Names(c: Candidate, source: Address) {
    c.port == source.port && Spells(c.ip, source.ip)
  }

  predicate IsRequest(b: Datagram, len: nat) {
    len >= 8 && b[..2] == [0x00, 0x01] && b[4..8] == [0x21, 0x12, 0xA4, 0x42]
  }

  predicate IsResponse(b: Datagram, len: nat) {
    len >= 8 && b[..2] == [0x01, 0x01] && b[4..8] == [0x21, 0x12, 0xA4, 0x42]
  }

  /**
   * The event makes pair k succeed: a request from the address and port of its remote candidate, or a
   * response with the id of its latest ping that is not the server's and that no earlier pair waits for.
   */
  predicate Confirms(s: IceState, e: Event, k: nat) {
    && k < |s.pairs| && e.Receive?
    && if IsRequest(e.b, e.len)
       then e.source.Some? && s.pairs[k].remote < |s.remotes| && Names(s.remotes[s.pairs[k].remote], e.source.value)
       else
         && IsResponse(e.b, e.len) && s.serverId != Some(e.b[8..20])
         && s.pairs[k].id == Some(e.b[8..20])
         && forall m :: 0 <= m < k ==> s.pairs[m].id != Some(e.b[8..20])
  }

  lemma HeaderRead(b: Datagram, len: nat)
    ensures IsRequest(b, len) <==> IsStun(b, len) && Read16(b, 0) == BINDING_REQUEST
    ensures IsResponse(b, len) <==> IsStun(b, len) && Read16(b, 0) == BINDING_RESPONSE
  {
    assert b[4..8] == [b[4], b[5], b[6], b[7]] && b[..2] == [b[0], b[1]];
    Bytes32RoundTrip(b[4], b[5], b[6], b[7]);
  }

  lemma ComesFrom(remotes: seq<Candidate>, p: Pair, source: Address)
    ensures Comes(remotes, p, source) <==> p.remote < |remotes| && Names(remotes[p.remote], source)
  {
    hide Text.Decimal;
  }

  /** Reading the decimals back: what spells an address spells no other. */
  lemma SpellsOne(text: string, a: uint32, b: uint32)
    requires Spells(text, a) && Spells(text, b)
    ensures a == b
  {
    hide Text.Decimal;
    var a0, a1, a2, a3 := a / 0x100_0000, a / 0x1_0000 % 0x100, a / 0x100 % 0x100, a % 0x100;
    var b0, b1, b2, b3 := b / 0x100_0000, b / 0x1_0000 % 0x100, b / 0x100 % 0x100, b % 0x100;
    var s2, t2 := Text.Decimal(a2) + ("." + Text.Decimal(a3)), Text.Decimal(b2) + ("." + Text.Decimal(b3));
    var s1, t1 := Text.Decimal(a1) + ("." + s2), Text.Decimal(b1) + ("." + t2);
    Nested(Text.Decimal(a0), Text.Decimal(a1), Text.Decimal(a2), Text.Decimal(a3));
    Nested(Text.Decimal(b0), Text.Decimal(b1), Text.Decimal(b2), Text.Decimal(b3));
    NumberThenDot(a0, s1, b0, t1);
    NumberThenDot(a1, s2, b1, t2);
    NumberThenDot(a2, Text.Decimal(a3), b2, Text.Decimal(b3));
    Text.Uint64Alone(a3);
    Text.Uint64Alone(b3);
    Word32RoundTrip(a);
    Word32RoundTrip(b);
  }

  lemma Nested(a: string, b: string, c: string, d: string)
    ensures a + "." + b + "." + c + "." + d == a + ("." + (b + ("." + (c + ("." + d)))))
  {
  }

  lemma NumberThenDot(a: nat, s: string, b: nat, t: string)
    requires Text.Decimal(a) + ("." + s) == Text.Decimal(b) + ("." + t)
    ensures a == b && s == t
  {
    hide Text.Decimal, Text.Scan;
    var text := Text.Decimal(a) + ("." + s);
    assert "" + text == text;
    Text.NumberRead("", a, "." + s);
    Text.NumberRead("", b, "." + t);
    assert ("." + s)[1..] == s && ("." + t)[1..] == t;
  }

  lemma SelectPairs(s: IceState)
    ensures Select(s).pairs == s.pairs
  {
  }

  lemma ResponseConfirms(s: IceState, b: Datagram, len: Length, source: Option<Address>, k: nat)
    requires Inv(s) && IsStun(b, len) && Read16(b, 0) != BINDING_REQUEST
    requires k < |Step(s, Receive(b, len, source)).pairs|
    ensures Step(s, Receive(b, len, source)).pairs[k].succeeded
      <==> (k < |s.pairs| && s.pairs[k].succeeded) || Confirms(s, Receive(b, len, source), k)
  {
    hide IsProduct, Due, IdAt, Processed, PairsForRemote, PairsForLocal, Select, Read16, IsStun, Comes, Dotted, Names,
      IsRequest, IsResponse;
    HeaderRead(b, len);
    var t := AfterResponse(s, b);
    if k < |s.pairs| {
      AnsweredAt(s.pairs, Incoming(b), k);
    }
    var seen := Processed(b, len, 64, 0);
    if seen.status == Ok && |s.locals| < MAX_CANDIDATES {
      PairsWithin(s);
      Squares(|s.locals| + 1, |s.remotes|);
      Squares(|s.locals|, |s.remotes|);
      PairsForLocalAdded(t.pairs, |s.locals|, 0, |s.remotes|, 0, 0);
    }
  }

  /** New pairs have not succeeded; old ones succeed by confirmation only. */
  lemma StepConfirms(s: IceState, e: Event, k: nat)
    requires Inv(s) && k < |Step(s, e).pairs|
    ensures Step(s, e).pairs[k].succeeded <==> (k < |s.pairs| && s.pairs[k].succeeded) || Confirms(s, e, k)
  {
    hide IsProduct, Due, IdAt, Processed, PairsForRemote, PairsForLocal, Select, Read16, IsStun, Comes, Dotted,
      AfterResponse, Names, IsRequest, IsResponse;
    match e
    case Learn(c) =>
      Squares(|s.locals|, |s.remotes|);
      PairsWithin(s);
      if AddRemote(s, c) != s {
        PairsForRemoteAdded(s.pairs, 0, |s.locals|, |s.remotes|, 0, 0);
      }
    case Elapse(now, clocks) =>
      if s.phase >= 2 {
        SelectPairs(s.(phase := if s.phase == 2 then 3 else s.phase, pairs := Pinged(s.pairs, now, clocks)));
      }
    case Receive(b, len, source) =>
      HeaderRead(b, len);
      if IsStun(b, len) && Read16(b, 0) != BINDING_REQUEST {
        ResponseConfirms(s, b, len, source, k);
      } else if source.Some? && k < |s.pairs| {
        ComesFrom(s.remotes, s.pairs[k], source.value);
      }
  }

  /** One request confirms no two pairs whose remote candidates differ in address or port. */
  lemma OneRemoteConfirmed(s: IceState, b: Datagram, len: Length, source: Address, j: nat, k: nat)
    requires Inv(s) && j < |s.pairs| && k < |s.pairs| && IsRequest(b, len)
    requires !s.pairs[j].succeeded && !s.pairs[k].succeeded
    requires var l, r := s.remotes[s.pairs[j].remote], s.remotes[s.pairs[k].remote];
      l.ip != r.ip || l.port != r.port
    ensures var t := Step(s, Receive(b, len, Some(source)));
      j < |t.pairs| && k < |t.pairs| && !(t.pairs[j].succeeded && t.pairs[k].succeeded)
  {
    hide IsProduct, Step;
    var e := Receive(b, len, Some(source));
    StepKeeps(s, e);
    StepConfirms(s, e, j);
    StepConfirms(s, e, k);
  }

  lemma PairsWithin(s: IceState)
    requires Inv(s)
    ensures |s.pairs| == |s.locals| * |s.remotes|
    ensures |s.remotes| < MAX_CANDIDATES ==> |s.pairs| + |s.locals| <= MAX_PAIRS
    ensures |s.locals| < MAX_CANDIDATES ==> |s.pairs| + |s.remotes| <= MAX_PAIRS
  {
    hide Count;
    Squares(|s.locals|, |s.remotes|);
    if |s.remotes| < MAX_CANDIDATES {
      Squares(|s.locals|, |s.remotes| + 1);
    }
    if |s.locals| < MAX_CANDIDATES {
      Squares(|s.locals| + 1, |s.remotes|);
    }
  }

  ghost predicate Confirmed(s: IceState, events: seq<Event>, n: nat, k: nat) {
    exists m :: 0 <= m < n <= |events| && Confirms(Run(s, events[..m]), events[m], k)
  }

  /**
   * A pair has succeeded exactly when, at some point of the run, a request came from its remote
   * address or a response carried the transaction id of its then latest ping, no pair before it
   * waiting for the same id.
   */
  lemma {:induction false} SucceededExactly(s: IceState, events: seq<Event>, n: nat, k: nat)
    requires Inv(s) && (forall i :: 0 <= i < |s.pairs| ==> !s.pairs[i].succeeded)
    requires n <= |events| && k < |Run(s, events[..n]).pairs|
    ensures Run(s, events[..n]).pairs[k].succeeded <==> Confirmed(s, events, n, k)
    decreases n
  {
    hide Inv, Run, Step, Confirms;
    if n == 0 {
      RunNothing(s, events);
    } else {
      var t, u := Run(s, events[..n - 1]), Run(s, events[..n]);
      RunKeeps(s, events[..n - 1]);
      RunStep(s, events, n - 1);
      StepConfirms(t, events[n - 1], k);
      if k < |t.pairs| {
        SucceededExactly(s, events, n - 1, k);
      } else {
        NotYet(s, events, n - 1, k);
      }
    }
  }

  lemma RunNothing(s: IceState, events: seq<Event>)
    ensures Run(s, events[..0]) == s
  {
  }

  lemma ConfirmsWithin(s: IceState, e: Event, k: nat)
    requires Confirms(s, e, k)
    ensures k < |s.pairs|
  {
  }

  lemma NotYet(s: IceState, events: seq<Event>, n: nat, k: nat)
    requires Inv(s) && n <= |events| && k >= |Run(s, events[..n]).pairs|
    ensures !Confirmed(s, events, n, k)
  {
    hide Inv, Run, Confirms;
    forall m | 0 <= m < n
      ensures !Confirms(Run(s, events[..m]), events[m], k)
    {
      RunGrows(s, events, m, n);
      if Confirms(Run(s, events[..m]), events[m], k) {
        ConfirmsWithin(Run(s, events[..m]), events[m], k);
      }
    }
  }

  /** A succeeded pair is enough: the next tick connects. */
  lemma NextTickConnects(s: IceState, now: uint64, clocks: nat -> uint64, k: nat)
    requires Inv(s) && k < |s.pairs| && s.pairs[k].succeeded
    ensures var t := Tick(s, now, clocks); IsConnected(t) && t.phase == 4
  {
    hide IsProduct, IdAt;
    TickKeeps(s, now, clocks);
    assert Pinged(s.pairs, now, clocks)[k].succeeded;
  }

  // ----- pacing of pings -----

  /** The event pings pair k: a tick, for the first time or over three seconds after the last one. */
  predicate Pings(s: IceState, e: Event, k: nat) {
    && e.Elapse? && s.phase >= 2 && k < |s.pairs| && !s.pairs[k].succeeded
    && (s.pairs[k].lastPing == 0 || (e.now - s.pairs[k].lastPing) % TWO_64 > 3000)
  }

  /** The id made from a reading of the clock: all of it, and the upper half of its product with 31337. */
  predicate IsIdOf(id: TransactionId, clock: uint64) {
    id[..8] == BigEndian(8, clock) && id[8..] == BigEndian(4, clock * 31337 % TWO_64 / TWO_32)
  }

  lemma IdParts(clock: uint64)
    ensures IsIdOf(IdAt(clock), clock)
  {
    hide BigEndian;
    var v := clock * 31337 % TWO_64;
    UpperHalf(v);
    assert IdAt(clock)[8..] == BigEndian(8, v)[..4];
  }

  lemma UpperHalf(v: nat)
    ensures BigEndian(8, v)[..4] == BigEndian(4, v / TWO_32)
  {
    hide BigEndian;
    BigEndianSnoc(8, v);
    BigEndianSnoc(7, v / 0x100);
    BigEndianSnoc(6, v / 0x100 / 0x100);
    BigEndianSnoc(5, v / 0x100 / 0x100 / 0x100);
  }

  ghost predicate ClockRuns(events: seq<Event>) {
    forall a, b :: 0 <= a <= b < |events| && events[a].Elapse? && events[b].Elapse? ==> events[a].now <= events[b].now
  }

  lemma PacketPingsNone(s: IceState, b: Datagram, len: Length, source: Option<Address>, k: nat)
    requires Inv(s) && k < |s.pairs|
    ensures var t := Packet(s, b, len, source);
      k < |t.pairs| && t.pairs[k].lastPing == s.pairs[k].lastPing && t.pairs[k].id == s.pairs[k].id
  {
    hide IsProduct, Processed, PairsForLocal, Comes, Read16, IsStun, Dotted;
    if IsStun(b, len) && Read16(b, 0) != BINDING_REQUEST {
      AnsweredAt(s.pairs, Incoming(b), k);
      var t := AfterResponse(s, b);
      if Processed(b, len, 64, 0).status == Ok && |s.locals| < MAX_CANDIDATES {
        PairsWithin(s);
        PairsForLocalAdded(t.pairs, |s.locals|, 0, |s.remotes|, 0, 0);
      }
    }
  }

  lemma StepPings(s: IceState, e: Event, k: nat)
    requires Inv(s) && k < |s.pairs|
    ensures k < |Step(s, e).pairs|
    ensures Step(s, e).pairs[k].lastPing == if Pings(s, e, k) then e.now else s.pairs[k].lastPing
    ensures var id := Step(s, e).pairs[k].id;
      if Pings(s, e, k) then id.Some? && IsIdOf(id.value, e.clocks(k)) else id == s.pairs[k].id
  {
    hide IsProduct, IdAt, IsIdOf, Packet, PairsForRemote, Select;
    match e
    case Learn(c) =>
      PairsWithin(s);
      if AddRemote(s, c) != s {
        PairsForRemoteAdded(s.pairs, 0, |s.locals|, |s.remotes|, 0, 0);
      }
    case Elapse(now, clocks) =>
      InvPhase(s);
      IdParts(clocks(k));
      SelectPairs(s.(phase := if s.phase == 2 then 3 else s.phase, pairs := Pinged(s.pairs, now, clocks)));
    case Receive(b, len, source) =>
      PacketPingsNone(s, b, len, source, k);
  }

  lemma {:induction false} LastPingBetween(s: IceState, events: seq<Event>, m: nat, j: nat, n: nat, k: nat)
    requires Inv(s) && ClockRuns(events) && m < j <= n < |events| && events[n].Elapse?
    requires Pings(Run(s, events[..m]), events[m], k)
    ensures var t := Run(s, events[..j]); k < |t.pairs| && events[m].now <= t.pairs[k].lastPing <= events[n].now
    decreases j
  {
    hide Inv, Run, Step;
    var t := Run(s, events[..j - 1]);
    RunKeeps(s, events[..j - 1]);
    RunStep(s, events, j - 1);
    if j - 1 > m {
      LastPingBetween(s, events, m, j - 1, n, k);
    }
    StepPings(t, events[j - 1], k);
  }

  /** Two pings of one pair, at non-zero times of a clock that does not run back, are over three seconds apart. */
  lemma PingsSpaced(s: IceState, events: seq<Event>, m: nat, n: nat, k: nat)
    requires Inv(s) && ClockRuns(events) && m < n < |events|
    requires Pings(Run(s, events[..m]), events[m], k) && events[m].now != 0
    requires Pings(Run(s, events[..n]), events[n], k)
    ensures events[n].now - events[m].now > RETRY_MS
  {
    hide Inv, Run, Step;
    LastPingBetween(s, events, m, n, n, k);
  }

  lemma {:induction false} PingRemembered(s: IceState, events: seq<Event>, m: nat, n: nat, k: nat)
    requires Inv(s) && m < n <= |events| && Pings(Run(s, events[..m]), events[m], k)
    requires forall j :: m < j < n ==> !Pings(Run(s, events[..j]), events[j], k)
    ensures var t := Run(s, events[..n]); k < |t.pairs| && t.pairs[k].lastPing == events[m].now
    decreases n
  {
    hide Inv, Run, Step, Pings;
    RunKeeps(s, events[..n - 1]);
    RunStep(s, events, n - 1);
    if m < n - 1 {
      PingRemembered(s, events, m, n - 1, k);
    }
    PingsWithin(Run(s, events[..m]), events[m], k);
    StepPings(Run(s, events[..n - 1]), events[n - 1], k);
  }

  lemma PingsWithin(s: IceState, e: Event, k: nat)
    requires Pings(s, e, k)
    ensures e.Elapse? && k < |s.pairs|
  {
  }

  /** Exactly when a pair is pinged again: it has not succeeded and the last ping is over three seconds old. */
  lemma PingedAgain(s: IceState, events: seq<Event>, m: nat, n: nat, k: nat)
    requires Inv(s) && ClockRuns(events) && m < n < |events| && events[n].Elapse?
    requires Pings(Run(s, events[..m]), events[m], k) && events[m].now != 0
    requires forall j :: m < j < n ==> !Pings(Run(s, events[..j]), events[j], k)
    ensures var t := Run(s, events[..n]);
      && k < |t.pairs|
      && (Pings(t, events[n], k) <==> !t.pairs[k].succeeded && events[n].now - events[m].now > 3000)
  {
    hide Inv, Run, Step;
    PingRemembered(s, events, m, n, k);
    RunKeeps(s, events[..n]);
    InvPhase(Run(s, events[..n]));
    assert events[m].now <= events[n].now;
  }

  // ----- gathering -----

  /** No two candidates share address and port. */
  predicate Distinct(locals: seq<Candidate>) {
    forall i, j :: 0 <= i < j < |locals| ==> locals[i].ip != locals[j].ip || locals[i].port != locals[j].port
  }

  lemma {:induction false} HostsComplete(locals: seq<Candidate>, addresses: seq<uint32>, port: uint16)
    requires |locals| <= MAX_CANDIDATES && Distinct(locals)
    ensures var r := AddHosts(locals, addresses, port);
      && Distinct(r) && locals <= r && |r| <= MAX_CANDIDATES
      && forall a :: a in addresses ==> Known(r, Dotted(a), port) || |r| == MAX_CANDIDATES
    decreases |addresses|
  {
    hide Dotted, HostPriority;
    if addresses != [] {
      var first := Dotted(addresses[0]);
      var next := AddLocal(locals, first, port, HostPriority(|locals|));
      HostsComplete(next, addresses[1..], port);
      var r := AddHosts(next, addresses[1..], port);
      assert Known(next, first, port) || |next| == MAX_CANDIDATES by { AddedKnown(locals, first, port); }
      if Known(next, first, port) {
        KnownStays(next, r, first, port);
      }
      forall a | a in addresses
        ensures Known(r, Dotted(a), port) || |r| == MAX_CANDIDATES
      {
        assert a == addresses[0] || a in addresses[1..];
      }
    }
  }

  lemma AddedKnown(locals: seq<Candidate>, ip: string, port: uint16)
    requires |locals| <= MAX_CANDIDATES
    ensures var next := AddLocal(locals, ip, port, HostPriority(|locals|));
      Known(next, ip, port) || |next| == MAX_CANDIDATES
  {
    hide HostPriority;
    var next := AddLocal(locals, ip, port, HostPriority(|locals|));
    if |next| > |locals| {
      assert next[|locals|].ip == ip && next[|locals|].port == port;
    }
  }

  lemma KnownStays(a: seq<Candidate>, b: seq<Candidate>, ip: string, port: uint16)
    requires a <= b && Known(a, ip, port)
    ensures Known(b, ip, port)
  {
    var i :| 0 <= i < |a| && a[i].ip == ip && a[i].port == port;
    assert b[i] == a[i];
  }

  /** With a socket there is always a host candidate, none twice, and one for every address while there is room. */
  lemma GatheredHosts(addresses: seq<uint32>, port: uint16, server: Option<uint64>)
    ensures var locals := Gathered(addresses, Some(port), server).locals;
      && locals != [] && Distinct(locals)
      && forall a :: a in addresses ==> Known(locals, Dotted(a), port) || |locals| == MAX_CANDIDATES
  {
    hide Dotted, IdAt, AddHosts;
    HostsComplete([], addresses, port);
  }

  // ----- candidates, field by field -----

  lemma {:induction false} PairsForRemoteAt(p: seq<Pair>, local: nat, locals: nat, r: nat, k: nat)
    requires local <= k < locals && |p| + locals - local <= MAX_PAIRS
    ensures var q := PairsForRemote(p, local, locals, r);
      var at := |p| + k - local;
      at < |q| && q[at] == Pair(k, r, false, 0, None)
    decreases locals - local
  {
    var next := p + [NewPair(local, r)];
    PairsForRemoteAdded(next, local + 1, locals, r, 0, 0);
    assert PairsForRemote(next, local + 1, locals, r)[..|next|][|p|] == next[|p|];
    if local < k {
      PairsForRemoteAt(next, local + 1, locals, r, k);
    }
  }

  /**
   * Learning a candidate: it is kept when its protocol is UDP in any case of letters and there is room,
   * and paired with the local candidates in their order.
   */
  lemma LearnExactly(s: IceState, c: Sdp.Candidate)
    requires Inv(s)
    ensures var t := Step(s, Learn(c));
      var udp := |c.protocol| == 3 && forall i :: 0 <= i < 3 ==> c.protocol[i] == "udp"[i] || c.protocol[i] == "UDP"[i];
      if |s.remotes| == 32 || !udp then t == s
      else
        var kind := if c.kind == "host" then Host else if c.kind == "srflx" then ServerReflexive else Relay;
        && t == s.(remotes := s.remotes + [Candidate(kind, c.priority, c.ip, c.port, c.protocol, c.ipv6, false)],
                   pairs := t.pairs)
        && GrowsBy(s.pairs, t.pairs, |s.locals|)
        && forall i :: 0 <= i < |s.locals| ==> t.pairs[|s.pairs| + i] == Pair(i, |s.remotes|, false, 0, None)
  {
    hide IsProduct, PairsForRemote;
    UdpLetters(c.protocol);
    PairsWithin(s);
    if AddRemote(s, c) != s {
      PairsForRemoteAdded(s.pairs, 0, |s.locals|, |s.remotes|, 0, 0);
      forall i | 0 <= i < |s.locals|
        ensures Step(s, Learn(c)).pairs[|s.pairs| + i] == Pair(i, |s.remotes|, false, 0, None)
      {
        PairsForRemoteAt(s.pairs, 0, |s.locals|, |s.remotes|, i);
      }
    }
  }

  lemma UdpLetters(protocol: string)
    ensures IsUdp(protocol) <==>
      |protocol| == 3 && forall i :: 0 <= i < 3 ==> protocol[i] == "udp"[i] || protocol[i] == "UDP"[i]
  {
  }

  lemma DottedSpells(ip: uint32)
    ensures Spells(Dotted(ip), ip) && ':' !in Dotted(ip)
  {
    hide Text.Decimal;
  }

  /** The priority of a candidate: the alternatives of the bits of 126 * 2^24 and of 126 less ten for each before it. */
  predicate IsHostPriority(priority: uint32, before: nat) {
    priority == Or(32, 126 * 0x100_0000, (126 - 10 * before) % TWO_32)
  }

  lemma HostPriorityBits(n: nat)
    requires n <= MAX_CANDIDATES
    ensures IsHostPriority(HostPriority(n), n)
  {
    hide Or;
    var low: nat := (126 - 10 * n) % TWO_32;
    OrOverLow(low);
    HighBits();
    if 10 * n <= 126 {
      assert low == 126 - 10 * n && low / 0x100_0000 == 0;
    } else {
      assert low == TWO_32 + 126 - 10 * n && low / 0x100_0000 == 0xFF;
    }
  }

  lemma OrOverLow(low: nat)
    requires low < TWO_32
    ensures Or(32, 126 * 0x100_0000, low) == Or(8, 126, low / 0x100_0000) * 0x100_0000 + low % 0x100_0000
  {
    hide Or, Pow2;
    Pow2Of24();
    OrParts(8, 24, 126, 0, low / 0x100_0000, low % 0x100_0000);
    OrOfZero(24, low % 0x100_0000);
  }

  lemma Pow2Of24()
    ensures Pow2(24) == 0x100_0000
  {
    assert Pow2(8) == 0x100 by { assert Pow2(4) == 16; }
    assert Pow2(16) == 0x1_0000 by { assert Pow2(12) == 0x1000; }
    assert Pow2(20) == 0x10_0000;
  }

  lemma HighBits()
    ensures Or(8, 126, 0) == 126 && Or(8, 126, 0xFF) == 0xFF
  {
    hide Or;
    Pow2Of8();
    OrOfZero(8, 126);
    OrOfOnes(8, 126);
  }

  /** A host candidate of this agent, the n-th it has. */
  predicate IsHost(c: Candidate, port: uint16, n: nat) {
    && c.kind == Host && c.port == port && c.protocol == "udp" && !c.ipv6 && !c.selected
    && IsHostPriority(c.priority, n)
  }

  ghost predicate SpellsOneOf(text: string, addresses: seq<uint32>) {
    exists a :: a in addresses && Spells(text, a)
  }

  lemma NewHost(locals: seq<Candidate>, ip: uint32, addresses: seq<uint32>, port: uint16)
    requires |locals| < MAX_CANDIDATES && ip in addresses
    ensures var c := Local(Host, Dotted(ip), port, HostPriority(|locals|));
      IsHost(c, port, |locals|) && SpellsOneOf(c.ip, addresses)
  {
    hide Dotted, HostPriority, Spells, IsHostPriority;
    DottedSpells(ip);
    HostPriorityBits(|locals|);
  }

  /** Host candidates of this agent for some of the addresses. */
  ghost predicate AllHosts(locals: seq<Candidate>, addresses: seq<uint32>, port: uint16) {
    forall i :: 0 <= i < |locals| ==> IsHost(locals[i], port, i) && SpellsOneOf(locals[i].ip, addresses)
  }

  lemma HostAdded(locals: seq<Candidate>, ip: uint32, addresses: seq<uint32>, port: uint16)
    requires |locals| <= MAX_CANDIDATES && ip in addresses && AllHosts(locals, addresses, port)
    ensures AllHosts(AddLocal(locals, Dotted(ip), port, HostPriority(|locals|)), addresses, port)
  {
    hide Dotted, HostPriority, SpellsOneOf, IsHost, Known, Local;
    if |locals| < MAX_CANDIDATES {
      NewHost(locals, ip, addresses, port);
    }
  }

  lemma {:induction false} HostsSpelled(locals: seq<Candidate>, addresses: seq<uint32>, all: seq<uint32>, port: uint16)
    requires |locals| <= MAX_CANDIDATES && forall a :: a in addresses ==> a in all
    requires AllHosts(locals, all, port)
    ensures AllHosts(AddHosts(locals, addresses, port), all, port)
    decreases |addresses|
  {
    hide Dotted, HostPriority, AllHosts, AddLocal;
    if addresses != [] {
      assert addresses[0] in all;
      HostAdded(locals, addresses[0], all, port);
      AddLocalWithin(locals, Dotted(addresses[0]), port, HostPriority(|locals|));
      HostsSpelled(AddLocal(locals, Dotted(addresses[0]), port, HostPriority(|locals|)), addresses[1..], all, port);
    }
  }

  /**
   * What gathering leaves behind: host candidates that spell the given addresses, or the loopback address
   * when there are none, with falling priorities; no pairs yet; and the id of the question to the server.
   */
  lemma GatheredExactly(addresses: seq<uint32>, port: Option<uint16>, server: Option<uint64>)
    ensures var s := Gathered(addresses, port, server);
      && s.phase == 2 && s.remotes == [] && s.pairs == [] && s.selected.None?
      && (port.None? ==> s.locals == [] && s.serverId.None?)
      && (port.Some? ==>
            && (s.serverId.Some? <==> server.Some?)
            && (server.Some? ==> IsIdOf(s.serverId.value, server.value))
            && (forall i :: 0 <= i < |s.locals| ==> IsHost(s.locals[i], port.value, i))
            && (if addresses == [] then |s.locals| == 1 && s.locals[0].ip == "127.0.0.1"
                else forall i :: 0 <= i < |s.locals| ==> SpellsOneOf(s.locals[i].ip, addresses)))
  {
    hide Dotted, HostPriority, Spells, IsIdOf, IsHostPriority, IdAt, AddHosts;
    if port.Some? {
      if server.Some? {
        IdParts(server.value);
      }
      HostPriorityBits(0);
      HostsSpelled([], addresses, addresses, port.value);
      HostsComplete([], addresses, port.value);
      NoHosts(port.value);
      if addresses != [] {
        assert addresses[0] in addresses;
      }
    }
  }

  lemma NoHosts(port: uint16)
    ensures AddHosts([], [], port) == []
  {
  }

  // ----- transaction ids and answers -----

  /** Two pings carry the same id exactly when the millisecond clock showed the same. */
  lemma IdsExactly(a: uint64, b: uint64)
    ensures IdAt(a) == IdAt(b) <==> a == b
  {
    hide BigEndian;
    Pow256Of8();
    ValueOfBigEndian(8, a);
    ValueOfBigEndian(8, b);
    assert IdAt(a)[..8] == BigEndian(8, a) && IdAt(b)[..8] == BigEndian(8, b);
  }

  /** The response that an agent makes, as it lies in the receive buffer of the other. */
  predicate Holds(b: Datagram, len: nat, id: TransactionId, a: Address, password: Bytes, mac: Mac) {
    var m := StunMessages.Response(id, Some(a), password, mac);
    len == |m| && m <= b
  }

  lemma ResponseFields(b: Datagram, len: Length, id: TransactionId, a: Address, password: Bytes, mac: Mac)
    requires Holds(b, len, id, a, password, mac)
    ensures IsStun(b, len) && Read16(b, 0) == BINDING_RESPONSE && Incoming(b) == id
    ensures Processed(b, len, 64, 0) == Outcome(Ok, Seen(Some(a.ip), a.port))
  {
    hide Processed, StunMessages.Response, Read16, Read32;
    var m := StunMessages.Response(id, Some(a), password, mac);
    assert b == m + b[|m|..];
    StunMessages.ResponseRecovered(id, a, password, mac, b[|m|..], 64, 0);
    AcceptedHeader(b, len);
  }

  lemma AcceptedHeader(b: Datagram, len: Length)
    requires Processed(b, len, 64, 0).status == Ok
    ensures IsStun(b, len) && Read16(b, 0) == BINDING_RESPONSE
  {
    hide NoticeAll, Attributes;
  }

  /** A candidate for the address that a server has seen. */
  predicate IsReflexive(c: Candidate, a: Address) {
    && c.kind == ServerReflexive && c.priority == 110 * 0x100_0000 + 255
    && c.port == a.port && Spells(c.ip, a.ip) && c.protocol == "udp" && !c.ipv6 && !c.selected
  }

  predicate AddsReflexive(before: seq<Candidate>, after: seq<Candidate>, a: Address) {
    |after| == |before| + 1 && before == after[..|before|] && IsReflexive(after[|before|], a)
  }

  lemma NewReflexive(before: seq<Candidate>, a: Address)
    ensures AddsReflexive(before, before + [Local(ServerReflexive, Dotted(a.ip), a.port, REFLEXIVE_PRIORITY)], a)
  {
    hide Dotted, Spells;
    DottedSpells(a.ip);
  }

  /**
   * The answer to a ping makes the first pair that waits for its id succeed. It also makes the address
   * that the peer saw a new local candidate, as if the peer were the server.
   */
  lemma AnswerReceived(
    s: IceState, b: Datagram, len: Length, source: Option<Address>, id: TransactionId, a: Address, password: Bytes,
    mac: Mac, k: nat)
    requires Inv(s) && Holds(b, len, id, a, password, mac) && s.serverId != Some(id)
    requires k < |s.pairs| && s.pairs[k].id == Some(id) && forall m :: 0 <= m < k ==> s.pairs[m].id != Some(id)
    ensures var t := Packet(s, b, len, source);
      && k < |t.pairs| && t.pairs[k].succeeded
      && (if |s.locals| >= 32 then t.locals == s.locals
          else AddsReflexive(s.locals, t.locals, a))
  {
    hide Inv, Processed, Holds, Dotted, IsStun, Read16, PairsForLocal, Answered, IsRequest, IsResponse, AddsReflexive, Local;
    ResponseFields(b, len, id, a, password, mac);
    HeaderRead(b, len);
    NewReflexive(s.locals, a);
    StepKeeps(s, Receive(b, len, source));
    GrownPairs(s, Packet(s, b, len, source));
    StepConfirms(s, Receive(b, len, source), k);
  }

  lemma GrownPairs(s: IceState, t: IceState)
    requires Grown(s, t)
    ensures |s.pairs| <= |t.pairs|
  {
  }

  /** The answer of the server changes no pair; the address becomes a local candidate with new pairs of its own. */
  lemma ServerAnswered(
    s: IceState, b: Datagram, len: Length, source: Option<Address>, id: TransactionId, a: Address, password: Bytes,
    mac: Mac)
    requires Inv(s) && Holds(b, len, id, a, password, mac) && s.serverId == Some(id) && |s.locals| < MAX_CANDIDATES
    ensures var t := Packet(s, b, len, source);
      && AddsReflexive(s.locals, t.locals, a)
      && GrowsBy(s.pairs, t.pairs, |s.remotes|)
      && forall k :: |s.pairs| <= k < |t.pairs| ==> t.pairs[k].local == |s.locals| && t.pairs[k].remote < |s.remotes|
  {
    hide Inv, Processed, Holds, Dotted, IsStun, Read16, PairsForLocal, AddsReflexive, Local;
    ResponseFields(b, len, id, a, password, mac);
    NewReflexive(s.locals, a);
    PairsWithin(s);
    PairsForLocalAdded(s.pairs, |s.locals|, 0, |s.remotes|, 0, 0);
  }
}
