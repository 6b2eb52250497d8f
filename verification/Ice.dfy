/**
 * The ICE agent as a state machine: src/ice/ice.c.
 *
 * Candidates and pairs are never removed, so the pointers of the C structures are indices here.
 */
module Ice {
  import opened Octets
  import opened Results
  import opened Stun
  import Sdp
  import StunMessages
  import Text

  const MAX_CANDIDATES := 32
  const MAX_PAIRS := 1024
  /** Receive buffer of the caller. */
  const BUFFER_LEN := 2048
  /** ICE_STUN_TIMEOUT_MS * ICE_MAX_RETRIES. */
  const RETRY_MS := 3000

  datatype Kind = Host | ServerReflexive | Relay

  datatype Candidate = Candidate(
    kind: Kind,
    priority: uint32,
    ip: string,
    port: uint16,
    protocol: string,
    ipv6: bool,
    selected: bool)

  /** `id` is the transaction id of the latest ping. */
  datatype Pair = Pair(local: nat, remote: nat, succeeded: bool, lastPing: uint64, id: Option<TransactionId>)

  /** Phases: 0 new, 1 gathering, 2 gathered, 3 checking, 4 done. */
  datatype IceState = IceState(
    phase: nat,
    locals: seq<Candidate>,
    remotes: seq<Candidate>,
    pairs: seq<Pair>,
    selected: Option<nat>,
    serverId: Option<TransactionId>)

  type Datagram = b: Bytes | |b| == BUFFER_LEN witness seq(BUFFER_LEN, _ => 0)

  const FRESH := IceState(0, [], [], [], None, None)

  // ----- candidates -----

  /** inet_ntop for IPv4. */
  function Dotted(ip: uint32): string {
    var b := Bytes32(ip);
    Text.Decimal(b[0]) + "." + Text.Decimal(b[1]) + "." + Text.Decimal(b[2]) + "." + Text.Decimal(b[3])
  }

  /**
   * ICE_PRIORITY_HOST - 10 * n, as the macro expands: the subtraction binds tighter than the
   * alternatives of the macro and works on 32 bits, so from the fourteenth candidate on it wraps
   * around and sets all high bits.
   */
  function HostPriority(n: nat): uint32
    requires n <= MAX_CANDIDATES
  {
    if 10 * n <= 126 then 126 * 0x100_0000 + 126 - 10 * n else TWO_32 + 126 - 10 * n
  }

  /** ice_calculate_priority for a server-reflexive candidate. */
  const REFLEXIVE_PRIORITY: uint32 := 110 * 0x100_0000 + 255

  function Local(kind: Kind, ip: string, port: uint16, priority: uint32): Candidate {
    Candidate(kind, priority, ip, port, "udp", ':' in ip, false)
  }

  predicate Known(locals: seq<Candidate>, ip: string, port: uint16) {
    exists i :: 0 <= i < |locals| && locals[i].ip == ip && locals[i].port == port
  }

  function AddLocal(locals: seq<Candidate>, ip: string, port: uint16, priority: uint32): seq<Candidate> {
    if |locals| >= MAX_CANDIDATES || Known(locals, ip, port) then locals
    else locals + [Local(Host, ip, port, priority)]
  }

  function AddHosts(locals: seq<Candidate>, addresses: seq<uint32>, port: uint16): seq<Candidate>
    requires |locals| <= MAX_CANDIDATES
    decreases |addresses|
  {
    if addresses == [] then locals
    else AddHosts(AddLocal(locals, Dotted(addresses[0]), port, HostPriority(|locals|)),
                  addresses[1..], port)
  }

  function KindOf(name: string): Kind {
    if name == "host" then Host else if name == "srflx" then ServerReflexive else Relay
  }

  function FromSdp(c: Sdp.Candidate): Candidate {
    Candidate(KindOf(c.kind), c.priority, c.ip, c.port, c.protocol, c.ipv6, false)
  }

  /** strcasecmp(protocol, "udp") == 0. */
  predicate IsUdp(protocol: string) {
    |protocol| == 3 && protocol[0] in "uU" && protocol[1] in "dD" && protocol[2] in "pP"
  }

  // ----- pairs -----

  function NewPair(local: nat, remote: nat): Pair {
    Pair(local, remote, false, 0, None)
  }

  /** Pairs of remote candidate r with local candidates from `local` on, as capacity allows. */
  function PairsForRemote(pairs: seq<Pair>, local: nat, locals: nat, r: nat): seq<Pair>
    decreases locals - local
  {
    if local >= locals || |pairs| >= MAX_PAIRS then pairs
    else PairsForRemote(pairs + [NewPair(local, r)], local + 1, locals, r)
  }

  function PairsForLocal(pairs: seq<Pair>, l: nat, remote: nat, remotes: nat): seq<Pair>
    decreases remotes - remote
  {
    if remote >= remotes || |pairs| >= MAX_PAIRS then pairs
    else PairsForLocal(pairs + [NewPair(l, remote)], l, remote + 1, remotes)
  }

  // ----- steps -----

  /** The 12 bytes made from a reading of the millisecond clock. */
  function IdAt(clock: uint64): TransactionId {
    BigEndian(8, clock) + BigEndian(8, clock * 31337 % TWO_64)[..4]
  }

  /**
   * Gathering on a fresh session: the addresses of the interfaces that are up and not loopback, the
   * port the socket was bound to (none when there is no socket), and the clock when a server was asked.
   */
  function Gathered(addresses: seq<uint32>, port: Option<uint16>, server: Option<uint64>): IceState {
    if port.None? then FRESH.(phase := 2)
    else
      var hosts := AddHosts([], addresses, port.value);
      FRESH.(
        phase := 2,
        locals := if hosts == [] then AddLocal([], "127.0.0.1", port.value, HostPriority(0)) else hosts,
        serverId := if server.Some? then Some(IdAt(server.value)) else None)
  }

  function AddRemote(s: IceState, c: Sdp.Candidate): IceState {
    if |s.remotes| >= MAX_CANDIDATES || !IsUdp(c.protocol) then s
    else s.(remotes := s.remotes + [FromSdp(c)], pairs := PairsForRemote(s.pairs, 0, |s.locals|, |s.remotes|))
  }

  predicate Comes(remotes: seq<Candidate>, p: Pair, source: Address) {
    p.remote < |remotes| && remotes[p.remote].port == source.port && remotes[p.remote].ip == Dotted(source.ip)
  }

  /** A request marks every pair with its sender. */
  function Marked(s: IceState, source: Address): (r: seq<Pair>)
    ensures |r| == |s.pairs|
  {
    seq(|s.pairs|, i requires 0 <= i < |s.pairs| =>
      if Comes(s.remotes, s.pairs[i], source) then s.pairs[i].(succeeded := true) else s.pairs[i])
  }

  /** A response marks the first pair that is waiting for it. */
  function Answered(pairs: seq<Pair>, id: TransactionId): (r: seq<Pair>)
    ensures |r| == |pairs|
    decreases |pairs|
  {
    if pairs == [] then []
    else if pairs[0].id == Some(id) then [pairs[0].(succeeded := true)] + pairs[1..]
    else [pairs[0]] + Answered(pairs[1..], id)
  }

  function AddReflexive(s: IceState, ip: uint32, port: uint16): IceState {
    if |s.locals| >= MAX_CANDIDATES then s
    else
      s.(locals := s.locals + [Local(ServerReflexive, Dotted(ip), port, REFLEXIVE_PRIORITY)],
         pairs := PairsForLocal(s.pairs, |s.locals|, 0, |s.remotes|))
  }

  predicate IsStun(b: Datagram, len: nat) {
    len >= 8 && Read32(b, 4) == COOKIE
  }

  function Incoming(b: Datagram): TransactionId {
    b[8..20]
  }

  function AfterResponse(s: IceState, b: Datagram): IceState {
    if Read16(b, 0) != BINDING_RESPONSE || s.serverId == Some(Incoming(b)) then s
    else s.(pairs := Answered(s.pairs, Incoming(b)))
  }

  /** Anything but a request is read as a response from a server, whatever its transaction id. */
  function Packet(s: IceState, b: Datagram, len: nat, source: Option<Address>): IceState
    requires len <= BUFFER_LEN
  {
    if !IsStun(b, len) then s
    else if Read16(b, 0) == BINDING_REQUEST then
      if source.Some? then s.(pairs := Marked(s, source.value)) else s
    else
      var seen := Processed(b, len, 64, 0);
      var t := AfterResponse(s, b);
      if seen.status == Ok then AddReflexive(t, seen.seen.ip.value, seen.seen.port) else t
  }

  predicate Due(p: Pair, now: uint64) {
    !p.succeeded && (p.lastPing == 0 || (now - p.lastPing) % TWO_64 > RETRY_MS)
  }

  function Ping(p: Pair, now: uint64, clock: uint64): Pair {
    if Due(p, now) then p.(lastPing := now, id := Some(IdAt(clock))) else p
  }

  /** What a ping is signed with: the names of both sides, the password of the peer, and who started. */
  datatype Credentials = Credentials(
    remoteUfrag: Bytes,
    localUfrag: Bytes,
    password: Bytes,
    initiator: bool,
    mac: Mac)

  predicate Short(c: Credentials) {
    |c.remoteUfrag| < 64 && |c.localUfrag| < 64
  }

  function Username(c: Credentials): Bytes {
    c.remoteUfrag + [0x3A] + c.localUfrag
  }

  /** The message that pings pair k; the clock also breaks ties between the two sides. */
  function PingMessage(s: IceState, k: nat, clock: uint64, c: Credentials): Bytes
    requires k < |s.pairs| && s.pairs[k].local < |s.locals| && Short(c)
  {
    StunMessages.Request(
      IdAt(clock), Username(c), c.initiator, clock, s.locals[s.pairs[k].local].priority, c.password, c.mac)
  }

  datatype Sending = Sending(pair: nat, message: Bytes)

  /** Every pair that is due gets its message, once and in the order of the list, and no other pair. */
  predicate PingsOf(s: IceState, now: uint64, clocks: nat -> uint64, c: Credentials, n: nat, sent: seq<Sending>)
    requires Linked(s) && n <= |s.pairs| && Short(c)
  {
    && (forall i :: 0 <= i < |sent| ==>
          && sent[i].pair < n && Due(s.pairs[sent[i].pair], now)
          && sent[i].message == PingMessage(s, sent[i].pair, clocks(sent[i].pair), c))
    && (forall i, j :: 0 <= i < j < |sent| ==> sent[i].pair < sent[j].pair)
    && (forall k :: 0 <= k < n && Due(s.pairs[k], now) ==> exists i :: 0 <= i < |sent| && sent[i].pair == k)
  }

  /** `clocks[i]` is what the clock shows when pair i is pinged. */
  function Pinged(pairs: seq<Pair>, now: uint64, clocks: nat -> uint64): (r: seq<Pair>)
    ensures |r| == |pairs|
    ensures forall i :: 0 <= i < |pairs| ==> r[i] == Ping(pairs[i], now, clocks(i))
  {
    seq(|pairs|, i requires 0 <= i < |pairs| => Ping(pairs[i], now, clocks(i)))
  }

  function FirstSucceeded(pairs: seq<Pair>, from: nat): (r: Option<nat>)
    ensures r.Some? ==> from <= r.value < |pairs| && pairs[r.value].succeeded
    ensures r.Some? ==> forall i :: from <= i < r.value ==> !pairs[i].succeeded
    ensures r.None? ==> forall i :: from <= i < |pairs| ==> !pairs[i].succeeded
    decreases |pairs| - from
  {
    if from >= |pairs| then None
    else if pairs[from].succeeded then Some(from)
    else FirstSucceeded(pairs, from + 1)
  }

  function Flagged(locals: seq<Candidate>, i: nat): (r: seq<Candidate>)
    ensures |r| == |locals|
  {
    if i < |locals| then locals[i := locals[i].(selected := true)] else locals
  }

  function Select(s: IceState): IceState {
    var first := FirstSucceeded(s.pairs, 0);
    if s.selected.Some? || first.None? then s
    else s.(selected := first, locals := Flagged(s.locals, s.pairs[first.value].local), phase := 4)
  }

  function Tick(s: IceState, now: uint64, clocks: nat -> uint64): IceState {
    if s.phase < 2 then s
    else
      Select(s.(phase := if s.phase == 2 then 3 else s.phase, pairs := Pinged(s.pairs, now, clocks)))
  }

  predicate IsConnected(s: IceState) {
    s.selected.Some? && s.selected.value < |s.pairs| && s.pairs[s.selected.value].succeeded
  }

  // ----- the session -----

  /** Every index points at something. */
  predicate Linked(s: IceState) {
    && |s.locals| <= MAX_CANDIDATES && |s.remotes| <= MAX_CANDIDATES && |s.pairs| <= MAX_PAIRS
    && (forall i :: 0 <= i < |s.pairs| ==> s.pairs[i].local < |s.locals| && s.pairs[i].remote < |s.remotes|)
    && (s.selected.Some? ==> s.selected.value < |s.pairs|)
  }

  class Session {
    var phase: nat
    var locals: seq<Candidate>
    var remotes: seq<Candidate>
    var pairs: seq<Pair>
    var selected: Option<nat>
    var serverId: Option<TransactionId>

    ghost function State(): IceState
      reads this
    {
      IceState(phase, locals, remotes, pairs, selected, serverId)
    }

    constructor ()
      ensures State() == FRESH
    {
      phase, locals, remotes, pairs, selected, serverId := 0, [], [], [], None, None;
    }

    method AddLocalCandidate(ip: string, port: uint16, priority: uint32)
      modifies this`locals
      ensures locals == AddLocal(old(locals), ip, port, priority)
    {
      if |locals| >= MAX_CANDIDATES {
        return;
      }
      for i := 0 to |locals|
        invariant forall k :: 0 <= k < i ==> !(locals[k].ip == ip && locals[k].port == port)
      {
        if locals[i].ip == ip && locals[i].port == port {
          return;
        }
      }
      locals := locals + [Local(Host, ip, port, priority)];
    }

    method StartGathering(addresses: seq<uint32>, port: Option<uint16>, server: Option<uint64>)
      returns (status: Status)
      requires State() == FRESH
      modifies this
      ensures State() == Gathered(addresses, port, server)
      ensures status == if port.Some? then Ok else Error
    {
      hide AddLocal, Dotted;
      phase := 1;
      if port.None? {
        phase := 2;
        return Error;
      }
      ghost var all := AddHosts([], addresses, port.value);
      for i := 0 to |addresses|
        invariant |locals| <= MAX_CANDIDATES
        invariant AddHosts(locals, addresses[i..], port.value) == all
        invariant State() == FRESH.(phase := 1, locals := locals)
      {
        AddLocalWithin(locals, Dotted(addresses[i]), port.value, HostPriority(|locals|));
        assert addresses[i..][1..] == addresses[i + 1..];
        AddLocalCandidate(Dotted(addresses[i]), port.value, HostPriority(|locals|));
      }
      if |locals| == 0 {
        AddLocalCandidate("127.0.0.1", port.value, HostPriority(0));
      }
      if server.Some? {
        serverId := Some(IdAt(server.value));
      }
      phase := 2;
      status := Ok;
    }

    method AddRemoteCandidate(c: Sdp.Candidate) returns (status: Status)
      requires Linked(State())
      modifies this`remotes, this`pairs
      ensures State() == AddRemote(old(State()), c)
      ensures status == if |old(remotes)| >= MAX_CANDIDATES then Error else Ok
    {
      if |remotes| >= MAX_CANDIDATES {
        return Error;
      }
      if !IsUdp(c.protocol) {
        return Ok;
      }
      var r := |remotes|;
      remotes := remotes + [FromSdp(c)];
      ghost var all := PairsForRemote(pairs, 0, |locals|, r);
      var i := 0;
      while i < |locals|
        invariant 0 <= i <= |locals|
        invariant remotes == old(remotes) + [FromSdp(c)]
        invariant PairsForRemote(pairs, i, |locals|, r) == all
      {
        if |pairs| >= MAX_PAIRS {
          break;
        }
        pairs := pairs + [NewPair(i, r)];
        i := i + 1;
      }
      status := Ok;
    }

    method AddPairsForLocal(l: nat)
      modifies this`pairs
      ensures pairs == PairsForLocal(old(pairs), l, 0, |remotes|)
    {
      ghost var all := PairsForLocal(pairs, l, 0, |remotes|);
      var i := 0;
      while i < |remotes|
        invariant 0 <= i <= |remotes|
        invariant PairsForLocal(pairs, l, i, |remotes|) == all
      {
        if |pairs| >= MAX_PAIRS {
          return;
        }
        pairs := pairs + [NewPair(l, i)];
        i := i + 1;
      }
    }

    method MarkFrom(source: Address)
      requires Linked(State())
      modifies this`pairs
      ensures pairs == Marked(old(State()), source)
    {
      hide Dotted;
      ghost var before := State();
      for i := 0 to |pairs|
        invariant |pairs| == |before.pairs|
        invariant forall k :: 0 <= k < i ==> pairs[k] == Marked(before, source)[k]
        invariant forall k :: i <= k < |pairs| ==> pairs[k] == before.pairs[k]
      {
        var remote := remotes[pairs[i].remote];
        if remote.port == source.port && remote.ip == Dotted(source.ip) && !pairs[i].succeeded {
          pairs := pairs[i := pairs[i].(succeeded := true)];
        }
      }
    }

    method MarkAnswered(id: TransactionId)
      modifies this`pairs
      ensures pairs == Answered(old(pairs), id)
    {
      ghost var before := pairs;
      var i := 0;
      while i < |pairs|
        invariant 0 <= i <= |pairs|
        invariant pairs == before
        invariant before[..i] + Answered(before[i..], id) == Answered(before, id)
      {
        AnsweredStep(before, i, id);
        if pairs[i].id == Some(id) {
          pairs := pairs[i := pairs[i].(succeeded := true)];
          return;
        }
        i := i + 1;
      }
      assert before[i..] == [];
    }

    /**
     * Returns whether the packet is STUN, and the reply that was sent. `password` and `mac` make up the
     * stamp of the reply.
     */
    method ProcessPacket(b: Datagram, len: nat, source: Option<Address>, password: Bytes, mac: Mac)
      returns (stun: bool, reply: Option<Bytes>)
      requires len <= BUFFER_LEN && Linked(State())
      modifies this`locals, this`pairs
      ensures State() == Packet(old(State()), b, len, source)
      ensures stun == IsStun(b, len)
      ensures reply ==
        if stun && Read16(b, 0) == BINDING_REQUEST && source.Some?
        then Some(StunMessages.Response(Incoming(b), source, password, mac))
        else None
    {
      hide Marked, Answered, Dotted, PairsForLocal, Processed, StunMessages.Response, Linked;
      reply := None;
      if len < 8 || Read32(b, 4) != COOKIE {
        return false, None;
      }
      stun := true;
      var kind := Read16(b, 0);
      if kind == BINDING_REQUEST {
        var buffer := new byte[512];
        var size := StunMessages.CreateResponse(buffer, b[8..20], source, password, mac);
        if source.Some? {
          reply := Some(buffer[..size]);
          MarkFrom(source.value);
        }
        return;
      }
      if kind == BINDING_RESPONSE {
        if serverId != Some(b[8..20]) {
          MarkAnswered(b[8..20]);
        }
      }
      var seen := ProcessResponse(b, len, 64, 0);
      if seen.status == Ok && |locals| < MAX_CANDIDATES {
        FoundWhenOk(b, len);
        locals := locals + [Local(ServerReflexive, Dotted(seen.seen.ip.value), seen.seen.port, REFLEXIVE_PRIORITY)];
        AddPairsForLocal(|locals| - 1);
      }
    }

    /** Returns the messages that were sent, and for which pairs. */
    method CheckConnectivity(now: uint64, clocks: nat -> uint64, c: Credentials) returns (sent: seq<Sending>)
      requires Linked(State()) && Short(c)
      modifies this`phase, this`pairs, this`selected, this`locals
      ensures State() == Tick(old(State()), now, clocks)
      ensures if old(phase) < 2 then sent == [] else PingsOf(old(State()), now, clocks, c, |old(pairs)|, sent)
    {
      hide Due, Select, PingsOf, PingMessage;
      sent := [];
      if phase < 3 {
        if phase == 2 {
          phase := 3;
        } else {
          return;
        }
      }
      LinkedPinged(State(), now, clocks);
      PhaseUnseen(old(State()), State(), now, clocks, c);
      sent := PingDue(now, clocks, c);
      SelectPair();
    }

    method PingDue(now: uint64, clocks: nat -> uint64, c: Credentials) returns (sent: seq<Sending>)
      requires Linked(State()) && Short(c)
      modifies this`pairs
      ensures pairs == Pinged(old(pairs), now, clocks)
      ensures PingsOf(old(State()), now, clocks, c, |old(pairs)|, sent)
    {
      hide IdAt, StunMessages.Request, PingsOf, Linked;
      sent := [];
      ghost var before := State();
      NoPairYet(before, now, clocks, c);
      for i := 0 to |pairs|
        invariant |pairs| == |before.pairs| && State() == before.(pairs := pairs)
        invariant forall k :: 0 <= k < i ==> pairs[k] == Pinged(before.pairs, now, clocks)[k]
        invariant forall k :: i <= k < |pairs| ==> pairs[k] == before.pairs[k]
        invariant PingsOf(before, now, clocks, c, i, sent)
      {
        OneMorePair(before, now, clocks, c, i, sent);
        LinkedAt(before, i);
        if !pairs[i].succeeded && (pairs[i].lastPing == 0 || (now - pairs[i].lastPing) % TWO_64 > RETRY_MS) {
          var message := StunMessages.CreateRequest(
            IdAt(clocks(i)), Username(c), c.initiator, clocks(i), locals[pairs[i].local].priority, c.password, c.mac);
          pairs := pairs[i := pairs[i].(lastPing := now, id := Some(IdAt(clocks(i))))];
          sent := sent + [Sending(i, message)];
        }
      }
      assert pairs == Pinged(before.pairs, now, clocks);
    }

    method SelectPair()
      requires Linked(State())
      modifies this`phase, this`selected, this`locals
      ensures State() == Select(old(State()))
    {
      ghost var before := State();
      for i := 0 to |pairs|
        invariant selected.None? ==> State() == before && FirstSucceeded(pairs, 0) == FirstSucceeded(pairs, i)
        invariant selected.Some? ==> State() == Select(before)
        invariant Linked(State())
      {
        if pairs[i].succeeded && selected.None? {
          selected := Some(i);
          locals := locals[pairs[i].local := locals[pairs[i].local].(selected := true)];
          phase := 4;
        }
      }
    }

    method Connected() returns (r: bool)
      requires Linked(State())
      ensures r == IsConnected(State())
    {
      r := selected.Some? && pairs[selected.value].succeeded;
    }
  }

  lemma PhaseUnseen(s: IceState, t: IceState, now: uint64, clocks: nat -> uint64, c: Credentials)
    requires Linked(s) && t == s.(phase := t.phase) && Short(c)
    ensures forall sent :: PingsOf(t, now, clocks, c, |t.pairs|, sent) ==> PingsOf(s, now, clocks, c, |s.pairs|, sent)
  {
    hide StunMessages.Request;
  }

  lemma NoPairYet(s: IceState, now: uint64, clocks: nat -> uint64, c: Credentials)
    requires Linked(s) && Short(c)
    ensures PingsOf(s, now, clocks, c, 0, [])
  {
  }

  lemma LinkedAt(s: IceState, i: nat)
    requires Linked(s) && i < |s.pairs|
    ensures s.pairs[i].local < |s.locals|
  {
  }

  lemma OneMorePair(s: IceState, now: uint64, clocks: nat -> uint64, c: Credentials, i: nat, sent: seq<Sending>)
    requires Linked(s) && Short(c) && i < |s.pairs| && PingsOf(s, now, clocks, c, i, sent)
    ensures if Due(s.pairs[i], now)
      then PingsOf(s, now, clocks, c, i + 1, sent + [Sending(i, PingMessage(s, i, clocks(i), c))])
      else PingsOf(s, now, clocks, c, i + 1, sent)
  {
    hide Due, PingMessage;
    var more := sent + [Sending(i, PingMessage(s, i, clocks(i), c))];
    assert more[|sent|].pair == i;
    forall k | 0 <= k < i && Due(s.pairs[k], now)
      ensures exists j :: 0 <= j < |more| && more[j].pair == k
    {
      var j :| 0 <= j < |sent| && sent[j].pair == k;
      assert more[j].pair == k;
    }
  }

  lemma LinkedPinged(s: IceState, now: uint64, clocks: nat -> uint64)
    requires Linked(s)
    ensures Linked(s.(pairs := Pinged(s.pairs, now, clocks)))
  {
  }

  lemma AddLocalWithin(locals: seq<Candidate>, ip: string, port: uint16, priority: uint32)
    requires |locals| <= MAX_CANDIDATES
    ensures |AddLocal(locals, ip, port, priority)| <= MAX_CANDIDATES
  {
  }

  lemma AnsweredStep(pairs: seq<Pair>, i: nat, id: TransactionId)
    requires i < |pairs|
    ensures pairs[..i] + Answered(pairs[i..], id) ==
      if pairs[i].id == Some(id) then pairs[i := pairs[i].(succeeded := true)]
      else pairs[..i + 1] + Answered(pairs[i + 1..], id)
  {
    assert pairs[i..][1..] == pairs[i + 1..];
  }

  lemma FoundWhenOk(b: Datagram, len: nat)
    requires len <= BUFFER_LEN
    ensures Processed(b, len, 64, 0).status == Ok ==> Processed(b, len, 64, 0).seen.ip.Some?
  {
  }
}
