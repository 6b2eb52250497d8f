/**
 * Two agents: a ping, its answer, and what both sides know then. src/ice/ice.c, lines 353 to 636.
 */
module IceExchange {
  import opened Octets
  import opened Results
  import opened Stun
  import opened Ice
  import opened IceRuns
  import StunMessages

  /** A message as it lies in the buffer of its receiver. */
  predicate Arrives(b: Datagram, len: nat, message: Bytes) {
    len == |message| && message <= b
  }

  /** A ping is a request, and carries the id that its sender waits for. */
  lemma PingIsRequest(s: IceState, k: nat, clock: uint64, c: Credentials, b: Datagram, len: nat)
    requires k < |s.pairs| && s.pairs[k].local < |s.locals| && Short(c)
    requires Arrives(b, len, PingMessage(s, k, clock, c))
    ensures len <= 332 && IsRequest(b, len) && b[8..20] == IdAt(clock)
  {
    hide StunMessages.Request, IdAt, Attributes, Username;
    var priority := s.locals[s.pairs[k].local].priority;
    var m := PingMessage(s, k, clock, c);
    assert |Username(c)| < 256 by { ShortName(c); }
    StunMessages.RequestRead(IdAt(clock), Username(c), c.initiator, clock, priority, c.password, c.mac);
    assert b[8..20] == m[8..20];
    assert Read16(b, 0) == Read16(m, 0) && Read32(b, 4) == Read32(m, 4);
    HeaderRead(b, len);
  }

  lemma ShortName(c: Credentials)
    requires Short(c)
    ensures |Username(c)| < 256
  {
  }

  lemma IdUnique(a: TransactionId, b: TransactionId, clock: uint64)
    requires IsIdOf(a, clock) && IsIdOf(b, clock)
    ensures a == b
  {
    hide BigEndian;
    assert a == a[..8] + a[8..] && b == b[..8] + b[8..];
  }

  /** What the peer answers a ping with, for the address that it saw. */
  function AnswerTo(ping: Datagram, seen: Address, password: Bytes, mac: Mac): Bytes {
    StunMessages.Response(ping[8..20], Some(seen), password, mac)
  }

  /**
   * One ping and its answer are enough: if the peer has a remote candidate with the address the ping came
   * from, its pairs with that candidate succeed; if no earlier pair of the sender waits for the same id,
   * the pinged pair succeeds. After any later tick both are connected.
   */
  lemma BothConnect(
    a: IceState, now: uint64, clocks: nat -> uint64, c: Credentials, k: nat,
    b: IceState, ping: Datagram, pingLen: Length, seen: Address, j: nat,
    answer: Datagram, answerLen: Length, source: Option<Address>, password: Bytes, mac: Mac,
    later: uint64, laterClocks: nat -> uint64)
    requires Inv(a) && Pings(a, Elapse(now, clocks), k) && Short(c)
    requires Arrives(ping, pingLen, PingMessage(a, k, clocks(k), c))
    requires Inv(b) && j < |b.pairs| && Names(b.remotes[b.pairs[j].remote], seen)
    requires Arrives(answer, answerLen, AnswerTo(ping, seen, password, mac))
    requires a.serverId != Some(IdAt(clocks(k)))
    requires var a1 := Tick(a, now, clocks);
      forall m :: 0 <= m < k && m < |a1.pairs| ==> a1.pairs[m].id != Some(IdAt(clocks(k)))
    ensures var a2 := Packet(Tick(a, now, clocks), answer, answerLen, source);
      var b1 := Packet(b, ping, pingLen, Some(seen));
      && k < |a2.pairs| && a2.pairs[k].succeeded && IsConnected(Tick(a2, later, laterClocks))
      && j < |b1.pairs| && b1.pairs[j].succeeded && IsConnected(Tick(b1, later, laterClocks))
  {
    hide Inv, Tick, Packet, IdAt, IsIdOf, PingMessage, Names, IsRequest, IsResponse, StunMessages.Response;
    SenderPinged(a, now, clocks, k);
    PingIsRequest(a, k, clocks(k), c, ping, pingLen) by { PingedWithin(a, now, clocks, k); }
    var a1 := Tick(a, now, clocks);
    var e := Receive(ping, pingLen, Some(seen));
    StepKeeps(b, e);
    GrownPairs(b, Packet(b, ping, pingLen, Some(seen)));
    RequestHeard(b, e, j);
    AnswerReceived(a1, answer, answerLen, source, IdAt(clocks(k)), seen, password, mac, k);
    StepKeeps(a1, Receive(answer, answerLen, source));
    NextTickConnects(Packet(a1, answer, answerLen, source), later, laterClocks, k);
    NextTickConnects(Packet(b, ping, pingLen, Some(seen)), later, laterClocks, j);
  }

  lemma PingedWithin(s: IceState, now: uint64, clocks: nat -> uint64, k: nat)
    requires Inv(s) && Pings(s, Elapse(now, clocks), k)
    ensures k < |s.pairs| && s.pairs[k].local < |s.locals|
  {
    hide IsProduct;
  }

  /** After the tick the pinged pair waits for its id, and the id of the server is what it was. */
  lemma SenderPinged(s: IceState, now: uint64, clocks: nat -> uint64, k: nat)
    requires Inv(s) && Pings(s, Elapse(now, clocks), k)
    ensures var t := Tick(s, now, clocks);
      Inv(t) && k < |t.pairs| && t.pairs[k].id == Some(IdAt(clocks(k))) && t.serverId == s.serverId
  {
    hide Inv, Tick, IdAt, IsIdOf;
    var e := Elapse(now, clocks);
    PingsWithin(s, e, k);
    StepKeeps(s, e);
    StepPings(s, e, k);
    IdParts(clocks(k));
    IdUnique(Tick(s, now, clocks).pairs[k].id.value, IdAt(clocks(k)), clocks(k));
  }

  lemma RequestHeard(s: IceState, e: Event, j: nat)
    requires Inv(s) && e.Receive? && e.source.Some? && IsRequest(e.b, e.len)
    requires j < |s.pairs| && Names(s.remotes[s.pairs[j].remote], e.source.value)
    ensures j < |Step(s, e).pairs| && Step(s, e).pairs[j].succeeded
  {
    hide IsProduct, Step, Names, IsRequest, IsResponse;
    StepKeeps(s, e);
    StepConfirms(s, e, j);
  }
}
