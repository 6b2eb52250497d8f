/**
 * Building STUN messages and reading them back: src/ice/stun.c, lines 188 to 407.
 */
module StunMessages {
  import opened Octets
  import opened Results
  import opened Stun
  import Crc32

  // ----- finalised messages -----

  /** The two attributes that finalising appends. */
  function Stamps(m: Bytes, key: Bytes, mac: Mac): (r: seq<Attribute>)
    requires |m| >= HEADER_LEN
    ensures AllWellFormed(r)
  {
    [Attribute(MESSAGE_INTEGRITY, mac(key, Blank(m)), []),
     Attribute(FINGERPRINT, Bytes32(Mark(Covered(m, key, mac))), [])]
  }

  lemma EncodedStamps(m: Bytes, key: Bytes, mac: Mac)
    requires |m| >= HEADER_LEN
    ensures EncodeAll(Stamps(m, key, mac)) ==
      IntegrityHead() + mac(key, Blank(m)) + FingerprintHead() + Bytes32(Mark(Covered(m, key, mac)))
  {
    hide Mark, Covered, Blank, EncodeAll;
    var s := Stamps(m, key, mac);
    EncodedPair(s[0], s[1]);
  }

  lemma EncodedOne(a: Attribute)
    requires WellFormed(a)
    ensures EncodeAll([a]) == Encode(a)
  {
    hide Encode;
    assert [a][1..] == [];
  }

  lemma EncodedPair(a: Attribute, b: Attribute)
    requires WellFormed(a) && WellFormed(b)
    ensures EncodeAll([a, b]) == Encode(a) + Encode(b)
  {
    hide Encode;
    assert [a, b][1..] == [b];
    EncodedOne(b);
  }

  lemma LengthOfMessage(kind: uint16, length: uint16, id: TransactionId, body: Bytes, total: nat)
    requires HEADER_LEN <= total < TWO_16
    ensures SetLength(Message(kind, length, id, body), total) == Message(kind, total - HEADER_LEN, id, body)
  {
    var m := Message(kind, length, id, body);
    assert m[..2] == Bytes16(kind);
    assert m[4..] == Bytes32(COOKIE) + id + body;
  }

  lemma LengthTwice(m: Bytes, first: nat, second: nat)
    requires |m| >= HEADER_LEN && first >= HEADER_LEN && second >= HEADER_LEN
    ensures SetLength(SetLength(m, first), second) == SetLength(m, second)
  {
    assert SetLength(m, first)[..2] == m[..2];
    assert SetLength(m, first)[4..] == m[4..];
  }

  lemma FinalizedForm(m: Bytes, key: Bytes, mac: Mac)
    requires |m| >= HEADER_LEN
    ensures Finalized(m, key, mac) == SetLength(m, |m| + 32) + EncodeAll(Stamps(m, key, mac))
  {
    hide Mark, SetLength, IntegrityHead, FingerprintHead, EncodeAll, Blank;
    var once := SetLength(m, |m| + 24);
    LengthOfExtended(once + IntegrityHead(), mac(key, Blank(m)), |m| + 32);
    LengthOfExtended(once, IntegrityHead(), |m| + 32);
    LengthTwice(m, |m| + 24, |m| + 32);
    EncodedStamps(m, key, mac);
  }

  /** The two ends of a finalised message, from its bytes. */
  function HashedPart(m: Bytes): Bytes
    requires |m| >= HEADER_LEN
  {
    m[..2] + BigEndian(2, (|m| + 4) % TWO_16) + m[4..] + [0x00, 0x08, 0x00, 0x14]
  }

  function MarkedPart(m: Bytes, digest: Digest): Bytes
    requires |m| >= HEADER_LEN
  {
    m[..2] + BigEndian(2, (|m| + 12) % TWO_16) + m[4..] + [0x00, 0x08, 0x00, 0x14] + digest + [0x80, 0x28, 0x00, 0x04]
  }

  /**
   * Finalising, byte by byte: the length field becomes the size of what follows the header, an attribute
   * of type 0x0008 takes the hash of the message with a blank digest and the length it has then, and an
   * attribute of type 0x8028 the checksum of everything before its value, combined with 0x5354554E.
   */
  lemma FinalizedBytes(m: Bytes, key: Bytes, mac: Mac)
    requires |m| >= HEADER_LEN
    ensures var marked := MarkedPart(m, mac(key, HashedPart(m) + Zeros(20)));
      Finalized(m, key, mac) == marked + BigEndian(4, (Crc32.Checksum(OctetsOf(marked)) ^ 0x5354_554E) as int)
  {
    hide SetLength, IntegrityHead, FingerprintHead, OctetsOf, Zeros, Bytes16, Bytes32, BigEndian;
    var digest := mac(key, HashedPart(m) + Zeros(20));
    Heads();
    LengthBytes(m, |m| + 24);
    LengthBytes(m, |m| + 32);
    assert Blank(m) == HashedPart(m) + Zeros(20);
    var stamped := SetLength(m, |m| + 24) + IntegrityHead() + digest;
    LengthTwice(m, |m| + 24, |m| + 32);
    LengthOfExtended(SetLength(m, |m| + 24), IntegrityHead() + digest, |m| + 32);
    assert stamped == SetLength(m, |m| + 24) + (IntegrityHead() + digest);
    assert Covered(m, key, mac) == MarkedPart(m, digest);
    Bytes32BigEndian(Mark(Covered(m, key, mac)));
  }

  lemma Heads()
    ensures IntegrityHead() == [0x00, 0x08, 0x00, 0x14] && FingerprintHead() == [0x80, 0x28, 0x00, 0x04]
  {
  }

  lemma LengthBytes(m: Bytes, total: nat)
    requires |m| >= HEADER_LEN && total >= HEADER_LEN
    ensures SetLength(m, total) == m[..2] + BigEndian(2, (total - 20) % TWO_16) + m[4..]
  {
    hide BigEndian, Bytes16;
    Bytes16BigEndian((total - 20) % TWO_16);
  }

  /** A finalised message encodes the attributes it had, and then the two stamps. */
  lemma FinalizedAttributes(kind: uint16, id: TransactionId, attributes: seq<Attribute>, key: Bytes, mac: Mac)
    requires AllWellFormed(attributes) && |EncodeAll(attributes)| + 52 < TWO_16
    ensures var m := Message(kind, 0, id, EncodeAll(attributes));
      var all := attributes + Stamps(m, key, mac);
      && |EncodeAll(all)| == |EncodeAll(attributes)| + 32
      && Finalized(m, key, mac) == Message(kind, |EncodeAll(all)|, id, EncodeAll(all))
  {
    hide EncodeAll, SetLength, Stamps, Blank, Covered, Mark, Finalized;
    var body := EncodeAll(attributes);
    var m := Message(kind, 0, id, body);
    FinalizedForm(m, key, mac);
    EncodedStamps(m, key, mac);
    EncodeAllAppends(attributes, Stamps(m, key, mac));
    LengthOfMessage(kind, 0, id, body, |m| + 32);
  }

  // ----- reading messages -----

  /** What a reader should report: the last address, if there is one. */
  function LastAddress(attributes: seq<Attribute>): Option<Address> {
    var last := Last(IsIPv4, attributes);
    if last.Some? then Some(AddressOf(last.value)) else None
  }

  /**
   * Any number of well-formed attributes whose addresses are all IPv4, in a response of an
   * acceptable size and followed by anything: the walk reports the last address, or an error when
   * there is none.
   */
  lemma ResponseRead(id: TransactionId, attributes: seq<Attribute>, rest: Bytes, len: nat, room: nat, port: uint16)
    requires AllWellFormed(attributes) && |EncodeAll(attributes)| <= MAX_BODY
    requires forall a :: a in attributes && IsAddress(a) ==> IsIPv4(a)
    requires |EncodeAll(attributes)| + |rest| >= MAX_BODY && room >= 16
    requires HEADER_LEN <= len <= HEADER_LEN + |EncodeAll(attributes)| + |rest|
    ensures var body := EncodeAll(attributes);
      var r := Processed(Message(BINDING_RESPONSE, |body|, id, body) + rest, len, room, port);
      match LastAddress(attributes)
      case Some(a) => r == Outcome(Ok, Seen(Some(a.ip), a.port))
      case None => r == Outcome(Error, Seen(None, port))
  {
    hide Attributes, EncodeAll, NoticeAll, IsIPv4, IsAddress, IpOf, PortOf, Last;
    var body := EncodeAll(attributes);
    var m := Message(BINDING_RESPONSE, |body|, id, body);
    var b := m + rest;
    MessageFields(BINDING_RESPONSE, |body|, id, body);
    assert m == m[..HEADER_LEN] + body;
    assert b == m[..HEADER_LEN] + body + rest;
    AttributesOfEncoded(m[..HEADER_LEN], attributes, rest);
    LastOneWins(Seen(None, port), attributes);
    SameLast(attributes);
  }

  // ----- the response to a connectivity check -----

  function XorMapped(a: Address): (r: Attribute)
    ensures WellFormed(r)
  {
    Attribute(XOR_MAPPED_ADDRESS, [0, 1] + Bytes16(MaskPort(a.port)) + Bytes32(MaskIp(a.ip)), [])
  }

  lemma XorMappedRecovers(a: Address)
    ensures IsIPv4(XorMapped(a)) && AddressOf(XorMapped(a)) == a
  {
    hide MaskPort, MaskIp;
    MaskTwice(a);
    Word16RoundTrip(MaskPort(a.port));
    Word32RoundTrip(MaskIp(a.ip));
  }

  lemma OneAttribute(a: Address)
    ensures EncodeAll([XorMapped(a)]) ==
      Bytes16(XOR_MAPPED_ADDRESS) + Bytes16(8) + [0, 1] + Bytes16(MaskPort(a.port)) + Bytes32(MaskIp(a.ip))
  {
    hide MaskPort, MaskIp, Bytes16, Bytes32;
    EncodedOne(XorMapped(a));
  }

  lemma NoAttributes()
    ensures EncodeAll([]) == []
  {
  }

  function MappedAttributes(mapped: Option<Address>): (r: seq<Attribute>)
    ensures AllWellFormed(r)
    ensures |EncodeAll(r)| == if mapped.Some? then 12 else 0
  {
    NoAttributes();
    if mapped.Some? then
      OneAttribute(mapped.value);
      [XorMapped(mapped.value)]
    else []
  }

  function Response(id: TransactionId, mapped: Option<Address>, key: Bytes, mac: Mac): (r: Bytes)
    ensures |r| == 52 + (if mapped.Some? then 12 else 0)
  {
    Finalized(Message(BINDING_RESPONSE, 0, id, EncodeAll(MappedAttributes(mapped))), key, mac)
  }

  /** A mapped address as it is sent: family 1, then port and address combined with 21 12 A4 42. */
  function MappedBytes(a: Address): (r: Bytes)
    ensures |r| == 12
  {
    var p, i := BigEndian(2, a.port), BigEndian(4, a.ip);
    [0x00, 0x20, 0x00, 0x08, 0x00, 0x01, XorByte(p[0], 0x21), XorByte(p[1], 0x12),
     XorByte(i[0], 0x21), XorByte(i[1], 0x12), XorByte(i[2], 0xA4), XorByte(i[3], 0x42)]
  }

  /** The response before it is finalised, byte by byte. */
  lemma ResponseBytes(id: TransactionId, mapped: Option<Address>, key: Bytes, mac: Mac)
    ensures Response(id, mapped, key, mac) ==
      Finalized([0x01, 0x01, 0x00, 0x00, 0x21, 0x12, 0xA4, 0x42] + id
                + (if mapped.Some? then MappedBytes(mapped.value) else []), key, mac)
  {
    hide EncodeAll, Finalized, MappedBytes, Message;
    var body := EncodeAll(MappedAttributes(mapped));
    ResponseHead(id, body);
    if mapped.Some? {
      MappedSent(mapped.value);
    } else {
      NoAttributes();
    }
  }

  lemma ResponseHead(id: TransactionId, body: Bytes)
    ensures Message(BINDING_RESPONSE, 0, id, body) == [0x01, 0x01, 0x00, 0x00, 0x21, 0x12, 0xA4, 0x42] + id + body
  {
    hide Bytes16, Bytes32;
    assert Bytes16(BINDING_RESPONSE) == [0x01, 0x01] && Bytes16(0) == [0x00, 0x00] by { TypeWords(); }
    assert Bytes32(COOKIE) == [0x21, 0x12, 0xA4, 0x42] by { CookieBytes(); }
  }

  lemma TypeWords()
    ensures Bytes16(BINDING_RESPONSE) == [0x01, 0x01] && Bytes16(0) == [0x00, 0x00]
  {
  }

  lemma CookieBytes()
    ensures Bytes32(COOKIE) == [0x21, 0x12, 0xA4, 0x42]
  {
  }

  lemma MappedSent(a: Address)
    ensures EncodeAll([XorMapped(a)]) == MappedBytes(a)
  {
    hide MaskPort, MaskIp, Bytes16, Bytes32, BigEndian, XorByte, EncodeAll;
    var p, i := BigEndian(2, a.port), BigEndian(4, a.ip);
    OneAttribute(a);
    Bytes16BigEndian(a.port);
    Bytes32BigEndian(a.ip);
    Word16RoundTrip(a.port);
    Word32RoundTrip(a.ip);
    MaskedBytes(p[0], p[1], i[0], i[1], i[2], i[3]);
    Bytes16RoundTrip(XorByte(p[0], 0x21), XorByte(p[1], 0x12));
    Bytes32RoundTrip(XorByte(i[0], 0x21), XorByte(i[1], 0x12), XorByte(i[2], 0xA4), XorByte(i[3], 0x42));
    assert Bytes16(XOR_MAPPED_ADDRESS) == [0x00, 0x20] && Bytes16(8) == [0x00, 0x08] by { SmallWords(); }
  }

  lemma SmallWords()
    ensures Bytes16(0x20) == [0x00, 0x20] && Bytes16(8) == [0x00, 0x08]
  {
  }

  /**
   * The bytes of a server's answer, whatever its id, whatever attributes come before the address and
   * whatever lies behind: the reader reports the address and the port that were combined with the cookie.
   */
  lemma ServerAnswerRead(id: TransactionId, a: Address, before: seq<Attribute>, rest: Bytes, len: nat)
    requires AllWellFormed(before) && |EncodeAll(before)| + 12 <= MAX_BODY <= |rest|
    requires 20 <= len <= 20 + |rest|
    requires forall x :: x in before ==> x.kind != 0x0001 && x.kind != 0x0020
    ensures var body := EncodeAll(before) + MappedBytes(a);
      var b := [0x01, 0x01] + BigEndian(2, |body|) + [0x21, 0x12, 0xA4, 0x42] + id + body + rest;
      Processed(b, len, 64, 0) == Outcome(Ok, Seen(Some(a.ip), a.port))
  {
    hide EncodeAll, Processed, MappedBytes, XorMapped, BigEndian, IsIPv4, Last;
    var all := before + [XorMapped(a)];
    EncodeAllAppends(before, [XorMapped(a)]);
    MappedSent(a);
    var body := EncodeAll(all);
    Bytes16BigEndian(|body|);
    assert Message(BINDING_RESPONSE, |body|, id, body) ==
      [0x01, 0x01] + BigEndian(2, |body|) + [0x21, 0x12, 0xA4, 0x42] + id + body by {
      hide Bytes16, Bytes32;
      TypeWords();
      CookieBytes();
    }
    XorMappedRecovers(a);
    forall x | x in before
      ensures !IsAddress(x)
    {
      assert x.kind != 0x0001 && x.kind != 0x0020;
    }
    LastIsLast(before, XorMapped(a));
    ResponseRead(id, all, rest, len, 64, 0);
  }

  lemma LastIsLast(before: seq<Attribute>, a: Attribute)
    requires IsIPv4(a)
    ensures Last(IsIPv4, before + [a]) == Some(a)
  {
    hide IsIPv4;
  }

  method CreateResponse(buffer: array<byte>, id: TransactionId, mapped: Option<Address>, key: Bytes, mac: Mac)
    returns (total: nat)
    requires buffer.Length >= HEADER_LEN
    modifies buffer
    ensures var size := |Response(id, mapped, key, mac)|;
      && total == (if size <= buffer.Length then size else 0)
      && (total > 0 ==> buffer[..] == Response(id, mapped, key, mac) + Zeros(buffer.Length - size))
  {
    hide EncodeAll, Finalized, Zeros, MaskIp, MaskPort, Overwritten, Stun.Message;
    CopyInto(buffer, 0, Zeros(buffer.Length));
    ghost var n := buffer.Length;
    AllOverwritten(old(buffer[..]), Zeros(n));
    CopyInto(buffer, 0, Stun.Message(BINDING_RESPONSE, 0, id, []));
    HeaderOverZeros(id, n);
    var len := HEADER_LEN;
    if mapped.Some? && buffer.Length >= len + 12 {
      CopyInto(buffer, len, Bytes16(XOR_MAPPED_ADDRESS) + Bytes16(8));
      CopyInto(buffer, len + 4, [0, 1]);
      CopyInto(buffer, len + 6, Bytes16(MaskPort(mapped.value.port)));
      CopyInto(buffer, len + 8, Bytes32(MaskIp(mapped.value.ip)));
      len := len + 12;
      MappedWritten(id, mapped.value, n);
    } else if mapped.None? {
      assert EncodeAll(MappedAttributes(mapped)) == [] by { NoAttributes(); }
    }
    ghost var m := buffer[..len];
    var status, newLen := Finalize(buffer, len, key, mac);
    total := if status == Ok then newLen else 0;
    if total > 0 {
      assert Zeros(n - len)[32..] == Zeros(n - len - 32);
    }
  }

  lemma AllOverwritten(b: Bytes, data: Bytes)
    requires |b| == |data|
    ensures Overwritten(b, 0, data) == data
  {
  }

  lemma HeaderOverZeros(id: TransactionId, n: nat)
    requires n >= HEADER_LEN
    ensures Overwritten(Zeros(n), 0, Message(BINDING_RESPONSE, 0, id, [])) ==
      Message(BINDING_RESPONSE, 0, id, []) + Zeros(n - HEADER_LEN)
  {
    hide Message;
  }

  lemma MappedWritten(id: TransactionId, a: Address, n: nat)
    requires n >= HEADER_LEN + 12
    ensures var b0 := Message(BINDING_RESPONSE, 0, id, []) + Zeros(n - HEADER_LEN);
      var b1 := Overwritten(b0, HEADER_LEN, Bytes16(XOR_MAPPED_ADDRESS) + Bytes16(8));
      var b2 := Overwritten(b1, HEADER_LEN + 4, [0, 1]);
      var b3 := Overwritten(b2, HEADER_LEN + 6, Bytes16(MaskPort(a.port)));
      Overwritten(b3, HEADER_LEN + 8, Bytes32(MaskIp(a.ip))) ==
        Message(BINDING_RESPONSE, 0, id, EncodeAll([XorMapped(a)])) + Zeros(n - HEADER_LEN - 12)
  {
    hide Overwritten, Message, MaskPort, MaskIp, Bytes16, Bytes32, Zeros, EncodeAll;
    var m, z := Message(BINDING_RESPONSE, 0, id, []), Zeros(n - HEADER_LEN);
    var head, port, ip := Bytes16(XOR_MAPPED_ADDRESS) + Bytes16(8), Bytes16(MaskPort(a.port)), Bytes32(MaskIp(a.ip));
    OverwrittenAfter(m, z, head);
    OverwrittenAfter(m + head, z[4..], [0, 1]);
    OverwrittenAfter(m + head + [0, 1], z[4..][2..], port);
    OverwrittenAfter(m + head + [0, 1] + port, z[4..][2..][2..], ip);
    assert z[4..][2..][2..][4..] == Zeros(n - HEADER_LEN - 12);
    OneAttribute(a);
    MessageOfBody(id, head + [0, 1] + port + ip);
  }

  lemma MessageOfBody(id: TransactionId, body: Bytes)
    ensures Message(BINDING_RESPONSE, 0, id, body) == Message(BINDING_RESPONSE, 0, id, []) + body
  {
  }

  /**
   * A response can be read back, whatever is left in the receiver's buffer after it: the reader finds
   * the address the builder put in, and the transaction id of the request.
   */
  lemma ResponseRecovered(id: TransactionId, a: Address, key: Bytes, mac: Mac, rest: Bytes, room: nat, port: uint16)
    requires |rest| >= MAX_BODY && room >= 16
    ensures var m := Response(id, Some(a), key, mac);
      && (m + rest)[8..20] == id
      && Processed(m + rest, |m|, room, port) == Outcome(Ok, Seen(Some(a.ip), a.port))
  {
    hide EncodeAll, Finalized, Processed, IsIPv4, IsAddress, XorMapped, Stamps, Last;
    var attributes := [XorMapped(a)];
    var m0 := Message(BINDING_RESPONSE, 0, id, EncodeAll(attributes));
    assert Response(id, Some(a), key, mac) == Finalized(m0, key, mac);
    FinalizedAttributes(BINDING_RESPONSE, id, attributes, key, mac);
    var all := attributes + Stamps(m0, key, mac);
    MessageFields(BINDING_RESPONSE, |EncodeAll(all)|, id, EncodeAll(all));
    XorMappedRecovers(a);
    StampsAreNoAddresses(m0, key, mac);
    LastOfThree(XorMapped(a), Stamps(m0, key, mac));
    ResponseRead(id, all, rest, |Response(id, Some(a), key, mac)|, room, port);
  }

  lemma StampsAreNoAddresses(m: Bytes, key: Bytes, mac: Mac)
    requires |m| >= HEADER_LEN
    ensures |Stamps(m, key, mac)| == 2
    ensures forall s :: s in Stamps(m, key, mac) ==> !IsAddress(s) && !IsIPv4(s)
  {
    hide Mark, Covered, Blank;
  }

  lemma LastOfThree(a: Attribute, stamps: seq<Attribute>)
    requires |stamps| == 2 && IsIPv4(a) && forall s :: s in stamps ==> !IsIPv4(s)
    ensures Last(IsIPv4, [a] + stamps) == Some(a)
  {
    hide IsIPv4;
    var all := [a] + stamps;
    assert all[..2][..1] == [a];
  }

  // ----- the request of a connectivity check: src/ice/ice.c, lines 515 to 600 -----

  const USERNAME: uint16 := 0x0006
  const CONTROLLING: uint16 := 0x802A
  const CONTROLLED: uint16 := 0x8029
  const PRIORITY: uint16 := 0x0024
  const REQUEST_LEN := 512

  function PaddingOf(n: nat): Bytes {
    Zeros((4 - n % 4) % 4)
  }

  function RequestAttributes(username: Bytes, initiator: bool, tie: uint64, priority: uint32): (r: seq<Attribute>)
    requires |username| < 256
    ensures AllWellFormed(r)
  {
    [Attribute(USERNAME, username, PaddingOf(|username|)),
     Attribute(if initiator then CONTROLLING else CONTROLLED, BigEndian(8, tie), []),
     Attribute(PRIORITY, Bytes32(priority), [])]
  }

  function RequestBody(username: Bytes, initiator: bool, tie: uint64, priority: uint32): (r: Bytes)
    requires |username| < 256
    ensures |r| <= 280 && |r| % 4 == 0
  {
    Bytes16(USERNAME) + Bytes16(|username|) + username + PaddingOf(|username|)
    + Bytes16(if initiator then CONTROLLING else CONTROLLED) + Bytes16(8) + BigEndian(8, tie)
    + Bytes16(PRIORITY) + Bytes16(4) + Bytes32(priority)
  }

  lemma RequestEncoded(username: Bytes, initiator: bool, tie: uint64, priority: uint32)
    requires |username| < 256
    ensures EncodeAll(RequestAttributes(username, initiator, tie, priority)) ==
      RequestBody(username, initiator, tie, priority)
  {
    hide Bytes16, Bytes32, BigEndian, EncodeAll, Padded;
    var all := RequestAttributes(username, initiator, tie, priority);
    assert all == [all[0]] + [all[1], all[2]];
    EncodeAllAppends([all[0]], [all[1], all[2]]);
    EncodedOne(all[0]);
    EncodedPair(all[1], all[2]);
  }

  /** A ping, finalised under the password of the peer. */
  function Request(id: TransactionId, username: Bytes, initiator: bool, tie: uint64, priority: uint32, key: Bytes, mac: Mac)
    : (r: Bytes)
    requires |username| < 256
    ensures |r| <= 332
  {
    Finalized(Message(BINDING_REQUEST, 0, id, RequestBody(username, initiator, tie, priority)), key, mac)
  }

  /** One more piece behind what was written into a blank buffer. */
  method AppendBytes(buffer: array<byte>, len: nat, data: Bytes, ghost front: Bytes) returns (next: nat)
    requires len == |front| && len + |data| <= buffer.Length
    requires buffer[..] == front + Zeros(buffer.Length - len)
    modifies buffer
    ensures next == len + |data| && buffer[..] == front + data + Zeros(buffer.Length - next)
  {
    OverwrittenAfter(front, Zeros(buffer.Length - len), data);
    CopyInto(buffer, len, data);
    assert Zeros(buffer.Length - len)[|data|..] == Zeros(buffer.Length - len - |data|);
    next := len + |data|;
  }

  method CreateRequest(id: TransactionId, username: Bytes, initiator: bool, tie: uint64, priority: uint32, key: Bytes, mac: Mac)
    returns (message: Bytes)
    requires |username| < 256
    ensures message == Request(id, username, initiator, tie, priority, key, mac)
  {
    hide Bytes16, Bytes32, BigEndian, Zeros, Finalized, Overwritten, Stun.Message;
    var buffer := new byte[REQUEST_LEN];
    AllOverwritten(buffer[..], Zeros(REQUEST_LEN));
    CopyInto(buffer, 0, Zeros(REQUEST_LEN));
    assert buffer[..] == [] + Zeros(REQUEST_LEN);
    ghost var head := Stun.Message(BINDING_REQUEST, 0, id, []);
    var len := AppendBytes(buffer, 0, Stun.Message(BINDING_REQUEST, 0, id, []), []);
    assert [] + head == head;
    len := AppendBytes(buffer, len, Bytes16(USERNAME) + Bytes16(|username|), head);
    ghost var f1 := head + (Bytes16(USERNAME) + Bytes16(|username|));
    len := AppendBytes(buffer, len, username, f1);
    len := AppendBytes(buffer, len, PaddingOf(|username|), f1 + username);
    ghost var f2 := f1 + username + PaddingOf(|username|);
    len := AppendBytes(buffer, len, Bytes16(if initiator then CONTROLLING else CONTROLLED) + Bytes16(8), f2);
    ghost var f3 := f2 + (Bytes16(if initiator then CONTROLLING else CONTROLLED) + Bytes16(8));
    len := AppendBytes(buffer, len, BigEndian(8, tie), f3);
    len := AppendBytes(buffer, len, Bytes16(PRIORITY) + Bytes16(4), f3 + BigEndian(8, tie));
    ghost var f4 := f3 + BigEndian(8, tie) + (Bytes16(PRIORITY) + Bytes16(4));
    len := AppendBytes(buffer, len, Bytes32(priority), f4);
    RequestWritten(id, username, initiator, tie, priority);
    var status, newLen := Finalize(buffer, len, key, mac);
    message := buffer[..newLen];
  }

  lemma RequestWritten(id: TransactionId, username: Bytes, initiator: bool, tie: uint64, priority: uint32)
    requires |username| < 256
    ensures var head := Message(BINDING_REQUEST, 0, id, []);
      var f1 := head + (Bytes16(USERNAME) + Bytes16(|username|));
      var f2 := f1 + username + PaddingOf(|username|);
      var f3 := f2 + (Bytes16(if initiator then CONTROLLING else CONTROLLED) + Bytes16(8));
      var f4 := f3 + BigEndian(8, tie) + (Bytes16(PRIORITY) + Bytes16(4));
      f4 + Bytes32(priority) == Message(BINDING_REQUEST, 0, id, RequestBody(username, initiator, tie, priority))
  {
    hide Bytes16, Bytes32, BigEndian, PaddingOf;
  }

  /** The request, byte by byte up to where it is finalised. */
  lemma RequestBytes(id: TransactionId, username: Bytes, initiator: bool, tie: uint64, priority: uint32, key: Bytes, mac: Mac)
    requires |username| < 256
    ensures var padding := Zeros((4 - |username| % 4) % 4);
      Request(id, username, initiator, tie, priority, key, mac) ==
      Finalized(
        [0x00, 0x01, 0x00, 0x00, 0x21, 0x12, 0xA4, 0x42] + id
        + [0x00, 0x06, 0x00, |username|] + username + padding
        + [0x80, if initiator then 0x2A else 0x29, 0x00, 0x08] + BigEndian(8, tie)
        + [0x00, 0x24, 0x00, 0x04] + BigEndian(4, priority), key, mac)
  {
    hide RequestBody, Message, Finalized, BigEndian, Zeros;
    var padding := Zeros((4 - |username| % 4) % 4);
    var head := [0x00, 0x01, 0x00, 0x00, 0x21, 0x12, 0xA4, 0x42] + id;
    var a := [0x00, 0x06, 0x00, |username|] + username + padding;
    var b := [0x80, if initiator then 0x2A else 0x29, 0x00, 0x08] + BigEndian(8, tie);
    var c := [0x00, 0x24, 0x00, 0x04] + BigEndian(4, priority);
    RequestHead(id, RequestBody(username, initiator, tie, priority));
    BodyBytes(username, initiator, tie, priority);
    assert head + [0x00, 0x06, 0x00, |username|] + username + padding
      + [0x80, if initiator then 0x2A else 0x29, 0x00, 0x08] + BigEndian(8, tie)
      + [0x00, 0x24, 0x00, 0x04] + BigEndian(4, priority) == head + (a + b + c);
  }

  lemma RequestHead(id: TransactionId, body: Bytes)
    ensures Message(BINDING_REQUEST, 0, id, body) == [0x00, 0x01, 0x00, 0x00, 0x21, 0x12, 0xA4, 0x42] + id + body
  {
    hide Bytes16, Bytes32;
    RequestWords(0);
    assert Bytes16(0) == [0x00, 0x00] by { TypeWords(); }
    assert Bytes32(COOKIE) == [0x21, 0x12, 0xA4, 0x42] by { CookieBytes(); }
  }

  lemma BodyBytes(username: Bytes, initiator: bool, tie: uint64, priority: uint32)
    requires |username| < 256
    ensures RequestBody(username, initiator, tie, priority) ==
      ([0x00, 0x06, 0x00, |username|] + username + Zeros((4 - |username| % 4) % 4))
      + ([0x80, if initiator then 0x2A else 0x29, 0x00, 0x08] + BigEndian(8, tie))
      + ([0x00, 0x24, 0x00, 0x04] + BigEndian(4, priority))
  {
    hide Bytes16, Bytes32, BigEndian, Zeros;
    RequestWords(|username|);
    Bytes32BigEndian(priority);
  }

  lemma RequestWords(n: nat)
    requires n < 256
    ensures Bytes16(BINDING_REQUEST) == [0x00, 0x01] && Bytes16(USERNAME) == [0x00, 0x06] && Bytes16(n) == [0x00, n]
    ensures Bytes16(CONTROLLING) == [0x80, 0x2A] && Bytes16(CONTROLLED) == [0x80, 0x29] && Bytes16(8) == [0x00, 0x08]
    ensures Bytes16(PRIORITY) == [0x00, 0x24] && Bytes16(4) == [0x00, 0x04]
  {
  }

  /** The attributes that a reader finds in the request, and its header. */
  lemma RequestRead(id: TransactionId, username: Bytes, initiator: bool, tie: uint64, priority: uint32, key: Bytes, mac: Mac)
    requires |username| < 256
    ensures var m := Request(id, username, initiator, tie, priority, key, mac);
      && Read16(m, 0) == BINDING_REQUEST && Read16(m, 2) == |m| - 20 && Read32(m, 4) == COOKIE && m[8..20] == id
      && |Attributes(m, 20, |m|)| == 5
      && Attributes(m, 20, |m|)[..3] == RequestAttributes(username, initiator, tie, priority)
  {
    hide EncodeAll, Finalized, Attributes, Stamps, RequestBody;
    var attributes := RequestAttributes(username, initiator, tie, priority);
    RequestEncoded(username, initiator, tie, priority);
    var m0 := Message(BINDING_REQUEST, 0, id, EncodeAll(attributes));
    FinalizedAttributes(BINDING_REQUEST, id, attributes, key, mac);
    var all := attributes + Stamps(m0, key, mac);
    StampsAreNoAddresses(m0, key, mac);
    var m := Message(BINDING_REQUEST, |EncodeAll(all)|, id, EncodeAll(all));
    MessageFields(BINDING_REQUEST, |EncodeAll(all)|, id, EncodeAll(all));
    AttributesOfEncoded(m[..20], all, []);
    assert m == m[..20] + EncodeAll(all) + [];
  }
}
