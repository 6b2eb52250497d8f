/**
 * STUN messages (RFC 5389): src/ice/stun.c, lines 31 to 62 and 94 to 104, and 188 to 407.
 *
 * The keyed hash comes from a library and is a parameter. The code stamps a message over its
 * header and all its attributes, the two it adds included, with the bytes of the hash still zero.
 */
module Stun {
  import opened Octets
  import opened Results
  import Crc32

  const HEADER_LEN := 20
  const MAX_BODY := 1500
  const COOKIE: uint32 := 0x2112_A442
  const BINDING_REQUEST: uint16 := 0x0001
  const BINDING_RESPONSE: uint16 := 0x0101
  const MAPPED_ADDRESS: uint16 := 0x0001
  const XOR_MAPPED_ADDRESS: uint16 := 0x0020
  const MESSAGE_INTEGRITY: uint16 := 0x0008
  const FINGERPRINT: uint16 := 0x8028
  const FINGERPRINT_MASK: bv32 := 0x5354_554E

  type TransactionId = s: Bytes | |s| == 12 witness seq(12, _ => 0)
  type Digest = s: Bytes | |s| == 20 witness seq(20, _ => 0)

  /** The keyed hash: a password and a text to a digest. */
  type Mac = (Bytes, Bytes) -> Digest

  datatype Address = Address(ip: uint32, port: uint16)

  // ----- attributes -----

  datatype Attribute = Attribute(kind: uint16, value: Bytes, padding: Bytes)

  function Padded(n: nat): (r: nat)
    ensures n <= r < n + 4 && r % 4 == 0
  {
    (n + 3) / 4 * 4
  }

  predicate WellFormed(a: Attribute) {
    |a.value| < TWO_16 && |a.value| + |a.padding| == Padded(|a.value|)
  }

  function Encode(a: Attribute): (r: Bytes)
    requires WellFormed(a)
    ensures |r| == 4 + Padded(|a.value|)
  {
    Bytes16(a.kind) + Bytes16(|a.value|) + a.value + a.padding
  }

  predicate AllWellFormed(attributes: seq<Attribute>) {
    forall i :: 0 <= i < |attributes| ==> WellFormed(attributes[i])
  }

  function EncodeAll(attributes: seq<Attribute>): (r: Bytes)
    requires AllWellFormed(attributes)
    ensures |r| % 4 == 0
    decreases |attributes|
  {
    if attributes == [] then [] else Encode(attributes[0]) + EncodeAll(attributes[1..])
  }

  lemma {:induction false} EncodeAllAppends(a: seq<Attribute>, b: seq<Attribute>)
    requires AllWellFormed(a) && AllWellFormed(b)
    ensures EncodeAll(a + b) == EncodeAll(a) + EncodeAll(b)
    decreases |a|
  {
    hide Encode;
    if a == [] {
      assert a + b == b;
    } else {
      EncodeAllAppends(a[1..], b);
      assert (a + b)[1..] == a[1..] + b;
    }
  }

  function Read16(b: Bytes, at: nat): uint16
    requires at + 2 <= |b|
  {
    Word16(b[at], b[at + 1])
  }

  function Read32(b: Bytes, at: nat): uint32
    requires at + 4 <= |b|
  {
    Word32(b[at], b[at + 1], b[at + 2], b[at + 3])
  }

  /** The attributes a reader of b[at..end] visits: it stops at the first that does not fit. */
  function Attributes(b: Bytes, at: nat, end: nat): (r: seq<Attribute>)
    requires end <= |b|
    ensures AllWellFormed(r)
    decreases end - at
  {
    if at + 4 > end then []
    else
      var size := Read16(b, at + 2);
      var next := at + 4 + Padded(size);
      if next > end then []
      else [Attribute(Read16(b, at), b[at + 4..at + 4 + size], b[at + 4 + size..next])] + Attributes(b, next, end)
  }

  lemma ReadsEncoded(pre: Bytes, a: Attribute, post: Bytes)
    requires WellFormed(a)
    ensures var b, at := pre + Encode(a) + post, |pre|;
      && Read16(b, at) == a.kind
      && Read16(b, at + 2) == |a.value|
      && b[at + 4..at + 4 + |a.value|] == a.value
      && b[at + 4 + |a.value|..at + 4 + Padded(|a.value|)] == a.padding
  {
    var b, at := pre + Encode(a) + post, |pre|;
    Word16RoundTrip(a.kind);
    Word16RoundTrip(|a.value|);
    var e := Encode(a);
    assert b[at] == e[0] && b[at + 1] == e[1] && b[at + 2] == e[2] && b[at + 3] == e[3];
    assert e[4..4 + |a.value|] == a.value;
    assert e[4 + |a.value|..] == a.padding;
    assert b[at + 4..at + 4 + |a.value|] == e[4..4 + |a.value|];
    assert b[at + 4 + |a.value|..at + 4 + Padded(|a.value|)] == e[4 + |a.value|..];
  }

  lemma ReadOne(b: Bytes, at: nat, end: nat)
    requires at + 4 <= end <= |b| && at + 4 + Padded(Read16(b, at + 2)) <= end
    ensures var size := Read16(b, at + 2); var next := at + 4 + Padded(size);
      Attributes(b, at, end) ==
        [Attribute(Read16(b, at), b[at + 4..at + 4 + size], b[at + 4 + size..next])] + Attributes(b, next, end)
  {
  }

  /** Too short for an attribute, or for the one it announces. */
  predicate Misfit(tail: Bytes) {
    |tail| < 4 || 4 + (Value(tail[2..4]) + 3) / 4 * 4 > |tail|
  }

  /**
   * Reading visits the well-formed attributes at the front and stops at the first that does not fit,
   * whatever surrounds them.
   */
  lemma {:induction false} AttributesBefore(pre: Bytes, attributes: seq<Attribute>, tail: Bytes, post: Bytes)
    requires AllWellFormed(attributes) && Misfit(tail)
    ensures var body := EncodeAll(attributes) + tail;
      Attributes(pre + body + post, |pre|, |pre| + |body|) == attributes
    decreases |attributes|
  {
    hide Encode, Attributes, Misfit, Padded;
    var body := EncodeAll(attributes) + tail;
    var b, end := pre + body + post, |pre| + |body|;
    if attributes == [] {
      assert body == tail;
      NothingFits(pre, tail, post);
    } else {
      var a, more := attributes[0], attributes[1..];
      var rest := EncodeAll(more) + tail;
      assert b == pre + Encode(a) + (rest + post);
      ReadsEncoded(pre, a, rest + post);
      ReadOne(b, |pre|, end);
      AttributesBefore(pre + Encode(a), more, tail, post);
      assert b == (pre + Encode(a)) + rest + post;
      assert attributes == [a] + more;
    }
  }

  lemma NothingFits(pre: Bytes, tail: Bytes, post: Bytes)
    requires Misfit(tail)
    ensures Attributes(pre + tail + post, |pre|, |pre| + |tail|) == []
  {
    hide Value;
    var b := pre + tail + post;
    if |tail| >= 4 {
      assert b[|pre| + 2] == tail[2] && b[|pre| + 3] == tail[3];
      assert tail[2..4] == [tail[2], tail[3]];
      ValueOfPair(tail[2], tail[3]);
    }
  }

  lemma ValueOfPair(b0: byte, b1: byte)
    ensures Value([b0, b1]) == Word16(b0, b1)
  {
    assert [b0, b1][..1] == [b0] && [b0][..0] == [];
    assert Value([b0]) == b0;
  }

  /** Reading well-formed attributes visits exactly those attributes, whatever surrounds them. */
  lemma AttributesOfEncoded(pre: Bytes, attributes: seq<Attribute>, post: Bytes)
    requires AllWellFormed(attributes)
    ensures Attributes(pre + EncodeAll(attributes) + post, |pre|, |pre| + |EncodeAll(attributes)|) == attributes
  {
    hide Attributes;
    AttributesBefore(pre, attributes, [], post);
    assert EncodeAll(attributes) + [] == EncodeAll(attributes);
  }

  /** An attribute on the wire: type, length and value, then bytes up to a multiple of four. */
  lemma EncodedBytes(a: Attribute)
    requires WellFormed(a)
    ensures Encode(a) == BigEndian(2, a.kind) + BigEndian(2, |a.value|) + a.value + a.padding
  {
    hide Bytes16, BigEndian, Padded;
    Bytes16BigEndian(a.kind);
    Bytes16BigEndian(|a.value|);
  }

  // ----- mapped addresses -----

  lemma Powers()
    ensures Pow2(16) == TWO_16 && Pow2(32) == TWO_32
  {
    assert Pow2(8) == 0x100 by { assert Pow2(4) == 16; }
    assert Pow2(12) == 0x1000;
    assert Pow2(20) == 0x10_0000;
    assert Pow2(24) == 0x100_0000;
    assert Pow2(28) == 0x1000_0000;
  }

  function MaskPort(port: uint16): uint16 {
    Powers();
    Xor(16, port, COOKIE / TWO_16)
  }

  function MaskIp(ip: uint32): uint32 {
    Powers();
    Xor(32, ip, COOKIE)
  }

  lemma MaskTwice(a: Address)
    ensures MaskPort(MaskPort(a.port)) == a.port && MaskIp(MaskIp(a.ip)) == a.ip
  {
    Powers();
    XorCancels(16, a.port, COOKIE / TWO_16);
    XorCancels(32, a.ip, COOKIE);
  }

  /** Byte by byte, the port is combined with 21 12 and the address with 21 12 A4 42. */
  lemma MaskedBytes(p0: byte, p1: byte, i0: byte, i1: byte, i2: byte, i3: byte)
    ensures MaskPort(Word16(p0, p1)) == Word16(XorByte(p0, 0x21), XorByte(p1, 0x12))
    ensures MaskIp(Word32(i0, i1, i2, i3)) ==
      Word32(XorByte(i0, 0x21), XorByte(i1, 0x12), XorByte(i2, 0xA4), XorByte(i3, 0x42))
  {
    hide Xor, XorByte;
    XorWord16(p0, p1, 0x21, 0x12);
    XorWord32(i0, i1, i2, i3, 0x21, 0x12, 0xA4, 0x42);
    assert COOKIE / TWO_16 == Word16(0x21, 0x12) && COOKIE == Word32(0x21, 0x12, 0xA4, 0x42);
  }

  /** Has a port. */
  predicate IsAddress(a: Attribute) {
    a.kind in {MAPPED_ADDRESS, XOR_MAPPED_ADDRESS} && |a.value| >= 4
  }

  predicate IsIPv4(a: Attribute) {
    IsAddress(a) && a.value[1] == 1 && |a.value| == 8
  }

  function PortOf(a: Attribute): uint16
    requires IsAddress(a)
  {
    var port := Word16(a.value[2], a.value[3]);
    if a.kind == XOR_MAPPED_ADDRESS then MaskPort(port) else port
  }

  function IpOf(a: Attribute): uint32
    requires IsIPv4(a)
  {
    var ip := Word32(a.value[4], a.value[5], a.value[6], a.value[7]);
    if a.kind == XOR_MAPPED_ADDRESS then MaskIp(ip) else ip
  }

  function AddressOf(a: Attribute): Address
    requires IsIPv4(a)
  {
    Address(IpOf(a), PortOf(a))
  }

  /** What the walk has found: it sets the port even for an address that it cannot read. */
  datatype Seen = Seen(ip: Option<uint32>, port: uint16)

  function Notice(seen: Seen, a: Attribute): Seen {
    if IsIPv4(a) then Seen(Some(IpOf(a)), PortOf(a))
    else if IsAddress(a) then Seen(seen.ip, PortOf(a))
    else seen
  }

  function NoticeAll(seen: Seen, attributes: seq<Attribute>): Seen
    decreases |attributes|
  {
    if attributes == [] then seen else NoticeAll(Notice(seen, attributes[0]), attributes[1..])
  }

  /** The last element that satisfies p. */
  function Last(p: Attribute -> bool, attributes: seq<Attribute>): (r: Option<Attribute>)
    ensures r.Some? ==> p(r.value) && r.value in attributes
    ensures r.None? <==> forall a :: a in attributes ==> !p(a)
    decreases |attributes|
  {
    if attributes == [] then None
    else
      var k := |attributes| - 1;
      if p(attributes[k]) then Some(attributes[k]) else Last(p, attributes[..k])
  }

  lemma {:induction false} NoticeAppends(seen: Seen, attributes: seq<Attribute>, a: Attribute)
    ensures NoticeAll(seen, attributes + [a]) == Notice(NoticeAll(seen, attributes), a)
    decreases |attributes|
  {
    hide Notice;
    if attributes == [] {
      assert [a][1..] == [];
    } else {
      NoticeAppends(Notice(seen, attributes[0]), attributes[1..], a);
      assert (attributes + [a])[1..] == attributes[1..] + [a];
    }
  }

  /** The address comes from the last IPv4 attribute; the port from the last address of any kind. */
  lemma {:induction false} LastOneWins(seen: Seen, attributes: seq<Attribute>)
    ensures var r := NoticeAll(seen, attributes);
      var v4, any := Last(IsIPv4, attributes), Last(IsAddress, attributes);
      && r.ip == (if v4.Some? then Some(IpOf(v4.value)) else seen.ip)
      && r.port == (if any.Some? then PortOf(any.value) else seen.port)
    decreases |attributes|
  {
    hide IpOf, PortOf;
    if attributes != [] {
      var k := |attributes| - 1;
      LastOneWins(seen, attributes[..k]);
      NoticeAppends(seen, attributes[..k], attributes[k]);
      assert attributes == attributes[..k] + [attributes[k]];
    }
  }

  lemma {:induction false} SameLast(attributes: seq<Attribute>)
    requires forall a :: a in attributes && IsAddress(a) ==> IsIPv4(a)
    ensures Last(IsAddress, attributes) == Last(IsIPv4, attributes)
    decreases |attributes|
  {
    hide IsIPv4, IsAddress;
    if attributes != [] {
      var k := |attributes| - 1;
      FourIsAddress(attributes[k]);
      SameLast(attributes[..k]);
    }
  }

  lemma FourIsAddress(a: Attribute)
    ensures IsIPv4(a) ==> IsAddress(a)
  {
  }

  // ----- responses -----

  datatype Outcome = Outcome(status: Status, seen: Seen)

  predicate ValidHeader(b: Bytes)
    requires |b| >= HEADER_LEN
  {
    Read32(b, 4) == COOKIE && Read16(b, 2) <= MAX_BODY
  }

  /** Reading a response: `len` bytes were received, the buffer they lie in may hold more. */
  function Processed(b: Bytes, len: nat, room: nat, port: uint16): Outcome
    requires len <= |b| && |b| >= HEADER_LEN + MAX_BODY
  {
    var nothing := Seen(None, port);
    if len < HEADER_LEN || !ValidHeader(b) || Read16(b, 0) != BINDING_RESPONSE then Outcome(Error, nothing)
    else
      var seen := NoticeAll(nothing, Attributes(b, HEADER_LEN, HEADER_LEN + Read16(b, 2)));
      if room < 16 || seen.ip.None? then Outcome(Error, Seen(None, seen.port)) else Outcome(Ok, seen)
  }

  method ProcessResponse(b: Bytes, len: nat, room: nat, port: uint16) returns (r: Outcome)
    requires len <= |b| && |b| >= HEADER_LEN + MAX_BODY
    ensures r == Processed(b, len, room, port)
  {
    r := Outcome(Error, Seen(None, port));
    if len < HEADER_LEN || !ValidHeader(b) || Read16(b, 0) != BINDING_RESPONSE {
      return;
    }
    var seen := Walk(b, HEADER_LEN, HEADER_LEN + Read16(b, 2), port);
    if room < 16 || seen.ip.None? {
      r := Outcome(Error, Seen(None, seen.port));
    } else {
      r := Outcome(Ok, seen);
    }
  }

  method Walk(b: Bytes, start: nat, end: nat, port: uint16) returns (seen: Seen)
    requires start <= end <= |b|
    ensures seen == NoticeAll(Seen(None, port), Attributes(b, start, end))
  {
    hide IsIPv4, IsAddress, IpOf, PortOf, Padded, Attributes, Notice, NoticeAll;
    var at := start;
    seen := Seen(None, port);
    ghost var all := NoticeAll(seen, Attributes(b, start, end));
    while at < end
      invariant start <= at
      invariant NoticeAll(seen, Attributes(b, at, end)) == all
      decreases end - at
    {
      if at + 4 > end {
        break;
      }
      var kind, size := Read16(b, at), Read16(b, at + 2);
      var next := at + 4 + Padded(size);
      if next > end {
        break;
      }
      ReadOne(b, at, end);
      NoticeCons(seen, Attribute(kind, b[at + 4..at + 4 + size], b[at + 4 + size..next]), Attributes(b, next, end));
      seen := NoticeAt(seen, kind, b, at + 4, size);
      at := next;
    }
    NothingNoticed(b, at, end, seen);
  }

  lemma NothingNoticed(b: Bytes, at: nat, end: nat, seen: Seen)
    requires end <= |b|
    requires at + 4 > end || at + 4 + Padded(Read16(b, at + 2)) > end
    ensures NoticeAll(seen, Attributes(b, at, end)) == seen
  {
  }

  lemma NoticeCons(seen: Seen, a: Attribute, more: seq<Attribute>)
    ensures NoticeAll(seen, [a] + more) == NoticeAll(Notice(seen, a), more)
  {
    hide Notice;
    assert ([a] + more)[1..] == more;
  }

  /** One turn of the walk, on the bytes of an attribute. */
  method NoticeAt(seen: Seen, kind: uint16, b: Bytes, at: nat, size: nat) returns (r: Seen)
    requires at + Padded(size) <= |b|
    ensures r == Notice(seen, Attribute(kind, b[at..at + size], b[at + size..at + Padded(size)]))
  {
    hide MaskPort, MaskIp;
    r := seen;
    ghost var value := b[at..at + size];
    assert size >= 4 ==> value[1] == b[at + 1] && Word16(value[2], value[3]) == Read16(b, at + 2);
    assert size == 8 ==> Word32(value[4], value[5], value[6], value[7]) == Read32(b, at + 4);
    if kind == XOR_MAPPED_ADDRESS && size >= 4 {
      r := r.(port := MaskPort(Read16(b, at + 2)));
      if b[at + 1] == 1 && size == 8 {
        r := r.(ip := Some(MaskIp(Read32(b, at + 4))));
      }
    } else if kind == MAPPED_ADDRESS && size >= 4 {
      r := r.(port := Read16(b, at + 2));
      if b[at + 1] == 1 && size == 8 {
        r := r.(ip := Some(Read32(b, at + 4)));
      }
    }
  }

  /** A mapped address, masked or not, with a port. */
  predicate HasPort(a: Attribute) {
    (a.kind == 0x0001 || a.kind == 0x0020) && |a.value| >= 4
  }

  /** One of family 1 in eight bytes. */
  predicate HasIPv4(a: Attribute) {
    HasPort(a) && |a.value| == 8 && a.value[1] == 1
  }

  /** The port and the address from their bytes; type 0x0020 has them combined with 21 12 A4 42. */
  function PortRead(a: Attribute): nat
    requires HasPort(a)
  {
    var v := a.value;
    if a.kind == 0x0001 then Value(v[2..4]) else Value([XorByte(v[2], 0x21), XorByte(v[3], 0x12)])
  }

  function IpRead(a: Attribute): nat
    requires HasIPv4(a)
  {
    var v := a.value;
    if a.kind == 0x0001 then Value(v[4..8])
    else Value([XorByte(v[4], 0x21), XorByte(v[5], 0x12), XorByte(v[6], 0xA4), XorByte(v[7], 0x42)])
  }

  lemma AddressBytes(a: Attribute)
    ensures IsAddress(a) <==> HasPort(a)
    ensures IsIPv4(a) <==> HasIPv4(a)
    ensures HasPort(a) ==> PortOf(a) == PortRead(a)
    ensures HasIPv4(a) ==> IpOf(a) == IpRead(a)
  {
    hide PortOf, PortRead, IpOf, IpRead;
    if HasPort(a) {
      PortBytes(a);
    }
    if HasIPv4(a) {
      IpBytes(a);
    }
  }

  lemma PortBytes(a: Attribute)
    requires HasPort(a)
    ensures IsAddress(a) && PortOf(a) == PortRead(a)
  {
    hide Value, MaskPort, MaskIp, XorByte, Word16, Word32;
    var v := a.value;
    assert v[2..4] == [v[2], v[3]];
    ValueOfPair(v[2], v[3]);
    ValueOfPair(XorByte(v[2], 0x21), XorByte(v[3], 0x12));
    MaskedBytes(v[2], v[3], 0, 0, 0, 0);
  }

  lemma IpBytes(a: Attribute)
    requires HasIPv4(a)
    ensures IsIPv4(a) && IpOf(a) == IpRead(a)
  {
    hide Value, MaskPort, MaskIp, XorByte, Word16, Word32;
    var v := a.value;
    assert v[4..8] == [v[4], v[5], v[6], v[7]];
    ValueOfFour(v[4], v[5], v[6], v[7]);
    ValueOfFour(XorByte(v[4], 0x21), XorByte(v[5], 0x12), XorByte(v[6], 0xA4), XorByte(v[7], 0x42));
    MaskedBytes(0, 0, v[4], v[5], v[6], v[7]);
  }

  lemma ValueOfFour(b0: byte, b1: byte, b2: byte, b3: byte)
    ensures Value([b0, b1, b2, b3]) == Word32(b0, b1, b2, b3)
  {
    assert [b0, b1, b2, b3][..3] == [b0, b1, b2] && [b0, b1, b2][..2] == [b0, b1];
    ValueOfPair(b0, b1);
    assert Value([b0, b1, b2]) == 0x100 * Value([b0, b1]) + b2;
  }

  lemma {:induction false} LastOfSame(p: Attribute -> bool, q: Attribute -> bool, attributes: seq<Attribute>)
    requires forall a :: a in attributes ==> p(a) == q(a)
    ensures Last(p, attributes) == Last(q, attributes)
    decreases |attributes|
  {
    if attributes != [] {
      LastOfSame(p, q, attributes[..|attributes| - 1]);
    }
  }

  lemma HeaderBytesRead(b: Bytes)
    requires |b| >= HEADER_LEN
    ensures Read16(b, 0) == BINDING_RESPONSE <==> b[..2] == [0x01, 0x01]
    ensures Read32(b, 4) == COOKIE <==> b[4..8] == [0x21, 0x12, 0xA4, 0x42]
  {
    assert b[..2] == [b[0], b[1]] && b[4..8] == [b[4], b[5], b[6], b[7]];
    Bytes32RoundTrip(b[4], b[5], b[6], b[7]);
  }

  /**
   * Exactly which buffers are accepted, and what is reported: the last IPv4 address and the last port; a
   * port is reported even when the buffer is refused for want of an address.
   */
  lemma ProcessedExactly(b: Bytes, len: nat, room: nat, port: uint16)
    requires len <= |b| && |b| >= HEADER_LEN + MAX_BODY
    ensures var r := Processed(b, len, room, port);
      var header := len >= 20 && b[..2] == [0x01, 0x01] && Read16(b, 2) <= 1500 && b[4..8] == [0x21, 0x12, 0xA4, 0x42];
      if !header then r == Outcome(Error, Seen(None, port))
      else
        var attributes := Attributes(b, 20, 20 + Read16(b, 2));
        var v4, any := Last(HasIPv4, attributes), Last(HasPort, attributes);
        && (r.status == Ok <==> room >= 16 && v4.Some?) && (r.status != Ok ==> r.status == Error && r.seen.ip.None?)
        && (r.status == Ok ==> r.seen.ip.Some? && r.seen.ip.value == IpRead(v4.value))
        && r.seen.port == if any.Some? then PortRead(any.value) else port
  {
    hide Attributes, NoticeAll, IpOf, PortOf, IsIPv4, IsAddress, HasIPv4, HasPort, PortRead, IpRead;
    HeaderBytesRead(b);
    if ValidHeader(b) {
      var attributes := Attributes(b, HEADER_LEN, HEADER_LEN + Read16(b, 2));
      LastOneWins(Seen(None, port), attributes);
      forall a | a in attributes
        ensures IsAddress(a) == HasPort(a) && IsIPv4(a) == HasIPv4(a)
      {
        AddressBytes(a);
      }
      LastOfSame(IsIPv4, HasIPv4, attributes);
      LastOfSame(IsAddress, HasPort, attributes);
      if Last(HasIPv4, attributes).Some? {
        AddressBytes(Last(HasIPv4, attributes).value);
      }
      if Last(HasPort, attributes).Some? {
        AddressBytes(Last(HasPort, attributes).value);
      }
    }
  }

  // ----- building messages -----

  /** A message with a given length field. */
  function Message(kind: uint16, length: uint16, id: TransactionId, body: Bytes): (r: Bytes)
    ensures |r| == HEADER_LEN + |body|
  {
    Bytes16(kind) + Bytes16(length) + Bytes32(COOKIE) + id + body
  }

  lemma MessageFields(kind: uint16, length: uint16, id: TransactionId, body: Bytes)
    ensures var m := Message(kind, length, id, body);
      && Read16(m, 0) == kind && Read16(m, 2) == length && Read32(m, 4) == COOKIE
      && m[8..20] == id && m[20..] == body
  {
    Word16RoundTrip(kind);
    Word16RoundTrip(length);
    Word32RoundTrip(COOKIE);
  }

  function SetLength(m: Bytes, total: nat): (r: Bytes)
    requires |m| >= HEADER_LEN && total >= HEADER_LEN
    ensures |r| == |m|
  {
    m[..2] + Bytes16((total - HEADER_LEN) % TWO_16) + m[4..]
  }

  function IntegrityHead(): (r: Bytes)
    ensures |r| == 4
  {
    Bytes16(MESSAGE_INTEGRITY) + Bytes16(20)
  }

  function FingerprintHead(): (r: Bytes)
    ensures |r| == 4
  {
    Bytes16(FINGERPRINT) + Bytes16(4)
  }

  function OctetsOf(b: Bytes): seq<Crc32.Octet> {
    seq(|b|, i requires 0 <= i < |b| => b[i] as bv8)
  }

  function Mark(b: Bytes): uint32 {
    (Crc32.Checksum(OctetsOf(b)) ^ FINGERPRINT_MASK) as int
  }

  /** What is hashed: the message so far, the length it will have, and a blank digest. */
  function Blank(m: Bytes): (r: Bytes)
    requires |m| >= HEADER_LEN
    ensures |r| == |m| + 24
  {
    SetLength(m, |m| + 24) + IntegrityHead() + Zeros(20)
  }

  function Stamped(m: Bytes, key: Bytes, mac: Mac): (r: Bytes)
    requires |m| >= HEADER_LEN
    ensures |r| == |m| + 24
  {
    SetLength(m, |m| + 24) + IntegrityHead() + mac(key, Blank(m))
  }

  /** What the fingerprint covers: the message up to the value of the fingerprint attribute. */
  function Covered(m: Bytes, key: Bytes, mac: Mac): (r: Bytes)
    requires |m| >= HEADER_LEN
    ensures |r| == |m| + 28
  {
    SetLength(Stamped(m, key, mac), |m| + 32) + FingerprintHead()
  }

  function Finalized(m: Bytes, key: Bytes, mac: Mac): (r: Bytes)
    requires |m| >= HEADER_LEN
    ensures |r| == |m| + 32
  {
    Covered(m, key, mac) + Bytes32(Mark(Covered(m, key, mac)))
  }

  lemma LengthWritten(m: Bytes, tail: Bytes, total: nat)
    requires |m| >= HEADER_LEN && total >= HEADER_LEN
    ensures Overwritten(m + tail, 2, Bytes16((total - HEADER_LEN) % TWO_16)) == SetLength(m, total) + tail
  {
    assert (m + tail)[..2] == m[..2];
    assert (m + tail)[4..] == m[4..] + tail;
  }

  lemma LengthOfExtended(m: Bytes, tail: Bytes, total: nat)
    requires |m| >= HEADER_LEN && total >= HEADER_LEN
    ensures SetLength(m + tail, total) == SetLength(m, total) + tail
  {
    assert (m + tail)[..2] == m[..2];
    assert (m + tail)[4..] == m[4..] + tail;
  }

  method Finalize(buffer: array<byte>, len: nat, key: Bytes, mac: Mac) returns (status: Status, newLen: nat)
    requires HEADER_LEN <= len <= buffer.Length
    modifies buffer
    ensures status == if len + 32 > buffer.Length then Memory else Ok
    ensures status != Ok ==> buffer[..] == old(buffer[..]) && newLen == len
    ensures status == Ok ==> newLen == len + 32
    ensures status == Ok ==> buffer[..] == Finalized(old(buffer[..len]), key, mac) + old(buffer[..])[newLen..]
  {
    hide Mark, IntegrityHead, FingerprintHead, Overwritten, SetLength, OctetsOf, Zeros, Bytes16, Bytes32;
    if len + 24 + 8 > buffer.Length {
      return Memory, len;
    }
    ghost var m, rest := buffer[..len], buffer[len..];
    ghost var blank, stamped, covered := Blank(m), Stamped(m, key, mac), Covered(m, key, mac);
    assert buffer[..] == m + rest;
    StampedWritten(m, rest, key, mac);
    CopyInto(buffer, len, IntegrityHead());
    CopyInto(buffer, len + 4, Zeros(20));
    CopyInto(buffer, 2, Bytes16((len + 24 - HEADER_LEN) % TWO_16));
    assert buffer[..len + 24] == blank;
    var digest := mac(key, buffer[..len + 24]);
    CopyInto(buffer, len + 4, digest);
    newLen := len + 24;
    CoveredWritten(m, rest[24..], key, mac);
    CopyInto(buffer, newLen, FingerprintHead());
    CopyInto(buffer, 2, Bytes16((newLen + 8 - HEADER_LEN) % TWO_16));
    assert buffer[..newLen + 4] == covered;
    var crc := Crc32.Compute(OctetsOf(buffer[..newLen + 4]));
    MarkOf(covered, crc);
    OverwrittenAfter(covered, rest[24..][4..], Bytes32(Mark(covered)));
    CopyInto(buffer, newLen + 4, Bytes32((crc ^ FINGERPRINT_MASK) as int));
    newLen := newLen + 8;
    assert rest[24..][4..][4..] == old(buffer[..])[newLen..];
    status := Ok;
  }

  lemma StampedWritten(m: Bytes, rest: Bytes, key: Bytes, mac: Mac)
    requires |m| >= HEADER_LEN && |rest| >= 24
    ensures var b := Overwritten(Overwritten(m + rest, |m|, IntegrityHead()), |m| + 4, Zeros(20));
      var c := Overwritten(b, 2, Bytes16((|m| + 24 - HEADER_LEN) % TWO_16));
      && c == Blank(m) + rest[24..]
      && Overwritten(c, |m| + 4, mac(key, Blank(m))) == Stamped(m, key, mac) + rest[24..]
  {
    hide Overwritten, IntegrityHead, Zeros, SetLength;
    OverwrittenAfter(m, rest, IntegrityHead());
    OverwrittenAfter(m + IntegrityHead(), rest[4..], Zeros(20));
    assert rest[4..][20..] == rest[24..];
    LengthWritten(m + IntegrityHead() + Zeros(20), rest[24..], |m| + 24);
    LengthOfExtended(m + IntegrityHead(), Zeros(20), |m| + 24);
    LengthOfExtended(m, IntegrityHead(), |m| + 24);
    OverwrittenMiddle(SetLength(m, |m| + 24) + IntegrityHead(), Zeros(20), rest[24..], mac(key, Blank(m)));
  }

  lemma CoveredWritten(m: Bytes, rest: Bytes, key: Bytes, mac: Mac)
    requires |m| >= HEADER_LEN && |rest| >= 4
    ensures var b := Overwritten(Stamped(m, key, mac) + rest, |m| + 24, FingerprintHead());
      Overwritten(b, 2, Bytes16((|m| + 32 - HEADER_LEN) % TWO_16)) == Covered(m, key, mac) + rest[4..]
  {
    hide Overwritten, FingerprintHead, SetLength, Stamped;
    OverwrittenAfter(Stamped(m, key, mac), rest, FingerprintHead());
    LengthWritten(Stamped(m, key, mac) + FingerprintHead(), rest[4..], |m| + 32);
    LengthOfExtended(Stamped(m, key, mac), FingerprintHead(), |m| + 32);
  }

  lemma MarkOf(b: Bytes, crc: bv32)
    requires crc == Crc32.Checksum(OctetsOf(b))
    ensures (crc ^ FINGERPRINT_MASK) as int == Mark(b)
  {
  }
}
