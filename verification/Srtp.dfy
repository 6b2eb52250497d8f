/**
 * Packet protection in counter mode with a truncated tag: src/media/srtp.c.
 *
 * The block cipher and the keyed hash come from a library, so they are parameters here and
 * every result holds for any choice of the two.
 */
module Srtp {
  import opened Octets
  import opened Results

  const HEADER_LEN := 12
  const TAG_LEN := 10

  type Block = s: Bytes | |s| == 16 witness seq(16, _ => 0)
  type Salt = s: Bytes | |s| == 14 witness seq(14, _ => 0)
  type Digest = s: Bytes | |s| == 20 witness seq(20, _ => 0)

  datatype Primitives = Primitives(aes: (Block, Block) -> Block, hmac: (Block, Bytes) -> Digest)

  datatype Keys = Keys(key: Block, salt: Salt)

  // ----- the counter -----

  function Salted(block: Block, salt: Salt): Block {
    XorBytes(block[..14], salt) + block[14..]
  }

  function FirstCounter(salt: Salt): Block {
    Salted(Zeros(16), salt)
  }

  function SessionKey(p: Primitives, keys: Keys, ssrc: uint32): Block {
    p.aes(keys.key, Salted(Zeros(12) + Bytes32(ssrc), keys.salt))
  }

  /** The block the code has reached after n increments. */
  function CounterBlock(first: Block, n: nat): Block {
    first[..8] + BigEndian(8, (Value(first[8..]) + n) % TWO_64)
  }

  lemma CounterStarts(first: Block)
    ensures CounterBlock(first, 0) == first
  {
    hide Value, BigEndian, Pow256;
    Pow256Of8();
    ValueBound(first[8..]);
    BigEndianOfValue(first[8..]);
  }

  /** Two blocks of one packet are never encrypted under the same counter. */
  lemma CountersDistinct(first: Block, m: nat, n: nat)
    requires m < n < TWO_64
    ensures CounterBlock(first, m) != CounterBlock(first, n)
  {
    var a, b := (Value(first[8..]) + m) % TWO_64, (Value(first[8..]) + n) % TWO_64;
    assert a != b;
    Pow256Of8();
    ValueOfBigEndian(8, a);
    ValueOfBigEndian(8, b);
    assert CounterBlock(first, m)[8..] == BigEndian(8, a);
    assert CounterBlock(first, n)[8..] == BigEndian(8, b);
  }

  /** Adding one to a big-endian byte string, carry by carry. */
  function Successor(bytes: Bytes): (r: Bytes)
    ensures |r| == |bytes|
  {
    if bytes == [] then []
    else
      var front, last := bytes[..|bytes| - 1], bytes[|bytes| - 1];
      if last == 0xFF then Successor(front) + [0] else front + [last + 1]
  }

  lemma {:induction false} SuccessorValue(bytes: Bytes)
    ensures Value(bytes) + 1 <= Pow256(|bytes|)
    ensures Value(Successor(bytes)) == if Value(bytes) + 1 == Pow256(|bytes|) then 0 else Value(bytes) + 1
  {
    ValueBound(bytes);
    if bytes != [] {
      var front, last := bytes[..|bytes| - 1], bytes[|bytes| - 1];
      ValueBound(front);
      SuccessorValue(front);
      assert Successor(bytes)[..|bytes| - 1] == if last == 0xFF then Successor(front) else front;
    }
  }

  lemma CounterSteps(first: Block, n: nat)
    ensures var block := CounterBlock(first, n);
            CounterBlock(first, n + 1) == block[..8] + Successor(block[8..])
  {
    hide *;
    var block, v := CounterBlock(first, n), Value(first[8..]) + n;
    CounterParts(first, n);
    CounterParts(first, n + 1);
    SuccessorValue(block[8..]);
    ModStep(v);
    var next := Successor(block[8..]);
    assert Value(next) == (v + 1) % TWO_64;
    BigEndianOfValue(next);
    assert BigEndian(8, Value(next)) == next;
  }

  lemma CounterParts(first: Block, n: nat)
    ensures CounterBlock(first, n)[..8] == first[..8]
    ensures CounterBlock(first, n)[8..] == BigEndian(8, (Value(first[8..]) + n) % TWO_64)
    ensures Value(CounterBlock(first, n)[8..]) == (Value(first[8..]) + n) % TWO_64
    ensures CounterBlock(first, n) == first[..8] + BigEndian(8, (Value(first[8..]) + n) % TWO_64)
    ensures Pow256(8) == TWO_64
  {
    Pow256Of8();
    ValueOfBigEndian(8, (Value(first[8..]) + n) % TWO_64);
  }

  lemma ModStep(v: nat)
    ensures (v + 1) % TWO_64 == if v % TWO_64 + 1 == TWO_64 then 0 else v % TWO_64 + 1
  {
  }

  /** The carry stops at position m, or runs through when m is -1. */
  lemma {:induction false} SuccessorCarry(was: Bytes, now: Bytes, m: int)
    requires |was| == |now| && -1 <= m < |was|
    requires forall k :: m < k < |was| ==> was[k] == 0xFF && now[k] == 0
    requires forall k :: 0 <= k < m ==> now[k] == was[k]
    requires 0 <= m ==> was[m] < 0xFF && now[m] == was[m] + 1
    ensures now == Successor(was)
  {
    if was != [] {
      var n := |was| - 1;
      if m == n {
        assert now == was[..n] + [was[n] + 1];
      } else {
        SuccessorCarry(was[..n], now[..n], m);
        assert now == now[..n] + [0];
      }
    }
  }

  /** The increment loop: from the last byte up to byte 8, stopping where no carry is left. */
  method IncrementCounter(block: array<byte>, counter: uint64, ghost first: Block, ghost n: nat)
    requires block.Length == 16 && counter > 0 && block[..] == CounterBlock(first, n)
    modifies block
    ensures block[..] == CounterBlock(first, n + 1)
  {
    hide Successor, CounterBlock;
    CounterSteps(first, n);
    var i := 15;
    while i >= 8 && counter > 0
      invariant 7 <= i <= 15 && (counter == 0 ==> i == 15)
      invariant forall k :: 0 <= k <= i ==> block[k] == old(block[k])
      invariant forall k :: i < k < 16 ==> block[k] == 0 && old(block[k]) == 0xFF
    {
      block[i] := if block[i] == 0xFF then 0 else block[i] + 1;
      if block[i] != 0 {
        SuccessorCarry(old(block[8..]), block[8..], i - 8);
        assert block[..] == old(block[..8]) + block[8..];
        return;
      }
      i := i - 1;
    }
    SuccessorCarry(old(block[8..]), block[8..], -1);
    assert block[..] == old(block[..8]) + block[8..];
  }

  // ----- the key stream -----

  function Pad(p: Primitives, key: Block, first: Block, i: nat): byte {
    p.aes(key, CounterBlock(first, i / 16))[i % 16]
  }

  function Crypt(p: Primitives, key: Block, first: Block, payload: Bytes): (r: Bytes)
    ensures |r| == |payload|
    ensures forall i :: 0 <= i < |payload| ==> r[i] == XorByte(payload[i], Pad(p, key, first, i))
  {
    seq(|payload|, i requires 0 <= i < |payload| => XorByte(payload[i], Pad(p, key, first, i)))
  }

  lemma CryptCancels(p: Primitives, key: Block, first: Block, payload: Bytes)
    ensures Crypt(p, key, first, Crypt(p, key, first, payload)) == payload
  {
    hide Pad;
    forall i | 0 <= i < |payload|
      ensures Crypt(p, key, first, Crypt(p, key, first, payload))[i] == payload[i]
    {
      XorByteCancels(payload[i], Pad(p, key, first, i));
    }
  }

  /** Encrypts or decrypts packet[12..end] in place. */
  method CryptPayload(p: Primitives, key: Block, salt: Salt, packet: array<byte>, end: nat)
    requires HEADER_LEN <= end <= packet.Length < TWO_64
    modifies packet
    ensures packet[..] == old(packet[..HEADER_LEN])
                          + Crypt(p, key, FirstCounter(salt), old(packet[HEADER_LEN..end]))
                          + old(packet[end..])
  {
    hide Pad, XorByte, FirstCounter, BigEndian, CounterBlock, Value, Successor;
    var length := end - 12;
    ghost var first := FirstCounter(salt);
    ghost var was := packet[..];
    ghost var done := Crypt(p, key, first, packet[HEADER_LEN..end]);
    var block := new byte[16](i requires 0 <= i < 16 => FirstCounter(salt)[i]);
    CounterStarts(first);
    assert block[..] == first;
    var counter := 0;
    var i := 0;
    while i < length
      invariant 0 <= i && i == 16 * counter && i < length + 16
      invariant fresh(block) && block[..] == CounterBlock(first, counter)
      invariant forall k :: 0 <= k < packet.Length ==>
        packet[k] == if HEADER_LEN <= k < HEADER_LEN + i && k < end then done[k - HEADER_LEN] else was[k]
    {
      var encrypted := p.aes(key, block[..]);
      var blockLen := if length - i >= 16 then 16 else length - i;
      XorBlock(packet, 12 + i, encrypted, blockLen);
      forall k | 12 + i <= k < 12 + i + blockLen
        ensures packet[k] == done[k - HEADER_LEN]
      {
        PadAt(p, key, first, i, k - 12 - i);
      }
      counter := counter + 1;
      IncrementCounter(block, counter, first, counter - 1);
      i := i + 16;
    }
  }

  method XorBlock(packet: array<byte>, at: nat, pad: Block, n: nat)
    requires n <= 16 && at + n <= packet.Length
    modifies packet
    ensures forall k :: 0 <= k < packet.Length ==>
      packet[k] == if at <= k < at + n then XorByte(old(packet[k]), pad[k - at]) else old(packet[k])
  {
    hide XorByte;
    var j := 0;
    while j < n
      invariant 0 <= j <= n
      invariant forall k :: 0 <= k < packet.Length ==>
        packet[k] == if at <= k < at + j then XorByte(old(packet[k]), pad[k - at]) else old(packet[k])
    {
      packet[at + j] := XorByte(packet[at + j], pad[j]);
      j := j + 1;
    }
  }

  lemma PadAt(p: Primitives, key: Block, first: Block, i: nat, j: nat)
    requires i % 16 == 0 && j < 16
    ensures Pad(p, key, first, i + j) == p.aes(key, CounterBlock(first, i / 16))[j]
    ensures i / 16 * 16 == i
  {
    assert (i + j) / 16 == i / 16 && (i + j) % 16 == j;
  }

  // ----- packets -----

  function Ssrc(packet: Bytes): uint32
    requires |packet| >= HEADER_LEN
  {
    Word32(packet[8], packet[9], packet[10], packet[11])
  }

  /** The packet with its payload under the key stream that its own SSRC selects. */
  function Transformed(p: Primitives, keys: Keys, packet: Bytes): (r: Bytes)
    requires |packet| >= HEADER_LEN
    ensures |r| == |packet|
  {
    packet[..HEADER_LEN]
    + Crypt(p, SessionKey(p, keys, Ssrc(packet)), FirstCounter(keys.salt), packet[HEADER_LEN..])
  }

  /**
   * The counter starts over with every packet, and neither sequence number nor roll-over counter enters
   * it: two packets of one source and one length are combined with the same key stream.
   */
  lemma KeyStreamRepeats(p: Primitives, keys: Keys, a: Bytes, b: Bytes)
    requires HEADER_LEN <= |a| == |b| && Ssrc(a) == Ssrc(b)
    ensures XorBytes(Transformed(p, keys, a)[HEADER_LEN..], Transformed(p, keys, b)[HEADER_LEN..]) ==
      XorBytes(a[HEADER_LEN..], b[HEADER_LEN..])
  {
    hide Pad, XorByte, SessionKey, FirstCounter, Ssrc;
    var key, first := SessionKey(p, keys, Ssrc(a)), FirstCounter(keys.salt);
    forall i | 0 <= i < |a| - HEADER_LEN
      ensures XorByte(Transformed(p, keys, a)[HEADER_LEN..][i], Transformed(p, keys, b)[HEADER_LEN..][i]) ==
        XorByte(a[HEADER_LEN..][i], b[HEADER_LEN..][i])
    {
      XorByteShared(a[HEADER_LEN..][i], b[HEADER_LEN..][i], Pad(p, key, first, i));
    }
  }

  function Tag(p: Primitives, keys: Keys, body: Bytes): (r: Bytes)
    ensures |r| == TAG_LEN
  {
    p.hmac(keys.key, body)[..TAG_LEN]
  }

  lemma TagIs(p: Primitives, keys: Keys, body: Bytes)
    ensures Tag(p, keys, body) == p.hmac(keys.key, body)[..TAG_LEN]
  {
  }

  function Protected(p: Primitives, keys: Keys, packet: Bytes): (r: Bytes)
    requires |packet| >= HEADER_LEN
    ensures |r| == |packet| + TAG_LEN
  {
    Transformed(p, keys, packet) + Tag(p, keys, Transformed(p, keys, packet))
  }

  function Unprotected(p: Primitives, keys: Keys, packet: Bytes): Option<Bytes> {
    if |packet| < HEADER_LEN + TAG_LEN then None
    else
      var body := packet[..|packet| - TAG_LEN];
      if packet[|packet| - TAG_LEN..] != Tag(p, keys, body) then None
      else Some(Transformed(p, keys, body))
  }

  // ----- the key stream byte by byte -----

  /** The block whose encryption is the session key: the salt, with the source at the end. */
  predicate IsKeyBlock(block: Block, salt: Salt, source: Bytes)
    requires |source| == 4
  {
    && block[..12] == salt[..12]
    && block[12] == XorByte(source[0], salt[12]) && block[13] == XorByte(source[1], salt[13])
    && block[14..] == source[2..]
  }

  /** The n-th counter block: the first half of the salt, then the other half and two zeros as a number, n more. */
  predicate IsCounter(block: Block, salt: Salt, n: nat) {
    block[..8] == salt[..8] && Value(block[8..]) == (Value(salt[8..] + [0, 0]) + n) % TWO_64
  }

  lemma SaltedZeros(salt: Salt)
    ensures FirstCounter(salt) == salt + [0, 0]
  {
    hide XorByte;
    var first := FirstCounter(salt);
    forall i | 0 <= i < 14
      ensures first[i] == salt[i]
    {
      XorZero(salt[i]);
    }
  }

  lemma KeyBlockUnique(salt: Salt, source: Bytes, block: Block)
    requires |source| == 4 && IsKeyBlock(block, salt, source)
    ensures Salted(Zeros(12) + source, salt) == block
  {
    hide XorByte;
    var b := Salted(Zeros(12) + source, salt);
    forall i | 0 <= i < 12
      ensures b[i] == block[i]
    {
      XorZero(salt[i]);
      assert block[i] == block[..12][i] == salt[..12][i];
    }
    assert b[14..] == source[2..];
    assert forall i :: 14 <= i < 16 ==> b[i] == b[14..][i - 14] && block[i] == block[14..][i - 14];
  }

  lemma CounterUnique(salt: Salt, n: nat, block: Block)
    requires IsCounter(block, salt, n)
    ensures CounterBlock(FirstCounter(salt), n) == block
  {
    hide FirstCounter, CounterBlock, Value, BigEndian;
    SaltedZeros(salt);
    var first := FirstCounter(salt);
    assert first[..8] == salt[..8] && first[8..] == salt[8..] + [0, 0];
    CounterParts(first, n);
    BigEndianOfValue(block[8..]);
    assert block == block[..8] + block[8..];
  }

  /**
   * Byte by byte, for any cipher and hash: the header is sent as it is, payload byte i is combined with
   * byte i % 16 of an encrypted counter block, and the tag is the front of the hash of all that.
   */
  lemma ProtectedBytes(p: Primitives, keys: Keys, packet: Bytes, i: nat, keyBlock: Block, counter: Block)
    requires HEADER_LEN + i < |packet|
    requires IsKeyBlock(keyBlock, keys.salt, packet[8..12]) && IsCounter(counter, keys.salt, i / 16)
    ensures var r := Protected(p, keys, packet);
      && r[..12] == packet[..12]
      && r[12 + i] == XorByte(packet[12 + i], p.aes(p.aes(keys.key, keyBlock), counter)[i % 16])
      && r[|packet|..] == p.hmac(keys.key, r[..|packet|])[..10]
  {
    hide XorByte, FirstCounter, CounterBlock, Salted;
    var t := Transformed(p, keys, packet);
    Bytes32RoundTrip(packet[8], packet[9], packet[10], packet[11]);
    assert packet[8..12] == Bytes32(Ssrc(packet));
    KeyBlockUnique(keys.salt, packet[8..12], keyBlock);
    CounterUnique(keys.salt, i / 16, counter);
    var key := SessionKey(p, keys, Ssrc(packet));
    assert t[12 + i] == XorByte(packet[12 + i], Pad(p, key, FirstCounter(keys.salt), i));
    assert Protected(p, keys, packet)[..|packet|] == t;
  }

  /** Such blocks exist, so every byte is determined. */
  lemma BlocksExist(salt: Salt, source: Bytes, n: nat) returns (keyBlock: Block, counter: Block)
    requires |source| == 4
    ensures IsKeyBlock(keyBlock, salt, source) && IsCounter(counter, salt, n)
  {
    hide XorByte, Value, BigEndian;
    keyBlock := salt[..12] + [XorByte(source[0], salt[12]), XorByte(source[1], salt[13])] + source[2..];
    var number := (Value(salt[8..] + [0, 0]) + n) % TWO_64;
    counter := salt[..8] + BigEndian(8, number);
    Pow256Of8();
    ValueOfBigEndian(8, number);
    assert counter[8..] == BigEndian(8, number);
  }

  lemma TransformedCancels(p: Primitives, keys: Keys, packet: Bytes)
    requires |packet| >= HEADER_LEN
    ensures Transformed(p, keys, Transformed(p, keys, packet)) == packet
  {
    hide SessionKey, FirstCounter, Crypt;
    var t := Transformed(p, keys, packet);
    assert t[..HEADER_LEN] == packet[..HEADER_LEN];
    assert Ssrc(t) == Ssrc(packet) by {
      assert forall i :: 0 <= i < HEADER_LEN ==> t[i] == t[..HEADER_LEN][i] == packet[i];
    }
    assert t[HEADER_LEN..] == Crypt(p, SessionKey(p, keys, Ssrc(packet)), FirstCounter(keys.salt), packet[HEADER_LEN..]);
    CryptCancels(p, SessionKey(p, keys, Ssrc(packet)), FirstCounter(keys.salt), packet[HEADER_LEN..]);
  }

  /** Decryption undoes encryption. */
  lemma UnprotectedOfProtected(p: Primitives, keys: Keys, packet: Bytes)
    requires |packet| >= HEADER_LEN
    ensures Unprotected(p, keys, Protected(p, keys, packet)) == Some(packet)
  {
    hide Transformed, Tag;
    var sealed := Protected(p, keys, packet);
    assert sealed[..|packet|] == Transformed(p, keys, packet);
    assert sealed[|packet|..] == Tag(p, keys, Transformed(p, keys, packet));
    TransformedCancels(p, keys, packet);
  }

  /** Decryption accepts nothing but what encryption under the same keys makes. */
  lemma ProtectedOfUnprotected(p: Primitives, keys: Keys, packet: Bytes)
    requires Unprotected(p, keys, packet).Some?
    ensures var plain := Unprotected(p, keys, packet).value;
            |plain| >= HEADER_LEN && Protected(p, keys, plain) == packet
  {
    hide Transformed, Tag;
    var body := packet[..|packet| - TAG_LEN];
    TransformedCancels(p, keys, body);
    assert packet == body + packet[|packet| - TAG_LEN..];
  }

  // ----- the context -----

  /** Compares without stopping early: every difference is collected in one word. */
  method ConstantTimeCompare(a: Bytes, b: Bytes, n: nat) returns (res: byte)
    requires n <= |a| && n <= |b|
    ensures res == 0 <==> a[..n] == b[..n]
  {
    hide Or, Xor;
    Pow2Of8();
    res := 0;
    var i := 0;
    while i < n
      invariant 0 <= i <= n
      invariant res == 0 <==> a[..i] == b[..i]
    {
      var difference := XorByte(a[i], b[i]);
      XorIsZero(8, a[i], b[i]);
      OrIsZero(8, res, difference);
      OrBound(8, res, difference);
      res := Or(8, res, difference);
      assert a[..i + 1] == a[..i] + [a[i]] && b[..i + 1] == b[..i] + [b[i]];
      i := i + 1;
    }
  }

  lemma Pow2Of8()
    ensures Pow2(8) == 0x100
  {
    assert Pow2(4) == 16;
  }

  class Context {
    const primitives: Primitives
    const keys: Keys
    var roc: uint32

    constructor (primitives: Primitives, keys: Keys)
      ensures this.primitives == primitives && this.keys == keys && roc == 0
    {
      this.primitives, this.keys, roc := primitives, keys, 0;
    }

    method Encrypt(packet: array<byte>, len: nat, maxLen: nat) returns (status: Status, newLen: nat)
      requires HEADER_LEN <= len && maxLen <= packet.Length < TWO_64
      modifies this, packet
      ensures status == if len + TAG_LEN > maxLen then Error else Ok
      ensures status == Error ==> newLen == len && packet[..] == old(packet[..]) && roc == old(roc)
      ensures status == Ok ==>
        && newLen == len + TAG_LEN
        && packet[..] == Protected(primitives, keys, old(packet[..len])) + old(packet[newLen..])
        && roc == (old(roc) + 1) % TWO_32
    {
      hide Crypt, SessionKey, FirstCounter;
      if len + TAG_LEN > maxLen {
        return Error, len;
      }
      ghost var plain, rest := packet[..len], packet[len + TAG_LEN..];
      var key := SessionKey(primitives, keys, Ssrc(packet[..len]));
      CryptPayload(primitives, key, keys.salt, packet, len);
      ghost var body := Transformed(primitives, keys, plain);
      assert packet[..len] == body;
      var tag := primitives.hmac(keys.key, packet[..len])[..TAG_LEN];
      CopyInto(packet, len, tag);
      newLen := len + TAG_LEN;
      assert packet[..] == body + tag + rest;
      roc := (roc + 1) % TWO_32;
      status := Ok;
    }

    method Decrypt(packet: array<byte>, len: nat) returns (status: Status, outputLen: nat)
      requires len <= packet.Length < TWO_64
      modifies this, packet
      ensures var plain := Unprotected(primitives, keys, old(packet[..len]));
        && (status == if plain.Some? then Ok else Error)
        && (plain.None? ==> packet[..] == old(packet[..]) && roc == old(roc))
        && (plain.Some? ==>
              && outputLen == len - TAG_LEN
              && packet[..] == plain.value + old(packet[outputLen..])
              && roc == (old(roc) + 1) % TWO_32)
    {
      hide Crypt, SessionKey, FirstCounter, Tag;
      outputLen := 0;
      if len < 12 + TAG_LEN {
        return Error, 0;
      }
      var bodyLen := len - TAG_LEN;
      ghost var was := packet[..len];
      assert was[..bodyLen] == packet[..bodyLen] && was[bodyLen..] == packet[bodyLen..len];
      var computed := primitives.hmac(keys.key, packet[..bodyLen]);
      var difference := ConstantTimeCompare(computed, packet[bodyLen..len], TAG_LEN);
      assert Tag(primitives, keys, was[..bodyLen]) == computed[..TAG_LEN] by {
        TagIs(primitives, keys, was[..bodyLen]);
      }
      if difference != 0 {
        assert Unprotected(primitives, keys, was) == None;
        return Error, 0;
      }
      outputLen := bodyLen;
      var key := SessionKey(primitives, keys, Ssrc(packet[..bodyLen]));
      CryptPayload(primitives, key, keys.salt, packet, bodyLen);
      assert Unprotected(primitives, keys, was) == Some(Transformed(primitives, keys, was[..bodyLen]));
      assert was[..bodyLen][HEADER_LEN..] == old(packet[HEADER_LEN..bodyLen]);
      assert was[..bodyLen][..HEADER_LEN] == old(packet[..HEADER_LEN]);
      roc := (roc + 1) % TWO_32;
      status := Ok;
    }
  }
}
