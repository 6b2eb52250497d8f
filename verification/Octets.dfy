/**
 * Bytes, machine words and the bit operations of the C sources, as arithmetic.
 *
 * A byte is an integer below 256 and a word is an integer below a power of two, so
 * shifts and masks become division, remainder and addition of disjoint bit fields.
 * Exclusive or is defined bit by bit, for any width.
 */
module Octets {
  import Quotients

  type byte = x: int | 0 <= x < 0x100
  type uint16 = x: int | 0 <= x < 0x1_0000
  type uint32 = x: int | 0 <= x < 0x1_0000_0000
  type int32 = x: int | -0x8000_0000 <= x < 0x8000_0000
  type uint64 = x: int | 0 <= x < 0x1_0000_0000_0000_0000
  type Bytes = seq<byte>

  const TWO_16 := 0x1_0000
  const TWO_32 := 0x1_0000_0000
  const TWO_64 := 0x1_0000_0000_0000_0000

  function Min(a: int, b: int): int {
    if a < b then a else b
  }

  function Pow2(n: nat): (r: nat)
    ensures r >= 1
  {
    if n == 0 then 1 else 2 * Pow2(n - 1)
  }

  /** Exclusive or of the low `width` bits of two numbers. */
  function Xor(width: nat, a: nat, b: nat): (r: nat)
    ensures r < Pow2(width)
  {
    if width == 0 then 0
    else 2 * Xor(width - 1, a / 2, b / 2) + (if a % 2 == b % 2 then 0 else 1)
  }

  /** The lowest bit and the others. */
  lemma XorBits(width: nat, a: nat, b: nat)
    requires width > 0
    ensures Xor(width, a, b) / 2 == Xor(width - 1, a / 2, b / 2)
    ensures Xor(width, a, b) % 2 == if a % 2 == b % 2 then 0 else 1
  {
  }

  lemma {:induction false} XorCancels(width: nat, a: nat, b: nat)
    requires a < Pow2(width)
    ensures Xor(width, Xor(width, a, b), b) == a
  {
    if width > 0 {
      hide Xor;
      XorCancels(width - 1, a / 2, b / 2);
      XorBits(width, a, b);
      XorBits(width, Xor(width, a, b), b);
    }
  }

  lemma {:induction false} XorCommutes(width: nat, a: nat, b: nat)
    ensures Xor(width, a, b) == Xor(width, b, a)
  {
    if width > 0 {
      XorCommutes(width - 1, a / 2, b / 2);
    }
  }

  lemma {:induction false} XorShared(width: nat, a: nat, b: nat, key: nat)
    ensures Xor(width, Xor(width, a, key), Xor(width, b, key)) == Xor(width, a, b)
  {
    if width > 0 {
      hide Xor;
      XorShared(width - 1, a / 2, b / 2, key / 2);
      XorBits(width, a, key);
      XorBits(width, b, key);
      XorBits(width, a, b);
      XorBits(width, Xor(width, a, key), Xor(width, b, key));
    }
  }

  /** Bit k of an exclusive or is set when the bits k differ. */
  lemma {:induction false} XorBit(width: nat, a: nat, b: nat, k: nat)
    requires k < width
    ensures Xor(width, a, b) / Pow2(k) % 2 == if a / Pow2(k) % 2 == b / Pow2(k) % 2 then 0 else 1
  {
    hide Xor;
    XorBits(width, a, b);
    if k > 0 {
      XorBit(width - 1, a / 2, b / 2, k - 1);
      HalvedFirst(a, Pow2(k - 1));
      HalvedFirst(b, Pow2(k - 1));
      HalvedFirst(Xor(width, a, b), Pow2(k - 1));
    }
  }

  lemma HalvedFirst(a: nat, p: nat)
    requires p > 0
    ensures a / (2 * p) == a / 2 / p
  {
    var q, r := a / 2 / p, a / 2 % p;
    Quotients.Division(a / 2, p);
    TwiceProduct(q, p);
    Quotients.QuotientIs(a, 2 * p, q, 2 * r + a % 2);
  }

  lemma TwiceProduct(a: int, p: int)
    ensures a * (2 * p) == 2 * (a * p)
  {
  }

  /** High and low parts are combined apart. */
  lemma {:induction false} XorParts(n: nat, k: nat, a: nat, b: nat, c: nat, d: nat)
    requires b < Pow2(k) && d < Pow2(k)
    ensures Xor(n + k, a * Pow2(k) + b, c * Pow2(k) + d) == Xor(n, a, c) * Pow2(k) + Xor(k, b, d)
    decreases k
  {
    hide Xor;
    if k > 0 {
      var p := Pow2(k - 1);
      XorParts(n, k - 1, a, b / 2, c, d / 2);
      TwiceProduct(a, p);
      TwiceProduct(c, p);
      TwiceProduct(Xor(n, a, c), p);
      XorLow(n + k, a * p, b, c * p, d);
      XorBits(k, b, d);
    } else {
      XorNone(b, d);
    }
  }

  lemma XorLow(width: nat, high: nat, b: nat, other: nat, d: nat)
    requires width > 0
    ensures Xor(width, 2 * high + b, 2 * other + d) ==
      2 * Xor(width - 1, high + b / 2, other + d / 2) + (if b % 2 == d % 2 then 0 else 1)
  {
    assert (2 * high + b) / 2 == high + b / 2 && (2 * high + b) % 2 == b % 2;
    assert (2 * other + d) / 2 == other + d / 2 && (2 * other + d) % 2 == d % 2;
  }

  lemma XorNone(a: nat, b: nat)
    ensures Xor(0, a, b) == 0
  {
  }

  lemma XorZero(b: byte)
    ensures XorByte(0, b) == b
  {
    Pow2Of8();
    XorOfZero(8, b);
  }

  lemma {:induction false} XorOfZero(width: nat, b: nat)
    requires b < Pow2(width)
    ensures Xor(width, 0, b) == b
  {
    if width > 0 {
      XorOfZero(width - 1, b / 2);
    }
  }

  lemma XorLastByte(n: nat, a: nat, a0: byte, b: nat, b0: byte)
    ensures Xor(n + 8, a * 0x100 + a0, b * 0x100 + b0) == Xor(n, a, b) * 0x100 + XorByte(a0, b0)
  {
    hide Xor;
    Pow2Of8();
    XorParts(n, 8, a, a0, b, b0);
  }

  /** Words are combined byte by byte. */
  lemma XorWord16(a0: byte, a1: byte, b0: byte, b1: byte)
    ensures Xor(16, Word16(a0, a1), Word16(b0, b1)) == Word16(XorByte(a0, b0), XorByte(a1, b1))
  {
    hide Xor;
    XorLastByte(8, a0, a1, b0, b1);
  }

  lemma WordByBytes(a0: byte, a1: byte, a2: byte, a3: byte)
    ensures Word32(a0, a1, a2, a3) == (Word16(a0, a1) * 0x100 + a2) * 0x100 + a3
  {
  }

  lemma XorLastBytes(n: nat, a: nat, a0: byte, a1: byte, b: nat, b0: byte, b1: byte)
    ensures Xor(n + 16, (a * 0x100 + a0) * 0x100 + a1, (b * 0x100 + b0) * 0x100 + b1) ==
      (Xor(n, a, b) * 0x100 + XorByte(a0, b0)) * 0x100 + XorByte(a1, b1)
  {
    hide Xor, XorByte;
    XorLastByte(n, a, a0, b, b0);
    XorLastByte(n + 8, a * 0x100 + a0, a1, b * 0x100 + b0, b1);
  }

  lemma XorWord32(a0: byte, a1: byte, a2: byte, a3: byte, b0: byte, b1: byte, b2: byte, b3: byte)
    ensures Xor(32, Word32(a0, a1, a2, a3), Word32(b0, b1, b2, b3)) ==
      Word32(XorByte(a0, b0), XorByte(a1, b1), XorByte(a2, b2), XorByte(a3, b3))
  {
    hide Xor, XorByte, Word16, Word32;
    WordByBytes(a0, a1, a2, a3);
    WordByBytes(b0, b1, b2, b3);
    WordByBytes(XorByte(a0, b0), XorByte(a1, b1), XorByte(a2, b2), XorByte(a3, b3));
    XorWord16(a0, a1, b0, b1);
    XorLastBytes(16, Word16(a0, a1), a2, a3, Word16(b0, b1), b2, b3);
  }

  lemma Pow2Of8()
    ensures Pow2(8) == 0x100
  {
    assert Pow2(4) == 16;
  }

  function XorByte(a: byte, b: byte): byte {
    assert Pow2(8) == 256 by { assert Pow2(4) == 16; }
    Xor(8, a, b)
  }

  lemma XorByteCancels(a: byte, b: byte)
    ensures XorByte(XorByte(a, b), b) == a
  {
    assert Pow2(8) == 256 by { assert Pow2(4) == 16; }
    XorCancels(8, a, b);
  }

  lemma XorByteShared(a: byte, b: byte, key: byte)
    ensures XorByte(XorByte(a, key), XorByte(b, key)) == XorByte(a, b)
  {
    XorShared(8, a, b, key);
  }

  /** Inclusive or of the low `width` bits. */
  function Or(width: nat, a: nat, b: nat): nat {
    if width == 0 then 0
    else 2 * Or(width - 1, a / 2, b / 2) + (if a % 2 == 0 && b % 2 == 0 then 0 else 1)
  }

  lemma OrBits(width: nat, a: nat, b: nat)
    requires width > 0
    ensures Or(width, a, b) / 2 == Or(width - 1, a / 2, b / 2)
    ensures Or(width, a, b) % 2 == if a % 2 == 0 && b % 2 == 0 then 0 else 1
  {
  }

  /** High and low parts are combined apart. */
  lemma {:induction false} OrParts(n: nat, k: nat, a: nat, b: nat, c: nat, d: nat)
    requires b < Pow2(k) && d < Pow2(k)
    ensures Or(n + k, a * Pow2(k) + b, c * Pow2(k) + d) == Or(n, a, c) * Pow2(k) + Or(k, b, d)
    decreases k
  {
    hide Or;
    if k > 0 {
      var p := Pow2(k - 1);
      OrParts(n, k - 1, a, b / 2, c, d / 2);
      TwiceProduct(a, p);
      TwiceProduct(c, p);
      TwiceProduct(Or(n, a, c), p);
      OrLow(n + k, a * p, b, c * p, d);
      OrBits(k, b, d);
    } else {
      OrNone(b, d);
    }
  }

  lemma OrLow(width: nat, high: nat, b: nat, other: nat, d: nat)
    requires width > 0
    ensures Or(width, 2 * high + b, 2 * other + d) ==
      2 * Or(width - 1, high + b / 2, other + d / 2) + (if b % 2 == 0 && d % 2 == 0 then 0 else 1)
  {
    assert (2 * high + b) / 2 == high + b / 2 && (2 * high + b) % 2 == b % 2;
    assert (2 * other + d) / 2 == other + d / 2 && (2 * other + d) % 2 == d % 2;
  }

  lemma OrNone(a: nat, b: nat)
    ensures Or(0, a, b) == 0
  {
  }

  lemma {:induction false} OrOfZero(width: nat, b: nat)
    requires b < Pow2(width)
    ensures Or(width, 0, b) == b && Or(width, b, 0) == b
  {
    if width > 0 {
      OrOfZero(width - 1, b / 2);
    }
  }

  lemma {:induction false} OrOfOnes(width: nat, b: nat)
    ensures Or(width, b, Pow2(width) - 1) == Pow2(width) - 1
  {
    if width > 0 {
      OrOfOnes(width - 1, b / 2);
      assert (Pow2(width) - 1) / 2 == Pow2(width - 1) - 1;
    }
  }

  lemma {:induction false} OrIsZero(width: nat, a: nat, b: nat)
    requires a < Pow2(width) && b < Pow2(width)
    ensures Or(width, a, b) == 0 <==> a == 0 && b == 0
  {
    if width > 0 {
      OrIsZero(width - 1, a / 2, b / 2);
    }
  }

  lemma {:induction false} OrBound(width: nat, a: nat, b: nat)
    ensures Or(width, a, b) < Pow2(width)
  {
    if width > 0 {
      OrBound(width - 1, a / 2, b / 2);
    }
  }

  lemma {:induction false} XorIsZero(width: nat, a: nat, b: nat)
    requires a < Pow2(width) && b < Pow2(width)
    ensures Xor(width, a, b) == 0 <==> a == b
  {
    if width > 0 {
      XorIsZero(width - 1, a / 2, b / 2);
    }
  }

  /** Big-endian words: the byte order of every wire format below. */
  function Word16(b0: byte, b1: byte): uint16 {
    b0 * 0x100 + b1
  }

  function Word32(b0: byte, b1: byte, b2: byte, b3: byte): uint32 {
    b0 * 0x100_0000 + b1 * 0x1_0000 + b2 * 0x100 + b3
  }

  function Bytes16(w: uint16): (r: Bytes)
    ensures |r| == 2
  {
    [w / 0x100, w % 0x100]
  }

  function Bytes32(w: uint32): (r: Bytes)
    ensures |r| == 4
  {
    [w / 0x100_0000, w / 0x1_0000 % 0x100, w / 0x100 % 0x100, w % 0x100]
  }

  lemma Word16RoundTrip(w: uint16)
    ensures var b := Bytes16(w); Word16(b[0], b[1]) == w
  {
  }

  lemma Bytes16RoundTrip(b0: byte, b1: byte)
    ensures Bytes16(Word16(b0, b1)) == [b0, b1]
  {
  }

  lemma Halves(w: uint32)
    ensures Bytes32(w) == Bytes16(w / 0x1_0000) + Bytes16(w % 0x1_0000)
  {
    var high, low := w / 0x1_0000, w % 0x1_0000;
    assert w / 0x100_0000 == high / 0x100;
    assert w / 0x100 % 0x100 == low / 0x100;
    assert w % 0x100 == low % 0x100;
  }

  lemma Word32RoundTrip(w: uint32)
    ensures var b := Bytes32(w); Word32(b[0], b[1], b[2], b[3]) == w
  {
    hide Bytes16, Bytes32;
    var high, low := Bytes16(w / 0x1_0000), Bytes16(w % 0x1_0000);
    Halves(w);
    Word16RoundTrip(w / 0x1_0000);
    Word16RoundTrip(w % 0x1_0000);
    assert Word32(high[0], high[1], low[0], low[1]) == Word16(high[0], high[1]) * 0x1_0000 + Word16(low[0], low[1]);
  }

  lemma Bytes32RoundTrip(b0: byte, b1: byte, b2: byte, b3: byte)
    ensures Bytes32(Word32(b0, b1, b2, b3)) == [b0, b1, b2, b3]
  {
    var low := b2 * 0x100 + b3;
    var high := b0 * 0x100 + b1;
    var w := high * 0x1_0000 + low;
    assert w / 0x1_0000 == high;
    assert w / 0x100 == high * 0x100 + b2;
    assert w / 0x100_0000 == w / 0x1_0000 / 0x100 == b0;
  }

  /** The number a byte string spells, most significant byte first. */
  function Value(bytes: Bytes): (r: nat) {
    if bytes == [] then 0 else 0x100 * Value(bytes[..|bytes| - 1]) + bytes[|bytes| - 1]
  }

  /** The low `width` bytes of a number, most significant first. */
  function BigEndian(width: nat, v: nat): (r: Bytes)
    ensures |r| == width
  {
    if width == 0 then [] else BigEndian(width - 1, v / 0x100) + [v % 0x100]
  }

  function Pow256(n: nat): (r: nat)
    ensures r >= 1
  {
    if n == 0 then 1 else 0x100 * Pow256(n - 1)
  }

  lemma Pow256Of8()
    ensures Pow256(8) == TWO_64
  {
    assert Pow256(4) == 0x1_0000_0000;
  }

  lemma {:induction false} ValueBound(bytes: Bytes)
    ensures Value(bytes) < Pow256(|bytes|)
  {
    if bytes != [] {
      ValueBound(bytes[..|bytes| - 1]);
    }
  }

  lemma {:induction false} ValueOfBigEndian(width: nat, v: nat)
    requires v < Pow256(width)
    ensures Value(BigEndian(width, v)) == v
  {
    if width > 0 {
      ValueOfBigEndian(width - 1, v / 0x100);
      assert BigEndian(width, v)[..width - 1] == BigEndian(width - 1, v / 0x100);
    }
  }

  lemma {:induction false} BigEndianOfValue(bytes: Bytes)
    ensures BigEndian(|bytes|, Value(bytes)) == bytes
  {
    if bytes != [] {
      BigEndianOfValue(bytes[..|bytes| - 1]);
      assert bytes == bytes[..|bytes| - 1] + [bytes[|bytes| - 1]];
    }
  }

  /** The first byte counts most. */
  lemma {:induction false} ValueCons(first: byte, rest: Bytes)
    ensures Value([first] + rest) == first * Pow256(|rest|) + Value(rest)
  {
    var all := [first] + rest;
    if rest == [] {
      assert all[..0] == [];
    } else {
      var k := |rest| - 1;
      assert all[..|all| - 1] == [first] + rest[..k];
      ValueCons(first, rest[..k]);
      assert first * Pow256(|rest|) == 0x100 * (first * Pow256(k));
    }
  }

  /** The words above are the big-endian ones. */
  lemma Bytes16BigEndian(w: uint16)
    ensures Bytes16(w) == BigEndian(2, w)
  {
    assert BigEndian(1, w / 0x100) == BigEndian(0, w / 0x1_0000) + [w / 0x100 % 0x100];
  }

  lemma Bytes32BigEndian(w: uint32)
    ensures Bytes32(w) == BigEndian(4, w)
  {
    hide BigEndian;
    BigEndianSnoc(4, w);
    BigEndianSnoc(3, w / 0x100);
    Bytes16BigEndian(w / 0x1_0000);
    assert w / 0x100 / 0x100 == w / 0x1_0000;
  }

  lemma BigEndianSnoc(width: nat, v: nat)
    requires width > 0
    ensures BigEndian(width, v) == BigEndian(width - 1, v / 0x100) + [v % 0x100]
  {
  }

  /** Byte-wise exclusive or of two strings of one length. */
  function XorBytes(a: Bytes, b: Bytes): (r: Bytes)
    requires |a| == |b|
    ensures |r| == |a|
    ensures forall i :: 0 <= i < |r| ==> r[i] == XorByte(a[i], b[i])
  {
    seq(|a|, i requires 0 <= i < |a| => XorByte(a[i], b[i]))
  }

  function Concat<T>(parts: seq<seq<T>>): seq<T> {
    if parts == [] then [] else parts[0] + Concat(parts[1..])
  }

  lemma ConcatCons<T>(first: seq<T>, more: seq<seq<T>>)
    ensures Concat([first] + more) == first + Concat(more)
  {
    assert ([first] + more)[1..] == more;
  }

  lemma {:induction false} ConcatAppends<T>(a: seq<seq<T>>, b: seq<seq<T>>)
    ensures Concat(a + b) == Concat(a) + Concat(b)
  {
    if a == [] {
      assert a + b == b;
    } else {
      assert (a + b)[1..] == a[1..] + b;
      ConcatAppends(a[1..], b);
    }
  }

  lemma Regroup<T>(a: seq<T>, b: seq<T>, c: seq<T>)
    ensures a + (b + c) == a + b + c
  {
  }

  function Zeros(n: nat): (r: Bytes)
    ensures |r| == n && forall i :: 0 <= i < n ==> r[i] == 0
  {
    seq(n, _ => 0)
  }

  function Overwritten(b: Bytes, at: nat, data: Bytes): (r: Bytes)
    requires at + |data| <= |b|
    ensures |r| == |b|
  {
    b[..at] + data + b[at + |data|..]
  }

  lemma OverwrittenMiddle(pre: Bytes, middle: Bytes, post: Bytes, data: Bytes)
    requires |data| == |middle|
    ensures Overwritten(pre + middle + post, |pre|, data) == pre + data + post
  {
    assert (pre + middle + post)[..|pre|] == pre;
    assert (pre + middle + post)[|pre| + |data|..] == post;
  }

  lemma OverwrittenAfter(pre: Bytes, post: Bytes, data: Bytes)
    requires |data| <= |post|
    ensures Overwritten(pre + post, |pre|, data) == pre + data + post[|data|..]
  {
    assert (pre + post)[..|pre|] == pre;
    assert (pre + post)[|pre| + |data|..] == post[|data|..];
  }

  /** memcpy into a buffer. */
  method CopyInto(buffer: array<byte>, at: nat, data: Bytes)
    requires at + |data| <= buffer.Length
    modifies buffer
    ensures buffer[..] == Overwritten(old(buffer[..]), at, data)
  {
    var i := 0;
    while i < |data|
      invariant 0 <= i <= |data|
      invariant forall k :: 0 <= k < buffer.Length ==>
        buffer[k] == if at <= k < at + i then data[k - at] else old(buffer[k])
    {
      buffer[at + i] := data[i];
      i := i + 1;
    }
  }
}
