/**
 * The CRC of the STUN fingerprint: src/ice/stun.c, lines 76 to 89.
 *
 * The code works on a machine word, byte by byte and without branches. The definition it is
 * proved against is division of polynomials over GF(2).
 */
module Crc32 {
  type Octet = bv8

  const GENERATOR: bv32 := 0xEDB8_8320
  const ONES: bv32 := 0xFFFF_FFFF

  // ----- words: every fact about machine words is proved here -----

  function Xor(a: bv32, b: bv32): bv32 { a ^ b }

  function Half(x: bv32): bv32 { x >> 1 }

  predicate Odd(x: bv32) { x & 1 == 1 }

  function Word(b: Octet): bv32 { b as bv32 }

  function Upper(x: bv32): bv32 { x >> 8 }

  /** One turn of the inner loop. */
  function Shift(crc: bv32): bv32 {
    (crc >> 1) ^ (GENERATOR & (0 - (crc & 1)))
  }

  lemma LowBit(x: bv32)
    ensures x & 1 == 0 || x & 1 == 1
  {
  }

  /** Negating the low bit gives no bits or all of them. */
  lemma MaskCases(b: bv32)
    requires b == 0 || b == 1
    ensures b == 0 ==> 0 - b == 0
    ensures b == 1 ==> 0 - b == ONES
  {
  }

  lemma AndMask(g: bv32)
    ensures g & 0 == 0 && g & ONES == g
  {
  }

  lemma XorZero(x: bv32)
    ensures x ^ 0 == x
  {
  }

  lemma ShiftCases(x: bv32)
    ensures Shift(x) == if Odd(x) then Xor(Half(x), GENERATOR) else Half(x)
  {
    LowBit(x);
    MaskCases(x & 1);
    AndMask(GENERATOR);
    XorZero(x >> 1);
  }

  lemma XorHalves(x: bv32, y: bv32)
    ensures Half(Xor(x, y)) == Xor(Half(x), Half(y))
  {
  }

  lemma XorLowest(x: bv32, y: bv32)
    ensures Odd(Xor(x, y)) == (Odd(x) != Odd(y))
  {
  }

  lemma XorCommutes(a: bv32, b: bv32)
    ensures Xor(a, b) == Xor(b, a)
  {
  }

  lemma XorAssociates(a: bv32, b: bv32, c: bv32)
    ensures Xor(Xor(a, b), c) == Xor(a, Xor(b, c))
  {
  }

  lemma XorCancels(a: bv32, b: bv32)
    ensures Xor(Xor(a, b), b) == a
  {
  }

  lemma XorRegroup(a: bv32, b: bv32, c: bv32, d: bv32)
    ensures Xor(Xor(a, b), Xor(c, d)) == Xor(Xor(a, c), Xor(b, d))
  {
    hide *;
    XorAssociates(a, b, Xor(c, d));
    XorAssociates(b, c, d);
    XorCommutes(b, c);
    XorAssociates(c, b, d);
    XorAssociates(a, c, Xor(b, d));
  }

  lemma XorMove(a: bv32, b: bv32, g: bv32)
    ensures Xor(Xor(a, g), Xor(b, g)) == Xor(a, b)
    ensures Xor(Xor(a, g), b) == Xor(Xor(a, b), g)
    ensures Xor(a, Xor(b, g)) == Xor(Xor(a, b), g)
  {
    hide *;
    XorAssociates(a, b, g);
    XorAssociates(a, g, b);
    XorCommutes(b, g);
    XorAssociates(a, g, Xor(b, g));
    XorCommutes(g, Xor(b, g));
    XorCancels(b, g);
  }

  lemma WordXor(a: Octet, b: Octet)
    ensures Word(a ^ b) == Xor(Word(a), Word(b))
  {
  }

  lemma NothingLeft(b: Octet, x: bv32)
    ensures Upper(Word(b)) == 0
    ensures Upper(Upper(Upper(Upper(x)))) == 0
  {
  }

  lemma ZeroWord()
    ensures Half(0) == 0 && !Odd(0)
  {
  }

  lemma EightHalves(x: bv32)
    ensures Half(Half(Half(Half(Half(Half(Half(Half(x)))))))) == Upper(x)
  {
  }

  lemma HalfMasks(x: bv32)
    ensures Odd(x) == (x & 1 == 1) && (Half(x) & 1 == 1) == (x & 2 == 2)
    ensures (Half(x) & 2 == 2) == (x & 4 == 4) && (Half(x) & 4 == 4) == (x & 8 == 8)
    ensures (Half(x) & 8 == 8) == (x & 16 == 16) && (Half(x) & 16 == 16) == (x & 32 == 32)
    ensures (Half(x) & 32 == 32) == (x & 64 == 64) && (Half(x) & 64 == 64) == (x & 128 == 128)
  {
  }

  lemma OnesOctets()
    ensures ONES & 0xFF == 0xFF && Upper(ONES) & 0xFF == 0xFF
    ensures Upper(Upper(ONES)) & 0xFF == 0xFF && Upper(Upper(Upper(ONES))) & 0xFF == 0xFF
  {
  }

  lemma GeneratorOctets()
    ensures Upper(GENERATOR) == 0x00ED_B883 && Upper(0x00ED_B883) == 0x0000_EDB8 && Upper(0x0000_EDB8) == 0x0000_00ED
  {
  }

  // ----- the code -----

  function Shifts(crc: bv32, n: nat): bv32 {
    if n == 0 then crc else Shift(Shifts(crc, n - 1))
  }

  /** The register after the data, one byte at a time. */
  function Register(crc: bv32, data: seq<Octet>): bv32 {
    if data == [] then crc
    else Shifts(Xor(Register(crc, data[..|data| - 1]), Word(data[|data| - 1])), 8)
  }

  function Checksum(data: seq<Octet>): bv32 {
    Xor(Register(ONES, data), ONES)
  }

  lemma RegisterSnoc(crc: bv32, data: seq<Octet>, i: nat)
    requires i < |data|
    ensures Register(crc, data[..i + 1]) == Shifts(Xor(Register(crc, data[..i]), Word(data[i])), 8)
  {
    assert data[..i + 1][..i] == data[..i];
  }

  /** The inner loop. */
  method ShiftEight(start: bv32) returns (crc: bv32)
    ensures crc == Shifts(start, 8)
  {
    crc := start;
    for bit := 0 to 8
      invariant crc == Shifts(start, bit)
    {
      var mask := 0 - (crc & 1);
      crc := (crc >> 1) ^ (GENERATOR & mask);
    }
  }

  method Compute(data: seq<Octet>) returns (r: bv32)
    ensures r == Checksum(data)
  {
    hide *;
    var crc := ONES;
    assert Register(ONES, data[..0]) == ONES by { RegisterEmpty(ONES); assert data[..0] == []; }
    for i := 0 to |data|
      invariant crc == Register(ONES, data[..i])
    {
      RegisterSnoc(ONES, data, i);
      crc := ShiftEight(Xor(crc, Word(data[i])));
    }
    assert data[..|data|] == data;
    CheckedOf(data);
    r := Xor(crc, ONES);
  }

  lemma CheckedOf(data: seq<Octet>)
    ensures Checksum(data) == Xor(Register(ONES, data), ONES)
  {
    hide Register, Xor;
  }

  lemma RegisterEmpty(crc: bv32)
    ensures Register(crc, []) == crc
  {
  }

  // ----- linearity -----

  function XorOctets(a: seq<Octet>, b: seq<Octet>): (r: seq<Octet>)
    requires |a| == |b|
    ensures |r| == |a|
  {
    seq(|a|, i requires 0 <= i < |a| => a[i] ^ b[i])
  }

  function Zeros(n: nat): (r: seq<Octet>)
    ensures |r| == n
  {
    seq(n, _ => 0)
  }

  lemma ShiftLinear(x: bv32, y: bv32)
    ensures Shift(Xor(x, y)) == Xor(Shift(x), Shift(y))
  {
    hide *;
    ShiftCases(x);
    ShiftCases(y);
    ShiftCases(Xor(x, y));
    XorHalves(x, y);
    XorLowest(x, y);
    XorMove(Half(x), Half(y), GENERATOR);
  }

  lemma {:induction false} ShiftsLinear(x: bv32, y: bv32, n: nat)
    ensures Shifts(Xor(x, y), n) == Xor(Shifts(x, n), Shifts(y, n))
  {
    hide Shift, Xor;
    if n > 0 {
      ShiftsLinear(x, y, n - 1);
      ShiftLinear(Shifts(x, n - 1), Shifts(y, n - 1));
    }
  }

  lemma RegisterStep(x: bv32, data: seq<Octet>)
    requires data != []
    ensures var k := |data| - 1; Register(x, data) == Shifts(Xor(Register(x, data[..k]), Word(data[k])), 8)
  {
    hide Shifts, Xor, Word;
  }

  lemma {:induction false} RegisterLinear(x: bv32, y: bv32, a: seq<Octet>, b: seq<Octet>)
    requires |a| == |b|
    ensures Register(Xor(x, y), XorOctets(a, b)) == Xor(Register(x, a), Register(y, b))
    decreases |a|
  {
    hide Register, Shifts, Xor, Word;
    if a == [] {
      RegisterEmpty(x);
      RegisterEmpty(y);
      RegisterEmpty(Xor(x, y));
      assert XorOctets(a, b) == [];
    } else {
      var k := |a| - 1;
      RegisterStep(x, a);
      RegisterStep(y, b);
      RegisterStep(Xor(x, y), XorOctets(a, b));
      RegisterLinear(x, y, a[..k], b[..k]);
      assert XorOctets(a, b)[..k] == XorOctets(a[..k], b[..k]);
      WordXor(a[k], b[k]);
      XorRegroup(Register(x, a[..k]), Register(y, b[..k]), Word(a[k]), Word(b[k]));
      ShiftsLinear(Xor(Register(x, a[..k]), Word(a[k])), Xor(Register(y, b[..k]), Word(b[k])), 8);
    }
  }

  lemma XorZeros(d: seq<Octet>)
    ensures XorOctets(d, Zeros(|d|)) == d
  {
  }

  /** The checksum is affine: differences of checksums depend only on differences of data. */
  lemma ChecksumAffine(a: seq<Octet>, b: seq<Octet>)
    requires |a| == |b|
    ensures Xor(Checksum(a), Checksum(b)) == Xor(Checksum(XorOctets(a, b)), Checksum(Zeros(|a|)))
  {
    hide Register, Xor, XorOctets, Zeros;
    var d, z := XorOctets(a, b), Zeros(|a|);
    RegisterLinear(ONES, ONES, a, b);
    RegisterLinear(ONES, ONES, d, z);
    XorZeros(d);
    XorMove(Register(ONES, a), Register(ONES, b), ONES);
    XorMove(Register(ONES, d), Register(ONES, z), ONES);
  }

  // ----- polynomials over GF(2) -----

  /** Coefficients, highest power first. */
  type Poly = seq<bool>

  function NoBits(n: nat): (r: Poly)
    ensures |r| == n && forall i :: 0 <= i < n ==> !r[i]
  {
    seq(n, _ => false)
  }

  /** Adds q to the highest coefficients of p; addition over GF(2) is also subtraction. */
  function AddToFront(p: Poly, q: Poly): (r: Poly)
    requires |q| <= |p|
    ensures |r| == |p|
    ensures forall i :: 0 <= i < |p| ==> r[i] == if i < |q| then p[i] != q[i] else p[i]
  {
    seq(|p|, i requires 0 <= i < |p| => if i < |q| then p[i] != q[i] else p[i])
  }

  /** The generator without its leading x^32: the other powers with coefficient one. */
  function GeneratorTail(): (r: Poly)
    ensures |r| == 32
    ensures forall i :: 0 <= i < 32 ==>
      r[i] == (31 - i in {26, 23, 22, 16, 12, 11, 10, 8, 7, 5, 4, 2, 1, 0})
  {
    seq(32, i requires 0 <= i < 32 => 31 - i in {26, 23, 22, 16, 12, 11, 10, 8, 7, 5, 4, 2, 1, 0})
  }

  /** One step of long division by x^32 + GeneratorTail. */
  function Reduce(p: Poly): (r: Poly)
    requires |p| > 32
    ensures |r| == |p| - 1
  {
    if p[0] then AddToFront(p[1..], GeneratorTail()) else p[1..]
  }

  function Remainder(p: Poly): (r: Poly)
    requires |p| >= 32
    ensures |r| == 32
    decreases |p|
  {
    if |p| == 32 then p else Remainder(Reduce(p))
  }

  /** A word as coefficients: its lowest bit stands for the highest power. */
  function Bits(x: bv32, n: nat): (r: Poly)
    ensures |r| == n
    ensures forall i :: 0 <= i < n ==> r[i] == Bit(x, i)
  {
    seq(n, i requires 0 <= i < n => Bit(x, i))
  }

  function Bit(x: bv32, i: nat): bool {
    if i == 0 then Odd(x) else Bit(Half(x), i - 1)
  }

  function DataBits(data: seq<Octet>): Poly {
    if data == [] then [] else DataBits(data[..|data| - 1]) + Bits(Word(data[|data| - 1]), 8)
  }

  /** What is left to divide when the register holds r and the bits m have not been read. */
  function Dividend(r: Poly, m: Poly): (p: Poly)
    requires |r| == 32
    ensures |p| == |m| + 32
    ensures forall i :: 0 <= i < |p| ==> p[i] == ((i < 32 && r[i]) != (i < |m| && m[i]))
  {
    AddToFront(m + NoBits(32), r)
  }

  lemma {:induction false} BitXor(x: bv32, y: bv32, i: nat)
    ensures Bit(Xor(x, y), i) == (Bit(x, i) != Bit(y, i))
    decreases i
  {
    hide Xor, Half, Odd;
    XorLowest(x, y);
    XorHalves(x, y);
    if i > 0 {
      BitXor(Half(x), Half(y), i - 1);
    }
  }

  lemma {:induction false} ZeroBit(i: nat)
    ensures !Bit(0, i)
  {
    hide Half, Odd;
    ZeroWord();
    if i > 0 {
      ZeroBit(i - 1);
    }
  }

  lemma OneHalf(x: bv32, i: nat)
    requires i >= 1
    ensures Bit(x, i) == Bit(Half(x), i - 1)
  {
  }

  lemma EightBitsUp(x: bv32, i: nat)
    requires i >= 8
    ensures Bit(x, i) == Bit(Upper(x), i - 8)
  {
    hide *;
    var a := Half(x);
    var b := Half(a);
    var c := Half(b);
    var d := Half(c);
    var e := Half(d);
    var f := Half(e);
    var g := Half(f);
    OneHalf(x, i);
    OneHalf(a, i - 1);
    OneHalf(b, i - 2);
    OneHalf(c, i - 3);
    OneHalf(d, i - 4);
    OneHalf(e, i - 5);
    OneHalf(f, i - 6);
    OneHalf(g, i - 7);
    EightHalves(x);
  }

  lemma OctetHasNoHighBit(b: Octet, i: nat)
    requires i >= 8
    ensures !Bit(Word(b), i)
  {
    hide *;
    EightBitsUp(Word(b), i);
    NothingLeft(b, 0);
    ZeroBit(i - 8);
  }

  lemma WordHasNoHighBit(x: bv32, i: nat)
    requires i >= 32
    ensures !Bit(x, i)
  {
    hide *;
    EightBitsUp(x, i);
    EightBitsUp(Upper(x), i - 8);
    EightBitsUp(Upper(Upper(x)), i - 16);
    EightBitsUp(Upper(Upper(Upper(x))), i - 24);
    NothingLeft(0, x);
    ZeroBit(i - 32);
  }

  /** The lowest octet, bit by bit. */
  lemma LowOctetBits(x: bv32)
    ensures Bit(x, 0) == (x & 1 == 1) && Bit(x, 1) == (x & 2 == 2)
    ensures Bit(x, 2) == (x & 4 == 4) && Bit(x, 3) == (x & 8 == 8)
    ensures Bit(x, 4) == (x & 16 == 16) && Bit(x, 5) == (x & 32 == 32)
    ensures Bit(x, 6) == (x & 64 == 64) && Bit(x, 7) == (x & 128 == 128)
  {
    LowBits(x, 8);
  }

  lemma {:induction false} LowBits(x: bv32, n: nat)
    ensures n > 0 ==> Bit(x, 0) == (x & 1 == 1)
    ensures n > 1 ==> Bit(x, 1) == (x & 2 == 2)
    ensures n > 2 ==> Bit(x, 2) == (x & 4 == 4)
    ensures n > 3 ==> Bit(x, 3) == (x & 8 == 8)
    ensures n > 4 ==> Bit(x, 4) == (x & 16 == 16)
    ensures n > 5 ==> Bit(x, 5) == (x & 32 == 32)
    ensures n > 6 ==> Bit(x, 6) == (x & 64 == 64)
    ensures n > 7 ==> Bit(x, 7) == (x & 128 == 128)
    decreases n
  {
    hide Half, Odd;
    HalfMasks(x);
    if n > 0 {
      LowBits(Half(x), n - 1);
      forall i | 1 <= i < 8
        ensures Bit(x, i) == Bit(Half(x), i - 1)
      {
        OneHalf(x, i);
      }
    }
  }

  lemma OctetsUp(x: bv32, i: nat)
    requires i < 8
    ensures Bit(x, i + 8) == Bit(Upper(x), i)
    ensures Bit(x, i + 16) == Bit(Upper(Upper(x)), i)
    ensures Bit(x, i + 24) == Bit(Upper(Upper(Upper(x))), i)
  {
    hide *;
    EightBitsUp(x, i + 8);
    EightBitsUp(x, i + 16);
    EightBitsUp(x, i + 24);
    EightBitsUp(Upper(x), i + 8);
    EightBitsUp(Upper(x), i + 16);
    EightBitsUp(Upper(Upper(x)), i + 8);
  }

  lemma OnesBit(i: nat)
    requires i < 32
    ensures Bit(ONES, i)
  {
    hide *;
    OnesOctets();
    OctetsUp(ONES, i % 8);
    LowOctetOnes(ONES, i % 8);
    LowOctetOnes(Upper(ONES), i % 8);
    LowOctetOnes(Upper(Upper(ONES)), i % 8);
    LowOctetOnes(Upper(Upper(Upper(ONES))), i % 8);
  }

  lemma LowOctetOnes(x: bv32, i: nat)
    requires x & 0xFF == 0xFF && i < 8
    ensures Bit(x, i)
  {
    hide *;
    LowOctetBits(x);
    Contained(x);
  }

  lemma Contained(x: bv32)
    requires x & 0xFF == 0xFF
    ensures x & 1 == 1 && x & 2 == 2 && x & 4 == 4 && x & 8 == 8
    ensures x & 16 == 16 && x & 32 == 32 && x & 64 == 64 && x & 128 == 128
  {
  }

  /** The constant in the code is the generator of IEEE 802.3. */
  lemma GeneratorBits()
    ensures Bits(GENERATOR, 32) == GeneratorTail()
  {
    hide Bit, Bits, GeneratorTail, Upper;
    GeneratorOctets();
    LowOctetBits(GENERATOR);
    LowOctetBits(0x00ED_B883);
    LowOctetBits(0x0000_EDB8);
    LowOctetBits(0x0000_00ED);
    forall i | 0 <= i < 32
      ensures Bits(GENERATOR, 32)[i] == GeneratorTail()[i]
    {
      OctetsUp(GENERATOR, i % 8);
    }
  }

  lemma ShiftedBit(x: bv32, i: nat)
    requires i < 32
    ensures Bit(Shift(x), i) == ((i < 31 && Bit(x, i + 1)) != (Bit(x, 0) && Bit(GENERATOR, i)))
  {
    hide Shift, Xor, Half, Odd;
    ShiftCases(x);
    BitXor(Half(x), GENERATOR, i);
    OneHalf(x, i + 1);
    if i == 31 {
      WordHasNoHighBit(x, 32);
    }
  }

  /** A turn of the loop is one step of long division with a zero bit next. */
  lemma ShiftDivides(x: bv32, m: Poly)
    ensures Reduce(Dividend(Bits(x, 32), [false] + m)) == Dividend(Bits(Shift(x), 32), m)
  {
    hide Shift, Bit, Bits, Dividend, AddToFront, GeneratorTail;
    GeneratorBits();
    var p := Dividend(Bits(x, 32), [false] + m);
    var r := Dividend(Bits(Shift(x), 32), m);
    forall i | 0 <= i < |r|
      ensures Reduce(p)[i] == r[i]
    {
      assert p[1..][i] == p[i + 1];
      if i < 32 {
        ShiftedBit(x, i);
      }
    }
  }

  lemma {:induction false} ShiftsDivide(x: bv32, n: nat, m: Poly)
    ensures Remainder(Dividend(Bits(x, 32), NoBits(n) + m)) == Remainder(Dividend(Bits(Shifts(x, n), 32), m))
    decreases n
  {
    hide Shift, Bits, Dividend, Reduce;
    if n == 0 {
      assert NoBits(0) + m == m;
    } else {
      assert NoBits(n) + m == NoBits(n - 1) + ([false] + m);
      ShiftsDivide(x, n - 1, [false] + m);
      ShiftDivides(Shifts(x, n - 1), m);
    }
  }

  /** Adding a byte to the register stands for reading its eight bits. */
  lemma ByteDivides(x: bv32, b: Octet, m: Poly)
    ensures Dividend(Bits(x, 32), Bits(Word(b), 8) + m) == Dividend(Bits(Xor(x, Word(b)), 32), NoBits(8) + m)
  {
    hide *;
    var p := Dividend(Bits(x, 32), Bits(Word(b), 8) + m);
    var q := Dividend(Bits(Xor(x, Word(b)), 32), NoBits(8) + m);
    forall i | 0 <= i < |p|
      ensures p[i] == q[i]
    {
      if i < 32 {
        BitXor(x, Word(b), i);
        if i >= 8 {
          OctetHasNoHighBit(b, i);
        }
      }
    }
  }

  lemma DataBitsSnoc(data: seq<Octet>, m: Poly)
    requires data != []
    ensures var k := |data| - 1;
      DataBits(data) + m == DataBits(data[..k]) + (Bits(Word(data[k]), 8) + m)
  {
    hide Bits, Word;
  }

  /** The register after some data divides the same as reading the data bit by bit. */
  lemma {:induction false} RegisterDivides(x: bv32, data: seq<Octet>, m: Poly)
    ensures Remainder(Dividend(Bits(x, 32), DataBits(data) + m)) == Remainder(Dividend(Bits(Register(x, data), 32), m))
    decreases |data|
  {
    hide Bits, Remainder, Dividend, Shifts, Xor, Word;
    if data == [] {
      assert [] + m == m;
      RegisterEmpty(x);
    } else {
      hide DataBits, Register;
      var k := |data| - 1;
      DataBitsSnoc(data, m);
      RegisterDivides(x, data[..k], Bits(Word(data[k]), 8) + m);
      ByteDivides(Register(x, data[..k]), data[k], m);
      ShiftsDivide(Xor(Register(x, data[..k]), Word(data[k])), 8, m);
      RegisterStep(x, data);
    }
  }

  function AllBits(n: nat): (r: Poly)
    ensures |r| == n && forall i :: 0 <= i < n ==> r[i]
  {
    seq(n, _ => true)
  }

  /**
   * The checksum by division: the message times x^32, its first 32 coefficients inverted, modulo the
   * generator, inverted.
   */
  function PolynomialChecksum(data: seq<Octet>): Poly {
    AddToFront(Remainder(AddToFront(DataBits(data) + NoBits(32), AllBits(32))), AllBits(32))
  }

  lemma InvertBits(x: bv32)
    ensures Bits(Xor(x, ONES), 32) == AddToFront(Bits(x, 32), AllBits(32))
  {
    hide *;
    forall i | 0 <= i < 32
      ensures Bits(Xor(x, ONES), 32)[i] == !Bits(x, 32)[i]
    {
      BitXor(x, ONES, i);
      OnesBit(i);
    }
  }

  lemma AllOnes()
    ensures Bits(ONES, 32) == AllBits(32)
  {
    hide *;
    forall i | 0 <= i < 32
      ensures Bits(ONES, 32)[i]
    {
      OnesBit(i);
    }
  }

  lemma WholeRemainder(x: bv32)
    ensures Remainder(Dividend(Bits(x, 32), [])) == Bits(x, 32)
  {
    hide Bits, Dividend;
    assert Dividend(Bits(x, 32), []) == Bits(x, 32);
  }

  /** The branch-free word loop computes polynomial division, for every byte string. */
  lemma ChecksumIsDivision(data: seq<Octet>)
    ensures Bits(Checksum(data), 32) == PolynomialChecksum(data)
  {
    hide Bits, Register, DataBits, Remainder, Xor;
    var r := Register(ONES, data);
    RegisterDivides(ONES, data, []);
    AllOnes();
    assert DataBits(data) + [] == DataBits(data);
    WholeRemainder(r);
    InvertBits(r);
  }
}
