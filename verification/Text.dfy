/**
 * Text as the C library prints and scans it. A string stands for a C string without its terminator.
 */
module Text {
  import opened Octets
  import opened Results

  const CRLF := "\r\n"
  const DIGITS := "0123456789"

  // ----- printing -----

  predicate IsDigit(c: char) {
    '0' <= c <= '9'
  }

  /** "%u". */
  function Decimal(n: nat): (r: string)
    ensures |r| >= 1
    ensures forall i :: 0 <= i < |r| ==> IsDigit(r[i])
  {
    if n < 10 then [DIGITS[n]] else Decimal(n / 10) + [DIGITS[n % 10]]
  }

  /** "%d". */
  function Int(v: int): (r: string)
    ensures |r| >= 1
    ensures forall i :: 0 <= i < |r| ==> IsDigit(r[i]) || r[i] == '-'
  {
    if v < 0 then "-" + Decimal(-v) else Decimal(v)
  }

  function Pow10(n: nat): (r: nat)
    ensures r >= 1
  {
    if n == 0 then 1 else 10 * Pow10(n - 1)
  }

  lemma {:induction false} DecimalLength(n: nat, digits: nat)
    requires digits >= 1 && n < Pow10(digits)
    ensures |Decimal(n)| <= digits
    decreases digits
  {
    if n >= 10 {
      DecimalLength(n / 10, digits - 1);
    }
  }

  // ----- scanning -----

  predicate IsBlank(c: char) {
    c == ' ' || c == '\t'
  }

  /** isspace. */
  predicate IsSpace(c: char) {
    c in " \t\n\r\U{0B}\U{0C}"
  }

  predicate InLine(c: char) {
    c != '\n' && c != '\r'
  }

  function Inside(separator: char): char -> bool {
    c => InLine(c) && c != separator
  }

  /** How many characters at the start satisfy p. */
  function Span(p: char -> bool, s: string): (n: nat)
    ensures n <= |s| && (forall i :: 0 <= i < n ==> p(s[i])) && (n < |s| ==> !p(s[n]))
    decreases |s|
  {
    if s == "" || !p(s[0]) then 0 else 1 + Span(p, s[1..])
  }

  lemma SpanIs(p: char -> bool, s: string, n: nat)
    requires n <= |s| && (forall i :: 0 <= i < n ==> p(s[i])) && (n < |s| ==> !p(s[n]))
    ensures Span(p, s) == n
  {
    hide Span;
    var m := Span(p, s);
    assert m < |s| ==> !p(s[m]);
    assert n < |s| ==> !p(s[n]);
  }

  lemma SpanOf(p: char -> bool, s: string, tail: string)
    requires (forall i :: 0 <= i < |s| ==> p(s[i])) && (tail != "" ==> !p(tail[0]))
    ensures Span(p, s + tail) == |s|
  {
    hide Span;
    SpanIs(p, s + tail, |s|);
  }

  function TrimEnd(s: string): (r: string)
    ensures |r| <= |s| && r == s[..|r|] && (r != "" ==> r[|r| - 1] != ' ')
    ensures s != "" && s[|s| - 1] != ' ' ==> r == s
    decreases |s|
  {
    if s != "" && s[|s| - 1] == ' ' then TrimEnd(s[..|s| - 1]) else s
  }

  function SkipBlank(s: string): (r: string)
    ensures |r| <= |s|
  {
    s[Span(IsBlank, s)..]
  }

  /** find_eol. */
  function FindEol(s: string): (r: string)
    ensures |r| <= |s|
    ensures r != "" ==> !InLine(r[0])
  {
    s[Span(InLine, s)..]
  }

  datatype Copy = Copy(text: string, rest: string)

  /** copy_until into a buffer of `room` characters: what it stores and where it stops. */
  function CopyUntil(s: string, room: nat, separator: char): (r: Copy)
    requires room >= 2
    ensures |r.rest| <= |s| && |r.text| < room
  {
    var t := SkipBlank(s);
    var n := Span(Inside(separator), t);
    Copy(TrimEnd(t[..Min(n, room - 1)]), t[n..])
  }

  /** What copy_until leaves whole: in a field that a space ends, and in one that the line end ends. */
  predicate Token(f: string) {
    f != "" && f[0] != '\t' && forall i :: 0 <= i < |f| ==> InLine(f[i]) && f[i] != ' '
  }

  predicate Field(f: string) {
    && (f != "" ==> !IsBlank(f[0]) && f[|f| - 1] != ' ')
    && forall i :: 0 <= i < |f| ==> InLine(f[i])
  }

  /** What is kept when the end is not trimmed. */
  predicate Loose(f: string) {
    (f != "" ==> !IsBlank(f[0])) && forall i :: 0 <= i < |f| ==> InLine(f[i])
  }

  lemma FieldIsLoose(f: string)
    ensures Field(f) <==> Loose(f) && TrimEnd(f) == f
  {
  }

  lemma TokenIsField(f: string)
    requires Token(f)
    ensures Field(f)
  {
  }

  /** A separator that can follow a field. */
  predicate Ends(separator: char, tail: string) {
    tail != "" ==> !InLine(tail[0]) || tail[0] == separator
  }

  /** `f` can be read by copying up to `separator`. */
  predicate Fits(f: string, room: nat, separator: char) {
    Field(f) && |f| < room && separator !in f
  }

  lemma BlanksSkipped(blanks: string, f: string)
    requires (forall i :: 0 <= i < |blanks| ==> IsBlank(blanks[i])) && (f != "" ==> !IsBlank(f[0]))
    ensures SkipBlank(blanks + f) == f
  {
    SpanOf(IsBlank, blanks, f);
  }

  /**
   * Copying, for every text: blanks in front are skipped, what does not fit is passed over, spaces at the
   * end of what is stored are dropped, and the cursor stops at the separator.
   */
  lemma CopyExactly(blanks: string, f: string, tail: string, room: nat, separator: char)
    requires forall i :: 0 <= i < |blanks| ==> IsBlank(blanks[i])
    requires Loose(f) && separator !in f && room >= 2 && Ends(separator, tail)
    requires f == "" && tail != "" ==> !IsBlank(tail[0])
    ensures CopyUntil(blanks + (f + tail), room, separator) == Copy(TrimEnd(f[..Min(|f|, room - 1)]), tail)
  {
    hide Span, SkipBlank, TrimEnd;
    BlanksSkipped(blanks, f + tail);
    SpanOf(Inside(separator), f, tail);
    assert (f + tail)[..Min(|f|, room - 1)] == f[..Min(|f|, room - 1)];
  }

  /** Trimming leaves no space at the end and drops nothing else. */
  lemma {:induction false} TrimExactly(f: string, spaces: string)
    requires (f != "" ==> f[|f| - 1] != ' ') && forall i :: 0 <= i < |spaces| ==> spaces[i] == ' '
    ensures TrimEnd(f + spaces) == f
    decreases |spaces|
  {
    if spaces == "" {
      assert f + spaces == f;
    } else {
      var k := |spaces| - 1;
      assert (f + spaces)[..|f| + k] == f + spaces[..k];
      TrimExactly(f, spaces[..k]);
    }
  }

  lemma LooseRead(blanks: string, f: string, tail: string, room: nat, separator: char)
    requires forall i :: 0 <= i < |blanks| ==> IsBlank(blanks[i])
    requires Loose(f) && |f| < room && separator !in f && room >= 2 && Ends(separator, tail)
    requires f == "" && tail != "" ==> !IsBlank(tail[0])
    ensures CopyUntil(blanks + (f + tail), room, separator) == Copy(TrimEnd(f), tail)
  {
    hide CopyUntil, TrimEnd;
    CopyExactly(blanks, f, tail, room, separator);
    assert f[..|f|] == f;
  }

  /** Reading a field back, after any blanks. */
  lemma FieldRead(blanks: string, f: string, tail: string, room: nat, separator: char)
    requires forall i :: 0 <= i < |blanks| ==> IsBlank(blanks[i])
    requires Fits(f, room, separator) && room >= 2 && Ends(separator, tail)
    requires f == "" && tail != "" ==> !IsBlank(tail[0])
    ensures CopyUntil(blanks + (f + tail), room, separator) == Copy(f, tail)
  {
    hide CopyUntil, TrimEnd;
    LooseRead(blanks, f, tail, room, separator);
    FieldIsLoose(f);
  }

  /** A token that a space follows is read back exactly when it is one. */
  lemma TokenKeptExactly(f: string, tail: string, room: nat)
    requires 2 <= room && f != "" && |f| < room
    ensures CopyUntil(f + " " + tail, room, ' ').text == f <==> Token(f)
  {
    hide CopyUntil;
    var s := f + " " + tail;
    if Token(f) {
      TokenIsField(f);
      assert s == "" + (f + (" " + tail));
      FieldRead("", f, " " + tail, room, ' ');
    } else {
      Stored(s, room, ' ');
      FieldIsToken(f);
    }
  }

  lemma FieldIsToken(f: string)
    requires f != ""
    ensures Field(f) && ' ' !in f ==> Token(f)
  {
  }

  /** A field that ends a line is read back exactly when it is one. */
  lemma FieldKeptExactly(f: string, tail: string, room: nat)
    requires 2 <= room && |f| < room
    ensures CopyUntil(f + CRLF + tail, room, '\n').text == f <==> Field(f)
  {
    hide TrimEnd;
    var s := f + CRLF + tail;
    if Field(f) {
      assert s == "" + (f + (CRLF + tail));
      FieldRead("", f, CRLF + tail, room, '\n');
    } else if CopyUntil(s, room, '\n').text == f {
      Stored(s, room, '\n');
    }
  }

  /** What can be stored at all. */
  lemma Stored(s: string, room: nat, separator: char)
    requires room >= 2
    ensures var f := CopyUntil(s, room, separator).text;
      Field(f) && separator !in f
  {
    hide Span, TrimEnd;
    var t := SkipBlank(s);
    var n := Span(Inside(separator), t);
    assert forall i :: 0 <= i < n ==> Inside(separator)(t[i]);
    if n > 0 {
      assert t[0] == s[Span(IsBlank, s)];
    }
  }

  // ----- numbers -----

  datatype Number = Number(negative: bool, magnitude: nat, rest: string)

  function DigitValue(c: char): nat
    requires IsDigit(c)
  {
    c as int - '0' as int
  }

  function Amount(digits: string): nat
    requires forall i :: 0 <= i < |digits| ==> IsDigit(digits[i])
    decreases |digits|
  {
    if digits == "" then 0 else 10 * Amount(digits[..|digits| - 1]) + DigitValue(digits[|digits| - 1])
  }

  predicate Signed(s: string) {
    s != "" && (s[0] == '-' || s[0] == '+')
  }

  function AfterSign(s: string): (r: string)
    ensures |r| <= |s|
  {
    if Signed(s) then s[1..] else s
  }

  /** strtol and its relatives, base ten: white space, a sign, digits; none without digits. */
  function Scan(s: string): (r: Option<Number>)
    ensures r.Some? ==> |r.value.rest| <= |s|
  {
    var t := s[Span(IsSpace, s)..];
    var u := AfterSign(t);
    var n := Span(IsDigit, u);
    if n == 0 then None else Some(Number(t != "" && t[0] == '-', Amount(u[..n]), u[n..]))
  }

  const LONG_MAX := 0x7FFF_FFFF_FFFF_FFFF

  /** The value of strtol, which saturates. */
  function Long(x: Number): int {
    if x.negative then -Min(x.magnitude, LONG_MAX + 1) else Min(x.magnitude, LONG_MAX)
  }

  function ToInt32(v: int): (r: int32)
    ensures -0x8000_0000 <= v < 0x8000_0000 ==> r == v
  {
    (v + 0x8000_0000) % TWO_32 - 0x8000_0000
  }

  /** parse_int: an int made from a long. */
  function ParseInt(s: string): Option<int32> {
    var x := Scan(s);
    if x.Some? then Some(ToInt32(Long(x.value))) else None
  }

  /** atoi, taken as the cast of strtol; nothing scanned is zero. */
  function Atoi(s: string): int32 {
    var x := ParseInt(s);
    if x.Some? then x.value else 0
  }

  /** strtoull: saturates, and a minus sign negates modulo 2^64. */
  function Unsigned(x: Number): uint64 {
    if x.magnitude >= TWO_64 then TWO_64 - 1
    else if x.negative then (TWO_64 - x.magnitude) % TWO_64
    else x.magnitude
  }

  function ParseUint64(s: string): Option<uint64> {
    var x := Scan(s);
    if x.Some? then Some(Unsigned(x.value)) else None
  }

  lemma {:induction false} AmountOfDecimal(n: nat)
    ensures Amount(Decimal(n)) == n
    decreases n
  {
    if n >= 10 {
      AmountOfDecimal(n / 10);
      assert Decimal(n)[..|Decimal(n)| - 1] == Decimal(n / 10);
      DigitOf(n % 10);
    } else {
      DigitOf(n);
      assert Decimal(n)[..0] == "";
    }
  }

  lemma DigitOf(d: nat)
    requires d < 10
    ensures IsDigit(DIGITS[d]) && DigitValue(DIGITS[d]) == d
  {
  }

  lemma DigitIsNoSpace(c: char)
    requires IsDigit(c)
    ensures !IsSpace(c) && c != '-' && c != '+'
  {
  }

  /** Blanks before a number are white space. */
  lemma NumberRead(blanks: string, n: nat, tail: string)
    requires forall i :: 0 <= i < |blanks| ==> IsBlank(blanks[i])
    requires tail != "" ==> !IsDigit(tail[0])
    ensures Scan(blanks + (Decimal(n) + tail)) == Some(Number(false, n, tail))
  {
    hide Span, Decimal, Amount, IsSpace;
    var d := Decimal(n);
    BlanksAreSpace(blanks);
    DigitIsNoSpace(d[0]);
    SpanOf(IsSpace, blanks, d + tail);
    assert (blanks + (d + tail))[|blanks|..] == d + tail;
    SpanOf(IsDigit, d, tail);
    assert (d + tail)[..|d|] == d;
    AmountOfDecimal(n);
  }

  lemma BlanksAreSpace(blanks: string)
    requires forall i :: 0 <= i < |blanks| ==> IsBlank(blanks[i])
    ensures forall i :: 0 <= i < |blanks| ==> IsSpace(blanks[i])
  {
  }

  lemma NegativeRead(blanks: string, n: nat, tail: string)
    requires forall i :: 0 <= i < |blanks| ==> IsBlank(blanks[i])
    requires tail != "" ==> !IsDigit(tail[0])
    ensures Scan(blanks + ("-" + Decimal(n) + tail)) == Some(Number(true, n, tail))
  {
    hide Span, Decimal, Amount;
    var d := Decimal(n);
    BlanksAreSpace(blanks);
    SpanOf(IsSpace, blanks, "-" + d + tail);
    assert (blanks + ("-" + d + tail))[|blanks|..] == "-" + d + tail;
    assert ("-" + d + tail)[1..] == d + tail;
    SpanOf(IsDigit, d, tail);
    assert (d + tail)[..|d|] == d;
    AmountOfDecimal(n);
  }

  /** An int that was printed is scanned back, and the scan stops after it. */
  lemma IntRead(blanks: string, v: int32, tail: string)
    requires forall i :: 0 <= i < |blanks| ==> IsBlank(blanks[i])
    requires tail != "" ==> !IsDigit(tail[0])
    ensures var x := Scan(blanks + (Int(v) + tail));
      x.Some? && ToInt32(Long(x.value)) == v && x.value.rest == tail
    ensures ParseInt(blanks + (Int(v) + tail)) == Some(v)
  {
    hide Scan, Decimal;
    if v < 0 {
      var m: int := v;
      NegativeRead(blanks, -m, tail);
    } else {
      NumberRead(blanks, v, tail);
    }
  }

  lemma IntAlone(v: int32)
    ensures ParseInt(Int(v)) == Some(v)
  {
    hide Scan, Int;
    IntRead("", v, "");
    assert "" + (Int(v) + "") == Int(v);
  }

  lemma Uint64Alone(n: uint64)
    ensures ParseUint64(Decimal(n)) == Some(n)
  {
    hide Scan, Decimal;
    NumberRead("", n, "");
    assert "" + (Decimal(n) + "") == Decimal(n);
  }

  lemma DecimalIsToken(n: nat)
    ensures Token(Decimal(n))
  {
    hide Decimal;
    var d := Decimal(n);
    assert IsDigit(d[0]);
  }

  lemma IntIsToken(v: int)
    ensures Token(Int(v))
  {
    hide Int;
    var d := Int(v);
    assert IsDigit(d[0]) || d[0] == '-';
  }

  // ----- any number in a text -----

  /** The six characters of isspace. */
  predicate White(s: string) {
    forall i :: 0 <= i < |s| ==> s[i] == ' ' || 9 <= s[i] as int <= 13
  }

  predicate Digits(s: string) {
    forall i :: 0 <= i < |s| ==> '0' <= s[i] <= '9'
  }

  /** White space, a sign or none, digits, and what is no digit. */
  lemma ScanExactly(white: string, sign: string, digits: string, tail: string)
    requires White(white) && sign in {"", "+", "-"} && Digits(digits)
    requires tail != "" ==> !('0' <= tail[0] <= '9')
    requires digits == "" && sign == "" && tail != "" ==> tail[0] != '+' && tail[0] != '-' && !White(tail[..1])
    ensures Scan(white + (sign + (digits + tail))) ==
      if digits == "" then None else Some(Number(sign == "-", Amount(digits), tail))
  {
    hide Span, Amount, AfterSign;
    var u := digits + tail;
    var t := sign + u;
    WhiteIsSpace(white);
    FirstNotSpace(sign, digits, tail);
    SpanOf(IsSpace, white, t);
    assert (white + t)[|white|..] == t;
    SignRead(sign, digits, tail);
    SpanOf(IsDigit, digits, tail);
    assert u[..|digits|] == digits && u[|digits|..] == tail;
  }

  lemma WhiteIsSpace(s: string)
    requires White(s)
    ensures forall i :: 0 <= i < |s| ==> IsSpace(s[i])
  {
  }

  lemma FirstNotSpace(sign: string, digits: string, tail: string)
    requires sign in {"", "+", "-"} && Digits(digits)
    requires digits == "" && sign == "" && tail != "" ==> !White(tail[..1])
    ensures var t := sign + (digits + tail); t != "" ==> !IsSpace(t[0])
  {
    if sign == "" && digits == "" && tail != "" {
      assert tail[..1][0] == tail[0];
    }
  }

  lemma SignRead(sign: string, digits: string, tail: string)
    requires sign in {"", "+", "-"} && Digits(digits)
    requires digits == "" && sign == "" && tail != "" ==> tail[0] != '+' && tail[0] != '-'
    ensures var t := sign + (digits + tail);
      AfterSign(t) == digits + tail && (digits != "" ==> (t != "" && t[0] == '-' <==> sign == "-"))
  {
    var t := sign + (digits + tail);
    if sign != "" {
      assert t[1..] == digits + tail;
    } else {
      assert t == digits + tail;
    }
  }

  lemma TenTimes(a: int, b: int)
    ensures a * (10 * b) == 10 * (a * b)
  {
  }

  /** The first digit counts most. */
  lemma {:induction false} AmountCons(first: char, rest: string)
    requires '0' <= first <= '9' && Digits(rest)
    ensures Digits([first] + rest)
    ensures Amount([first] + rest) == (first as int - 48) * Pow10(|rest|) + Amount(rest)
    decreases |rest|
  {
    var all := [first] + rest;
    assert Digits(all);
    if rest == "" {
      assert all[..0] == "";
    } else {
      var k := |rest| - 1;
      assert all[..|all| - 1] == [first] + rest[..k];
      AmountCons(first, rest[..k]);
      TenTimes(first as int - 48, Pow10(k));
    }
  }

  /** Signed 64-bit numbers saturate; unsigned ones saturate too, but a minus sign counts from 2^64 down. */
  lemma Conversions(x: Number)
    ensures !x.negative ==> Long(x) == Min(x.magnitude, 0x7FFF_FFFF_FFFF_FFFF)
    ensures x.negative ==> Long(x) == -Min(x.magnitude, 0x8000_0000_0000_0000)
    ensures x.magnitude >= TWO_64 ==> Unsigned(x) == 0xFFFF_FFFF_FFFF_FFFF
    ensures x.magnitude < TWO_64 && !x.negative ==> Unsigned(x) == x.magnitude
    ensures 0 < x.magnitude < TWO_64 && x.negative ==> Unsigned(x) + x.magnitude == TWO_64
    ensures x.magnitude == 0 ==> Unsigned(x) == 0
  {
  }

  /** An int keeps the low 32 bits. */
  lemma IntWraps(v: int)
    ensures -0x8000_0000 <= ToInt32(v) < 0x8000_0000 && (v - ToInt32(v)) % TWO_32 == 0
  {
  }
}
