/**
 * Parsing what was printed: src/signal/sdp_generator.c, lines 38 to 173, against
 * src/signal/sdp_parser.c, lines 48 to 468.
 */
module SdpRoundTrip {
  import opened Octets
  import opened Results
  import opened Packetizer
  import opened Text
  import opened Sdp
  import opened SdpGenerator
  import opened SdpParser

  // ----- lines -----

  lemma LineParsed(kind: char, body: string, more: string, s: Session, u: Unset)
    requires InLine(kind)
    ensures var r := Line(kind, s, body + (CRLF + more), u);
      ParseFrom(s, Ended([kind] + "=" + body) + more, u) == ParseFrom(r.session, NextLine(r.rest), u)
  {
    hide Line, NextLine, ParseFrom;
    var p := Ended([kind] + "=" + body) + more;
    ParseStep(s, p, u);
    assert p[2..] == body + (CRLF + more);
  }

  lemma NextLineOf(tail: string, more: string)
    requires forall i :: 0 <= i < |tail| ==> InLine(tail[i])
    ensures NextLine(tail + (CRLF + more)) == more
  {
    hide Span;
    SpanOf(InLine, tail, CRLF + more);
    assert (tail + (CRLF + more))[|tail|..] == CRLF + more;
    assert (CRLF + more)[1..] == "\n" + more;
    assert ("\n" + more)[1..] == more;
  }

  lemma NextLineNow(more: string)
    ensures NextLine(CRLF + more) == more
  {
    NextLineOf("", more);
    assert "" + (CRLF + more) == CRLF + more;
  }

  lemma VersionRead(s: Session, t: Session, more: string, u: Unset)
    ensures ParseFrom(t, Ended(VersionLine(s)) + more, u) == ParseFrom(t.(version := s.version), more, u)
  {
    hide ParseFrom, NextLine, FindEol, ParseInt, Int;
    var n := Int(s.version);
    LineParsed('v', n, more, t, u);
    assert ['v'] + "=" + n == VersionLine(s);
    IntRead("", s.version, CRLF + more);
    assert "" + (n + (CRLF + more)) == n + (CRLF + more);
    EolAfterInt(s.version, CRLF + more);
    NextLineNow(more);
  }

  lemma EolAfterInt(v: int, tail: string)
    requires tail != "" && !InLine(tail[0])
    ensures FindEol(Int(v) + tail) == tail
  {
    hide Span, Int;
    SpanOf(InLine, Int(v), tail);
  }

  /** A field read straight away, and after one space. */
  lemma ReadHere(f: string, tail: string, room: nat, separator: char)
    requires Fits(f, room, separator) && room >= 2 && Ends(separator, tail)
    requires f == "" && tail != "" ==> !IsBlank(tail[0])
    ensures CopyUntil(f + tail, room, separator) == Copy(f, tail)
  {
    hide CopyUntil;
    FieldRead("", f, tail, room, separator);
    assert "" + (f + tail) == f + tail;
  }

  lemma ReadNext(f: string, tail: string, room: nat, separator: char)
    requires Fits(f, room, separator) && room >= 2 && Ends(separator, tail)
    requires f == "" && tail != "" ==> !IsBlank(tail[0])
    ensures CopyUntil(" " + (f + tail), room, separator) == Copy(f, tail)
  {
    hide CopyUntil;
    FieldRead(" ", f, tail, room, separator);
  }

  lemma TokenHere(f: string, more: string, room: nat)
    requires Token(f) && |f| < room
    ensures CopyUntil(f + (" " + more), room, ' ') == Copy(f, " " + more)
  {
    hide CopyUntil;
    ReadHere(f, " " + more, room, ' ');
  }

  lemma TokenNext(f: string, more: string, room: nat)
    requires Token(f) && |f| < room
    ensures CopyUntil(" " + (f + (" " + more)), room, ' ') == Copy(f, " " + more)
  {
    hide CopyUntil;
    ReadNext(f, " " + more, room, ' ');
  }

  lemma TokenLast(f: string, more: string, room: nat)
    requires Token(f) && |f| < room
    ensures CopyUntil(" " + (f + (CRLF + more)), room, ' ') == Copy(f, CRLF + more)
  {
    hide CopyUntil;
    ReadNext(f, CRLF + more, room, ' ');
  }

  lemma FieldHere(f: string, more: string, room: nat)
    requires Field(f) && |f| < room && room >= 2
    ensures CopyUntil(f + (CRLF + more), room, '\n') == Copy(f, CRLF + more)
  {
    hide CopyUntil;
    ReadHere(f, CRLF + more, room, '\n');
  }

  /** Such a field loses the spaces at its end. */
  lemma LooseHere(f: string, more: string, room: nat)
    requires Loose(f) && |f| < room && room >= 2
    ensures CopyUntil(f + (CRLF + more), room, '\n') == Copy(TrimEnd(f), CRLF + more)
  {
    hide CopyUntil, TrimEnd;
    LooseRead("", f, CRLF + more, room, '\n');
    assert "" + (f + (CRLF + more)) == f + (CRLF + more);
  }

  lemma FieldNext(f: string, more: string, room: nat)
    requires Field(f) && |f| < room && room >= 2
    ensures CopyUntil(" " + (f + (CRLF + more)), room, '\n') == Copy(f, CRLF + more)
  {
    hide CopyUntil;
    ReadNext(f, CRLF + more, room, '\n');
  }

  predicate Blankable(s: string) {
    s == "" || Token(s)
  }

  lemma OriginSplit(a: string, b: string, c: string, d: string, e: string, f: string, end: string)
    ensures a + " " + b + " " + c + " " + d + " " + e + " " + f + end ==
      a + (" " + (b + (" " + (c + (" " + (d + (" " + (e + (" " + (f + end))))))))))
  {
  }

  /** An origin line of any six words: what is no number leaves what the two variables held. */
  lemma OriginWords(a: string, b: string, c: string, d: string, e: string, f: string, t: Session, more: string, u: Unset)
    requires Token(a) && |a| < 256 && Token(b) && |b| < 64 && Token(c) && |c| < 64
    requires Token(d) && |d| < 16 && Token(e) && |e| < 16 && Field(f) && |f| < 64
    ensures Origin(
      t, a + (" " + (b + (" " + (c + (" " + (d + (" " + (e + (" " + (f + (CRLF + more))))))))))), u) ==
      Reading(
        t.(username := a,
           id := if ParseUint64(b).Some? then ParseUint64(b).value else u.id,
           revision := if ParseUint64(c).Some? then ParseUint64(c).value else u.revision,
           networkType := d, addressType := e, address := f),
        CRLF + more)
  {
    hide CopyUntil, ParseUint64, Token, Field;
    var address := f + (CRLF + more);
    var types := d + (" " + (e + (" " + address)));
    var numbers := b + (" " + (c + (" " + types)));
    TokenHere(a, numbers, 256);
    TokenNext(b, c + (" " + types), 64);
    TokenNext(c, types, 64);
    TokenNext(d, e + (" " + address), 16);
    TokenNext(e, address, 16);
    FieldNext(f, more, 64);
  }

  lemma OriginFields(a: string, b: uint64, c: uint64, d: string, e: string, f: string, t: Session, more: string, u: Unset)
    requires Token(a) && |a| < 256 && Token(d) && |d| < 16 && Token(e) && |e| < 16 && Field(f) && |f| < 64
    ensures Origin(
      t,
      a + (" " + (Decimal(b) + (" " + (Decimal(c) + (" " + (d + (" " + (e + (" " + (f + (CRLF + more))))))))))),
      u) ==
      Reading(t.(username := a, id := b, revision := c, networkType := d, addressType := e, address := f), CRLF + more)
  {
    hide Origin, Decimal, ParseUint64, Token, Field;
    NumberLengths(b, 0, 0, 0);
    NumberLengths(c, 0, 0, 0);
    DecimalIsToken(b);
    DecimalIsToken(c);
    OriginWords(a, Decimal(b), Decimal(c), d, e, f, t, more, u);
    Uint64Alone(b);
    Uint64Alone(c);
  }

  predicate OriginClean(s: Session) {
    && Blankable(s.username) && Blankable(s.networkType) && Blankable(s.addressType) && Field(s.address)
    && |s.username| < 256 && |s.networkType| < 16 && |s.addressType| < 16 && |s.address| < 64
  }

  function WithOrigin(t: Session, s: Session): Session {
    t.(username := OrElse(s.username, "-"), id := s.id, revision := s.revision,
       networkType := OrElse(s.networkType, "IN"), addressType := OrElse(s.addressType, "IP4"),
       address := OrElse(s.address, "0.0.0.0"))
  }

  lemma OriginRead(s: Session, t: Session, more: string, u: Unset)
    requires OriginClean(s)
    ensures ParseFrom(t, Ended(OriginLine(s)) + more, u) == ParseFrom(WithOrigin(t, s), more, u)
  {
    hide ParseFrom, NextLine, Decimal, Origin, Token, Field, OrElse;
    var a, d, e := OrElse(s.username, "-"), OrElse(s.networkType, "IN"), OrElse(s.addressType, "IP4");
    var f := OrElse(s.address, "0.0.0.0");
    Defaults(s);
    var body := a + " " + Decimal(s.id) + " " + Decimal(s.revision) + " " + d + " " + e + " " + f;
    LineParsed('o', body, more, t, u);
    assert ['o'] + "=" + body == OriginLine(s) by { OriginForm(s); }
    OriginSplit(a, Decimal(s.id), Decimal(s.revision), d, e, f, CRLF + more);
    OriginFields(a, s.id, s.revision, d, e, f, t, more, u);
    NextLineNow(more);
  }

  lemma OriginForm(s: Session)
    ensures OriginLine(s) == "o=" +
      (OrElse(s.username, "-") + " " + Decimal(s.id) + " " + Decimal(s.revision) + " " +
       OrElse(s.networkType, "IN") + " " + OrElse(s.addressType, "IP4") + " " + OrElse(s.address, "0.0.0.0"))
  {
    hide Decimal, OrElse;
  }

  lemma Defaults(s: Session)
    requires OriginClean(s)
    ensures Token(OrElse(s.username, "-")) && |OrElse(s.username, "-")| < 256
    ensures Token(OrElse(s.networkType, "IN")) && |OrElse(s.networkType, "IN")| < 16
    ensures Token(OrElse(s.addressType, "IP4")) && |OrElse(s.addressType, "IP4")| < 16
    ensures Field(OrElse(s.address, "0.0.0.0")) && |OrElse(s.address, "0.0.0.0")| < 64
  {
  }

  lemma NameRead(s: Session, t: Session, more: string, u: Unset)
    requires Field(s.name) && |s.name| < 256
    ensures ParseFrom(t, Ended(NameLine(s)) + more, u) == ParseFrom(t.(name := OrElse(s.name, "-")), more, u)
  {
    hide ParseFrom, NextLine, CopyUntil, Field, OrElse;
    var n := OrElse(s.name, "-");
    assert Field(n) && |n| < 256 by { NameDefault(s.name); }
    LineParsed('s', n, more, t, u);
    assert ['s'] + "=" + n == NameLine(s);
    FieldHere(n, more, 256);
    NextLineNow(more);
  }

  lemma NameDefault(f: string)
    requires Field(f) && |f| < 256
    ensures Field(OrElse(f, "-")) && |OrElse(f, "-")| < 256
  {
  }

  /** A timing line of any two words: what is no number leaves what the session had. */
  lemma TimingWords(a: string, b: string, t: Session, more: string, u: Unset)
    requires Token(a) && |a| < 64 && Field(b) && |b| < 64
    ensures var start, stop := ParseUint64(a), ParseUint64(b);
      ParseFrom(t, Ended("t=" + a + " " + b) + more, u) ==
      ParseFrom(t.(start := if start.Some? then start.value else t.start,
                   stop := if stop.Some? then stop.value else t.stop), more, u)
  {
    hide ParseFrom, NextLine, CopyUntil, Field, Token, ParseUint64;
    var body := a + " " + b;
    LineParsed('t', body, more, t, u);
    assert ['t'] + "=" + body == "t=" + a + " " + b;
    assert body + (CRLF + more) == a + (" " + (b + (CRLF + more)));
    TokenHere(a, b + (CRLF + more), 64);
    FieldNext(b, more, 64);
    NextLineNow(more);
  }

  lemma TimingRead(s: Session, t: Session, more: string, u: Unset)
    ensures ParseFrom(t, Ended(TimingLine(s)) + more, u) == ParseFrom(t.(start := s.start, stop := s.stop), more, u)
  {
    hide ParseFrom, Field, Token, Decimal, ParseUint64;
    var a, b := Decimal(s.start), Decimal(s.stop);
    NumberLengths(s.start, 0, 0, 0);
    NumberLengths(s.stop, 0, 0, 0);
    DecimalIsToken(s.start);
    DecimalIsToken(s.stop);
    TokenIsField(b);
    TimingWords(a, b, t, more, u);
    Uint64Alone(s.start);
    Uint64Alone(s.stop);
  }

  /** A line of another kind is passed over, whatever it says. */
  lemma OtherLine(kind: char, body: string, t: Session, more: string, u: Unset)
    requires InLine(kind) && kind !in {'v', 'o', 's', 't', 'a', 'm'} && AllInLine(body)
    ensures ParseFrom(t, Ended([kind] + "=" + body) + more, u) == ParseFrom(t, more, u)
  {
    hide ParseFrom, NextLine;
    LineParsed(kind, body, more, t, u);
    NextLineOf(body, more);
  }

  /** And so is a line whose second character is no equals sign. */
  lemma PlainLine(line: string, t: Session, more: string, u: Unset)
    requires AllInLine(line) && line != "" && (|line| == 1 || line[1] != '=')
    ensures ParseFrom(t, Ended(line) + more, u) == ParseFrom(t, more, u)
  {
    hide ParseFrom, FindEol, Span;
    var p := line + (CRLF + more);
    assert Ended(line) + more == p;
    assert p[0] == line[0] && p[1] == (if |line| == 1 then '\r' else line[1]);
    ParseStep(t, p, u);
    assert p[1..] == line[1..] + (CRLF + more);
    EolBehind(line[1..], more);
    ParseStep(t, "\n" + more, u);
    assert ("\n" + more)[1..] == more;
  }

  lemma EolBehind(line: string, more: string)
    requires AllInLine(line)
    ensures var e := FindEol(line + (CRLF + more));
      e != "" && e[1..] == "\n" + more
  {
    hide Span;
    SpanOf(InLine, line, CRLF + more);
    assert (line + (CRLF + more))[|line|..] == CRLF + more;
    assert (CRLF + more)[1..] == "\n" + more;
  }

  // ----- attribute lines -----

  /** The names of the attributes that carry a value. */
  predicate IsName(n: string) {
    Field(n) && |n| < 64 && ':' !in n
  }

  /** A line `a=name:value`. */
  lemma AttributeParsed(name: string, value: string, t: Session, more: string, u: Unset)
    requires IsName(name)
    ensures var p := name + (":" + (value + (CRLF + more)));
      && CopyUntil(p, 64, ':') == Copy(name, ":" + (value + (CRLF + more)))
      && SkipChar(":" + (value + (CRLF + more)), ':') == value + (CRLF + more)
      && (var r := Attribute(t, p);
          ParseFrom(t, Ended(AttributeLine(name, value)) + more, u) == ParseFrom(r.session, NextLine(r.rest), u))
  {
    hide ParseFrom, NextLine, CopyUntil, Attribute, Field;
    var body := name + ":" + value;
    LineParsed('a', body, more, t, u);
    assert ['a'] + "=" + body == AttributeLine(name, value);
    assert body + (CRLF + more) == name + (":" + (value + (CRLF + more)));
    ReadHere(name, ":" + (value + (CRLF + more)), 64, ':');
  }

  lemma UfragRead(s: Session, t: Session, more: string, u: Unset)
    requires Field(s.ufrag) && |s.ufrag| < 64
    ensures ParseFrom(t, Ended(UfragLine(s)) + more, u) == ParseFrom(t.(ufrag := s.ufrag), more, u)
  {
    hide ParseFrom, NextLine, CopyUntil, SkipChar, Field;
    assert IsName("ice-ufrag") by { Names(); }
    AttributeParsed("ice-ufrag", s.ufrag, t, more, u);
    FieldHere(s.ufrag, more, 64);
    NextLineNow(more);
  }

  lemma PasswordRead(s: Session, t: Session, more: string, u: Unset)
    requires Field(s.password) && |s.password| < 128
    ensures ParseFrom(t, Ended(PasswordLine(s)) + more, u) == ParseFrom(t.(password := s.password), more, u)
  {
    hide ParseFrom, NextLine, CopyUntil, SkipChar, Field;
    assert IsName("ice-pwd") by { Names(); }
    AttributeParsed("ice-pwd", s.password, t, more, u);
    FieldHere(s.password, more, 128);
    NextLineNow(more);
  }

  lemma SetupRead(s: Session, t: Session, more: string, u: Unset)
    requires Field(s.setup) && |s.setup| < 16
    ensures ParseFrom(t, Ended(SetupLine(s)) + more, u) == ParseFrom(t.(setup := s.setup), more, u)
  {
    hide ParseFrom, NextLine, CopyUntil, SkipChar, Field;
    assert IsName("setup") by { Names(); }
    AttributeParsed("setup", s.setup, t, more, u);
    FieldHere(s.setup, more, 16);
    NextLineNow(more);
  }

  lemma Names()
    ensures IsName("ice-ufrag") && IsName("ice-pwd") && IsName("setup") && IsName("fingerprint")
  {
  }

  lemma MoreNames()
    ensures IsName("candidate") && IsName("mid") && IsName("rtpmap") && IsName("group") && IsName("ice-options")
  {
  }

  lemma FlagNames()
    ensures IsName("rtcp-mux") && IsName("sendrecv") && IsName("sendonly") && IsName("recvonly") && IsName("inactive")
  {
  }

  /** A fingerprint is copied to the end of its line: only blanks before it would be lost. */
  predicate FingerprintClean(s: Session) {
    && Token(s.fingerprintType) && |s.fingerprintType| < 16
    && s.fingerprint != "" && |s.fingerprint| < 128 && !IsBlank(s.fingerprint[0])
    && forall i :: 0 <= i < |s.fingerprint| ==> InLine(s.fingerprint[i])
  }

  lemma FingerprintRead(s: Session, t: Session, more: string, u: Unset)
    requires FingerprintClean(s)
    ensures ParseFrom(t, Ended(FingerprintLine(s)) + more, u) ==
      ParseFrom(t.(fingerprint := s.fingerprint, fingerprintType := s.fingerprintType), more, u)
  {
    hide ParseFrom, NextLine, CopyUntil, SkipChar, Field, Token, SkipBlank, Span;
    var k, f, end := s.fingerprintType, s.fingerprint, CRLF + more;
    assert IsName("fingerprint") by { Names(); }
    AttributeParsed("fingerprint", k + " " + f, t, more, u);
    assert (k + " " + f) + end == k + (" " + (f + end));
    TokenNotEmpty(k);
    TokenHere(k, f + end, 16);
    BlanksSkipped(" ", f + end);
    SpanOf(InLine, f, end);
    assert (f + end)[..|f|] == f;
    assert k + (" " + (f + end)) == (k + " " + f) + end;
    NextLineOf(k + " " + f, more) by { TokenInLine(k); }
  }

  /** Without a type, the first word of the fingerprint is taken for it. */
  lemma FingerprintMisread(s: Session, t: Session, more: string, u: Unset) returns (kind: string, fingerprint: string)
    requires s.fingerprintType == "" && s.fingerprint != "" && Loose(s.fingerprint)
    ensures kind != ""
    ensures ParseFrom(t, Ended(FingerprintLine(s)) + more, u) ==
      ParseFrom(t.(fingerprint := fingerprint, fingerprintType := kind), more, u)
  {
    hide ParseFrom, NextLine, CopyUntil, SkipChar, SkipBlank, Span;
    var f, end := s.fingerprint, CRLF + more;
    assert IsName("fingerprint") by { Names(); }
    AttributeParsed("fingerprint", s.fingerprintType + " " + f, t, more, u);
    assert s.fingerprintType + " " + f + end == " " + (f + end);
    FirstWord(f, end);
    var read := ParseFingerprint(" " + (f + end));
    kind, fingerprint := read.0, read.1.value;
    assert " " + (f + end) == (" " + f) + end;
    NextLineOf(" " + f, more);
  }

  lemma FirstWord(f: string, end: string)
    requires f != "" && !IsBlank(f[0]) && InLine(f[0])
    ensures CopyUntil(" " + (f + end), 16, ' ').text != ""
  {
    hide Span, SkipBlank;
    var t := f + end;
    BlanksSkipped(" ", t);
    var n := Span(Inside(' '), t);
    assert n > 0 by { assert Inside(' ')(t[0]); }
    var word := t[..Min(n, 15)];
    assert Inside(' ')(word[|word| - 1]);
  }

  lemma TokenNotEmpty(f: string)
    requires Token(f)
    ensures f != ""
  {
  }

  lemma TokenInLine(f: string)
    requires Token(f)
    ensures forall i :: 0 <= i < |f| ==> InLine(f[i])
  {
  }

  /** Attributes that the parser has no use for. */
  lemma UnknownAttribute(t: Session, p: string)
    requires CopyUntil(p, 64, ':').text !in
      {"ice-ufrag", "ice-pwd", "fingerprint", "candidate", "setup", "mid", "rtpmap"}
    ensures Attribute(t, p) == Reading(t, CopyUntil(p, 64, ':').rest)
  {
    hide CopyUntil, ParseFingerprint, ParseCandidate, Rtpmap;
  }

  lemma OthersUnknown()
    ensures var known := {"ice-ufrag", "ice-pwd", "fingerprint", "candidate", "setup", "mid", "rtpmap"};
      && "group" !in known && "ice-options" !in known && "rtcp-mux" !in known
      && "sendrecv" !in known && "sendonly" !in known && "recvonly" !in known && "inactive" !in known
  {
  }

  lemma UnknownRead(name: string, value: string, t: Session, more: string, u: Unset)
    requires IsName(name) && name in {"group", "ice-options"} && AllInLine(value)
    ensures ParseFrom(t, Ended(AttributeLine(name, value)) + more, u) == ParseFrom(t, more, u)
  {
    hide ParseFrom, NextLine, CopyUntil, SkipChar, Attribute, IsName, AttributeLine, Ended;
    var p := name + (":" + (value + (CRLF + more)));
    AttributeParsed(name, value, t, more, u);
    OthersUnknown();
    UnknownAttribute(t, p);
    assert ":" + (value + (CRLF + more)) == (":" + value) + (CRLF + more);
    NextLineOf(":" + value, more);
  }

  lemma GroupRead(s: Session, t: Session, more: string, u: Unset)
    requires forall i :: 0 <= i < |s.media| ==> Loose(s.media[i].mid)
    ensures ParseFrom(t, Ended(GroupLine(s.media)) + more, u) == ParseFrom(t, more, u)
  {
    hide ParseFrom, Field, Loose, SpacedMids, Ended, AttributeLine;
    MoreNames();
    MidsInLine(s.media);
    UnknownRead("group", "BUNDLE" + SpacedMids(s.media), t, more, u);
  }

  lemma {:induction false} MidsInLine(media: seq<Media>)
    requires forall i :: 0 <= i < |media| ==> Loose(media[i].mid)
    ensures forall i :: 0 <= i < |SpacedMids(media)| ==> InLine(SpacedMids(media)[i])
    decreases |media|
  {
    if media != [] {
      MidsInLine(media[1..]);
    }
  }

  lemma OptionsRead(t: Session, more: string, u: Unset)
    ensures ParseFrom(t, Ended("a=ice-options:trickle") + more, u) == ParseFrom(t, more, u)
  {
    hide ParseFrom, IsName, Ended;
    MoreNames();
    assert AttributeLine("ice-options", "trickle") == "a=ice-options:trickle";
    UnknownRead("ice-options", "trickle", t, more, u);
  }

  /** A line `a=name` that the parser has no use for. */
  lemma FlagRead(name: string, t: Session, more: string, u: Unset)
    requires name in {"rtcp-mux", "sendrecv", "sendonly", "recvonly", "inactive"}
    ensures ParseFrom(t, Ended("a=" + name) + more, u) == ParseFrom(t, more, u)
  {
    hide ParseFrom, NextLine, CopyUntil, SkipChar, Attribute, Field;
    assert IsName(name) by { FlagNames(); }
    LineParsed('a', name, more, t, u);
    assert ['a'] + "=" + name == "a=" + name;
    ReadHere(name, CRLF + more, 64, ':');
    OthersUnknown();
    UnknownAttribute(t, name + (CRLF + more));
    NextLineNow(more);
  }

  // ----- the lines of a media description -----

  function Described(m: Media): Media {
    NewMedia(m.kind, m.port, m.payloadType)
  }

  lemma MediaSplit(m: Media, end: string)
    ensures MediaBody(m) + end ==
      KindName(m.kind) + (" " + (Int(m.port) + (" " + ("UDP/TLS/RTP/SAVPF" + (" " + (Int(m.payloadType) + end))))))
  {
    hide Int, KindName;
  }

  lemma MediaFields(m: Media, t: Session, more: string)
    requires |t.media| < MAX_MEDIA
    ensures MediaDescription(t, MediaBody(m) + (CRLF + more)) ==
      Reading(t.(media := t.media + [Described(m)]), CRLF + more)
  {
    hide CopyUntil, Int, NewMedia, ScanPayload, ParseInt, MediaBody, Token, KindName;
    var k, a := KindName(m.kind), Int(m.port);
    var last := Int(m.payloadType) + (CRLF + more);
    var proto := "UDP/TLS/RTP/SAVPF" + (" " + last);
    MediaSplit(m, CRLF + more);
    NumberLengths(0, 0, 0, m.port);
    KindIsToken(m.kind);
    IntIsToken(m.port);
    TokenHere(k, a + (" " + proto), 16);
    TokenNext(a, proto, 16);
    ProtoRead(last);
    IntAlone(m.port);
    PayloadRead(m.payloadType, more);
  }

  lemma MediaLineRead(m: Media, t: Session, more: string, u: Unset)
    requires |t.media| < MAX_MEDIA
    ensures ParseFrom(t, Ended(MediaLine(m)) + more, u) ==
      ParseFrom(t.(media := t.media + [Described(m)]), more, u)
  {
    hide ParseFrom, NextLine, MediaDescription, Int, KindName, Described;
    LineParsed('m', MediaBody(m), more, t, u);
    assert ['m'] + "=" + MediaBody(m) == MediaLine(m);
    MediaFields(m, t, more);
    NextLineNow(more);
  }

  lemma KindIsToken(kind: MediaKind)
    ensures Token(KindName(kind)) && |KindName(kind)| < 16
    ensures KindName(kind) == "audio" <==> kind == Audio
    ensures KindName(kind) == "video" <==> kind == Video
  {
  }

  /** The protocol is too long for its buffer; the cursor moves past all of it. */
  lemma ProtoRead(more: string)
    ensures CopyUntil(" " + ("UDP/TLS/RTP/SAVPF" + (" " + more)), 16, ' ').rest == " " + more
  {
    hide Span, TrimEnd;
    var proto := "UDP/TLS/RTP/SAVPF";
    BlanksSkipped(" ", proto + (" " + more));
    SpanOf(Inside(' '), proto, " " + more);
  }

  lemma PayloadRead(v: int32, more: string)
    ensures ScanPayload(" " + (Int(v) + (CRLF + more))) == Scanned(v, CRLF + more)
  {
    hide Scan, Int, Long;
    IntRead(" ", v, CRLF + more);
  }

  /** The channels that the parser finds. */
  function ChannelsOf(m: Media): int32 {
    if m.kind == Audio && m.channels > 1 then m.channels else 1
  }

  lemma EncodingRead(m: Media)
    ensures var text := EncodingText(m);
      Token(text) && |text| < 64 && ParseEncoding(text) == Encoding(m.clockRate, ChannelsOf(m))
  {
    hide Span, Decimal, Int, ParseInt;
    var clock, suffix := Decimal(m.clockRate), ChannelSuffix(m);
    NumberLengths(0, m.clockRate, 0, m.channels);
    assert forall i :: 0 <= i < |clock| ==> IsDigit(clock[i]);
    SpanOf(NoSlash, clock, suffix);
    ClockAlone(m.clockRate);
    assert (clock + suffix)[..|clock|] == clock;
    if suffix != "" {
      assert (clock + suffix)[|clock| + 1..] == Int(ChannelsOf(m)) by { OneAsInt(); }
      IntAlone(ChannelsOf(m));
    }
  }

  lemma OneAsInt()
    ensures Int(1) == "1"
  {
  }

  /** A clock rate survives the signed detour, whatever it is. */
  lemma ClockAlone(n: uint32)
    ensures Atoi(Decimal(n)) % TWO_32 == n
  {
    hide Scan, Decimal;
    NumberRead("", n, "");
    assert "" + (Decimal(n) + "") == Decimal(n);
  }

  lemma Different(a: string, b: string, i: nat)
    requires i < |a| && i < |b| && Lower(a[i]) != Lower(b[i])
    ensures !SameIgnoringCase(a, b)
  {
  }

  lemma NameOfCodec(c: Codec)
    ensures CodecNamed(CodecName(c)) == Some(c)
  {
    hide SameIgnoringCase;
    assert SameIgnoringCase(CodecName(c), CodecName(c)) by { SameName(CodecName(c)); }
    Different("OPUS", "H264", 0);
    Different("PCMA", "H264", 0);
    Different("PCMA", "OPUS", 0);
    Different("PCMU", "H264", 0);
    Different("PCMU", "OPUS", 0);
    Different("PCMU", "PCMA", 3);
    Different("G722", "H264", 0);
    Different("G722", "OPUS", 0);
    Different("G722", "PCMA", 0);
    Different("G722", "PCMU", 0);
  }

  lemma SameName(a: string)
    ensures SameIgnoringCase(a, a)
  {
  }

  lemma RtpmapFields(m: Media, t: Session, more: string)
    ensures Rtpmap(t, RtpmapBody(m) + (CRLF + more)) ==
      Reading(
        t.(media := MapCodec(t.media, m.payloadType, CodecName(m.codec), m.clockRate, ChannelsOf(m))),
        CRLF + more)
  {
    hide Span, CopyUntil, ParseInt, Int, ParseEncoding, MapCodec, CodecName, SkipChar, EncodingText;
    var n, name, text, end := Int(m.payloadType), CodecName(m.codec), EncodingText(m), CRLF + more;
    var tail := name + ("/" + (text + end));
    RtpmapSplit(m, end);
    PayloadSkipped(m.payloadType, tail);
    CodecFits(m.codec);
    ReadHere(name, "/" + (text + end), 64, '/');
    Skipped('/', text + end);
    EncodingRead(m);
    TokenIsField(text);
    FieldHere(text, more, 64);
  }

  function EncodingText(m: Media): string {
    Decimal(m.clockRate) + ChannelSuffix(m)
  }

  lemma RtpmapSplit(m: Media, end: string)
    ensures RtpmapBody(m) + end == Int(m.payloadType) + (" " + (CodecName(m.codec) + ("/" + (EncodingText(m) + end))))
  {
    hide Int, Decimal, CodecName, ChannelSuffix;
  }

  lemma Skipped(c: char, more: string)
    ensures SkipChar([c] + more, c) == more
  {
  }

  lemma PayloadSkipped(v: int32, more: string)
    ensures var s := Int(v) + (" " + more);
      ParseInt(s) == Some(v) && SkipChar(s[Span(BeforeSpace, s)..], ' ') == more
  {
    hide Span, ParseInt, Int, SkipChar;
    var n := Int(v);
    IntRead("", v, " " + more);
    assert "" + (n + (" " + more)) == n + (" " + more);
    SpaceAfterInt(v, " " + more);
    Skipped(' ', more);
  }

  lemma SpaceAfterInt(v: int, tail: string)
    requires tail != "" && tail[0] == ' '
    ensures var s := Int(v) + tail;
      s[Span(BeforeSpace, s)..] == tail
  {
    hide Span, Int;
    var n := Int(v);
    assert forall i :: 0 <= i < |n| ==> BeforeSpace(n[i]);
    SpanOf(BeforeSpace, n, tail);
  }

  lemma CodecFits(c: Codec)
    ensures Fits(CodecName(c), 64, '/') && CodecName(c) != ""
  {
  }

  lemma RtpmapRead(m: Media, t: Session, more: string, u: Unset)
    ensures ParseFrom(t, Ended(RtpmapLine(m)) + more, u) ==
      ParseFrom(
        t.(media := MapCodec(t.media, m.payloadType, CodecName(m.codec), m.clockRate, ChannelsOf(m))), more, u)
  {
    hide ParseFrom, NextLine, CopyUntil, SkipChar, Field, Rtpmap, RtpmapBody, CodecName, MapCodec;
    assert IsName("rtpmap") by { MoreNames(); }
    AttributeParsed("rtpmap", RtpmapBody(m), t, more, u);
    RtpmapFields(m, t, more);
    NextLineNow(more);
  }

  lemma MidRead(m: Media, t: Session, more: string, u: Unset)
    requires MediaLoose(m) && t.media != []
    ensures var k := |t.media| - 1;
      ParseFrom(t, Ended(MidLine(m)) + more, u) ==
      ParseFrom(t.(media := t.media[k := t.media[k].(mid := TrimEnd(m.mid))]), more, u)
  {
    hide ParseFrom, NextLine, CopyUntil, SkipChar, Field, TrimEnd;
    assert IsName("mid") by { MoreNames(); }
    AttributeParsed("mid", m.mid, t, more, u);
    var mid := TrimEnd(m.mid);
    LooseHere(m.mid, more, 32);
    assert mid[..Min(|mid|, 15)] == mid;
    NextLineNow(more);
  }

  lemma DirectionRead(m: Media, t: Session, more: string, u: Unset)
    ensures ParseFrom(t, Ended(DirectionLine(m)) + more, u) == ParseFrom(t, more, u)
  {
    hide ParseFrom;
    var name := if m.send then (if m.recv then "sendrecv" else "sendonly") else (if m.recv then "recvonly" else "inactive");
    assert "a=" + name == DirectionLine(m);
    FlagRead(name, t, more, u);
  }

  /** The media list after a block: the rtpmap line goes to the first media with its payload type. */
  function AfterBlock(media: seq<Media>, m: Media): (r: seq<Media>)
    ensures |r| == |media| + 1
  {
    var mapped := MapCodec(media + [Described(m)], m.payloadType, CodecName(m.codec), m.clockRate, ChannelsOf(m));
    mapped[|media| := mapped[|media|].(mid := TrimEnd(m.mid))]
  }

  lemma {:induction false} MidUntouched(media: seq<Media>, m: Media)
    ensures var mapped := MapCodec(media + [Described(m)], m.payloadType, CodecName(m.codec), m.clockRate, ChannelsOf(m));
      mapped[|media|].mid == ""
    decreases |media|
  {
    hide CodecNamed, CodecName;
    var all := media + [Described(m)];
    if media != [] {
      assert all[1..] == media[1..] + [Described(m)];
      if all[0].payloadType != m.payloadType {
        MidUntouched(media[1..], m);
      }
    }
  }

  /** The identification keeps all but spaces at its end. */
  predicate MediaLoose(m: Media) {
    Loose(m.mid) && |m.mid| < 16
  }

  predicate MediaClean(m: Media) {
    Field(m.mid) && |m.mid| < 16
  }

  lemma BlockRead(m: Media, t: Session, more: string, u: Unset)
    requires MediaLoose(m) && |t.media| < MAX_MEDIA
    ensures ParseFrom(t, MediaBlock(m) + more, u) == ParseFrom(t.(media := AfterBlock(t.media, m)), more, u)
  {
    hide ParseFrom, MediaLine, RtpmapLine, MidLine, DirectionLine, Ended, MapCodec, Described;
    var a, b, c := Ended(MediaLine(m)), Ended(RtpmapLine(m)), Optional(m.mid != "", MidLine(m));
    var d, e := Ended("a=rtcp-mux"), Ended(DirectionLine(m));
    Regroup(a, b + (c + (d + e)), more);
    Regroup(b, c + (d + e), more);
    Regroup(c, d + e, more);
    Regroup(d, e, more);
    var t1 := t.(media := t.media + [Described(m)]);
    var t2 := t.(media := MapCodec(t1.media, m.payloadType, CodecName(m.codec), m.clockRate, ChannelsOf(m)));
    var t3 := t.(media := AfterBlock(t.media, m));
    MediaLineRead(m, t, b + (c + (d + (e + more))), u);
    RtpmapRead(m, t1, c + (d + (e + more)), u);
    if m.mid != "" {
      MidRead(m, t2, d + (e + more), u);
    } else {
      MidUntouched(t.media, m);
      assert c + (d + (e + more)) == d + (e + more);
      assert t2.media == t3.media;
    }
    assert "a=" + "rtcp-mux" == "a=rtcp-mux";
    FlagRead("rtcp-mux", t3, e + more, u);
    DirectionRead(m, t3, more, u);
  }

  // ----- candidates -----

  predicate CandidateClean(c: Candidate) {
    Token(c.foundation) && Token(c.ip) && Token(c.kind) && Token(c.protocol) && CandidateHeld(c)
  }

  function NormalCandidate(c: Candidate): Candidate {
    c.(ipv6 := ':' in c.ip)
  }

  lemma CandidateSplit(a: string, b: string, c: string, d: string, e: string, f: string, end: string)
    ensures a + " 1 " + b + " " + c + " " + d + " " + e + " typ " + f + end ==
      a + (" " + ("1" + (" " + (b + (" " + (c + (" " + (d + (" " + (e + (" " + ("typ" + (" " + (f + end))))))))))))))
  {
    hide *;
    assert " 1 " == " " + "1" + " ";
    assert " typ " == " " + "typ" + " ";
  }

  lemma SmallTokens()
    ensures Token("1") && Token("typ")
  {
  }

  /** Eight words in a line, whatever they are. */
  lemma WordsSplit(f: CandidateFields, more: string)
    requires Token(f.foundation) && |f.foundation| < 32 && Token(f.component) && |f.component| < 16
    requires Token(f.protocol) && |f.protocol| < 16 && Token(f.priority) && |f.priority| < 32
    requires Token(f.ip) && |f.ip| < 64 && Token(f.port) && |f.port| < 16
    requires Token(f.tag) && |f.tag| < 32 && Token(f.kind) && |f.kind| < 32
    ensures SplitCandidate(
      f.foundation + (" " + (f.component + (" " + (f.protocol + (" " + (f.priority + (" " + (f.ip + (" " +
      (f.port + (" " + (f.tag + (" " + (f.kind + (CRLF + more)))))))))))))))) == f
  {
    hide CopyUntil, Token;
    var last := f.tag + (" " + (f.kind + (CRLF + more)));
    var address := f.ip + (" " + (f.port + (" " + last)));
    var middle := f.protocol + (" " + (f.priority + (" " + address)));
    TokenHere(f.foundation, f.component + (" " + middle), 32);
    TokenNext(f.component, middle, 16);
    TokenNext(f.protocol, f.priority + (" " + address), 16);
    TokenNext(f.priority, address, 32);
    TokenNext(f.ip, f.port + (" " + last), 64);
    TokenNext(f.port, last, 16);
    TokenNext(f.tag, f.kind + (CRLF + more), 32);
    TokenLast(f.kind, more, 32);
  }

  /**
   * A candidate line of any eight words is accepted exactly when component and port are numbers, the
   * priority is a number that is not zero or begins with a zero, and the seventh word is "typ"; the
   * component is not kept, port and priority are cut to their widths.
   */
  lemma CandidateExactly(f: CandidateFields, more: string)
    requires Token(f.foundation) && |f.foundation| < 32 && Token(f.component) && |f.component| < 16
    requires Token(f.protocol) && |f.protocol| < 16 && Token(f.priority) && |f.priority| < 32
    requires Token(f.ip) && |f.ip| < 64 && Token(f.port) && |f.port| < 16
    requires Token(f.tag) && |f.tag| < 32 && Token(f.kind) && |f.kind| < 32
    ensures var priority := ParseUint64(f.priority);
      ParseCandidate(
        f.foundation + (" " + (f.component + (" " + (f.protocol + (" " + (f.priority + (" " + (f.ip + (" " +
        (f.port + (" " + (f.tag + (" " + (f.kind + (CRLF + more)))))))))))))))) ==
      if ParseInt(f.component).Some? && ParseInt(f.port).Some? && f.tag == "typ"
         && (f.priority[0] == '0' || (priority.Some? && priority.value != 0))
      then Some(Candidate(f.foundation, (if priority.Some? then priority.value else 0) % 0x1_0000_0000, f.ip,
                          ParseInt(f.port).value % 0x1_0000, f.kind, f.protocol, ':' in f.ip))
      else None
  {
    hide SplitCandidate, ParseInt, ParseUint64;
    WordsSplit(f, more);
  }

  lemma CandidateFieldsRead(c: Candidate, more: string)
    requires CandidateClean(c)
    ensures SplitCandidate(
      c.foundation + (" " + ("1" + (" " + (c.protocol + (" " + (Decimal(c.priority) + (" " + (c.ip + (" " +
      (Decimal(c.port) + (" " + ("typ" + (" " + (c.kind + (CRLF + more)))))))))))))))) ==
      CandidateFields(
        c.foundation, "1", c.protocol, Decimal(c.priority), c.ip, Decimal(c.port), "typ", c.kind)
  {
    hide SplitCandidate, Decimal, Token;
    NumberLengths(0, c.priority, c.port, 0);
    DecimalIsToken(c.priority);
    DecimalIsToken(c.port);
    SmallTokens();
    WordsSplit(
      CandidateFields(c.foundation, "1", c.protocol, Decimal(c.priority), c.ip, Decimal(c.port), "typ", c.kind), more);
  }

  lemma NumbersRead(c: Candidate)
    ensures Priority(Decimal(c.priority)) == c.priority
    ensures c.priority == 0 ==> Decimal(c.priority)[0] == '0'
    ensures ParseInt(Decimal(c.port)) == Some(c.port) && ParseInt("1") == Some(1)
  {
    hide Scan, ParseUint64, ParseInt, Int;
    Uint64Alone(c.priority);
    IntAlone(c.port);
    IntAlone(1);
    OneAsInt();
    assert Int(c.port) == Decimal(c.port) by { PositiveInt(c.port); }
  }

  lemma PositiveInt(n: nat)
    ensures Int(n) == Decimal(n)
  {
  }

  lemma CandidateParsed(c: Candidate)
    requires CandidateClean(c)
    ensures ReadFields(
      CandidateFields(c.foundation, "1", c.protocol, Decimal(c.priority), c.ip, Decimal(c.port), "typ", c.kind)) ==
      Some(NormalCandidate(c))
  {
    hide Priority, ParseInt, Decimal;
    NumbersRead(c);
  }

  predicate AllInLine(s: string) {
    forall i :: 0 <= i < |s| ==> InLine(s[i])
  }

  lemma BodyInLine(c: Candidate)
    requires CandidateClean(c)
    ensures AllInLine(CandidateBody(c))
  {
    hide Decimal, Token;
    TokenInLine(c.foundation);
    TokenInLine(c.protocol);
    TokenInLine(c.ip);
    TokenInLine(c.kind);
    DecimalIsToken(c.priority);
    DecimalIsToken(c.port);
    TokenInLine(Decimal(c.priority));
    TokenInLine(Decimal(c.port));
  }

  lemma CandidateRead(c: Candidate, t: Session, more: string, u: Unset)
    requires CandidateClean(c) && |t.candidates| < MAX_CANDIDATES
    ensures ParseFrom(t, Ended(CandidateLine(c)) + more, u) ==
      ParseFrom(t.(candidates := t.candidates + [NormalCandidate(c)]), more, u)
  {
    hide ParseFrom, NextLine, CopyUntil, SkipChar, Field, SplitCandidate, ReadFields, Decimal, Token;
    assert IsName("candidate") by { MoreNames(); }
    var body := CandidateBody(c);
    AttributeParsed("candidate", body, t, more, u);
    CandidateSplit(c.foundation, c.protocol, Decimal(c.priority), c.ip, Decimal(c.port), c.kind, CRLF + more);
    CandidateFieldsRead(c, more);
    CandidateParsed(c);
    BodyInLine(c);
    NextLineOf(body, more);
  }
}
