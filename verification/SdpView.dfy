/**
 * The printed description as a peer reads it, line by line (RFC 8866): what this library prints and does
 * not read itself. src/signal/sdp_generator.c, lines 38 to 173.
 */
module SdpView {
  import opened Octets
  import opened Results
  import Packetizer
  import opened Text
  import opened Sdp
  import opened SdpGenerator
  import opened SdpRoundTrip

  // ----- lines and words -----

  /** Up to the first line end, and behind it. */
  function FirstLine(text: string): (r: (string, string))
    ensures |r.0| + |r.1| <= |text| && (text != "" ==> |r.1| < |text|)
  {
    var n := Span(InLine, text);
    (text[..n], if n + 2 <= |text| then text[n + 2..] else "")
  }

  function Lines(text: string): seq<string>
    decreases |text|
  {
    if text == "" then [] else [FirstLine(text).0] + Lines(FirstLine(text).1)
  }

  predicate NoSpace(c: char) {
    c != ' '
  }

  /** The runs of other characters between spaces. */
  function Words(text: string): seq<string>
    decreases |text|
  {
    if text == "" then []
    else if text[0] == ' ' then Words(text[1..])
    else
      var n := Span(NoSpace, text);
      [text[..n]] + Words(text[n..])
  }

  // ----- the reader -----

  /** `send` and `recv` as the direction line says, `mux` when RTCP shares the port. */
  datatype MediaView = MediaView(heading: seq<string>, direction: Option<(bool, bool)>, mux: bool)

  datatype View = View(group: Option<seq<string>>, trickle: bool, media: seq<MediaView>, candidates: seq<seq<string>>)

  /** The four directions of section 6.7 of RFC 8866. */
  function Direction(line: string): Option<(bool, bool)> {
    if line == "a=sendrecv" then Some((true, true))
    else if line == "a=sendonly" then Some((true, false))
    else if line == "a=recvonly" then Some((false, true))
    else if line == "a=inactive" then Some((false, false))
    else None
  }

  function Seen(v: View, line: string): View {
    if "m=" <= line then v.(media := v.media + [MediaView(Words(line[2..]), None, false)])
    else if "a=group:BUNDLE" <= line then v.(group := Some(Words(line[14..])))
    else if line == "a=ice-options:trickle" then v.(trickle := true)
    else if "a=candidate:" <= line then v.(candidates := v.candidates + [Words(line[12..])])
    else if v.media == [] then v
    else
      var k := |v.media| - 1;
      if Direction(line).Some? then v.(media := v.media[k := v.media[k].(direction := Direction(line))])
      else if line == "a=rtcp-mux" then v.(media := v.media[k := v.media[k].(mux := true)])
      else v
  }

  function SeenAll(v: View, lines: seq<string>): View
    decreases |lines|
  {
    if lines == [] then v else SeenAll(Seen(v, lines[0]), lines[1..])
  }

  function Viewed(text: string): View {
    SeenAll(View(None, false, [], []), Lines(text))
  }

  // ----- the printed lines -----

  function Printed(lines: seq<string>): string
    decreases |lines|
  {
    if lines == [] then "" else Ended(lines[0]) + Printed(lines[1..])
  }

  lemma {:induction false} PrintedAppend(a: seq<string>, b: seq<string>)
    ensures Printed(a + b) == Printed(a) + Printed(b)
    decreases |a|
  {
    if a == [] {
      assert a + b == b;
    } else {
      assert (a + b)[1..] == a[1..] + b;
      PrintedAppend(a[1..], b);
    }
  }

  lemma PrintedOne(line: string)
    ensures Printed([line]) == Ended(line) && Printed([]) == ""
  {
    assert [line][1..] == [];
  }

  lemma {:induction false} LinesOfPrinted(lines: seq<string>)
    requires forall l :: l in lines ==> AllInLine(l)
    ensures Lines(Printed(lines)) == lines
    decreases |lines|
  {
    hide Span, AllInLine;
    if lines != [] {
      LineSplit(lines[0], Printed(lines[1..]));
      LinesOfPrinted(lines[1..]);
    }
  }

  lemma LineSplit(line: string, more: string)
    requires AllInLine(line)
    ensures FirstLine(Ended(line) + more) == (line, more)
  {
    hide Span;
    var text := line + (CRLF + more);
    assert Ended(line) + more == text;
    SpanOf(InLine, line, CRLF + more);
    assert text[|line| + 2..] == more;
  }

  function Maybe(present: bool, line: string): seq<string> {
    if present then [line] else []
  }

  lemma PrintedMaybe(present: bool, line: string)
    ensures Printed(Maybe(present, line)) == Optional(present, line)
  {
    PrintedOne(line);
  }

  function FixedLines(s: Session): seq<string> {
    [VersionLine(s), OriginLine(s), NameLine(s), TimingLine(s)]
  }

  function SecurityLines(s: Session): seq<string> {
    Maybe(s.ufrag != "", UfragLine(s)) + Maybe(s.password != "", PasswordLine(s))
    + Maybe(s.fingerprint != "", FingerprintLine(s)) + Maybe(s.setup != "", SetupLine(s))
  }

  function GroupLines(s: Session): seq<string> {
    Maybe(Bundled(s.media), GroupLine(s.media)) + ["a=ice-options:trickle"]
  }

  function BlockLines(m: Media): seq<string> {
    [MediaLine(m), RtpmapLine(m)] + Maybe(m.mid != "", MidLine(m)) + ["a=rtcp-mux", DirectionLine(m)]
  }

  function MediaLines(media: seq<Media>): seq<string>
    decreases |media|
  {
    if media == [] then [] else BlockLines(media[0]) + MediaLines(media[1..])
  }

  function CandidateLines(candidates: seq<Candidate>): seq<string>
    decreases |candidates|
  {
    if candidates == [] then [] else [CandidateLine(candidates[0])] + CandidateLines(candidates[1..])
  }

  function AllLines(s: Session): seq<string> {
    FixedLines(s) + SecurityLines(s) + GroupLines(s) + MediaLines(s.media) + CandidateLines(s.candidates)
  }

  lemma PrintedFixed(s: Session)
    ensures Printed(FixedLines(s)) == FixedText(s)
  {
    hide VersionLine, OriginLine, NameLine, TimingLine, Ended;
    var a, b, c, d := [VersionLine(s)], [OriginLine(s)], [NameLine(s)], [TimingLine(s)];
    assert FixedLines(s) == a + (b + (c + d));
    PrintedAppend(a, b + (c + d));
    PrintedAppend(b, c + d);
    PrintedAppend(c, d);
    PrintedOne(VersionLine(s));
    PrintedOne(OriginLine(s));
    PrintedOne(NameLine(s));
    PrintedOne(TimingLine(s));
  }

  lemma PrintedSecurity(s: Session)
    ensures Printed(SecurityLines(s)) == SecurityText(s)
  {
    hide UfragLine, PasswordLine, FingerprintLine, SetupLine, Optional, Maybe;
    var a, b := Maybe(s.ufrag != "", UfragLine(s)), Maybe(s.password != "", PasswordLine(s));
    var c, d := Maybe(s.fingerprint != "", FingerprintLine(s)), Maybe(s.setup != "", SetupLine(s));
    assert SecurityLines(s) == a + (b + (c + d));
    PrintedAppend(a, b + (c + d));
    PrintedAppend(b, c + d);
    PrintedAppend(c, d);
    PrintedMaybe(s.ufrag != "", UfragLine(s));
    PrintedMaybe(s.password != "", PasswordLine(s));
    PrintedMaybe(s.fingerprint != "", FingerprintLine(s));
    PrintedMaybe(s.setup != "", SetupLine(s));
  }

  lemma PrintedGroup(s: Session)
    ensures Printed(GroupLines(s)) == GroupText(s)
  {
    hide GroupLine, Bundled, Optional, Maybe, Ended;
    PrintedAppend(Maybe(Bundled(s.media), GroupLine(s.media)), ["a=ice-options:trickle"]);
    PrintedMaybe(Bundled(s.media), GroupLine(s.media));
    PrintedOne("a=ice-options:trickle");
  }

  lemma PrintedBlock(m: Media)
    ensures Printed(BlockLines(m)) == MediaBlock(m)
  {
    hide MediaLine, RtpmapLine, MidLine, DirectionLine, Optional, Maybe, Ended;
    var a, b, c := [MediaLine(m)], [RtpmapLine(m)], Maybe(m.mid != "", MidLine(m));
    var d, e := ["a=rtcp-mux"], [DirectionLine(m)];
    assert BlockLines(m) == a + (b + (c + (d + e)));
    PrintedAppend(a, b + (c + (d + e)));
    PrintedAppend(b, c + (d + e));
    PrintedAppend(c, d + e);
    PrintedAppend(d, e);
    PrintedOne(MediaLine(m));
    PrintedOne(RtpmapLine(m));
    PrintedMaybe(m.mid != "", MidLine(m));
    PrintedOne("a=rtcp-mux");
    PrintedOne(DirectionLine(m));
  }

  lemma {:induction false} PrintedMedia(media: seq<Media>)
    ensures Printed(MediaLines(media)) == MediaText(media)
    decreases |media|
  {
    hide BlockLines, MediaBlock;
    if media != [] {
      PrintedAppend(BlockLines(media[0]), MediaLines(media[1..]));
      PrintedBlock(media[0]);
      PrintedMedia(media[1..]);
    }
  }

  lemma {:induction false} PrintedCandidates(candidates: seq<Candidate>)
    ensures Printed(CandidateLines(candidates)) == CandidateText(candidates)
    decreases |candidates|
  {
    hide CandidateLine, Ended;
    if candidates != [] {
      PrintedAppend([CandidateLine(candidates[0])], CandidateLines(candidates[1..]));
      PrintedOne(CandidateLine(candidates[0]));
      PrintedCandidates(candidates[1..]);
    }
  }

  lemma PrintedAll(s: Session)
    ensures Printed(AllLines(s)) == Generated(s)
  {
    hide FixedLines, SecurityLines, GroupLines, FixedText, SecurityText, GroupText;
    var a, b, c, d, e := FixedLines(s), SecurityLines(s), GroupLines(s), MediaLines(s.media), CandidateLines(s.candidates);
    assert AllLines(s) == a + (b + (c + (d + e)));
    PrintedAppend(a, b + (c + (d + e)));
    PrintedAppend(b, c + (d + e));
    PrintedAppend(c, d + e);
    PrintedAppend(d, e);
    PrintedFixed(s);
    PrintedSecurity(s);
    PrintedGroup(s);
    PrintedMedia(s.media);
    PrintedCandidates(s.candidates);
  }

  // ----- fields that stay in their lines -----

  predicate CandidateInLine(c: Candidate) {
    AllInLine(c.foundation) && AllInLine(c.protocol) && AllInLine(c.ip) && AllInLine(c.kind)
  }

  /** No field holds a line end. */
  predicate InLines(s: Session) {
    && AllInLine(s.username) && AllInLine(s.networkType) && AllInLine(s.addressType) && AllInLine(s.address)
    && AllInLine(s.name) && AllInLine(s.ufrag) && AllInLine(s.password)
    && AllInLine(s.fingerprintType) && AllInLine(s.fingerprint) && AllInLine(s.setup)
    && (forall m :: m in s.media ==> AllInLine(m.mid))
    && (forall c :: c in s.candidates ==> CandidateInLine(c))
  }

  lemma JoinedInLine(a: string, b: string)
    ensures AllInLine(a + b) <==> AllInLine(a) && AllInLine(b)
  {
    assert AllInLine(a + b) ==> forall i :: 0 <= i < |a| ==> a[i] == (a + b)[i];
    assert AllInLine(a + b) ==> forall i :: 0 <= i < |b| ==> b[i] == (a + b)[|a| + i];
  }

  lemma NumbersInLine(n: nat, v: int)
    ensures AllInLine(Decimal(n)) && AllInLine(Int(v))
  {
    hide Decimal, Int;
  }

  predicate Straight(lines: seq<string>) {
    forall l :: l in lines ==> AllInLine(l)
  }

  lemma FixedStraight(s: Session)
    requires InLines(s)
    ensures Straight(FixedLines(s))
  {
    hide AllInLine, Decimal, Int, OrElse;
    Literals();
    NumbersInLine(s.id, s.version);
    NumbersInLine(s.revision, 0);
    NumbersInLine(s.start, 0);
    NumbersInLine(s.stop, 0);
    OrElseInLine(s.username, "-");
    OrElseInLine(s.networkType, "IN");
    OrElseInLine(s.addressType, "IP4");
    OrElseInLine(s.address, "0.0.0.0");
    OrElseInLine(s.name, "-");
    JoinedInLine("v=", Int(s.version));
    JoinedInLine("s=", OrElse(s.name, "-"));
    Joined3("t=", Decimal(s.start), " ", Decimal(s.stop));
    var a, d, e := OrElse(s.username, "-"), OrElse(s.networkType, "IN"), OrElse(s.addressType, "IP4");
    var f := OrElse(s.address, "0.0.0.0");
    Joined3("o=", a, " ", Decimal(s.id));
    Joined3("o=" + a + " " + Decimal(s.id), " ", Decimal(s.revision), " ");
    Joined3("o=" + a + " " + Decimal(s.id) + " " + Decimal(s.revision) + " ", d, " ", e);
    JoinedInLine("o=" + a + " " + Decimal(s.id) + " " + Decimal(s.revision) + " " + d + " " + e, " ");
    JoinedInLine("o=" + a + " " + Decimal(s.id) + " " + Decimal(s.revision) + " " + d + " " + e + " ", f);
  }

  lemma OrElseInLine(text: string, default: string)
    requires AllInLine(text) && AllInLine(default)
    ensures AllInLine(OrElse(text, default))
  {
  }

  lemma Literals()
    ensures AllInLine("v=") && AllInLine("o=") && AllInLine("s=") && AllInLine("t=") && AllInLine("m=") && AllInLine("a=")
    ensures AllInLine(" ") && AllInLine("-") && AllInLine("IN") && AllInLine("IP4") && AllInLine("0.0.0.0")
    ensures AllInLine(":") && AllInLine("/") && AllInLine("/1") && AllInLine("BUNDLE") && AllInLine("")
  {
  }

  lemma Joined3(a: string, b: string, c: string, d: string)
    requires AllInLine(a) && AllInLine(b) && AllInLine(c) && AllInLine(d)
    ensures AllInLine(a + b + c + d)
  {
    JoinedInLine(a, b);
    JoinedInLine(a + b, c);
    JoinedInLine(a + b + c, d);
  }

  lemma AttributeInLine(name: string, value: string)
    requires AllInLine(name) && AllInLine(value)
    ensures AllInLine(AttributeLine(name, value))
  {
    hide AllInLine;
    Literals();
    Joined3("a=", name, ":", value);
  }

  lemma NamesInLine()
    ensures AllInLine("ice-ufrag") && AllInLine("ice-pwd") && AllInLine("fingerprint") && AllInLine("setup")
    ensures AllInLine("group") && AllInLine("mid") && AllInLine("rtpmap") && AllInLine("candidate")
    ensures AllInLine("a=ice-options:trickle") && AllInLine("a=rtcp-mux")
  {
  }

  lemma SecurityStraight(s: Session)
    requires InLines(s)
    ensures Straight(SecurityLines(s))
  {
    hide AllInLine, AttributeLine;
    Literals();
    NamesInLine();
    AttributeInLine("ice-ufrag", s.ufrag);
    AttributeInLine("ice-pwd", s.password);
    JoinedInLine(s.fingerprintType, " ");
    JoinedInLine(s.fingerprintType + " ", s.fingerprint);
    AttributeInLine("fingerprint", s.fingerprintType + " " + s.fingerprint);
    AttributeInLine("setup", s.setup);
  }

  lemma {:induction false} SpacedInLine(media: seq<Media>)
    requires forall m :: m in media ==> AllInLine(m.mid)
    ensures AllInLine(SpacedMids(media))
    decreases |media|
  {
    hide AllInLine;
    Literals();
    if media != [] {
      SpacedInLine(media[1..]);
      JoinedInLine(" ", media[0].mid);
      JoinedInLine(" " + media[0].mid, SpacedMids(media[1..]));
    }
  }

  lemma GroupStraight(s: Session)
    requires InLines(s)
    ensures Straight(GroupLines(s))
  {
    hide AllInLine, AttributeLine, Bundled;
    Literals();
    NamesInLine();
    SpacedInLine(s.media);
    JoinedInLine("BUNDLE", SpacedMids(s.media));
    AttributeInLine("group", "BUNDLE" + SpacedMids(s.media));
  }

  lemma BlockStraight(m: Media)
    requires AllInLine(m.mid)
    ensures Straight(BlockLines(m))
  {
    hide AllInLine, AttributeLine, Int, Decimal, RtpmapBody, MediaBody, DirectionLine;
    Literals();
    NamesInLine();
    MediaBodyInLine(m);
    JoinedInLine("m=", MediaBody(m));
    RtpmapInLine(m);
    AttributeInLine("rtpmap", RtpmapBody(m));
    AttributeInLine("mid", m.mid);
    DirectionInLine(m);
  }

  lemma DirectionInLine(m: Media)
    ensures AllInLine(DirectionLine(m))
  {
  }

  lemma MediaBodyInLine(m: Media)
    ensures AllInLine(MediaBody(m))
  {
    hide AllInLine, Int;
    Words4InLine();
    NumbersInLine(0, m.port);
    NumbersInLine(0, m.payloadType);
    Joined3(KindName(m.kind), " ", Int(m.port), " UDP/TLS/RTP/SAVPF ");
    JoinedInLine(KindName(m.kind) + " " + Int(m.port) + " UDP/TLS/RTP/SAVPF ", Int(m.payloadType));
  }

  lemma Words4InLine()
    ensures AllInLine("audio") && AllInLine("video") && AllInLine(" ") && AllInLine(" UDP/TLS/RTP/SAVPF ")
    ensures AllInLine(" 1 ") && AllInLine(" typ ")
  {
  }

  lemma RtpmapInLine(m: Media)
    ensures AllInLine(RtpmapBody(m))
  {
    hide AllInLine, Int, Decimal, CodecName;
    Literals();
    CodecInLine(m.codec);
    NumbersInLine(m.clockRate, m.payloadType);
    NumbersInLine(0, m.channels);
    JoinedInLine("/", Int(m.channels));
    Joined3(Int(m.payloadType), " ", CodecName(m.codec), "/");
    JoinedInLine(Int(m.payloadType) + " " + CodecName(m.codec) + "/", Decimal(m.clockRate));
    JoinedInLine(Int(m.payloadType) + " " + CodecName(m.codec) + "/" + Decimal(m.clockRate), ChannelSuffix(m));
  }

  lemma CodecInLine(c: Packetizer.Codec)
    ensures AllInLine(CodecName(c))
  {
  }

  lemma {:induction false} MediaStraight(media: seq<Media>)
    requires forall m :: m in media ==> AllInLine(m.mid)
    ensures Straight(MediaLines(media))
    decreases |media|
  {
    hide AllInLine, BlockLines;
    if media != [] {
      BlockStraight(media[0]);
      MediaStraight(media[1..]);
    }
  }

  lemma BodyInOneLine(c: Candidate)
    requires CandidateInLine(c)
    ensures AllInLine(CandidateBody(c))
  {
    hide AllInLine, Decimal;
    Words4InLine();
    NumbersInLine(c.priority, 0);
    NumbersInLine(c.port, 0);
    var a := c.foundation + " 1 " + c.protocol + " ";
    Joined3(c.foundation, " 1 ", c.protocol, " ");
    Joined3(a, Decimal(c.priority), " ", c.ip);
    var b := a + Decimal(c.priority) + " " + c.ip;
    Joined3(b, " ", Decimal(c.port), " typ ");
    JoinedInLine(b + " " + Decimal(c.port) + " typ ", c.kind);
  }

  lemma {:induction false} CandidatesStraight(candidates: seq<Candidate>)
    requires forall c :: c in candidates ==> CandidateInLine(c)
    ensures Straight(CandidateLines(candidates))
    decreases |candidates|
  {
    hide AllInLine, AttributeLine, CandidateBody;
    if candidates != [] {
      NamesInLine();
      BodyInOneLine(candidates[0]);
      AttributeInLine("candidate", CandidateBody(candidates[0]));
      CandidatesStraight(candidates[1..]);
    }
  }

  lemma LinesStraight(s: Session)
    requires InLines(s)
    ensures Straight(AllLines(s))
  {
    hide FixedLines, SecurityLines, GroupLines, MediaLines, CandidateLines, AllInLine;
    FixedStraight(s);
    SecurityStraight(s);
    GroupStraight(s);
    MediaStraight(s.media);
    CandidatesStraight(s.candidates);
  }

  /** Without line ends in its fields, the lines of the text are the printed ones. */
  lemma LinesOfGenerated(s: Session)
    requires InLines(s)
    ensures Lines(Generated(s)) == AllLines(s)
  {
    hide AllLines, Lines, Printed, AllInLine, Generated;
    LinesStraight(s);
    PrintedAll(s);
    LinesOfPrinted(AllLines(s));
  }

  // ----- what is seen -----

  lemma {:induction false} SeenAppend(v: View, a: seq<string>, b: seq<string>)
    ensures SeenAll(v, a + b) == SeenAll(SeenAll(v, a), b)
    decreases |a|
  {
    hide Seen;
    if a == [] {
      assert a + b == b;
    } else {
      assert (a + b)[1..] == a[1..] + b;
      SeenAppend(Seen(v, a[0]), a[1..], b);
    }
  }

  lemma SeenOne(v: View, line: string)
    ensures SeenAll(v, [line]) == Seen(v, line) && SeenAll(v, []) == v
  {
    hide Seen;
    assert [line][1..] == [];
  }

  lemma Differ(a: string, b: string, i: nat)
    requires i < |a| && i < |b| && a[i] != b[i]
    ensures a != b && !(a <= b)
  {
  }

  /** A line of another kind. */
  lemma OtherKind(v: View, line: string)
    requires line != "" && line[0] != 'm' && line[0] != 'a'
    ensures Seen(v, line) == v
  {
    Differ("m=", line, 0);
    Differ("a=group:BUNDLE", line, 0);
    Differ("a=candidate:", line, 0);
  }

  /** An attribute with another name. */
  lemma OtherName(v: View, name: string, value: string)
    requires name in {"ice-ufrag", "ice-pwd", "fingerprint", "setup", "rtpmap", "mid"}
    ensures Seen(v, AttributeLine(name, value)) == v
  {
    var line := AttributeLine(name, value);
    assert line[0] == 'a' && line[2] == name[0] && line[3] == name[1] && line[4] == name[2];
    Differ("m=", line, 0);
    Differ("a=group:BUNDLE", line, 2);
    Differ("a=candidate:", line, 2);
    if name[0] == 'i' {
      assert line[6] == name[4];
      Differ("a=ice-options:trickle", line, 6);
    } else {
      Differ("a=ice-options:trickle", line, 2);
    }
    NoDirection(line);
  }

  lemma NoDirection(line: string)
    requires |line| >= 5 && (line[2] != 's' || line[4] != 'n') && (line[2] != 'r' || line[3] != 'e')
    requires (line[2] != 'i' || line[3] != 'n') && (line[2] != 'r' || line[4] != 'c')
    ensures Direction(line).None? && line != "a=rtcp-mux"
  {
  }

  function ViewOf(m: Media): MediaView {
    MediaView(
      [if m.kind == Audio then "audio" else "video", Int(m.port), "UDP/TLS/RTP/SAVPF", Int(m.payloadType)],
      Some((m.send, m.recv)),
      true)
  }

  lemma MediaLineSeen(v: View, m: Media)
    ensures Seen(v, MediaLine(m)) == v.(media := v.media + [ViewOf(m).(direction := None, mux := false)])
  {
    hide Words, MediaBody;
    assert MediaLine(m)[..2] == "m=" && MediaLine(m)[2..] == MediaBody(m);
    HeadingWords(m);
  }

  predicate IsWord(w: string) {
    w != "" && forall i :: 0 <= i < |w| ==> w[i] != ' '
  }

  lemma WordThenSpace(w: string, more: string)
    requires IsWord(w)
    ensures Words(w + (" " + more)) == [w] + Words(more)
  {
    hide Span;
    SpanOf(NoSpace, w, " " + more);
    var text := w + (" " + more);
    assert text[..|w|] == w && text[|w|..] == " " + more;
    assert (" " + more)[1..] == more;
  }

  lemma LastWord(w: string)
    requires IsWord(w)
    ensures Words(w) == [w]
  {
    hide Span;
    SpanOf(NoSpace, w, "");
    assert w + "" == w && w[..|w|] == w && w[|w|..] == "";
  }

  lemma NumberWords(n: nat, v: int)
    ensures IsWord(Decimal(n)) && IsWord(Int(v))
  {
    hide Decimal, Int;
  }

  lemma FixedWords()
    ensures IsWord("audio") && IsWord("video") && IsWord("UDP/TLS/RTP/SAVPF") && IsWord("1") && IsWord("typ")
  {
  }

  lemma HeadingWords(m: Media)
    ensures Words(MediaBody(m)) == ViewOf(m).heading
  {
    hide Words, Int, IsWord;
    var proto := "UDP/TLS/RTP/SAVPF";
    FixedWords();
    NumberWords(0, m.port);
    NumberWords(0, m.payloadType);
    var d := Int(m.payloadType);
    var c, b := proto + (" " + d), Int(m.port) + (" " + (proto + (" " + d)));
    MediaSplit(m, "");
    assert d + "" == d;
    assert MediaBody(m) + "" == MediaBody(m);
    WordThenSpace(KindName(m.kind), b);
    WordThenSpace(Int(m.port), c);
    WordThenSpace(proto, d);
    LastWord(d);
  }

  lemma DirectionSeen(v: View, m: Media)
    requires v.media != []
    ensures var k := |v.media| - 1;
      Seen(v, DirectionLine(m)) == v.(media := v.media[k := v.media[k].(direction := Some((m.send, m.recv)))])
  {
    var line := DirectionLine(m);
    Differ("m=", line, 0);
    Differ("a=group:BUNDLE", line, 2);
    Differ("a=candidate:", line, 2);
    Differ("a=ice-options:trickle", line, 3);
  }

  lemma MuxSeen(v: View)
    requires v.media != []
    ensures var k := |v.media| - 1;
      Seen(v, "a=rtcp-mux") == v.(media := v.media[k := v.media[k].(mux := true)])
  {
    var line := "a=rtcp-mux";
    Differ("m=", line, 0);
    Differ("a=group:BUNDLE", line, 2);
    Differ("a=candidate:", line, 2);
    Differ("a=ice-options:trickle", line, 2);
  }

  lemma BlockSeen(v: View, m: Media)
    ensures SeenAll(v, BlockLines(m)) == v.(media := v.media + [ViewOf(m)])
  {
    hide Seen, SeenAll, MediaLine, DirectionLine, MidLine, RtpmapBody, ViewOf;
    var heading := [MediaLine(m)];
    var others := [RtpmapLine(m)] + Maybe(m.mid != "", MidLine(m));
    var last := ["a=rtcp-mux", DirectionLine(m)];
    assert BlockLines(m) == heading + (others + last);
    SeenAppend(v, heading, others + last);
    SeenOne(v, MediaLine(m));
    MediaLineSeen(v, m);
    var v1 := Seen(v, MediaLine(m));
    SeenAppend(v1, others, last);
    OthersSeen(v1, m);
    assert last == ["a=rtcp-mux"] + [DirectionLine(m)];
    SeenAppend(v1, ["a=rtcp-mux"], [DirectionLine(m)]);
    SeenOne(v1, "a=rtcp-mux");
    MuxSeen(v1);
    var v2 := Seen(v1, "a=rtcp-mux");
    SeenOne(v2, DirectionLine(m));
    DirectionSeen(v2, m);
    ViewParts(m);
  }

  lemma ViewParts(m: Media)
    ensures ViewOf(m).direction == Some((m.send, m.recv)) && ViewOf(m).mux
  {
  }

  lemma OthersSeen(v: View, m: Media)
    ensures SeenAll(v, [RtpmapLine(m)] + Maybe(m.mid != "", MidLine(m))) == v
  {
    hide Seen, SeenAll, AttributeLine, RtpmapBody;
    SeenAppend(v, [RtpmapLine(m)], Maybe(m.mid != "", MidLine(m)));
    SeenOne(v, RtpmapLine(m));
    OtherName(v, "rtpmap", RtpmapBody(m));
    SeenOne(v, MidLine(m));
    OtherName(v, "mid", m.mid);
  }

  function ViewsOf(media: seq<Media>): (r: seq<MediaView>)
    ensures |r| == |media| && forall k :: 0 <= k < |r| ==> r[k] == ViewOf(media[k])
  {
    seq(|media|, k requires 0 <= k < |media| => ViewOf(media[k]))
  }

  lemma ViewsCons(media: seq<Media>)
    requires media != []
    ensures ViewsOf(media) == [ViewOf(media[0])] + ViewsOf(media[1..])
  {
    hide ViewOf;
  }

  lemma {:induction false} MediaSeen(v: View, media: seq<Media>)
    ensures SeenAll(v, MediaLines(media)) == v.(media := v.media + ViewsOf(media))
    decreases |media|
  {
    hide BlockLines, ViewOf, Seen, SeenAll, ViewsOf;
    SeenOne(v, "");
    if media == [] {
      assert v.media + ViewsOf(media) == v.media;
    } else {
      SeenAppend(v, BlockLines(media[0]), MediaLines(media[1..]));
      BlockSeen(v, media[0]);
      MediaSeen(v.(media := v.media + [ViewOf(media[0])]), media[1..]);
      ViewsCons(media);
      Regroup(v.media, [ViewOf(media[0])], ViewsOf(media[1..]));
    }
  }

  function BodiesOf(candidates: seq<Candidate>): (r: seq<seq<string>>)
    ensures |r| == |candidates| && forall k :: 0 <= k < |r| ==> r[k] == Words(CandidateBody(candidates[k]))
  {
    seq(|candidates|, k requires 0 <= k < |candidates| => Words(CandidateBody(candidates[k])))
  }

  lemma CandidateSeen(v: View, c: Candidate)
    ensures Seen(v, CandidateLine(c)) == v.(candidates := v.candidates + [Words(CandidateBody(c))])
  {
    hide Words, CandidateBody;
    var line := CandidateLine(c);
    assert line[..12] == "a=candidate:" && line[12..] == CandidateBody(c);
    Differ("m=", line, 0);
    Differ("a=group:BUNDLE", line, 2);
    Differ("a=ice-options:trickle", line, 2);
  }

  lemma BodiesCons(candidates: seq<Candidate>)
    requires candidates != []
    ensures BodiesOf(candidates) == [Words(CandidateBody(candidates[0]))] + BodiesOf(candidates[1..])
  {
    hide Words, CandidateBody;
  }

  lemma {:induction false} CandidatesSeen(v: View, candidates: seq<Candidate>)
    ensures SeenAll(v, CandidateLines(candidates)) == v.(candidates := v.candidates + BodiesOf(candidates))
    decreases |candidates|
  {
    hide Seen, Words, CandidateBody, CandidateLine, SeenAll, BodiesOf;
    SeenOne(v, "");
    if candidates == [] {
      assert v.candidates + BodiesOf(candidates) == v.candidates;
    } else {
      var line, more := CandidateLine(candidates[0]), CandidateLines(candidates[1..]);
      SeenAppend(v, [line], more);
      SeenOne(v, line);
      CandidateSeen(v, candidates[0]);
      var first := [Words(CandidateBody(candidates[0]))];
      CandidatesSeen(v.(candidates := v.candidates + first), candidates[1..]);
      BodiesCons(candidates);
      Regroup(v.candidates, first, BodiesOf(candidates[1..]));
    }
  }

  lemma FixedSeen(v: View, s: Session)
    ensures SeenAll(v, FixedLines(s)) == v
  {
    hide Seen, OrElse, Decimal, Int;
    var a, b := [VersionLine(s)] + [OriginLine(s)], [NameLine(s)] + [TimingLine(s)];
    assert FixedLines(s) == a + b;
    SeenAppend(v, a, b);
    SeenAppend(v, [VersionLine(s)], [OriginLine(s)]);
    SeenAppend(v, [NameLine(s)], [TimingLine(s)]);
    SeenOne(v, VersionLine(s));
    SeenOne(v, OriginLine(s));
    SeenOne(v, NameLine(s));
    SeenOne(v, TimingLine(s));
    OtherKind(v, VersionLine(s));
    OriginFirst(s);
    OtherKind(v, OriginLine(s));
    OtherKind(v, NameLine(s));
    OtherKind(v, TimingLine(s));
  }

  lemma OriginFirst(s: Session)
    ensures OriginLine(s) != "" && OriginLine(s)[0] == 'o'
  {
    hide OrElse, Decimal;
    OriginForm(s);
  }

  lemma MaybeSeen(v: View, present: bool, name: string, value: string)
    requires name in {"ice-ufrag", "ice-pwd", "fingerprint", "setup", "rtpmap", "mid"}
    ensures SeenAll(v, Maybe(present, AttributeLine(name, value))) == v
  {
    hide Seen, AttributeLine;
    SeenOne(v, AttributeLine(name, value));
    OtherName(v, name, value);
  }

  lemma SecuritySeen(v: View, s: Session)
    ensures SeenAll(v, SecurityLines(s)) == v
  {
    hide Seen, SeenAll, AttributeLine, Maybe;
    var a, b := Maybe(s.ufrag != "", UfragLine(s)), Maybe(s.password != "", PasswordLine(s));
    var c, d := Maybe(s.fingerprint != "", FingerprintLine(s)), Maybe(s.setup != "", SetupLine(s));
    assert SecurityLines(s) == a + (b + (c + d));
    SeenAppend(v, a, b + (c + d));
    SeenAppend(v, b, c + d);
    SeenAppend(v, c, d);
    MaybeSeen(v, s.ufrag != "", "ice-ufrag", s.ufrag);
    MaybeSeen(v, s.password != "", "ice-pwd", s.password);
    MaybeSeen(v, s.fingerprint != "", "fingerprint", s.fingerprintType + " " + s.fingerprint);
    MaybeSeen(v, s.setup != "", "setup", s.setup);
  }

  lemma GroupLineSeen(v: View, media: seq<Media>)
    ensures Seen(v, GroupLine(media)) == v.(group := Some(Words(SpacedMids(media))))
  {
    hide Words, SpacedMids;
    var mids, line := SpacedMids(media), GroupLine(media);
    assert line[..14] == "a=group:BUNDLE" && line[14..] == mids;
    Differ("m=", line, 0);
  }

  lemma TrickleSeen(v: View)
    ensures Seen(v, "a=ice-options:trickle") == v.(trickle := true)
  {
    Differ("m=", "a=ice-options:trickle", 0);
    Differ("a=group:BUNDLE", "a=ice-options:trickle", 2);
  }

  lemma GroupSeen(v: View, s: Session)
    ensures SeenAll(v, GroupLines(s)) ==
      v.(trickle := true, group := if Bundled(s.media) then Some(Words(SpacedMids(s.media))) else v.group)
  {
    hide Words, SpacedMids, Bundled, Seen, SeenAll, GroupLine;
    var line := GroupLine(s.media);
    SeenAppend(v, Maybe(Bundled(s.media), line), ["a=ice-options:trickle"]);
    SeenOne(v, line);
    GroupLineSeen(v, s.media);
    var v1 := SeenAll(v, Maybe(Bundled(s.media), line));
    SeenOne(v1, "a=ice-options:trickle");
    TrickleSeen(v1);
  }

  /** Every media has an identification, and there is one. */
  predicate AllIdentified(media: seq<Media>) {
    |media| > 0 && forall m :: m in media ==> |m.mid| > 0
  }

  lemma BundledIs(media: seq<Media>)
    ensures Bundled(media) <==> AllIdentified(media)
  {
    if Bundled(media) {
      assert forall m :: m in media ==> exists i :: 0 <= i < |media| && media[i] == m;
    }
  }

  /**
   * What a peer sees in the text of any session whose fields hold no line end: trickling, every media
   * with its heading, its direction and the shared port, the group, and the candidates.
   */
  lemma GeneratedSeen(s: Session)
    requires InLines(s)
    ensures Viewed(Generated(s)) ==
      View(if AllIdentified(s.media) then Some(Words(SpacedMids(s.media))) else None,
           true, ViewsOf(s.media), BodiesOf(s.candidates))
  {
    hide FixedLines, SecurityLines, GroupLines, MediaLines, CandidateLines, Seen, SeenAll, Generated, InLines, Words,
      Bundled, AllIdentified, Lines;
    LinesOfGenerated(s);
    BundledIs(s.media);
    var v0 := View(None, false, [], []);
    var a, b, c, d, e := FixedLines(s), SecurityLines(s), GroupLines(s), MediaLines(s.media), CandidateLines(s.candidates);
    SeenAppend(v0, a + b + c + d, e);
    SeenAppend(v0, a + b + c, d);
    SeenAppend(v0, a + b, c);
    SeenAppend(v0, a, b);
    FixedSeen(v0, s);
    SecuritySeen(v0, s);
    GroupSeen(v0, s);
    var v1 := SeenAll(v0, c);
    MediaSeen(v1, s.media);
    assert [] + ViewsOf(s.media) == ViewsOf(s.media);
    CandidatesSeen(SeenAll(v1, d), s.candidates);
    assert [] + BodiesOf(s.candidates) == BodiesOf(s.candidates);
  }

  function Mids(media: seq<Media>): (r: seq<string>)
    ensures |r| == |media| && forall k :: 0 <= k < |r| ==> r[k] == media[k].mid
  {
    seq(|media|, k requires 0 <= k < |media| => media[k].mid)
  }

  /** The group names the media in their order. */
  lemma {:induction false} GroupWords(media: seq<Media>)
    requires forall m :: m in media ==> IsWord(m.mid)
    ensures Words(SpacedMids(media)) == Mids(media)
    decreases |media|
  {
    hide Span;
    if media != [] {
      var w, more := media[0].mid, media[1..];
      var text := SpacedMids(media);
      assert text == " " + (w + SpacedMids(more));
      assert text[1..] == w + SpacedMids(more);
      GroupWords(more);
      assert Mids(media) == [w] + Mids(more);
      if more == [] {
        assert w + SpacedMids(more) == w;
        LastWord(w);
      } else {
        var rest := more[0].mid + SpacedMids(more[1..]);
        assert SpacedMids(more) == " " + rest;
        assert Words(SpacedMids(more)) == Words(rest) by { assert (" " + rest)[1..] == rest; }
        WordThenSpace(w, rest);
      }
    }
  }

  /** The words of a candidate line, as section 5.1 of RFC 8839 orders them. */
  lemma CandidateWords(c: Candidate)
    requires IsWord(c.foundation) && IsWord(c.protocol) && IsWord(c.ip) && IsWord(c.kind)
    ensures Words(CandidateBody(c)) ==
      [c.foundation, "1", c.protocol, Decimal(c.priority), c.ip, Decimal(c.port), "typ", c.kind]
  {
    hide Words, Decimal, IsWord, CandidateBody;
    FixedWords();
    NumberWords(c.priority, 0);
    NumberWords(c.port, 0);
    CandidateSplit(c.foundation, c.protocol, Decimal(c.priority), c.ip, Decimal(c.port), c.kind, "");
    var g := c.kind;
    assert g + "" == g;
    var f := "typ" + (" " + g);
    var e := Decimal(c.port) + (" " + f);
    var d := c.ip + (" " + e);
    var b := Decimal(c.priority) + (" " + d);
    var a := c.protocol + (" " + b);
    BodyForm(c);
    WordThenSpace(c.foundation, "1" + (" " + a));
    WordThenSpace("1", a);
    WordThenSpace(c.protocol, b);
    WordThenSpace(Decimal(c.priority), d);
    WordThenSpace(c.ip, e);
    WordThenSpace(Decimal(c.port), f);
    WordThenSpace("typ", g);
    LastWord(g);
  }

  lemma BodyForm(c: Candidate)
    ensures CandidateBody(c) + "" ==
      c.foundation + " 1 " + c.protocol + " " + Decimal(c.priority) + " " + c.ip + " " + Decimal(c.port)
      + " typ " + c.kind + ""
    ensures CandidateBody(c) + "" == CandidateBody(c)
  {
    hide Decimal;
  }

  // ----- why the fields must stay in their lines -----

  /** The session with a line end and some text behind the last candidate. */
  function Broken(s: Session, extra: string): Session
    requires s.candidates != []
  {
    var k := |s.candidates| - 1;
    s.(candidates := s.candidates[k := s.candidates[k].(kind := s.candidates[k].kind + CRLF + extra)])
  }

  lemma {:induction false} CandidateTextSnoc(candidates: seq<Candidate>, c: Candidate)
    ensures CandidateText(candidates + [c]) == CandidateText(candidates) + Ended(CandidateLine(c))
    decreases |candidates|
  {
    hide CandidateLine, Ended;
    var all := candidates + [c];
    if candidates == [] {
      assert all[1..] == [] && CandidateText([]) == "";
    } else {
      assert all[1..] == candidates[1..] + [c];
      CandidateTextSnoc(candidates[1..], c);
    }
  }

  lemma BrokenLine(c: Candidate, extra: string)
    ensures Ended(CandidateLine(c.(kind := c.kind + CRLF + extra))) == Ended(CandidateLine(c)) + Ended(extra)
  {
    hide Decimal;
    assert CandidateBody(c.(kind := c.kind + CRLF + extra)) == CandidateBody(c) + CRLF + extra;
  }

  lemma BrokenText(s: Session, extra: string)
    requires s.candidates != []
    ensures Generated(Broken(s, extra)) == Generated(s) + Ended(extra)
  {
    hide FixedText, SecurityText, GroupText, MediaText, CandidateText, CandidateLine, Ended;
    var k := |s.candidates| - 1;
    var t := Broken(s, extra);
    assert s.candidates == s.candidates[..k] + [s.candidates[k]];
    assert t.candidates == s.candidates[..k] + [t.candidates[k]];
    CandidateTextSnoc(s.candidates[..k], s.candidates[k]);
    CandidateTextSnoc(s.candidates[..k], t.candidates[k]);
    BrokenLine(s.candidates[k], extra);
    assert FixedText(t) == FixedText(s) by { SameFixed(s, t); }
    assert SecurityText(t) == SecurityText(s) by { SameSecurity(s, t); }
    assert GroupText(t) == GroupText(s) by { SameGroup(s, t); }
  }

  lemma SameFixed(s: Session, t: Session)
    requires t == s.(candidates := t.candidates)
    ensures FixedText(t) == FixedText(s)
  {
  }

  lemma SameSecurity(s: Session, t: Session)
    requires t == s.(candidates := t.candidates)
    ensures SecurityText(t) == SecurityText(s)
  {
  }

  lemma SameGroup(s: Session, t: Session)
    requires t == s.(candidates := t.candidates)
    ensures GroupText(t) == GroupText(s)
  {
  }

  /** A line end in a field: what follows it is a line of its own, and the last direction is the one that counts. */
  lemma LineEndSeen(s: Session, extra: string)
    requires InLines(s) && s.candidates != [] && AllInLine(extra)
    ensures Viewed(Generated(Broken(s, extra))) == Seen(Viewed(Generated(s)), extra)
    ensures s.media != [] ==>
      var v := Viewed(Generated(Broken(s, "a=inactive")));
      |v.media| == |s.media| && v.media[|s.media| - 1].direction == Some((false, false))
  {
    hide Generated, Lines, Seen, Printed, InLines, AllInLine, AllLines, Broken;
    BrokenSeen(s, extra);
    if s.media != [] {
      assert AllInLine("a=inactive") by { InactiveInLine(); }
      BrokenSeen(s, "a=inactive");
      GeneratedSeen(s);
      InactiveSeen(Viewed(Generated(s)));
    }
  }

  lemma InactiveInLine()
    ensures AllInLine("a=inactive")
  {
  }

  lemma InactiveSeen(v: View)
    requires v.media != []
    ensures var k := |v.media| - 1;
      Seen(v, "a=inactive") == v.(media := v.media[k := v.media[k].(direction := Some((false, false)))])
  {
    var line := "a=inactive";
    Differ("m=", line, 0);
    Differ("a=group:BUNDLE", line, 2);
    Differ("a=candidate:", line, 2);
    Differ("a=ice-options:trickle", line, 3);
  }

  lemma BrokenSeen(s: Session, extra: string)
    requires InLines(s) && s.candidates != [] && AllInLine(extra)
    ensures Viewed(Generated(Broken(s, extra))) == Seen(Viewed(Generated(s)), extra)
  {
    hide Generated, Lines, Seen, Printed, InLines, AllInLine, AllLines, Broken, SeenAll;
    var lines := AllLines(s);
    LinesStraight(s);
    BrokenText(s, extra);
    PrintedAll(s);
    PrintedAppend(lines, [extra]);
    PrintedOne(extra);
    LinesOfPrinted(lines);
    LinesOfPrinted(lines + [extra]);
    SeenAppend(View(None, false, [], []), lines, [extra]);
    SeenOne(Viewed(Generated(s)), extra);
  }
}
