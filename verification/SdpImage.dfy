/**
 * What a parsed session can hold, whatever the text: src/signal/sdp_parser.c, lines 48 to 468.
 */
module SdpImage {
  import opened Octets
  import opened Results
  import opened Packetizer
  import opened Text
  import opened Sdp
  import SdpGenerator
  import opened SdpParser
  import opened SdpRoundTrip

  predicate CandidateReadable(c: Candidate) {
    Token(c.foundation) && Token(c.ip) && Token(c.kind) && Token(c.protocol) && CandidateHeld(c)
  }

  predicate OriginReadable(s: Session) {
    Blankable(s.username) && Blankable(s.networkType) && Blankable(s.addressType) && Field(s.address)
  }

  predicate AttributesReadable(s: Session) {
    && Field(s.ufrag) && Field(s.password) && Field(s.setup)
    && Blankable(s.fingerprintType) && Loose(s.fingerprint)
  }

  predicate ListsReadable(s: Session) {
    && (forall i :: 0 <= i < |s.media| ==> Loose(s.media[i].mid))
    && (forall i :: 0 <= i < |s.candidates| ==> CandidateReadable(s.candidates[i]))
  }

  predicate Readable(s: Session) {
    Held(s) && OriginReadable(s) && Field(s.name) && AttributesReadable(s) && ListsReadable(s)
  }

  lemma StoredToken(s: string, room: nat)
    requires room >= 2
    ensures Blankable(CopyUntil(s, room, ' ').text)
  {
    hide CopyUntil;
    Stored(s, room, ' ');
  }

  lemma FingerprintReadable(s: string)
    ensures var (kind, fingerprint) := ParseFingerprint(s);
      && Blankable(kind) && |kind| < 16
      && (fingerprint.Some? ==> Loose(fingerprint.value) && |fingerprint.value| < 128)
  {
    hide CopyUntil, Span, SkipBlank;
    StoredToken(s, 16);
    var kind := CopyUntil(s, 16, ' ');
    NoBlankFirst(kind.rest);
  }

  lemma ParsedCandidateReadable(s: string)
    ensures var c := ParseCandidate(s);
      c.Some? ==> CandidateReadable(c.value)
  {
    hide CopyUntil, ParseInt, Priority, Token;
    var f := SplitCandidate(s);
    SplitReadable(s);
    assert Token("udp") by { UdpIsToken(); }
  }

  lemma UdpIsToken()
    ensures Token("udp")
  {
  }

  lemma SplitReadable(s: string)
    ensures var f := SplitCandidate(s);
      Blankable(f.foundation) && Blankable(f.protocol) && Blankable(f.ip) && Blankable(f.kind)
  {
    hide CopyUntil, Blankable;
    var component := CopyUntil(CopyUntil(s, 32, ' ').rest, 16, ' ');
    var priority := CopyUntil(CopyUntil(component.rest, 16, ' ').rest, 32, ' ');
    var port := CopyUntil(CopyUntil(priority.rest, 64, ' ').rest, 16, ' ');
    StoredToken(s, 32);
    StoredToken(component.rest, 16);
    StoredToken(priority.rest, 64);
    StoredToken(CopyUntil(port.rest, 32, ' ').rest, 32);
  }

  lemma {:induction false} MidsKept(media: seq<Media>, payloadType: int32, name: string, clock: uint32, channels: int32)
    ensures forall i :: 0 <= i < |media| ==> MapCodec(media, payloadType, name, clock, channels)[i].mid == media[i].mid
    decreases |media|
  {
    hide CodecNamed;
    if media != [] {
      MidsKept(media[1..], payloadType, name, clock, channels);
    }
  }

  lemma RtpmapReadable(s: Session, p: string)
    requires Readable(s)
    ensures Readable(Rtpmap(s, p).session)
  {
    hide CopyUntil, ParseInt, ParseEncoding, MapCodec, Span, SkipChar, OriginReadable, AttributesReadable, CandidateReadable,
      Field, Loose;
    var payloadType := ParseInt(p);
    if payloadType.Some? {
      var name := CopyUntil(SkipChar(p[Span(BeforeSpace, p)..], ' '), 64, '/');
      var params := CopyUntil(SkipChar(name.rest, '/'), 64, '\n');
      var encoding := ParseEncoding(params.text);
      MidsKept(s.media, payloadType.value, name.text, encoding.clock, encoding.channels);
      assert Rtpmap(s, p).session ==
        s.(media := MapCodec(s.media, payloadType.value, name.text, encoding.clock, encoding.channels));
      SameButMedia(s, Rtpmap(s, p).session);
    }
  }

  lemma SameButMedia(s: Session, t: Session)
    requires Readable(s) && t == s.(media := t.media) && |t.media| <= MAX_MEDIA
    requires forall i :: 0 <= i < |t.media| ==> Loose(t.media[i].mid) && |t.media[i].mid| < 16
    ensures Readable(t)
  {
    hide Field, Loose, CandidateReadable, Blankable;
  }

  lemma CutIsLoose(f: string, n: nat)
    requires Field(f)
    ensures Loose(f[..Min(|f|, n)]) && |f[..Min(|f|, n)]| <= n
  {
  }

  lemma MidReadable(s: Session, p: string)
    requires Readable(s) && s.media != []
    ensures Readable(WithMid(s, CopyUntil(p, 32, '\n').text))
  {
    hide CopyUntil, Field, Loose;
    Stored(p, 32, '\n');
    var mid := CopyUntil(p, 32, '\n').text;
    CutIsLoose(mid, 15);
    SameButMedia(s, WithMid(s, mid));
  }

  lemma OneMoreCandidate(s: Session, c: Candidate)
    requires Readable(s) && CandidateReadable(c) && |s.candidates| < MAX_CANDIDATES
    ensures Readable(s.(candidates := s.candidates + [c]))
  {
    hide Field, Blankable, Loose, Token, CandidateHeld;
  }

  /** An attribute that is copied to the end of its line. */
  lemma FieldReadable(s: Session, p: string, room: nat)
    requires Readable(s) && room >= 2
    ensures var f := CopyUntil(p, room, '\n').text;
      && (room <= 64 ==> Readable(s.(ufrag := f))) && (room <= 128 ==> Readable(s.(password := f)))
      && (room <= 16 ==> Readable(s.(setup := f))) && (room <= 256 ==> Readable(s.(name := f)))
  {
    hide CopyUntil, Field, Blankable, Loose, CandidateReadable;
    Stored(p, room, '\n');
  }

  lemma FingerprintKept(s: Session, p: string)
    requires Readable(s)
    ensures var (kind, fingerprint) := ParseFingerprint(p);
      Readable(s.(fingerprintType := kind,
                  fingerprint := if fingerprint.Some? then fingerprint.value else s.fingerprint))
  {
    hide ParseFingerprint, Field, Blankable, Loose, CandidateReadable;
    FingerprintReadable(p);
  }

  lemma AttributeReadable(s: Session, p: string)
    requires Readable(s)
    ensures Readable(Attribute(s, p).session)
  {
    hide CopyUntil, ParseCandidate, ParseFingerprint, Rtpmap, SkipChar, WithMid, Readable, CandidateReadable;
    var name := CopyUntil(p, 64, ':');
    var v := SkipChar(name.rest, ':');
    FieldReadable(s, v, 64);
    FieldReadable(s, v, 128);
    FieldReadable(s, v, 16);
    FingerprintKept(s, v);
    ParsedCandidateReadable(v);
    var c := ParseCandidate(v);
    if c.Some? && |s.candidates| < MAX_CANDIDATES {
      OneMoreCandidate(s, c.value);
    }
    RtpmapReadable(s, v);
    if s.media != [] {
      MidReadable(s, v);
    }
  }

  lemma MediaReadable(s: Session, p: string)
    requires Readable(s)
    ensures Readable(MediaDescription(s, p).session)
  {
    hide CopyUntil, ScanPayload, Atoi, OriginReadable, AttributesReadable, CandidateReadable, Field;
    SameButMedia(s, MediaDescription(s, p).session);
  }

  lemma ParsedOriginReadable(s: Session, p: string, u: Unset)
    requires Readable(s)
    ensures Readable(Origin(s, p, u).session)
  {
    hide CopyUntil, Value64, Readable, Field, Blankable;
    var username := CopyUntil(p, 256, ' ');
    var revision := CopyUntil(CopyUntil(username.rest, 64, ' ').rest, 64, ' ');
    var networkType := CopyUntil(revision.rest, 16, ' ');
    var addressType := CopyUntil(networkType.rest, 16, ' ');
    StoredToken(p, 256);
    StoredToken(revision.rest, 16);
    StoredToken(networkType.rest, 16);
    Stored(addressType.rest, 64, '\n');
    OtherOrigin(s, Origin(s, p, u).session);
  }

  lemma OtherOrigin(s: Session, t: Session)
    requires Readable(s) && OriginReadable(t)
    requires |t.username| < 256 && |t.networkType| < 16 && |t.addressType| < 16 && |t.address| < 64
    requires t == s.(username := t.username, id := t.id, revision := t.revision,
                     networkType := t.networkType, addressType := t.addressType, address := t.address)
    ensures Readable(t)
  {
    hide OriginReadable, Field, Blankable, Loose, CandidateReadable;
  }

  /** Whatever a line says, the session stays readable. */
  lemma LineReadable(kind: char, s: Session, p: string, u: Unset)
    requires Readable(s)
    ensures Readable(Line(kind, s, p, u).session)
  {
    hide CopyUntil, ParseInt, Origin, Timing, Attribute, MediaDescription, Readable;
    OtherNumbers(s, ParseInt(p));
    ParsedOriginReadable(s, p, u);
    FieldReadable(s, p, 256);
    TimingReadable(s, p);
    AttributeReadable(s, p);
    MediaReadable(s, p);
  }

  lemma OtherNumbers(s: Session, n: Option<int32>)
    requires Readable(s)
    ensures n.Some? ==> Readable(s.(version := n.value))
  {
    hide Field, Blankable, Loose, CandidateReadable;
  }

  lemma TimingReadable(s: Session, p: string)
    requires Readable(s)
    ensures Readable(Timing(s, p).session)
  {
    hide CopyUntil, Value64, Field, Blankable, Loose, CandidateReadable;
  }

  lemma {:induction false} ParsedReadable(s: Session, p: string, u: Unset)
    requires Readable(s)
    ensures var r := ParseFrom(s, p, u);
      r.Some? ==> Readable(r.value)
    decreases |p|
  {
    hide Line, FindEol, NextLine, Readable, ParseFrom;
    if p == "" {
      ParseEnd(s, u);
    } else {
      ParseStep(s, p, u);
      if !InLine(p[0]) {
        ParsedReadable(s, p[1..], u);
      } else if |p| < 2 || p[1] != '=' {
        var e := FindEol(p[1..]);
        if e != "" {
          ParsedReadable(s, e[1..], u);
        }
      } else {
        var r := Line(p[0], s, p[2..], u);
        LineReadable(p[0], s, p[2..], u);
        ParsedReadable(r.session, NextLine(r.rest), u);
      }
    }
  }

  /** Whatever the text, what was parsed is readable. */
  lemma OutcomeReadable(text: string, u: Unset)
    ensures var r := ParseText(text, u);
      r.Parsed? ==> Readable(r.session)
  {
    hide ParseFrom;
    ParsedReadable(EMPTY, text, u);
  }

  // ----- where the cursor can end -----

  lemma CopyRest(s: string, room: nat, separator: char)
    requires room >= 2
    ensures IsSuffix(CopyUntil(s, room, separator).rest, s)
  {
    hide Span, TrimEnd, IsSuffix;
    var t := s[Span(IsBlank, s)..];
    DropIsSuffix(s, Span(IsBlank, s));
    DropIsSuffix(t, Span(Inside(separator), t));
    SuffixOfSuffix(t[Span(Inside(separator), t)..], t, s);
  }

  lemma CopyOfSuffix(p: string, s: string, room: nat, separator: char)
    requires room >= 2 && IsSuffix(p, s)
    ensures IsSuffix(CopyUntil(p, room, separator).rest, s)
  {
    hide CopyUntil, IsSuffix;
    CopyRest(p, room, separator);
    SuffixOfSuffix(CopyUntil(p, room, separator).rest, p, s);
  }

  lemma SkipOfSuffix(p: string, s: string, c: char)
    requires IsSuffix(p, s)
    ensures IsSuffix(SkipChar(p, c), s)
  {
    if p != "" {
      DropIsSuffix(p, 1);
      SuffixOfSuffix(p[1..], p, s);
    }
  }

  lemma DropOfSuffix(p: string, s: string, n: nat)
    requires IsSuffix(p, s) && n <= |p|
    ensures IsSuffix(p[n..], s)
  {
    DropIsSuffix(p, n);
    SuffixOfSuffix(p[n..], p, s);
  }

  lemma SelfSuffix(s: string)
    ensures IsSuffix(s, s)
  {
  }

  lemma OriginRest(s: Session, p: string, u: Unset)
    ensures IsSuffix(Origin(s, p, u).rest, p)
  {
    hide CopyUntil, IsSuffix, Value64;
    var username := CopyUntil(p, 256, ' ');
    var id := CopyUntil(username.rest, 64, ' ');
    var revision := CopyUntil(id.rest, 64, ' ');
    var networkType := CopyUntil(revision.rest, 16, ' ');
    var addressType := CopyUntil(networkType.rest, 16, ' ');
    CopyRest(p, 256, ' ');
    CopyOfSuffix(username.rest, p, 64, ' ');
    CopyOfSuffix(id.rest, p, 64, ' ');
    CopyOfSuffix(revision.rest, p, 16, ' ');
    CopyOfSuffix(networkType.rest, p, 16, ' ');
    CopyOfSuffix(addressType.rest, p, 64, '\n');
  }

  lemma MediaRest(s: Session, p: string)
    ensures IsSuffix(MediaDescription(s, p).rest, p)
  {
    hide CopyUntil, IsSuffix, NewMedia, Atoi, Scan, Long, ToInt32;
    SelfSuffix(p);
    var kind := CopyUntil(p, 16, ' ');
    var port := CopyUntil(kind.rest, 16, ' ');
    var proto := CopyUntil(port.rest, 16, ' ');
    CopyRest(p, 16, ' ');
    CopyOfSuffix(kind.rest, p, 16, ' ');
    CopyOfSuffix(port.rest, p, 16, ' ');
    ScanLeavesSuffix(proto.rest);
    var x := Scan(proto.rest);
    if x.Some? {
      SuffixOfSuffix(x.value.rest, proto.rest, p);
    }
  }

  lemma RtpmapRest(s: Session, p: string)
    ensures IsSuffix(Rtpmap(s, p).rest, p)
  {
    hide CopyUntil, IsSuffix, ParseInt, ParseEncoding, MapCodec, Span, SkipChar;
    SelfSuffix(p);
    var q := p[Span(BeforeSpace, p)..];
    DropIsSuffix(p, Span(BeforeSpace, p));
    SkipOfSuffix(q, p, ' ');
    var name := CopyUntil(SkipChar(q, ' '), 64, '/');
    CopyOfSuffix(SkipChar(q, ' '), p, 64, '/');
    SkipOfSuffix(name.rest, p, '/');
    CopyOfSuffix(SkipChar(name.rest, '/'), p, 64, '\n');
  }

  lemma AttributeRest(s: Session, p: string)
    ensures IsSuffix(Attribute(s, p).rest, p)
  {
    hide CopyUntil, IsSuffix, ParseCandidate, ParseFingerprint, Rtpmap, SkipChar, WithMid;
    var name := CopyUntil(p, 64, ':');
    CopyRest(p, 64, ':');
    SkipOfSuffix(name.rest, p, ':');
    var v := SkipChar(name.rest, ':');
    CopyOfSuffix(v, p, 64, '\n');
    CopyOfSuffix(v, p, 128, '\n');
    CopyOfSuffix(v, p, 16, '\n');
    CopyOfSuffix(v, p, 32, '\n');
    RtpmapRest(s, v);
    SuffixOfSuffix(Rtpmap(s, v).rest, v, p);
  }

  lemma LineRest(kind: char, s: Session, p: string, u: Unset)
    ensures IsSuffix(Line(kind, s, p, u).rest, p)
  {
    hide CopyUntil, IsSuffix, ParseInt, Origin, Attribute, MediaDescription, Value64, Span;
    SelfSuffix(p);
    DropIsSuffix(p, Span(InLine, p));
    OriginRest(s, p, u);
    CopyRest(p, 256, '\n');
    CopyRest(p, 64, ' ');
    CopyOfSuffix(CopyUntil(p, 64, ' ').rest, p, 64, '\n');
    AttributeRest(s, p);
    MediaRest(s, p);
  }

  /** Nothing is left, or the last character ends a line. */
  predicate Terminated(p: string) {
    p == "" || !InLine(p[|p| - 1])
  }

  lemma SuffixTerminated(p: string, s: string)
    requires IsSuffix(p, s) && Terminated(s)
    ensures Terminated(p)
  {
    if p != "" {
      assert p[|p| - 1] == s[|s| - |p|..][|p| - 1];
    }
  }

  lemma NextRest(p: string)
    ensures IsSuffix(NextLine(p), p)
  {
    hide Span, IsSuffix;
    var e := FindEol(p);
    DropIsSuffix(p, Span(InLine, p));
    if e != "" {
      DropOfSuffix(e, p, 1);
      SkipOfSuffix(e[1..], p, '\n');
    } else {
      DropIsSuffix(p, |p|);
    }
  }

  lemma SpanBefore(p: string, i: nat)
    requires i < |p| && !InLine(p[i])
    ensures Span(InLine, p) <= i
  {
  }

  lemma EolRest(p: string)
    requires p != "" && Terminated(p)
    ensures var e := FindEol(p); e != "" && Terminated(e[1..])
  {
    hide Span;
    var n := Span(InLine, p);
    SpanBefore(p, |p| - 1);
    DropIsSuffix(p, n + 1);
    SuffixTerminated(p[n + 1..], p);
    assert p[n..][1..] == p[n + 1..];
  }

  lemma {:induction false} TerminatedParses(s: Session, p: string, u: Unset)
    requires Terminated(p)
    ensures ParseFrom(s, p, u).Some?
    decreases |p|
  {
    hide Line, FindEol, NextLine, ParseFrom, IsSuffix;
    if p == "" {
      ParseEnd(s, u);
    } else {
      ParseStep(s, p, u);
      if !InLine(p[0]) {
        DropIsSuffix(p, 1);
        SuffixTerminated(p[1..], p);
        TerminatedParses(s, p[1..], u);
      } else if |p| < 2 || p[1] != '=' {
        DropIsSuffix(p, 1);
        SuffixTerminated(p[1..], p);
        EolRest(p[1..]);
        TerminatedParses(s, FindEol(p[1..])[1..], u);
      } else {
        var r := Line(p[0], s, p[2..], u);
        LineRest(p[0], s, p[2..], u);
        DropIsSuffix(p, 2);
        SuffixOfSuffix(r.rest, p[2..], p);
        NextRest(r.rest);
        SuffixOfSuffix(NextLine(r.rest), r.rest, p);
        SuffixTerminated(NextLine(r.rest), p);
        TerminatedParses(r.session, NextLine(r.rest), u);
      }
    }
  }

  /** The cursor never leaves a text whose last character ends a line; it leaves one that is a single letter. */
  lemma NeverBeyond(text: string, u: Unset)
    ensures Terminated(text) ==> ParseText(text, u).Parsed?
    ensures ParseText("v", u) == Fault
  {
    hide ParseFrom;
    if Terminated(text) {
      TerminatedParses(EMPTY, text, u);
    }
    ParseStep(EMPTY, "v", u);
    assert "v"[1..] == "";
  }

  // ----- lines without effect -----

  /** A third media line, a 33rd candidate, and an identification without a media are passed over. */
  lemma NoRoom(m: Media, c: Candidate, t: Session, more: string, u: Unset)
    requires CandidateClean(c) && MediaLoose(m)
    ensures |t.media| >= 2 ==>
      ParseFrom(t, SdpGenerator.Ended(SdpGenerator.MediaLine(m)) + more, u) == ParseFrom(t, more, u)
    ensures |t.candidates| >= 32 ==>
      ParseFrom(t, SdpGenerator.Ended(SdpGenerator.CandidateLine(c)) + more, u) == ParseFrom(t, more, u)
    ensures t.media == [] ==>
      ParseFrom(t, SdpGenerator.Ended(SdpGenerator.MidLine(m)) + more, u) == ParseFrom(t, more, u)
  {
    hide ParseFrom, Token;
    if |t.media| >= 2 {
      ThirdMedia(m, t, more, u);
    }
    if |t.candidates| >= 32 {
      BodyInLine(c);
      PassedOver("candidate", SdpGenerator.CandidateBody(c), t, more, u);
    }
    if t.media == [] {
      PassedOver("mid", m.mid, t, more, u);
    }
  }

  lemma ThirdMedia(m: Media, t: Session, more: string, u: Unset)
    requires |t.media| >= 2
    ensures ParseFrom(t, SdpGenerator.Ended(SdpGenerator.MediaLine(m)) + more, u) == ParseFrom(t, more, u)
  {
    hide ParseFrom, NextLine, SdpGenerator.MediaBody;
    var body := SdpGenerator.MediaBody(m);
    LineParsed('m', body, more, t, u);
    assert ['m'] + "=" + body == SdpGenerator.MediaLine(m);
    HeadingInLine(m);
    NextLineOf(body, more);
  }

  lemma HeadingInLine(m: Media)
    ensures AllInLine(SdpGenerator.MediaBody(m))
  {
    hide Int;
    assert forall i :: 0 <= i < |Int(m.port)| ==> InLine(Int(m.port)[i]);
    assert forall i :: 0 <= i < |Int(m.payloadType)| ==> InLine(Int(m.payloadType)[i]);
  }

  lemma PassedOver(name: string, value: string, t: Session, more: string, u: Unset)
    requires AllInLine(value)
    requires (name == "candidate" && |t.candidates| >= 32) || (name == "mid" && t.media == [])
    ensures ParseFrom(t, SdpGenerator.Ended(SdpGenerator.AttributeLine(name, value)) + more, u) == ParseFrom(t, more, u)
  {
    hide ParseFrom, NextLine, CopyUntil, SkipChar, ParseCandidate, ParseFingerprint, Rtpmap, WithMid,
      SdpGenerator.AttributeLine, SdpGenerator.Ended;
    MoreNames();
    AttributeParsed(name, value, t, more, u);
    var tail := ":" + (value + (CRLF + more));
    assert Attribute(t, name + tail) == Reading(t, tail);
    assert tail == (":" + value) + (CRLF + more);
    NextLineOf(":" + value, more);
  }

  // ----- tables -----

  /** Letter by letter a capital of the name or its small letter. */
  predicate SpellsName(text: string, name: string) {
    |text| == |name| && forall i :: 0 <= i < |name| ==>
      text[i] == name[i] || ('A' <= name[i] <= 'Z' && text[i] as int == name[i] as int + 32)
  }

  /** A codec is recognised by its name in any case of letters, and by nothing else. */
  lemma CodecByName(text: string, c: Codec)
    ensures CodecNamed(text) == Some(c) <==>
      SpellsName(text, match c case H264 => "H264" case OPUS => "OPUS" case PCMA => "PCMA" case PCMU => "PCMU" case G722 => "G722")
  {
    hide SameIgnoringCase, SpellsName;
    AnyCase(text, "H264");
    AnyCase(text, "OPUS");
    AnyCase(text, "PCMA");
    AnyCase(text, "PCMU");
    AnyCase(text, "G722");
    OneName(text, "H264", "OPUS", 0);
    OneName(text, "H264", "PCMA", 0);
    OneName(text, "H264", "PCMU", 0);
    OneName(text, "H264", "G722", 0);
    OneName(text, "OPUS", "PCMA", 0);
    OneName(text, "OPUS", "PCMU", 0);
    OneName(text, "OPUS", "G722", 0);
    OneName(text, "PCMA", "PCMU", 3);
    OneName(text, "PCMA", "G722", 0);
    OneName(text, "PCMU", "G722", 0);
  }

  lemma OneName(text: string, a: string, b: string, i: nat)
    requires i < |a| == |b| && 'A' <= a[i] <= 'Z' && 'A' <= b[i] <= 'Z' && a[i] != b[i]
    ensures !(SpellsName(text, a) && SpellsName(text, b))
  {
  }

  lemma AnyCase(text: string, name: string)
    requires forall i :: 0 <= i < |name| ==> 'A' <= name[i] <= 'Z' || '0' <= name[i] <= '9'
    ensures SameIgnoringCase(text, name) <==> SpellsName(text, name)
  {
  }

  /** A media line by itself: the static payload types, and those this library prefers, have a codec already. */
  lemma PayloadTypes(m: Media, t: Session, more: string, u: Unset)
    requires |t.media| < 2
    ensures var media := Media(m.kind, m.port, 0, m.payloadType,
        if m.payloadType == 0 then PCMU else if m.payloadType == 8 then PCMA else if m.payloadType == 9 then G722
        else if m.payloadType == 111 then OPUS else H264,
        if m.payloadType == 0 || m.payloadType == 8 || m.payloadType == 9 then 8000
        else if m.payloadType == 100 then 90000 else if m.payloadType == 111 then 48000 else 0,
        if m.payloadType == 111 then 2 else if m.payloadType in {0, 8, 9, 100} then 1 else 0,
        "", true, true);
      ParseFrom(t, SdpGenerator.Ended(SdpGenerator.MediaLine(m)) + more, u) == ParseFrom(t.(media := t.media + [media]), more, u)
  {
    hide ParseFrom, SdpGenerator.MediaLine;
    MediaLineRead(m, t, more, u);
  }
}
