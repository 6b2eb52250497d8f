/**
 * A whole session description, printed and parsed.
 */
module SdpExchange {
  import opened Octets
  import opened Results
  import opened Packetizer
  import opened Text
  import opened Sdp
  import opened SdpGenerator
  import opened SdpParser
  import opened SdpRoundTrip
  import opened SdpImage

  /** What every field must be to survive: within its array, and without what the parser takes for an end. */
  predicate Clean(s: Session) {
    && Held(s) && OriginClean(s) && Field(s.name)
    && Field(s.ufrag) && Field(s.password) && Field(s.setup)
    && (s.fingerprint != "" ==> FingerprintClean(s))
    && (forall i :: 0 <= i < |s.media| ==> MediaClean(s.media[i]))
    && (forall i :: 0 <= i < |s.candidates| ==> CandidateClean(s.candidates[i]))
  }

  /** Clean but for what is still understood: a fingerprint without a type, an identification that ends in spaces. */
  predicate Near(s: Session) {
    && Held(s) && OriginClean(s) && Field(s.name)
    && Field(s.ufrag) && Field(s.password) && Field(s.setup)
    && (s.fingerprint != "" ==> FingerprintNear(s))
    && (forall i :: 0 <= i < |s.media| ==> MediaLoose(s.media[i]))
    && (forall i :: 0 <= i < |s.candidates| ==> CandidateClean(s.candidates[i]))
  }

  predicate FingerprintNear(s: Session) {
    FingerprintClean(s) || (s.fingerprintType == "" && s.fingerprint != "" && Loose(s.fingerprint))
  }

  predicate AllTrimmed(media: seq<Media>) {
    forall i :: 0 <= i < |media| ==> TrimEnd(media[i].mid) == media[i].mid
  }

  lemma CleanIsNear(s: Session)
    ensures Clean(s) <==> Near(s) && (s.fingerprint != "" ==> s.fingerprintType != "") && AllTrimmed(s.media)
  {
    hide Held, OriginClean, Field, CandidateClean, Loose, TrimEnd;
    forall i | 0 <= i < |s.media|
      ensures MediaClean(s.media[i]) <==> MediaLoose(s.media[i]) && TrimEnd(s.media[i].mid) == s.media[i].mid
    {
      FieldIsLoose(s.media[i].mid);
    }
  }

  // ----- what survives -----

  function DefaultClock(payloadType: int32): uint32 {
    NewMedia(Audio, 0, payloadType).clockRate
  }

  /** A media description up to what is not printed and what the printer fills in. */
  function NormalMedia(m: Media): Media {
    m.(proto := 0,
       clockRate := if m.clockRate > 0 then m.clockRate else DefaultClock(m.payloadType),
       channels := ChannelsOf(m),
       send := true,
       recv := true)
  }

  function MapMedia(media: seq<Media>): (r: seq<Media>)
    ensures |r| == |media| && forall i :: 0 <= i < |r| ==> r[i] == NormalMedia(media[i])
  {
    seq(|media|, i requires 0 <= i < |media| => NormalMedia(media[i]))
  }

  function MapCandidates(candidates: seq<Candidate>): (r: seq<Candidate>)
    ensures |r| == |candidates| && forall i :: 0 <= i < |r| ==> r[i] == NormalCandidate(candidates[i])
  {
    seq(|candidates|, i requires 0 <= i < |candidates| => NormalCandidate(candidates[i]))
  }

  function Normalized(s: Session): Session {
    s.(username := OrElse(s.username, "-"),
       networkType := OrElse(s.networkType, "IN"),
       addressType := OrElse(s.addressType, "IP4"),
       address := OrElse(s.address, "0.0.0.0"),
       name := OrElse(s.name, "-"),
       fingerprintType := if s.fingerprint != "" then s.fingerprintType else "",
       media := MapMedia(s.media),
       candidates := MapCandidates(s.candidates))
  }

  /** Normalising is done once and for all, so a session that was parsed is exchanged without any change. */
  lemma NormalizedTwice(s: Session)
    requires Clean(s)
    ensures Normalized(Normalized(s)) == Normalized(s) && Clean(Normalized(s))
  {
    hide Token, Field, NewMedia;
    var n := Normalized(s);
    Defaults(s);
    NameDefault(s.name);
    forall i | 0 <= i < |s.candidates|
      ensures CandidateClean(n.candidates[i])
    {
      assert CandidateClean(s.candidates[i]);
    }
    forall i | 0 <= i < |s.media|
      ensures MediaClean(n.media[i])
    {
      assert MediaClean(s.media[i]);
    }
    assert MapMedia(n.media) == n.media;
    assert MapCandidates(n.candidates) == n.candidates;
    assert Held(n);
  }

  // ----- the parts of the text -----

  function WithFixed(t: Session, s: Session): Session {
    WithOrigin(t.(version := s.version), s).(name := OrElse(s.name, "-"), start := s.start, stop := s.stop)
  }

  lemma FixedRead(s: Session, t: Session, more: string, u: Unset)
    requires Near(s)
    ensures ParseFrom(t, FixedText(s) + more, u) == ParseFrom(WithFixed(t, s), more, u)
  {
    hide ParseFrom, Ended, VersionLine, OriginLine, NameLine, TimingLine, OrElse, OriginClean, Field;
    var a, b, c, d := Ended(VersionLine(s)), Ended(OriginLine(s)), Ended(NameLine(s)), Ended(TimingLine(s));
    Regroup(a, b + (c + d), more);
    Regroup(b, c + d, more);
    Regroup(c, d, more);
    var t1 := t.(version := s.version);
    var t2 := WithOrigin(t1, s);
    var t3 := t2.(name := OrElse(s.name, "-"));
    VersionRead(s, t, b + (c + (d + more)), u);
    OriginRead(s, t1, c + (d + more), u);
    NameRead(s, t2, d + more, u);
    TimingRead(s, t3, more, u);
  }

  /** The fingerprint as its type and its text are read. */
  function WithSecurity(t: Session, s: Session, kind: string, fingerprint: string): Session {
    t.(ufrag := if s.ufrag != "" then s.ufrag else t.ufrag,
       password := if s.password != "" then s.password else t.password,
       fingerprint := if s.fingerprint != "" then fingerprint else t.fingerprint,
       fingerprintType := if s.fingerprint != "" then kind else t.fingerprintType,
       setup := if s.setup != "" then s.setup else t.setup)
  }

  lemma NothingPrinted(line: string, more: string)
    ensures Optional(false, line) + more == more && Optional(true, line) == Ended(line)
  {
  }

  /** A fingerprint is read as it is, or else with another type than the empty one. */
  predicate ReadAs(s: Session, kind: string, fingerprint: string) {
    if s.fingerprintType != "" then kind == s.fingerprintType && fingerprint == s.fingerprint else kind != ""
  }

  lemma AnyFingerprintRead(s: Session, t: Session, more: string, u: Unset) returns (kind: string, fingerprint: string)
    requires s.fingerprint != "" && FingerprintNear(s)
    ensures ReadAs(s, kind, fingerprint)
    ensures ParseFrom(t, Ended(FingerprintLine(s)) + more, u) ==
      ParseFrom(t.(fingerprint := fingerprint, fingerprintType := kind), more, u)
  {
    hide ParseFrom, Ended, FingerprintLine;
    if s.fingerprintType == "" {
      kind, fingerprint := FingerprintMisread(s, t, more, u);
    } else {
      kind, fingerprint := s.fingerprintType, s.fingerprint;
      FingerprintRead(s, t, more, u);
    }
  }

  lemma SecurityRead(s: Session, t: Session, more: string, u: Unset) returns (kind: string, fingerprint: string)
    requires Near(s)
    ensures s.fingerprint != "" ==> ReadAs(s, kind, fingerprint)
    ensures ParseFrom(t, SecurityText(s) + more, u) == ParseFrom(WithSecurity(t, s, kind, fingerprint), more, u)
  {
    hide ParseFrom, Optional, Ended, UfragLine, PasswordLine, FingerprintLine, SetupLine, FingerprintNear, Field, ReadAs;
    var a, b := Optional(s.ufrag != "", UfragLine(s)), Optional(s.password != "", PasswordLine(s));
    var c, d := Optional(s.fingerprint != "", FingerprintLine(s)), Optional(s.setup != "", SetupLine(s));
    Regroup(a, b + (c + d), more);
    Regroup(b, c + d, more);
    Regroup(c, d, more);
    NothingPrinted(UfragLine(s), b + (c + (d + more)));
    NothingPrinted(PasswordLine(s), c + (d + more));
    NothingPrinted(FingerprintLine(s), d + more);
    NothingPrinted(SetupLine(s), more);
    kind, fingerprint := "", "";
    var t1 := if s.ufrag != "" then t.(ufrag := s.ufrag) else t;
    var t2 := if s.password != "" then t1.(password := s.password) else t1;
    if s.ufrag != "" {
      UfragRead(s, t, b + (c + (d + more)), u);
    }
    if s.password != "" {
      PasswordRead(s, t1, c + (d + more), u);
    }
    if s.fingerprint != "" {
      kind, fingerprint := AnyFingerprintRead(s, t2, d + more, u);
    }
    var t3 := if s.fingerprint != "" then t2.(fingerprint := fingerprint, fingerprintType := kind) else t2;
    if s.setup != "" {
      SetupRead(s, t3, more, u);
    }
  }

  lemma GroupTextRead(s: Session, t: Session, more: string, u: Unset)
    requires Near(s)
    ensures ParseFrom(t, GroupText(s) + more, u) == ParseFrom(t, more, u)
  {
    hide ParseFrom, Optional, Ended, GroupLine, Bundled;
    var a, b := Optional(Bundled(s.media), GroupLine(s.media)), Ended("a=ice-options:trickle");
    Regroup(a, b, more);
    NothingPrinted(GroupLine(s.media), b + more);
    forall i | 0 <= i < |s.media|
      ensures Loose(s.media[i].mid)
    {
      assert MediaLoose(s.media[i]);
    }
    if Bundled(s.media) {
      GroupRead(s, t, b + more, u);
    }
    OptionsRead(t, more, u);
  }

  /** The media that the parser has after reading those in `todo`. */
  function AfterBlocks(done: seq<Media>, todo: seq<Media>): seq<Media>
    decreases |todo|
  {
    if todo == [] then done else AfterBlocks(AfterBlock(done, todo[0]), todo[1..])
  }

  lemma {:induction false} MediaTextRead(media: seq<Media>, t: Session, more: string, u: Unset)
    requires |t.media| + |media| <= MAX_MEDIA
    requires forall i :: 0 <= i < |media| ==> MediaLoose(media[i])
    ensures ParseFrom(t, MediaText(media) + more, u) == ParseFrom(t.(media := AfterBlocks(t.media, media)), more, u)
    decreases |media|
  {
    hide ParseFrom, MediaBlock, AfterBlock, MediaLoose;
    if media == [] {
      assert MediaText(media) + more == more;
      assert t.(media := AfterBlocks(t.media, media)) == t;
    } else {
      assert MediaLoose(media[0]);
      Regroup(MediaBlock(media[0]), MediaText(media[1..]), more);
      BlockRead(media[0], t, MediaText(media[1..]) + more, u);
      MediaTextRead(media[1..], t.(media := AfterBlock(t.media, media[0])), more, u);
    }
  }

  lemma {:induction false} CandidateTextRead(candidates: seq<Candidate>, t: Session, u: Unset)
    requires |t.candidates| + |candidates| <= MAX_CANDIDATES
    requires forall i :: 0 <= i < |candidates| ==> CandidateClean(candidates[i])
    ensures ParseFrom(t, CandidateText(candidates), u) ==
      Some(t.(candidates := t.candidates + MapCandidates(candidates)))
    decreases |candidates|
  {
    hide ParseFrom, CandidateLine, CandidateClean, NormalCandidate, Ended;
    if candidates == [] {
      ParseEnd(t, u);
      assert t.candidates + MapCandidates(candidates) == t.candidates;
    } else {
      assert CandidateClean(candidates[0]);
      CandidateRead(candidates[0], t, CandidateText(candidates[1..]), u);
      var t1 := t.(candidates := t.candidates + [NormalCandidate(candidates[0])]);
      CandidateTextRead(candidates[1..], t1, u);
      assert t1.candidates + MapCandidates(candidates[1..]) == t.candidates + MapCandidates(candidates);
    }
  }

  // ----- the whole text -----

  /** What is read of a session. */
  function Understood(s: Session, kind: string, fingerprint: string): Session {
    var n := Normalized(s);
    n.(media := AfterBlocks([], s.media),
       fingerprintType := if s.fingerprint != "" then kind else "",
       fingerprint := if s.fingerprint != "" then fingerprint else "")
  }

  /** Everything but the media list, whatever the payload types are. */
  lemma Exchanged(s: Session, u: Unset) returns (kind: string, fingerprint: string)
    requires Near(s)
    ensures s.fingerprint != "" ==> ReadAs(s, kind, fingerprint)
    ensures ParseText(Generated(s), u) ==
      Parsed(if s.version == 0 then Ok else Error, Understood(s, kind, fingerprint))
  {
    hide ParseFrom, FixedText, SecurityText, GroupText, MediaText, CandidateText, AfterBlocks, Near, OrElse, ReadAs;
    var c := CandidateText(s.candidates);
    var m := MediaText(s.media) + c;
    var t1 := WithFixed(EMPTY, s);
    NearParts(s);
    FixedRead(s, EMPTY, SecurityText(s) + (GroupText(s) + m), u);
    kind, fingerprint := SecurityRead(s, t1, GroupText(s) + m, u);
    var t2 := WithSecurity(t1, s, kind, fingerprint);
    var t3 := t2.(media := AfterBlocks([], s.media));
    GroupTextRead(s, t2, m, u);
    MediaTextRead(s.media, t2, c, u);
    CandidateTextRead(s.candidates, t3, u);
    assert [] + MapCandidates(s.candidates) == MapCandidates(s.candidates);
  }

  lemma NearParts(s: Session)
    requires Near(s)
    ensures |s.media| <= MAX_MEDIA && |s.candidates| <= MAX_CANDIDATES
    ensures forall i :: 0 <= i < |s.media| ==> MediaLoose(s.media[i])
    ensures forall i :: 0 <= i < |s.candidates| ==> CandidateClean(s.candidates[i])
  {
    hide MediaLoose, CandidateClean, Field, OriginClean, FingerprintNear;
  }

  /** A media whose codec, clock and channels are what its payload type stands for anyway. */
  predicate IsDefault(m: Media) {
    var d := Described(m);
    d.codec == m.codec && (m.clockRate == 0 || d.clockRate == m.clockRate) && d.channels == ChannelsOf(m)
  }

  /**
   * The payload types tell the media apart, or else the second one is all default and overwrites
   * nothing of the first.
   */
  predicate Distinguished(media: seq<Media>) {
    |media| < 2 || media[0].payloadType != media[1].payloadType
    || (&& IsDefault(media[1])
        && media[0].codec == media[1].codec && ChannelsOf(media[0]) == ChannelsOf(media[1])
        && (media[1].clockRate == 0 || NormalMedia(media[0]).clockRate == media[1].clockRate))
  }

  function Trimmed(m: Media): Media {
    NormalMedia(m).(mid := TrimEnd(m.mid))
  }

  lemma OneBlock(m: Media)
    ensures AfterBlock([], m) == [Trimmed(m)]
  {
    hide NewMedia, CodecNamed, CodecName, ChannelsOf, TrimEnd;
    assert [] + [Described(m)] == [Described(m)];
    NameOfCodec(m.codec);
    NewMediaFields(m);
  }

  lemma NewMediaFields(m: Media)
    ensures var d := Described(m);
      && d.kind == m.kind && d.port == m.port && d.proto == 0 && d.payloadType == m.payloadType
      && d.mid == "" && d.send && d.recv && d.clockRate == DefaultClock(m.payloadType)
  {
  }

  lemma TwoBlocks(a: Media, m: Media)
    ensures AfterBlock([a], m) ==
      if a.payloadType == m.payloadType
      then [Mapped(a, CodecName(m.codec), m.clockRate, ChannelsOf(m)), Described(m).(mid := TrimEnd(m.mid))]
      else [a, Trimmed(m)]
  {
    hide CodecNamed, CodecName, ChannelsOf, NewMedia, TrimEnd;
    var all := [a] + [Described(m)];
    assert all[1..] == [Described(m)] && all[1..][1..] == [];
    NameOfCodec(m.codec);
    NewMediaFields(m);
    assert MapCodec(all[1..], m.payloadType, CodecName(m.codec), m.clockRate, ChannelsOf(m)) ==
      [Mapped(Described(m), CodecName(m.codec), m.clockRate, ChannelsOf(m))];
  }

  lemma TwoExactly(x: Media, b: Media)
    ensures AfterBlock([Trimmed(x)], b) == [NormalMedia(x), NormalMedia(b)]
      <==> Distinguished([x, b]) && TrimEnd(x.mid) == x.mid && TrimEnd(b.mid) == b.mid
  {
    hide AfterBlock, MapCodec, NewMedia, CodecNamed, CodecName, ChannelsOf, TrimEnd;
    TwoBlocks(Trimmed(x), b);
    NameOfCodec(b.codec);
    NewMediaFields(b);
  }

  lemma BlocksOfOne(x: Media)
    ensures AfterBlocks([], [x]) == AfterBlock([], x) && MapMedia([x]) == [NormalMedia(x)]
  {
    hide AfterBlock, NormalMedia;
    assert [x][1..] == [];
  }

  lemma BlocksOfTwo(x: Media, y: Media)
    ensures AfterBlocks([], [x, y]) == AfterBlock(AfterBlock([], x), y)
    ensures MapMedia([x, y]) == [NormalMedia(x), NormalMedia(y)]
  {
    hide AfterBlock, NormalMedia;
    assert [x, y][1..] == [y] && [y][1..] == [];
    assert AfterBlocks([], [x, y]) == AfterBlocks(AfterBlock([], x), [y]);
    assert AfterBlocks(AfterBlock([], x), [y]) == AfterBlocks(AfterBlock(AfterBlock([], x), y), []);
  }

  lemma MediaExactly(media: seq<Media>)
    requires |media| <= MAX_MEDIA
    ensures AfterBlocks([], media) == MapMedia(media) <==> Distinguished(media) && AllTrimmed(media)
  {
    hide AfterBlock, AfterBlocks, MapMedia, NormalMedia, Distinguished, TrimEnd;
    if |media| < 2 {
      FewDistinguished(media);
      if media == [] {
        assert AfterBlocks([], []) == [] by { NoBlocks(); }
      } else {
        assert media == [media[0]];
        OneBlock(media[0]);
        BlocksOfOne(media[0]);
        OneExactly(media[0]);
      }
    } else {
      assert media == [media[0], media[1]];
      OneBlock(media[0]);
      BlocksOfTwo(media[0], media[1]);
      TwoExactly(media[0], media[1]);
    }
  }

  lemma OneExactly(m: Media)
    ensures Trimmed(m) == NormalMedia(m) <==> TrimEnd(m.mid) == m.mid
  {
    hide TrimEnd, NewMedia;
  }

  lemma NoBlocks()
    ensures AfterBlocks([], []) == []
  {
  }

  lemma FewDistinguished(media: seq<Media>)
    requires |media| < 2
    ensures Distinguished(media)
  {
  }

  /**
   * Printing and parsing gives back the session, up to the defaults of the printer, exactly when the
   * payload types tell the media apart. It is accepted exactly when its version is zero.
   */
  lemma RoundTrip(s: Session, u: Unset)
    requires Clean(s)
    ensures var r := ParseText(Generated(s), u);
      && r.Parsed? && (r.status == Ok <==> s.version == 0)
      && (r.session == Normalized(s) <==> Distinguished(s.media))
  {
    hide ParseText, Generated, Clean, Near, AfterBlocks, MapMedia, MapCandidates, OrElse, Distinguished, TrimEnd;
    CleanIsNear(s);
    var kind, fingerprint := Exchanged(s, u);
    assert |s.media| <= MAX_MEDIA by { NearParts(s); }
    MediaExactly(s.media);
    var n := Normalized(s);
    assert n.media == MapMedia(s.media);
  }

  // ----- nothing else survives -----

  /** What comes out of the parser has readable fields, so they were so in the session that was printed. */
  lemma ReadableIsNear(s: Session)
    requires Held(s) && Readable(Normalized(s))
    ensures Near(s)
  {
    hide Token, Loose, Field, FingerprintNear, OriginClean;
    var n := Normalized(s);
    ReadableParts(s);
    forall i | 0 <= i < |s.media|
      ensures MediaLoose(s.media[i])
    {
      assert n.media[i].mid == s.media[i].mid;
    }
    forall i | 0 <= i < |s.candidates|
      ensures CandidateClean(s.candidates[i])
    {
      assert CandidateReadable(n.candidates[i]) && CandidateHeld(s.candidates[i]);
    }
  }

  lemma ReadableParts(s: Session)
    requires Held(s) && Readable(Normalized(s))
    ensures OriginClean(s) && Field(s.name) && (s.fingerprint != "" ==> FingerprintNear(s))
  {
    hide Token, CandidateHeld, CandidateReadable;
  }

  /**
   * The exact condition, for every session that the structure can hold: what is parsed is the session
   * that was printed, up to the defaults of the printer, if and only if its fields are clean and its
   * payload types tell the media apart.
   */
  lemma SurvivesExactly(s: Session, u: Unset)
    requires Held(s)
    ensures var r := ParseText(Generated(s), u);
      r.Parsed? && r.session == Normalized(s) <==> Clean(s) && Distinguished(s.media)
  {
    hide ParseText, Generated, Clean, Near, Readable, AfterBlocks, MapMedia, MapCandidates, OrElse, Distinguished, TrimEnd;
    var r := ParseText(Generated(s), u);
    if r.Parsed? && r.session == Normalized(s) {
      OutcomeReadable(Generated(s), u);
      ReadableIsNear(s);
      var kind, fingerprint := Exchanged(s, u);
      assert AfterBlocks([], s.media) == MapMedia(s.media);
      MediaExactly(s.media);
      CleanIsNear(s);
    } else if Clean(s) {
      RoundTrip(s, u);
    }
  }

  /** Two media that share a payload type: the second codec replaces the first. */
  lemma SharedPayloadTypeLost(u: Unset)
    ensures var audio := Media(Audio, 9, 0, 96, OPUS, 48000, 2, "", true, true);
      var video := Media(Video, 9, 0, 96, H264, 90000, 1, "", true, true);
      var r := ParseText(Generated(EMPTY.(media := [audio, video])), u);
      r.Parsed? && r.status == Ok && r.session != Normalized(EMPTY.(media := [audio, video]))
  {
    hide ParseText, Generated, Normalized;
    var audio := Media(Audio, 9, 0, 96, OPUS, 48000, 2, "", true, true);
    var video := Media(Video, 9, 0, 96, H264, 90000, 1, "", true, true);
    RoundTrip(EMPTY.(media := [audio, video]), u);
  }
}
