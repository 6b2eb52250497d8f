/**
 * Parsing a session description: src/signal/sdp_parser.c, lines 26 to 468.
 */
module SdpParser {
  import opened Octets
  import opened Results
  import opened Packetizer
  import opened Text
  import opened Sdp

  /** What the two local variables of the origin line hold when no number is scanned into them. */
  datatype Unset = Unset(id: uint64, revision: uint64)

  /** The session after a line, and where the cursor is. */
  datatype Reading = Reading(session: Session, rest: string)

  function SkipChar(s: string, c: char): (r: string)
    ensures |r| <= |s|
  {
    if s != "" && s[0] == c then s[1..] else s
  }

  /** To the next line. */
  function NextLine(s: string): (r: string)
    ensures |r| <= |s|
  {
    var e := FindEol(s);
    if e == "" then "" else SkipChar(e[1..], '\n')
  }

  // ----- attributes -----

  /** strtoul without an end pointer: zero when nothing is scanned. */
  function Priority(s: string): uint64 {
    var x := ParseUint64(s);
    if x.Some? then x.value else 0
  }

  datatype CandidateFields = CandidateFields(
    foundation: string,
    component: string,
    protocol: string,
    priority: string,
    ip: string,
    port: string,
    tag: string,
    kind: string)

  function SplitCandidate(s: string): CandidateFields {
    var foundation := CopyUntil(s, 32, ' ');
    var component := CopyUntil(foundation.rest, 16, ' ');
    var protocol := CopyUntil(component.rest, 16, ' ');
    var priority := CopyUntil(protocol.rest, 32, ' ');
    var ip := CopyUntil(priority.rest, 64, ' ');
    var port := CopyUntil(ip.rest, 16, ' ');
    var tag := CopyUntil(port.rest, 32, ' ');
    var kind := CopyUntil(tag.rest, 32, ' ');
    CandidateFields(
      foundation.text, component.text, protocol.text, priority.text, ip.text, port.text, tag.text, kind.text)
  }

  function ReadFields(f: CandidateFields): Option<Candidate> {
    var priority, port := Priority(f.priority), ParseInt(f.port);
    if f.foundation == "" || ParseInt(f.component).None? then None
    else if priority == 0 && (f.priority == "" || f.priority[0] != '0') then None
    else if f.ip == "" || port.None? || f.tag != "typ" || f.kind == "" then None
    else
      Some(Candidate(
             f.foundation,
             priority % TWO_32,
             f.ip,
             port.value % TWO_16,
             f.kind,
             if f.protocol == "" then "udp" else f.protocol,
             ':' in f.ip))
  }

  function ParseCandidate(s: string): Option<Candidate> {
    ReadFields(SplitCandidate(s))
  }

  /** The type, and the fingerprint if there is a type. */
  function ParseFingerprint(s: string): (string, Option<string>) {
    var kind := CopyUntil(s, 16, ' ');
    if kind.text == "" then ("", None)
    else
      var t := SkipBlank(kind.rest);
      (kind.text, Some(t[..Min(Span(InLine, t), 127)]))
  }

  function Lower(c: char): char {
    if 'A' <= c <= 'Z' then c + ' ' else c
  }

  /** strcasecmp(a, b) == 0. */
  predicate SameIgnoringCase(a: string, b: string) {
    |a| == |b| && forall i :: 0 <= i < |a| ==> Lower(a[i]) == Lower(b[i])
  }

  function CodecNamed(name: string): Option<Codec> {
    if SameIgnoringCase(name, "H264") then Some(H264)
    else if SameIgnoringCase(name, "OPUS") then Some(OPUS)
    else if SameIgnoringCase(name, "PCMA") then Some(PCMA)
    else if SameIgnoringCase(name, "PCMU") then Some(PCMU)
    else if SameIgnoringCase(name, "G722") then Some(G722)
    else None
  }

  function Mapped(m: Media, name: string, clock: uint32, channels: int32): Media {
    m.(codec := if CodecNamed(name).Some? then CodecNamed(name).value else m.codec,
       clockRate := if clock > 0 then clock else m.clockRate,
       channels := channels)
  }

  /** The first media with that payload type takes the codec. */
  function MapCodec(media: seq<Media>, payloadType: int32, name: string, clock: uint32, channels: int32): (r: seq<Media>)
    ensures |r| == |media|
    decreases |media|
  {
    if media == [] then []
    else if media[0].payloadType == payloadType then [Mapped(media[0], name, clock, channels)] + media[1..]
    else [media[0]] + MapCodec(media[1..], payloadType, name, clock, channels)
  }

  predicate BeforeSpace(c: char) {
    c != ' ' && c != '\n'
  }

  predicate NoSlash(c: char) {
    c != '/'
  }

  datatype Encoding = Encoding(clock: uint32, channels: int32)

  function ParseEncoding(s: string): Encoding {
    var n := Span(NoSlash, s);
    Encoding(Atoi(s[..n]) % TWO_32, if n < |s| then Atoi(s[n + 1..]) else 1)
  }

  function Rtpmap(s: Session, p: string): (r: Reading)
    ensures |r.rest| <= |p|
  {
    var payloadType := ParseInt(p);
    if payloadType.None? then Reading(s, p)
    else
      var name := CopyUntil(SkipChar(p[Span(BeforeSpace, p)..], ' '), 64, '/');
      var params := CopyUntil(SkipChar(name.rest, '/'), 64, '\n');
      var encoding := ParseEncoding(params.text);
      Reading(
        s.(media := MapCodec(s.media, payloadType.value, name.text, encoding.clock, encoding.channels)),
        params.rest)
  }

  /** The last media takes the identification, cut to its array. */
  function WithMid(s: Session, mid: string): Session
    requires s.media != []
  {
    var k := |s.media| - 1;
    s.(media := s.media[k := s.media[k].(mid := mid[..Min(|mid|, 15)])])
  }

  /** An attribute line, from after its "a=". */
  function Attribute(s: Session, p: string): (r: Reading)
    ensures |r.rest| <= |p|
  {
    var name := CopyUntil(p, 64, ':');
    var v := SkipChar(name.rest, ':');
    if name.text == "ice-ufrag" then
      var c := CopyUntil(v, 64, '\n');
      Reading(s.(ufrag := c.text), c.rest)
    else if name.text == "ice-pwd" then
      var c := CopyUntil(v, 128, '\n');
      Reading(s.(password := c.text), c.rest)
    else if name.text == "fingerprint" then
      var (kind, fingerprint) := ParseFingerprint(v);
      Reading(
        s.(fingerprintType := kind,
           fingerprint := if fingerprint.Some? then fingerprint.value else s.fingerprint),
        v)
    else if name.text == "candidate" then
      if |s.candidates| < MAX_CANDIDATES then
        var c := ParseCandidate(v);
        Reading(if c.Some? then s.(candidates := s.candidates + [c.value]) else s, v)
      else Reading(s, name.rest)
    else if name.text == "setup" then
      var c := CopyUntil(v, 16, '\n');
      Reading(s.(setup := c.text), c.rest)
    else if name.text == "mid" then
      if s.media != [] then
        var c := CopyUntil(v, 32, '\n');
        Reading(WithMid(s, c.text), c.rest)
      else Reading(s, name.rest)
    else if name.text == "rtpmap" then Rtpmap(s, v)
    else Reading(s, name.rest)
  }

  // ----- other lines -----

  /** The codec a payload type stands for until an rtpmap line says otherwise. */
  function NewMedia(kind: MediaKind, port: int32, payloadType: int32): Media {
    var m := Media(kind, port, 0, payloadType, H264, 0, 0, "", true, true);
    if payloadType == 0 then m.(codec := PCMU, clockRate := 8000, channels := 1)
    else if payloadType == 8 then m.(codec := PCMA, clockRate := 8000, channels := 1)
    else if payloadType == 9 then m.(codec := G722, clockRate := 8000, channels := 1)
    else if payloadType == 100 then m.(codec := H264, clockRate := 90000, channels := 1)
    else if payloadType == 111 then m.(codec := OPUS, clockRate := 48000, channels := 2)
    else m
  }

  datatype Scanned = Scanned(payloadType: int32, rest: string)

  function ScanPayload(s: string): (r: Scanned)
    ensures |r.rest| <= |s|
  {
    var x := Scan(s);
    if x.Some? then Scanned(ToInt32(Long(x.value)), x.value.rest) else Scanned(0, s)
  }

  function MediaDescription(s: Session, p: string): (r: Reading)
    ensures |r.rest| <= |p|
  {
    if |s.media| >= MAX_MEDIA then Reading(s, p)
    else
      var kind := CopyUntil(p, 16, ' ');
      var port := CopyUntil(kind.rest, 16, ' ');
      var proto := CopyUntil(port.rest, 16, ' ');
      if kind.text != "audio" && kind.text != "video" then Reading(s, proto.rest)
      else
        var payload := ScanPayload(proto.rest);
        var m := NewMedia(if kind.text == "audio" then Audio else Video, Atoi(port.text), payload.payloadType);
        Reading(s.(media := s.media + [m]), payload.rest)
  }

  function Value64(s: string, unset: uint64): uint64 {
    var x := ParseUint64(s);
    if x.Some? then x.value else unset
  }

  function Origin(s: Session, p: string, unset: Unset): (r: Reading)
    ensures |r.rest| <= |p|
  {
    var username := CopyUntil(p, 256, ' ');
    var id := CopyUntil(username.rest, 64, ' ');
    var revision := CopyUntil(id.rest, 64, ' ');
    var networkType := CopyUntil(revision.rest, 16, ' ');
    var addressType := CopyUntil(networkType.rest, 16, ' ');
    var address := CopyUntil(addressType.rest, 64, '\n');
    Reading(
      s.(username := username.text,
         id := Value64(id.text, unset.id),
         revision := Value64(revision.text, unset.revision),
         networkType := networkType.text,
         addressType := addressType.text,
         address := address.text),
      address.rest)
  }

  function Timing(s: Session, p: string): (r: Reading)
    ensures |r.rest| <= |p|
  {
    var start := CopyUntil(p, 64, ' ');
    var stop := CopyUntil(start.rest, 64, '\n');
    Reading(s.(start := Value64(start.text, s.start), stop := Value64(stop.text, s.stop)), stop.rest)
  }

  function Line(kind: char, s: Session, p: string, unset: Unset): (r: Reading)
    ensures |r.rest| <= |p|
  {
    if kind == 'v' then
      var n := ParseInt(p);
      Reading(if n.Some? then s.(version := n.value) else s, FindEol(p))
    else if kind == 'o' then Origin(s, p, unset)
    else if kind == 's' then
      var c := CopyUntil(p, 256, '\n');
      Reading(s.(name := c.text), c.rest)
    else if kind == 't' then Timing(s, p)
    else if kind == 'a' then Attribute(s, p)
    else if kind == 'm' then MediaDescription(s, p)
    else Reading(s, p)
  }

  /** None when the cursor steps past the end: a last line without `=` and without a line end. */
  function ParseFrom(s: Session, p: string, unset: Unset): Option<Session>
    decreases |p|
  {
    if p == "" then Some(s)
    else if !InLine(p[0]) then ParseFrom(s, p[1..], unset)
    else if |p| < 2 || p[1] != '=' then
      var e := FindEol(p[1..]);
      if e == "" then None else ParseFrom(s, e[1..], unset)
    else
      var r := Line(p[0], s, p[2..], unset);
      ParseFrom(r.session, NextLine(r.rest), unset)
  }

  /** The status and the session that sdp_parse leaves behind. */
  datatype Outcome = Fault | Parsed(status: Status, session: Session)

  function ParseText(text: string, unset: Unset): Outcome {
    var r := ParseFrom(EMPTY, text, unset);
    if r.None? then Fault else Parsed(if r.value.version == 0 then Ok else Error, r.value)
  }

  // ----- the code -----

  method SkipBlanks(text: string, at: nat) returns (next: nat)
    requires at <= |text|
    ensures at <= next <= |text| && text[next..] == SkipBlank(text[at..])
  {
    next := at;
    while next < |text| && (text[next] == ' ' || text[next] == '\t')
      invariant at <= next <= |text|
      invariant forall i :: at <= i < next ==> IsBlank(text[i])
    {
      next := next + 1;
    }
    SpanIs(IsBlank, text[at..], next - at);
  }

  method EndOfLine(text: string, at: nat) returns (next: nat)
    requires at <= |text|
    ensures at <= next <= |text| && text[next..] == FindEol(text[at..])
  {
    next := at;
    while next < |text| && text[next] != '\n' && text[next] != '\r'
      invariant at <= next <= |text|
      invariant forall i :: at <= i < next ==> InLine(text[i])
    {
      next := next + 1;
    }
    SpanIs(InLine, text[at..], next - at);
  }

  method CopyField(text: string, at: nat, room: nat, separator: char) returns (dst: string, next: nat)
    requires at <= |text| && room >= 2
    ensures at <= next <= |text| && Text.Copy(dst, text[next..]) == CopyUntil(text[at..], room, separator)
  {
    hide Span, TrimEnd, SkipBlank;
    var start := SkipBlanks(text, at);
    NoBlankFirst(text[at..]);
    dst, next := CopyRun(text, start, room, separator);
    assert text[start..][next - start..] == text[next..];
    dst := Trim(dst);
  }

  /** The character loop, from the first character that is not blank. */
  method CopyRun(text: string, start: nat, room: nat, separator: char) returns (dst: string, next: nat)
    requires start <= |text| && room >= 2 && (start < |text| ==> !IsBlank(text[start]))
    ensures start <= next <= |text| && next - start == Span(Inside(separator), text[start..])
    ensures dst == text[start..][..Min(next - start, room - 1)]
  {
    hide Span;
    ghost var t := text[start..];
    next := start;
    dst := "";
    while next < |text| && text[next] != '\n' && text[next] != '\r' && text[next] != separator
      invariant start <= next <= |text|
      invariant dst == t[..Min(next - start, room - 1)]
      invariant forall i :: 0 <= i < next - start ==> Inside(separator)(t[i])
    {
      assert t[next - start] == text[next];
      if (text[next] != ' ' || |dst| > 0) && |dst| < room - 1 {
        dst := dst + [text[next]];
      }
      next := next + 1;
    }
    assert next < |text| ==> t[next - start] == text[next];
    SpanIs(Inside(separator), t, next - start);
  }

  lemma NoBlankFirst(s: string)
    ensures SkipBlank(s) != "" ==> !IsBlank(SkipBlank(s)[0])
  {
  }

  method Trim(s: string) returns (r: string)
    ensures r == TrimEnd(s)
  {
    r := s;
    while |r| > 0 && r[|r| - 1] == ' '
      invariant TrimEnd(r) == TrimEnd(s)
    {
      r := r[..|r| - 1];
    }
  }

  method ReadCandidate(text: string, at: nat) returns (r: Option<Candidate>)
    requires at <= |text|
    ensures r == ParseCandidate(text[at..])
  {
    hide CopyUntil, Priority, ParseInt;
    ghost var f := SplitCandidate(text[at..]);
    var foundation, p0 := CopyField(text, at, 32, ' ');
    if foundation == "" {
      return None;
    }
    var component, p1 := CopyField(text, p0, 16, ' ');
    if ParseInt(component).None? {
      return None;
    }
    var protocol, p2 := CopyField(text, p1, 16, ' ');
    if protocol == "" {
      protocol := "udp";
    }
    var digits, p3 := CopyField(text, p2, 32, ' ');
    var priority := Priority(digits);
    if priority == 0 && (digits == "" || digits[0] != '0') {
      return None;
    }
    var ip, p4 := CopyField(text, p3, 64, ' ');
    if ip == "" {
      return None;
    }
    var port, p5 := CopyField(text, p4, 16, ' ');
    if ParseInt(port).None? {
      return None;
    }
    var tag, p6 := CopyField(text, p5, 32, ' ');
    if tag != "typ" {
      return None;
    }
    var kind, p7 := CopyField(text, p6, 32, ' ');
    if kind == "" {
      return None;
    }
    r := Some(Candidate(foundation, priority % TWO_32, ip, ParseInt(port).value % TWO_16, kind, protocol, ':' in ip));
  }

  method ReadFingerprint(text: string, at: nat) returns (kind: string, fingerprint: Option<string>)
    requires at <= |text|
    ensures (kind, fingerprint) == ParseFingerprint(text[at..])
  {
    hide Span, CopyUntil, SkipBlank;
    var p: nat;
    kind, p := CopyField(text, at, 16, ' ');
    if kind == "" {
      return "", None;
    }
    var start := SkipBlanks(text, p);
    ghost var t := text[start..];
    var q, fp := start, "";
    while q < |text| && text[q] != '\n' && text[q] != '\r' && |fp| < 127
      invariant start <= q <= |text| && q - start == |fp| <= 127
      invariant fp == t[..q - start]
      invariant forall i :: 0 <= i < q - start ==> InLine(t[i])
    {
      fp := fp + [text[q]];
      q := q + 1;
    }
    SpanAtLeast(InLine, t, q - start);
    fingerprint := Some(fp);
  }

  lemma SpanAtLeast(p: char -> bool, s: string, n: nat)
    requires n <= |s| && forall i :: 0 <= i < n ==> p(s[i])
    ensures Span(p, s) >= n && (n < |s| && !p(s[n]) ==> Span(p, s) == n)
  {
    hide Span;
    var m := Span(p, s);
    assert m < |s| ==> !p(s[m]);
    assert n < |s| && n < m ==> p(s[n]);
  }

  class Parser {
    const text: string
    const unset: Unset
    var at: nat
    var session: Session

    ghost predicate Valid()
      reads this`at
    {
      at <= |text|
    }

    ghost function Rest(): string
      requires Valid()
      reads this`at
    {
      text[at..]
    }

    ghost function Here(): Reading
      requires Valid()
      reads this
    {
      Reading(session, Rest())
    }

    constructor (text: string, unset: Unset)
      ensures Valid() && at == 0 && session == EMPTY && this.text == text && this.unset == unset
    {
      this.text, this.unset := text, unset;
      at, session := 0, EMPTY;
    }

    method Skip(c: char)
      requires Valid()
      modifies this`at
      ensures Valid() && Rest() == SkipChar(old(Rest()), c)
    {
      if at < |text| && text[at] == c {
        at := at + 1;
      }
    }

    method Take(room: nat, separator: char) returns (dst: string)
      requires Valid() && room >= 2
      modifies this`at
      ensures Valid() && Text.Copy(dst, Rest()) == CopyUntil(old(Rest()), room, separator)
    {
      dst, at := CopyField(text, at, room, separator);
    }

    method ReadOrigin()
      requires Valid()
      modifies this
      ensures Valid() && Here() == Origin(old(session), old(Rest()), unset)
    {
      hide CopyUntil, ParseUint64;
      var id, revision := unset.id, unset.revision;
      var username := Take(256, ' ');
      session := session.(username := username);
      var buf := Take(64, ' ');
      if ParseUint64(buf).Some? {
        id := ParseUint64(buf).value;
      }
      session := session.(id := id);
      buf := Take(64, ' ');
      if ParseUint64(buf).Some? {
        revision := ParseUint64(buf).value;
      }
      session := session.(revision := revision);
      var networkType := Take(16, ' ');
      session := session.(networkType := networkType);
      var addressType := Take(16, ' ');
      session := session.(addressType := addressType);
      var address := Take(64, '\n');
      session := session.(address := address);
    }

    method ReadTiming()
      requires Valid()
      modifies this
      ensures Valid() && Here() == Timing(old(session), old(Rest()))
    {
      hide CopyUntil, ParseUint64;
      var buf := Take(64, ' ');
      if ParseUint64(buf).Some? {
        session := session.(start := ParseUint64(buf).value);
      }
      buf := Take(64, '\n');
      if ParseUint64(buf).Some? {
        session := session.(stop := ParseUint64(buf).value);
      }
    }

    method FindMedia(payloadType: int32, name: string, clock: uint32, channels: int32)
      modifies this`session
      ensures session == old(session).(media := MapCodec(old(session.media), payloadType, name, clock, channels))
    {
      hide Mapped;
      ghost var before := session.media;
      var i := 0;
      while i < |session.media|
        invariant 0 <= i <= |session.media| && session == old(session)
        invariant before[..i] + MapCodec(before[i..], payloadType, name, clock, channels)
          == MapCodec(before, payloadType, name, clock, channels)
      {
        MapCodecStep(before, i, payloadType, name, clock, channels);
        if session.media[i].payloadType == payloadType {
          session := session.(media := session.media[i := Mapped(session.media[i], name, clock, channels)]);
          return;
        }
        i := i + 1;
      }
      assert before[i..] == [];
    }

    method SkipToSpace()
      requires Valid()
      modifies this`at
      ensures Valid() && Rest() == old(Rest())[Span(BeforeSpace, old(Rest()))..]
    {
      hide Span;
      var start := at;
      while at < |text| && text[at] != ' ' && text[at] != '\n'
        invariant start <= at <= |text|
        invariant forall i :: start <= i < at ==> BeforeSpace(text[i])
      {
        at := at + 1;
      }
      SpanIs(BeforeSpace, text[start..], at - start);
      SuffixTwice(text, start, at - start);
    }

    method ReadRtpmap()
      requires Valid()
      modifies this
      ensures Valid() && Here() == Rtpmap(old(session), old(Rest()))
    {
      hide CopyUntil, ParseInt, ParseEncoding, Span, MapCodec, SkipChar;
      var payloadType := ParseInt(text[at..]);
      if payloadType.None? {
        return;
      }
      SkipToSpace();
      Skip(' ');
      var name := Take(64, '/');
      Skip('/');
      var params := Take(64, '\n');
      var encoding := ReadEncoding(params);
      FindMedia(payloadType.value, name, encoding.clock, encoding.channels);
    }

    method ReadAttribute()
      requires Valid()
      modifies this
      ensures Valid() && Here() == Attribute(old(session), old(Rest()))
    {
      hide CopyUntil, ParseCandidate, ParseFingerprint, Rtpmap, SkipChar;
      var name := Take(64, ':');
      if name == "ice-ufrag" {
        Skip(':');
        var dst := Take(64, '\n');
        session := session.(ufrag := dst);
      } else if name == "ice-pwd" {
        Skip(':');
        var dst := Take(128, '\n');
        session := session.(password := dst);
      } else if name == "fingerprint" {
        Skip(':');
        var kind, fingerprint := ReadFingerprint(text, at);
        session := session.(fingerprintType := kind);
        if fingerprint.Some? {
          session := session.(fingerprint := fingerprint.value);
        }
      } else if name == "candidate" {
        if |session.candidates| < MAX_CANDIDATES {
          Skip(':');
          var c := ReadCandidate(text, at);
          if c.Some? {
            session := session.(candidates := session.candidates + [c.value]);
          }
        }
      } else if name == "setup" {
        Skip(':');
        var dst := Take(16, '\n');
        session := session.(setup := dst);
      } else if name == "mid" {
        if |session.media| > 0 {
          Skip(':');
          var dst := Take(32, '\n');
          var k := |session.media| - 1;
          session := session.(media := session.media[k := session.media[k].(mid := dst[..Min(|dst|, 15)])]);
        }
      } else if name == "rtpmap" {
        Skip(':');
        ReadRtpmap();
      }
    }

    method ReadMedia()
      requires Valid()
      modifies this
      ensures Valid() && Here() == MediaDescription(old(session), old(Rest()))
    {
      hide CopyUntil, ParseInt, ScanPayload, NewMedia;
      if |session.media| >= MAX_MEDIA {
        return;
      }
      var kind := Take(16, ' ');
      var portText := Take(16, ' ');
      var proto := Take(16, ' ');
      var port := 0;
      if ParseInt(portText).Some? {
        port := ParseInt(portText).value;
      }
      if kind != "audio" && kind != "video" {
        return;
      }
      var payloadType := TakePayload();
      session := session.(media := session.media + [NewMedia(if kind == "audio" then Audio else Video, port, payloadType)]);
    }

    method TakePayload() returns (payloadType: int32)
      requires Valid()
      modifies this`at
      ensures Valid() && Scanned(payloadType, Rest()) == ScanPayload(old(Rest()))
    {
      hide Scan, Long, ToInt32;
      var x := Scan(text[at..]);
      payloadType := 0;
      if x.Some? {
        payloadType := ToInt32(Long(x.value));
        SuffixAt(text, at);
        at := |text| - |x.value.rest|;
      }
    }

    method Parse() returns (r: Outcome)
      requires Valid() && at == 0 && session == EMPTY
      modifies this
      ensures r == ParseText(text, unset)
    {
      hide Line, ParseFrom, NextLine;
      ghost var all := ParseFrom(EMPTY, text, unset);
      assert Rest() == text;
      while at < |text|
        invariant Valid()
        invariant ParseFrom(session, Rest(), unset) == all
        decreases |text| - at
      {
        ParseStep(session, Rest(), unset);
        if text[at] == '\n' || text[at] == '\r' {
          at := at + 1;
          continue;
        }
        var kind := text[at];
        at := at + 1;
        if at == |text| || text[at] != '=' {
          assert text[at - 1..][1..] == text[at..];
          at := EndOfLine(text, at);
          if at == |text| {
            return Fault;
          }
          at := at + 1;
          continue;
        }
        at := at + 1;
        ReadLine(kind);
        ToNextLine();
      }
      assert Rest() == "";
      ParseEnd(session, unset);
      r := Parsed(if session.version == 0 then Ok else Error, session);
    }

    method ReadLine(kind: char)
      requires Valid()
      modifies this
      ensures Valid() && at >= old(at) && Here() == Line(kind, old(session), old(Rest()), unset)
    {
      hide CopyUntil, ParseInt, Origin, Timing, Attribute, MediaDescription, FindEol;
      if kind == 'v' {
        if ParseInt(text[at..]).Some? {
          session := session.(version := ParseInt(text[at..]).value);
        }
        at := EndOfLine(text, at);
      } else if kind == 'o' {
        ReadOrigin();
      } else if kind == 's' {
        var dst := Take(256, '\n');
        session := session.(name := dst);
      } else if kind == 't' {
        ReadTiming();
      } else if kind == 'a' {
        ReadAttribute();
      } else if kind == 'm' {
        ReadMedia();
      }
      assert |Rest()| <= |old(Rest())|;
    }

    method ToNextLine()
      requires Valid()
      modifies this`at
      ensures Valid() && at >= old(at) && Rest() == NextLine(old(Rest()))
    {
      hide FindEol;
      at := EndOfLine(text, at);
      if at < |text| {
        at := at + 1;
        if at < |text| && text[at] == '\n' {
          at := at + 1;
        }
      }
    }
  }

  method ReadEncoding(s: string) returns (r: Encoding)
    ensures r == ParseEncoding(s)
  {
    hide Span, Atoi;
    var slash := 0;
    while slash < |s| && s[slash] != '/'
      invariant 0 <= slash <= |s|
      invariant forall i :: 0 <= i < slash ==> NoSlash(s[i])
    {
      slash := slash + 1;
    }
    SpanIs(NoSlash, s, slash);
    var channels := 1;
    if slash < |s| {
      channels := Atoi(s[slash + 1..]);
    }
    r := Encoding(Atoi(s[..slash]) % TWO_32, channels);
  }

  lemma MapCodecStep(media: seq<Media>, i: nat, payloadType: int32, name: string, clock: uint32, channels: int32)
    requires i < |media|
    ensures media[..i] + MapCodec(media[i..], payloadType, name, clock, channels) ==
      if media[i].payloadType == payloadType then media[i := Mapped(media[i], name, clock, channels)]
      else media[..i + 1] + MapCodec(media[i + 1..], payloadType, name, clock, channels)
  {
    hide Mapped;
    assert media[i..][1..] == media[i + 1..];
  }

  lemma SuffixTwice(s: string, a: nat, b: nat)
    requires a + b <= |s|
    ensures s[a..][b..] == s[a + b..]
  {
  }

  predicate IsSuffix(r: string, s: string) {
    |r| <= |s| && s[|s| - |r|..] == r
  }

  lemma DropIsSuffix(s: string, n: nat)
    requires n <= |s|
    ensures IsSuffix(s[n..], s)
  {
  }

  lemma SuffixOfSuffix(a: string, b: string, c: string)
    requires IsSuffix(a, b) && IsSuffix(b, c)
    ensures IsSuffix(a, c)
  {
    SuffixTwice(c, |c| - |b|, |b| - |a|);
  }

  lemma AfterSignIsSuffix(s: string)
    ensures IsSuffix(AfterSign(s), s)
  {
    if Signed(s) {
      DropIsSuffix(s, 1);
    } else {
      assert s[0..] == s;
    }
  }

  /** A scan leaves a suffix of what it reads. */
  lemma ScanLeavesSuffix(s: string)
    ensures var x := Scan(s); x.Some? ==> IsSuffix(x.value.rest, s)
  {
    hide Span, Amount, IsSpace, IsDigit, IsSuffix, AfterSign;
    var t := s[Span(IsSpace, s)..];
    var u := AfterSign(t);
    DropIsSuffix(s, Span(IsSpace, s));
    AfterSignIsSuffix(t);
    DropIsSuffix(u, Span(IsDigit, u));
    SuffixOfSuffix(u, t, s);
    SuffixOfSuffix(u[Span(IsDigit, u)..], u, s);
  }

  lemma SuffixAt(text: string, at: nat)
    requires at <= |text|
    ensures var x := Scan(text[at..]);
      x.Some? ==> |x.value.rest| <= |text| - at && text[|text| - |x.value.rest|..] == x.value.rest
  {
    hide Scan;
    ScanLeavesSuffix(text[at..]);
    DropIsSuffix(text, at);
    var x := Scan(text[at..]);
    if x.Some? {
      SuffixOfSuffix(x.value.rest, text[at..], text);
    }
  }

  lemma ParseStep(s: Session, p: string, unset: Unset)
    requires p != ""
    ensures !InLine(p[0]) ==> ParseFrom(s, p, unset) == ParseFrom(s, p[1..], unset)
    ensures InLine(p[0]) && (|p| < 2 || p[1] != '=') ==>
      var e := FindEol(p[1..]);
      ParseFrom(s, p, unset) == if e == "" then None else ParseFrom(s, e[1..], unset)
    ensures InLine(p[0]) && |p| >= 2 && p[1] == '=' ==>
      var r := Line(p[0], s, p[2..], unset);
      ParseFrom(s, p, unset) == ParseFrom(r.session, NextLine(r.rest), unset)
  {
    hide Line, FindEol, NextLine;
  }

  lemma ParseEnd(s: Session, unset: Unset)
    ensures ParseFrom(s, "", unset) == Some(s)
  {
  }
}
