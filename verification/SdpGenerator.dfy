/**
 * Printing a session description: src/signal/sdp_generator.c.
 */
module SdpGenerator {
  import opened Octets
  import opened Text
  import opened Sdp

  const TEXT_LEN := 8192

  // ----- the lines -----

  function OrElse(s: string, default: string): string {
    if s == "" then default else s
  }

  function Ended(line: string): (r: string)
    ensures |r| == |line| + 2
  {
    line + CRLF
  }

  function Optional(present: bool, line: string): (r: string)
    ensures |r| == if present then |line| + 2 else 0
  {
    if present then Ended(line) else ""
  }

  function VersionLine(s: Session): string {
    "v=" + Int(s.version)
  }

  function OriginLine(s: Session): string {
    "o=" + OrElse(s.username, "-") + " " + Decimal(s.id) + " " + Decimal(s.revision) + " " +
    OrElse(s.networkType, "IN") + " " + OrElse(s.addressType, "IP4") + " " + OrElse(s.address, "0.0.0.0")
  }

  function NameLine(s: Session): string {
    "s=" + OrElse(s.name, "-")
  }

  function TimingLine(s: Session): string {
    "t=" + Decimal(s.start) + " " + Decimal(s.stop)
  }

  function AttributeLine(name: string, value: string): (r: string)
    ensures |r| == 3 + |name| + |value|
  {
    "a=" + name + ":" + value
  }

  function UfragLine(s: Session): string {
    AttributeLine("ice-ufrag", s.ufrag)
  }

  function PasswordLine(s: Session): string {
    AttributeLine("ice-pwd", s.password)
  }

  function FingerprintLine(s: Session): string {
    AttributeLine("fingerprint", s.fingerprintType + " " + s.fingerprint)
  }

  function SetupLine(s: Session): string {
    AttributeLine("setup", s.setup)
  }

  function SpacedMids(media: seq<Media>): string
    decreases |media|
  {
    if media == [] then "" else " " + media[0].mid + SpacedMids(media[1..])
  }

  function GroupLine(media: seq<Media>): string {
    AttributeLine("group", "BUNDLE" + SpacedMids(media))
  }

  predicate Bundled(media: seq<Media>) {
    media != [] && forall i :: 0 <= i < |media| ==> media[i].mid != ""
  }

  function KindName(kind: MediaKind): string {
    if kind == Audio then "audio" else "video"
  }

  function MediaBody(m: Media): string {
    KindName(m.kind) + " " + Int(m.port) + " UDP/TLS/RTP/SAVPF " + Int(m.payloadType)
  }

  function MediaLine(m: Media): string {
    "m=" + MediaBody(m)
  }

  function ChannelSuffix(m: Media): string {
    if m.kind == Audio then (if m.channels > 1 then "/" + Int(m.channels) else "/1") else ""
  }

  function RtpmapBody(m: Media): string {
    Int(m.payloadType) + " " + CodecName(m.codec) + "/" + Decimal(m.clockRate) + ChannelSuffix(m)
  }

  function RtpmapLine(m: Media): string {
    AttributeLine("rtpmap", RtpmapBody(m))
  }

  function MidLine(m: Media): string {
    AttributeLine("mid", m.mid)
  }

  function DirectionLine(m: Media): string {
    if m.send then (if m.recv then "a=sendrecv" else "a=sendonly")
    else (if m.recv then "a=recvonly" else "a=inactive")
  }

  function CandidateBody(c: Candidate): string {
    c.foundation + " 1 " + c.protocol + " " + Decimal(c.priority) + " " + c.ip + " " + Decimal(c.port)
    + " typ " + c.kind
  }

  function CandidateLine(c: Candidate): string {
    AttributeLine("candidate", CandidateBody(c))
  }

  // ----- the text -----

  function FixedText(s: Session): string {
    Ended(VersionLine(s)) + (Ended(OriginLine(s)) + (Ended(NameLine(s)) + Ended(TimingLine(s))))
  }

  function SecurityText(s: Session): string {
    Optional(s.ufrag != "", UfragLine(s)) + (Optional(s.password != "", PasswordLine(s))
    + (Optional(s.fingerprint != "", FingerprintLine(s)) + Optional(s.setup != "", SetupLine(s))))
  }

  function GroupText(s: Session): string {
    Optional(Bundled(s.media), GroupLine(s.media)) + Ended("a=ice-options:trickle")
  }

  function MediaBlock(m: Media): string {
    Ended(MediaLine(m)) + (Ended(RtpmapLine(m)) + (Optional(m.mid != "", MidLine(m))
    + (Ended("a=rtcp-mux") + Ended(DirectionLine(m)))))
  }

  function MediaText(media: seq<Media>): string
    decreases |media|
  {
    if media == [] then "" else MediaBlock(media[0]) + MediaText(media[1..])
  }

  function CandidateText(candidates: seq<Candidate>): string
    decreases |candidates|
  {
    if candidates == [] then "" else Ended(CandidateLine(candidates[0])) + CandidateText(candidates[1..])
  }

  function Generated(s: Session): string {
    FixedText(s) + (SecurityText(s) + (GroupText(s) + (MediaText(s.media) + CandidateText(s.candidates))))
  }

  // ----- it always fits -----

  lemma Powers()
    ensures Pow10(20) > TWO_64 && Pow10(10) > TWO_32 && Pow10(5) > TWO_16
  {
    assert Pow10(5) == 100000 by { assert Pow10(3) == 1000; }
    assert Pow10(10) == 10000000000 by { assert Pow10(7) == 10000000; }
    assert Pow10(15) == 1000000000000000 by { assert Pow10(12) == 1000000000000; }
    assert Pow10(20) == 100000000000000000000 by { assert Pow10(17) == 100000000000000000; }
  }

  lemma NumberLengths(a: uint64, b: uint32, c: uint16, d: int32)
    ensures |Decimal(a)| <= 20 && |Decimal(b)| <= 10 && |Decimal(c)| <= 5 && |Int(d)| <= 11
  {
    hide Decimal;
    Powers();
    DecimalLength(a, 20);
    DecimalLength(b, 10);
    DecimalLength(c, 5);
    var v: int := d;
    DecimalLength(if v < 0 then -v else v, 10);
  }

  lemma FixedLength(s: Session)
    requires Held(s)
    ensures |FixedText(s)| <= 800
  {
    hide Decimal, Int;
    NumberLengths(s.id, 0, 0, s.version);
    NumberLengths(s.revision, 0, 0, 0);
    NumberLengths(s.start, 0, 0, 0);
    NumberLengths(s.stop, 0, 0, 0);
    assert |OriginLine(s)| <= 400;
  }

  lemma SecurityLength(s: Session)
    requires Held(s)
    ensures |SecurityText(s)| <= 400
  {
  }

  lemma {:induction false} MidsLength(media: seq<Media>)
    requires forall i :: 0 <= i < |media| ==> |media[i].mid| < 16
    ensures |SpacedMids(media)| <= 16 * |media|
    decreases |media|
  {
    if media != [] {
      MidsLength(media[1..]);
    }
  }

  lemma OneMediaLength(m: Media)
    requires |m.mid| < 16
    ensures |MediaBlock(m)| <= 200
  {
    hide Decimal, Int;
    NumberLengths(0, m.clockRate, 0, m.port);
    NumberLengths(0, 0, 0, m.payloadType);
    NumberLengths(0, 0, 0, m.channels);
    assert |MediaLine(m)| <= 50 && |RtpmapLine(m)| <= 50;
  }

  lemma {:induction false} MediaLength(media: seq<Media>)
    requires forall i :: 0 <= i < |media| ==> |media[i].mid| < 16
    ensures |MediaText(media)| <= 200 * |media|
    decreases |media|
  {
    hide MediaBlock;
    if media != [] {
      OneMediaLength(media[0]);
      MediaLength(media[1..]);
    }
  }

  lemma CandidateLength(c: Candidate)
    requires CandidateHeld(c)
    ensures |CandidateLine(c)| <= 180
  {
    hide Decimal;
    NumberLengths(0, c.priority, c.port, 0);
  }

  lemma {:induction false} CandidatesLength(candidates: seq<Candidate>)
    requires forall i :: 0 <= i < |candidates| ==> CandidateHeld(candidates[i])
    ensures |CandidateText(candidates)| <= 182 * |candidates|
    decreases |candidates|
  {
    hide CandidateLine, CandidateHeld;
    if candidates != [] {
      CandidateLength(candidates[0]);
      CandidatesLength(candidates[1..]);
    }
  }

  /** Whatever a session structure holds, its text is shorter than the buffer. */
  lemma AlwaysFits(s: Session)
    requires Held(s)
    ensures |Generated(s)| < TEXT_LEN
  {
    hide FixedText, SecurityText, MediaText, CandidateText, CandidateHeld, GroupLine;
    FixedLength(s);
    SecurityLength(s);
    MidsLength(s.media);
    GroupLength(s.media);
    MediaLength(s.media);
    CandidatesLength(s.candidates);
  }

  lemma GroupLength(media: seq<Media>)
    ensures |GroupLine(media)| == 14 + |SpacedMids(media)|
  {
  }

  // ----- the printer -----

  /** How much of a text snprintf stores: room is needed for the terminator. */
  function Stored(text: string, room: nat): (n: nat)
    ensures n <= |text| && (room > 0 ==> n < room)
  {
    if room == 0 then 0 else Min(|text|, room - 1)
  }

  /** snprintf at an offset: stores what there is room for and a terminator, and counts everything. */
  method Append(buffer: array<char>, offset: nat, text: string) returns (next: nat)
    requires offset <= buffer.Length
    modifies buffer
    ensures next == offset + |text|
    ensures offset == buffer.Length ==> buffer[..] == old(buffer[..])
    ensures offset < buffer.Length ==>
      var end := offset + Stored(text, buffer.Length - offset);
      && buffer[..end] == old(buffer[..offset]) + text[..end - offset]
      && buffer[end] == '\0'
      && buffer[end + 1..] == old(buffer[..])[end + 1..]
  {
    var room := buffer.Length - offset;
    var i := 0;
    while i < |text| && i + 1 < room
      invariant 0 <= i <= |text| && (i == 0 || i < room)
      invariant forall k :: 0 <= k < buffer.Length ==>
        buffer[k] == if offset <= k < offset + i then text[k - offset] else old(buffer[k])
    {
      buffer[offset + i] := text[i];
      i := i + 1;
    }
    if room > 0 {
      buffer[offset + i] := '\0';
    }
    next := offset + |text|;
  }

  method AppendFitting(buffer: array<char>, offset: nat, text: string) returns (next: nat)
    requires offset + |text| < buffer.Length
    modifies buffer
    ensures next == offset + |text|
    ensures buffer[..next] == old(buffer[..offset]) + text && buffer[next] == '\0'
  {
    next := Append(buffer, offset, text);
  }

  method AppendLine(buffer: array<char>, offset: nat, line: string) returns (next: nat)
    requires offset + |line| + 2 < buffer.Length
    modifies buffer
    ensures next == offset + |line| + 2
    ensures buffer[..next] == old(buffer[..offset]) + Ended(line) && buffer[next] == '\0'
  {
    next := AppendFitting(buffer, offset, line + CRLF);
  }

  method AppendOptional(buffer: array<char>, offset: nat, present: bool, line: string) returns (next: nat)
    requires offset + |Optional(present, line)| < buffer.Length
    modifies buffer
    ensures next == offset + |Optional(present, line)|
    ensures buffer[..next] == old(buffer[..offset]) + Optional(present, line)
  {
    next := offset;
    if present {
      next := AppendLine(buffer, offset, line);
    } else {
      assert buffer[..offset] == buffer[..offset] + "";
    }
  }

  method AppendFixed(buffer: array<char>, offset: nat, s: Session) returns (next: nat)
    requires offset + |FixedText(s)| < buffer.Length
    modifies buffer
    ensures next == offset + |FixedText(s)|
    ensures buffer[..next] == old(buffer[..offset]) + FixedText(s)
  {
    hide VersionLine, OriginLine, NameLine, TimingLine, Ended;
    ghost var before := buffer[..offset];
    ghost var v, o, n, t := Ended(VersionLine(s)), Ended(OriginLine(s)), Ended(NameLine(s)), Ended(TimingLine(s));
    next := AppendLine(buffer, offset, VersionLine(s));
    next := AppendLine(buffer, next, OriginLine(s));
    next := AppendLine(buffer, next, NameLine(s));
    next := AppendLine(buffer, next, TimingLine(s));
    Regroup(before + v + o, n, t);
    Regroup(before + v, o, n + t);
    Regroup(before, v, o + (n + t));
  }

  method AppendSecurity(buffer: array<char>, offset: nat, s: Session) returns (next: nat)
    requires offset + |SecurityText(s)| < buffer.Length
    modifies buffer
    ensures next == offset + |SecurityText(s)|
    ensures buffer[..next] == old(buffer[..offset]) + SecurityText(s)
  {
    hide UfragLine, PasswordLine, FingerprintLine, SetupLine, Optional;
    ghost var before := buffer[..offset];
    ghost var u, p := Optional(s.ufrag != "", UfragLine(s)), Optional(s.password != "", PasswordLine(s));
    ghost var f, d := Optional(s.fingerprint != "", FingerprintLine(s)), Optional(s.setup != "", SetupLine(s));
    next := AppendOptional(buffer, offset, s.ufrag != "", UfragLine(s));
    next := AppendOptional(buffer, next, s.password != "", PasswordLine(s));
    next := AppendOptional(buffer, next, s.fingerprint != "", FingerprintLine(s));
    next := AppendOptional(buffer, next, s.setup != "", SetupLine(s));
    Regroup(before + u + p, f, d);
    Regroup(before + u, p, f + d);
    Regroup(before, u, p + (f + d));
  }

  lemma MidsCons(media: seq<Media>, i: nat)
    requires i < |media|
    ensures SpacedMids(media[i..]) == (" " + media[i].mid) + SpacedMids(media[i + 1..])
  {
    assert media[i..][1..] == media[i + 1..];
  }

  /** The one line that is printed in pieces. */
  method AppendGroupLine(buffer: array<char>, offset: nat, media: seq<Media>) returns (next: nat)
    requires offset + |GroupLine(media)| + 2 < buffer.Length
    modifies buffer
    ensures next == offset + |GroupLine(media)| + 2
    ensures buffer[..next] == old(buffer[..offset]) + Ended(GroupLine(media))
  {
    hide SpacedMids;
    ghost var before := buffer[..offset];
    ghost var head := "a=group:BUNDLE";
    next := AppendFitting(buffer, offset, "a=group:BUNDLE");
    ghost var done := "";
    var i := 0;
    assert media[0..] == media;
    while i < |media|
      invariant 0 <= i <= |media|
      invariant next == offset + |head| + |done| < buffer.Length
      invariant buffer[..next] == before + head + done
      invariant done + SpacedMids(media[i..]) == SpacedMids(media)
    {
      MidsCons(media, i);
      Regroup(done, " " + media[i].mid, SpacedMids(media[i + 1..]));
      Regroup(before + head, done, " " + media[i].mid);
      next := AppendFitting(buffer, next, " " + media[i].mid);
      done := done + (" " + media[i].mid);
      i := i + 1;
    }
    assert done == SpacedMids(media) by { NoMids(media); }
    next := AppendFitting(buffer, next, CRLF);
    GroupEnded(before, media);
  }

  lemma NoMids(media: seq<Media>)
    ensures SpacedMids(media[|media|..]) == ""
  {
  }

  lemma GroupEnded(before: string, media: seq<Media>)
    ensures before + "a=group:BUNDLE" + SpacedMids(media) + CRLF == before + Ended(GroupLine(media))
  {
    hide SpacedMids;
    assert "a=" + "group" + ":" + ("BUNDLE" + SpacedMids(media)) == "a=group:BUNDLE" + SpacedMids(media);
  }

  method AppendGroup(buffer: array<char>, offset: nat, s: Session) returns (next: nat)
    requires offset + |GroupText(s)| < buffer.Length
    modifies buffer
    ensures next == offset + |GroupText(s)|
    ensures buffer[..next] == old(buffer[..offset]) + GroupText(s)
  {
    hide GroupLine;
    ghost var before := buffer[..offset];
    next := offset;
    if |s.media| > 0 {
      var all := true;
      var i := 0;
      while i < |s.media|
        invariant 0 <= i <= |s.media| && all
        invariant forall k :: 0 <= k < i ==> s.media[k].mid != ""
      {
        if s.media[i].mid == "" {
          all := false;
          break;
        }
        i := i + 1;
      }
      assert all == Bundled(s.media);
      if all {
        next := AppendGroupLine(buffer, offset, s.media);
      }
    }
    ghost var group := Optional(Bundled(s.media), GroupLine(s.media));
    assert buffer[..next] == before + group;
    next := AppendLine(buffer, next, "a=ice-options:trickle");
    Regroup(before, group, Ended("a=ice-options:trickle"));
  }

  method AppendMedia(buffer: array<char>, offset: nat, m: Media) returns (next: nat)
    requires offset + |MediaBlock(m)| < buffer.Length
    modifies buffer
    ensures next == offset + |MediaBlock(m)|
    ensures buffer[..next] == old(buffer[..offset]) + MediaBlock(m)
  {
    hide MediaLine, RtpmapLine, MidLine, DirectionLine, Ended, Optional;
    ghost var before := buffer[..offset];
    ghost var a, b, c := Ended(MediaLine(m)), Ended(RtpmapLine(m)), Optional(m.mid != "", MidLine(m));
    ghost var d, e := Ended("a=rtcp-mux"), Ended(DirectionLine(m));
    next := AppendLine(buffer, offset, MediaLine(m));
    next := AppendLine(buffer, next, RtpmapLine(m));
    next := AppendOptional(buffer, next, m.mid != "", MidLine(m));
    next := AppendLine(buffer, next, "a=rtcp-mux");
    next := AppendLine(buffer, next, DirectionLine(m));
    Regroup(before + a + b + c, d, e);
    Regroup(before + a + b, c, d + e);
    Regroup(before + a, b, c + (d + e));
    Regroup(before, a, b + (c + (d + e)));
  }

  lemma MediaCons(media: seq<Media>, i: nat)
    requires i < |media|
    ensures MediaText(media[i..]) == MediaBlock(media[i]) + MediaText(media[i + 1..])
  {
    hide MediaBlock;
    assert media[i..][1..] == media[i + 1..];
  }

  method AppendAllMedia(buffer: array<char>, offset: nat, media: seq<Media>) returns (next: nat)
    requires offset + |MediaText(media)| < buffer.Length
    modifies buffer
    ensures next == offset + |MediaText(media)|
    ensures buffer[..next] == old(buffer[..offset]) + MediaText(media)
  {
    hide MediaBlock, MediaText;
    ghost var before, done := buffer[..offset], "";
    next := offset;
    assert media[0..] == media;
    for i := 0 to |media|
      invariant next == offset + |done| < buffer.Length
      invariant buffer[..next] == before + done
      invariant done + MediaText(media[i..]) == MediaText(media)
    {
      MediaCons(media, i);
      Regroup(done, MediaBlock(media[i]), MediaText(media[i + 1..]));
      Regroup(before, done, MediaBlock(media[i]));
      next := AppendMedia(buffer, next, media[i]);
      done := done + MediaBlock(media[i]);
    }
    assert done == MediaText(media) by { NoMedia(media); }
  }

  lemma NoMedia(media: seq<Media>)
    ensures MediaText(media[|media|..]) == ""
  {
  }

  lemma CandidateCons(candidates: seq<Candidate>, i: nat)
    requires i < |candidates|
    ensures CandidateText(candidates[i..]) == Ended(CandidateLine(candidates[i])) + CandidateText(candidates[i + 1..])
  {
    hide CandidateLine;
    assert candidates[i..][1..] == candidates[i + 1..];
  }

  method AppendCandidates(buffer: array<char>, offset: nat, candidates: seq<Candidate>) returns (next: nat)
    requires offset + |CandidateText(candidates)| < buffer.Length
    modifies buffer
    ensures next == offset + |CandidateText(candidates)|
    ensures buffer[..next] == old(buffer[..offset]) + CandidateText(candidates)
  {
    hide CandidateLine, CandidateText, Ended;
    ghost var before, done := buffer[..offset], "";
    next := offset;
    assert candidates[0..] == candidates;
    for i := 0 to |candidates|
      invariant next == offset + |done| < buffer.Length
      invariant buffer[..next] == before + done
      invariant done + CandidateText(candidates[i..]) == CandidateText(candidates)
    {
      CandidateCons(candidates, i);
      Regroup(done, Ended(CandidateLine(candidates[i])), CandidateText(candidates[i + 1..]));
      Regroup(before, done, Ended(CandidateLine(candidates[i])));
      next := AppendLine(buffer, next, CandidateLine(candidates[i]));
      done := done + Ended(CandidateLine(candidates[i]));
    }
    assert done == CandidateText(candidates) by { NoCandidates(candidates); }
  }

  lemma NoCandidates(candidates: seq<Candidate>)
    ensures CandidateText(candidates[|candidates|..]) == ""
  {
  }

  /** Nothing is truncated, for any session that a structure can hold. */
  method Generate(s: Session) returns (buffer: array<char>, len: nat)
    requires Held(s)
    ensures fresh(buffer) && buffer.Length == TEXT_LEN
    ensures len < TEXT_LEN && buffer[..len] == Generated(s) && buffer[len] == '\0'
  {
    hide FixedText, SecurityText, GroupText, MediaText, CandidateText;
    AlwaysFits(s);
    buffer := new char[TEXT_LEN];
    len := AppendFixed(buffer, 0, s);
    len := AppendSecurity(buffer, len, s);
    len := AppendGroup(buffer, len, s);
    len := AppendAllMedia(buffer, len, s.media);
    len := AppendCandidates(buffer, len, s.candidates);
    Regroup(FixedText(s) + SecurityText(s) + GroupText(s), MediaText(s.media), CandidateText(s.candidates));
    Regroup(FixedText(s) + SecurityText(s), GroupText(s), MediaText(s.media) + CandidateText(s.candidates));
    Regroup(FixedText(s), SecurityText(s), GroupText(s) + (MediaText(s.media) + CandidateText(s.candidates)));
    buffer[len] := '\0';
  }
}
