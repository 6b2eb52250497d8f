/**
 * Building a session description: src/signal/sdp_parser.c, lines 480 to 536, with the codec table of
 * src/media_codec.c, lines 26 to 35.
 */
module SdpBuilder {
  import opened Octets
  import opened Packetizer
  import opened Text
  import opened Sdp
  import opened SdpGenerator
  import opened SdpRoundTrip
  import opened SdpExchange
  import SdpParser

  /** A zero asks for the default of the codec. */
  datatype TrackConfig = TrackConfig(
    kind: MediaKind,
    codec: Codec,
    payloadType: int32,
    clockRate: uint32,
    channels: int32,
    mid: string)

  function DefaultPayload(c: Codec): int32 {
    match c
    case H264 => 100
    case OPUS => 111
    case PCMA => 8
    case PCMU => 0
    case G722 => 9
  }

  function CodecClock(c: Codec): uint32 {
    match c
    case H264 => 90000
    case OPUS => 48000
    case _ => 8000
  }

  function CodecChannels(c: Codec): int32 {
    if c == OPUS then 2 else 1
  }

  function MediaFor(t: TrackConfig): Media {
    Media(
      t.kind,
      9,
      0,
      if t.payloadType != 0 then t.payloadType else DefaultPayload(t.codec),
      t.codec,
      if t.clockRate != 0 then t.clockRate else CodecClock(t.codec),
      if t.channels != 0 then t.channels else CodecChannels(t.codec),
      t.mid[..Min(|t.mid|, 15)],
      true,
      true)
  }

  function Clipped(s: string, room: nat): (r: string)
    requires room >= 1
    ensures |r| < room
  {
    s[..Min(|s|, room - 1)]
  }

  function CandidateFor(c: Candidate): Candidate {
    c.(foundation := Clipped(c.foundation, 32), ip := Clipped(c.ip, 64),
       kind := Clipped(c.kind, 32), protocol := Clipped(c.protocol, 16))
  }

  function WithMedia(s: Session, t: TrackConfig): Session {
    if |s.media| >= MAX_MEDIA then s else s.(media := s.media + [MediaFor(t)])
  }

  function WithCandidate(s: Session, c: Candidate): Session {
    if |s.candidates| >= MAX_CANDIDATES then s else s.(candidates := s.candidates + [CandidateFor(c)])
  }

  class Description {
    var session: Session

    constructor ()
      ensures session == EMPTY
    {
      session := EMPTY;
    }

    method AddMedia(t: TrackConfig) returns (ok: bool)
      modifies this`session
      ensures session == WithMedia(old(session), t)
      ensures ok == (|old(session).media| < MAX_MEDIA)
    {
      if |session.media| >= MAX_MEDIA {
        return false;
      }
      var payloadType := if t.payloadType != 0 then t.payloadType else DefaultPayload(t.codec);
      var clock := if t.clockRate != 0 then t.clockRate else CodecClock(t.codec);
      var channels := if t.channels != 0 then t.channels else CodecChannels(t.codec);
      var mid := t.mid[..Min(|t.mid|, 15)];
      session := session.(
        media := session.media + [Media(t.kind, 9, 0, payloadType, t.codec, clock, channels, mid, true, true)]);
      ok := true;
    }

    method AddCandidate(c: Candidate) returns (ok: bool)
      modifies this`session
      ensures session == WithCandidate(old(session), c)
      ensures ok == (|old(session).candidates| < MAX_CANDIDATES)
    {
      if |session.candidates| >= MAX_CANDIDATES {
        return false;
      }
      session := session.(candidates := session.candidates + [CandidateFor(c)]);
      ok := true;
    }
  }

  /** Nothing that is added overruns the arrays of the structure, so whatever was built can be printed. */
  lemma BuiltHeld(s: Session, t: TrackConfig, c: Candidate)
    requires Held(s)
    ensures Held(WithMedia(s, t)) && Held(WithCandidate(s, c))
  {
    assert CandidateHeld(CandidateFor(c));
  }

  /** A track that was added survives printing and parsing unchanged exactly when its channel count is printed. */
  lemma MediaStable(t: TrackConfig)
    ensures var m := MediaFor(t);
      NormalMedia(m) == m <==> m.channels == 1 || (t.kind == Audio && m.channels > 1)
  {
    hide SdpParser.NewMedia;
  }

  /** What was asked for is kept, an added track goes both ways over port 9, and a third one is not added. */
  lemma TrackAdded(s: Session, t: TrackConfig)
    ensures |s.media| >= 2 ==> WithMedia(s, t) == s
    ensures |s.media| < 2 ==>
      var media := WithMedia(s, t).media;
      var m := MediaFor(t);
      && WithMedia(s, t) == s.(media := media) && media == s.media + [m]
      && m.kind == t.kind && m.codec == t.codec && m.port == 9 && m.send && m.recv
      && m.mid <= t.mid && |m.mid| == Min(|t.mid|, 15)
      && (t.payloadType != 0 ==> m.payloadType == t.payloadType)
      && (t.clockRate != 0 ==> m.clockRate == t.clockRate)
      && (t.channels != 0 ==> m.channels == t.channels)
  {
  }

  /** Texts are cut to what their arrays hold, everything else is kept, and a 33rd candidate is not added. */
  lemma CandidateAdded(s: Session, c: Candidate)
    ensures |s.candidates| >= 32 ==> WithCandidate(s, c) == s
    ensures |s.candidates| < 32 ==>
      var d := CandidateFor(c);
      && WithCandidate(s, c) == s.(candidates := s.candidates + [d])
      && d.foundation <= c.foundation && |d.foundation| == Min(|c.foundation|, 31)
      && d.ip <= c.ip && |d.ip| == Min(|c.ip|, 63)
      && d.kind <= c.kind && |d.kind| == Min(|c.kind|, 31)
      && d.protocol <= c.protocol && |d.protocol| == Min(|c.protocol|, 15)
      && d.priority == c.priority && d.port == c.port && d.ipv6 == c.ipv6
  {
  }

  /**
   * The defaults of a codec are those that its default payload type stands for: the media line alone
   * tells codec, clock rate and channels.
   */
  lemma DefaultsAgree(t: TrackConfig, s: Session, more: string, u: SdpParser.Unset)
    requires t.payloadType == 0 && t.clockRate == 0 && t.channels == 0 && |s.media| < 2
    ensures SdpParser.ParseFrom(s, Ended(MediaLine(MediaFor(t))) + more, u) ==
      SdpParser.ParseFrom(s.(media := s.media + [MediaFor(t).(mid := "", proto := 0)]), more, u)
  {
    hide SdpParser.ParseFrom, MediaLine;
    MediaLineRead(MediaFor(t), s, more, u);
  }

  /** The default configurations of two different codecs are told apart by their payload types. */
  lemma DefaultsDistinguished(a: TrackConfig, b: TrackConfig)
    requires a.payloadType == 0 && b.payloadType == 0 && a.codec != b.codec
    ensures Distinguished([MediaFor(a), MediaFor(b)])
  {
    hide IsDefault;
  }

  /**
   * Two tracks of different codecs that ask for the default payload types are told apart, so the
   * session with both survives exactly when its other fields and the two identifications are clean.
   */
  lemma DefaultTracksSurvive(s: Session, a: TrackConfig, b: TrackConfig, u: SdpParser.Unset)
    requires Held(s) && s.media == []
    requires a.payloadType == 0 && b.payloadType == 0 && a.codec != b.codec
    ensures var built := WithMedia(WithMedia(s, a), b);
      var r := SdpParser.ParseText(Generated(built), u);
      r.Parsed? && r.session == Normalized(built)
      <==> Clean(s) && Field(MediaFor(a).mid) && Field(MediaFor(b).mid)
  {
    hide SdpParser.ParseText, Generated, Normalized, Distinguished, Held, Field, MediaFor;
    var built := WithMedia(WithMedia(s, a), b);
    TwoAdded(s, a, b);
    DefaultsDistinguished(a, b);
    SurvivesExactly(built, u);
  }

  lemma TwoAdded(s: Session, a: TrackConfig, b: TrackConfig)
    requires Held(s) && s.media == []
    ensures var built := WithMedia(WithMedia(s, a), b);
      && built.media == [MediaFor(a), MediaFor(b)] && Held(built)
      && (Clean(built) <==> Clean(s) && Field(MediaFor(a).mid) && Field(MediaFor(b).mid))
  {
    hide Field, Token, CandidateClean, CandidateHeld, MediaFor;
    var built := WithMedia(WithMedia(s, a), b);
    assert |MediaFor(a).mid| < 16 && |MediaFor(b).mid| < 16 by { ShortMid(a); ShortMid(b); }
    assert built.media == [MediaFor(a), MediaFor(b)];
    assert MediaClean(MediaFor(a)) <==> Field(MediaFor(a).mid);
    assert MediaClean(MediaFor(b)) <==> Field(MediaFor(b).mid);
    if Clean(built) {
      assert MediaClean(built.media[0]) && MediaClean(built.media[1]);
    }
  }

  lemma ShortMid(t: TrackConfig)
    ensures |MediaFor(t).mid| < 16
  {
  }
}
