/** The session description that the printer and the parser share: src/include/sdp_internal.h. */
module Sdp {
  import opened Octets
  import opened Packetizer

  const MAX_MEDIA := 2
  const MAX_CANDIDATES := 32

  /** `kind` is the text of the candidate type. */
  datatype Candidate = Candidate(
    foundation: string,
    priority: uint32,
    ip: string,
    port: uint16,
    kind: string,
    protocol: string,
    ipv6: bool)

  datatype MediaKind = Audio | Video

  datatype Media = Media(
    kind: MediaKind,
    port: int32,
    proto: int32,
    payloadType: int32,
    codec: Codec,
    clockRate: uint32,
    channels: int32,
    mid: string,
    send: bool,
    recv: bool)

  datatype Session = Session(
    version: int32,
    username: string,
    id: uint64,
    revision: uint64,
    networkType: string,
    addressType: string,
    address: string,
    name: string,
    start: uint64,
    stop: uint64,
    ufrag: string,
    password: string,
    fingerprint: string,
    fingerprintType: string,
    media: seq<Media>,
    candidates: seq<Candidate>,
    setup: string)

  /** sdp_session_init. */
  const EMPTY := Session(0, "", 0, 0, "", "", "", "", 0, 0, "", "", "", "", [], [], "")

  // ----- the sizes of the fixed arrays -----

  predicate CandidateHeld(c: Candidate) {
    |c.foundation| < 32 && |c.ip| < 64 && |c.kind| < 32 && |c.protocol| < 16
  }

  /** Everything lies within the arrays of the structure. */
  predicate Held(s: Session) {
    && |s.username| < 256 && |s.networkType| < 16 && |s.addressType| < 16 && |s.address| < 64
    && |s.name| < 256 && |s.ufrag| < 64 && |s.password| < 128
    && |s.fingerprint| < 128 && |s.fingerprintType| < 16 && |s.setup| < 16
    && |s.media| <= MAX_MEDIA && |s.candidates| <= MAX_CANDIDATES
    && (forall i :: 0 <= i < |s.media| ==> |s.media[i].mid| < 16)
    && (forall i :: 0 <= i < |s.candidates| ==> CandidateHeld(s.candidates[i]))
  }

  function CodecName(c: Codec): (r: string)
    ensures |r| == 4
  {
    match c
    case H264 => "H264"
    case OPUS => "OPUS"
    case PCMA => "PCMA"
    case PCMU => "PCMU"
    case G722 => "G722"
  }
}
