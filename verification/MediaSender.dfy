/**
 * Sending media: src/peer_connection.c, lines 757 to 930.
 *
 * The socket is the list of packets sent. The packetizer here returns its payloads and the
 * send loop takes them one by one, which is what the C packetizer does through its callback.
 */
module MediaSender {
  import opened Octets
  import opened Packetizer
  import opened MediaReceiver
  import Rtp
  import Srtp

  const SEND_MTU := 1500
  const AUTH_TAG_RESERVED := 10
  const MAX_PAYLOAD := SEND_MTU - AUTH_TAG_RESERVED - RTP_HEADER_LEN

  function MediaHeader(payloadType: byte, sequence: uint16, timestamp: uint32, marker: bool): Rtp.Header {
    Rtp.Header(2, false, false, 0, marker, payloadType, sequence, timestamp, 0, [])
  }

  function ClearPacket(payloadType: byte, sequence: uint16, timestamp: uint32, payload: Payload): (r: Bytes)
    ensures |r| == RTP_HEADER_LEN + |payload.bytes|
  {
    Rtp.HeaderBytes(MediaHeader(payloadType, sequence, timestamp, payload.marker)) + payload.bytes
  }

  function Seal(protection: Protection, packet: Bytes): Bytes
    requires |packet| >= RTP_HEADER_LEN
  {
    match protection
    case Clear => packet
    case Sealed(primitives, keys) => Srtp.Protected(primitives, keys, packet)
  }

  function Next(sequence: uint16): uint16 {
    if sequence == 0xFFFF then 0 else sequence + 1
  }

  /** The number of the packet n places later. */
  function Later(sequence: uint16, n: nat): (r: uint16)
    ensures r == (sequence + n) % TWO_16
    decreases n
  {
    if n == 0 then sequence else Later(Next(sequence), n - 1)
  }

  /** The packets a list of payloads is sent as, numbered from `sequence` on. */
  function Packets(protection: Protection, payloadType: byte, sequence: uint16, timestamp: uint32, payloads: seq<Payload>)
    : seq<Bytes>
    decreases |payloads|
  {
    if payloads == [] then []
    else [Seal(protection, ClearPacket(payloadType, sequence, timestamp, payloads[0]))]
         + Packets(protection, payloadType, Next(sequence), timestamp, payloads[1..])
  }

  lemma {:induction false} PacketsLength(protection: Protection, payloadType: byte, sequence: uint16, timestamp: uint32,
                                         payloads: seq<Payload>)
    ensures |Packets(protection, payloadType, sequence, timestamp, payloads)| == |payloads|
    decreases |payloads|
  {
    hide Seal, ClearPacket;
    if payloads != [] {
      PacketsLength(protection, payloadType, Next(sequence), timestamp, payloads[1..]);
    }
  }

  function SentFrame(protection: Protection, codec: Codec, payloadType: byte, sequence: uint16, timestamp: uint32,
                     frame: Bytes): seq<Bytes> {
    Packets(protection, payloadType, sequence, timestamp,
            FramePayloads(codec, frame, SEND_MTU - AUTH_TAG_RESERVED))
  }

  // ----- every payload fits the packet buffer -----

  predicate Fits(payloads: seq<Payload>, max: nat) {
    forall p :: p in payloads ==> 0 < |p.bytes| <= max
  }

  lemma UnitFits(unit: Bytes, max: nat, last: bool)
    requires max > 2
    ensures Fits(UnitPayloads(unit, max, last), max)
  {
    if |unit| > max {
      OversizedUnit(unit, max, last);
    }
  }

  lemma {:induction false} PiecesFit(pieces: seq<Piece>, max: nat)
    requires max > 2
    ensures Fits(PiecePayloads(pieces, max), max)
  {
    hide UnitPayloads;
    if pieces != [] {
      UnitFits(pieces[0].unit, max, |pieces| == 1);
      PiecesFit(pieces[1..], max);
    }
  }

  lemma {:induction false} ChunksFit(frame: Bytes, max: nat)
    requires max > 0
    ensures Fits(Chunks(frame, max), max)
    decreases |frame|
  {
    if frame != [] {
      ChunksFit(frame[Min(|frame|, max)..], max);
    }
  }

  lemma {:induction false} NothingSent(pieces: seq<Piece>, max: nat)
    requires max > 2
    ensures PiecePayloads(pieces, max) == [] <==> forall p :: p in pieces ==> p.unit == []
    decreases |pieces|
  {
    hide UnitPayloads;
    if pieces != [] {
      SomethingSent(pieces[0].unit, max, |pieces| == 1);
      NothingSent(pieces[1..], max);
      assert forall p :: p in pieces ==> p == pieces[0] || p in pieces[1..];
      assert pieces[0] in pieces;
    }
  }

  lemma SomethingSent(unit: Bytes, max: nat, last: bool)
    requires max > 2
    ensures UnitPayloads(unit, max, last) == [] <==> unit == []
  {
    if |unit| > max {
      OversizedUnit(unit, max, last);
    }
  }

  /**
   * A frame is refused below an MTU of 20; else no payload is empty or longer than the MTU leaves room
   * for behind a header of 12 bytes, and there are payloads unless there is nothing to send.
   */
  lemma PayloadsFit(codec: Codec, frame: Bytes, mtu: uint32)
    ensures var payloads := FramePayloads(codec, frame, mtu);
      if mtu < 20 then payloads == []
      else
        && Fits(payloads, mtu - 12)
        && (payloads == [] <==> if codec == H264 then forall p :: p in FramePieces(frame) ==> p.unit == [] else frame == [])
  {
    hide PiecePayloads, FramePieces, Fits;
    if mtu >= 20 {
      PiecesFit(FramePieces(frame), mtu - 12);
      NothingSent(FramePieces(frame), mtu - 12);
      ChunksFit(frame, mtu - 12);
    }
  }

  lemma FrameFits(codec: Codec, frame: Bytes)
    ensures Fits(FramePayloads(codec, frame, SEND_MTU - AUTH_TAG_RESERVED), MAX_PAYLOAD)
  {
    hide PiecePayloads, Chunks, FramePieces;
    PayloadsFit(codec, frame, SEND_MTU - AUTH_TAG_RESERVED);
  }

  // ----- the sender -----

  class Sender {
    const codec: Codec
    const payloadType: byte
    const srtp: Srtp.Context?
    var nextSequence: uint16
    var framesSent: nat
    var bytesSent: nat
    var sent: seq<Bytes>

    constructor (codec: Codec, payloadType: byte, srtp: Srtp.Context?)
      ensures this.codec == codec && this.payloadType == payloadType && this.srtp == srtp
      ensures nextSequence == 0 && sent == []
    {
      this.codec, this.payloadType, this.srtp := codec, payloadType, srtp;
      nextSequence, framesSent, bytesSent, sent := 0, 0, 0, [];
    }

    ghost function Protecting(): Protection {
      if srtp == null then Clear else Sealed(srtp.primitives, srtp.keys)
    }

    /** Builds, protects and sends one packet. */
    method SendPayload(payload: Payload, sequence: uint16, timestamp: uint32)
      requires |payload.bytes| <= MAX_PAYLOAD
      modifies this, srtp
      ensures sent == old(sent) + [Seal(Protecting(), ClearPacket(payloadType, sequence, timestamp, payload))]
      ensures nextSequence == Next(sequence)
      ensures framesSent == old(framesSent) && bytesSent == old(bytesSent)
    {
      hide Rtp.HeaderBytes, Srtp.Protected;
      var buffer := new byte[1500](_ => 0);
      var header := MediaHeader(payloadType, sequence, timestamp, payload.marker);
      var headerLen := Rtp.BuildHeader(header, buffer, 1500);
      assert buffer[..headerLen] == Rtp.HeaderBytes(header);
      ghost var headerBytes := buffer[..headerLen];
      CopyInto(buffer, headerLen, payload.bytes);
      var packetLen := headerLen + |payload.bytes|;
      assert buffer[..packetLen] == headerBytes + payload.bytes;
      if srtp != null {
        var status, newLen := srtp.Encrypt(buffer, packetLen, 1500);
        packetLen := newLen;
      }
      sent := sent + [buffer[..packetLen]];
      nextSequence := Next(sequence);
    }

    method SendFrame(frame: Bytes, timestamp: uint32)
      modifies this, srtp
      ensures var packets := SentFrame(Protecting(), codec, payloadType, old(nextSequence), timestamp, frame);
        sent == old(sent) + packets && nextSequence == Later(old(nextSequence), |packets|)
      ensures framesSent == old(framesSent) + 1 && bytesSent == old(bytesSent) + |frame|
    {
      hide FramePayloads, Seal, ClearPacket;
      var payloads := PacketizeFrame(codec, frame, SEND_MTU - AUTH_TAG_RESERVED);
      FrameFits(codec, frame);
      var i := 0;
      PacketsLength(Protecting(), payloadType, nextSequence, timestamp, payloads);
      ghost var todo := Packets(Protecting(), payloadType, nextSequence, timestamp, payloads);
      ghost var all := sent + todo;
      assert payloads[0..] == payloads;
      while i < |payloads|
        invariant 0 <= i <= |payloads|
        invariant todo == Packets(Protecting(), payloadType, nextSequence, timestamp, payloads[i..])
        invariant sent + todo == all
        invariant Later(nextSequence, |payloads| - i) == Later(old(nextSequence), |payloads|)
        invariant framesSent == old(framesSent) && bytesSent == old(bytesSent)
      {
        assert payloads[i] in payloads;
        assert payloads[i..][1..] == payloads[i + 1..];
        Regroup(sent, [todo[0]], todo[1..]);
        SendPayload(payloads[i], nextSequence, timestamp);
        todo := todo[1..];
        i := i + 1;
      }
      framesSent := framesSent + 1;
      bytesSent := bytesSent + |frame|;
    }
  }
}
