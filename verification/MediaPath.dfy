/**
 * The media path from end to end: what is sent as a frame arrives as frames.
 *
 * Packetizing, RTP headers, encryption, decryption, parsing, depacketizing and reassembly are
 * composed, for every frame, key and choice of cipher and hash.
 */
module MediaPath {
  import opened Octets
  import opened Results
  import opened Packetizer
  import opened Depacketizer
  import opened MediaReceiver
  import opened MediaSender
  import JitterBuffer
  import Rtp
  import Srtp

  /** The state after packets arrive in order, the k-th at time clock[k]. */
  function ReceiveAll(s: State, protection: Protection, packets: seq<Bytes>, clock: seq<uint64>): State
    requires |clock| == |packets|
    decreases |packets|
  {
    if packets == [] then s
    else ReceiveAll(Receive(s, protection, packets[0], clock[0]).0, protection, packets[1..], clock[1..])
  }

  // ----- one packet through the network -----

  lemma SealOpens(protection: Protection, packet: Bytes)
    requires |packet| >= RTP_HEADER_LEN
    ensures Opened(protection, Seal(protection, packet)) == Some(packet)
  {
    hide Srtp.Protected, Srtp.Unprotected;
    match protection
    case Clear =>
    case Sealed(primitives, keys) => Srtp.UnprotectedOfProtected(primitives, keys, packet);
  }

  lemma ClearPacketParses(payloadType: byte, sequence: uint16, timestamp: uint32, payload: Payload)
    requires payloadType < 128
    ensures var packet := ClearPacket(payloadType, sequence, timestamp, payload);
      var header := MediaHeader(payloadType, sequence, timestamp, payload.marker);
      && Rtp.Parsed(packet) == Some(header)
      && Rtp.Payload(packet, header) == Some(payload.bytes)
  {
    hide Rtp.Parsed, Rtp.Payload, Rtp.HeaderBytes;
    Rtp.ParsedOfBuilt(MediaHeader(payloadType, sequence, timestamp, payload.marker), payload.bytes);
  }

  /** The share a payload has, whatever packet carries it. */
  lemma PacketShareIsPayloadShare(codec: Codec, payloadType: byte, sequence: uint16, timestamp: uint32, payload: Payload)
    requires payloadType < 128
    ensures PacketShare(codec, ClearPacket(payloadType, sequence, timestamp, payload), FRAME_BUFFER_LEN)
         == PayloadShare(codec, payload.bytes, payload.marker, FRAME_BUFFER_LEN)
  {
    hide Rtp.Parsed, Rtp.Payload, PayloadShare, ClearPacket;
    ClearPacketParses(payloadType, sequence, timestamp, payload);
  }

  // ----- payloads at the receiver -----

  function ShareOf(codec: Codec, payload: Payload): Share {
    PayloadShare(codec, payload.bytes, payload.marker, FRAME_BUFFER_LEN)
  }

  /** The buffer after H.264 payloads of one timestamp, and the frames they complete. */
  function AbsorbPayloads(r: Reassembly, payloads: seq<Payload>, timestamp: uint32): (Reassembly, seq<Bytes>)
    decreases |payloads|
  {
    if payloads == [] then (r, [])
    else
      var (r1, frame) := Absorb(r, ShareOf(H264, payloads[0]), timestamp);
      var (r2, frames) := AbsorbPayloads(r1, payloads[1..], timestamp);
      (r2, (if frame.Some? then [frame.value] else []) + frames)
  }

  /** What payloads of a codec that is not reassembled deliver. */
  function ChunkFrames(codec: Codec, payloads: seq<Payload>): seq<Bytes> {
    if payloads == [] then []
    else (if ShareOf(codec, payloads[0]).complete then [ShareOf(codec, payloads[0]).data] else [])
         + ChunkFrames(codec, payloads[1..])
  }

  function Deliveries(track: nat, frames: seq<Bytes>, timestamp: uint32): seq<Delivery> {
    if frames == [] then [] else [Delivery(track, frames[0], timestamp)] + Deliveries(track, frames[1..], timestamp)
  }

  lemma {:induction false} DeliveriesAppend(track: nat, a: seq<Bytes>, b: seq<Bytes>, timestamp: uint32)
    ensures Deliveries(track, a + b, timestamp) == Deliveries(track, a, timestamp) + Deliveries(track, b, timestamp)
  {
    if a == [] {
      assert a + b == b;
    } else {
      assert (a + b)[1..] == a[1..] + b;
      DeliveriesAppend(track, a[1..], b, timestamp);
    }
  }

  /** Everything but track i, and everything fixed about track i, is as before. */
  predicate OnlyTrackChanged(s: State, t: State, i: nat) {
    && |t.tracks| == |s.tracks| && i < |s.tracks|
    && (forall j :: 0 <= j < |s.tracks| && j != i ==> t.tracks[j] == s.tracks[j])
    && t.tracks[i].codec == s.tracks[i].codec && t.tracks[i].payloadType == s.tracks[i].payloadType
  }

  lemma OnlyTrackChangedTwice(s: State, t: State, u: State, i: nat)
    requires OnlyTrackChanged(s, t, i) && OnlyTrackChanged(t, u, i)
    ensures OnlyTrackChanged(s, u, i)
  {
  }

  lemma OnlyTrackChangedFacts(s: State, t: State, i: nat)
    requires OnlyTrackChanged(s, t, i)
    ensures |t.tracks| == |s.tracks| && i < |s.tracks| && t.tracks[i].codec == s.tracks[i].codec
  {
  }

  /** One frame, if there is one, and the frames after it. */
  lemma DeliveriesCons(track: nat, frame: Option<Bytes>, frames: seq<Bytes>, timestamp: uint32)
    ensures Deliveries(track, (if frame.Some? then [frame.value] else []) + frames, timestamp)
         == (if frame.Some? then [Delivery(track, frame.value, timestamp)] else []) + Deliveries(track, frames, timestamp)
  {
    var first := if frame.Some? then [frame.value] else [];
    DeliveriesAppend(track, first, frames, timestamp);
    assert Deliveries(track, first, timestamp) == if frame.Some? then [Delivery(track, frame.value, timestamp)] else [];
  }

  lemma FindTrackStable(s: State, t: State, i: nat, payloadType: int)
    requires OnlyTrackChanged(s, t, i) && i == FindTrack(s.tracks, payloadType)
    ensures i == FindTrack(t.tracks, payloadType)
  {
    hide FindTrack;
    FindTrackUnique(t.tracks, payloadType, i);
  }

  lemma ReceiveOne(s: State, protection: Protection, payloadType: byte, sequence: uint16, timestamp: uint32,
                   payload: Payload, now: uint64)
    requires payloadType < 128 && FindTrack(s.tracks, payloadType) < |s.tracks|
    ensures var i := FindTrack(s.tracks, payloadType);
      var t := Receive(s, protection, Seal(protection, ClearPacket(payloadType, sequence, timestamp, payload)), now).0;
      var share := ShareOf(s.tracks[i].codec, payload);
      var (r, frame) := Absorb(s.tracks[i].reassembly, share, timestamp);
      && OnlyTrackChanged(s, t, i)
      && t.tracks[i].reassembly == (if s.tracks[i].codec == H264 then r else s.tracks[i].reassembly)
      && t.delivered == s.delivered + if !share.complete then []
         else [Delivery(i, if s.tracks[i].codec == H264 then frame.value else share.data, timestamp)]
  {
    hide Rtp.Parsed, Seal, Opened, ClearPacket, FindTrack, PacketShare, PayloadShare, JitterBuffer.Add, Absorb;
    var i := FindTrack(s.tracks, payloadType);
    var packet := ClearPacket(payloadType, sequence, timestamp, payload);
    SealOpens(protection, packet);
    ClearPacketParses(payloadType, sequence, timestamp, payload);
    PacketShareIsPayloadShare(s.tracks[i].codec, payloadType, sequence, timestamp, payload);
  }

  /** A run of sealed packets does to the H.264 track what their payloads do to its buffer. */
  lemma {:induction false} ReceiveUnits(s: State, protection: Protection, payloadType: byte, sequence: uint16,
                                        timestamp: uint32, payloads: seq<Payload>, clock: seq<uint64>)
    requires payloadType < 128 && |clock| == |payloads|
    requires FindTrack(s.tracks, payloadType) < |s.tracks|
    requires s.tracks[FindTrack(s.tracks, payloadType)].codec == H264
    ensures |Packets(protection, payloadType, sequence, timestamp, payloads)| == |payloads|
    ensures var i := FindTrack(s.tracks, payloadType);
      var t := ReceiveAll(s, protection, Packets(protection, payloadType, sequence, timestamp, payloads), clock);
      var (r, frames) := AbsorbPayloads(s.tracks[i].reassembly, payloads, timestamp);
      && OnlyTrackChanged(s, t, i)
      && t.tracks[i].reassembly == r
      && t.delivered == s.delivered + Deliveries(i, frames, timestamp)
    decreases |payloads|
  {
    hide Receive, Seal, ClearPacket, FindTrack, ShareOf, Absorb, OnlyTrackChanged, Deliveries;
    var i := FindTrack(s.tracks, payloadType);
    if payloads == [] {
      assert Deliveries(i, [], timestamp) == [] by { NoDeliveries(i, timestamp); }
      OnlyTrackUnchanged(s, i);
    } else {
      var share := ShareOf(H264, payloads[0]);
      var packets := Packets(protection, payloadType, sequence, timestamp, payloads);
      var more := Packets(protection, payloadType, Next(sequence), timestamp, payloads[1..]);
      assert packets[0] == Seal(protection, ClearPacket(payloadType, sequence, timestamp, payloads[0]));
      assert packets[1..] == more;
      ReceiveOne(s, protection, payloadType, sequence, timestamp, payloads[0], clock[0]);
      var s1 := Receive(s, protection, packets[0], clock[0]).0;
      OnlyTrackChangedFacts(s, s1, i);
      FindTrackStable(s, s1, i, payloadType);
      ReceiveUnits(s1, protection, payloadType, Next(sequence), timestamp, payloads[1..], clock[1..]);
      OnlyTrackChangedTwice(s, s1, ReceiveAll(s1, protection, more, clock[1..]), i);
      var (r1, frame) := Absorb(s.tracks[i].reassembly, share, timestamp);
      DeliveriesCons(i, frame, AbsorbPayloads(r1, payloads[1..], timestamp).1, timestamp);
    }
  }

  lemma NoDeliveries(i: nat, timestamp: uint32)
    ensures Deliveries(i, [], timestamp) == []
  {
  }

  lemma OnlyTrackUnchanged(s: State, i: nat)
    requires i < |s.tracks|
    ensures OnlyTrackChanged(s, s, i)
  {
  }

  lemma {:induction false} ReceiveChunks(s: State, protection: Protection, payloadType: byte, sequence: uint16,
                                         timestamp: uint32, payloads: seq<Payload>, clock: seq<uint64>)
    requires payloadType < 128 && |clock| == |payloads|
    requires FindTrack(s.tracks, payloadType) < |s.tracks|
    requires s.tracks[FindTrack(s.tracks, payloadType)].codec != H264
    ensures |Packets(protection, payloadType, sequence, timestamp, payloads)| == |payloads|
    ensures var i := FindTrack(s.tracks, payloadType);
      var t := ReceiveAll(s, protection, Packets(protection, payloadType, sequence, timestamp, payloads), clock);
      && OnlyTrackChanged(s, t, i)
      && t.delivered == s.delivered + Deliveries(i, ChunkFrames(s.tracks[i].codec, payloads), timestamp)
    decreases |payloads|
  {
    hide Receive, Seal, ClearPacket, FindTrack, ShareOf, Absorb, OnlyTrackChanged, Deliveries;
    var i := FindTrack(s.tracks, payloadType);
    if payloads == [] {
      assert Deliveries(i, [], timestamp) == [] by { NoDeliveries(i, timestamp); }
      OnlyTrackUnchanged(s, i);
    } else {
      var codec := s.tracks[i].codec;
      var share := ShareOf(codec, payloads[0]);
      var packets := Packets(protection, payloadType, sequence, timestamp, payloads);
      var more := Packets(protection, payloadType, Next(sequence), timestamp, payloads[1..]);
      assert packets[0] == Seal(protection, ClearPacket(payloadType, sequence, timestamp, payloads[0]));
      assert packets[1..] == more;
      ReceiveOne(s, protection, payloadType, sequence, timestamp, payloads[0], clock[0]);
      var s1 := Receive(s, protection, packets[0], clock[0]).0;
      OnlyTrackChangedFacts(s, s1, i);
      FindTrackStable(s, s1, i, payloadType);
      ReceiveChunks(s1, protection, payloadType, Next(sequence), timestamp, payloads[1..], clock[1..]);
      OnlyTrackChangedTwice(s, s1, ReceiveAll(s1, protection, more, clock[1..]), i);
      DeliveriesCons(i, if share.complete then Some(share.data) else None, ChunkFrames(codec, payloads[1..]), timestamp);
    }
  }

  // ----- any packets at all -----

  /** The shares a stream of arbitrary packets contributes to one track. */
  function TrackShares(s: State, protection: Protection, packets: seq<Bytes>, i: nat): seq<(Share, uint32)>
    requires i < |s.tracks|
  {
    if packets == [] then []
    else
      var plain := Opened(protection, packets[0]);
      var header := if plain == None then None else Rtp.Parsed(plain.value);
      (if header == None || FindTrack(s.tracks, header.value.payloadType) != i then []
       else [(PacketShare(s.tracks[i].codec, plain.value, FRAME_BUFFER_LEN), header.value.timestamp)])
      + TrackShares(s, protection, packets[1..], i)
  }

  predicate SameKinds(s: State, t: State) {
    |t.tracks| == |s.tracks|
    && forall j :: 0 <= j < |s.tracks| ==>
         t.tracks[j].codec == s.tracks[j].codec && t.tracks[j].payloadType == s.tracks[j].payloadType
  }

  lemma {:induction false} FindTrackSame(a: seq<TrackState>, b: seq<TrackState>, payloadType: int)
    requires |a| == |b| && forall j :: 0 <= j < |a| ==> a[j].payloadType == b[j].payloadType
    ensures FindTrack(a, payloadType) == FindTrack(b, payloadType)
  {
    FindTrackUnique(b, payloadType, FindTrack(a, payloadType));
  }

  lemma ReceiveKeepsKinds(s: State, protection: Protection, packet: Bytes, now: uint64)
    ensures SameKinds(s, Receive(s, protection, packet, now).0)
  {
    hide Rtp.Parsed, Opened, FindTrack, PacketShare, JitterBuffer.Add, Absorb;
  }

  lemma {:induction false} TrackSharesSame(s: State, t: State, protection: Protection, packets: seq<Bytes>, i: nat)
    requires SameKinds(s, t) && i < |s.tracks|
    ensures TrackShares(s, protection, packets, i) == TrackShares(t, protection, packets, i)
  {
    hide Rtp.Parsed, Opened, FindTrack, PacketShare;
    if packets != [] {
      var plain := Opened(protection, packets[0]);
      var header := if plain == None then None else Rtp.Parsed(plain.value);
      if header.Some? {
        FindTrackSame(s.tracks, t.tracks, header.value.payloadType);
      }
      TrackSharesSame(s, t, protection, packets[1..], i);
    }
  }

  lemma ReceiveOnOneTrack(s: State, protection: Protection, packet: Bytes, now: uint64, i: nat)
    requires i < |s.tracks| && s.tracks[i].codec == H264
    ensures var plain := Opened(protection, packet);
      var header := if plain == None then None else Rtp.Parsed(plain.value);
      var t := Receive(s, protection, packet, now).0;
      && |t.tracks| == |s.tracks|
      && t.tracks[i].reassembly ==
         if header == None || FindTrack(s.tracks, header.value.payloadType) != i then s.tracks[i].reassembly
         else Absorb(s.tracks[i].reassembly, PacketShare(H264, plain.value, FRAME_BUFFER_LEN), header.value.timestamp).0
  {
    hide Rtp.Parsed, Opened, FindTrack, PacketShare, JitterBuffer.Add, Absorb;
  }

  /**
   * Whatever arrives, in whatever order, the reassembly buffer of an H.264 track only ever holds
   * bytes of packets with one timestamp, the one it records, and is active exactly when it holds some.
   */
  lemma {:induction false} ReassemblyNeverMixes(s: State, protection: Protection, packets: seq<Bytes>,
                                                clock: seq<uint64>, i: nat, was: Traced)
    requires |clock| == |packets| && i < |s.tracks| && s.tracks[i].codec == H264
    requires was.buffer == s.tracks[i].reassembly && OneFrame(was)
    ensures var t := ReceiveAll(s, protection, packets, clock);
      var now := AbsorbAll(was, TrackShares(s, protection, packets, i));
      && SameKinds(s, t) && t.tracks[i].reassembly == now.buffer && OneFrame(now)
    decreases |packets|
  {
    hide Rtp.Parsed, Opened, FindTrack, PacketShare, Receive, OneFrame;
    NeverMixed(was, TrackShares(s, protection, packets, i));
    if packets != [] {
      var s1 := Receive(s, protection, packets[0], clock[0]).0;
      ReceiveKeepsKinds(s, protection, packets[0], clock[0]);
      ReceiveOnOneTrack(s, protection, packets[0], clock[0], i);
      TrackSharesSame(s, s1, protection, packets[1..], i);
      var plain := Opened(protection, packets[0]);
      var header := if plain == None then None else Rtp.Parsed(plain.value);
      if header == None || FindTrack(s.tracks, header.value.payloadType) != i {
        assert TrackShares(s, protection, packets, i) == TrackShares(s, protection, packets[1..], i);
        ReassemblyNeverMixes(s1, protection, packets[1..], clock[1..], i, was);
      } else {
        var share := PacketShare(H264, plain.value, FRAME_BUFFER_LEN);
        AbsorbKeepsOneFrame(was, share, header.value.timestamp);
        assert TrackShares(s, protection, packets, i)
            == [(share, header.value.timestamp)] + TrackShares(s, protection, packets[1..], i);
        ReassemblyNeverMixes(s1, protection, packets[1..], clock[1..], i, AbsorbTraced(was, share, header.value.timestamp));
      }
    }
  }

  // ----- what the receiver keeps account of -----

  /** Track i is the first with this payload type. */
  predicate IsFor(tracks: seq<TrackState>, payloadType: int, i: nat) {
    && i < |tracks| && tracks[i].payloadType == payloadType
    && forall j :: 0 <= j < i ==> tracks[j].payloadType != payloadType
  }

  /** The packet without its protection, if that can be removed and a header follows. */
  function Readable(protection: Protection, packet: Bytes): Option<(Bytes, Rtp.Header)> {
    var plain := Opened(protection, packet);
    if plain == None then None
    else
      var header := Rtp.Parsed(plain.value);
      if header == None then None else Some((plain.value, header.value))
  }

  /** Exactly which status a packet is answered with; without success it changes nothing. */
  lemma StatusExactly(s: State, protection: Protection, packet: Bytes, now: uint64)
    ensures var (t, status) := Receive(s, protection, packet, now);
      var found := Readable(protection, packet);
      && (status == Ok <==> found.Some? && exists i :: IsFor(s.tracks, found.value.1.payloadType, i))
      && (status == NotFound <==>
            found.Some? && forall i :: 0 <= i < |s.tracks| ==> s.tracks[i].payloadType != found.value.1.payloadType)
      && (status == Error <==> found.None?)
      && (status != Ok ==> t == s)
  {
    hide Rtp.Parsed, Opened, FindTrack, TrackReceive;
    var found := Readable(protection, packet);
    if found.Some? {
      var i := FindTrack(s.tracks, found.value.1.payloadType);
      assert i < |s.tracks| ==> IsFor(s.tracks, found.value.1.payloadType, i);
    }
  }

  /** The packets for one track, without protection, and when they came. */
  function Mine(tracks: seq<TrackState>, protection: Protection, packets: seq<Bytes>, clock: seq<uint64>, i: nat)
    : seq<(Bytes, uint64)>
    requires |clock| == |packets|
    decreases |packets|
  {
    if packets == [] then []
    else
      var found := Readable(protection, packets[0]);
      (if found.Some? && IsFor(tracks, found.value.1.payloadType, i) then [(found.value.0, clock[0])] else [])
      + Mine(tracks, protection, packets[1..], clock[1..], i)
  }

  function AddAll(config: JitterBuffer.Config, jitter: JitterBuffer.State, arrivals: seq<(Bytes, uint64)>)
    : JitterBuffer.State
    decreases |arrivals|
  {
    if arrivals == [] then jitter
    else AddAll(config, JitterBuffer.Add(config, jitter, arrivals[0].0, arrivals[0].1).0, arrivals[1..])
  }

  function CountFor(delivered: seq<Delivery>, i: nat): nat {
    if delivered == [] then 0
    else CountFor(delivered[..|delivered| - 1], i) + (if delivered[|delivered| - 1].track == i then 1 else 0)
  }

  lemma CountSnoc(delivered: seq<Delivery>, d: Delivery, i: nat)
    ensures CountFor(delivered + [d], i) == CountFor(delivered, i) + (if d.track == i then 1 else 0)
  {
    assert (delivered + [d])[..|delivered|] == delivered;
  }

  lemma OnePacket(s: State, protection: Protection, packet: Bytes, now: uint64, i: nat)
    requires i < |s.tracks|
    ensures var t := Receive(s, protection, packet, now).0;
      var found := Readable(protection, packet);
      var a := s.tracks[i];
      && SameKinds(s, t) && t.tracks[i].config == a.config && t.tracks[i].kind == a.kind
      && (if found.Some? && IsFor(s.tracks, found.value.1.payloadType, i)
          then
            && t.tracks[i].packetsReceived == a.packetsReceived + 1
            && t.tracks[i].jitter == JitterBuffer.Add(a.config, a.jitter, found.value.0, now).0
          else t.tracks[i] == a)
      && t.tracks[i].framesReceived - a.framesReceived == CountFor(t.delivered, i) - CountFor(s.delivered, i)
      && |s.delivered| <= |t.delivered| <= |s.delivered| + 1 && s.delivered == t.delivered[..|s.delivered|]
      && forall k :: |s.delivered| <= k < |t.delivered| ==>
           found.Some? && IsFor(s.tracks, found.value.1.payloadType, t.delivered[k].track)
           && t.delivered[k].timestamp == found.value.1.timestamp
  {
    hide Rtp.Parsed, Opened, FindTrack, PacketShare, JitterBuffer.Add, Absorb, CountFor;
    var found := Readable(protection, packet);
    if found.Some? {
      var k := FindTrack(s.tracks, found.value.1.payloadType);
      if IsFor(s.tracks, found.value.1.payloadType, i) {
        FindTrackUnique(s.tracks, found.value.1.payloadType, i);
      } else {
        assert k < |s.tracks| ==> IsFor(s.tracks, found.value.1.payloadType, k);
      }
      if k < |s.tracks| {
        var (track, frame) := TrackReceive(s.tracks[k], found.value.0, now);
        if frame.Some? {
          CountSnoc(s.delivered, Delivery(k, frame.value, found.value.1.timestamp), i);
        } else {
          assert s.delivered + [] == s.delivered;
        }
      }
    }
  }

  lemma {:induction false} MineSame(a: seq<TrackState>, b: seq<TrackState>, protection: Protection, packets: seq<Bytes>,
                                    clock: seq<uint64>, i: nat)
    requires |a| == |b| && (forall j :: 0 <= j < |a| ==> a[j].payloadType == b[j].payloadType) && |clock| == |packets|
    ensures Mine(a, protection, packets, clock, i) == Mine(b, protection, packets, clock, i)
    decreases |packets|
  {
    hide Readable;
    if packets != [] {
      MineSame(a, b, protection, packets[1..], clock[1..], i);
    }
  }

  /**
   * Over any packets at all: a track has counted the packets that were for it and the frames that were
   * delivered for it, and its jitter buffer has been given just those packets, in order, without protection.
   */
  lemma {:induction false} AccountsExactly(s: State, protection: Protection, packets: seq<Bytes>, clock: seq<uint64>, i: nat)
    requires |clock| == |packets| && i < |s.tracks|
    ensures var t := ReceiveAll(s, protection, packets, clock);
      var mine := Mine(s.tracks, protection, packets, clock, i);
      && SameKinds(s, t) && t.tracks[i].kind == s.tracks[i].kind && t.tracks[i].config == s.tracks[i].config
      && t.tracks[i].packetsReceived == s.tracks[i].packetsReceived + |mine|
      && t.tracks[i].framesReceived - s.tracks[i].framesReceived == CountFor(t.delivered, i) - CountFor(s.delivered, i)
      && t.tracks[i].jitter == AddAll(s.tracks[i].config, s.tracks[i].jitter, mine)
    decreases |packets|
  {
    hide Readable, Receive, JitterBuffer.Add, IsFor, CountFor;
    if packets != [] {
      var found := Readable(protection, packets[0]);
      var s1 := Receive(s, protection, packets[0], clock[0]).0;
      OnePacket(s, protection, packets[0], clock[0], i);
      MineSame(s.tracks, s1.tracks, protection, packets[1..], clock[1..], i);
      AccountsExactly(s1, protection, packets[1..], clock[1..], i);
      var more := Mine(s1.tracks, protection, packets[1..], clock[1..], i);
      if found.Some? && IsFor(s.tracks, found.value.1.payloadType, i) {
        assert ([(found.value.0, clock[0])] + more)[1..] == more;
      } else {
        assert [] + more == more;
      }
    }
  }

  // ----- what goes over the wire -----

  lemma {:induction false} PacketsAt(protection: Protection, payloadType: byte, sequence: uint16, timestamp: uint32,
                                     payloads: seq<Payload>, k: nat)
    requires k < |payloads|
    ensures var packets := Packets(protection, payloadType, sequence, timestamp, payloads);
      && |packets| == |payloads|
      && packets[k] == Seal(protection, ClearPacket(payloadType, (sequence + k) % TWO_16, timestamp, payloads[k]))
    decreases |payloads|
  {
    hide Seal, ClearPacket;
    PacketsLength(protection, payloadType, sequence, timestamp, payloads);
    if k > 0 {
      PacketsAt(protection, payloadType, Next(sequence), timestamp, payloads[1..], k - 1);
    }
  }

  lemma ClearBytes(payloadType: byte, sequence: uint16, timestamp: uint32, payload: Payload)
    requires payloadType < 128
    ensures ClearPacket(payloadType, sequence, timestamp, payload) ==
      [0x80, (if payload.marker then 128 else 0) + payloadType] + BigEndian(2, sequence) + BigEndian(4, timestamp)
      + [0, 0, 0, 0] + payload.bytes
  {
    hide BigEndian, Bytes16;
    Bytes16BigEndian(sequence);
    Bytes32BigEndian(timestamp);
  }

  /**
   * The k-th packet of a frame on the wire: its header is not encrypted, is numbered k behind the first,
   * carries the timestamp of the frame and the source 0, and its payload is the k-th one.
   */
  lemma PacketBytes(protection: Protection, codec: Codec, payloadType: byte, sequence: uint16, timestamp: uint32,
                    frame: Bytes, k: nat)
    requires payloadType < 128
    requires k < |FramePayloads(codec, frame, SEND_MTU - AUTH_TAG_RESERVED)|
    ensures var payloads := FramePayloads(codec, frame, SEND_MTU - AUTH_TAG_RESERVED);
      var packets := SentFrame(protection, codec, payloadType, sequence, timestamp, frame);
      var head := [0x80, (if payloads[k].marker then 128 else 0) + payloadType] + BigEndian(2, (sequence + k) % TWO_16)
                  + BigEndian(4, timestamp) + [0, 0, 0, 0];
      && |packets| == |payloads| && head <= packets[k]
      && Opened(protection, packets[k]) == Some(head + payloads[k].bytes)
      && (if protection == Clear then packets[k] == head + payloads[k].bytes
          else |packets[k]| == |head| + |payloads[k].bytes| + 10)
  {
    hide FramePayloads, Packets, BigEndian, ClearPacket, Seal;
    var payloads := FramePayloads(codec, frame, SEND_MTU - AUTH_TAG_RESERVED);
    PacketsAt(protection, payloadType, sequence, timestamp, payloads, k);
    var packet := ClearPacket(payloadType, (sequence + k) % TWO_16, timestamp, payloads[k]);
    ClearBytes(payloadType, (sequence + k) % TWO_16, timestamp, payloads[k]);
    SealOpens(protection, packet);
    HeadKept(protection, packet);
  }

  lemma HeadKept(protection: Protection, packet: Bytes)
    requires |packet| >= RTP_HEADER_LEN
    ensures var sealed := Seal(protection, packet);
      && |sealed| == |packet| + (if protection == Clear then 0 else 10)
      && packet[..12] == sealed[..12] && (protection == Clear ==> sealed == packet)
  {
    hide Srtp.Crypt, Srtp.SessionKey;
  }
}
