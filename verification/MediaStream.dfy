/**
 * A stream of H.264 frames: src/peer_connection.c, lines 769 to 846, 890 to 934 and 936 to 1053.
 */
module MediaStream {
  import opened Octets
  import opened Packetizer
  import opened Depacketizer
  import opened MediaReceiver
  import opened MediaSender
  import opened MediaPath
  import opened MediaRoundTrip

  datatype TimedFrame = TimedFrame(timestamp: uint32, bytes: Bytes)

  /** The packets of frames that are sent one after another, numbered without a break. */
  function SentFrames(protection: Protection, payloadType: byte, sequence: uint16, frames: seq<TimedFrame>): seq<Bytes>
    decreases |frames|
  {
    if frames == [] then []
    else
      var first := SentFrame(protection, H264, payloadType, sequence, frames[0].timestamp, frames[0].bytes);
      first + SentFrames(protection, payloadType, Later(sequence, |first|), frames[1..])
  }

  /** What a sender has sent and where its numbers stand after some frames. */
  method SendAll(sender: Sender, frames: seq<TimedFrame>)
    requires sender.codec == H264
    modifies sender, sender.srtp
    ensures sender.sent == old(sender.sent) +
      SentFrames(sender.Protecting(), sender.payloadType, old(sender.nextSequence), frames)
  {
    hide SentFrame, Later;
    ghost var protection := sender.Protecting();
    ghost var all := SentFrames(protection, sender.payloadType, sender.nextSequence, frames);
    ghost var done: seq<Bytes> := [];
    assert frames[0..] == frames;
    for i := 0 to |frames|
      invariant sender.Protecting() == protection
      invariant sender.sent == old(sender.sent) + done
      invariant done + SentFrames(protection, sender.payloadType, sender.nextSequence, frames[i..]) == all
    {
      assert frames[i..][1..] == frames[i + 1..];
      ghost var first :=
        SentFrame(protection, H264, sender.payloadType, sender.nextSequence, frames[i].timestamp, frames[i].bytes);
      Regroup(done, first, SentFrames(protection, sender.payloadType, Later(sender.nextSequence, |first|), frames[i + 1..]));
      Regroup(old(sender.sent), done, first);
      sender.SendFrame(frames[i].bytes, frames[i].timestamp);
      done := done + first;
    }
  }

  /** Units that fit a packet have types from 1 to 23, and the last one is not empty. */
  predicate Sendable(frame: TimedFrame) {
    var pieces := FramePieces(frame.bytes);
    AllCarriable(pieces, MAX_PAYLOAD) && pieces[|pieces| - 1].unit != []
  }

  /** The deliveries of one frame: its units behind start codes, grouped. */
  function FrameDeliveries(track: nat, frame: TimedFrame): seq<Delivery> {
    Deliveries(track, Frames(FramePieces(frame.bytes), [], MAX_PAYLOAD).0, frame.timestamp)
  }

  function AllDeliveries(track: nat, frames: seq<TimedFrame>): seq<Delivery>
    decreases |frames|
  {
    if frames == [] then [] else FrameDeliveries(track, frames[0]) + AllDeliveries(track, frames[1..])
  }

  lemma {:induction false} ReceiveInTurn(s: State, protection: Protection, a: seq<Bytes>, b: seq<Bytes>,
                                         clock: seq<uint64>)
    requires |clock| == |a| + |b|
    ensures ReceiveAll(s, protection, a + b, clock) ==
      ReceiveAll(ReceiveAll(s, protection, a, clock[..|a|]), protection, b, clock[|a|..])
    decreases |a|
  {
    hide Receive;
    if a == [] {
      assert a + b == b && clock[0..] == clock;
    } else {
      assert (a + b)[1..] == a[1..] + b;
      assert clock[..|a|][1..] == clock[1..][..|a| - 1] && clock[1..][|a| - 1..] == clock[|a|..];
      ReceiveInTurn(Receive(s, protection, a[0], clock[0]).0, protection, a[1..], b, clock[1..]);
    }
  }

  /** One frame of the stream, and the receiver is idle again. */
  lemma OneFrameReceived(s: State, protection: Protection, payloadType: byte, sequence: uint16, frame: TimedFrame,
                         clock: seq<uint64>)
    requires payloadType < 128 && FindTrack(s.tracks, payloadType) < |s.tracks|
    requires s.tracks[FindTrack(s.tracks, payloadType)].codec == H264
    requires s.tracks[FindTrack(s.tracks, payloadType)].reassembly == IDLE && Sendable(frame)
    requires |clock| == |SentFrame(protection, H264, payloadType, sequence, frame.timestamp, frame.bytes)|
    ensures var i := FindTrack(s.tracks, payloadType);
      var packets := SentFrame(protection, H264, payloadType, sequence, frame.timestamp, frame.bytes);
      var t := ReceiveAll(s, protection, packets, clock);
      && t.delivered == s.delivered + FrameDeliveries(i, frame)
      && OnlyTrackChanged(s, t, i) && t.tracks[i].reassembly == IDLE
  {
    hide FindTrack, ReceiveAll, SentFrame, FramePieces, Frames, Deliveries;
    var pieces := FramePieces(frame.bytes);
    H264Delivery(s, protection, payloadType, sequence, frame.timestamp, frame.bytes, clock);
    FramesComplete(pieces, [], MAX_PAYLOAD);
    assert pieces[|pieces| - 1] in pieces;
  }

  /**
   * Any sequence of frames, sent with running sequence numbers and received in order: every frame is
   * delivered in its turn, under its timestamp, and nothing is held at the end.
   */
  lemma {:induction false} StreamRoundTrip(s: State, protection: Protection, payloadType: byte, sequence: uint16,
                                           frames: seq<TimedFrame>, clock: seq<uint64>)
    requires payloadType < 128 && FindTrack(s.tracks, payloadType) < |s.tracks|
    requires s.tracks[FindTrack(s.tracks, payloadType)].codec == H264
    requires s.tracks[FindTrack(s.tracks, payloadType)].reassembly == IDLE
    requires forall f :: f in frames ==> Sendable(f)
    requires |clock| == |SentFrames(protection, payloadType, sequence, frames)|
    ensures var i := FindTrack(s.tracks, payloadType);
      var t := ReceiveAll(s, protection, SentFrames(protection, payloadType, sequence, frames), clock);
      && t.delivered == s.delivered + AllDeliveries(i, frames)
      && OnlyTrackChanged(s, t, i) && t.tracks[i].reassembly == IDLE
    decreases |frames|
  {
    hide FindTrack, SentFrame, FrameDeliveries, Sendable, Later, Receive, OnlyTrackChanged;
    var i := FindTrack(s.tracks, payloadType);
    if frames == [] {
      OnlyTrackUnchanged(s, i);
      assert s.delivered + [] == s.delivered;
    } else {
      assert frames[0] in frames;
      var first := SentFrame(protection, H264, payloadType, sequence, frames[0].timestamp, frames[0].bytes);
      var next := Later(sequence, |first|);
      var rest := SentFrames(protection, payloadType, next, frames[1..]);
      var t := ReceiveAll(s, protection, first, clock[..|first|]);
      ReceiveInTurn(s, protection, first, rest, clock);
      OneFrameReceived(s, protection, payloadType, sequence, frames[0], clock[..|first|]);
      FindTrackStable(s, t, i, payloadType);
      OnlyTrackChangedFacts(s, t, i);
      StreamRoundTrip(t, protection, payloadType, next, frames[1..], clock[|first|..]);
      var u := ReceiveAll(t, protection, rest, clock[|first|..]);
      OnlyTrackChangedTwice(s, t, u, i);
      Regroup(s.delivered, FrameDeliveries(i, frames[0]), AllDeliveries(i, frames[1..]));
    }
  }

  // ----- what the deliveries hold -----

  function Datas(deliveries: seq<Delivery>): (r: seq<Bytes>)
    ensures |r| == |deliveries| && forall k :: 0 <= k < |r| ==> r[k] == deliveries[k].frame
  {
    seq(|deliveries|, k requires 0 <= k < |deliveries| => deliveries[k].frame)
  }

  function AllContent(frames: seq<TimedFrame>): Bytes
    decreases |frames|
  {
    if frames == [] then [] else Content(FramePieces(frames[0].bytes)) + AllContent(frames[1..])
  }

  /** Laid end to end, the deliveries of a stream are all its non-empty units behind start codes. */
  lemma {:induction false} StreamContent(track: nat, frames: seq<TimedFrame>)
    requires forall f :: f in frames ==> Sendable(f)
    ensures Concat(Datas(AllDeliveries(track, frames))) == AllContent(frames)
    decreases |frames|
  {
    hide Concat, Content, FramePieces, Sendable, FrameDeliveries;
    if frames == [] {
      assert Datas(AllDeliveries(track, frames)) == [];
      NoConcat();
    } else {
      assert frames[0] in frames;
      var first, rest := FrameDeliveries(track, frames[0]), AllDeliveries(track, frames[1..]);
      assert Datas(first + rest) == Datas(first) + Datas(rest);
      ConcatAppends(Datas(first), Datas(rest));
      FrameContent(track, frames[0]);
      StreamContent(track, frames[1..]);
    }
  }

  lemma {:induction false} DatasDelivered(track: nat, frames: seq<Bytes>, timestamp: uint32)
    ensures Datas(Deliveries(track, frames, timestamp)) == frames
  {
    if frames != [] {
      DatasDelivered(track, frames[1..], timestamp);
      var rest := Deliveries(track, frames[1..], timestamp);
      assert Datas([Delivery(track, frames[0], timestamp)] + rest) == [frames[0]] + Datas(rest);
    }
  }

  lemma FrameContent(track: nat, frame: TimedFrame)
    requires Sendable(frame)
    ensures Concat(Datas(FrameDeliveries(track, frame))) == Content(FramePieces(frame.bytes))
  {
    hide Concat, Content, FramePieces, Frames;
    var pieces := FramePieces(frame.bytes);
    var (frames, rest) := Frames(pieces, [], MAX_PAYLOAD);
    FramesHoldContent(pieces, [], MAX_PAYLOAD);
    FramesComplete(pieces, [], MAX_PAYLOAD);
    DatasDelivered(track, frames, frame.timestamp);
    assert Concat(frames) + [] == Concat(frames);
    assert [] + Content(pieces) == Content(pieces);
  }
}
