/**
 * The frames an H.264 frame arrives as, and when that is everything that was sent.
 *
 * A frame completes at the marker and also at the end of every fragmented unit
 * (src/media/rtp.c, line 944), so the results are about all the frames delivered.
 */
module MediaRoundTrip {
  import opened Octets
  import opened Results
  import opened Packetizer
  import opened Depacketizer
  import opened MediaReceiver
  import opened MediaSender
  import opened MediaPath

  // ----- the expected result, from the units alone -----

  function AnnexB(unit: Bytes): Bytes {
    if unit == [] then [] else [0, 0, 0, 1] + unit
  }

  /** Every non-empty unit with a four-byte start code in front: what should arrive. */
  function Content(pieces: seq<Piece>): Bytes {
    if pieces == [] then [] else AnnexB(pieces[0].unit) + Content(pieces[1..])
  }

  /**
   * How the units are grouped into delivered frames: a frame ends at each fragmented unit and at
   * the last piece. The second part is what no packet completed.
   */
  function Frames(pieces: seq<Piece>, held: Bytes, max: nat): (seq<Bytes>, Bytes)
    decreases |pieces|
  {
    if pieces == [] then ([], held)
    else
      var unit := pieces[0].unit;
      var grown := held + AnnexB(unit);
      if unit != [] && (|pieces| == 1 || |unit| > max) then
        var (frames, rest) := Frames(pieces[1..], [], max);
        ([grown] + frames, rest)
      else Frames(pieces[1..], grown, max)
  }

  lemma {:induction false} FramesHoldContent(pieces: seq<Piece>, held: Bytes, max: nat)
    ensures var (frames, rest) := Frames(pieces, held, max);
            Concat(frames) + rest == held + Content(pieces)
    decreases |pieces|
  {
    hide AnnexB, Concat;
    if pieces == [] {
      assert Concat<byte>([]) == [] by { NoConcat(); }
    } else {
      var unit, more := pieces[0].unit, pieces[1..];
      var grown := held + AnnexB(unit);
      Regroup(held, AnnexB(unit), Content(more));
      if unit != [] && (|pieces| == 1 || |unit| > max) {
        var (frames, rest) := Frames(more, [], max);
        FramesHoldContent(more, [], max);
        ConcatCons(grown, frames);
        Regroup(grown, Concat(frames), rest);
        assert [] + Content(more) == Content(more);
      } else {
        FramesHoldContent(more, grown, max);
      }
    }
  }

  lemma NoConcat()
    ensures Concat<byte>([]) == []
  {
  }

  /** How many units before the last piece are too big for one packet. */
  function EarlyFragmented(pieces: seq<Piece>, max: nat): nat {
    if |pieces| <= 1 then 0 else (if |pieces[0].unit| > max then 1 else 0) + EarlyFragmented(pieces[1..], max)
  }

  /** When the last unit is not empty, nothing is left over, and there is one more frame than early fragmented units. */
  lemma {:induction false} FramesComplete(pieces: seq<Piece>, held: Bytes, max: nat)
    requires pieces != [] && pieces[|pieces| - 1].unit != []
    ensures var (frames, rest) := Frames(pieces, held, max);
            rest == [] && |frames| == 1 + EarlyFragmented(pieces, max)
    decreases |pieces|
  {
    var unit := pieces[0].unit;
    if |pieces| > 1 {
      FramesComplete(pieces[1..], if |unit| > max then [] else held + AnnexB(unit), max);
    }
  }

  /** Whether a unit waits for a packet that would complete it, given whether something already does. */
  function Waiting(pieces: seq<Piece>, waiting: bool, max: nat): bool {
    if pieces == [] then waiting
    else
      var unit := pieces[0].unit;
      Waiting(pieces[1..], if unit == [] then waiting else !(|pieces| == 1 || |unit| > max), max)
  }

  /** Something is left over exactly when the last non-empty unit is neither the last piece nor fragmented. */
  lemma {:induction false} LeftOver(pieces: seq<Piece>, held: Bytes, max: nat)
    ensures Frames(pieces, held, max).1 != [] <==> Waiting(pieces, held != [], max)
    decreases |pieces|
  {
    if pieces != [] {
      var unit := pieces[0].unit;
      LeftOver(pieces[1..], if unit != [] && (|pieces| == 1 || |unit| > max) then [] else held + AnnexB(unit), max);
    }
  }

  // ----- the receiver computes it -----

  /** A buffer as every run leaves it: active exactly when it holds bytes (NeverMixed). */
  predicate Sound(r: Reassembly) {
    r.active <==> r.data != []
  }

  /** The bytes a new share with this timestamp will be added to. */
  function Base(r: Reassembly, timestamp: uint32): Bytes {
    if r.active && r.timestamp == timestamp then r.data else []
  }

  function Holding(timestamp: uint32, data: Bytes): Reassembly {
    if data == [] then IDLE else Reassembly(true, timestamp, data)
  }

  lemma AbsorbShareEffect(r: Reassembly, share: Share, timestamp: uint32)
    requires Sound(r) && share.data != []
    ensures Absorb(r, share, timestamp)
      == var grown := Base(r, timestamp) + share.data;
         if share.complete then (IDLE, Some(grown)) else (Holding(timestamp, grown), None)
  {
    assert [] + share.data == share.data;
  }

  lemma {:induction false} AbsorbAppend(r: Reassembly, a: seq<Payload>, b: seq<Payload>, timestamp: uint32)
    ensures var (r1, f1) := AbsorbPayloads(r, a, timestamp);
      var (r2, f2) := AbsorbPayloads(r1, b, timestamp);
      AbsorbPayloads(r, a + b, timestamp) == (r2, f1 + f2)
    decreases |a|
  {
    hide Absorb, ShareOf;
    if a == [] {
      assert a + b == b;
      assert [] + AbsorbPayloads(r, b, timestamp).1 == AbsorbPayloads(r, b, timestamp).1;
    } else {
      var (r1, frame) := Absorb(r, ShareOf(H264, a[0]), timestamp);
      assert (a + b)[1..] == a[1..] + b;
      AbsorbAppend(r1, a[1..], b, timestamp);
      var f2 := AbsorbPayloads(AbsorbPayloads(r1, a[1..], timestamp).0, b, timestamp).1;
      Regroup(if frame.Some? then [frame.value] else [], AbsorbPayloads(r1, a[1..], timestamp).1, f2);
    }
  }

  lemma AbsorbOne(r: Reassembly, payload: Payload, timestamp: uint32)
    ensures AbsorbPayloads(r, [payload], timestamp)
      == var (r1, frame) := Absorb(r, ShareOf(H264, payload), timestamp);
         (r1, if frame.Some? then [frame.value] else [])
  {
    hide Absorb, ShareOf;
    var frame := Absorb(r, ShareOf(H264, payload), timestamp).1;
    var first := if frame.Some? then [frame.value] else [];
    assert [payload][1..] == [];
    assert first + [] == first;
  }

  lemma FragmentShare(p: Payload, header: byte, start: bool, end: bool, max: nat, last: bool)
    requires max <= FRAME_BUFFER_LEN - 5 && IsFragment(p, header, start, end, max, last)
    ensures ShareOf(H264, p) == Share((if start then START_CODE + [header] else []) + p.bytes[2..], end)
  {
    assert (header / 32 * 32 + FU_A) % 32 == FU_A && (header / 32 * 32 + FU_A) / 32 == header / 32;
    assert [] + p.bytes[2..] == p.bytes[2..];
  }

  /** The fragments of a unit put it back together behind a start code, and the last one completes a frame. */
  lemma {:induction false} AbsorbFragments(r: Reassembly, header: byte, body: Bytes, start: bool, max: nat, last: bool,
                                           timestamp: uint32)
    requires 2 < max <= FRAME_BUFFER_LEN - 5 && body != [] && Sound(r)
    ensures AbsorbPayloads(r, Fragments(header, body, start, max, last), timestamp)
         == (IDLE, [Base(r, timestamp) + (if start then START_CODE + [header] else []) + body])
    decreases |body|
  {
    hide Fragments, FuHeader, IsFragment, ShareOf, Absorb, AbsorbPayloads;
    var chunk := Min(|body|, max - 2);
    var f := Fragments(header, body, start, max, last);
    var lead := if start then START_CODE + [header] else [];
    FirstFragment(header, body, start, max, last);
    FragmentShare(f[0], header, start, chunk == |body|, max, last);
    AbsorbShareEffect(r, ShareOf(H264, f[0]), timestamp);
    Regroup(Base(r, timestamp), lead, body[..chunk]);
    AbsorbOne(r, f[0], timestamp);
    AbsorbAppend(r, [f[0]], Fragments(header, body[chunk..], false, max, last), timestamp);
    var r1 := Absorb(r, ShareOf(H264, f[0]), timestamp).0;
    if chunk == |body| {
      AbsorbNone(r1, Fragments(header, body[chunk..], false, max, last), timestamp);
      assert body[..chunk] == body;
      assert [Base(r, timestamp) + lead + body] + [] == [Base(r, timestamp) + lead + body];
      assert [f[0]] + Fragments(header, body[chunk..], false, max, last) == f;
    } else {
      AbsorbFragments(r1, header, body[chunk..], false, max, last, timestamp);
      assert Base(r1, timestamp) == Base(r, timestamp) + (lead + body[..chunk]);
      assert Base(r1, timestamp) + [] + body[chunk..] == Base(r, timestamp) + lead + body;
      assert [] + [Base(r, timestamp) + lead + body] == [Base(r, timestamp) + lead + body];
    }
  }

  lemma AbsorbNone(r: Reassembly, payloads: seq<Payload>, timestamp: uint32)
    requires payloads == []
    ensures AbsorbPayloads(r, payloads, timestamp) == (r, [])
  {
  }

  /** A unit small enough for one packet arrives whole if its type is one the receiver takes as a unit. */
  predicate Carriable(unit: Bytes, max: nat) {
    unit == [] || |unit| > max || 0 < unit[0] % 32 < STAP_A
  }

  lemma AbsorbUnit(r: Reassembly, unit: Bytes, max: nat, last: bool, timestamp: uint32)
    requires 2 < max <= FRAME_BUFFER_LEN - 5 && Sound(r) && Carriable(unit, max) && unit != []
    ensures var grown := Base(r, timestamp) + AnnexB(unit);
      AbsorbPayloads(r, UnitPayloads(unit, max, last), timestamp)
      == if last || |unit| > max then (IDLE, [grown]) else (Holding(timestamp, grown), [])
  {
    hide Fragments, Absorb, AbsorbPayloads;
    if |unit| <= max {
      var payload := Payload(unit, last);
      assert ShareOf(H264, payload) == Share(START_CODE + unit, last);
      AbsorbOne(r, payload, timestamp);
      AbsorbShareEffect(r, ShareOf(H264, payload), timestamp);
    } else {
      AbsorbFragments(r, unit[0], unit[1..], true, max, last, timestamp);
      assert START_CODE + [unit[0]] + unit[1..] == START_CODE + unit;
      Regroup(Base(r, timestamp), START_CODE + [unit[0]], unit[1..]);
    }
  }

  predicate AllCarriable(pieces: seq<Piece>, max: nat) {
    forall p :: p in pieces ==> Carriable(p.unit, max)
  }

  predicate AllEmpty(pieces: seq<Piece>) {
    forall p :: p in pieces ==> p.unit == []
  }

  /** The receiver's buffer and deliveries are the grouping of the units. */
  lemma {:induction false} AbsorbPieces(r: Reassembly, pieces: seq<Piece>, max: nat, timestamp: uint32)
    requires 2 < max <= FRAME_BUFFER_LEN - 5 && Sound(r) && AllCarriable(pieces, max)
    ensures var (frames, rest) := Frames(pieces, Base(r, timestamp), max);
      AbsorbPayloads(r, PiecePayloads(pieces, max), timestamp)
      == (if AllEmpty(pieces) then r else Holding(timestamp, rest), frames)
    decreases |pieces|
  {
    hide AbsorbPayloads, UnitPayloads;
    if pieces == [] {
      AbsorbNone(r, PiecePayloads(pieces, max), timestamp);
    } else {
      var unit, more := pieces[0].unit, pieces[1..];
      var first := UnitPayloads(unit, max, |pieces| == 1);
      AbsorbAppend(r, first, PiecePayloads(more, max), timestamp);
      AllEmptyCons(pieces);
      if unit == [] {
        NoUnit(max, |pieces| == 1);
        AbsorbNone(r, first, timestamp);
        AbsorbPieces(r, more, max, timestamp);
        assert Base(r, timestamp) + [] == Base(r, timestamp);
        assert [] + AbsorbPayloads(r, PiecePayloads(more, max), timestamp).1
            == AbsorbPayloads(r, PiecePayloads(more, max), timestamp).1;
      } else {
        AbsorbUnit(r, unit, max, |pieces| == 1, timestamp);
        var r1 := AbsorbPayloads(r, first, timestamp).0;
        AbsorbPieces(r1, more, max, timestamp);
        if AllEmpty(more) {
          EmptyFrames(more, Base(r1, timestamp), max);
        }
        var fs := AbsorbPayloads(r1, PiecePayloads(more, max), timestamp).1;
        assert [] + fs == fs;
      }
    }
  }

  lemma NoUnit(max: nat, last: bool)
    ensures UnitPayloads([], max, last) == []
  {
  }

  lemma AllEmptyCons(pieces: seq<Piece>)
    requires pieces != []
    ensures AllEmpty(pieces) <==> pieces[0].unit == [] && AllEmpty(pieces[1..])
    ensures forall p :: p in pieces[1..] ==> p in pieces
  {
  }

  lemma {:induction false} EmptyFrames(pieces: seq<Piece>, held: Bytes, max: nat)
    requires AllEmpty(pieces)
    ensures Frames(pieces, held, max) == ([], held)
    decreases |pieces|
  {
    if pieces != [] {
      AllEmptyCons(pieces);
      assert held + [] == held;
      EmptyFrames(pieces[1..], held, max);
    }
  }

  // ----- main results -----

  /** The receiver is ready for a frame with this timestamp: it holds no bytes under it already. */
  predicate Ready(s: State, i: nat, timestamp: uint32)
    requires i < |s.tracks|
  {
    Sound(s.tracks[i].reassembly) && Base(s.tracks[i].reassembly, timestamp) == []
  }

  /** Sending an H.264 frame and receiving its packets in order delivers exactly the grouped units. */
  lemma H264Delivery(s: State, protection: Protection, payloadType: byte, sequence: uint16, timestamp: uint32,
                     frame: Bytes, clock: seq<uint64>)
    requires payloadType < 128 && FindTrack(s.tracks, payloadType) < |s.tracks|
    requires s.tracks[FindTrack(s.tracks, payloadType)].codec == H264
    requires Ready(s, FindTrack(s.tracks, payloadType), timestamp)
    requires AllCarriable(FramePieces(frame), MAX_PAYLOAD)
    requires |clock| == |SentFrame(protection, H264, payloadType, sequence, timestamp, frame)|
    ensures var i := FindTrack(s.tracks, payloadType);
      var t := ReceiveAll(s, protection, SentFrame(protection, H264, payloadType, sequence, timestamp, frame), clock);
      var (frames, rest) := Frames(FramePieces(frame), [], MAX_PAYLOAD);
      && OnlyTrackChanged(s, t, i)
      && t.delivered == s.delivered + Deliveries(i, frames, timestamp)
      && (AllEmpty(FramePieces(frame)) || t.tracks[i].reassembly == Holding(timestamp, rest))
  {
    hide FindTrack, ReceiveAll, Packets, AbsorbPayloads, PiecePayloads, FramePieces, Frames;
    var payloads := PiecePayloads(FramePieces(frame), MAX_PAYLOAD);
    var i := FindTrack(s.tracks, payloadType);
    PacketsLength(protection, payloadType, sequence, timestamp, payloads);
    ReceiveUnits(s, protection, payloadType, sequence, timestamp, payloads, clock);
    AbsorbPieces(s.tracks[i].reassembly, FramePieces(frame), MAX_PAYLOAD, timestamp);
  }

  /**
   * The round trip: when the last unit is not empty, the delivered frames laid end to end are every
   * non-empty unit behind a four-byte start code, and the receiver keeps nothing. It is one frame
   * exactly when no unit but the last is fragmented.
   */
  lemma H264RoundTrip(s: State, protection: Protection, payloadType: byte, sequence: uint16, timestamp: uint32,
                      frame: Bytes, clock: seq<uint64>) returns (frames: seq<Bytes>)
    requires payloadType < 128 && FindTrack(s.tracks, payloadType) < |s.tracks|
    requires s.tracks[FindTrack(s.tracks, payloadType)].codec == H264
    requires Ready(s, FindTrack(s.tracks, payloadType), timestamp)
    requires AllCarriable(FramePieces(frame), MAX_PAYLOAD)
    requires FramePieces(frame)[|FramePieces(frame)| - 1].unit != []
    requires |clock| == |SentFrame(protection, H264, payloadType, sequence, timestamp, frame)|
    ensures var i := FindTrack(s.tracks, payloadType);
      var t := ReceiveAll(s, protection, SentFrame(protection, H264, payloadType, sequence, timestamp, frame), clock);
      && t.delivered == s.delivered + Deliveries(i, frames, timestamp)
      && OnlyTrackChanged(s, t, i) && t.tracks[i].reassembly == IDLE
    ensures Concat(frames) == Content(FramePieces(frame))
    ensures |frames| == 1 + EarlyFragmented(FramePieces(frame), MAX_PAYLOAD)
  {
    hide FindTrack, ReceiveAll, SentFrame, FramePieces, Frames, Content, Concat, Base;
    var pieces := FramePieces(frame);
    H264Delivery(s, protection, payloadType, sequence, timestamp, frame, clock);
    FramesHoldContent(pieces, [], MAX_PAYLOAD);
    FramesComplete(pieces, [], MAX_PAYLOAD);
    assert pieces[|pieces| - 1] in pieces;
    frames := Frames(pieces, [], MAX_PAYLOAD).0;
    assert Concat(frames) + [] == Concat(frames);
    assert [] + Content(pieces) == Content(pieces);
  }

  // ----- which units get through -----

  function ShareLength(payloads: seq<Payload>): nat {
    if payloads == [] then 0 else |ShareOf(H264, payloads[0]).data| + ShareLength(payloads[1..])
  }

  lemma {:induction false} ShareLengthAppend(a: seq<Payload>, b: seq<Payload>)
    ensures ShareLength(a + b) == ShareLength(a) + ShareLength(b)
  {
    hide ShareOf;
    if a == [] {
      assert a + b == b;
    } else {
      assert (a + b)[1..] == a[1..] + b;
      ShareLengthAppend(a[1..], b);
    }
  }

  /** The receiver never makes bytes up. */
  lemma {:induction false} AbsorbBound(r: Reassembly, payloads: seq<Payload>, timestamp: uint32)
    ensures var (r2, frames) := AbsorbPayloads(r, payloads, timestamp);
            |Concat(frames)| + |r2.data| <= |r.data| + ShareLength(payloads)
    decreases |payloads|
  {
    hide ShareOf;
    if payloads != [] {
      var (r1, frame) := Absorb(r, ShareOf(H264, payloads[0]), timestamp);
      AbsorbBound(r1, payloads[1..], timestamp);
      var frames := AbsorbPayloads(r1, payloads[1..], timestamp).1;
      if frame.Some? {
        assert ([frame.value] + frames)[1..] == frames;
      } else {
        assert [] + frames == frames;
      }
    }
  }

  lemma {:induction false} FragmentsShareLength(header: byte, body: Bytes, start: bool, max: nat, last: bool)
    requires 2 < max <= FRAME_BUFFER_LEN - 5 && body != []
    ensures ShareLength(Fragments(header, body, start, max, last)) == (if start then 5 else 0) + |body|
    decreases |body|
  {
    hide Fragments, FuHeader, IsFragment, ShareOf;
    var chunk := Min(|body|, max - 2);
    var f := Fragments(header, body, start, max, last);
    FirstFragment(header, body, start, max, last);
    FragmentShare(f[0], header, start, chunk == |body|, max, last);
    assert f[1..] == Fragments(header, body[chunk..], false, max, last);
    if chunk < |body| {
      FragmentsShareLength(header, body[chunk..], false, max, last);
    } else {
      NoFragments(header, body[chunk..], false, max, last);
    }
  }

  lemma UnitShareLength(unit: Bytes, max: nat, last: bool)
    requires 2 < max <= FRAME_BUFFER_LEN - 5
    ensures ShareLength(UnitPayloads(unit, max, last)) <= |AnnexB(unit)|
    ensures !Carriable(unit, max) ==> ShareLength(UnitPayloads(unit, max, last)) < |AnnexB(unit)|
  {
    hide Fragments;
    if |unit| > max {
      FragmentsShareLength(unit[0], unit[1..], true, max, last);
    } else if unit != [] {
      assert [Payload(unit, last)][1..] == [];
    }
  }

  lemma {:induction false} PiecesShareLength(pieces: seq<Piece>, max: nat)
    requires 2 < max <= FRAME_BUFFER_LEN - 5
    ensures ShareLength(PiecePayloads(pieces, max)) <= |Content(pieces)|
    ensures !AllCarriable(pieces, max) ==> ShareLength(PiecePayloads(pieces, max)) < |Content(pieces)|
    decreases |pieces|
  {
    hide UnitPayloads, ShareLength, Carriable, AnnexB;
    if pieces == [] {
      assert ShareLength([]) == 0 by { NoShareLength(); }
    } else {
      UnitShareLength(pieces[0].unit, max, |pieces| == 1);
      ShareLengthAppend(UnitPayloads(pieces[0].unit, max, |pieces| == 1), PiecePayloads(pieces[1..], max));
      PiecesShareLength(pieces[1..], max);
      assert forall p :: p in pieces ==> p == pieces[0] || p in pieces[1..];
    }
  }

  lemma NoShareLength()
    ensures ShareLength([]) == 0
  {
  }

  /**
   * The exact condition on the units: with an idle receiver, everything sent is delivered or still
   * held if and only if every unit that fits one packet has a type from 1 to 23.
   */
  lemma CarriableExactly(s: State, protection: Protection, payloadType: byte, sequence: uint16, timestamp: uint32,
                         frame: Bytes, clock: seq<uint64>) returns (frames: seq<Bytes>)
    requires payloadType < 128 && FindTrack(s.tracks, payloadType) < |s.tracks|
    requires s.tracks[FindTrack(s.tracks, payloadType)].codec == H264
    requires s.tracks[FindTrack(s.tracks, payloadType)].reassembly == IDLE
    requires |clock| == |SentFrame(protection, H264, payloadType, sequence, timestamp, frame)|
    ensures var i := FindTrack(s.tracks, payloadType);
      var t := ReceiveAll(s, protection, SentFrame(protection, H264, payloadType, sequence, timestamp, frame), clock);
      && OnlyTrackChanged(s, t, i)
      && t.delivered == s.delivered + Deliveries(i, frames, timestamp)
      && (Concat(frames) + t.tracks[i].reassembly.data == Content(FramePieces(frame))
          <==> AllCarriable(FramePieces(frame), MAX_PAYLOAD))
  {
    hide FindTrack, ReceiveAll, Packets, AbsorbPayloads, PiecePayloads, FramePieces, Frames, Content, Concat, ShareLength;
    var pieces := FramePieces(frame);
    var payloads := PiecePayloads(pieces, MAX_PAYLOAD);
    PacketsLength(protection, payloadType, sequence, timestamp, payloads);
    ReceiveUnits(s, protection, payloadType, sequence, timestamp, payloads, clock);
    var (held, delivered) := AbsorbPayloads(IDLE, payloads, timestamp);
    frames := delivered;
    if AllCarriable(pieces, MAX_PAYLOAD) {
      AbsorbPieces(IDLE, pieces, MAX_PAYLOAD, timestamp);
      FramesHoldContent(pieces, [], MAX_PAYLOAD);
      if AllEmpty(pieces) {
        EmptyFrames(pieces, [], MAX_PAYLOAD);
      }
      assert [] + Content(pieces) == Content(pieces);
    } else {
      AbsorbBound(IDLE, payloads, timestamp);
      PiecesShareLength(pieces, MAX_PAYLOAD);
    }
  }

  /** A frame that is lost without a trace: one unit of type 24. */
  lemma AggregateLost(s: State, protection: Protection, payloadType: byte, sequence: uint16, timestamp: uint32,
                      clock: seq<uint64>)
    requires payloadType < 128 && FindTrack(s.tracks, payloadType) < |s.tracks|
    requires s.tracks[FindTrack(s.tracks, payloadType)].codec == H264
    requires |clock| == |SentFrame(protection, H264, payloadType, sequence, timestamp, [0x78])|
    ensures var i := FindTrack(s.tracks, payloadType);
      var t := ReceiveAll(s, protection, SentFrame(protection, H264, payloadType, sequence, timestamp, [0x78]), clock);
      && t.delivered == s.delivered && OnlyTrackChanged(s, t, i)
      && t.tracks[i].reassembly == s.tracks[i].reassembly
    ensures Content(FramePieces([0x78])) != []
  {
    hide FindTrack, ReceiveAll, Packets, FramePieces, PiecePayloads, AbsorbPayloads, Deliveries, Content, OnlyTrackChanged;
    OneAggregate(s.tracks[FindTrack(s.tracks, payloadType)].reassembly, timestamp);
    var payloads := PiecePayloads(FramePieces([0x78]), MAX_PAYLOAD);
    PacketsLength(protection, payloadType, sequence, timestamp, payloads);
    ReceiveUnits(s, protection, payloadType, sequence, timestamp, payloads, clock);
    NoDeliveries(FindTrack(s.tracks, payloadType), timestamp);
  }

  lemma OneAggregate(r: Reassembly, timestamp: uint32)
    ensures AbsorbPayloads(r, PiecePayloads(FramePieces([0x78]), MAX_PAYLOAD), timestamp) == (r, [])
    ensures Content(FramePieces([0x78])) != []
  {
    hide AbsorbPayloads, PiecePayloads;
    assert FramePieces([0x78]) == [Piece([], [0x78])];
    assert [Piece([], [0x78])] + [] == [Piece([], [0x78])];
    PiecePayloadsCons(Piece([], [0x78]), [], MAX_PAYLOAD);
    NoPayloads(r, timestamp);
    assert UnitPayloads([0x78], MAX_PAYLOAD, true) + [] == [Payload([0x78], true)];
    AbsorbAggregate(r, timestamp);
  }

  lemma NoPayloads(r: Reassembly, timestamp: uint32)
    ensures PiecePayloads([], MAX_PAYLOAD) == [] && AbsorbPayloads(r, [], timestamp) == (r, [])
  {
  }

  lemma AbsorbAggregate(r: Reassembly, timestamp: uint32)
    ensures AbsorbPayloads(r, [Payload([0x78], true)], timestamp) == (r, [])
  {
    var payloads := [Payload([0x78], true)];
    assert payloads[1..] == [] && ShareOf(H264, payloads[0]) == NOTHING;
    NoPayloads(r, timestamp);
    var none: seq<Bytes> := [];
    assert none + none == none;
    assert AbsorbPayloads(r, payloads, timestamp) == (r, none + AbsorbPayloads(r, [], timestamp).1);
  }

  // ----- other codecs -----

  /**
   * A frame of another codec is not reassembled: only its last chunk is delivered, so the frame
   * arrives intact if and only if it is not empty and fits one packet.
   */
  lemma ChunkedRoundTrip(s: State, protection: Protection, codec: Codec, payloadType: byte, sequence: uint16,
                         timestamp: uint32, frame: Bytes, clock: seq<uint64>)
    requires payloadType < 128 && FindTrack(s.tracks, payloadType) < |s.tracks|
    requires s.tracks[FindTrack(s.tracks, payloadType)].codec == codec != H264
    requires |clock| == |SentFrame(protection, codec, payloadType, sequence, timestamp, frame)|
    ensures var i := FindTrack(s.tracks, payloadType);
      var t := ReceiveAll(s, protection, SentFrame(protection, codec, payloadType, sequence, timestamp, frame), clock);
      t.delivered == s.delivered + [Delivery(i, frame, timestamp)] <==> 0 < |frame| <= MAX_PAYLOAD
  {
    hide FindTrack, ReceiveAll, Packets, ChunkFrames, Chunks;
    var i := FindTrack(s.tracks, payloadType);
    var payloads := Chunks(frame, MAX_PAYLOAD);
    PacketsLength(protection, payloadType, sequence, timestamp, payloads);
    ReceiveChunks(s, protection, payloadType, sequence, timestamp, payloads, clock);
    LastChunkOnly(codec, frame, MAX_PAYLOAD);
    var frames := ChunkFrames(codec, payloads);
    if frame != [] {
      assert Deliveries(i, frames, timestamp) == [Delivery(i, frames[0], timestamp)];
      assert (s.delivered + [Delivery(i, frames[0], timestamp)])[|s.delivered|] == Delivery(i, frames[0], timestamp);
    }
  }

  /** One byte more than a packet holds, and the frame does not arrive. */
  lemma LongFrameLost(s: State, protection: Protection, payloadType: byte, sequence: uint16, timestamp: uint32,
                      frame: Bytes, clock: seq<uint64>)
    requires payloadType < 128 && FindTrack(s.tracks, payloadType) < |s.tracks|
    requires s.tracks[FindTrack(s.tracks, payloadType)].codec == PCMU
    requires |frame| == 1479
    requires |clock| == |SentFrame(protection, PCMU, payloadType, sequence, timestamp, frame)|
    ensures var i := FindTrack(s.tracks, payloadType);
      var t := ReceiveAll(s, protection, SentFrame(protection, PCMU, payloadType, sequence, timestamp, frame), clock);
      t.delivered != s.delivered + [Delivery(i, frame, timestamp)]
  {
    hide FindTrack, ReceiveAll, SentFrame;
    ChunkedRoundTrip(s, protection, PCMU, payloadType, sequence, timestamp, frame, clock);
  }

  lemma {:induction false} LastChunkOnly(codec: Codec, frame: Bytes, max: nat)
    requires codec != H264 && 0 < max <= FRAME_BUFFER_LEN
    ensures var frames := ChunkFrames(codec, Chunks(frame, max));
      if frame == [] then frames == []
      else |frames| == 1 && 0 < |frames[0]| <= max && (|frame| <= max ==> frames[0] == frame)
    decreases |frame|
  {
    if frame != [] {
      var n := Min(|frame|, max);
      var first := Payload(frame[..n], n == |frame|);
      assert ShareOf(codec, first) == Share(frame[..n], n == |frame|);
      LastChunkOnly(codec, frame[n..], max);
      assert Chunks(frame, max) == [first] + Chunks(frame[n..], max);
      assert ([first] + Chunks(frame[n..], max))[1..] == Chunks(frame[n..], max);
    }
  }
}
