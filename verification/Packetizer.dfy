/**
 * Splitting a frame into RTP payloads: src/media/rtp.c, lines 695 to 861.
 *
 * H.264 frames in Annex-B form are cut at their start codes, and a NAL unit that does not
 * fit in one payload is fragmented (FU-A, section 5.8 of RFC 6184). Other codecs are cut
 * into equal chunks. The packet callback is the list of payloads handed to it, in order.
 */
module Packetizer {
  import opened Octets

  const FU_A := 28
  const RTP_HEADER_LEN := 12

  datatype Codec = H264 | OPUS | PCMA | PCMU | G722

  datatype Payload = Payload(bytes: Bytes, marker: bool)

  // ----- start codes -----

  /** The length of the start code at position i, or 0. */
  function StartCodeLen(data: Bytes, i: nat): (r: nat)
    ensures r == 0 || r == 3 || r == 4
    ensures r > 0 ==> i + r <= |data|
  {
    if i + 4 <= |data| && data[i] == 0 && data[i + 1] == 0 && data[i + 2] == 0 && data[i + 3] == 1 then 4
    else if i + 3 <= |data| && data[i] == 0 && data[i + 1] == 0 && data[i + 2] == 1 then 3
    else 0
  }

  /** The first position from `from` on where a start code begins, or the end of the data. */
  function NextStartCode(data: Bytes, from: nat): (n: nat)
    requires from <= |data|
    ensures from <= n <= |data|
    ensures forall j :: from <= j < n ==> StartCodeLen(data, j) == 0
    ensures n < |data| ==> StartCodeLen(data, n) != 0
    decreases |data| - from
  {
    if from == |data| || StartCodeLen(data, from) != 0 then from else NextStartCode(data, from + 1)
  }

  /** The search counts from the position it is given, as the C pointer does. */
  method FindStartCode(data: Bytes, from: nat) returns (n: nat)
    requires from <= |data|
    ensures from + n == NextStartCode(data, from)
  {
    n := 0;
    while n < |data| - from
      invariant 0 <= n <= |data| - from
      invariant NextStartCode(data, from + n) == NextStartCode(data, from)
    {
      if StartCodeLen(data, from + n) != 0 {
        return;
      }
      n := n + 1;
    }
  }

  // ----- cutting an Annex-B frame -----

  /** A start code and the NAL unit after it, which may be empty. */
  datatype Piece = Piece(code: Bytes, unit: Bytes)

  /** The pieces of the frame from the start code at `at` on. */
  function Pieces(frame: Bytes, at: nat): (r: seq<Piece>)
    requires StartCodeLen(frame, at) != 0
    ensures |r| > 0
    decreases |frame| - at
  {
    var body := at + StartCodeLen(frame, at);
    var n := NextStartCode(frame, body);
    [Piece(frame[at..body], frame[body..n])] + if n == |frame| then [] else Pieces(frame, n)
  }

  /** The bytes 00 00 01 or 00 00 00 01. */
  predicate CodeBegins(data: Bytes, j: nat)
    requires j <= |data|
  {
    [0, 0, 1] <= data[j..] || [0, 0, 0, 1] <= data[j..]
  }

  lemma CodesFound(data: Bytes, j: nat)
    requires j <= |data|
    ensures StartCodeLen(data, j) != 0 <==> CodeBegins(data, j)
    ensures StartCodeLen(data, j) == 4 <==> [0, 0, 0, 1] <= data[j..]
  {
    var s := data[j..];
    assert forall k :: 0 <= k < |s| ==> s[k] == data[j + k];
  }

  /**
   * The pieces, laid end to end from `at`, are exactly the rest of the frame; each begins with
   * a start code, and no start code begins inside a unit.
   */
  ghost predicate Partition(frame: Bytes, at: nat, pieces: seq<Piece>)
    decreases pieces
  {
    if pieces == [] then at == |frame|
    else
      var body := at + |pieces[0].code|;
      var n := body + |pieces[0].unit|;
      && n <= |frame|
      && pieces[0].code == frame[at..body] && pieces[0].code in {[0, 0, 1], [0, 0, 0, 1]}
      && pieces[0].unit == frame[body..n]
      && (forall j :: body <= j < n ==> !CodeBegins(frame, j))
      && Partition(frame, n, pieces[1..])
  }

  lemma {:induction false} PiecesPartition(frame: Bytes, at: nat)
    requires StartCodeLen(frame, at) != 0
    ensures Partition(frame, at, Pieces(frame, at))
    decreases |frame| - at
  {
    var body := at + StartCodeLen(frame, at);
    var n := NextStartCode(frame, body);
    assert frame[at..body] == [0, 0, 1] || frame[at..body] == [0, 0, 0, 1];
    forall j | body <= j < n
      ensures !CodeBegins(frame, j)
    {
      CodesFound(frame, j);
    }
    if n < |frame| {
      PiecesPartition(frame, n);
    }
    PartitionCons(frame, at, body, n, if n == |frame| then [] else Pieces(frame, n));
  }

  lemma PartitionCons(frame: Bytes, at: nat, body: nat, n: nat, pieces: seq<Piece>)
    requires at <= body <= n <= |frame| && frame[at..body] in {[0, 0, 1], [0, 0, 0, 1]}
    requires forall j :: body <= j < n ==> !CodeBegins(frame, j)
    requires Partition(frame, n, pieces)
    ensures Partition(frame, at, [Piece(frame[at..body], frame[body..n])] + pieces)
  {
    hide CodeBegins;
    assert ([Piece(frame[at..body], frame[body..n])] + pieces)[1..] == pieces;
  }

  function Flatten(pieces: seq<Piece>): Bytes {
    if pieces == [] then [] else pieces[0].code + pieces[0].unit + Flatten(pieces[1..])
  }

  /** Concatenating a partition restores the frame: nothing is lost, doubled or moved. */
  lemma {:induction false} PartitionFlattens(frame: Bytes, at: nat, pieces: seq<Piece>)
    requires at <= |frame| && Partition(frame, at, pieces)
    ensures Flatten(pieces) == frame[at..]
    decreases pieces
  {
    hide CodeBegins;
    if pieces != [] {
      var body := at + |pieces[0].code|;
      var n := body + |pieces[0].unit|;
      PartitionFlattens(frame, n, pieces[1..]);
      ThreeParts(frame, at, body, n);
    }
  }

  lemma ThreeParts(frame: Bytes, at: nat, body: nat, n: nat)
    requires at <= body <= n <= |frame|
    ensures frame[at..body] + frame[body..n] + frame[n..] == frame[at..]
  {
  }

  // ----- fragmenting a NAL unit -----

  /** The fragments of a unit's body from some offset on; `max` is the payload limit. */
  function Fragments(header: byte, body: Bytes, start: bool, max: nat, last: bool): (r: seq<Payload>)
    requires max > 2
    ensures forall p :: p in r ==> |p.bytes| >= 2
    decreases |body|
  {
    if body == [] then []
    else
      var chunk := Min(|body|, max - 2);
      var end := chunk == |body|;
      [Payload(FuHeader(header, start, end) + body[..chunk], last && end)]
      + Fragments(header, body[chunk..], false, max, last)
  }

  function FuHeader(header: byte, start: bool, end: bool): (r: Bytes)
    ensures |r| == 2
  {
    [header / 32 * 32 + FU_A, (if start then 0x80 else 0) + (if end then 0x40 else 0) + header % 32]
  }

  function UnitPayloads(unit: Bytes, max: nat, last: bool): seq<Payload> {
    if unit == [] then []
    else if |unit| <= max then [Payload(unit, last)]
    else if max <= 2 then []
    else Fragments(unit[0], unit[1..], true, max, last)
  }

  method PacketizeUnit(unit: Bytes, max: nat, last: bool) returns (payloads: seq<Payload>)
    ensures payloads == UnitPayloads(unit, max, last)
  {
    if |unit| == 0 {
      return [];
    }
    if |unit| <= max {
      return [Payload(unit, last)];
    }
    if max <= 2 || |unit| <= 1 {
      return [];
    }
    payloads := Fragment(unit[0], unit[1..], max, last);
  }

  method Fragment(header: byte, body: Bytes, max: nat, last: bool) returns (payloads: seq<Payload>)
    requires max > 2
    ensures payloads == Fragments(header, body, true, max, last)
  {
    hide Fragments, FuHeader;
    payloads := [];
    var remaining, offset := |body|, 0;
    ghost var todo := Fragments(header, body, true, max, last);
    assert body[0..] == body;
    while remaining > 0
      invariant 0 <= offset && 0 <= remaining && offset + remaining == |body|
      invariant todo == Fragments(header, body[offset..], offset == 0, max, last)
      invariant payloads + todo == Fragments(header, body, true, max, last)
    {
      var chunk := Min(remaining, max - 2);
      var end := chunk == remaining;
      OneMoreFragment(header, body, offset, max, last);
      var fragment := Payload(FuHeader(header, offset == 0, end) + body[offset..offset + chunk], last && end);
      todo := Fragments(header, body[offset + chunk..], false, max, last);
      Regroup(payloads, [fragment], todo);
      payloads := payloads + [fragment];
      offset, remaining := offset + chunk, remaining - chunk;
    }
    NoFragments(header, body[offset..], offset == 0, max, last);
  }

  lemma NoFragments(header: byte, body: Bytes, start: bool, max: nat, last: bool)
    requires max > 2 && body == []
    ensures Fragments(header, body, start, max, last) == []
  {
  }

  lemma OneMoreFragment(header: byte, body: Bytes, offset: nat, max: nat, last: bool)
    requires max > 2 && offset < |body|
    ensures var next := offset + Min(|body| - offset, max - 2);
      Fragments(header, body[offset..], offset == 0, max, last)
      == [Payload(FuHeader(header, offset == 0, next == |body|) + body[offset..next], last && next == |body|)]
         + Fragments(header, body[next..], false, max, last)
  {
    var chunk := Min(|body| - offset, max - 2);
    assert body[offset..][..chunk] == body[offset..offset + chunk];
    assert body[offset..][chunk..] == body[offset + chunk..];
  }

  function IsStart(p: Payload): bool
    requires |p.bytes| >= 2
  {
    p.bytes[1] / 0x80 == 1
  }

  function IsEnd(p: Payload): bool
    requires |p.bytes| >= 2
  {
    p.bytes[1] / 0x40 % 2 == 1
  }

  /** c is a divided by b, rounded up. */
  predicate IsCeiling(c: int, a: nat, b: nat) {
    (c - 1) * b < a <= c * b
  }

  function Bodies(fragments: seq<Payload>): Bytes
    requires forall p :: p in fragments ==> |p.bytes| >= 2
  {
    if fragments == [] then [] else fragments[0].bytes[2..] + Bodies(fragments[1..])
  }

  lemma FuHeaderBits(header: byte, start: bool, end: bool)
    ensures var f := FuHeader(header, start, end);
      && f[0] % 32 == FU_A && f[0] / 32 == header / 32
      && (f[1] / 0x80 == 1) == start && (f[1] / 0x40 % 2 == 1) == end && f[1] % 32 == header % 32
  {
  }

  lemma CeilingStep(c: int, a: nat, b: nat)
    requires b < a && IsCeiling(c, a - b, b)
    ensures IsCeiling(c + 1, a, b)
  {
    assert (c + 1) * b == c * b + b;
    assert (c - 1) * b == c * b - b;
  }

  predicate IsFragment(p: Payload, header: byte, start: bool, end: bool, max: nat, last: bool) {
    && 2 < |p.bytes| <= max
    && p.bytes[0] == header / 32 * 32 + FU_A
    && p.bytes[1] % 32 == header % 32
    && IsStart(p) == start
    && IsEnd(p) == end
    && p.marker == (last && end)
  }

  lemma BodiesCons(first: Payload, more: seq<Payload>)
    requires |first.bytes| >= 2 && forall p :: p in more ==> |p.bytes| >= 2
    ensures Bodies([first] + more) == first.bytes[2..] + Bodies(more)
  {
    assert ([first] + more)[1..] == more;
  }

  lemma FirstFragment(header: byte, body: Bytes, start: bool, max: nat, last: bool)
    requires max > 2 && body != []
    ensures var chunk := Min(|body|, max - 2);
      var first := Payload(FuHeader(header, start, chunk == |body|) + body[..chunk], last && chunk == |body|);
      && Fragments(header, body, start, max, last) == [first] + Fragments(header, body[chunk..], false, max, last)
      && IsFragment(first, header, start, chunk == |body|, max, last)
      && first.bytes[2..] == body[..chunk]
      && Fragments(header, [], false, max, last) == []
  {
    FuHeaderBits(header, start, Min(|body|, max - 2) == |body|);
  }

  /** What a tail of fragments looks like: how many, sizes, flags, marker, and the body it carries. */
  lemma {:induction false} FragmentsShape(header: byte, body: Bytes, start: bool, max: nat, last: bool)
    requires max > 2 && body != []
    ensures var f := Fragments(header, body, start, max, last);
      && IsCeiling(|f|, |body|, max - 2)
      && (forall i :: 0 <= i < |f| ==> IsFragment(f[i], header, start && i == 0, i == |f| - 1, max, last))
      && Bodies(f) == body
    decreases |body|
  {
    hide Fragments, FuHeader, IsFragment;
    var chunk := Min(|body|, max - 2);
    var f := Fragments(header, body, start, max, last);
    var more := Fragments(header, body[chunk..], false, max, last);
    FirstFragment(header, body, start, max, last);
    BodiesCons(f[0], more);
    if chunk < |body| {
      FragmentsShape(header, body[chunk..], false, max, last);
      CeilingStep(|more|, |body|, max - 2);
      forall i | 0 < i < |f|
        ensures IsFragment(f[i], header, false, i == |f| - 1, max, last)
      {
        assert f[i] == more[i - 1];
      }
    }
  }

  /** An oversized unit becomes ceil((n-1)/(max-2)) >= 2 fragments, so none is both first and last. */
  lemma OversizedUnit(unit: Bytes, max: nat, last: bool)
    requires 2 < max < |unit|
    ensures var f := UnitPayloads(unit, max, last);
      && IsCeiling(|f|, |unit| - 1, max - 2) && |f| >= 2
      && (forall i :: 0 <= i < |f| ==>
            && IsFragment(f[i], unit[0], i == 0, i == |f| - 1, max, last)
            && !(IsStart(f[i]) && IsEnd(f[i])))
      && Bodies(f) == unit[1..]
  {
    FragmentsShape(unit[0], unit[1..], true, max, last);
  }

  // ----- whole frames -----

  /** `PiecePayloads` sends the pieces as one run: only the very last unit may carry the marker. */
  function PiecePayloads(pieces: seq<Piece>, max: nat): seq<Payload> {
    if pieces == [] then []
    else UnitPayloads(pieces[0].unit, max, |pieces| == 1) + PiecePayloads(pieces[1..], max)
  }

  lemma PiecePayloadsCons(piece: Piece, pieces: seq<Piece>, max: nat)
    ensures PiecePayloads([piece] + pieces, max)
         == UnitPayloads(piece.unit, max, pieces == []) + PiecePayloads(pieces, max)
  {
    assert ([piece] + pieces)[1..] == pieces;
  }

  /** The NAL units of a frame: without a leading start code the frame is one unit. */
  function FramePieces(frame: Bytes): (r: seq<Piece>)
    ensures |r| > 0
  {
    if StartCodeLen(frame, 0) != 0 then Pieces(frame, 0) else [Piece([], frame)]
  }

  /** A frame that begins with a start code is cut at every start code; any other frame is one unit. */
  lemma FrameCut(frame: Bytes)
    ensures if CodeBegins(frame, 0) then Partition(frame, 0, FramePieces(frame))
            else FramePieces(frame) == [Piece([], frame)]
  {
    hide Partition, CodeBegins;
    CodesFound(frame, 0);
    if StartCodeLen(frame, 0) != 0 {
      PiecesPartition(frame, 0);
    }
  }

  function Chunks(frame: Bytes, max: nat): seq<Payload>
    requires max > 0
    decreases |frame|
  {
    if frame == [] then []
    else
      var n := Min(|frame|, max);
      [Payload(frame[..n], n == |frame|)] + Chunks(frame[n..], max)
  }

  /** The payloads a frame is sent as; none when the MTU is too small. */
  function FramePayloads(codec: Codec, frame: Bytes, mtu: uint32): seq<Payload> {
    if mtu < 20 then []
    else if codec == H264 then PiecePayloads(FramePieces(frame), mtu - RTP_HEADER_LEN)
    else Chunks(frame, mtu - RTP_HEADER_LEN)
  }

  method PacketizeFrame(codec: Codec, frame: Bytes, mtu: uint32) returns (payloads: seq<Payload>)
    ensures payloads == FramePayloads(codec, frame, mtu)
  {
    if mtu < 20 {
      return [];
    }
    var max := mtu - 12;
    if codec == H264 {
      if StartCodeLen(frame, 0) != 0 {
        payloads := PacketizeAnnexB(frame, max);
      } else {
        payloads := PacketizeUnit(frame, max, true);
        PiecePayloadsCons(Piece([], frame), [], max);
        assert [Piece([], frame)] + [] == FramePieces(frame);
        assert payloads + PiecePayloads([], max) == payloads;
      }
      return;
    }
    payloads := PacketizeChunks(frame, max);
  }

  method PacketizeChunks(frame: Bytes, max: nat) returns (payloads: seq<Payload>)
    requires max > 0
    ensures payloads == Chunks(frame, max)
  {
    payloads := [];
    var offset := 0;
    ghost var todo := Chunks(frame, max);
    assert frame[0..] == frame;
    while offset < |frame|
      invariant 0 <= offset <= |frame|
      invariant todo == Chunks(frame[offset..], max)
      invariant payloads + todo == Chunks(frame, max)
    {
      var n := Min(|frame| - offset, max);
      var chunk := Payload(frame[offset..offset + n], offset + n == |frame|);
      assert frame[offset..][..n] == frame[offset..offset + n];
      assert frame[offset..][n..] == frame[offset + n..];
      assert todo == [chunk] + Chunks(frame[offset + n..], max);
      Regroup(payloads, [chunk], todo[1..]);
      payloads, todo := payloads + [chunk], todo[1..];
      offset := offset + n;
    }
  }

  method PacketizeAnnexB(frame: Bytes, max: nat) returns (payloads: seq<Payload>)
    requires StartCodeLen(frame, 0) != 0
    ensures payloads == PiecePayloads(Pieces(frame, 0), max)
  {
    hide *;
    PayloadsOfPieces(frame, 0, max);
    payloads := [];
    var offset := StartCodeLen(frame, 0);
    ghost var at := 0;
    ghost var todo := PayloadsFrom(frame, 0, max);
    while offset < |frame|
      invariant 0 <= at < offset <= |frame|
      invariant StartCodeLen(frame, at) == offset - at
      invariant todo == PayloadsFrom(frame, at, max)
      invariant payloads + todo == PayloadsFrom(frame, 0, max)
    {
      OneMorePiece(frame, at, max);
      var n := FindStartCode(frame, offset);
      var code := StartCodeLen(frame, offset + n);
      if n == 0 {
        at, offset := offset, offset + code;
        todo := PayloadsFrom(frame, at, max);
        continue;
      }
      var next := PacketizeUnit(frame[offset..offset + n], max, offset + n == |frame|);
      todo := if offset + n == |frame| then [] else PayloadsFrom(frame, offset + n, max);
      Regroup(payloads, next, todo);
      payloads := payloads + next;
      if offset + n == |frame| {
        return;
      }
      at, offset := offset + n, offset + n + code;
    }
    OneMorePiece(frame, at, max);
  }

  lemma OneMorePiece(frame: Bytes, at: nat, max: nat)
    requires StartCodeLen(frame, at) != 0
    ensures var body := at + StartCodeLen(frame, at); var n := NextStartCode(frame, body);
      PayloadsFrom(frame, at, max)
      == (if n == body then [] else UnitPayloads(frame[body..n], max, n == |frame|))
         + (if n == |frame| then [] else PayloadsFrom(frame, n, max))
  {
    hide StartCodeLen, NextStartCode, Fragments;
  }

  /** The payloads from one start code on, position by position. */
  ghost function PayloadsFrom(frame: Bytes, at: nat, max: nat): seq<Payload>
    requires StartCodeLen(frame, at) != 0
    decreases |frame| - at
  {
    var body := at + StartCodeLen(frame, at);
    var n := NextStartCode(frame, body);
    if n == |frame| then UnitPayloads(frame[body..n], max, true)
    else UnitPayloads(frame[body..n], max, false) + PayloadsFrom(frame, n, max)
  }

  lemma {:induction false} PayloadsOfPieces(frame: Bytes, at: nat, max: nat)
    requires StartCodeLen(frame, at) != 0
    ensures PayloadsFrom(frame, at, max) == PiecePayloads(Pieces(frame, at), max)
    decreases |frame| - at
  {
    var body := at + StartCodeLen(frame, at);
    var n := NextStartCode(frame, body);
    var more := if n == |frame| then [] else Pieces(frame, n);
    PiecePayloadsCons(Piece(frame[at..body], frame[body..n]), more, max);
    if n < |frame| {
      PayloadsOfPieces(frame, n, max);
    }
  }
}
