/**
 * From one RTP packet to its share of a frame, and from shares to frames:
 * src/media/rtp.c, lines 863 to 961, and src/peer_connection.c, lines 33 to 75 and 989 to 1050.
 */
module Depacketizer {
  import opened Octets
  import opened Results
  import opened Packetizer
  import Rtp

  const STAP_A := 24
  const START_CODE: Bytes := [0, 0, 0, 1]

  /** What one packet contributes: bytes to append, and whether a frame is complete after them. */
  datatype Share = Share(data: Bytes, complete: bool)

  const NOTHING := Share([], false)

  /** What a fragment adds; the first one starts the unit. */
  function FuShare(payload: Bytes, marker: bool, maxLen: nat): Share
    requires |payload| >= 2
  {
    var start, end := payload[1] / 0x80 == 1, payload[1] / 0x40 % 2 == 1;
    if start then
      if |payload| - 2 + 5 > maxLen then NOTHING
      else Share(START_CODE + [payload[0] / 32 * 32 + payload[1] % 32] + payload[2..], marker || end)
    else
      if |payload| - 2 > maxLen then NOTHING else Share(payload[2..], marker || end)
  }

  function UnitShare(payload: Bytes, marker: bool, maxLen: nat): Share {
    if payload == [] then NOTHING
    else
      var kind := payload[0] % 32;
      if 0 < kind < STAP_A then
        if |payload| + 4 > maxLen then NOTHING else Share(START_CODE + payload, marker)
      else if kind == FU_A then
        if |payload| < 2 then NOTHING else FuShare(payload, marker, maxLen)
      else NOTHING
  }

  function PayloadShare(codec: Codec, payload: Bytes, marker: bool, maxLen: nat): Share {
    if codec == H264 then UnitShare(payload, marker, maxLen)
    else if |payload| > maxLen then NOTHING
    else Share(payload, marker)
  }

  function PacketShare(codec: Codec, packet: Bytes, maxLen: nat): Share {
    var header := Rtp.Parsed(packet);
    if header == None then NOTHING
    else
      var payload := Rtp.Payload(packet, header.value);
      if payload == None then NOTHING else PayloadShare(codec, payload.value, header.value.marker, maxLen)
  }

  /**
   * What each kind of payload gives, in a buffer of `maxLen` bytes: units of types 1 to 23 and first
   * fragments behind 00 00 00 01, the fragments rebuilding the first byte of their unit; later fragments as
   * they are; nothing for any other type or for what does not fit. A fragment completes a frame by the
   * marker or by its end bit.
   */
  lemma ShareExactly(payload: Bytes, marker: bool, maxLen: nat)
    ensures var share := PayloadShare(H264, payload, marker, maxLen);
      if payload != [] && 1 <= payload[0] % 32 <= 23 && 4 + |payload| <= maxLen
      then share == Share([0, 0, 0, 1] + payload, marker)
      else if |payload| >= 2 && payload[0] % 32 == 28
        && (if payload[1] >= 128 then 5 else 0) + |payload| - 2 <= maxLen
      then
        share == Share(
          (if payload[1] >= 128 then [0, 0, 0, 1, payload[0] - 28 + payload[1] % 32] else []) + payload[2..],
          marker || payload[1] % 128 >= 64)
      else share == Share([], false)
    ensures forall codec :: codec != H264 ==>
      PayloadShare(codec, payload, marker, maxLen) ==
        if |payload| <= maxLen then Share(payload, marker) else Share([], false)
  {
    if |payload| >= 2 {
      assert payload[0] % 32 == 28 ==> payload[0] / 32 * 32 == payload[0] - 28;
      assert payload[1] / 0x80 == 1 <==> payload[1] >= 128;
      assert payload[1] / 0x40 % 2 == 1 <==> payload[1] % 128 >= 64;
    }
  }

  /** What a packet gives depends on its payload and its marker only, wherever its header ends. */
  lemma ShareOfLaid(codec: Codec, w: Rtp.Parts, maxLen: nat)
    requires Rtp.Possible(w)
    ensures PacketShare(codec, Rtp.Laid(w), maxLen) == PayloadShare(codec, w.payload, w.marker, maxLen)
  {
    hide Rtp.Laid, Rtp.Parsed, Rtp.Payload, PayloadShare;
    Rtp.ParsedOfLaid(w);
  }

  method DepacketizeFrame(codec: Codec, packet: Bytes, buffer: array<byte>, maxLen: nat)
    returns (complete: bool, frameLen: nat)
    requires maxLen <= buffer.Length
    modifies buffer
    ensures frameLen <= maxLen && buffer[frameLen..] == old(buffer[..])[frameLen..]
    ensures Share(buffer[..frameLen], complete) == PacketShare(codec, packet, maxLen)
  {
    hide Rtp.Parsed, Rtp.Payload;
    frameLen, complete := 0, false;
    var header := Rtp.ParseHeader(packet);
    if header == None {
      return;
    }
    var found := Rtp.Payload(packet, header.value);
    if found == None {
      return;
    }
    var payload := found.value;
    if codec == H264 {
      complete, frameLen := DepacketizeUnit(payload, header.value.marker, buffer, maxLen);
      return;
    }
    if |payload| > maxLen {
      return;
    }
    CopyInto(buffer, 0, payload);
    frameLen := |payload|;
    complete := header.value.marker;
  }

  method DepacketizeUnit(payload: Bytes, marker: bool, buffer: array<byte>, maxLen: nat)
    returns (complete: bool, frameLen: nat)
    requires maxLen <= buffer.Length
    modifies buffer
    ensures frameLen <= maxLen && buffer[frameLen..] == old(buffer[..])[frameLen..]
    ensures Share(buffer[..frameLen], complete) == UnitShare(payload, marker, maxLen)
  {
    frameLen, complete := 0, false;
    if |payload| == 0 {
      return;
    }
    var kind := payload[0] % 32;
    if kind > 0 && kind < STAP_A {
      if |payload| + 4 > maxLen {
        return;
      }
      StoreUnit(buffer, START_CODE, payload);
      frameLen := |payload| + 4;
      complete := marker;
      return;
    }
    if kind == FU_A {
      if |payload| < 2 {
        return;
      }
      complete, frameLen := DepacketizeFragment(payload, marker, buffer, maxLen);
    }
  }

  method DepacketizeFragment(payload: Bytes, marker: bool, buffer: array<byte>, maxLen: nat)
    returns (complete: bool, frameLen: nat)
    requires |payload| >= 2 && maxLen <= buffer.Length
    modifies buffer
    ensures frameLen <= maxLen && buffer[frameLen..] == old(buffer[..])[frameLen..]
    ensures Share(buffer[..frameLen], complete) == FuShare(payload, marker, maxLen)
  {
    frameLen, complete := 0, false;
    var start, end := payload[1] / 0x80 == 1, payload[1] / 0x40 % 2 == 1;
    var fragmentLen := |payload| - 2;
    if start {
      if fragmentLen + 5 > maxLen {
        return;
      }
      StoreUnit(buffer, START_CODE + [payload[0] / 32 * 32 + payload[1] % 32], payload[2..]);
      frameLen := fragmentLen + 5;
    } else {
      if fragmentLen > maxLen {
        return;
      }
      CopyInto(buffer, 0, payload[2..]);
      frameLen := fragmentLen;
    }
    complete := marker || end;
  }

  /** What comes before the bytes of a payload, and those bytes. */
  method StoreUnit(buffer: array<byte>, head: Bytes, data: Bytes)
    requires |head| + |data| <= buffer.Length
    modifies buffer
    ensures buffer[..|head| + |data|] == head + data
    ensures buffer[|head| + |data|..] == old(buffer[..])[|head| + |data|..]
  {
    CopyInto(buffer, 0, head);
    CopyInto(buffer, |head|, data);
  }

  // ----- reassembly -----

  datatype Reassembly = Reassembly(active: bool, timestamp: uint32, data: Bytes)

  const IDLE := Reassembly(false, 0, [])

  /** The buffer once a non-empty share with this timestamp is appended, after dropping another frame's bytes. */
  function Appended(r: Reassembly, data: Bytes, timestamp: uint32): Reassembly {
    var kept := if r.active && r.timestamp != timestamp && |r.data| > 0 then IDLE else r;
    var started := if kept.active then kept else kept.(active := true, timestamp := timestamp);
    started.(data := started.data + data)
  }

  /** One share: the new buffer, and the frame handed to the application if one is complete. */
  function Absorb(r: Reassembly, share: Share, timestamp: uint32): (result: (Reassembly, Option<Bytes>))
    ensures result.1.Some? <==> share.complete
  {
    var grown := if share.data != [] then Appended(r, share.data, timestamp) else r;
    if share.complete then (IDLE, Some(grown.data)) else (grown, None)
  }

  /** Where the bytes in the buffer came from. */
  datatype Part = Part(timestamp: uint32, data: Bytes)

  /** The reassembly with the parts its bytes are made of. */
  datatype Traced = Traced(buffer: Reassembly, parts: seq<Part>)

  function AbsorbTraced(t: Traced, share: Share, timestamp: uint32): Traced {
    var dropped := t.buffer.active && t.buffer.timestamp != timestamp && |t.buffer.data| > 0;
    var parts := if share.data == [] then t.parts
                 else (if dropped then [] else t.parts) + [Part(timestamp, share.data)];
    Traced(Absorb(t.buffer, share, timestamp).0, if share.complete then [] else parts)
  }

  function AbsorbAll(t: Traced, shares: seq<(Share, uint32)>): Traced
    decreases |shares|
  {
    if shares == [] then t else AbsorbAll(AbsorbTraced(t, shares[0].0, shares[0].1), shares[1..])
  }

  function PartBytes(parts: seq<Part>): Bytes {
    if parts == [] then [] else PartBytes(parts[..|parts| - 1]) + parts[|parts| - 1].data
  }

  /** The buffer holds exactly the bytes of some shares of one timestamp, and is active when it holds any. */
  predicate OneFrame(t: Traced) {
    && t.buffer.data == PartBytes(t.parts)
    && (forall p :: p in t.parts ==> p.timestamp == t.buffer.timestamp)
    && (t.buffer.active <==> t.buffer.data != [])
    && (t.parts != [] ==> t.buffer.active)
  }

  lemma AbsorbKeepsOneFrame(t: Traced, share: Share, timestamp: uint32)
    requires OneFrame(t)
    ensures OneFrame(AbsorbTraced(t, share, timestamp))
  {
    hide PartBytes;
    assert PartBytes([]) == [] by { NoParts(); }
    if share.data != [] {
      OneMorePart(t.parts, Part(timestamp, share.data));
      OneMorePart([], Part(timestamp, share.data));
      if t.parts == [] {
        assert t.buffer.data == [];
      }
    }
  }

  lemma NoParts()
    ensures PartBytes([]) == []
  {
  }

  lemma OneMorePart(parts: seq<Part>, part: Part)
    ensures PartBytes(parts + [part]) == PartBytes(parts) + part.data
    ensures forall p :: p in parts + [part] ==> p in parts || p == part
  {
    assert (parts + [part])[..|parts|] == parts;
  }

  /** For any shares in any order, the buffer never mixes two frames, and an active buffer is never empty. */
  lemma {:induction false} NeverMixed(t: Traced, shares: seq<(Share, uint32)>)
    requires OneFrame(t)
    ensures OneFrame(AbsorbAll(t, shares))
    decreases |shares|
  {
    hide OneFrame, AbsorbTraced;
    if shares != [] {
      AbsorbKeepsOneFrame(t, shares[0].0, shares[0].1);
      NeverMixed(AbsorbTraced(t, shares[0].0, shares[0].1), shares[1..]);
    }
  }

  /**
   * A delivered frame consists of bytes of the timestamp it is delivered under exactly when the
   * completing packet carried bytes, or nothing was held, or what was held has that timestamp.
   * (An empty last fragment delivers whatever the buffer holds.)
   */
  lemma DeliveredTimestamp(t: Traced, share: Share, timestamp: uint32)
    requires OneFrame(t) && share.complete
    ensures var delivered := AbsorbTraced(t, share.(complete := false), timestamp);
      && Absorb(t.buffer, share, timestamp).1 == Some(delivered.buffer.data)
      && ((forall p :: p in delivered.parts ==> p.timestamp == timestamp)
          <==> share.data != [] || t.parts == [] || t.buffer.timestamp == timestamp)
  {
    var delivered := AbsorbTraced(t, share.(complete := false), timestamp);
    if share.data == [] && t.parts != [] {
      assert t.parts[0] in delivered.parts;
    }
  }

  /** A completing packet without bytes of its own delivers what is held of another timestamp under its own. */
  lemma OtherTimestampDelivered(data: Bytes)
    requires data != []
    ensures var t := Traced(Reassembly(true, 1, data), [Part(1, data)]);
      OneFrame(t) && Absorb(t.buffer, Share([], true), 2).1 == Some(data)
  {
    assert PartBytes([Part(1, data)]) == data by {
      OneMorePart([], Part(1, data));
      NoParts();
      assert [] + [Part(1, data)] == [Part(1, data)];
    }
  }
}
