/**
 * Receiving media: src/peer_connection.c, lines 33 to 75 and 936 to 1053.
 *
 * An incoming packet is decrypted in place, matched to a track by payload type, put in the
 * track's jitter buffer, depacketized, and added to the frame the track is putting together.
 * The observer callbacks are the list of frames delivered to the application.
 */
module MediaReceiver {
  import opened Octets
  import opened Results
  import opened Packetizer
  import opened Depacketizer
  import JitterBuffer
  import Rtp
  import Srtp

  const FRAME_BUFFER_LEN := 4096
  const FIRST_CAPACITY := 4096

  datatype Kind = Audio | Video

  /** A frame given to the application: which track, its bytes, and the timestamp it is reported under. */
  datatype Delivery = Delivery(track: nat, frame: Bytes, timestamp: uint32)

  datatype TrackState = TrackState(
    kind: Kind,
    codec: Codec,
    payloadType: int,
    config: JitterBuffer.Config,
    jitter: JitterBuffer.State,
    reassembly: Reassembly,
    packetsReceived: nat,
    framesReceived: nat)

  datatype Protection = Clear | Sealed(primitives: Srtp.Primitives, keys: Srtp.Keys)

  datatype State = State(tracks: seq<TrackState>, delivered: seq<Delivery>)

  /** The first track with this payload type, or the number of tracks if there is none. */
  function FindTrack(tracks: seq<TrackState>, payloadType: int): (i: nat)
    ensures i <= |tracks|
    ensures i < |tracks| ==> tracks[i].payloadType == payloadType
    ensures forall j :: 0 <= j < i ==> tracks[j].payloadType != payloadType
  {
    if tracks == [] || tracks[0].payloadType == payloadType then 0
    else 1 + FindTrack(tracks[1..], payloadType)
  }

  function Opened(protection: Protection, packet: Bytes): Option<Bytes> {
    match protection
    case Clear => Some(packet)
    case Sealed(primitives, keys) => Srtp.Unprotected(primitives, keys, packet)
  }

  /** A track after a decrypted packet with a valid header, and the frame this completes. */
  function TrackReceive(t: TrackState, packet: Bytes, now: uint64): (TrackState, Option<Bytes>)
    requires Rtp.Parsed(packet).Some?
  {
    var share := PacketShare(t.codec, packet, FRAME_BUFFER_LEN);
    var (r, frame) := Absorb(t.reassembly, share, Rtp.Parsed(packet).value.timestamp);
    (t.(jitter := JitterBuffer.Add(t.config, t.jitter, packet, now).0,
        packetsReceived := t.packetsReceived + 1,
        reassembly := if t.codec == H264 then r else t.reassembly,
        framesReceived := t.framesReceived + (if share.complete then 1 else 0)),
     if !share.complete then None else if t.codec == H264 then frame else Some(share.data))
  }

  /** A decrypted packet finds its track. */
  function Route(s: State, packet: Bytes, now: uint64): (State, Status) {
    var header := Rtp.Parsed(packet);
    if header == None then (s, Error)
    else
      var i := FindTrack(s.tracks, header.value.payloadType);
      if i == |s.tracks| then (s, NotFound)
      else
        var (t, frame) := TrackReceive(s.tracks[i], packet, now);
        (Deliver(s, i, t, frame, header.value.timestamp), Ok)
  }

  function Deliver(s: State, i: nat, t: TrackState, frame: Option<Bytes>, timestamp: uint32): State
    requires i < |s.tracks|
  {
    State(s.tracks[i := t], s.delivered + if frame == None then [] else [Delivery(i, frame.value, timestamp)])
  }

  function Receive(s: State, protection: Protection, packet: Bytes, now: uint64): (State, Status) {
    var plain := Opened(protection, packet);
    if plain == None then (s, Error) else Route(s, plain.value, now)
  }

  // ----- a track -----

  class Track {
    const kind: Kind
    const codec: Codec
    const payloadType: int
    const jitterBuffer: JitterBuffer.Buffer
    var reassemblyBuffer: array<byte>
    var reassemblyLen: nat
    var reassemblyTimestamp: uint32
    var reassemblyActive: bool
    var packetsReceived: nat
    var framesReceived: nat
    ghost var Repr: set<object>

    ghost predicate Valid()
      reads this, Repr
      ensures Valid() ==> this in Repr
    {
      && this in Repr && reassemblyBuffer in Repr
      && jitterBuffer in Repr && jitterBuffer.Repr <= Repr
      && this !in jitterBuffer.Repr && reassemblyBuffer !in jitterBuffer.Repr
      && jitterBuffer.Valid()
      && reassemblyLen <= reassemblyBuffer.Length
    }

    ghost function Held(): Reassembly
      requires Valid()
      reads this, Repr
    {
      Reassembly(reassemblyActive, reassemblyTimestamp, reassemblyBuffer[..reassemblyLen])
    }

    ghost function Contents(): TrackState
      requires Valid()
      reads this, Repr
    {
      TrackState(kind, codec, payloadType, jitterBuffer.config, jitterBuffer.Contents(), Held(),
                 packetsReceived, framesReceived)
    }

    constructor (kind: Kind, codec: Codec, payloadType: int, config: JitterBuffer.Config)
      requires config.bufferSize > 0
      ensures Valid() && fresh(Repr)
      ensures Contents() == TrackState(kind, codec, payloadType, config, JitterBuffer.State([], 0), IDLE, 0, 0)
    {
      this.kind, this.codec, this.payloadType := kind, codec, payloadType;
      var jitter := new JitterBuffer.Buffer(config);
      jitterBuffer := jitter;
      reassemblyBuffer := new byte[0];
      reassemblyLen, reassemblyTimestamp, reassemblyActive := 0, 0, false;
      packetsReceived, framesReceived := 0, 0;
      new;
      Repr := {this, reassemblyBuffer} + jitterBuffer.Repr;
    }

    method ResetReassembly()
      requires Valid()
      modifies this
      ensures Valid() && Repr == old(Repr)
      ensures Contents() == old(Contents()).(reassembly := IDLE)
    {
      reassemblyLen, reassemblyTimestamp, reassemblyActive := 0, 0, false;
    }

    /** Appends, doubling the capacity until the data fits; the bytes already there are kept. */
    method AppendReassembly(data: Bytes)
      requires Valid()
      modifies Repr
      ensures Valid() && fresh(Repr - old(Repr))
      ensures Contents() == old(Contents()).(reassembly := old(Held()).(data := old(Held()).data + data))
    {
      var len := |data|;
      if len == 0 {
        assert Held().data + data == Held().data;
        return;
      }
      ghost var held := reassemblyBuffer[..reassemblyLen];
      if reassemblyLen + len > reassemblyBuffer.Length {
        var newCapacity := Doubled(reassemblyBuffer.Length, reassemblyLen + len);
        Realloc(newCapacity);
      }
      CopyInto(reassemblyBuffer, reassemblyLen, data);
      reassemblyLen := reassemblyLen + len;
      assert reassemblyBuffer[..reassemblyLen] == held + data;
    }

    method Realloc(newCapacity: nat)
      requires Valid() && reassemblyLen <= newCapacity
      modifies this
      ensures Valid() && fresh(Repr - old(Repr)) && fresh(reassemblyBuffer)
      ensures reassemblyBuffer.Length == newCapacity && reassemblyLen == old(reassemblyLen)
      ensures Contents() == old(Contents())
    {
      var newBuffer := new byte[newCapacity];
      CopyInto(newBuffer, 0, reassemblyBuffer[..reassemblyLen]);
      reassemblyBuffer := newBuffer;
      Repr := Repr + {newBuffer};
    }

    /** Appends a non-empty share, dropping what is held of a frame with another timestamp. */
    method AppendShare(data: Bytes, timestamp: uint32)
      requires Valid() && |data| > 0
      modifies Repr
      ensures Valid() && fresh(Repr - old(Repr))
      ensures Contents() == old(Contents()).(reassembly := Appended(old(Held()), data, timestamp))
    {
      if reassemblyActive && reassemblyTimestamp != timestamp && reassemblyLen > 0 {
        ResetReassembly();
      }
      if !reassemblyActive {
        reassemblyTimestamp := timestamp;
        reassemblyActive := true;
      }
      AppendReassembly(data);
    }

    /** Adds a share to the frame being put together; an H.264 frame that is complete leaves the buffer. */
    method AbsorbShare(data: Bytes, complete: bool, timestamp: uint32) returns (frame: Option<Bytes>)
      requires Valid()
      modifies Repr
      ensures Valid() && fresh(Repr - old(Repr))
      ensures var (r, f) := Absorb(old(Held()), Share(data, complete), timestamp);
        && Contents() == old(Contents()).(reassembly := r, framesReceived := old(framesReceived) + if complete then 1 else 0)
        && frame == f
    {
      hide Appended;
      if |data| > 0 {
        AppendShare(data, timestamp);
      }
      frame := None;
      if complete {
        framesReceived := framesReceived + 1;
        frame := Some(reassemblyBuffer[..reassemblyLen]);
        ResetReassembly();
      }
    }

    method BufferPacket(packet: Bytes, now: uint64)
      requires Valid() && Rtp.Parsed(packet).Some?
      modifies Repr
      ensures Valid() && Repr == old(Repr)
      ensures Contents() == old(Contents()).(
        jitter := JitterBuffer.Add(jitterBuffer.config, old(Contents()).jitter, packet, now).0,
        packetsReceived := old(packetsReceived) + 1)
    {
      hide JitterBuffer.Add, Rtp.Parsed;
      JitterAccepts(jitterBuffer.config, jitterBuffer.Contents(), packet, now);
      var status := jitterBuffer.AddPacket(packet, now);
      packetsReceived := packetsReceived + 1;
    }

    /** Without reassembly, a share that completes a frame is the frame. */
    method PassShare(data: Bytes, complete: bool) returns (frame: Option<Bytes>)
      requires Valid()
      modifies this`framesReceived
      ensures Valid()
      ensures Contents() == old(Contents()).(framesReceived := old(framesReceived) + if complete then 1 else 0)
      ensures frame == if complete then Some(data) else None
    {
      frame := None;
      if complete {
        framesReceived := framesReceived + 1;
        frame := Some(data);
      }
    }

    method Depacketize(packet: Bytes) returns (share: Share)
      ensures share == PacketShare(codec, packet, FRAME_BUFFER_LEN)
    {
      var frameBuffer := new byte[FRAME_BUFFER_LEN];
      var complete, frameLen := DepacketizeFrame(codec, packet, frameBuffer, FRAME_BUFFER_LEN);
      share := Share(frameBuffer[..frameLen], complete);
    }

    /** A share is reassembled or passed on, as the codec demands. */
    method TakeShare(share: Share, timestamp: uint32) returns (frame: Option<Bytes>)
      requires Valid()
      modifies Repr
      ensures Valid() && fresh(Repr - old(Repr))
      ensures var (r, f) := Absorb(old(Held()), share, timestamp);
        && Contents() == old(Contents()).(
             reassembly := if codec == H264 then r else old(Held()),
             framesReceived := old(framesReceived) + if share.complete then 1 else 0)
        && frame == if !share.complete then None else if codec == H264 then f else Some(share.data)
    {
      hide Absorb;
      if codec == H264 {
        frame := AbsorbShare(share.data, share.complete, timestamp);
      } else {
        frame := PassShare(share.data, share.complete);
      }
    }

    /** Jitter buffer, depacketizer and reassembly for one decrypted packet. */
    method ReceivePacket(packet: Bytes, header: Rtp.Header, now: uint64) returns (frame: Option<Bytes>)
      requires Valid() && Rtp.Parsed(packet) == Some(header)
      modifies Repr
      ensures Valid() && fresh(Repr - old(Repr))
      ensures (Contents(), frame) == TrackReceive(old(Contents()), packet, now)
    {
      hide JitterBuffer.Add, PacketShare, Rtp.Parsed, Absorb;
      BufferPacket(packet, now);
      var share := Depacketize(packet);
      frame := TakeShare(share, header.timestamp);
    }
  }

  lemma JitterAccepts(config: JitterBuffer.Config, s: JitterBuffer.State, packet: Bytes, now: uint64)
    requires Rtp.Parsed(packet).Some?
    ensures JitterBuffer.Add(config, s, packet, now).1 == Ok
  {
  }

  /** The doubling loop: it ends, on a power-of-two multiple of where it started, at or above what is needed. */
  method Doubled(capacity: nat, needed: nat) returns (grown: nat)
    ensures grown >= needed
    ensures exists k: nat :: grown == (if capacity == 0 then FIRST_CAPACITY else capacity) * Pow2(k)
    ensures grown < 2 * needed || grown == FIRST_CAPACITY || grown == capacity
  {
    var first := if capacity == 0 then FIRST_CAPACITY else capacity;
    grown := first;
    ghost var k: nat := 0;
    while grown < needed
      invariant grown == first * Pow2(k) && first > 0
      invariant grown < 2 * needed || grown == first
      decreases needed - grown
    {
      assert first * Pow2(k + 1) == 2 * (first * Pow2(k));
      grown, k := grown * 2, k + 1;
    }
  }

  // ----- the connection -----

  class Receiver {
    const srtp: Srtp.Context?
    const tracks: seq<Track>
    var delivered: seq<Delivery>
    ghost var Repr: set<object>

    constructor (srtp: Srtp.Context?, tracks: seq<Track>, ghost repr: set<object>)
      requires forall i :: 0 <= i < |tracks| ==>
        tracks[i] in repr && tracks[i].Repr <= repr && tracks[i].Valid()
      requires forall i, j :: 0 <= i < j < |tracks| ==> tracks[i].Repr !! tracks[j].Repr
      requires srtp == null || srtp !in repr
      ensures Valid() && this.srtp == srtp && this.tracks == tracks && delivered == []
    {
      this.srtp, this.tracks, delivered := srtp, tracks, [];
      Repr := {this} + repr;
    }

    ghost predicate Valid()
      reads this, Repr
      ensures Valid() ==> this in Repr
    {
      && this in Repr
      && (srtp == null || srtp !in Repr)
      && (forall i :: 0 <= i < |tracks| ==>
            tracks[i] in Repr && tracks[i].Repr <= Repr && this !in tracks[i].Repr && tracks[i].Valid())
      && (forall i, j :: 0 <= i < j < |tracks| ==> tracks[i].Repr !! tracks[j].Repr)
    }

    ghost function TrackStates(n: nat): (r: seq<TrackState>)
      requires Valid() && n <= |tracks|
      reads this, Repr
      ensures |r| == n && forall i :: 0 <= i < n ==> r[i] == tracks[i].Contents()
    {
      if n == 0 then [] else TrackStates(n - 1) + [tracks[n - 1].Contents()]
    }

    ghost function Contents(): State
      requires Valid()
      reads this, Repr
    {
      State(TrackStates(|tracks|), delivered)
    }

    ghost function Protecting(): Protection {
      if srtp == null then Clear else Sealed(srtp.primitives, srtp.keys)
    }

    method FindTrackIndex(payloadType: int) returns (matched: nat)
      requires Valid()
      ensures matched == FindTrack(Contents().tracks, payloadType)
    {
      matched := 0;
      while matched < |tracks|
        invariant 0 <= matched <= |tracks|
        invariant forall j :: 0 <= j < matched ==> tracks[j].payloadType != payloadType
      {
        if tracks[matched].payloadType == payloadType {
          break;
        }
        matched := matched + 1;
      }
      FindTrackUnique(Contents().tracks, payloadType, matched);
    }

    /** Removes the protection in place; what is left of the packet is its first `plainLen` bytes. */
    method Open(packet: array<byte>, len: nat) returns (status: Status, plainLen: nat)
      requires len <= packet.Length < TWO_64
      modifies packet, srtp
      ensures var plain := Opened(Protecting(), old(packet[..len]));
        && (status == if plain.Some? then Ok else Error)
        && (plain.Some? ==> plainLen <= len && packet[..plainLen] == plain.value)
    {
      hide Srtp.Unprotected;
      status, plainLen := Ok, len;
      if srtp != null {
        status, plainLen := srtp.Decrypt(packet, len);
        if status == Ok {
          UnprotectedLength(srtp.primitives, srtp.keys, old(packet[..len]));
          ghost var plain := Srtp.Unprotected(srtp.primitives, srtp.keys, old(packet[..len])).value;
          assert packet[..plainLen] == packet[..][..plainLen] == plain;
        }
      }
    }

    method ReceiveOnTrack(i: nat, packet: Bytes, header: Rtp.Header, now: uint64) returns (frame: Option<Bytes>)
      requires Valid() && i < |tracks| && Rtp.Parsed(packet) == Some(header)
      modifies Repr
      ensures Valid() && fresh(Repr - old(Repr))
      ensures var (t, f) := TrackReceive(old(Contents()).tracks[i], packet, now);
        && Contents() == State(old(Contents()).tracks[i := t], old(delivered))
        && frame == f
    {
      hide Rtp.Parsed, TrackReceive, TrackStates, Track.Contents, Track.Valid;
      assert tracks[i].Valid();
      frame := tracks[i].ReceivePacket(packet, header, now);
      forall j | 0 <= j < |tracks| && j != i
        ensures tracks[j].Valid() && tracks[j].Contents() == old(tracks[j].Contents())
        ensures tracks[j].Repr == old(tracks[j].Repr) && tracks[j].Repr !! tracks[i].Repr
      {
        assert old(tracks[j].Valid()) && tracks[j] in old(tracks[j].Repr);
        assert old(tracks[j].Repr) !! old(tracks[i].Repr);
      }
      Repr := Repr + tracks[i].Repr;
      assert Contents().tracks == old(Contents()).tracks[i := tracks[i].Contents()];
    }

    /** Hands a decrypted packet to its track. */
    method Dispatch(packet: Bytes, now: uint64) returns (status: Status)
      requires Valid()
      modifies Repr
      ensures Valid() && fresh(Repr - old(Repr))
      ensures (Contents(), status) == Route(old(Contents()), packet, now)
    {
      hide Rtp.Parsed, TrackReceive, FindTrack, TrackStates, Valid;
      ghost var before := Contents();
      var header := Rtp.ParseHeader(packet);
      if header == None {
        return Error;
      }
      var i := FindTrackIndex(header.value.payloadType);
      assert |before.tracks| == |tracks|;
      if i == |tracks| {
        return NotFound;
      }
      var frame := ReceiveOnTrack(i, packet, header.value, now);
      assert Contents().delivered == before.delivered;
      Report(i, frame, header.value.timestamp);
      status := Ok;
    }

    /** The observer callback, made only for a complete frame. */
    method Report(i: nat, frame: Option<Bytes>, timestamp: uint32)
      requires Valid()
      modifies this`delivered
      ensures Valid()
      ensures Contents() == old(Contents()).(delivered :=
        old(delivered) + if frame == None then [] else [Delivery(i, frame.value, timestamp)])
    {
      hide TrackStates;
      if frame.Some? {
        delivered := delivered + [Delivery(i, frame.value, timestamp)];
      }
      assert TrackStates(|tracks|) == old(TrackStates(|tracks|));
    }

    method ProcessIncomingRtp(packet: array<byte>, len: nat, now: uint64) returns (status: Status)
      requires Valid() && len <= packet.Length < TWO_64 && packet !in Repr
      modifies Repr, packet, srtp
      ensures Valid() && fresh(Repr - old(Repr))
      ensures (Contents(), status) == Receive(old(Contents()), Protecting(), old(packet[..len]), now)
    {
      hide Route, Opened, TrackStates;
      var decrypted, plainLen := Open(packet, len);
      if decrypted != Ok {
        return decrypted;
      }
      status := Dispatch(packet[..plainLen], now);
    }
  }

  lemma UnprotectedLength(p: Srtp.Primitives, keys: Srtp.Keys, packet: Bytes)
    ensures var plain := Srtp.Unprotected(p, keys, packet);
            plain.Some? ==> |plain.value| == |packet| - Srtp.TAG_LEN
  {
  }

  lemma FindTrackUnique(tracks: seq<TrackState>, payloadType: int, i: nat)
    requires i <= |tracks|
    requires i < |tracks| ==> tracks[i].payloadType == payloadType
    requires forall j :: 0 <= j < i ==> tracks[j].payloadType != payloadType
    ensures i == FindTrack(tracks, payloadType)
  {
    var k := FindTrack(tracks, payloadType);
    assert !(i < k);
    assert !(k < i);
  }
}
