/**
 * RTP headers (section 5.1 of RFC 3550): src/media/rtp.c, lines 34 to 192.
 */
module Rtp {
  import opened Octets
  import opened Results

  const FIXED_LEN := 12

  /** `csrc` holds the `num_csrc` identifiers; `csrcCount` is the separate 4-bit field. */
  datatype Header = Header(
    version: byte,
    padding: bool,
    extension: bool,
    csrcCount: byte,
    marker: bool,
    payloadType: byte,
    sequence: uint16,
    timestamp: uint32,
    ssrc: uint32,
    csrc: seq<uint32>)

  function Flag(b: bool): byte {
    if b then 1 else 0
  }

  // ----- the wire format -----

  function WordAt(packet: Bytes, at: nat): uint32
    requires at + 4 <= |packet|
  {
    Word32(packet[at], packet[at + 1], packet[at + 2], packet[at + 3])
  }

  function Identifiers(packet: Bytes, n: nat): (r: seq<uint32>)
    requires FIXED_LEN + 4 * n <= |packet|
    ensures |r| == n
  {
    if n == 0 then [] else Identifiers(packet, n - 1) + [WordAt(packet, FIXED_LEN + 4 * (n - 1))]
  }

  function IdentifierBytes(csrc: seq<uint32>): (r: Bytes)
    ensures |r| == 4 * |csrc|
  {
    if csrc == [] then []
    else IdentifierBytes(csrc[..|csrc| - 1]) + Bytes32(csrc[|csrc| - 1])
  }

  function FirstByte(h: Header): byte {
    h.version % 4 * 64 + Flag(h.padding) * 32 + Flag(h.extension) * 16 + h.csrcCount % 16
  }

  function SecondByte(h: Header): byte {
    Flag(h.marker) * 128 + h.payloadType % 128
  }

  function FixedBytes(h: Header): (r: Bytes)
    ensures |r| == FIXED_LEN
  {
    [FirstByte(h), SecondByte(h)] + Bytes16(h.sequence) + Bytes32(h.timestamp) + Bytes32(h.ssrc)
  }

  function HeaderBytes(h: Header): (r: Bytes)
    ensures |r| == FIXED_LEN + 4 * |h.csrc|
  {
    FixedBytes(h) + IdentifierBytes(h.csrc)
  }

  /** Where the payload starts when the identifier list has n entries. */
  function PayloadOffset(packet: Bytes, n: nat, extension: bool): nat {
    var base := FIXED_LEN + 4 * n;
    if extension && base + 4 <= |packet|
    then base + 4 + 4 * Word16(packet[base + 2], packet[base + 3])
    else base
  }

  function Parsed(packet: Bytes): Option<Header> {
    if |packet| < FIXED_LEN || packet[0] / 64 != 2 then None
    else
      var n := packet[0] % 16;
      var extension := packet[0] / 16 % 2 == 1;
      if FIXED_LEN + 4 * n + (if extension then 4 else 0) > |packet| then None
      else if PayloadOffset(packet, n, extension) > |packet| then None
      else Some(Fields(packet, extension, Identifiers(packet, n)))
  }

  function Fields(packet: Bytes, extension: bool, csrc: seq<uint32>): Header
    requires FIXED_LEN <= |packet|
  {
    Header(2, packet[0] / 32 % 2 == 1, extension, packet[0] % 16, packet[1] / 128 == 1, packet[1] % 128,
           Word16(packet[2], packet[3]), WordAt(packet, 4), WordAt(packet, 8), csrc)
  }

  /** What follows the header, as the getter computes it from a parsed header. */
  function Payload(packet: Bytes, h: Header): Option<Bytes> {
    var at := PayloadOffset(packet, |h.csrc|, h.extension);
    if at > |packet| then None else Some(packet[at..])
  }

  // ----- the code -----

  method ParseHeader(packet: Bytes) returns (r: Option<Header>)
    ensures r == Parsed(packet)
  {
    if |packet| < 12 {
      return None;
    }
    var n := packet[0] % 16;
    var extension := packet[0] / 16 % 2 == 1;
    if packet[0] / 64 != 2 {
      return None;
    }
    var csrc := ParseIdentifiers(packet, n);
    if csrc == None {
      return None;
    }
    var headerLen := 12 + 4 * n;
    if extension {
      if headerLen + 4 > |packet| {
        return None;
      }
      headerLen := headerLen + 4 + 4 * Word16(packet[headerLen + 2], packet[headerLen + 3]);
    }
    assert headerLen == PayloadOffset(packet, n, extension);
    if headerLen > |packet| {
      return None;
    }
    r := Some(Fields(packet, extension, csrc.value));
  }

  method ParseIdentifiers(packet: Bytes, count: byte) returns (r: Option<seq<uint32>>)
    requires FIXED_LEN <= |packet| && count < 16
    ensures r == if FIXED_LEN + 4 * count > |packet| then None else Some(Identifiers(packet, count))
  {
    var csrc: seq<uint32> := [];
    var i := 0;
    while i < count && i < 16
      invariant 0 <= i <= count
      invariant FIXED_LEN + 4 * i <= |packet|
      invariant csrc == Identifiers(packet, i)
    {
      var off := 12 + i * 4;
      if off + 4 > |packet| {
        return None;
      }
      csrc := csrc + [WordAt(packet, off)];
      i := i + 1;
    }
    r := Some(csrc);
  }

  /** Writes a header at the start of the buffer; 0 means it was refused and nothing was written. */
  method BuildHeader(h: Header, buffer: array<byte>, maxLen: nat) returns (len: nat)
    requires maxLen <= buffer.Length
    modifies buffer
    ensures if h.extension || FIXED_LEN + 4 * |h.csrc| > maxLen
            then len == 0 && buffer[..] == old(buffer[..])
            else len == FIXED_LEN + 4 * |h.csrc| && buffer[..] == HeaderBytes(h) + old(buffer[len..])
  {
    len := 12 + 4 * |h.csrc|;
    if h.extension || len > maxLen {
      return 0;
    }
    hide FixedBytes, Written, HeaderBytes;
    ghost var original := buffer[..];
    BuildFixed(h, buffer);
    WrittenNone(h, original);
    BuildIdentifiers(h, buffer, original);
    WrittenAll(h, original);
    assert original[len..] == old(buffer[len..]);
  }

  /** The loop over the contributing sources. */
  method BuildIdentifiers(h: Header, buffer: array<byte>, ghost original: Bytes)
    requires FIXED_LEN + 4 * |h.csrc| <= |original| == buffer.Length
    requires buffer[..] == Written(h, 0, original)
    modifies buffer
    ensures buffer[..] == Written(h, |h.csrc|, original)
  {
    hide Written, Bytes32;
    var i := 0;
    while i < |h.csrc|
      invariant 0 <= i <= |h.csrc|
      invariant buffer[..] == Written(h, i, original)
    {
      ghost var was := buffer[..];
      StoreWord(buffer, 12 + i * 4, h.csrc[i]);
      WrittenOneMore(h, i, original, was, buffer[..]);
      i := i + 1;
    }
  }

  lemma WrittenNone(h: Header, original: Bytes)
    requires FIXED_LEN <= |original|
    ensures Written(h, 0, original) == FixedBytes(h) + original[FIXED_LEN..]
  {
    hide FixedBytes;
  }

  lemma WrittenAll(h: Header, original: Bytes)
    requires FIXED_LEN + 4 * |h.csrc| <= |original|
    ensures Written(h, |h.csrc|, original) == HeaderBytes(h) + original[FIXED_LEN + 4 * |h.csrc|..]
  {
    hide FixedBytes, IdentifierBytes;
    assert h.csrc[..|h.csrc|] == h.csrc;
  }

  /** The buffer once the fixed part and the first n identifiers are in place. */
  ghost function Written(h: Header, n: nat, original: Bytes): (r: Bytes)
    requires n <= |h.csrc| && FIXED_LEN + 4 * n <= |original|
    ensures |r| == |original|
  {
    FixedBytes(h) + IdentifierBytes(h.csrc[..n]) + original[FIXED_LEN + 4 * n..]
  }

  lemma WrittenOneMore(h: Header, n: nat, original: Bytes, was: Bytes, now: Bytes)
    requires n < |h.csrc| && FIXED_LEN + 4 * |h.csrc| <= |original| && was == Written(h, n, original)
    requires var at := FIXED_LEN + 4 * n;
      now == was[..at] + Bytes32(h.csrc[n]) + was[at + 4..]
    ensures now == Written(h, n + 1, original)
  {
    hide FixedBytes, Bytes32;
    var at := FIXED_LEN + 4 * n;
    assert h.csrc[..n + 1][..n] == h.csrc[..n];
    assert was[..at] == FixedBytes(h) + IdentifierBytes(h.csrc[..n]);
    assert was[at + 4..] == original[at + 4..];
  }

  method BuildFixed(h: Header, buffer: array<byte>)
    requires FIXED_LEN <= buffer.Length
    modifies buffer
    ensures buffer[..] == FixedBytes(h) + old(buffer[FIXED_LEN..])
  {
    buffer[0], buffer[1] := FirstByte(h), SecondByte(h);
    buffer[2], buffer[3] := h.sequence / 0x100, h.sequence % 0x100;
    assert buffer[..4] == [FirstByte(h), SecondByte(h)] + Bytes16(h.sequence);
    StoreWord(buffer, 4, h.timestamp);
    StoreWord(buffer, 8, h.ssrc);
  }

  method StoreWord(buffer: array<byte>, at: nat, w: uint32)
    requires at + 4 <= buffer.Length
    modifies buffer
    ensures buffer[..] == old(buffer[..])[..at] + Bytes32(w) + old(buffer[..])[at + 4..]
  {
    buffer[at] := w / 0x100_0000;
    buffer[at + 1] := w / 0x1_0000 % 0x100;
    buffer[at + 2] := w / 0x100 % 0x100;
    buffer[at + 3] := w % 0x100;
  }

  // ----- parsing and building are inverse -----

  /** The headers that have a wire form of their own. */
  predicate Canonical(h: Header) {
    h.version == 2 && !h.extension && h.csrcCount == |h.csrc| && |h.csrc| < 16 && h.payloadType < 128
  }

  lemma {:induction false} IdentifiersOfBytes(prefix: Bytes, csrc: seq<uint32>, rest: Bytes, n: nat)
    requires |prefix| == FIXED_LEN && n <= |csrc|
    ensures Identifiers(prefix + IdentifierBytes(csrc) + rest, n) == csrc[..n]
    decreases |csrc|, n
  {
    var packet := prefix + IdentifierBytes(csrc) + rest;
    if n == |csrc| && n > 0 {
      var last := csrc[n - 1];
      var tail := Bytes32(last) + rest;
      assert packet == prefix + IdentifierBytes(csrc[..n - 1]) + tail;
      IdentifiersOfBytes(prefix, csrc[..n - 1], tail, n - 1);
      assert forall k :: 0 <= k < 4 ==> packet[FIXED_LEN + 4 * (n - 1) + k] == Bytes32(last)[k];
      Word32RoundTrip(last);
    } else if n > 0 {
      var tail := Bytes32(csrc[|csrc| - 1]) + rest;
      assert packet == prefix + IdentifierBytes(csrc[..|csrc| - 1]) + tail;
      IdentifiersOfBytes(prefix, csrc[..|csrc| - 1], tail, n);
    }
  }

  lemma FlagsOfBytes(h: Header)
    requires Canonical(h)
    ensures FirstByte(h) / 64 == 2 && FirstByte(h) % 16 == |h.csrc|
    ensures (FirstByte(h) / 32 % 2 == 1) == h.padding
    ensures FirstByte(h) / 16 % 2 == 0
    ensures (SecondByte(h) / 128 == 1) == h.marker && SecondByte(h) % 128 == h.payloadType
  {
  }

  lemma FixedFields(h: Header, packet: Bytes)
    requires FIXED_LEN <= |packet| && packet[..FIXED_LEN] == FixedBytes(h)
    ensures packet[0] == FirstByte(h) && packet[1] == SecondByte(h)
    ensures Word16(packet[2], packet[3]) == h.sequence
    ensures WordAt(packet, 4) == h.timestamp
    ensures WordAt(packet, 8) == h.ssrc
  {
    var fixed := FixedBytes(h);
    Word16RoundTrip(h.sequence);
    Word32RoundTrip(h.timestamp);
    Word32RoundTrip(h.ssrc);
    assert packet[2..4] == fixed[2..4] == Bytes16(h.sequence);
    assert packet[4..8] == fixed[4..8] == Bytes32(h.timestamp);
    assert packet[8..12] == fixed[8..12] == Bytes32(h.ssrc);
  }

  /** Parsing what was built gives the header back, and the payload is what followed it. */
  lemma ParsedOfBuilt(h: Header, payload: Bytes)
    requires Canonical(h)
    ensures Parsed(HeaderBytes(h) + payload) == Some(h)
    ensures Payload(HeaderBytes(h) + payload, h) == Some(payload)
  {
    var packet := HeaderBytes(h) + payload;
    assert packet == FixedBytes(h) + IdentifierBytes(h.csrc) + payload;
    assert packet[..FIXED_LEN] == FixedBytes(h);
    FixedFields(h, packet);
    FlagsOfBytes(h);
    IdentifiersOfBytes(FixedBytes(h), h.csrc, payload, |h.csrc|);
    assert h.csrc[..|h.csrc|] == h.csrc;
    assert PayloadOffset(packet, |h.csrc|, false) == |HeaderBytes(h)|;
  }

  lemma {:induction false} BytesOfIdentifiers(packet: Bytes, n: nat)
    requires FIXED_LEN + 4 * n <= |packet|
    ensures IdentifierBytes(Identifiers(packet, n)) == packet[FIXED_LEN..FIXED_LEN + 4 * n]
  {
    if n > 0 {
      var at := FIXED_LEN + 4 * (n - 1);
      BytesOfIdentifiers(packet, n - 1);
      assert Identifiers(packet, n)[..n - 1] == Identifiers(packet, n - 1);
      Bytes32RoundTrip(packet[at], packet[at + 1], packet[at + 2], packet[at + 3]);
      assert packet[at..at + 4] == [packet[at], packet[at + 1], packet[at + 2], packet[at + 3]];
    }
  }

  /** Building a parsed header without extension restores its bytes. */
  lemma BuiltOfParsed(packet: Bytes)
    requires Parsed(packet).Some? && !Parsed(packet).value.extension
    ensures var h := Parsed(packet).value;
            Canonical(h) && HeaderBytes(h) == packet[..FIXED_LEN + 4 * |h.csrc|]
  {
    hide FixedBytes, FirstByte, SecondByte, WordAt;
    var h := Parsed(packet).value;
    BytesOfIdentifiers(packet, |h.csrc|);
    BytesOfFlags(packet[0], packet[1], h);
    BytesOfWords(h, packet);
    assert packet[..FIXED_LEN] + packet[FIXED_LEN..FIXED_LEN + 4 * |h.csrc|] == packet[..FIXED_LEN + 4 * |h.csrc|];
  }

  lemma BytesOfWords(h: Header, packet: Bytes)
    requires FIXED_LEN <= |packet|
    requires packet[0] == FirstByte(h) && packet[1] == SecondByte(h)
    requires Word16(packet[2], packet[3]) == h.sequence
    requires WordAt(packet, 4) == h.timestamp
    requires WordAt(packet, 8) == h.ssrc
    ensures packet[..FIXED_LEN] == FixedBytes(h)
  {
    Bytes16RoundTrip(packet[2], packet[3]);
    Bytes32RoundTrip(packet[4], packet[5], packet[6], packet[7]);
    Bytes32RoundTrip(packet[8], packet[9], packet[10], packet[11]);
    assert packet[..FIXED_LEN] == packet[..2] + packet[2..4] + packet[4..8] + packet[8..12];
  }

  lemma BytesOfFlags(b0: byte, b1: byte, h: Header)
    requires b0 / 64 == 2 && b0 / 16 % 2 == 0
    requires h.version == 2 && h.padding == (b0 / 32 % 2 == 1) && !h.extension && h.csrcCount == b0 % 16
    requires h.marker == (b1 / 128 == 1) && h.payloadType == b1 % 128
    ensures FirstByte(h) == b0 && SecondByte(h) == b1
  {
  }

  // ----- every packet with a valid header -----

  /** The header extension of section 5.3.1 of RFC 3550. */
  datatype Extension = Extension(profile: uint16, words: seq<uint32>)

  /** What a packet is made of. */
  datatype Parts = Parts(
    padding: bool,
    marker: bool,
    payloadType: byte,
    sequence: uint16,
    timestamp: uint32,
    ssrc: uint32,
    sources: seq<uint32>,
    extension: Option<Extension>,
    payload: Bytes)

  predicate Possible(w: Parts) {
    w.payloadType < 128 && |w.sources| < 16 && (w.extension.Some? ==> |w.extension.value.words| < TWO_16)
  }

  function Words(words: seq<uint32>): (r: Bytes)
    ensures |r| == 4 * |words|
    decreases |words|
  {
    if words == [] then [] else BigEndian(4, words[0]) + Words(words[1..])
  }

  function FixedPart(w: Parts): (r: Bytes)
    requires Possible(w)
    ensures |r| == 12
  {
    [128 + (if w.padding then 32 else 0) + (if w.extension.Some? then 16 else 0) + |w.sources|,
     (if w.marker then 128 else 0) + w.payloadType]
    + BigEndian(2, w.sequence) + BigEndian(4, w.timestamp) + BigEndian(4, w.ssrc)
  }

  function ExtensionPart(e: Option<Extension>): Bytes
    requires e.Some? ==> |e.value.words| < TWO_16
  {
    if e.None? then [] else BigEndian(2, e.value.profile) + BigEndian(2, |e.value.words|) + Words(e.value.words)
  }

  /** The parts laid out, most significant byte first. */
  function Laid(w: Parts): Bytes
    requires Possible(w)
  {
    FixedPart(w) + Words(w.sources) + (ExtensionPart(w.extension) + w.payload)
  }

  function HeaderOf(w: Parts): Header
    requires Possible(w)
  {
    Header(2, w.padding, w.extension.Some?, |w.sources|, w.marker, w.payloadType, w.sequence, w.timestamp, w.ssrc,
           w.sources)
  }

  lemma {:induction false} WordsAreIdentifiers(words: seq<uint32>)
    ensures Words(words) == IdentifierBytes(words)
    decreases |words|
  {
    hide BigEndian, Bytes32;
    if |words| == 1 {
      assert words[..0] == [] && words[1..] == [] && IdentifierBytes([]) == [] && Words([]) == [];
      Bytes32BigEndian(words[0]);
    } else if words != [] {
      var k := |words| - 1;
      assert words[1..][..k - 1] == words[..k][1..];
      WordsAreIdentifiers(words[1..]);
      WordsAreIdentifiers(words[..k]);
      WordsAreIdentifiers(words[1..][..k - 1]);
    }
  }

  lemma FixedPartRead(w: Parts, rest: Bytes)
    requires Possible(w)
    ensures var b := FixedPart(w) + rest;
      && b[0] / 64 == 2 && b[0] % 16 == |w.sources| && (b[0] / 16 % 2 == 1) == w.extension.Some?
      && forall csrc: seq<uint32> :: |csrc| == |w.sources| ==>
           Fields(b, w.extension.Some?, csrc) == HeaderOf(w).(csrc := csrc)
  {
    hide Bytes16, Bytes32, BigEndian, Word16, Word32;
    var f, b := FixedPart(w), FixedPart(w) + rest;
    Bytes16BigEndian(w.sequence);
    Bytes32BigEndian(w.timestamp);
    Bytes32BigEndian(w.ssrc);
    assert b[2..4] == f[2..4] == Bytes16(w.sequence);
    assert b[4..8] == f[4..8] == Bytes32(w.timestamp);
    assert b[8..12] == f[8..12] == Bytes32(w.ssrc);
    Word16RoundTrip(w.sequence);
    Word32RoundTrip(w.timestamp);
    Word32RoundTrip(w.ssrc);
  }

  lemma ExtensionRead(pre: Bytes, e: Option<Extension>, payload: Bytes, n: nat)
    requires e.Some? ==> |e.value.words| < TWO_16
    requires |pre| == FIXED_LEN + 4 * n
    ensures var b := pre + (ExtensionPart(e) + payload);
      && |b| >= |pre| + (if e.Some? then 4 else 0)
      && PayloadOffset(b, n, e.Some?) == |b| - |payload| && b[|b| - |payload|..] == payload
  {
    hide Words, BigEndian;
    var b := pre + (ExtensionPart(e) + payload);
    if e.Some? {
      var count := |e.value.words|;
      Bytes16BigEndian(count);
      Word16RoundTrip(count);
      assert b[|pre| + 2..|pre| + 4] == BigEndian(2, count);
    }
  }

  /**
   * Whatever the parts, with or without an extension of any number of words: the header is accepted and
   * has the given fields, and the payload is the given one.
   */
  lemma ParsedOfLaid(w: Parts)
    requires Possible(w)
    ensures Parsed(Laid(w)) == Some(HeaderOf(w)) && Payload(Laid(w), HeaderOf(w)) == Some(w.payload)
  {
    hide FixedPart, Words, ExtensionPart, Fields, PayloadOffset, Identifiers, IdentifierBytes;
    var n, rest := |w.sources|, ExtensionPart(w.extension) + w.payload;
    var b := Laid(w);
    assert b == FixedPart(w) + (Words(w.sources) + rest);
    FixedPartRead(w, Words(w.sources) + rest);
    WordsAreIdentifiers(w.sources);
    IdentifiersOfBytes(FixedPart(w), w.sources, rest, n);
    assert w.sources[..n] == w.sources;
    ExtensionRead(FixedPart(w) + Words(w.sources), w.extension, w.payload, n);
  }

  lemma {:induction false} AsWords(b: Bytes) returns (words: seq<uint32>)
    requires |b| % 4 == 0
    ensures Words(words) == b && |words| == |b| / 4
    decreases |b|
  {
    hide BigEndian;
    if b == [] {
      words := [];
    } else {
      var more := AsWords(b[4..]);
      var w := Word32(b[0], b[1], b[2], b[3]);
      words := [w] + more;
      Bytes32RoundTrip(b[0], b[1], b[2], b[3]);
      Bytes32BigEndian(w);
      assert b == [b[0], b[1], b[2], b[3]] + b[4..] && words[1..] == more;
    }
  }

  /** Nothing else is accepted: a packet whose header parses is laid out in such parts. */
  lemma LaidOfParsed(packet: Bytes) returns (w: Parts)
    requires Parsed(packet).Some?
    ensures Possible(w) && packet == Laid(w)
    ensures HeaderOf(w) == Parsed(packet).value && Payload(packet, HeaderOf(w)) == Some(w.payload)
  {
    hide Words, BigEndian, Identifiers, IdentifierBytes, Fields;
    var h := Parsed(packet).value;
    var n := packet[0] % 16;
    var base, at := FIXED_LEN + 4 * n, PayloadOffset(packet, n, packet[0] / 16 % 2 == 1);
    var sources := Identifiers(packet, n);
    var extension := None;
    if packet[0] / 16 % 2 == 1 {
      var words := AsWords(packet[base + 4..at]);
      extension := Some(Extension(Word16(packet[base], packet[base + 1]), words));
    }
    w := Parts(packet[0] / 32 % 2 == 1, packet[1] / 128 == 1, packet[1] % 128, Word16(packet[2], packet[3]),
               WordAt(packet, 4), WordAt(packet, 8), sources, extension, packet[at..]);
    FixedPartIs(packet, w);
    BytesOfIdentifiers(packet, n);
    WordsAreIdentifiers(sources);
    ExtensionPartIs(packet, base, at, extension);
    assert packet == packet[..FIXED_LEN] + packet[FIXED_LEN..base] + (packet[base..at] + packet[at..]);
    ParsedOfLaid(w);
  }

  lemma FixedPartIs(packet: Bytes, w: Parts)
    requires FIXED_LEN <= |packet| && packet[0] / 64 == 2 && Possible(w) && |w.sources| == packet[0] % 16
    requires w.padding == (packet[0] / 32 % 2 == 1) && w.extension.Some? == (packet[0] / 16 % 2 == 1)
    requires w.marker == (packet[1] / 128 == 1) && w.payloadType == packet[1] % 128
    requires w.sequence == Word16(packet[2], packet[3])
    requires w.timestamp == WordAt(packet, 4) && w.ssrc == WordAt(packet, 8)
    ensures FixedPart(w) == packet[..FIXED_LEN]
  {
    hide BigEndian, Bytes16, Bytes32;
    Bytes16BigEndian(w.sequence);
    Bytes32BigEndian(w.timestamp);
    Bytes32BigEndian(w.ssrc);
    Bytes16RoundTrip(packet[2], packet[3]);
    Bytes32RoundTrip(packet[4], packet[5], packet[6], packet[7]);
    Bytes32RoundTrip(packet[8], packet[9], packet[10], packet[11]);
    assert packet[..FIXED_LEN] == packet[..2] + packet[2..4] + packet[4..8] + packet[8..12];
  }

  lemma FourAndRest(b: Bytes, base: nat, at: nat)
    requires base + 4 <= at <= |b|
    ensures b[base..at] == [b[base], b[base + 1]] + [b[base + 2], b[base + 3]] + b[base + 4..at]
  {
  }

  lemma ExtensionPartIs(packet: Bytes, base: nat, at: nat, e: Option<Extension>)
    requires base <= at <= |packet|
    requires if e.Some?
      then
        && base + 4 <= at && |e.value.words| == Word16(packet[base + 2], packet[base + 3])
        && e.value.profile == Word16(packet[base], packet[base + 1]) && Words(e.value.words) == packet[base + 4..at]
      else base == at
    ensures ExtensionPart(e) == packet[base..at]
  {
    hide BigEndian, Words, Bytes16, Word16;
    if e.Some? {
      Bytes16BigEndian(e.value.profile);
      Bytes16BigEndian(|e.value.words|);
      Bytes16RoundTrip(packet[base], packet[base + 1]);
      Bytes16RoundTrip(packet[base + 2], packet[base + 3]);
      FourAndRest(packet, base, at);
    }
  }
}
