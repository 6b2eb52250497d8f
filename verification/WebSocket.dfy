/**
 * WebSocket frames (section 5.2 of RFC 6455): src/signaling/signaling.c, lines 569 to 696 and 783 to 867.
 */
module WebSocket {
  import opened Octets
  import opened Results

  const BUFFER_LEN := 8192
  const CONTINUE := 0
  const TEXT := 1
  const BINARY := 2
  const CLOSE := 8
  const PING := 9
  const PONG := 10

  type Mask = s: Bytes | |s| == 4 witness [0, 0, 0, 0]
  type Opcode = x: int | 0 <= x < 16

  datatype Frame = Frame(fin: bool, opcode: Opcode, mask: Option<Mask>, payload: Bytes)

  function Masked(data: Bytes, mask: Mask): (r: Bytes)
    ensures |r| == |data| && forall i :: 0 <= i < |r| ==> r[i] == XorByte(data[i], mask[i % 4])
  {
    seq(|data|, i requires 0 <= i < |data| => XorByte(data[i], mask[i % 4]))
  }

  lemma MaskedTwice(data: Bytes, mask: Mask)
    ensures Masked(Masked(data, mask), mask) == data
  {
    hide XorByte;
    forall i | 0 <= i < |data|
      ensures Masked(Masked(data, mask), mask)[i] == data[i]
    {
      XorByteCancels(data[i], mask[i % 4]);
    }
  }

  // ----- writing -----

  function Flag(b: bool): byte {
    if b then 128 else 0
  }

  /** The second byte and the bytes that extend it. */
  function LengthBytes(masked: bool, n: nat): Bytes
    requires n < TWO_64
  {
    if n <= 125 then [Flag(masked) + n]
    else if n <= 0xFFFF then [Flag(masked) + 126] + Bytes16(n)
    else [Flag(masked) + 127] + BigEndian(8, n)
  }

  function MaskBytes(mask: Option<Mask>): Bytes {
    if mask.Some? then mask.value else []
  }

  function Body(f: Frame): (r: Bytes)
    ensures |r| == |f.payload|
  {
    if f.mask.Some? then Masked(f.payload, f.mask.value) else f.payload
  }

  function Head(f: Frame): (r: Bytes)
    requires |f.payload| < TWO_64
    ensures 2 <= |r| <= 14
  {
    [Flag(f.fin) + f.opcode] + (LengthBytes(f.mask.Some?, |f.payload|) + MaskBytes(f.mask))
  }

  function Encoded(f: Frame): (r: Bytes)
    requires |f.payload| < TWO_64
  {
    Head(f) + Body(f)
  }

  /** What the client sends: always the final frame of its message, always masked. */
  function Sent(opcode: Opcode, mask: Mask, data: Bytes): Frame {
    Frame(true, opcode, Some(mask), data)
  }

  predicate CanSend(opcode: Opcode, data: Bytes) {
    |data| < TWO_64 && |Encoded(Sent(opcode, [0, 0, 0, 0], data))| <= BUFFER_LEN
  }

  method BuildHeader(opcode: Opcode, mask: Mask, n: nat) returns (header: Bytes)
    requires n < TWO_64
    ensures header == [Flag(true) + opcode] + (LengthBytes(true, n) + mask)
  {
    header := [128 + opcode];
    if n <= 125 {
      header := header + [128 + n];
    } else if n <= 0xFFFF {
      header := header + [128 + 126] + Bytes16(n);
    } else {
      header := header + [128 + 127] + BigEndian(8, n);
    }
    header := header + mask;
  }

  /** Exclusive or with the mask, in place. */
  method ApplyMask(buffer: array<byte>, at: nat, n: nat, mask: Mask)
    requires at + n <= buffer.Length
    modifies buffer
    ensures buffer[..] == Overwritten(old(buffer[..]), at, Masked(old(buffer[at..at + n]), mask))
  {
    hide XorByte;
    ghost var was := buffer[..];
    ghost var masked := Masked(was[at..at + n], mask);
    for i := 0 to n
      invariant buffer[..] == was[..at] + masked[..i] + was[at + i..]
    {
      assert buffer[at + i] == was[at + i] && masked[i] == XorByte(was[at + i], mask[i % 4]);
      buffer[at + i] := XorByte(buffer[at + i], mask[i % 4]);
      OneMoreMasked(was, masked, at, i, buffer[..]);
    }
    assert masked[..n] == masked;
  }

  lemma OneMoreMasked(was: Bytes, masked: Bytes, at: nat, i: nat, now: Bytes)
    requires i < |masked| && at + |masked| <= |was|
    requires now == (was[..at] + masked[..i] + was[at + i..])[at + i := masked[i]]
    ensures now == was[..at] + masked[..i + 1] + was[at + i + 1..]
  {
  }

  lemma SameSize(opcode: Opcode, mask: Mask, data: Bytes)
    requires |data| < TWO_64
    ensures |Encoded(Sent(opcode, mask, data))| == 5 + |LengthBytes(true, |data|)| + |data|
  {
    hide LengthBytes;
  }

  /** The frame that goes out, built in a send buffer, or none if it is too long for the buffer. */
  method BuildFrame(opcode: Opcode, mask: Mask, data: Bytes) returns (r: Option<Bytes>)
    requires |data| < TWO_64
    ensures r == if CanSend(opcode, data) then Some(Encoded(Sent(opcode, mask, data))) else None
  {
    hide Masked, LengthBytes, Overwritten, Encoded;
    var n := |data|;
    var header := BuildHeader(opcode, mask, n);
    SameSize(opcode, mask, data);
    SameSize(opcode, [0, 0, 0, 0], data);
    var total := |header| + n;
    if total > BUFFER_LEN {
      return None;
    }
    var buffer := new byte[BUFFER_LEN];
    ghost var junk := buffer[..];
    CopyInto(buffer, 0, header);
    CopyInto(buffer, |header|, data);
    FrameLaid(junk, header, data);
    assert buffer[|header|..total] == data;
    ApplyMask(buffer, |header|, n, mask);
    OverwrittenMiddle(header, data, junk[total..], Masked(data, mask));
    assert buffer[..total] == header + Masked(data, mask);
    EncodedSent(opcode, mask, data);
    r := Some(buffer[..total]);
  }

  lemma EncodedSent(opcode: Opcode, mask: Mask, data: Bytes)
    requires |data| < TWO_64
    ensures Encoded(Sent(opcode, mask, data)) ==
      [Flag(true) + opcode] + (LengthBytes(true, |data|) + mask) + Masked(data, mask)
  {
    hide LengthBytes, Masked;
  }

  lemma FrameLaid(junk: Bytes, header: Bytes, data: Bytes)
    requires |header| + |data| <= |junk|
    ensures Overwritten(Overwritten(junk, 0, header), |header|, data) == header + data + junk[|header| + |data|..]
  {
    hide Overwritten;
    assert junk == [] + junk;
    OverwrittenAfter([], junk, header);
    assert [] + header + junk[|header|..] == header + junk[|header|..];
    OverwrittenAfter(header, junk[|header|..], data);
  }

  // ----- reading -----

  /** Starved: the stream ends inside the frame, and what was read of it is gone. */
  datatype Input = Starved | TooLarge(rest: Bytes) | Arrived(fin: bool, opcode: Opcode, payload: Bytes, rest: Bytes)

  function Extension(second: byte): nat {
    if second % 128 == 126 then 2 else if second % 128 == 127 then 8 else 0
  }

  /** What comes before the payload. */
  datatype Prefix = Prefix(fin: bool, opcode: Opcode, mask: Option<Mask>, len: nat, rest: Bytes)

  function ReadPrefix(s: Bytes): (r: Option<Prefix>)
    ensures r.Some? ==> |r.value.rest| < |s|
  {
    if |s| < 2 then None
    else
      var ext := Extension(s[1]);
      var head := 2 + ext + (if s[1] >= 128 then 4 else 0);
      if |s| < head then None
      else
        Some(Prefix(
               s[0] >= 128,
               s[0] % 16,
               if s[1] >= 128 then Some(s[2 + ext..head]) else None,
               if ext > 0 then Value(s[2..2 + ext]) else s[1] % 128,
               s[head..]))
  }

  function Read(s: Bytes): Input {
    var p := ReadPrefix(s);
    if p.None? then Starved
    else
      var Prefix(fin, opcode, mask, len, rest) := p.value;
      if len > BUFFER_LEN then TooLarge(rest)
      else if |rest| < len then Starved
      else Arrived(fin, opcode, if mask.Some? then Masked(rest[..len], mask.value) else rest[..len], rest[len..])
  }

  lemma LengthRead(masked: bool, n: nat)
    requires n < TWO_64
    ensures var b := LengthBytes(masked, n);
      && |b| == 1 + Extension(b[0]) && (b[0] >= 128 <==> masked)
      && (if Extension(b[0]) > 0 then Value(b[1..]) else b[0] % 128) == n
  {
    hide Value, BigEndian;
    if n > 125 {
      var b := LengthBytes(masked, n);
      if n <= 0xFFFF {
        assert b[1..] == Bytes16(n);
        ValueOfTwo(n);
      } else {
        assert b[1..] == BigEndian(8, n);
        Pow256Of8();
        ValueOfBigEndian(8, n);
      }
    }
  }

  lemma ValueOfTwo(n: uint16)
    ensures Value(Bytes16(n)) == n
  {
    var b := Bytes16(n);
    assert b[..1][..0] == [];
    assert Value(b[..1]) == b[0];
  }

  /** The front of an encoded frame, whatever follows it. */
  lemma HeadOf(f: Frame, rest: Bytes)
    requires |f.payload| < TWO_64
    ensures var s := Encoded(f) + rest;
      var l := LengthBytes(f.mask.Some?, |f.payload|);
      var h := |Head(f)|;
      && |s| == h + |f.payload| + |rest| && h == 1 + |l| + |MaskBytes(f.mask)|
      && s[0] == Flag(f.fin) + f.opcode && s[1..1 + |l|] == l
      && s[1 + |l|..h] == MaskBytes(f.mask)
      && s[h..h + |f.payload|] == Body(f) && s[h + |f.payload|..] == rest
  {
    hide LengthBytes, Body, MaskBytes;
    var l, m := LengthBytes(f.mask.Some?, |f.payload|), MaskBytes(f.mask);
    var s := [Flag(f.fin) + f.opcode] + (l + (m + (Body(f) + rest)));
    assert Encoded(f) + rest == s;
    Parts(Flag(f.fin) + f.opcode, l, m, Body(f), rest);
  }

  lemma Parts(first: byte, l: Bytes, m: Bytes, body: Bytes, rest: Bytes)
    ensures var s := [first] + (l + (m + (body + rest)));
      var h := 1 + |l| + |m|;
      && s[0] == first && s[1..1 + |l|] == l && s[1 + |l|..h] == m
      && s[h..h + |body|] == body && s[h + |body|..] == rest
  {
  }

  lemma PrefixRead(f: Frame, rest: Bytes)
    requires |f.payload| < TWO_64
    ensures ReadPrefix(Encoded(f) + rest) ==
      Some(Prefix(f.fin, f.opcode, f.mask, |f.payload|, Body(f) + rest))
  {
    hide Encoded, Head, LengthBytes, Value, Body;
    var s := Encoded(f) + rest;
    HeadOf(f, rest);
    var l := LengthBytes(f.mask.Some?, |f.payload|);
    LengthRead(f.mask.Some?, |f.payload|);
    assert l[0] == s[1] by { assert s[1..1 + |l|][0] == s[1]; }
    assert s[2..1 + |l|] == l[1..] by { assert s[1..1 + |l|][1..] == s[2..1 + |l|]; }
    var h := |Head(f)|;
    assert s[h..] == Body(f) + rest by {
      assert s[h..] == s[h..h + |f.payload|] + s[h + |f.payload|..];
    }
  }

  /** Any frame whose payload fits the receive buffer is recovered: its flag, opcode and payload. */
  lemma FrameRead(f: Frame, rest: Bytes)
    requires |f.payload| <= BUFFER_LEN
    ensures Read(Encoded(f) + rest) == Arrived(f.fin, f.opcode, f.payload, rest)
  {
    hide Encoded, ReadPrefix, Masked;
    PrefixRead(f, rest);
    assert (Body(f) + rest)[..|f.payload|] == Body(f);
    if f.mask.Some? {
      MaskedTwice(f.payload, f.mask.value);
    }
  }

  /** A frame of the client is recovered for every payload that it can send. */
  lemma SentRead(opcode: Opcode, mask: Mask, data: Bytes, rest: Bytes)
    requires CanSend(opcode, data)
    ensures Read(Encoded(Sent(opcode, mask, data)) + rest) == Arrived(true, opcode, data, rest)
  {
    hide Read, Encoded;
    SameSize(opcode, [0, 0, 0, 0], data);
    FrameRead(Sent(opcode, mask, data), rest);
  }

  /** Final flag and opcode; mask flag and length, in 7 bits or behind 126 or 127; and the mask. */
  function WireHead(f: Frame): Bytes
    requires |f.payload| < TWO_64
  {
    var n := |f.payload|;
    var flag := if f.mask.Some? then 0x80 else 0;
    [(if f.fin then 0x80 else 0) + f.opcode]
    + (if n <= 125 then [flag + n] else if n <= 65535 then [flag + 126] + BigEndian(2, n)
       else [flag + 127] + BigEndian(8, n))
    + (if f.mask.Some? then f.mask.value else [])
  }

  /** A frame on the wire; each byte of the payload is combined with one of the four of the mask. */
  lemma FrameBytes(f: Frame)
    requires |f.payload| < TWO_64
    ensures var body := Body(f);
      && Encoded(f) == WireHead(f) + body && |body| == |f.payload|
      && forall i :: 0 <= i < |body| ==>
           body[i] == (if f.mask.Some? then XorByte(f.payload[i], f.mask.value[i % 4]) else f.payload[i])
  {
    hide XorByte, LengthBytes, WireHead;
    HeadBytes(f);
  }

  lemma HeadBytes(f: Frame)
    requires |f.payload| < TWO_64
    ensures Head(f) == WireHead(f)
  {
    hide BigEndian, Bytes16;
    if |f.payload| <= 65535 {
      Bytes16BigEndian(|f.payload|);
    }
  }

  /** What the client can send: 8 bytes of the buffer are for header and mask, once the length is extended. */
  lemma SendLimit(opcode: Opcode, data: Bytes)
    ensures CanSend(opcode, data) <==> |data| <= 8184
  {
    hide Encoded;
    if |data| < TWO_64 {
      SameSize(opcode, [0, 0, 0, 0], data);
    }
  }

  /** A frame that is not all there is lost, up to its last byte but one. */
  lemma TruncatedStarves(f: Frame, n: nat)
    requires |f.payload| <= BUFFER_LEN && n < |Encoded(f)|
    ensures Read(Encoded(f)[..n]) == Starved
  {
    hide Encoded, Value, Masked, Body;
    var all, s := Encoded(f), Encoded(f)[..n];
    PrefixRead(f, []);
    assert all + [] == all;
    if n >= 2 {
      assert s[0] == all[0] && s[1] == all[1];
      var ext := Extension(all[1]);
      var head := 2 + ext + (if all[1] >= 128 then 4 else 0);
      if n >= head {
        assert s[2..2 + ext] == all[2..2 + ext];
        assert ReadPrefix(s).value.len == |f.payload|;
        assert |all[head..]| == |f.payload| && |s[head..]| == n - head;
      }
    }
  }

  /** A frame that announces more than 8192 bytes is refused. */
  lemma OversizedRefused(f: Frame, rest: Bytes)
    requires 8192 < |f.payload| < TWO_64
    ensures Read(Encoded(f) + rest).TooLarge?
  {
    hide Encoded, ReadPrefix;
    PrefixRead(f, rest);
  }
}
