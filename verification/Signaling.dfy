/**
 * The signalling client: src/signaling/signaling.c, lines 569 to 781, 891 to 899, 1362 to 1426 and
 * 1465 to 1488.
 */
module Signaling {
  import opened Octets
  import opened Results
  import opened WebSocket
  import Json

  // ----- bytes and text -----

  /** The bytes of a message up to the first zero, as a C string. */
  function CText(b: Bytes): (r: string)
    ensures |r| <= |b| && forall i :: 0 <= i < |r| ==> r[i] == b[i] as char && r[i] != '\0'
    ensures |r| < |b| ==> b[|r|] == 0
    decreases |b|
  {
    if b == [] || b[0] == 0 then "" else [b[0] as char] + CText(b[1..])
  }

  /** Characters that are single, non-zero bytes. */
  predicate IsCText(s: string) {
    forall i :: 0 <= i < |s| ==> '\0' < s[i] <= '\U{FF}'
  }

  function BytesOf(s: string): (r: Bytes)
    requires IsCText(s)
    ensures |r| == |s| && forall i :: 0 <= i < |r| ==> r[i] == s[i] as int
  {
    seq(|s|, i requires 0 <= i < |s| => s[i] as int)
  }

  lemma TextOfBytes(s: string)
    requires IsCText(s)
    ensures CText(BytesOf(s)) == s
  {
    hide CText, BytesOf;
    var b := BytesOf(s);
    assert forall i :: 0 <= i < |b| ==> b[i] != 0 && b[i] as char == s[i];
  }

  // ----- what a frame does -----

  /** `partial` is the fragmented message so far; `delivered` the messages that were processed. */
  datatype State = State(connected: bool, partial: Option<Bytes>, delivered: seq<Bytes>, sent: Bytes)

  /** `ok` is false where the code returns an error. */
  datatype Reply = Reply(state: State, ok: bool)

  function SendOn(s: State, opcode: Opcode, mask: Mask, data: Bytes): State
    requires |data| < TWO_64
  {
    if s.connected && CanSend(opcode, data) then s.(sent := s.sent + Encoded(Sent(opcode, mask, data))) else s
  }

  /** A fragment that opens or continues a message. */
  function Gather(s: State, soFar: Bytes, payload: Bytes): Reply {
    if |soFar| + |payload| > BUFFER_LEN then Reply(s.(partial := Some(soFar)), false)
    else Reply(s.(partial := Some(soFar + payload)), true)
  }

  function Handled(s: State, fin: bool, opcode: Opcode, payload: Bytes, mask: Mask): Reply
    requires |payload| <= BUFFER_LEN
  {
    if opcode == TEXT || opcode == BINARY then
      if fin then Reply(s.(delivered := s.delivered + [payload]), true)
      else Gather(s, if s.partial.Some? then s.partial.value else [], payload)
    else if opcode == CONTINUE then
      if s.partial.None? then Reply(s, false)
      else
        var g := Gather(s, s.partial.value, payload);
        if !g.ok || !fin then g
        else Reply(s.(partial := None, delivered := s.delivered + [s.partial.value + payload]), true)
    else if opcode == CLOSE then Reply(s.(connected := false), false)
    else if opcode == PING then Reply(SendOn(s, PONG, mask, payload), true)
    else Reply(s, true)
  }

  datatype Progress = Progress(reply: Reply, rest: Bytes)

  function ReadOne(s: State, stream: Bytes, mask: Mask): Progress {
    match Read(stream)
    case Starved => Progress(Reply(s, true), [])
    case TooLarge(rest) => Progress(Reply(s, false), rest)
    case Arrived(fin, opcode, payload, rest) => Progress(Handled(s, fin, opcode, payload, mask), rest)
  }

  function Closed(r: Reply): State {
    if r.ok then r.state else r.state.(connected := false)
  }

  /** tinyrtc_signaling_process: one frame, although its loop asks for as many as there are. */
  function Processed(s: State, stream: Bytes, mask: Mask): (State, Bytes) {
    if !s.connected then (s, stream)
    else
      var p := ReadOne(s, stream, mask);
      (Closed(p.reply), p.rest)
  }

  function EventsOf(delivered: seq<Bytes>): seq<Json.Event>
    decreases |delivered|
  {
    if delivered == [] then []
    else
      var k := |delivered| - 1;
      var e := Json.Understood(CText(delivered[k]));
      EventsOf(delivered[..k]) + (if e.Some? then [e.value] else [])
  }

  lemma EventsSnoc(delivered: seq<Bytes>, message: Bytes)
    ensures var e := Json.Understood(CText(message));
      EventsOf(delivered + [message]) == EventsOf(delivered) + (if e.Some? then [e.value] else [])
  {
    hide Json.Understood, CText;
    assert (delivered + [message])[..|delivered|] == delivered;
  }

  /** Each message is reported once or not at all, in order. */
  lemma {:induction false} EventsJoin(a: seq<Bytes>, b: seq<Bytes>, message: Bytes)
    ensures EventsOf([]) == [] && EventsOf(a + b) == EventsOf(a) + EventsOf(b)
    ensures var e := Json.Understood(CText(message));
      EventsOf([message]) == if e.None? then [] else [e.value]
    decreases |b|
  {
    hide Json.Understood, CText;
    EventsSnoc([], message);
    assert [] + [message] == [message];
    if b == [] {
      assert a + b == a;
    } else {
      var k := |b| - 1;
      EventsJoin(a, b[..k], message);
      EventsSnoc(a + b[..k], b[k]);
      EventsSnoc(b[..k], b[k]);
      assert a + b == (a + b[..k]) + [b[k]] && b == b[..k] + [b[k]];
    }
  }

  // ----- the client -----

  class Client {
    var connected: bool
    /** What the transport has received and the client has not read. */
    var stream: Bytes
    /** What the client has written to the transport. */
    var sent: Bytes
    const recvBuf: array<byte>
    var recvLen: nat
    var messageBuf: array?<byte>
    var messageLen: nat
    /** What the callback was called with. */
    var events: seq<Json.Event>
    ghost var delivered: seq<Bytes>
    ghost var Repr: set<object>

    ghost predicate Valid()
      reads this, Repr
      ensures Valid() ==> this in Repr
    {
      && this in Repr && recvBuf in Repr && recvBuf.Length == BUFFER_LEN
      && (messageBuf != null ==>
            messageBuf in Repr && messageBuf != recvBuf && messageBuf.Length == BUFFER_LEN && messageLen <= BUFFER_LEN)
      && events == EventsOf(delivered)
    }

    ghost function Here(): State
      requires Valid()
      reads this, Repr
    {
      State(connected, if messageBuf == null then None else Some(messageBuf[..messageLen]), delivered, sent)
    }

    constructor ()
      ensures Valid() && fresh(Repr) && recvLen == 0
      ensures Here() == State(true, None, [], []) && stream == []
    {
      connected, stream, sent := true, [], [];
      recvBuf := new byte[BUFFER_LEN];
      recvLen, messageBuf, messageLen := 0, null, 0;
      events, delivered := [], [];
      new;
      Repr := {this, recvBuf};
    }

    /** Reads n bytes one at a time; None when the transport has no more. */
    method Take(n: nat) returns (r: Option<Bytes>)
      modifies this`stream
      ensures n <= |old(stream)| ==> r == Some(old(stream)[..n]) && stream == old(stream)[n..]
      ensures n > |old(stream)| ==> r == None && stream == []
    {
      var got: Bytes := [];
      for i := 0 to n
        invariant i <= |old(stream)| && got == old(stream)[..i] && stream == old(stream)[i..]
      {
        if |stream| == 0 {
          return None;
        }
        got := got + [stream[0]];
        stream := stream[1..];
      }
      r := Some(got);
    }

    /** The payload, read into the receive buffer. */
    method Fill(n: nat) returns (ok: bool)
      requires n <= recvBuf.Length && recvLen == 0
      modifies this`stream, recvBuf
      ensures ok == (n <= |old(stream)|)
      ensures ok ==> stream == old(stream)[n..] && recvBuf[..n] == old(stream)[..n]
      ensures !ok ==> stream == []
    {
      for i := 0 to n
        invariant i <= |old(stream)| && stream == old(stream)[i..]
        invariant recvBuf[..i] == old(stream)[..i]
      {
        if |stream| == 0 {
          return false;
        }
        recvBuf[recvLen + i] := stream[0];
        stream := stream[1..];
      }
      ok := true;
    }

    method TakePrefix() returns (r: Option<Prefix>)
      modifies this`stream
      ensures r == ReadPrefix(old(stream))
      ensures stream == if r.Some? then r.value.rest else []
    {
      hide Value;
      ghost var s := stream;
      var header := Take(2);
      if header.None? {
        return None;
      }
      var second := header.value[1];
      var len: nat := second % 128;
      var needed := Extension(second);
      if needed > 0 {
        var extension := Take(needed);
        if extension.None? {
          return None;
        }
        len := ReadLength(extension.value);
        assert extension.value == s[2..2 + needed];
      }
      assert stream == s[2 + needed..];
      var mask: Option<Mask> := None;
      if second >= 128 {
        var key := Take(4);
        if key.None? {
          return None;
        }
        mask := Some(key.value);
        assert key.value == s[2 + needed..2 + needed + 4];
        assert stream == s[2 + needed + 4..];
      }
      r := Some(Prefix(header.value[0] >= 128, header.value[0] % 16, mask, len, stream));
    }

    /** `mask` is what the random generator gives a reply. */
    method ReadFrame(mask: Mask) returns (ret: int)
      requires Valid() && recvLen == 0
      modifies Repr
      ensures Valid() && fresh(Repr - old(Repr))
      ensures ret == 0 || ret == -1
      ensures ret == 0 ==> recvLen == 0
      ensures Progress(Reply(Here(), ret == 0), stream) == ReadOne(old(Here()), old(stream), mask)
    {
      hide Handled, ReadPrefix, Masked, EventsOf;
      var p := TakePrefix();
      if p.None? {
        return 0;
      }
      var Prefix(fin, opcode, key, len, rest) := p.value;
      if len > BUFFER_LEN {
        return -1;
      }
      var whole := Fill(len);
      if !whole {
        return 0;
      }
      recvLen := recvLen + len;
      if key.Some? {
        ghost var raw := recvBuf[..];
        ApplyMask(recvBuf, recvLen - len, len, key.value);
        FrontOverwritten(raw, Masked(raw[..len], key.value));
        assert recvBuf[..len] == Masked(rest[..len], key.value);
      }
      var ok := Handle(fin, opcode, len, mask);
      ret := if ok then 0 else -1;
    }

    method Handle(fin: bool, opcode: Opcode, len: nat, mask: Mask) returns (ok: bool)
      requires Valid() && recvLen == len <= BUFFER_LEN
      modifies Repr
      ensures Valid() && fresh(Repr - old(Repr)) && stream == old(stream)
      ensures ok ==> recvLen == 0
      ensures Reply(Here(), ok) == Handled(old(Here()), fin, opcode, old(recvBuf[..len]), mask)
    {
      hide EventsOf, SendOn;
      if opcode == TEXT || opcode == BINARY {
        if !fin {
          if messageBuf == null {
            messageBuf := new byte[BUFFER_LEN];
            Repr := Repr + {messageBuf};
            messageLen := 0;
          }
          ok := AppendFragment(len);
          return;
        }
        Deliver(recvBuf[..len]);
        recvLen := 0;
      } else if opcode == CONTINUE {
        if messageBuf == null {
          return false;
        }
        ok := AppendFragment(len);
        if !ok {
          return;
        }
        if fin {
          Deliver(messageBuf[..messageLen]);
          messageBuf, messageLen := null, 0;
        }
      } else if opcode == CLOSE {
        connected := false;
        return false;
      } else if opcode == PING {
        var replied := SendFrame(PONG, mask, recvBuf[..len]);
        recvLen := 0;
      } else {
        recvLen := 0;
      }
      ok := true;
    }

    method AppendFragment(len: nat) returns (ok: bool)
      requires Valid() && messageBuf != null && recvLen == len <= BUFFER_LEN
      modifies this`messageLen, this`recvLen, messageBuf
      ensures Valid() && (ok ==> recvLen == 0)
      ensures Reply(Here(), ok) == Gather(old(Here()), old(messageBuf[..messageLen]), old(recvBuf[..len]))
    {
      if messageLen + len > BUFFER_LEN {
        return false;
      }
      CopyInto(messageBuf, messageLen, recvBuf[..len]);
      messageLen := messageLen + len;
      recvLen := 0;
      ok := true;
    }

    /** sig_process_message: parses the text and calls back. */
    method Deliver(message: Bytes)
      requires Valid()
      modifies this`events, this`delivered
      ensures Valid() && delivered == old(delivered) + [message]
    {
      hide EventsOf;
      EventsSnoc(delivered, message);
      var event := Json.ProcessMessage(CText(message));
      if event.Some? {
        events := events + [event.value];
      } else {
        assert EventsOf(delivered) + [] == EventsOf(delivered);
      }
      delivered := delivered + [message];
    }

    method SendFrame(opcode: Opcode, mask: Mask, data: Bytes) returns (ok: bool)
      requires Valid() && |data| < TWO_64
      modifies this`sent
      ensures Valid() && Here() == SendOn(old(Here()), opcode, mask, data)
      ensures ok == (connected && CanSend(opcode, data))
    {
      hide Encoded, EventsOf;
      if !connected {
        return false;
      }
      var frame := BuildFrame(opcode, mask, data);
      if frame.None? {
        return false;
      }
      sent := sent + frame.value;
      ok := true;
    }

    /** tinyrtc_signaling_process. The count it returns is always zero. */
    method Process(mask: Mask) returns (processed: int)
      requires Valid() && (connected ==> recvLen == 0)
      modifies Repr
      ensures Valid() && fresh(Repr - old(Repr)) && (connected ==> recvLen == 0)
      ensures (Here(), stream) == Processed(old(Here()), old(stream), mask)
      ensures processed == 0
    {
      hide ReadOne, EventsOf;
      processed := 0;
      if !connected {
        return;
      }
      var reading := true;
      while reading
        invariant Valid() && fresh(Repr - old(Repr)) && (connected ==> recvLen == 0) && processed == 0
        invariant reading ==> connected && Here() == old(Here()) && stream == old(stream)
        invariant !reading ==> (Here(), stream) == Processed(old(Here()), old(stream), mask)
        decreases reading
      {
        var ret := ReadFrame(mask);
        if ret < 0 {
          connected := false;
          reading := false;
        } else if ret == 0 {
          reading := false;
        } else {
          processed := processed + 1;
        }
      }
    }

    /** tinyrtc_signaling_send_offer and tinyrtc_signaling_send_answer. */
    method SendDescription(d: Json.Description, sdp: string, mask: Mask) returns (ok: bool)
      requires Valid() && IsCText(sdp)
      modifies this`sent
      ensures Valid() && ok == connected
      ensures Here() == Announced(old(Here()), d, sdp, mask)
    {
      hide EventsOf, Json.MessageWith, CanSend, BytesOf, Encoded;
      if !connected {
        return false;
      }
      var escaped := new char[Json.ESCAPED_LEN];
      var n := Json.Escape(sdp, escaped);
      var json := Json.MessageWith(d, escaped[..n]);
      MessageFits(d, sdp);
      ok := SendFrame(TEXT, mask, BytesOf(json));
    }
  }

  lemma FrontOverwritten(b: Bytes, data: Bytes)
    requires |data| <= |b|
    ensures Overwritten(b, 0, data)[..|data|] == data
  {
  }

  method ReadLength(extension: Bytes) returns (len: nat)
    ensures len == Value(extension)
  {
    len := 0;
    for i := 0 to |extension|
      invariant len == Value(extension[..i])
    {
      assert extension[..i + 1][..i] == extension[..i];
      len := len * 0x100 + extension[i];
    }
    assert extension[..|extension|] == extension;
  }

  // ----- announcing a description -----

  /** The message always fits both the text buffer of 8192 and a frame, whatever was left out of it. */
  lemma MessageFits(d: Json.Description, sdp: string)
    requires IsCText(sdp)
    ensures var json := Json.MessageOf(d, sdp);
      IsCText(json) && |json| < BUFFER_LEN && CanSend(TEXT, BytesOf(json))
  {
    hide Json.MessageOf, Encoded;
    MessageText(d, sdp);
    SameSize(TEXT, [0, 0, 0, 0], BytesOf(Json.MessageOf(d, sdp)));
  }

  lemma MessageText(d: Json.Description, sdp: string)
    requires IsCText(sdp)
    ensures IsCText(Json.MessageOf(d, sdp)) && |Json.MessageOf(d, sdp)| < 4200
  {
    hide Json.Escaped, Json.Kept, Json.Opening, IsCText;
    var e := Json.Escaped(Json.Kept(sdp, 0));
    KeptText(sdp, 0);
    EscapedText(Json.Kept(sdp, 0));
    OpeningText(d);
    PieceTexts();
    var a := "\"" + (e + "\"}}");
    JoinedText(e, "\"}}");
    JoinedText("\"", e + "\"}}");
    JoinedText(": ", a);
    JoinedText(Json.SDP_KEY, ": " + a);
    var b := Json.Opening(d) + (Json.SDP_KEY + (": " + a));
    JoinedText(Json.Opening(d), Json.SDP_KEY + (": " + a));
    JoinedText(": ", b);
    JoinedText(Json.SDP_KEY, ": " + b);
    JoinedText(Json.Opening(d), Json.SDP_KEY + (": " + b));
    assert |e| < Json.ESCAPED_LEN;
  }

  lemma PieceTexts()
    ensures IsCText("\"") && IsCText("\"}}") && IsCText(": ") && IsCText(Json.SDP_KEY)
  {
  }

  lemma JoinedText(a: string, b: string)
    requires IsCText(a) && IsCText(b)
    ensures IsCText(a + b)
  {
  }

  lemma OpeningText(d: Json.Description)
    ensures IsCText(Json.Opening(d)) && |Json.Opening(d)| <= 20
  {
  }

  lemma {:induction false} KeptText(s: string, used: nat)
    requires IsCText(s)
    ensures IsCText(Json.Kept(s, used))
    decreases |s|
  {
    hide Json.Code;
    if s != "" {
      KeptText(s[1..], used);
      KeptText(s[1..], used + |Json.Code(s[0])|);
    }
  }

  lemma {:induction false} EscapedText(s: string)
    requires IsCText(s)
    ensures IsCText(Json.Escaped(s))
    decreases |s|
  {
    if s != "" {
      EscapedText(s[1..]);
      assert IsCText(Json.Code(s[0]));
    }
  }

  function Announced(s: State, d: Json.Description, sdp: string, mask: Mask): State
    requires IsCText(sdp)
  {
    MessageFits(d, sdp);
    SendOn(s, TEXT, mask, BytesOf(Json.MessageOf(d, sdp)))
  }
}
