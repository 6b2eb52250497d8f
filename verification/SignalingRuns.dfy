/**
 * Whole messages over the signalling connection: fragmentation (section 5.4 of RFC 6455) and the
 * exchange of session descriptions. src/signaling/signaling.c, lines 569 to 781 and 1362 to 1488.
 */
module SignalingRuns {
  import opened Octets
  import opened Results
  import opened WebSocket
  import opened Signaling
  import Json
  import Sdp
  import SdpGenerator
  import SdpParser
  import SdpExchange

  // ----- frame by frame -----

  function Stream(frames: seq<Frame>): Bytes
    requires forall i :: 0 <= i < |frames| ==> |frames[i].payload| <= BUFFER_LEN
    decreases |frames|
  {
    if frames == [] then [] else Encoded(frames[0]) + Stream(frames[1..])
  }

  function After(s: State, f: Frame, mask: Mask): State
    requires |f.payload| <= BUFFER_LEN
  {
    if !s.connected then s else Closed(Handled(s, f.fin, f.opcode, f.payload, mask))
  }

  /** `masks` are what the random generator gives during each call. */
  function AfterAll(s: State, frames: seq<Frame>, masks: seq<Mask>): State
    requires |frames| == |masks| && forall i :: 0 <= i < |frames| ==> |frames[i].payload| <= BUFFER_LEN
    decreases |frames|
  {
    if frames == [] then s else AfterAll(After(s, frames[0], masks[0]), frames[1..], masks[1..])
  }

  /** Processing as often as there are masks. */
  function ProcessedAll(s: State, stream: Bytes, masks: seq<Mask>): (State, Bytes)
    decreases |masks|
  {
    if masks == [] then (s, stream)
    else
      var (t, rest) := Processed(s, stream, masks[0]);
      ProcessedAll(t, rest, masks[1..])
  }

  lemma OneFrame(s: State, f: Frame, rest: Bytes, mask: Mask)
    requires s.connected && |f.payload| <= BUFFER_LEN
    ensures Processed(s, Encoded(f) + rest, mask) == (After(s, f, mask), rest)
  {
    hide Read, Encoded, Handled;
    FrameRead(f, rest);
  }

  // ----- fragmented messages -----

  predicate IsControl(f: Frame) {
    f.opcode == 9 || f.opcode == 10
  }

  /** What may follow the first fragment: more fragments, pings and pongs, and at last the final fragment. */
  predicate Continues(frames: seq<Frame>)
    decreases |frames|
  {
    frames != [] &&
    if |frames| == 1 then frames[0].opcode == 0 && frames[0].fin
    else (IsControl(frames[0]) || (frames[0].opcode == 0 && !frames[0].fin)) && Continues(frames[1..])
  }

  predicate IsFragmented(frames: seq<Frame>) {
    |frames| >= 2 && (frames[0].opcode == 1 || frames[0].opcode == 2) && !frames[0].fin && Continues(frames[1..])
  }

  /** The payloads of the fragments, joined. */
  function Joined(frames: seq<Frame>): Bytes
    decreases |frames|
  {
    if frames == [] then []
    else (if IsControl(frames[0]) then [] else frames[0].payload) + Joined(frames[1..])
  }

  /** The answers to the pings among the frames, but for pings whose answer does not fit the send buffer. */
  function Pongs(frames: seq<Frame>, masks: seq<Mask>): Bytes
    requires |frames| == |masks| && forall i :: 0 <= i < |frames| ==> |frames[i].payload| <= BUFFER_LEN
    decreases |frames|
  {
    if frames == [] then []
    else
      (if frames[0].opcode == 9 && |frames[0].payload| <= 8184
       then Encoded(Sent(10, masks[0], frames[0].payload)) else [])
      + Pongs(frames[1..], masks[1..])
  }

  predicate Small(frames: seq<Frame>) {
    forall i :: 0 <= i < |frames| ==> |frames[i].payload| <= BUFFER_LEN
  }

  lemma JoinedCons(soFar: Bytes, frames: seq<Frame>)
    requires frames != []
    ensures soFar + Joined(frames) ==
      (if IsControl(frames[0]) then soFar else soFar + frames[0].payload) + Joined(frames[1..])
  {
  }

  lemma AfterControl(s: State, f: Frame, mask: Mask)
    requires s.connected && IsControl(f) && |f.payload| <= BUFFER_LEN
    ensures After(s, f, mask) ==
      s.(sent := s.sent + (if f.opcode == 9 && |f.payload| <= 8184 then Encoded(Sent(10, mask, f.payload)) else []))
  {
    hide Encoded, CanSend;
    SendLimit(10, f.payload);
  }

  lemma AfterFragment(s: State, f: Frame, mask: Mask)
    requires s.connected && s.partial.Some? && f.opcode == CONTINUE && |f.payload| <= BUFFER_LEN
    ensures var whole := s.partial.value + f.payload;
      After(s, f, mask) ==
      if |whole| > BUFFER_LEN then s.(connected := false)
      else if f.fin then s.(partial := None, delivered := s.delivered + [whole])
      else s.(partial := Some(whole))
  {
  }

  lemma {:induction false} ClosedStays(s: State, frames: seq<Frame>, masks: seq<Mask>)
    requires !s.connected && |frames| == |masks| && Small(frames)
    ensures AfterAll(s, frames, masks) == s
    decreases |frames|
  {
    hide Handled;
    if frames != [] {
      ClosedStays(s, frames[1..], masks[1..]);
    }
  }

  lemma {:induction false} Remaining(s: State, frames: seq<Frame>, masks: seq<Mask>)
    requires s.connected && s.partial.Some? && |s.partial.value| <= BUFFER_LEN
    requires Continues(frames) && |frames| == |masks| && Small(frames)
    ensures var whole := s.partial.value + Joined(frames);
      var t := AfterAll(s, frames, masks);
      if |whole| <= BUFFER_LEN
      then t == s.(partial := None, delivered := s.delivered + [whole], sent := s.sent + Pongs(frames, masks))
      else !t.connected && t.delivered == s.delivered
    decreases |frames|
  {
    hide After, Encoded, CanSend, IsControl, Joined;
    var f, t := frames[0], After(s, frames[0], masks[0]);
    JoinedCons(s.partial.value, frames);
    AfterAllCons(s, frames, masks);
    PongsCons(frames, masks);
    if |frames| == 1 {
      ContinuesLast(frames);
      AfterFragment(s, f, masks[0]);
      NothingJoined(frames[1..]);
      assert s.partial.value + f.payload + [] == s.partial.value + f.payload;
      assert s.sent + [] == s.sent;
      assert AfterAll(t, [], []) == t;
      assert frames[1..] == [] && masks[1..] == [];
    } else {
      ContinuesCons(frames);
      if IsControl(f) {
        AfterControl(s, f, masks[0]);
        Remaining(t, frames[1..], masks[1..]);
        assert t.sent + Pongs(frames[1..], masks[1..]) == s.sent + Pongs(frames, masks);
      } else {
        AfterFragment(s, f, masks[0]);
        if t.connected {
          Remaining(t, frames[1..], masks[1..]);
        } else {
          ClosedStays(t, frames[1..], masks[1..]);
        }
        assert [] + Pongs(frames[1..], masks[1..]) == Pongs(frames[1..], masks[1..]);
      }
    }
  }

  lemma NothingJoined(frames: seq<Frame>)
    requires frames == []
    ensures Joined(frames) == []
  {
  }

  lemma ContinuesLast(frames: seq<Frame>)
    requires Continues(frames) && |frames| == 1
    ensures frames[0].opcode == CONTINUE && frames[0].fin && !IsControl(frames[0])
  {
  }

  lemma ContinuesCons(frames: seq<Frame>)
    requires Continues(frames) && |frames| > 1
    ensures Continues(frames[1..])
    ensures !IsControl(frames[0]) ==> frames[0].opcode == CONTINUE && !frames[0].fin
    ensures frames[0].opcode == PING ==> IsControl(frames[0])
  {
  }

  lemma AfterAllCons(s: State, frames: seq<Frame>, masks: seq<Mask>)
    requires frames != [] && |frames| == |masks| && Small(frames)
    ensures AfterAll(s, frames, masks) == AfterAll(After(s, frames[0], masks[0]), frames[1..], masks[1..])
  {
    hide After;
  }

  lemma PongsCons(frames: seq<Frame>, masks: seq<Mask>)
    requires frames != [] && |frames| == |masks| && Small(frames)
    ensures Pongs(frames, masks) ==
      (if frames[0].opcode == 9 && |frames[0].payload| <= 8184
       then Encoded(Sent(10, masks[0], frames[0].payload)) else [])
      + Pongs(frames[1..], masks[1..])
  {
    hide CanSend, Encoded;
  }

  /**
   * However a message is split, and whatever pings and pongs come between, its parts are delivered
   * joined, once, with nothing left behind and every ping answered, exactly when they fit the buffer;
   * otherwise the connection is closed and nothing is delivered.
   */
  lemma FragmentsDelivered(s: State, frames: seq<Frame>, masks: seq<Mask>)
    requires s.connected && s.partial.None?
    requires IsFragmented(frames) && |frames| == |masks| && Small(frames)
    ensures var t := AfterAll(s, frames, masks);
      if |Joined(frames)| <= 8192
      then t == State(true, None, s.delivered + [Joined(frames)], s.sent + Pongs(frames, masks))
      else !t.connected && t.delivered == s.delivered
  {
    hide AfterAll, Encoded, CanSend, Continues, Pongs, Joined;
    var f := frames[0];
    var t := s.(partial := Some(f.payload));
    FirstFragment(s, f, masks[0]);
    AfterAllCons(s, frames, masks);
    JoinedCons([], frames);
    assert [] + Joined(frames) == Joined(frames) && [] + f.payload == f.payload;
    PongsCons(frames, masks);
    assert [] + Pongs(frames[1..], masks[1..]) == Pongs(frames[1..], masks[1..]);
    Remaining(t, frames[1..], masks[1..]);
  }

  lemma FirstFragment(s: State, f: Frame, mask: Mask)
    requires s.connected && s.partial.None? && |f.payload| <= BUFFER_LEN
    requires (f.opcode == TEXT || f.opcode == BINARY) && !f.fin
    ensures After(s, f, mask) == s.(partial := Some(f.payload))
  {
    assert [] + f.payload == f.payload;
  }

  /** Reading the stream of those frames, one call for each, does the same and stops behind them. */
  lemma {:induction false} StreamProcessed(s: State, frames: seq<Frame>, masks: seq<Mask>, rest: Bytes)
    requires |frames| == |masks| && Small(frames) && AfterAll(s, frames, masks).connected
    ensures ProcessedAll(s, Stream(frames) + rest, masks) == (AfterAll(s, frames, masks), rest)
    decreases |frames|
  {
    hide Processed, After, Encoded;
    if frames == [] {
      assert Stream(frames) + rest == rest;
    } else {
      if !s.connected {
        ClosedStays(s, frames, masks);
      }
      var more := Stream(frames[1..]) + rest;
      assert Stream(frames) + rest == Encoded(frames[0]) + more;
      OneFrame(s, frames[0], more, masks[0]);
      StreamProcessed(After(s, frames[0], masks[0]), frames[1..], masks[1..], rest);
    }
  }

  // ----- any frames at all -----

  /** The unfinished message after some frames. */
  function Pending(frames: seq<Frame>): Option<Bytes>
    decreases |frames|
  {
    if frames == [] then None
    else
      var k := |frames| - 1;
      var soFar, f := Pending(frames[..k]), frames[k];
      if f.opcode == 0 && f.fin then None
      else if f.opcode == 0 && soFar.Some? then Some(soFar.value + f.payload)
      else if (f.opcode == 1 || f.opcode == 2) && !f.fin then Some((if soFar.Some? then soFar.value else []) + f.payload)
      else soFar
  }

  /** The finished messages: whole ones, and those that a final continuation completes. */
  function Messages(frames: seq<Frame>): seq<Bytes>
    decreases |frames|
  {
    if frames == [] then []
    else
      var k := |frames| - 1;
      var soFar, f := Pending(frames[..k]), frames[k];
      Messages(frames[..k])
      + (if (f.opcode == 1 || f.opcode == 2) && f.fin then [f.payload]
         else if f.opcode == 0 && f.fin && soFar.Some? then [soFar.value + f.payload]
         else [])
  }

  /** No close frame, no continuation of nothing, and no unfinished message longer than 8192 bytes. */
  predicate Acceptable(frames: seq<Frame>)
    decreases |frames|
  {
    frames == [] ||
    var k := |frames| - 1;
    var soFar, f := Pending(frames[..k]), frames[k];
    && Acceptable(frames[..k]) && f.opcode != 8
    && (f.opcode == 0 ==> soFar.Some?)
    && (f.opcode == 0 || ((f.opcode == 1 || f.opcode == 2) && !f.fin) ==>
          (if soFar.Some? then |soFar.value| else 0) + |f.payload| <= 8192)
  }

  lemma {:induction false} AfterAllSnoc(s: State, frames: seq<Frame>, masks: seq<Mask>, f: Frame, mask: Mask)
    requires |frames| == |masks| && Small(frames) && |f.payload| <= BUFFER_LEN
    ensures Small(frames + [f])
    ensures AfterAll(s, frames + [f], masks + [mask]) == After(AfterAll(s, frames, masks), f, mask)
    decreases |frames|
  {
    hide After;
    var fs, ms := frames + [f], masks + [mask];
    assert Small(fs);
    if frames == [] {
      assert fs[1..] == [] && ms[1..] == [] && fs[0] == f && ms[0] == mask;
      assert AfterAll(After(s, f, mask), [], []) == After(s, f, mask);
    } else {
      assert fs[1..] == frames[1..] + [f] && ms[1..] == masks[1..] + [mask];
      AfterAllSnoc(After(s, frames[0], masks[0]), frames[1..], masks[1..], f, mask);
    }
  }

  lemma {:induction false} PongsSnoc(frames: seq<Frame>, masks: seq<Mask>, f: Frame, mask: Mask)
    requires |frames| == |masks| && Small(frames) && |f.payload| <= BUFFER_LEN && Small(frames + [f])
    ensures Pongs(frames + [f], masks + [mask]) ==
      Pongs(frames, masks) + (if f.opcode == 9 && |f.payload| <= 8184 then Encoded(Sent(10, mask, f.payload)) else [])
    decreases |frames|
  {
    hide Encoded, Pongs;
    var fs, ms := frames + [f], masks + [mask];
    NoPongs(frames, masks);
    PongsCons(fs, ms);
    if frames == [] {
      assert fs[1..] == [] && ms[1..] == [] && fs[0] == f && ms[0] == mask;
      NoPongs(fs[1..], ms[1..]);
    } else {
      assert fs[1..] == frames[1..] + [f] && ms[1..] == masks[1..] + [mask];
      PongsSnoc(frames[1..], masks[1..], f, mask);
      PongsCons(frames, masks);
    }
  }

  lemma NoPongs(frames: seq<Frame>, masks: seq<Mask>)
    requires |frames| == |masks| && Small(frames)
    ensures frames == [] ==> Pongs(frames, masks) == []
  {
  }

  /**
   * Any frames, in any order: the connection stays open exactly while they are acceptable; then the
   * finished messages have been delivered, the unfinished one is kept, and the pings are answered.
   */
  lemma {:induction false} FramesExactly(s: State, frames: seq<Frame>, masks: seq<Mask>)
    requires s.connected && s.partial.None? && |frames| == |masks| && Small(frames)
    ensures var t := AfterAll(s, frames, masks);
      && (t.connected <==> Acceptable(frames))
      && (Acceptable(frames) ==>
            t == State(true, Pending(frames), s.delivered + Messages(frames), s.sent + Pongs(frames, masks)))
    decreases |frames|
  {
    hide AfterAll, After, Pongs, Encoded, Messages, Pending, Acceptable;
    if frames == [] {
      NoFrames(s, frames, masks);
    } else {
      var k := |frames| - 1;
      var front, f, mask := frames[..k], frames[k], masks[k];
      assert frames == front + [f] && masks == masks[..k] + [mask];
      FramesExactly(s, front, masks[..k]);
      AfterAllSnoc(s, front, masks[..k], f, mask);
      PongsSnoc(front, masks[..k], f, mask);
      var t := AfterAll(s, front, masks[..k]);
      OneMoreFrame(t, front, f, mask);
      if Acceptable(front) {
        var pong := if f.opcode == 9 && |f.payload| <= 8184 then Encoded(Sent(10, mask, f.payload)) else [];
        Regroup(s.sent, Pongs(front, masks[..k]), pong);
        MessagesAppend(s.delivered, front, f);
      } else {
        NotAcceptable(front, f);
      }
    }
  }

  lemma NoFrames(s: State, frames: seq<Frame>, masks: seq<Mask>)
    requires s.connected && s.partial.None? && frames == [] && masks == []
    ensures AfterAll(s, frames, masks) == s && Acceptable(frames)
    ensures s == State(true, Pending(frames), s.delivered + Messages(frames), s.sent + Pongs(frames, masks))
  {
  }

  lemma NotAcceptable(front: seq<Frame>, f: Frame)
    requires !Acceptable(front)
    ensures !Acceptable(front + [f])
  {
    assert (front + [f])[..|front|] == front;
  }

  lemma MessagesAppend(delivered: seq<Bytes>, front: seq<Frame>, f: Frame)
    ensures delivered + Messages(front + [f]) == (delivered + Messages(front)) + Completed(front, f)
  {
    assert (front + [f])[..|front|] == front;
  }

  /** The message that one more frame completes. */
  function Completed(front: seq<Frame>, f: Frame): seq<Bytes> {
    var soFar := Pending(front);
    if (f.opcode == 1 || f.opcode == 2) && f.fin then [f.payload]
    else if f.opcode == 0 && f.fin && soFar.Some? then [soFar.value + f.payload]
    else []
  }

  lemma OneMoreFrame(t: State, front: seq<Frame>, f: Frame, mask: Mask)
    requires |f.payload| <= BUFFER_LEN
    ensures !t.connected ==> After(t, f, mask) == t
    ensures t.connected && t.partial == Pending(front) && Acceptable(front) ==>
      var u := After(t, f, mask);
      && (u.connected <==> Acceptable(front + [f]))
      && (u.connected ==>
            && u.partial == Pending(front + [f]) && u.delivered == t.delivered + Completed(front, f)
            && u.sent == t.sent + (if f.opcode == 9 && |f.payload| <= 8184 then Encoded(Sent(10, mask, f.payload)) else []))
  {
    hide Encoded, CanSend;
    SendLimit(10, f.payload);
    assert (front + [f])[..|front|] == front;
  }

  /** A close frame ends the connection, and nothing after it has any effect. */
  lemma CloseEnds(s: State, front: seq<Frame>, m: seq<Mask>, f: Frame, mask: Mask, back: seq<Frame>, n: seq<Mask>)
    requires s.connected && s.partial.None? && |front| == |m| && |back| == |n| && Small(front) && Small(back)
    requires f.opcode == 8 && |f.payload| <= BUFFER_LEN && Acceptable(front)
    ensures Small(front + [f] + back)
    ensures AfterAll(s, front + [f] + back, m + [mask] + n) ==
      State(false, Pending(front), s.delivered + Messages(front), s.sent + Pongs(front, m))
  {
    hide AfterAll, After, Pongs, Messages, Pending, Acceptable;
    FramesExactly(s, front, m);
    AfterAllSnoc(s, front, m, f, mask);
    var t := AfterAll(s, front, m);
    Closes(t, f, mask);
    AfterAllAppend(s, front + [f], m + [mask], back, n);
    ClosedStays(After(t, f, mask), back, n);
  }

  lemma Closes(t: State, f: Frame, mask: Mask)
    requires t.connected && f.opcode == 8 && |f.payload| <= BUFFER_LEN
    ensures After(t, f, mask) == t.(connected := false)
  {
  }

  lemma {:induction false} AfterAllAppend(s: State, a: seq<Frame>, m: seq<Mask>, b: seq<Frame>, n: seq<Mask>)
    requires |a| == |m| && |b| == |n| && Small(a) && Small(b)
    ensures Small(a + b) && AfterAll(s, a + b, m + n) == AfterAll(AfterAll(s, a, m), b, n)
    decreases |a|
  {
    hide After;
    assert Small(a + b);
    if a == [] {
      assert a + b == b && m + n == n;
    } else {
      assert (a + b)[1..] == a[1..] + b && (m + n)[1..] == m[1..] + n;
      AfterAllAppend(After(s, a[0], m[0]), a[1..], m[1..], b, n);
    }
  }

  /** What one call makes of a stream that does not hold a whole frame, of a frame that is too long, and when closed. */
  lemma OddStreams(s: State, f: Frame, n: nat, rest: Bytes, mask: Mask)
    requires |f.payload| < TWO_64
    ensures s.connected && |f.payload| <= 8192 && n < |Encoded(f)| ==> Processed(s, Encoded(f)[..n], mask) == (s, [])
    ensures s.connected && |f.payload| > 8192 ==> Processed(s, Encoded(f) + rest, mask).0 == s.(connected := false)
    ensures !s.connected ==> Processed(s, rest, mask) == (s, rest)
  {
    hide Encoded, Read;
    if |f.payload| > 8192 {
      OversizedRefused(f, rest);
    } else if n < |Encoded(f)| {
      TruncatedStarves(f, n);
    }
  }

  // ----- session descriptions -----

  /** A relay passes on a message when its frames, whole or in fragments, carry the same bytes. */
  predicate Relays(frames: seq<Frame>, message: Bytes) {
    && Small(frames)
    && (if |frames| == 1
        then (frames[0].opcode == 1 || frames[0].opcode == 2) && frames[0].fin && frames[0].payload == message
        else IsFragmented(frames) && Joined(frames) == message)
  }

  lemma Relayed(s: State, frames: seq<Frame>, masks: seq<Mask>, message: Bytes)
    requires s.connected && s.partial.None? && Relays(frames, message) && |frames| == |masks|
    requires |message| <= BUFFER_LEN
    ensures var t := AfterAll(s, frames, masks);
      t.connected && t.partial.None? && t.delivered == s.delivered + [message]
  {
    hide After, Continues, Joined, Pongs;
    if |frames| == 1 {
      AfterAllCons(s, frames, masks);
      assert frames[1..] == [] && masks[1..] == [];
      assert AfterAll(After(s, frames[0], masks[0]), [], []) == After(s, frames[0], masks[0]);
      WholeMessage(s, frames[0], masks[0]);
    } else {
      FragmentsDelivered(s, frames, masks);
    }
  }

  lemma WholeMessage(s: State, f: Frame, mask: Mask)
    requires s.connected && |f.payload| <= BUFFER_LEN && (f.opcode == TEXT || f.opcode == BINARY) && f.fin
    ensures After(s, f, mask) == s.(delivered := s.delivered + [f.payload])
  {
  }

  /** The message that one client sends for a description. */
  function Announcement(d: Json.Description, sdp: string): Bytes
    requires IsCText(sdp)
  {
    MessageFits(d, sdp);
    BytesOf(Json.MessageOf(d, sdp))
  }

  /** The relay can read what was sent. */
  lemma AnnouncementReadable(s: State, d: Json.Description, sdp: string, mask: Mask, rest: Bytes)
    requires IsCText(sdp) && s.connected
    ensures var t := Announced(s, d, sdp, mask);
      && s.sent <= t.sent
      && Read(t.sent[|s.sent|..] + rest) == Arrived(true, 1, Announcement(d, sdp), rest)
  {
    hide Json.MessageOf, BytesOf, Read, Encoded, CanSend;
    MessageFits(d, sdp);
    var frame := Encoded(Sent(TEXT, mask, Announcement(d, sdp)));
    assert (s.sent + frame)[|s.sent|..] == frame;
    SentRead(TEXT, mask, Announcement(d, sdp), rest);
  }

  /**
   * From sender to receiver over a relay: the callback gets the description exactly when its escaped
   * form fits the sender's buffer and it does not end in a backslash.
   */
  lemma DescriptionCarried(s: State, d: Json.Description, sdp: string, frames: seq<Frame>, masks: seq<Mask>)
    requires s.connected && s.partial.None? && IsCText(sdp)
    requires Relays(frames, Announcement(d, sdp)) && |frames| == |masks|
    ensures var t := AfterAll(s, frames, masks);
      && t.connected && t.partial.None?
      && (EventsOf(t.delivered) == EventsOf(s.delivered) + [Json.Described(d, Some(sdp))] <==>
            |Json.Escaped(sdp)| < Json.ESCAPED_LEN && !Json.EndsInBackslash(sdp))
  {
    hide AfterAll, Relays, Json.MessageOf, BytesOf, EventsOf, CText, Json.Understood, Json.Escaped, CanSend, Small;
    MessageFits(d, sdp);
    Relayed(s, frames, masks, Announcement(d, sdp)) by { RelaysSmall(frames, Announcement(d, sdp)); }
    RelaysSmall(frames, Announcement(d, sdp));
    EventsSnoc(s.delivered, Announcement(d, sdp));
    TextOfBytes(Json.MessageOf(d, sdp));
    Json.DescriptionExactly(d, sdp);
    var e := Json.Understood(Json.MessageOf(d, sdp));
    assert e.Some? by { UnderstoodAlways(d, sdp); }
    LastOf(EventsOf(s.delivered), e.value, Json.Described(d, Some(sdp)));
  }

  lemma RelaysSmall(frames: seq<Frame>, message: Bytes)
    requires Relays(frames, message)
    ensures Small(frames)
  {
  }

  lemma UnderstoodAlways(d: Json.Description, sdp: string)
    ensures Json.Understood(Json.MessageOf(d, sdp)).Some?
  {
    hide Json.Understood, Json.SdpValue, Json.Opening, Json.Escaped, Json.Kept;
    var more := Json.MessageOf(d, sdp)[|Json.Opening(d)|..];
    assert Json.MessageOf(d, sdp) == Json.Opening(d) + more;
    Json.KindFound(d, more);
  }

  lemma LastOf(a: seq<Json.Event>, x: Json.Event, y: Json.Event)
    ensures a + [x] == a + [y] <==> x == y
  {
    assert a + [x] == a + [y] ==> (a + [x])[|a|] == (a + [y])[|a|];
  }

  /** The text as it is read is the text that was printed, and parses to the session that was printed. */
  ghost predicate Understands(event: Json.Event, d: Json.Description, session: Sdp.Session, u: SdpParser.Unset) {
    && event.Described? && event.description == d && event.sdp.Some?
    && SdpParser.ParseText(event.sdp.value, u) == SdpParser.Parsed(Ok, SdpExchange.Normalized(session))
  }

  /** A session that survives printing and parsing, in a text that the escape buffer can hold. */
  predicate Portable(session: Sdp.Session) {
    && SdpExchange.Clean(session) && session.version == 0 && SdpExchange.Distinguished(session.media)
    && IsCText(SdpGenerator.Generated(session))
    && |Json.Escaped(SdpGenerator.Generated(session))| < Json.ESCAPED_LEN
  }

  /**
   * A whole session crosses the whole path: printed, escaped, framed, relayed in any fragments, read,
   * parsed. The receiver is called back once, and understands what was meant.
   */
  lemma SessionCarried(
    s: State, d: Json.Description, session: Sdp.Session, frames: seq<Frame>, masks: seq<Mask>, u: SdpParser.Unset)
    returns (event: Json.Event)
    requires s.connected && s.partial.None? && Portable(session)
    requires Relays(frames, Announcement(d, SdpGenerator.Generated(session))) && |frames| == |masks|
    ensures EventsOf(AfterAll(s, frames, masks).delivered) == EventsOf(s.delivered) + [event]
    ensures Understands(event, d, session, u)
  {
    hide AfterAll, EventsOf, Relays, Announcement, SdpGenerator.Generated, SdpExchange.Clean, Json.Escaped,
      SdpParser.ParseText, SdpExchange.Normalized, SdpExchange.Distinguished, IsCText;
    var text := SdpGenerator.Generated(session);
    EndsWell(session);
    DescriptionCarried(s, d, text, frames, masks);
    RelaysSmall(frames, Announcement(d, text));
    SdpExchange.RoundTrip(session, u);
    event := Json.Described(d, Some(text));
  }

  predicate EndsInFeed(s: string) {
    s != "" ==> s[|s| - 1] == '\n'
  }

  lemma FeedJoined(a: string, b: string)
    requires EndsInFeed(a) && EndsInFeed(b)
    ensures EndsInFeed(a + b)
  {
  }

  lemma EndedFeed(line: string)
    ensures EndsInFeed(SdpGenerator.Ended(line))
  {
  }

  lemma {:induction false} MediaFeed(media: seq<Sdp.Media>)
    ensures EndsInFeed(SdpGenerator.MediaText(media))
    decreases |media|
  {
    hide SdpGenerator.MediaBlock, EndsInFeed;
    if media == [] {
      assert EndsInFeed("") by { NoFeed(); }
    } else {
      MediaFeed(media[1..]);
      BlockFeed(media[0]);
      FeedJoined(SdpGenerator.MediaBlock(media[0]), SdpGenerator.MediaText(media[1..]));
    }
  }

  lemma NoFeed()
    ensures EndsInFeed("")
  {
  }

  lemma BlockFeed(m: Sdp.Media)
    ensures EndsInFeed(SdpGenerator.MediaBlock(m))
  {
    hide SdpGenerator.MediaLine, SdpGenerator.RtpmapLine, SdpGenerator.MidLine, SdpGenerator.DirectionLine;
  }

  lemma {:induction false} CandidatesFeed(candidates: seq<Sdp.Candidate>)
    ensures EndsInFeed(SdpGenerator.CandidateText(candidates))
    decreases |candidates|
  {
    hide SdpGenerator.CandidateLine, SdpGenerator.Ended, EndsInFeed;
    if candidates == [] {
      NoFeed();
    } else {
      CandidatesFeed(candidates[1..]);
      EndedFeed(SdpGenerator.CandidateLine(candidates[0]));
      FeedJoined(SdpGenerator.Ended(SdpGenerator.CandidateLine(candidates[0])),
                 SdpGenerator.CandidateText(candidates[1..]));
    }
  }

  /** The text ends in a line feed. */
  lemma EndsWell(session: Sdp.Session)
    ensures !Json.EndsInBackslash(SdpGenerator.Generated(session))
  {
    hide SdpGenerator.FixedText, SdpGenerator.SecurityText, SdpGenerator.MediaText, SdpGenerator.CandidateText,
      SdpGenerator.GroupLine, SdpGenerator.Bundled, EndsInFeed;
    GroupFeed(session);
    MediaFeed(session.media);
    CandidatesFeed(session.candidates);
    var m, c := SdpGenerator.MediaText(session.media), SdpGenerator.CandidateText(session.candidates);
    FeedJoined(m, c);
    FeedJoined(SdpGenerator.GroupText(session), m + c);
    LastFeed(SdpGenerator.FixedText(session) + SdpGenerator.SecurityText(session), SdpGenerator.GroupText(session) + (m + c));
    assert SdpGenerator.Generated(session) ==
      SdpGenerator.FixedText(session) + SdpGenerator.SecurityText(session) + (SdpGenerator.GroupText(session) + (m + c));
  }

  lemma GroupFeed(session: Sdp.Session)
    ensures EndsInFeed(SdpGenerator.GroupText(session)) && SdpGenerator.GroupText(session) != ""
  {
    hide SdpGenerator.GroupLine, SdpGenerator.Bundled;
  }

  lemma LastFeed(a: string, b: string)
    requires EndsInFeed(b) && b != ""
    ensures !Json.EndsInBackslash(a + b)
  {
  }
}
