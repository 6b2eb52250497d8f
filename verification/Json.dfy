/**
 * The JSON of the signalling messages: src/signaling/signaling.c, lines 117 to 219, 891 to 1043 and
 * 1322 to 1382.
 */
module Json {
  import opened Octets
  import opened Results
  import opened Text

  const ESCAPED_LEN := 4096

  // ----- escaping -----

  /** What stands for a character. */
  function Code(c: char): (r: string)
    ensures 1 <= |r| <= 2
  {
    if c == '"' then "\\\"" else if c == '\\' then "\\\\" else if c == '\n' then "\\n"
    else if c == '\r' then "\\r" else if c == '\t' then "\\t" else [c]
  }

  function Escaped(s: string): (r: string)
    ensures |s| <= |r|
    decreases |s|
  {
    if s == "" then "" else Code(s[0]) + Escaped(s[1..])
  }

  /**
   * The characters that are stored when `used` bytes of the buffer are taken: two-byte codes that do not
   * fit are left out, and shorter ones after them may still get in.
   */
  function Kept(s: string, used: nat): (r: string)
    ensures |r| <= |s|
    ensures used < ESCAPED_LEN ==> used + |Escaped(r)| < ESCAPED_LEN
    decreases |s|
  {
    if s == "" || used >= ESCAPED_LEN - 1 then ""
    else if |Code(s[0])| == 2 && used + 2 >= ESCAPED_LEN then Kept(s[1..], used)
    else
      var more := Kept(s[1..], used + |Code(s[0])|);
      assert ([s[0]] + more)[1..] == more;
      [s[0]] + more
  }

  lemma EscapedCons(c: char, more: string)
    ensures |Escaped([c] + more)| == |Code(c)| + |Escaped(more)|
  {
    hide Code;
    assert ([c] + more)[1..] == more;
  }

  lemma EscapedLength(s: string)
    ensures |s| <= |Escaped(s)| && (s == "" ==> |Escaped(s)| == 0)
  {
  }

  /** Everything is kept exactly when the whole escaped text leaves room for the terminator. */
  lemma {:induction false} KeptExactly(s: string, used: nat)
    requires used < ESCAPED_LEN
    ensures Kept(s, used) == s <==> used + |Escaped(s)| < ESCAPED_LEN
    ensures Kept(s, used) != s ==> |Kept(s, used)| < |s|
    decreases |s|
  {
    hide Code, Escaped;
    EscapedLength(s);
    if s != "" {
      assert s == [s[0]] + s[1..];
      EscapedCons(s[0], s[1..]);
      EscapedLength(s[1..]);
      if used < ESCAPED_LEN - 1 && !(|Code(s[0])| == 2 && used + 2 >= ESCAPED_LEN) {
        KeptExactly(s[1..], used + |Code(s[0])|);
      }
    }
  }

  /** A quote, a backslash, and the three control characters with a code of their own. */
  predicate NeedsTwo(c: char) {
    c in "\"\\\n\r\t"
  }

  /**
   * What is kept fills the buffer, or it is the front of the text and only characters that need two bytes
   * come after it.
   */
  lemma {:induction false} KeptFills(s: string, used: nat) returns (k: nat)
    requires used < 4096
    ensures k <= |s|
    ensures used + |Escaped(Kept(s, used))| == 4095
      || (Kept(s, used) == s[..k] && forall i :: k <= i < |s| ==> NeedsTwo(s[i]))
    decreases |s|
  {
    hide Code, Escaped;
    k := 0;
    EscapedLength("");
    if s != "" && used < ESCAPED_LEN - 1 {
      CodeOf(s[0]);
      if |Code(s[0])| == 2 && used + 2 >= ESCAPED_LEN {
        var j := KeptFills(s[1..], used);
        if used + |Escaped(Kept(s[1..], used))| != 4095 {
          NothingKept(s[1..], used, j);
        }
      } else {
        var more := Kept(s[1..], used + |Code(s[0])|);
        var j := KeptFills(s[1..], used + |Code(s[0])|);
        EscapedCons(s[0], more);
        k := j + 1;
        assert [s[0]] + s[1..][..j] == s[..j + 1];
        assert forall i :: k <= i < |s| ==> s[i] == s[1..][i - 1];
      }
    }
  }

  /** With one byte left, only characters of one byte are kept, and they fill it. */
  lemma NothingKept(s: string, used: nat, k: nat)
    requires used + 2 >= ESCAPED_LEN && used < ESCAPED_LEN - 1 && k <= |s| && Kept(s, used) == s[..k]
    requires used + |Escaped(Kept(s, used))| != 4095 && forall i :: k <= i < |s| ==> NeedsTwo(s[i])
    ensures Kept(s, used) == "" && k == 0
  {
    hide Code, Escaped;
    EscapedLength(Kept(s, used));
  }

  /** sig_json_escape into the fixed buffer of the callers. */
  method Escape(input: string, output: array<char>) returns (len: nat)
    requires output.Length == ESCAPED_LEN
    modifies output
    ensures len == |Escaped(Kept(input, 0))| < ESCAPED_LEN
    ensures output[..len] == Escaped(Kept(input, 0)) && output[len] == '\0'
  {
    hide Escaped, Kept, Code;
    len := 0;
    var i := 0;
    ghost var all := Escaped(Kept(input, 0));
    assert input[0..] == input;
    while i < |input| && len < ESCAPED_LEN - 1
      invariant 0 <= i <= |input| && len < ESCAPED_LEN
      invariant output[..len] + Escaped(Kept(input[i..], len)) == all
    {
      var c := input[i];
      ghost var done := output[..len];
      KeptStep(input[i..], len);
      assert input[i..][1..] == input[i + 1..];
      if c == '"' || c == '\\' || c == '\n' || c == '\r' || c == '\t' {
        CodeOf(c);
        if len + 2 < ESCAPED_LEN {
          StorePair(output, len, c);
          Regroup(done, Code(c), Escaped(Kept(input[i + 1..], len + 2)));
          len := len + 2;
        }
      } else {
        CodeOf(c);
        output[len] := c;
        Regroup(done, Code(c), Escaped(Kept(input[i + 1..], len + 1)));
        assert output[..len + 1] == done + Code(c);
        len := len + 1;
      }
      i := i + 1;
    }
    KeptEnd(input[i..], len);
    output[len] := '\0';
  }

  method StorePair(output: array<char>, len: nat, c: char)
    requires len + 2 <= output.Length && c in "\"\\\n\r\t"
    modifies output
    ensures output[..len + 2] == old(output[..len]) + Code(c)
  {
    output[len] := '\\';
    output[len + 1] := if c == '\n' then 'n' else if c == '\r' then 'r' else if c == '\t' then 't' else c;
    CodeOf(c);
  }

  lemma CodeOf(c: char)
    ensures var special := c in "\"\\\n\r\t";
      && |Code(c)| == (if special then 2 else 1)
      && Code(c) ==
         (if special
          then ['\\', if c == '\n' then 'n' else if c == '\r' then 'r' else if c == '\t' then 't' else c]
          else [c])
  {
  }

  lemma KeptStep(s: string, used: nat)
    requires s != "" && used < ESCAPED_LEN - 1
    ensures Escaped(Kept(s, used)) ==
      if |Code(s[0])| == 2 && used + 2 >= ESCAPED_LEN then Escaped(Kept(s[1..], used))
      else Code(s[0]) + Escaped(Kept(s[1..], used + |Code(s[0])|))
  {
    hide Code;
    if !(|Code(s[0])| == 2 && used + 2 >= ESCAPED_LEN) {
      var more := Kept(s[1..], used + |Code(s[0])|);
      assert ([s[0]] + more)[1..] == more;
    }
  }

  lemma KeptEnd(s: string, used: nat)
    requires s == "" || used >= ESCAPED_LEN - 1
    ensures Escaped(Kept(s, used)) == ""
  {
  }

  // ----- unescaping -----

  function Meaning(c: char): Option<char> {
    if c == 'r' then Some('\r') else if c == 'n' then Some('\n') else if c == 't' then Some('\t')
    else if c == '"' || c == '\\' || c == '/' then Some(c)
    else None
  }

  function Unescaped(s: string): string
    decreases |s|
  {
    if s == "" then ""
    else if s[0] == '\\' && |s| > 1 && Meaning(s[1]).Some? then [Meaning(s[1]).value] + Unescaped(s[2..])
    else [s[0]] + Unescaped(s[1..])
  }

  lemma CodeMeans(c: char, more: string)
    ensures Unescaped(Code(c) + more) == [c] + Unescaped(more)
  {
    var s := Code(c) + more;
    if |Code(c)| == 2 {
      assert s[2..] == more;
    } else {
      assert s[1..] == more;
    }
  }

  lemma {:induction false} UnescapedOfEscaped(s: string)
    ensures Unescaped(Escaped(s)) == s
    decreases |s|
  {
    hide Code;
    if s != "" {
      CodeMeans(s[0], Escaped(s[1..]));
      UnescapedOfEscaped(s[1..]);
    }
  }

  method Unescape(raw: string) returns (out: string)
    ensures out == Unescaped(raw)
  {
    hide Meaning, Unescaped;
    out := "";
    var i := 0;
    assert raw[0..] == raw;
    while i < |raw|
      invariant 0 <= i <= |raw|
      invariant out + Unescaped(raw[i..]) == Unescaped(raw)
    {
      UnescapedStep(raw, i);
      ghost var before := out;
      if raw[i] == '\\' && i + 1 < |raw| {
        if Meaning(raw[i + 1]).Some? {
          Regroup(before, [Meaning(raw[i + 1]).value], Unescaped(raw[i + 2..]));
          out := out + [Meaning(raw[i + 1]).value];
          i := i + 2;
        } else {
          Regroup(before, [raw[i]], Unescaped(raw[i + 1..]));
          out := out + [raw[i]];
          i := i + 1;
        }
      } else {
        Regroup(before, [raw[i]], Unescaped(raw[i + 1..]));
        out := out + [raw[i]];
        i := i + 1;
      }
    }
    assert Unescaped(raw[i..]) == "" by { NothingUnescaped(raw[i..]); }
  }

  lemma NothingUnescaped(s: string)
    requires s == ""
    ensures Unescaped(s) == ""
  {
  }

  lemma UnescapedStep(raw: string, i: nat)
    requires i < |raw|
    ensures Unescaped(raw[i..]) ==
      if raw[i] == '\\' && i + 1 < |raw| && Meaning(raw[i + 1]).Some?
      then [Meaning(raw[i + 1]).value] + Unescaped(raw[i + 2..])
      else [raw[i]] + Unescaped(raw[i + 1..])
  {
    hide Meaning;
    assert raw[i..][1..] == raw[i + 1..];
    if i + 1 < |raw| {
      assert raw[i..][2..] == raw[i + 2..];
    }
  }

  // ----- finding a string field -----

  /** strstr: the text from the first occurrence on. */
  function Find(s: string, pattern: string): (r: Option<string>)
    ensures r.Some? ==> |r.value| <= |s| && pattern <= r.value
    decreases |s|
  {
    if pattern <= s then Some(s) else if s == "" then None else Find(s[1..], pattern)
  }

  lemma {:induction false} FindAfter(prefix: string, s: string, pattern: string)
    requires pattern <= s && forall i :: 0 <= i < |prefix| ==> !(pattern <= (prefix + s)[i..])
    ensures Find(prefix + s, pattern) == Some(s)
    decreases |prefix|
  {
    if prefix == "" {
      assert prefix + s == s;
    } else {
      assert (prefix + s)[0..] == prefix + s;
      assert (prefix + s)[1..] == prefix[1..] + s;
      forall i | 0 <= i < |prefix[1..]|
        ensures !(pattern <= (prefix[1..] + s)[i..])
      {
        assert (prefix[1..] + s)[i..] == (prefix + s)[i + 1..];
      }
      FindAfter(prefix[1..], s, pattern);
    }
  }

  predicate NoColon(c: char) {
    c != ':'
  }

  /** After the next colon and any blanks. */
  function ValueAfter(s: string): (r: Option<string>)
    ensures r.Some? ==> |r.value| < |s|
  {
    var n := Span(NoColon, s);
    if n == |s| then None else Some(SkipBlank(s[n + 1..]))
  }

  /** A quote that no backslash precedes. */
  predicate Closes(s: string, at: nat)
    requires at < |s|
  {
    s[at] == '"' && (at == 0 || s[at - 1] != '\\')
  }

  function Closing(s: string, from: nat): (r: Option<nat>)
    requires from <= |s|
    ensures r.Some? ==> from <= r.value < |s| && Closes(s, r.value) && forall i :: from <= i < r.value ==> !Closes(s, i)
    ensures r.None? ==> forall i :: from <= i < |s| ==> !Closes(s, i)
    decreases |s| - from
  {
    if from == |s| then None else if Closes(s, from) then Some(from) else Closing(s, from + 1)
  }

  function Quoted(value: string): Option<string> {
    if value == "" || value[0] != '"' then None
    else
      var end := Closing(value[1..], 0);
      if end.None? then None else Some(Unescaped(value[1..][..end.value]))
  }

  function Extracted(json: string, field: string): Option<string> {
    var pattern := "\"" + field + "\"";
    var found := Find(json, pattern);
    if found.None? then None
    else
      var value := ValueAfter(found.value[|pattern|..]);
      if value.None? then None else Quoted(value.value)
  }

  method ReadQuoted(value: string) returns (r: Option<string>)
    ensures r == Quoted(value)
  {
    hide Unescaped;
    if value == "" || value[0] != '"' {
      return None;
    }
    var s := value[1..];
    var end := 0;
    while end < |s|
      invariant 0 <= end <= |s|
      invariant Closing(s, end) == Closing(s, 0)
    {
      if s[end] == '"' && (end == 0 || s[end - 1] != '\\') {
        break;
      }
      end := end + 1;
    }
    if end == |s| {
      return None;
    }
    var out := Unescape(s[..end]);
    r := Some(out);
  }

  method ExtractField(json: string, field: string) returns (r: Option<string>)
    ensures r == Extracted(json, field)
  {
    hide Find, ValueAfter, Quoted;
    var pattern := "\"" + field + "\"";
    var found := Find(json, pattern);
    if found.None? {
      return None;
    }
    var value := ValueAfter(found.value[|pattern|..]);
    if value.None? {
      return None;
    }
    r := ReadQuoted(value.value);
  }

  const SDP_KEY := "\"sdp\""

  /** The value of the first "sdp": a string, or an object with such a string. */
  function SdpValue(json: string): Option<string> {
    var found := Find(json, SDP_KEY);
    if found.None? then None
    else
      var value := ValueAfter(found.value[5..]);
      if value.None? || value.value == "" then None
      else if value.value[0] == '"' then Extracted(found.value, "sdp")
      else if value.value[0] == '{' then Extracted(value.value, "sdp")
      else None
  }

  method ExtractSdp(json: string) returns (r: Option<string>)
    ensures r == SdpValue(json)
  {
    hide Find, ValueAfter, Extracted;
    var found := Find(json, SDP_KEY);
    if found.None? {
      return None;
    }
    var value := ValueAfter(found.value[5..]);
    if value.None? || value.value == "" {
      return None;
    }
    if value.value[0] == '"' {
      r := ExtractField(found.value, "sdp");
    } else if value.value[0] == '{' {
      r := ExtractField(value.value, "sdp");
    } else {
      r := None;
    }
  }

  // ----- messages -----

  datatype Description = Offer | Answer

  /** Unset: the code reports an event whose type it has not set. */
  datatype Event = PeerJoined | PeerLeft | Described(description: Description, sdp: Option<string>) | Candidate | Unset

  predicate BeforeType(c: char) {
    c == ':' || c == ' ' || c == '"'
  }

  /** The event a message is reported as, if it is reported. */
  function Understood(json: string): Option<Event> {
    var found := Find(json, TYPE_KEY);
    if found.None? then None
    else
      var s := found.value[6..];
      var t := s[Span(NoColon, s)..];
      if t == "" then None
      else
        var kind := t[Span(BeforeType, t)..];
        if "joined" <= kind then None
        else if "peer-joined" <= kind then Some(PeerJoined)
        else if "peer-left" <= kind then Some(PeerLeft)
        else if "offer" <= kind then Some(Described(Offer, SdpValue(json)))
        else if "answer" <= kind then Some(Described(Answer, SdpValue(json)))
        else if "ice-candidate" <= kind then Some(Candidate)
        else if "error" <= kind then None
        else Some(Unset)
  }

  method ProcessMessage(json: string) returns (r: Option<Event>)
    ensures r == Understood(json)
  {
    hide Find, Span, SdpValue;
    var found := Find(json, TYPE_KEY);
    if found.None? {
      return None;
    }
    var s := found.value[6..];
    var t := s[Span(NoColon, s)..];
    if t == "" {
      return None;
    }
    var at := 0;
    while at < |t| && BeforeType(t[at])
      invariant 0 <= at <= |t|
      invariant forall i :: 0 <= i < at ==> BeforeType(t[i])
    {
      at := at + 1;
    }
    SpanIs(BeforeType, t, at);
    var kind := t[at..];
    if "joined" <= kind {
      return None;
    } else if "peer-joined" <= kind {
      r := Some(PeerJoined);
    } else if "peer-left" <= kind {
      r := Some(PeerLeft);
    } else if "offer" <= kind {
      var sdp := ExtractSdp(json);
      r := Some(Described(Offer, sdp));
    } else if "answer" <= kind {
      var sdp := ExtractSdp(json);
      r := Some(Described(Answer, sdp));
    } else if "ice-candidate" <= kind {
      r := Some(Candidate);
    } else if "error" <= kind {
      r := None;
    } else {
      r := Some(Unset);
    }
  }

  // ----- an offer or answer there and back -----

  function Word(d: Description): string {
    if d == Offer then "offer" else "answer"
  }

  function Opening(d: Description): string {
    "{\"type\": \"" + (Word(d) + "\", ")
  }

  /** The format strings of the two senders, with an escaped description put in. */
  function MessageWith(d: Description, escaped: string): string {
    Opening(d) + (SDP_KEY + (": " + (Opening(d) + (SDP_KEY + (": " + ("\"" + (escaped + "\"}}")))))))
  }

  /** The message for a description. */
  function MessageOf(d: Description, sdp: string): string {
    MessageWith(d, Escaped(Kept(sdp, 0)))
  }

  /** In an escaped string every quote follows a backslash. */
  lemma {:induction false} EscapedQuotes(s: string, i: nat)
    requires i < |Escaped(s)|
    ensures !Closes(Escaped(s), i) && (i == 0 ==> Escaped(s)[i] != '"')
    decreases |s|
  {
    var c := Code(s[0]);
    if i >= |c| {
      EscapedQuotes(s[1..], i - |c|);
      assert Escaped(s)[i] == Escaped(s[1..])[i - |c|];
      if i > |c| {
        assert Escaped(s)[i - 1] == Escaped(s[1..])[i - 1 - |c|];
      }
    }
  }

  lemma {:induction false} EscapedEnd(s: string)
    requires s != ""
    ensures Escaped(s)[|Escaped(s)| - 1] == '\\' <==> s[|s| - 1] == '\\'
    decreases |s|
  {
    if |s| == 1 {
      assert s[1..] == "";
    } else {
      EscapedEnd(s[1..]);
      assert Escaped(s)[|Escaped(s)| - 1] == Escaped(s[1..])[|Escaped(s[1..])| - 1];
    }
  }

  predicate EndsInBackslash(s: string) {
    s != "" && s[|s| - 1] == '\\'
  }

  lemma QuotedEscaped(s: string)
    ensures Quoted("\"" + (Escaped(s) + "\"}}")) == if EndsInBackslash(s) then None else Some(s)
  {
    hide Escaped, Unescaped;
    var e := Escaped(s);
    var value := "\"" + (e + "\"}}");
    var t := e + "\"}}";
    assert value[1..] == t;
    forall i | 0 <= i < |e|
      ensures !Closes(t, i)
    {
      EscapedQuotes(s, i);
    }
    if s != "" {
      EscapedEnd(s);
      EscapedNotEmpty(s);
    } else {
      assert e == "" by { EscapedNothing(); }
    }
    assert Closes(t, |e|) <==> !EndsInBackslash(s);
    assert !Closes(t, |e| + 1) && !Closes(t, |e| + 2);
    assert t[..|e|] == e;
    UnescapedOfEscaped(s);
    var end := Closing(t, 0);
    assert EndsInBackslash(s) ==> forall i :: 0 <= i < |t| ==> !Closes(t, i);
  }

  lemma EscapedNotEmpty(s: string)
    requires s != ""
    ensures Escaped(s) != ""
  {
  }

  lemma EscapedNothing()
    ensures Escaped("") == ""
  {
  }

  /** The opening does not contain the key. */
  lemma KeyAfterOpening(d: Description, more: string)
    ensures Find(Opening(d) + (SDP_KEY + more), SDP_KEY) == Some(SDP_KEY + more)
  {
    var s := SDP_KEY + more;
    var all := Opening(d) + s;
    OpeningHasNoKey(d, s);
    forall i | 0 <= i < |Opening(d)|
      ensures !(SDP_KEY <= all[i..])
    {
      assert all[i..] != "" && all[i..][0] == all[i];
      assert |all[i..]| >= 2 ==> all[i..][1] == all[i + 1];
    }
    FindAfter(Opening(d), s, SDP_KEY);
  }

  lemma OpeningHasNoKey(d: Description, s: string)
    requires s != "" && s[0] == '"'
    ensures forall i :: 0 <= i < |Opening(d)| ==> (Opening(d) + s)[i] != '"' || (Opening(d) + s)[i + 1] != 's'
  {
    assert d == Offer ==> Opening(d) == "{\"type\": \"offer\", ";
    assert d == Answer ==> Opening(d) == "{\"type\": \"answer\", ";
  }

  lemma ValueOfKey(c: char, more: string)
    requires !IsBlank(c)
    ensures ValueAfter((SDP_KEY + (": " + ([c] + more)))[5..]) == Some([c] + more)
  {
    hide Span, SkipBlank;
    var s := ": " + ([c] + more);
    assert (SDP_KEY + s)[5..] == s;
    SpanIs(NoColon, s, 0);
    assert s[1..] == " " + ([c] + more);
    BlanksSkipped(" ", [c] + more);
  }

  lemma DescriptionFound(d: Description, sdp: string)
    ensures var kept := Kept(sdp, 0);
      SdpValue(MessageOf(d, sdp)) == if EndsInBackslash(kept) then None else Some(kept)
  {
    hide Find, ValueAfter, Quoted, Escaped, Kept, Opening;
    var kept := Kept(sdp, 0);
    var body := "\"" + (Escaped(kept) + "\"}}");
    var inner := Opening(d) + (SDP_KEY + (": " + body));
    KeyAfterOpening(d, ": " + inner);
    OpeningFirst(d);
    assert inner == "{" + inner[1..];
    ValueOfKey('{', inner[1..]);
    KeyAfterOpening(d, ": " + body);
    ValueOfKey('"', Escaped(kept) + "\"}}");
    QuotedEscaped(kept);
    assert "\"" + "sdp" + "\"" == SDP_KEY;
  }

  lemma OpeningFirst(d: Description)
    ensures Opening(d) != "" && Opening(d)[0] == '{'
  {
  }

  const TYPE_KEY := "\"type\""

  function TypeValue(d: Description, more: string): string {
    ": \"" + (Word(d) + ("\", " + more))
  }

  lemma OpeningForm(d: Description, more: string)
    ensures Opening(d) + more == "{" + (TYPE_KEY + TypeValue(d, more))
  {
    hide Word;
  }

  lemma TypeFound(d: Description, more: string)
    ensures Find(Opening(d) + more, TYPE_KEY) == Some(TYPE_KEY + TypeValue(d, more))
  {
    hide Opening, TypeValue;
    OpeningForm(d, more);
    var s := TYPE_KEY + TypeValue(d, more);
    assert ("{" + s)[0] == '{' && ("{" + s)[0..] == "{" + s;
    FirstCharacter(TYPE_KEY, "{" + s);
    FindAfter("{", s, TYPE_KEY);
  }

  lemma FirstCharacter(a: string, b: string)
    requires a != "" && b != ""
    ensures a <= b ==> a[0] == b[0]
  {
  }

  lemma KindRead(d: Description, more: string)
    ensures var t := TypeValue(d, more);
      && t[Span(NoColon, t)..] == t
      && t[Span(BeforeType, t)..] == Word(d) + ("\", " + more)
  {
    hide Span, Word;
    var t, kind := TypeValue(d, more), Word(d) + ("\", " + more);
    SpanIs(NoColon, t, 0);
    assert t[0..] == t;
    WordFirst(d);
    SpanOf(BeforeType, ": \"", kind);
    assert t[3..] == kind;
  }

  lemma WordFirst(d: Description)
    ensures Word(d) != "" && Word(d)[0] == if d == Offer then 'o' else 'a'
  {
  }

  lemma KindFound(d: Description, more: string)
    ensures Understood(Opening(d) + more) == Some(Described(d, SdpValue(Opening(d) + more)))
  {
    hide SdpValue, Find, Span, TypeValue, Opening, Word;
    TypeFound(d, more);
    assert (TYPE_KEY + TypeValue(d, more))[6..] == TypeValue(d, more);
    KindRead(d, more);
    assert TypeValue(d, more) != "" by { TypeValueFirst(d, more); }
    Kinds(d, "\", " + more);
  }

  lemma TypeValueFirst(d: Description, more: string)
    ensures TypeValue(d, more) != ""
  {
  }

  lemma Kinds(d: Description, more: string)
    ensures var kind := Word(d) + more;
      && !("joined" <= kind) && !("peer-joined" <= kind) && !("peer-left" <= kind)
      && ("offer" <= kind <==> d == Offer) && ("answer" <= kind <==> d == Answer)
  {
    var kind := Word(d) + more;
    WordFirst(d);
    FirstCharacter("joined", kind);
    FirstCharacter("peer-joined", kind);
    FirstCharacter("peer-left", kind);
    FirstCharacter("offer", kind);
    FirstCharacter("answer", kind);
    assert kind[..|Word(d)|] == Word(d);
  }

  /**
   * The message made for a description gives the description back exactly when its escaped form fits
   * the buffer and it does not end in a backslash.
   */
  lemma DescriptionExactly(d: Description, sdp: string)
    ensures Understood(MessageOf(d, sdp)) == Some(Described(d, Some(sdp))) <==>
      |Escaped(sdp)| < ESCAPED_LEN && !EndsInBackslash(sdp)
  {
    hide Understood, SdpValue, Escaped, Kept, Opening;
    KindFound(d, MessageOf(d, sdp)[|Opening(d)|..]);
    assert MessageOf(d, sdp) == Opening(d) + MessageOf(d, sdp)[|Opening(d)|..];
    DescriptionFound(d, sdp);
    KeptExactly(sdp, 0);
  }

  /** The shortest description that is lost: its closing quote reads as an escaped one. */
  lemma TrailingBackslashLost(d: Description)
    ensures Understood(MessageOf(d, "\\")) == Some(Described(d, None))
  {
    hide Understood, SdpValue, Opening;
    var json := MessageOf(d, "\\");
    KindFound(d, json[|Opening(d)|..]);
    assert json == Opening(d) + json[|Opening(d)|..];
    DescriptionFound(d, "\\");
    assert Kept("\\", 0) == "\\" by { assert "\\"[1..] == ""; }
  }

  // ----- the other messages -----

  /** A message whose type follows a colon, some spaces and a quote. */
  function Typed(gap: string, kind: string): string {
    "{\"type\":" + (gap + ("\"" + kind))
  }

  predicate AllSpaces(s: string) {
    forall i :: 0 <= i < |s| ==> s[i] == ' '
  }

  lemma TypeReached(gap: string, kind: string)
    requires AllSpaces(gap) && kind != "" && !BeforeType(kind[0])
    ensures var found := Find(Typed(gap, kind), TYPE_KEY);
      && found.Some?
      && (var s := found.value[6..];
          var t := s[Span(NoColon, s)..];
          t != "" && t[Span(BeforeType, t)..] == kind)
  {
    hide Span, Find;
    var t := ":" + (gap + ("\"" + kind));
    var s := TYPE_KEY + t;
    assert Typed(gap, kind) == "{" + s;
    assert ("{" + s)[0] == '{' && ("{" + s)[0..] == "{" + s;
    FirstCharacter(TYPE_KEY, "{" + s);
    FindAfter("{", s, TYPE_KEY);
    assert s[6..] == t;
    SpanIs(NoColon, t, 0);
    assert t[0..] == t;
    var skipped := ":" + (gap + "\"");
    assert t == skipped + kind;
    SpanOf(BeforeType, skipped, kind);
    assert t[|skipped|..] == kind;
  }

  /** Exactly how a message is reported: by how its type begins, and not at all for two of the types. */
  lemma KindsExactly(gap: string, kind: string)
    requires AllSpaces(gap) && kind != "" && !BeforeType(kind[0])
    ensures var json := Typed(gap, kind);
      var event := Understood(json);
      && (event == None <==> "joined" <= kind || "error" <= kind)
      && (event == Some(PeerJoined) <==> "peer-joined" <= kind)
      && (event == Some(PeerLeft) <==> "peer-left" <= kind)
      && (event == Some(Candidate) <==> "ice-candidate" <= kind)
      && (event == Some(Described(Offer, SdpValue(json))) <==> "offer" <= kind)
      && (event == Some(Described(Answer, SdpValue(json))) <==> "answer" <= kind)
      && (event == Some(Unset) ==> !("offer" <= kind) && !("answer" <= kind))
  {
    hide Find, Span, SdpValue, Typed;
    TypeReached(gap, kind);
    OneType(kind);
  }

  lemma OneType(kind: string)
    requires kind != ""
    ensures "joined" <= kind ==> kind[0] == 'j'
    ensures "peer-joined" <= kind ==> kind[0] == 'p' && |kind| > 5 && kind[5] == 'j'
    ensures "peer-left" <= kind ==> kind[0] == 'p' && |kind| > 5 && kind[5] == 'l'
    ensures "offer" <= kind ==> kind[0] == 'o'
    ensures "answer" <= kind ==> kind[0] == 'a'
    ensures "ice-candidate" <= kind ==> kind[0] == 'i'
    ensures "error" <= kind ==> kind[0] == 'e'
  {
  }

  /** What follows a backslash: six characters have a meaning, before any other the backslash stays. */
  lemma EscapeRead(c: char, more: string)
    ensures Unescaped(['\\', c] + more) ==
      if c == 'n' then "\n" + Unescaped(more)
      else if c == 'r' then "\r" + Unescaped(more)
      else if c == 't' then "\t" + Unescaped(more)
      else if c == '"' || c == '\\' || c == '/' then [c] + Unescaped(more)
      else "\\" + Unescaped([c] + more)
  {
    var s := ['\\', c] + more;
    assert s[2..] == more && s[1..] == [c] + more;
  }

  /** A description that the message holds as a string, not inside an object. */
  lemma StringForm(d: Description, sdp: string)
    ensures SdpValue(Opening(d) + (SDP_KEY + (": " + ("\"" + (Escaped(sdp) + "\"}}"))))) ==
      if EndsInBackslash(sdp) then None else Some(sdp)
  {
    hide Find, ValueAfter, Quoted, Escaped, Opening;
    var body := "\"" + (Escaped(sdp) + "\"}}");
    KeyAfterOpening(d, ": " + body);
    ValueOfKey('"', Escaped(sdp) + "\"}}");
    KeyFirst(": " + body);
    QuotedEscaped(sdp);
    assert "\"" + "sdp" + "\"" == SDP_KEY;
  }

  lemma KeyFirst(more: string)
    ensures Find(SDP_KEY + more, SDP_KEY) == Some(SDP_KEY + more)
  {
  }
}
