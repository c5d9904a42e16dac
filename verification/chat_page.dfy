/** The chat page's handling of the answer stream: appending a streamed
    token to the conversation, and turning the bytes received so far into
    event callbacks plus the unterminated tail kept for the next read. */
module ChatPage {
  import opened Text
  import opened Wrappers
  import opened Json

  // ---------------------------------------------------------------------
  // appendAssistantToken

  datatype Role = User | Assistant

  datatype Message = Message(id: string, role: Role, text: string)

  /** The position of the last assistant message, if there is one. */
  function LastAssistant(list: seq<Message>): (r: Option<nat>)
    ensures r.Some? ==> r.value < |list| && list[r.value].role == Assistant
    ensures r.Some? ==> forall j :: r.value < j < |list| ==> list[j].role != Assistant
    ensures r.None? ==> forall j :: 0 <= j < |list| ==> list[j].role != Assistant
  {
    if list == [] then None
    else if list[|list| - 1].role == Assistant then Some(|list| - 1)
    else LastAssistant(list[..|list| - 1])
  }

  /** The conversation once a token has arrived: the last assistant
      message extended by the token or, when there is none, a new
      assistant message holding it. */
  function WithToken(list: seq<Message>, token: string, freshId: string): seq<Message> {
    match LastAssistant(list)
    case Some(i) => list[i := list[i].(text := list[i].text + token)]
    case None => list + [Message(freshId, Assistant, token)]
  }

  /** `appendAssistantToken`: scans the copy of the list backwards and
      extends the text of the last assistant message; with no assistant
      message, pushes a new one (whose id `createMessage` draws from the
      clock and a random number, here `freshId`). */
  method AppendAssistantToken(list: seq<Message>, token: string, freshId: string) returns (next: seq<Message>)
    ensures next == WithToken(list, token, freshId)
  {
    next := list;
    var i: int := |next| - 1;
    while i >= 0
      invariant -1 <= i < |next|
      invariant next == list
      invariant forall j :: i < j < |list| ==> list[j].role != Assistant
    {
      if next[i].role == Assistant {
        next := next[i := next[i].(text := next[i].text + token)];
        return;
      }
      i := i - 1;
    }
    next := next + [Message(freshId, Assistant, token)];
  }

  /** A token goes to the last assistant message (or to the one created
      for it), which stays the last assistant message; no other message
      changes, and at most one message is added. */
  lemma TokenTargetIsStable(list: seq<Message>, token: string, freshId: string)
    ensures var target := if LastAssistant(list).Some? then LastAssistant(list).value else |list|;
      var next := WithToken(list, token, freshId);
      && LastAssistant(next) == Some(target)
      && next[target].role == Assistant
      && next[target].text == (if target < |list| then list[target].text else "") + token
      && |next| == |list| + (if LastAssistant(list).Some? then 0 else 1)
      && forall j :: 0 <= j < |list| && j != target ==> next[j] == list[j]
  {
  }

  /** The conversation after a stream of tokens, one `onToken` at a time. */
  function Accumulate(list: seq<Message>, tokens: seq<string>, freshId: string): seq<Message> {
    if tokens == [] then list
    else WithToken(Accumulate(list, tokens[..|tokens| - 1], freshId), tokens[|tokens| - 1], freshId)
  }

  /** With an assistant message present, a stream of tokens extends that
      one message by their concatenation and leaves the rest alone. */
  lemma {:induction false} TokensAccumulate(list: seq<Message>, tokens: seq<string>, freshId: string)
    requires LastAssistant(list).Some?
    ensures var i := LastAssistant(list).value;
      Accumulate(list, tokens, freshId) == list[i := list[i].(text := list[i].text + Concat(tokens))]
  {
    var i := LastAssistant(list).value;
    if tokens == [] {
      assert list[i].text + Concat(tokens) == list[i].text;
      assert list[i := list[i]] == list;
    } else {
      var init := tokens[..|tokens| - 1];
      var last := tokens[|tokens| - 1];
      TokensAccumulate(list, init, freshId);
      var before := list[i := list[i].(text := list[i].text + Concat(init))];
      TokenTargetIsStable(before, last, freshId);
      assert LastAssistant(before) == Some(i) by {
        TokenTargetIsStable(list, Concat(init), freshId);
      }
      ConcatAppend(init, [last]);
      assert init + [last] == tokens;
      assert Concat([last]) == last + Concat([]);
      assert list[i].text + Concat(init) + last == list[i].text + Concat(tokens);
    }
  }

  /** `sendMessage` adds the user's message and an empty assistant bubble
      before it reads the stream, so the bubble ends up holding exactly the
      concatenated tokens and the earlier conversation is untouched. */
  lemma AnswerFillsBubble(history: seq<Message>, user: Message, bubbleId: string, tokens: seq<string>, freshId: string)
    requires user.role == User
    ensures Accumulate(history + [user, Message(bubbleId, Assistant, "")], tokens, freshId)
      == history + [user, Message(bubbleId, Assistant, Concat(tokens))]
  {
    var list := history + [user, Message(bubbleId, Assistant, "")];
    assert LastAssistant(list) == Some(|list| - 1);
    TokensAccumulate(list, tokens, freshId);
    assert "" + Concat(tokens) == Concat(tokens);
  }

  // ---------------------------------------------------------------------
  // String.prototype.split with /\r?\n\r?\n/ and /\r?\n/

  /** The two separators the page splits on: a blank line
      (`/\r?\n\r?\n/`) and a line break (`/\r?\n/`). */
  datatype Pattern = BlankLine | LineBreak

  /** Length of the `\r?\n` starting at `q`, 0 if none. The optional
      carriage return is tried first and only kept when a line feed
      follows, so the match is unique. */
  function BreakAt(s: string, q: nat): (n: nat)
    ensures n <= 2 && (n > 0 ==> q + n <= |s| && s[q + n - 1] == '\n')
    ensures n == 2 ==> s[q] == '\r'
    ensures n > 0 <==> q < |s| && (s[q] == '\n' || (s[q] == '\r' && q + 1 < |s| && s[q + 1] == '\n'))
  {
    if q < |s| && s[q] == '\n' then 1
    else if q + 1 < |s| && s[q] == '\r' && s[q + 1] == '\n' then 2
    else 0
  }

  /** Length of the match of the pattern starting at `q`, 0 if none. */
  function MatchAt(p: Pattern, s: string, q: nat): (n: nat)
    ensures n > 0 ==> q + n <= |s|
    ensures n > 0 ==> if p.BlankLine? then 2 <= n <= 4 else n <= 2
  {
    var a := BreakAt(s, q);
    if p.LineBreak? || a == 0 then a
    else
      var b := BreakAt(s, q + a);
      if b == 0 then 0 else a + b
  }

  /** The pattern matches nowhere in `s`. */
  predicate NoMatch(p: Pattern, s: string) {
    forall q :: 0 <= q < |s| ==> MatchAt(p, s, q) == 0
  }

  /** A match only looks at the characters it covers: a match inside a
      slice is a match of the whole string at the same place. */
  lemma MatchInSlice(p: Pattern, s: string, a: nat, b: nat, q: nat)
    requires a + q < b <= |s|
    requires MatchAt(p, s[a..b], q) > 0
    ensures MatchAt(p, s, a + q) == MatchAt(p, s[a..b], q)
  {
    var t := s[a..b];
    var n := BreakAt(t, q);
    assert BreakAt(s, a + q) == n;
    if p.BlankLine? {
      assert BreakAt(s, a + q + n) == BreakAt(t, q + n);
    }
  }

  /** The leftmost match at or after `from`. */
  function FirstMatch(p: Pattern, s: string, from: nat): (r: Option<nat>)
    decreases |s| - from
    ensures r.Some? ==> from <= r.value < |s| && MatchAt(p, s, r.value) > 0
    ensures r.Some? ==> forall q :: from <= q < r.value ==> MatchAt(p, s, q) == 0
    ensures r.None? ==> forall q :: from <= q < |s| ==> MatchAt(p, s, q) == 0
  {
    if from >= |s| then None
    else if MatchAt(p, s, from) > 0 then Some(from)
    else FirstMatch(p, s, from + 1)
  }

  /** `s.split(pattern)`, with the separators it removed: the pieces
      between successive leftmost matches, one more piece than
      separators. */
  function Split(p: Pattern, s: string): (r: (seq<string>, seq<string>))
    decreases |s|
    ensures |r.0| == |r.1| + 1
  {
    match FirstMatch(p, s, 0)
    case None => ([s], [])
    case Some(q) =>
      var n := MatchAt(p, s, q);
      var rest := Split(p, s[q + n..]);
      ([s[..q]] + rest.0, [s[q..q + n]] + rest.1)
  }

  /** The texts each pattern matches: a line break is `\n` or `\r\n`, and
      a blank line is two of them. */
  function Spellings(p: Pattern): set<string> {
    if p.LineBreak? then {"\n", "\r\n"}
    else {"\n\n", "\r\n\n", "\n\r\n", "\r\n\r\n"}
  }

  /** `t` is one whole match of the pattern. */
  predicate IsSeparator(p: Pattern, t: string) {
    t in Spellings(p)
  }

  /** No piece contains the separator, and every separator removed is one
      whole match. */
  lemma SplitPieces(p: Pattern, s: string)
    ensures var r := Split(p, s);
      && NoMatchInAny(p, r.0)
      && AllSeparators(p, r.1)
  {
    PiecesHaveNoMatch(p, s);
    SeparatorsAreMatches(p, s);
  }

  lemma {:induction false} PiecesHaveNoMatch(p: Pattern, s: string)
    decreases |s|
    ensures NoMatchInAny(p, Split(p, s).0)
  {
    match FirstMatch(p, s, 0)
    case None =>
      assert Split(p, s).0 == [s];
      assert NoMatch(p, s);
    case Some(q) =>
      var n := MatchAt(p, s, q);
      var rest := Split(p, s[q + n..]);
      assert Split(p, s).0 == [s[..q]] + rest.0;
      PiecesHaveNoMatch(p, s[q + n..]);
      NoMatchBefore(p, s, q);
      ConsNoMatch(p, s[..q], rest.0);
  }

  /** No piece holds a match. */
  predicate NoMatchInAny(p: Pattern, pieces: seq<string>) {
    forall k :: 0 <= k < |pieces| ==> NoMatch(p, pieces[k])
  }

  lemma ConsNoMatch(p: Pattern, head: string, tail: seq<string>)
    requires NoMatch(p, head) && NoMatchInAny(p, tail)
    ensures NoMatchInAny(p, [head] + tail)
  {
    forall k | 0 <= k < |[head] + tail|
      ensures NoMatch(p, ([head] + tail)[k])
    {
      if k > 0 {
        assert ([head] + tail)[k] == tail[k - 1];
      }
    }
  }

  lemma {:induction false} SeparatorsAreMatches(p: Pattern, s: string)
    decreases |s|
    ensures AllSeparators(p, Split(p, s).1)
  {
    match FirstMatch(p, s, 0)
    case None =>
    case Some(q) =>
      var n := MatchAt(p, s, q);
      var rest := Split(p, s[q + n..]);
      SeparatorsAreMatches(p, s[q + n..]);
      SeparatorMatches(p, s, q);
      ConsSeparators(p, s[q..q + n], rest.1);
      assert Split(p, s).1 == [s[q..q + n]] + rest.1;
  }

  predicate AllSeparators(p: Pattern, seps: seq<string>) {
    forall k :: 0 <= k < |seps| ==> IsSeparator(p, seps[k])
  }

  lemma ConsSeparators(p: Pattern, head: string, tail: seq<string>)
    requires IsSeparator(p, head) && AllSeparators(p, tail)
    ensures AllSeparators(p, [head] + tail)
  {
    forall k | 0 <= k < |[head] + tail|
      ensures IsSeparator(p, ([head] + tail)[k])
    {
      if k > 0 {
        assert ([head] + tail)[k] == tail[k - 1];
      }
    }
  }

  lemma NoMatchBefore(p: Pattern, s: string, q: nat)
    requires q <= |s|
    requires forall j :: 0 <= j < q ==> MatchAt(p, s, j) == 0
    ensures NoMatch(p, s[..q])
  {
    forall j | 0 <= j < q
      ensures MatchAt(p, s[..q], j) == 0
    {
      if MatchAt(p, s[..q], j) > 0 {
        MatchInSlice(p, s, 0, q, j);
        assert s[0..q] == s[..q];
      }
    }
  }

  lemma SeparatorMatches(p: Pattern, s: string, q: nat)
    requires q < |s| && MatchAt(p, s, q) > 0
    ensures IsSeparator(p, s[q..q + MatchAt(p, s, q)])
  {
    var a := BreakAt(s, q);
    var n := MatchAt(p, s, q);
    var t := s[q..q + n];
    assert forall i :: 0 <= i < n ==> t[i] == s[q + i];
    if p.LineBreak? {
      if a == 1 { assert t == "\n"; } else { assert t == "\r\n"; }
    } else {
      var b := n - a;
      assert b == BreakAt(s, q + a);
      if a == 1 && b == 1 { assert t == "\n\n"; }
      else if a == 1 { assert t == "\n\r\n"; }
      else if b == 1 { assert t == "\r\n\n"; }
      else { assert t == "\r\n\r\n"; }
    }
  }

  /** Conversely, every spelling of the pattern is matched, as a whole,
      wherever it occurs. */
  lemma SpellingMatches(p: Pattern, s: string, q: nat, t: string)
    requires IsSeparator(p, t) && q + |t| <= |s| && s[q..q + |t|] == t
    ensures MatchAt(p, s, q) == |t|
  {
    assert s[q] == t[0] && (|t| > 1 ==> s[q + 1] == t[1]);
    assert (|t| > 2 ==> s[q + 2] == t[2]) && (|t| > 3 ==> s[q + 3] == t[3]);
    if t == "\n" {
      assert s[q] == '\n';
    } else if t == "\r\n" {
      assert s[q] == '\r' && s[q + 1] == '\n';
    } else if t == "\n\n" {
      assert s[q] == '\n' && s[q + 1] == '\n';
    } else if t == "\r\n\n" {
      assert s[q] == '\r' && s[q + 1] == '\n' && s[q + 2] == '\n';
    } else if t == "\n\r\n" {
      assert s[q] == '\n' && s[q + 1] == '\r' && s[q + 2] == '\n';
    } else {
      assert t == "\r\n\r\n";
      assert s[q] == '\r' && s[q + 1] == '\n' && s[q + 2] == '\r' && s[q + 3] == '\n';
    }
  }

  /** A string holds no match exactly when no spelling of the pattern
      occurs in it. */
  lemma NoMatchIffNoSpelling(p: Pattern, s: string)
    ensures NoMatch(p, s) <==> forall q: nat, t :: IsSeparator(p, t) ==> !OccursAt(s, t, q)
  {
    if NoMatch(p, s) {
      forall q: nat, t | IsSeparator(p, t)
        ensures !OccursAt(s, t, q)
      {
        if OccursAt(s, t, q) {
          SpellingMatches(p, s, q, t);
        }
      }
    } else {
      var q :| 0 <= q < |s| && MatchAt(p, s, q) > 0;
      SeparatorMatches(p, s, q);
      assert OccursAt(s, s[q..q + MatchAt(p, s, q)], q);
    }
  }

  /** The pieces with the separators put back between them. */
  function Interleave(pieces: seq<string>, seps: seq<string>): string
    requires |pieces| == |seps| + 1
  {
    if seps == [] then pieces[0] else pieces[0] + seps[0] + Interleave(pieces[1..], seps[1..])
  }

  /** Nothing is lost or reordered: the pieces and the separators, put back
      together, are the string that was split. */
  lemma {:induction false} SplitRejoins(p: Pattern, s: string)
    decreases |s|
    ensures Interleave(Split(p, s).0, Split(p, s).1) == s
  {
    match FirstMatch(p, s, 0)
    case None =>
    case Some(q) =>
      var n := MatchAt(p, s, q);
      SplitRejoins(p, s[q + n..]);
      assert s == s[..q] + s[q..q + n] + s[q + n..];
  }

  /** A match looks only forward, so a suffix matches where the whole
      string does. */
  lemma MatchInSuffix(p: Pattern, s: string, a: nat, q: nat)
    requires a <= |s|
    ensures MatchAt(p, s, a + q) == MatchAt(p, s[a..], q)
  {
    var t := s[a..];
    var n := BreakAt(t, q);
    assert BreakAt(s, a + q) == n;
    assert BreakAt(s, a + q + n) == BreakAt(t, q + n);
  }

  /** Where piece `k` begins in the split text: the pieces and separators
      before it, put together. */
  function PieceStart(pieces: seq<string>, seps: seq<string>, k: nat): nat
    requires |pieces| == |seps| + 1 && k < |pieces|
  {
    if k == 0 then 0 else |pieces[0]| + |seps[0]| + PieceStart(pieces[1..], seps[1..], k - 1)
  }

  /** No match of the pattern starts at a position in `lo..hi` of `s`. */
  predicate NoMatchIn(p: Pattern, s: string, lo: nat, hi: nat) {
    forall q :: lo <= q < hi ==> MatchAt(p, s, q) == 0
  }

  /** A span of a suffix free of matches is free of matches in the whole
      string too. */
  lemma NoMatchInSuffix(p: Pattern, s: string, a: nat, lo: nat, hi: nat)
    requires a <= |s| && NoMatchIn(p, s[a..], lo, hi)
    ensures NoMatchIn(p, s, a + lo, a + hi)
  {
    forall x | a + lo <= x < a + hi
      ensures MatchAt(p, s, x) == 0
    {
      MatchInSuffix(p, s, a, x - a);
    }
  }

  /** No match of the pattern in `s` starts inside the span any piece
      covers, the pieces laid out with the separators between them. */
  predicate PiecesClear(p: Pattern, s: string, pieces: seq<string>, seps: seq<string>)
    requires |pieces| == |seps| + 1
  {
    forall k :: 0 <= k < |pieces| ==>
      NoMatchIn(p, s, PieceStart(pieces, seps, k), PieceStart(pieces, seps, k) + |pieces[k]|)
  }

  /** The cuts are at the leftmost matches: no match of the pattern in the
      whole text starts inside the span of any piece. */
  lemma {:induction false} SplitCutsLeftmost(p: Pattern, s: string)
    decreases |s|
    ensures PiecesClear(p, s, Split(p, s).0, Split(p, s).1)
  {
    match FirstMatch(p, s, 0)
    case None =>
      assert Split(p, s) == ([s], []);
      assert NoMatchIn(p, s, 0, |s|);
    case Some(q) =>
      var n := MatchAt(p, s, q);
      var rest := Split(p, s[q + n..]);
      SplitCutsLeftmost(p, s[q + n..]);
      assert NoMatchIn(p, s, 0, q);
      ClearBeforeAndAfterCut(p, s, q, n, rest.0, rest.1, Split(p, s).0, Split(p, s).1);
  }

  /** The first piece is clear because the cut is the first match; the
      later pieces are clear in the rest of the text, hence in the whole. */
  lemma ClearBeforeAndAfterCut(p: Pattern, s: string, q: nat, n: nat, pieces: seq<string>, seps: seq<string>,
                               all: seq<string>, cuts: seq<string>)
    requires q + n <= |s| && |pieces| == |seps| + 1
    requires all == [s[..q]] + pieces && cuts == [s[q..q + n]] + seps
    requires NoMatchIn(p, s, 0, q)
    requires PiecesClear(p, s[q + n..], pieces, seps)
    ensures PiecesClear(p, s, all, cuts)
  {
    assert all[1..] == pieces && cuts[1..] == seps;
    forall k | 0 <= k < |all|
      ensures NoMatchIn(p, s, PieceStart(all, cuts, k), PieceStart(all, cuts, k) + |all[k]|)
    {
      if k > 0 {
        ShiftClearPiece(p, s, q + n, all, cuts, k);
      }
    }
  }

  /** One step of SplitCutsLeftmost: a piece after the first cut, clear in
      the rest of the text, is clear in the whole of it. */
  lemma ShiftClearPiece(p: Pattern, s: string, a: nat, pieces: seq<string>, seps: seq<string>, k: nat)
    requires a <= |s| && |pieces| == |seps| + 1 && 0 < k < |pieces|
    requires |pieces[0]| + |seps[0]| == a
    requires PiecesClear(p, s[a..], pieces[1..], seps[1..])
    ensures NoMatchIn(p, s, PieceStart(pieces, seps, k), PieceStart(pieces, seps, k) + |pieces[k]|)
  {
    var st := PieceStart(pieces[1..], seps[1..], k - 1);
    assert pieces[1..][k - 1] == pieces[k];
    assert NoMatchIn(p, s[a..], st, st + |pieces[k]|);
    NoMatchInSuffix(p, s, a, st, st + |pieces[k]|);
  }

  // ---------------------------------------------------------------------
  // parseAndApplySse

  /** A callback the page runs for a frame, with the value it passes. */
  datatype Callback = OnToken(token: Value) | OnError(error: Value) | OnDone

  /** What one frame does: nothing, one callback, or a thrown TypeError
      (reading a property of a `null` payload). */
  datatype FrameEffect = Skip | Fire(callback: Callback) | Throw

  /** The callbacks run, in order, and the buffer returned; or, when a
      frame threw, the callbacks run before it. */
  datatype SseResult = Applied(callbacks: seq<Callback>, nextBuffer: string) | Threw(callbacks: seq<Callback>)

  /** `lines.find(line => line.startsWith(prefix))`: the first such line. */
  function FindLine(lines: seq<string>, prefix: string): (r: Option<string>)
    ensures r.Some? ==> StartsWith(r.value, prefix) && exists k :: 0 <= k < |lines| && lines[k] == r.value && forall j :: 0 <= j < k ==> !StartsWith(lines[j], prefix)
    ensures r.None? ==> forall k :: 0 <= k < |lines| ==> !StartsWith(lines[k], prefix)
  {
    if lines == [] then None
    else if StartsWith(lines[0], prefix) then assert lines[0] == lines[0]; Some(lines[0])
    else
      var r := FindLine(lines[1..], prefix);
      assert forall k :: 1 <= k < |lines| ==> lines[k] == lines[1..][k - 1];
      if r.Some? then
        var k :| 0 <= k < |lines[1..]| && lines[1..][k] == r.value && forall j :: 0 <= j < k ==> !StartsWith(lines[1..][j], prefix);
        assert lines[k + 1] == r.value;
        r
      else r
  }

  /** The lines of a frame. */
  function Lines(frame: string): seq<string> {
    Split(LineBreak, frame).0
  }

  /** The event name of a frame: its first `event:` line without that
      prefix (the first occurrence `replace` removes), trimmed. */
  function EventName(frame: string): Option<string> {
    match FindLine(Lines(frame), "event:")
    case None => None
    case Some(line) => Some(Trim(line[|"event:"|..]))
  }

  /** The payload text of a frame: its first `data:` line without that
      prefix, trimmed. */
  function DataText(frame: string): Option<string> {
    match FindLine(Lines(frame), "data:")
    case None => None
    case Some(line) => Some(Trim(line[|"data:"|..]))
  }

  /** A property read on a parsed payload that is not `null`: the member
      of an object, undefined on anything else. */
  function Property(payload: Value, key: string): Option<Value> {
    if payload.Obj? then Lookup(payload.members, key) else None
  }

  /** The body of the `forEach` over complete frames. `parse` is
      `JSON.parse`, None where it throws. */
  function ApplyFrame(frame: string, parse: string -> Option<Value>): (r: FrameEffect)
    ensures EventName(frame).None? || DataText(frame).None? || parse(DataText(frame).value).None? ==> r == Skip
  {
    if EventName(frame).None? || DataText(frame).None? then Skip
    else
      match parse(DataText(frame).value)
      case None => Skip
      case Some(payload) => Dispatch(EventName(frame).value, payload)
  }

  /** The three `if`s on the event name, for a parsed payload: a token or
      an error message (`||` falling back to a default when the property is
      missing or falsy), or the end of the stream. Reading a property of a
      `null` payload throws. */
  function Dispatch(event: string, payload: Value): (r: FrameEffect)
    ensures r.Throw? <==> payload.Null? && event in {"token", "error"}
    ensures r.Fire? && r.callback.OnToken? ==> event == "token"
    ensures r.Fire? && r.callback.OnError? ==> event == "error"
    ensures r.Fire? && r.callback.OnDone? ==> event == "done"
    ensures r.Skip? <==> event !in {"token", "error", "done"}
    ensures r.Fire? && r.callback.OnToken? ==> r.callback.token == OrElse(Property(payload, "token"), Str(""))
    ensures r.Fire? && r.callback.OnError? ==> r.callback.error == OrElse(Property(payload, "error"), Str("Streaming failed"))
  {
    if event == "token" then
      if payload.Null? then Throw else Fire(OnToken(OrElse(Property(payload, "token"), Str(""))))
    else if event == "error" then
      if payload.Null? then Throw else Fire(OnError(OrElse(Property(payload, "error"), Str("Streaming failed"))))
    else if event == "done" then Fire(OnDone)
    else Skip
  }

  /** What each complete frame does, in frame order. */
  function Effects(frames: seq<string>, parse: string -> Option<Value>): (r: seq<FrameEffect>)
    ensures |r| == |frames|
    ensures forall k :: 0 <= k < |frames| ==> r[k] == ApplyFrame(frames[k], parse)
  {
    if frames == [] then [] else [ApplyFrame(frames[0], parse)] + Effects(frames[1..], parse)
  }

  /** Frame `k` is the first of the run that throws. */
  predicate FirstThrow(effects: seq<FrameEffect>, k: int) {
    0 <= k < |effects| && effects[k].Throw? && forall j :: 0 <= j < k ==> !effects[j].Throw?
  }

  /** The callbacks of a run of frame effects, in order, and whether one of
      them threw (which stops the rest, as a throw inside `forEach` does). */
  function RunEffects(effects: seq<FrameEffect>): (r: (seq<Callback>, bool))
    ensures |r.0| <= |effects|
    ensures r.1 <==> exists k :: 0 <= k < |effects| && effects[k].Throw?
    ensures !r.1 ==> r.0 == FiredCallbacks(effects)
    ensures forall k :: FirstThrow(effects, k) ==> r.0 == FiredCallbacks(effects[..k])
  {
    if effects == [] then ([], false)
    else
      var rest := RunEffects(effects[1..]);
      FirstThrowOfTail(effects);
      match effects[0]
      case Throw => assert FirstThrow(effects, 0); ([], true)
      case Skip => rest
      case Fire(cb) => ([cb] + rest.0, rest.1)
  }

  /** When the first frame does not throw, the first throw of the run is
      one past the first throw of the rest, and the frames before it fire
      the first frame's callback, if any, then those of the rest before
      its throw. */
  lemma FirstThrowOfTail(effects: seq<FrameEffect>)
    requires effects != []
    ensures (exists k :: 0 <= k < |effects| && effects[k].Throw?) <==>
      effects[0].Throw? || exists k :: 0 <= k < |effects[1..]| && effects[1..][k].Throw?
    ensures forall k :: FirstThrow(effects, k) && !effects[0].Throw? ==>
      FirstThrow(effects[1..], k - 1) &&
      FiredCallbacks(effects[..k]) == (if effects[0].Fire? then [effects[0].callback] else []) + FiredCallbacks(effects[1..][..k - 1])
  {
    assert forall k :: 1 <= k < |effects| ==> effects[1..][k - 1] == effects[k];
    forall k | FirstThrow(effects, k) && !effects[0].Throw?
      ensures FirstThrow(effects[1..], k - 1)
      ensures FiredCallbacks(effects[..k]) == (if effects[0].Fire? then [effects[0].callback] else []) + FiredCallbacks(effects[1..][..k - 1])
    {
      assert effects[..k][0] == effects[0] && effects[..k][1..] == effects[1..][..k - 1];
    }
  }

  /** The callbacks of the frames that fire, in order. */
  function FiredCallbacks(effects: seq<FrameEffect>): seq<Callback> {
    if effects == [] then []
    else (if effects[0].Fire? then [effects[0].callback] else []) + FiredCallbacks(effects[1..])
  }

  /** Frames act in order: the callbacks of two runs of frames are those of
      the first followed by those of the second, unless the first threw. */
  lemma {:induction false} RunEffectsAppend(a: seq<FrameEffect>, b: seq<FrameEffect>)
    ensures var ra := RunEffects(a);
      RunEffects(a + b) == if ra.1 then ra else (ra.0 + RunEffects(b).0, RunEffects(b).1)
  {
    if a == [] {
      assert a + b == b;
      assert [] + RunEffects(b).0 == RunEffects(b).0;
    } else {
      assert (a + b)[0] == a[0] && (a + b)[1..] == a[1..] + b;
      RunEffectsAppend(a[1..], b);
      if a[0].Fire? {
        var ra := RunEffects(a[1..]);
        var rb := RunEffects(b);
        if !ra.1 {
          assert [a[0].callback] + (ra.0 + rb.0) == ([a[0].callback] + ra.0) + rb.0;
        }
      }
    }
  }

  /** A run without `null` payloads on token or error frames never throws. */
  lemma {:induction false} RunEffectsNoThrow(effects: seq<FrameEffect>)
    requires forall k :: 0 <= k < |effects| ==> !effects[k].Throw?
    ensures !RunEffects(effects).1
  {
    if effects != [] {
      RunEffectsNoThrow(effects[1..]);
    }
  }

  /** The complete frames of the text received so far: every piece of the
      blank-line split but the last, which is still unterminated. */
  function CompleteFrames(text: string): (frames: seq<string>)
    ensures |frames| == |Split(BlankLine, text).1|
  {
    var pieces := Split(BlankLine, text).0;
    pieces[..|pieces| - 1]
  }

  /** The last piece of the blank-line split, which no separator has
      ended yet: it holds no blank line, and the complete frames, the
      separators and it put back together are the whole text. */
  function UnterminatedTail(text: string): (tail: string)
    ensures NoMatch(BlankLine, tail)
    ensures Interleave(CompleteFrames(text) + [tail], Split(BlankLine, text).1) == text
  {
    var split := Split(BlankLine, text);
    var last := split.0[|split.0| - 1];
    assert NoMatch(BlankLine, last) by {
      PiecesHaveNoMatch(BlankLine, text);
    }
    assert Interleave(CompleteFrames(text) + [last], split.1) == text by {
      assert CompleteFrames(text) + [last] == split.0;
      SplitRejoins(BlankLine, text);
    }
    last
  }

  /** What each complete frame of the text received so far does. */
  function FrameEffects(text: string, parse: string -> Option<Value>): seq<FrameEffect> {
    Effects(CompleteFrames(text), parse)
  }

  /** `parseAndApplySse`: splits the buffered text on blank lines and runs
      the complete frames in order. It throws exactly when one of them
      throws, after the callbacks of the frames before that one; otherwise
      every frame's callback has run and the buffer returned is the
      unterminated tail: it holds no blank line, and the complete frames,
      the separators and that tail put back together are exactly the text
      received so far. */
  function ParseAndApplySse(rawChunk: string, buffer: string, parse: string -> Option<Value>): (r: SseResult)
    ensures var effects := FrameEffects(buffer + rawChunk, parse);
      r.Threw? <==> exists k :: 0 <= k < |effects| && effects[k].Throw?
    ensures var effects := FrameEffects(buffer + rawChunk, parse);
      forall k :: FirstThrow(effects, k) ==> r.callbacks == FiredCallbacks(effects[..k])
    ensures r.Applied? ==> r.callbacks == FiredCallbacks(FrameEffects(buffer + rawChunk, parse))
    ensures r.Applied? ==> NoMatch(BlankLine, r.nextBuffer)
    ensures r.Applied? ==>
      Interleave(CompleteFrames(buffer + rawChunk) + [r.nextBuffer], Split(BlankLine, buffer + rawChunk).1) == buffer + rawChunk
  {
    var merged := buffer + rawChunk;
    var tail := UnterminatedTail(merged);
    var applied := RunEffects(FrameEffects(merged, parse));
    if applied.1 then Threw(applied.0) else Applied(applied.0, tail)
  }
}
