/** The event stream end to end: the text the route writes with `writeSse`
    is read back by the page's `parseAndApplySse` as exactly the callbacks
    the route meant, in order. `JSON.parse` is a parameter of the page; the
    property holds for any parser that reads back what `JSON.stringify`
    wrote for the route's payloads. */
module Protocol {
  import opened Text
  import opened Wrappers
  import opened Json
  import opened ChatRoute
  import opened ChatPage
  import Llm

  /** The bytes of a sequence of frames on the wire. */
  function Body(frames: seq<Frame>): string {
    Concat(Writes(frames))
  }

  /** A frame as the page sees it once the blank line after it is cut off. */
  function Head(f: Frame): string {
    "event: " + f.event + "\ndata: " + Stringify(f.payload)
  }

  /** The heads of the frames, in order. */
  function Heads(frames: seq<Frame>): (r: seq<string>)
    ensures |r| == |frames|
    ensures forall k :: 0 <= k < |frames| ==> r[k] == Head(frames[k])
  {
    if frames == [] then [] else [Head(frames[0])] + Heads(frames[1..])
  }

  /** A frame the page can read back: event name and payload on one line
      each, neither empty nor padded with whitespace. */
  predicate Clean(f: Frame) {
    var json := Stringify(f.payload);
    && f.event != "" && SingleLine(f.event) && !IsWhitespace(f.event[0]) && !IsWhitespace(f.event[|f.event| - 1])
    && json != "" && SingleLine(json) && !IsWhitespace(json[0]) && !IsWhitespace(json[|json| - 1])
  }

  /** `JSON.parse` reads back every payload the route writes. */
  ghost predicate ParsesServerPayloads(parse: string -> Option<Value>) {
    && (forall t :: parse(Stringify(TokenFrame(t).payload)) == Some(TokenFrame(t).payload))
    && parse(Stringify(DONE_FRAME.payload)) == Some(DONE_FRAME.payload)
    && parse(Stringify(ERROR_FRAME.payload)) == Some(ERROR_FRAME.payload)
  }

  // ---------------------------------------------------------------------
  // The wire text, frame by frame

  lemma {:induction false} WritesFront(f: Frame, fs: seq<Frame>)
    ensures Writes([f] + fs) == SseWrites(f) + Writes(fs)
  {
    if fs == [] {
      assert [f] + fs == [f];
      assert ([f] + fs)[..0] == [];
    } else {
      var init := fs[..|fs| - 1];
      WritesFront(f, init);
      assert ([f] + fs)[..|[f] + fs| - 1] == [f] + init;
      assert ([f] + fs)[|[f] + fs| - 1] == fs[|fs| - 1];
    }
  }

  /** Every frame is its head followed by a blank line. */
  lemma BodyFront(f: Frame, fs: seq<Frame>)
    ensures Body([f] + fs) == Head(f) + "\n\n" + Body(fs)
  {
    WritesFront(f, fs);
    ConcatAppend(SseWrites(f), Writes(fs));
    var w := SseWrites(f);
    assert Concat(w) == w[0] + (w[1] + Concat([]));
  }

  // ---------------------------------------------------------------------
  // Splitting the wire text

  lemma NoBreakNoMatch(p: Pattern, s: string, q: nat)
    requires q < |s| && s[q] != '\n' && s[q] != '\r'
    ensures MatchAt(p, s, q) == 0
  {
  }

  lemma {:induction false} FirstMatchIs(p: Pattern, s: string, from: nat, q: nat)
    requires from <= q < |s| && MatchAt(p, s, q) > 0
    requires forall j :: from <= j < q ==> MatchAt(p, s, j) == 0
    decreases q - from
    ensures FirstMatch(p, s, from) == Some(q)
  {
    if from < q {
      FirstMatchIs(p, s, from + 1, q);
    }
  }

  lemma NoBreakNoSplit(p: Pattern, s: string)
    requires SingleLine(s)
    ensures Split(p, s) == ([s], [])
  {
    if FirstMatch(p, s, 0).Some? {
      var q := FirstMatch(p, s, 0).value;
      assert s[q] in s;
      NoBreakNoMatch(p, s, q);
    }
  }

  /** The only line break inside a clean head is the one before `data:`,
      and a `d` follows it, so no blank line starts inside the head. */
  lemma HeadHasNoBlankLine(f: Frame, rest: string)
    requires Clean(f)
    ensures forall q :: 0 <= q < |Head(f)| ==> MatchAt(BlankLine, Head(f) + "\n\n" + rest, q) == 0
  {
    var s := Head(f) + "\n\n" + rest;
    var json := Stringify(f.payload);
    var q0 := 7 + |f.event|;
    forall q | 0 <= q < |Head(f)|
      ensures MatchAt(BlankLine, s, q) == 0
    {
      if q < 7 {
        assert s[q] == "event: "[q];
      } else if q < q0 {
        assert s[q] == f.event[q - 7];
        assert f.event[q - 7] in f.event;
      } else if q == q0 {
        assert s[q] == '\n' && s[q + 1] == 'd';
        assert BreakAt(s, q + 1) == 0;
      } else if q < q0 + 7 {
        assert s[q] == "\ndata: "[q - q0];
      } else {
        assert s[q] == json[q - q0 - 7];
        assert json[q - q0 - 7] in json;
      }
      if q != q0 {
        NoBreakNoMatch(BlankLine, s, q);
      }
    }
  }

  /** The blank line after a clean head is where the split cuts. */
  lemma SplitAfterHead(f: Frame, rest: string)
    requires Clean(f)
    ensures Split(BlankLine, Head(f) + "\n\n" + rest)
      == ([Head(f)] + Split(BlankLine, rest).0, ["\n\n"] + Split(BlankLine, rest).1)
  {
    var s := Head(f) + "\n\n" + rest;
    var h := |Head(f)|;
    HeadHasNoBlankLine(f, rest);
    assert s[h] == '\n' && s[h + 1] == '\n';
    assert MatchAt(BlankLine, s, h) == 2;
    FirstMatchIs(BlankLine, s, 0, h);
    var tail := Split(BlankLine, s[h + 2..]);
    assert Split(BlankLine, s) == ([s[..h]] + tail.0, [s[h..h + 2]] + tail.1);
    assert s[..h] == Head(f) && s[h..h + 2] == "\n\n" && s[h + 2..] == rest;
  }

  /** The page cuts the route's text into the frame heads and an empty
      tail. */
  lemma {:induction false} BodySplitsIntoHeads(frames: seq<Frame>)
    requires forall k :: 0 <= k < |frames| ==> Clean(frames[k])
    ensures Split(BlankLine, Body(frames)).0 == Heads(frames) + [""]
  {
    if frames == [] {
      assert Body(frames) == "";
    } else {
      BodyFront(frames[0], frames[1..]);
      assert [frames[0]] + frames[1..] == frames;
      SplitAfterHead(frames[0], Body(frames[1..]));
      BodySplitsIntoHeads(frames[1..]);
    }
  }

  // ---------------------------------------------------------------------
  // Reading one head

  lemma TrimPadded(x: string)
    requires x != [] && !IsWhitespace(x[0]) && !IsWhitespace(x[|x| - 1])
    ensures Trim(" " + x) == x
  {
    var s := " " + x;
    assert SkipLeading(s, 0) == 1;
    assert SkipTrailing(s, 1, |s|) == |s|;
    assert s[1..|s|] == x;
  }

  /** The two lines of a clean head. */
  lemma HeadLines(f: Frame)
    requires Clean(f)
    ensures Lines(Head(f)) == ["event: " + f.event, "data: " + Stringify(f.payload)]
  {
    var line0, json := "event: " + f.event, Stringify(f.payload);
    var data := "data: " + json;
    var s := Head(f);
    var q0 := |line0|;
    assert s == line0 + "\n" + data;
    assert SingleLine(line0) && SingleLine(data);
    forall q | 0 <= q < q0
      ensures MatchAt(LineBreak, s, q) == 0
    {
      assert s[q] == line0[q] && line0[q] in line0;
      NoBreakNoMatch(LineBreak, s, q);
    }
    assert s[q0] == '\n';
    FirstMatchIs(LineBreak, s, 0, q0);
    assert s[..q0] == line0 && s[q0 + 1..] == data;
    NoBreakNoSplit(LineBreak, data);
  }

  /** A clean head reads back as its event name and its payload. */
  lemma HeadReadsBack(f: Frame, parse: string -> Option<Value>)
    requires Clean(f) && parse(Stringify(f.payload)) == Some(f.payload)
    ensures ApplyFrame(Head(f), parse) == Dispatch(f.event, f.payload)
  {
    HeadLines(f);
    var lines := Lines(Head(f));
    var json := Stringify(f.payload);
    assert StartsWith(lines[0], "event:");
    assert !StartsWith(lines[0], "data:") by { assert lines[0][0] == 'e'; }
    assert StartsWith(lines[1], "data:");
    assert lines[1..] == ["data: " + json];
    assert FindLine(lines, "event:") == Some("event: " + f.event);
    assert FindLine(lines[1..], "data:") == Some("data: " + json);
    assert ("event: " + f.event)[|"event:"|..] == " " + f.event;
    assert ("data: " + json)[|"data:"|..] == " " + json;
    TrimPadded(f.event);
    TrimPadded(json);
  }

  // ---------------------------------------------------------------------
  // The route's frames

  lemma ObjectTextBraced(members: seq<(string, Value)>)
    ensures var json := Stringify(Obj(members));
      json != "" && json[0] == '{' && json[|json| - 1] == '}'
  {
    var inner := Join(StringifyMembers(members), ",");
    var json := "{" + inner + "}";
    assert Stringify(Obj(members)) == json;
    assert json[0] == '{' && json[|json| - 1] == '}';
  }

  /** A frame whose payload is an object of one string or boolean member
      is clean as soon as its event name is. */
  lemma OneMemberFrameClean(event: string, key: string, v: Value)
    requires v.Str? || v.Bool?
    requires event != "" && SingleLine(event) && !IsWhitespace(event[0]) && !IsWhitespace(event[|event| - 1])
    ensures Clean(Frame(event, Obj([(key, v)])))
  {
    var payload := Obj([(key, v)]);
    assert NumbersSingleLine(payload) by {
      assert payload.members[0].1 == v;
    }
    StringifySingleLine(payload);
    ObjectTextBraced(payload.members);
  }

  lemma ServerFramesClean(t: string)
    ensures Clean(TokenFrame(t)) && Clean(DONE_FRAME) && Clean(ERROR_FRAME)
  {
    OneMemberFrameClean("token", "token", Str(t));
    OneMemberFrameClean("done", "ok", Bool(true));
    OneMemberFrameClean("error", "error", Str("Failed to generate response."));
  }

  lemma ServerFramesDispatch(t: string)
    ensures Dispatch(TokenFrame(t).event, TokenFrame(t).payload) == Fire(OnToken(Str(t)))
    ensures Dispatch(DONE_FRAME.event, DONE_FRAME.payload) == Fire(OnDone)
    ensures Dispatch(ERROR_FRAME.event, ERROR_FRAME.payload) == Fire(OnError(Str("Failed to generate response.")))
  {
    assert Lookup([("token", Str(t))], "token") == Some(Str(t));
    assert Lookup([("error", Str("Failed to generate response."))], "error") == Some(Str("Failed to generate response."));
  }

  /** The callbacks the page should run for a streamed request: every
      token that reached it, then `done` or the fixed error, unless the
      client went away first. */
  function ExpectedCallbacks(run: Llm.Run, disconnectAt: Option<nat>): (r: seq<Callback>)
    ensures |r| == |StreamFrames(run, disconnectAt)|
  {
    TokenCallbacks(run.trace[..Delivered(disconnectAt, |run.trace|)])
      + (if disconnectAt.Some? then []
         else if run.outcome == Llm.Completed then [OnDone]
         else [OnError(Str("Failed to generate response."))])
  }

  function TokenCallbacks(tokens: seq<string>): (r: seq<Callback>)
    ensures |r| == |tokens|
    ensures forall i :: 0 <= i < |r| ==> r[i] == OnToken(Str(tokens[i]))
  {
    if tokens == [] then [] else [OnToken(Str(tokens[0]))] + TokenCallbacks(tokens[1..])
  }

  function Fires(callbacks: seq<Callback>): (r: seq<FrameEffect>)
    ensures |r| == |callbacks|
    ensures forall i :: 0 <= i < |r| ==> r[i] == Fire(callbacks[i])
  {
    if callbacks == [] then [] else [Fire(callbacks[0])] + Fires(callbacks[1..])
  }

  lemma {:induction false} RunFires(callbacks: seq<Callback>)
    ensures RunEffects(Fires(callbacks)) == (callbacks, false)
  {
    if callbacks != [] {
      RunFires(callbacks[1..]);
      assert Fires(callbacks)[1..] == Fires(callbacks[1..]);
      assert [callbacks[0]] + callbacks[1..] == callbacks;
    }
  }

  /** Each frame the route writes for a run is clean, and the page
      answers it with the callback it stands for. */
  lemma StreamFrameReadsBack(run: Llm.Run, disconnectAt: Option<nat>, parse: string -> Option<Value>, k: nat)
    requires ParsesServerPayloads(parse)
    requires k < |StreamFrames(run, disconnectAt)|
    ensures Clean(StreamFrames(run, disconnectAt)[k])
    ensures ApplyFrame(Head(StreamFrames(run, disconnectAt)[k]), parse) == Fire(ExpectedCallbacks(run, disconnectAt)[k])
  {
    var frames := StreamFrames(run, disconnectAt);
    var expected := ExpectedCallbacks(run, disconnectAt);
    var n := Delivered(disconnectAt, |run.trace|);
    var tokens := TokenCallbacks(run.trace[..n]);
    if k < n {
      assert frames[k] == TokenFrame(run.trace[k]);
      assert expected[k] == tokens[k] == OnToken(Str(run.trace[k]));
      TokenFrameReadsBack(run.trace[k], parse);
    } else {
      assert disconnectAt.None? && k == |run.trace| && expected[k] == expected[|tokens|];
      ServerFramesClean("");
      ServerFramesDispatch("");
      if run.outcome == Llm.Completed {
        assert frames[k] == DONE_FRAME && expected[k] == OnDone;
        HeadReadsBack(DONE_FRAME, parse);
      } else {
        assert frames[k] == ERROR_FRAME && expected[k] == OnError(Str("Failed to generate response."));
        HeadReadsBack(ERROR_FRAME, parse);
      }
    }
  }

  lemma TokenFrameReadsBack(t: string, parse: string -> Option<Value>)
    requires ParsesServerPayloads(parse)
    ensures Clean(TokenFrame(t))
    ensures ApplyFrame(Head(TokenFrame(t)), parse) == Fire(OnToken(Str(t)))
  {
    ServerFramesClean(t);
    ServerFramesDispatch(t);
    HeadReadsBack(TokenFrame(t), parse);
  }

  /** What the route writes for a request is read by the page as exactly
      the tokens the client received, in order, followed by `done` or the
      fixed error when the client stayed; nothing throws and nothing is
      left in the buffer. */
  lemma ClientReadsServerStream(run: Llm.Run, disconnectAt: Option<nat>, parse: string -> Option<Value>)
    requires ParsesServerPayloads(parse)
    ensures ParseAndApplySse(Body(StreamFrames(run, disconnectAt)), "", parse)
      == Applied(ExpectedCallbacks(run, disconnectAt), "")
  {
    var frames := StreamFrames(run, disconnectAt);
    var expected := ExpectedCallbacks(run, disconnectAt);
    forall k | 0 <= k < |frames|
      ensures Clean(frames[k]) && ApplyFrame(Head(frames[k]), parse) == Fire(expected[k])
    {
      StreamFrameReadsBack(run, disconnectAt, parse, k);
    }
    BodyReadsBack(frames, expected, parse);
  }

  /** A body of clean frames, each answered by its callback, runs those
      callbacks in order. */
  lemma BodyReadsBack(frames: seq<Frame>, expected: seq<Callback>, parse: string -> Option<Value>)
    requires |expected| == |frames|
    requires forall k :: 0 <= k < |frames| ==> Clean(frames[k]) && ApplyFrame(Head(frames[k]), parse) == Fire(expected[k])
    ensures ParseAndApplySse(Body(frames), "", parse) == Applied(expected, "")
  {
    BodySplitsIntoHeads(frames);
    var body := Body(frames);
    assert "" + body == body;
    var pieces := Split(BlankLine, body).0;
    assert pieces[..|pieces| - 1] == Heads(frames);
    assert Effects(Heads(frames), parse) == Fires(expected);
    RunFires(expected);
  }
}
