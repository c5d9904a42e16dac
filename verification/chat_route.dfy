/** The chat endpoint: validation of the request body, the server-sent
    event framing of `writeSse`, and the gating of every write on the
    client still being connected and the response not yet ended. */
module ChatRoute {
  import opened Text
  import opened Wrappers
  import opened Json
  import Llm

  // ---------------------------------------------------------------------
  // Request validation

  /** `req.body?.message`: the property of an object body, undefined for
      any other body. */
  function MessageField(body: Option<Value>): Option<Value> {
    match body
    case Some(Obj(members)) => Lookup(members, "message")
    case _ => None
  }

  /** The message the handler accepts, trimmed: None (a 400 response) when
      it is missing, not a string, empty or whitespace only. */
  function ValidateMessage(body: Option<Value>): (r: Option<string>)
    ensures r.Some? <==>
      MessageField(body).Some? && MessageField(body).value.Str? && !IsBlank(MessageField(body).value.s)
    ensures r.Some? ==> r.value == Trim(MessageField(body).value.s)
    ensures r.Some? ==> r.value != "" && !IsWhitespace(r.value[0]) && !IsWhitespace(r.value[|r.value| - 1])
  {
    match MessageField(body)
    case Some(Str(s)) =>
      TrimEmptyIffBlank(s);
      if s == "" || Trim(s) == "" then None else Some(Trim(s))
    case _ => None
  }

  /** The JSON body of the 400 response. */
  const REQUIRED_ERROR: string := Stringify(Obj([("error", Str("message is required"))]))

  // ---------------------------------------------------------------------
  // writeSse

  /** One server-sent event: its type and its JSON payload. */
  datatype Frame = Frame(event: string, payload: Value)

  function TokenFrame(token: string): Frame {
    Frame("token", Obj([("token", Str(token))]))
  }

  const DONE_FRAME: Frame := Frame("done", Obj([("ok", Bool(true))]))

  /** The failure frame carries a fixed message and no internal detail. */
  const ERROR_FRAME: Frame := Frame("error", Obj([("error", Str("Failed to generate response."))]))

  predicate IsTerminal(f: Frame) {
    f.event != "token"
  }

  /** The two `res.write` calls of `writeSse`. */
  function SseWrites(f: Frame): (w: seq<string>)
    ensures |w| == 2
    ensures StartsWith(w[0], "event: ") && w[0][|w[0]| - 1] == '\n'
    ensures StartsWith(w[1], "data: ") && w[1][|w[1]| - 2..] == "\n\n"
  {
    ["event: " + f.event + "\n", "data: " + Stringify(f.payload) + "\n\n"]
  }

  /** The writes of a sequence of frames, frame after frame. */
  function Writes(frames: seq<Frame>): (w: seq<string>)
    ensures |w| == 2 * |frames|
  {
    if frames == [] then [] else Writes(frames[..|frames| - 1]) + SseWrites(frames[|frames| - 1])
  }

  /** Each frame owns two consecutive writes, in frame order. */
  lemma {:induction false} WritesOfFrame(frames: seq<Frame>, i: nat)
    requires i < |frames|
    ensures Writes(frames)[2 * i..2 * i + 2] == SseWrites(frames[i])
  {
    var init := frames[..|frames| - 1];
    if i < |frames| - 1 {
      WritesOfFrame(init, i);
      assert Writes(frames)[2 * i..2 * i + 2] == Writes(init)[2 * i..2 * i + 2];
    } else {
      assert |Writes(init)| == 2 * i;
    }
  }

  function TokenFrames(tokens: seq<string>): (r: seq<Frame>)
    ensures |r| == |tokens|
    ensures forall i :: 0 <= i < |r| ==> r[i] == TokenFrame(tokens[i])
  {
    if tokens == [] then [] else TokenFrames(tokens[..|tokens| - 1]) + [TokenFrame(tokens[|tokens| - 1])]
  }

  /** One more token, one more token frame. */
  lemma TokenFramesSnoc(tokens: seq<string>, i: nat)
    requires i < |tokens|
    ensures TokenFrames(tokens[..i + 1]) == TokenFrames(tokens[..i]) + [TokenFrame(tokens[i])]
  {
    assert tokens[..i + 1][..i] == tokens[..i];
  }

  // ---------------------------------------------------------------------
  // The streaming response

  /** The response of one chat request while it streams: what has been
      written, whether it has ended, and whether the client has gone. The
      frames written so far are ghost: the response only holds the text. */
  class SseResponse {
    var written: seq<string>
    var writableEnded: bool
    var clientDisconnected: bool
    ghost var frames: seq<Frame>

    /** The writes are whole frames; only the last frame may be a terminal
        one, and the response has ended exactly when it is. */
    ghost predicate Valid()
      reads this
    {
      && written == Writes(frames)
      && (forall i :: 0 <= i < |frames| - 1 ==> !IsTerminal(frames[i]))
      && (writableEnded <==> frames != [] && IsTerminal(frames[|frames| - 1]))
    }

    /** The guard every write sits behind. */
    predicate Open()
      reads this
    {
      !clientDisconnected && !writableEnded
    }

    constructor()
      ensures Valid()
      ensures written == [] && frames == [] && !writableEnded && !clientDisconnected
    {
      written := [];
      writableEnded := false;
      clientDisconnected := false;
      frames := [];
    }

    /** The `aborted` and `close` listeners: the flag is set and never
        cleared; nothing is written. */
    method Disconnect()
      requires Valid()
      modifies this
      ensures Valid() && clientDisconnected
      ensures written == old(written) && frames == old(frames) && writableEnded == old(writableEnded)
    {
      clientDisconnected := true;
    }

    /** `writeSse(res, type, payload)`. */
    method WriteSse(f: Frame)
      requires written == Writes(frames)
      modifies this
      ensures written == Writes(frames) && frames == old(frames) + [f]
      ensures writableEnded == old(writableEnded) && clientDisconnected == old(clientDisconnected)
    {
      written := written + SseWrites(f);
      frames := frames + [f];
      assert frames[..|frames| - 1] == old(frames);
    }

    /** The `onToken` callback: a token frame while the stream is open,
        nothing otherwise. */
    method OnToken(token: string)
      requires Valid()
      modifies this
      ensures Valid()
      ensures frames == old(frames) + (if old(Open()) then [TokenFrame(token)] else [])
      ensures writableEnded == old(writableEnded) && clientDisconnected == old(clientDisconnected)
    {
      if !clientDisconnected && !writableEnded {
        WriteSse(TokenFrame(token));
      }
    }

    /** The orchestrator resolved: one `done` frame and the end of the
        response, if the stream is still open. */
    method Complete()
      requires Valid()
      modifies this
      ensures Valid()
      ensures frames == old(frames) + (if old(Open()) then [DONE_FRAME] else [])
      ensures writableEnded == (old(writableEnded) || old(Open())) && clientDisconnected == old(clientDisconnected)
    {
      Finish(DONE_FRAME);
    }

    /** The orchestrator rejected: one `error` frame and the end of the
        response, if the stream is still open. */
    method Fail()
      requires Valid()
      modifies this
      ensures Valid()
      ensures frames == old(frames) + (if old(Open()) then [ERROR_FRAME] else [])
      ensures writableEnded == (old(writableEnded) || old(Open())) && clientDisconnected == old(clientDisconnected)
    {
      Finish(ERROR_FRAME);
    }

    /** A terminal frame followed by `res.end()`, if the stream is open. */
    method Finish(f: Frame)
      requires Valid() && IsTerminal(f)
      modifies this
      ensures Valid()
      ensures frames == old(frames) + (if old(Open()) then [f] else [])
      ensures writableEnded == (old(writableEnded) || old(Open())) && clientDisconnected == old(clientDisconnected)
    {
      if !clientDisconnected && !writableEnded {
        WriteSse(f);
        writableEnded := true;
      }
    }
  }

  // ---------------------------------------------------------------------
  // The POST handler

  datatype Reply =
    | Rejected(status: int, json: string)
    | Streamed(written: seq<string>, ended: bool)

  /** How many of `n` tokens reach the client when it disconnects before
      token `k` (`disconnectAt == Some(k)`) or not at all. */
  function Delivered(disconnectAt: Option<nat>, n: nat): (d: nat)
    ensures d <= n
    ensures disconnectAt.Some? ==> d <= disconnectAt.value
    ensures disconnectAt.None? || n <= disconnectAt.value ==> d == n
  {
    if disconnectAt.Some? && disconnectAt.value < n then disconnectAt.value else n
  }

  /** The frames a streamed request writes: the tokens emitted before the
      client went away, then, only if it never did, one terminal frame that
      says whether the orchestrator resolved. */
  function StreamFrames(run: Llm.Run, disconnectAt: Option<nat>): (r: seq<Frame>)
    ensures forall i :: 0 <= i < |r| - 1 ==> i < |run.trace| && r[i] == TokenFrame(run.trace[i])
    ensures disconnectAt.Some? ==> r == TokenFrames(run.trace[..Delivered(disconnectAt, |run.trace|)])
    ensures disconnectAt.Some? ==> |r| <= disconnectAt.value
    ensures disconnectAt.None? ==> |r| == |run.trace| + 1 && r[|run.trace|] == (if run.outcome == Llm.Completed then DONE_FRAME else ERROR_FRAME)
  {
    TokenFrames(run.trace[..Delivered(disconnectAt, |run.trace|)])
      + (if disconnectAt.None? then [if run.outcome == Llm.Completed then DONE_FRAME else ERROR_FRAME] else [])
  }

  /** `done` and `error` exclude each other, and a terminal frame is
      always the last one. */
  lemma {:induction false} OneTerminalFrame(run: Llm.Run, disconnectAt: Option<nat>)
    ensures var r := StreamFrames(run, disconnectAt);
      && !(DONE_FRAME in r && ERROR_FRAME in r)
      && forall i :: 0 <= i < |r| && IsTerminal(r[i]) ==> i == |r| - 1
  {
    var r := StreamFrames(run, disconnectAt);
    var n := Delivered(disconnectAt, |run.trace|);
    assert forall i :: 0 <= i < n ==> !IsTerminal(r[i]);
  }

  /** The POST handler: a 400 with a fixed JSON error for an invalid
      message; otherwise the trimmed message is answered as a stream of
      frames, every write gated on the client and the response. The client
      disconnects before token `k` when `disconnectAt == Some(k)` (after
      the last token when `k` is at least their number). */
  method HandlePost(body: Option<Value>, b: Llm.Backends, disconnectAt: Option<nat>) returns (reply: Reply)
    ensures ValidateMessage(body).None? ==> reply == Rejected(400, REQUIRED_ERROR)
    ensures ValidateMessage(body).Some? ==>
      reply == Streamed(Writes(StreamFrames(Llm.Respond(ValidateMessage(body).value, b), disconnectAt)), disconnectAt.None?)
  {
    var message := ValidateMessage(body);
    if message.None? {
      return Rejected(400, REQUIRED_ERROR);
    }
    var res := new SseResponse();
    var run := Llm.StreamAssistantResponse(message.value, b);
    StreamRun(res, run, disconnectAt);
    reply := Streamed(res.written, res.writableEnded);
  }

  /** Plays a run of the orchestrator into a fresh response: each token
      through `onToken`, the disconnect where it happens, then `done` or
      `error` by the run's outcome. */
  method StreamRun(res: SseResponse, run: Llm.Run, disconnectAt: Option<nat>)
    requires res.Valid() && res.frames == [] && !res.writableEnded && !res.clientDisconnected
    modifies res
    ensures res.Valid()
    ensures res.frames == StreamFrames(run, disconnectAt)
    ensures res.writableEnded == disconnectAt.None?
  {
    var trace := run.trace;
    for i := 0 to |trace|
      invariant res.Valid()
      invariant res.frames == TokenFrames(trace[..Delivered(disconnectAt, i)])
      invariant res.clientDisconnected <==> disconnectAt.Some? && disconnectAt.value < i
      invariant !res.writableEnded
    {
      if disconnectAt == Some(i) {
        res.Disconnect();
      }
      res.OnToken(trace[i]);
      if disconnectAt.Some? && disconnectAt.value <= i {
        assert Delivered(disconnectAt, i + 1) == Delivered(disconnectAt, i);
      } else {
        assert Delivered(disconnectAt, i + 1) == i + 1 && Delivered(disconnectAt, i) == i;
        TokenFramesSnoc(trace, i);
      }
    }
    assert trace[..|trace|] == trace;
    if disconnectAt.Some? && disconnectAt.value >= |trace| {
      res.Disconnect();
    }
    if run.outcome == Llm.Completed {
      res.Complete();
    } else {
      res.Fail();
    }
  }
}
