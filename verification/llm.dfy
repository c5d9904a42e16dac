/** The answering policy of the assistant: extraction of text from model
    output, the lenient intent classification, the relay of streamed
    fragments, and the order in which `streamAssistantResponse` emits
    tokens. The chat models and the retriever are inputs: the classifier's
    reply, the chunks each responder prompt streams, and the retrieved page
    contents. */
module Llm {
  import opened Text
  import opened Wrappers

  const INTRO_LINE: string := "I am the Official AI Assistant of Gayatri Vidya Parishad College."
  const COLLEGE_FALLBACK: string := "I\U{2019}m not sure about that. Please contact the college administration."

  /** The first token of every answer. */
  const INTRO_TOKEN: string := INTRO_LINE + "\n\n"

  const GENERAL_SYSTEM: string :=
    "You are a helpful AI assistant. Give accurate and concise responses for general questions."
  const COLLEGE_SYSTEM: string :=
    "You are the official college assistant. Answer using only the provided college context. "
    + "If asked for role-based people (like director, dean, principal), return names and roles from context clearly. "
    + "If the answer is not present in context, reply exactly: " + COLLEGE_FALLBACK

  // ---------------------------------------------------------------------
  // chunkToText

  /** One element of an array-valued message content: a bare string, an
      object with a `type` and an optional (possibly falsy) `text`, or
      anything else. */
  datatype Part =
    | StringPart(s: string)
    | TypedPart(kind: string, text: Option<string>)
    | OtherPart

  /** The `content` of a model message or stream chunk: missing or falsy, a
      string, an array of parts, or some other value. */
  datatype Content =
    | Missing
    | Text(s: string)
    | Parts(parts: seq<Part>)
    | Other

  /** What one part contributes: a string part itself, the text of a
      `type: "text"` part (or nothing when it has none), nothing otherwise. */
  function PartText(p: Part): string {
    match p
    case StringPart(s) => s
    case TypedPart(kind, text) => if kind == "text" && text.Some? then text.value else ""
    case OtherPart => ""
  }

  function PartTexts(parts: seq<Part>): (r: seq<string>)
    ensures |r| == |parts|
    ensures forall k :: 0 <= k < |parts| ==> r[k] == PartText(parts[k])
  {
    if parts == [] then [] else [PartText(parts[0])] + PartTexts(parts[1..])
  }

  lemma {:induction false} PartTextsAppend(a: seq<Part>, b: seq<Part>)
    ensures PartTexts(a + b) == PartTexts(a) + PartTexts(b)
  {
    if a == [] {
      assert a + b == b;
    } else {
      assert (a + b)[0] == a[0] && (a + b)[1..] == a[1..] + b;
      PartTextsAppend(a[1..], b);
      assert [PartText(a[0])] + (PartTexts(a[1..]) + PartTexts(b)) == ([PartText(a[0])] + PartTexts(a[1..])) + PartTexts(b);
    }
  }

  /** The texts of a slice of the parts are that slice of their texts. */
  lemma PartTextsSlice(parts: seq<Part>, i: nat, j: nat)
    requires i <= j <= |parts|
    ensures PartTexts(parts[i..j]) == PartTexts(parts)[i..j]
  {
    var l, r := PartTexts(parts[i..j]), PartTexts(parts)[i..j];
    forall k | 0 <= k < |l|
      ensures l[k] == r[k]
    {
      assert parts[i..j][k] == parts[i + k];
    }
  }

  /** `chunkToText`: the text carried by a content value. */
  function ChunkToText(c: Content): (r: string)
    ensures c.Text? ==> r == c.s
    ensures c.Missing? || c.Other? ==> r == ""
  {
    match c
    case Missing => ""
    case Text(s) => s
    case Parts(parts) => Concat(PartTexts(parts))
    case Other => ""
  }

  /** An array's text is its parts' texts in order: appending a part
      appends what that part contributes. */
  lemma ChunkToTextAppendPart(parts: seq<Part>, p: Part)
    ensures ChunkToText(Parts(parts + [p])) == ChunkToText(Parts(parts)) + PartText(p)
  {
    assert PartTexts(parts + [p]) == PartTexts(parts) + [PartText(p)];
    ConcatAppend(PartTexts(parts), [PartText(p)]);
    assert Concat([PartText(p)]) == PartText(p) + Concat([]);
  }

  /** Parts that are neither strings nor text parts contribute nothing:
      removing them leaves the text unchanged. */
  lemma OtherPartsContributeNothing(parts: seq<Part>, k: nat)
    requires k < |parts|
    requires parts[k].OtherPart? || (parts[k].TypedPart? && parts[k].kind != "text")
    ensures ChunkToText(Parts(parts)) == ChunkToText(Parts(parts[..k] + parts[k + 1..]))
  {
    var texts := PartTexts(parts);
    PartTextsAppend(parts[..k], parts[k + 1..]);
    PartTextsSlice(parts, 0, k);
    PartTextsSlice(parts, k + 1, |parts|);
    assert parts[..k] == parts[0..k] && parts[k + 1..] == parts[k + 1..|parts|];
    assert texts[..k] == texts[0..k] && texts[k + 1..] == texts[k + 1..|texts|];
    ConcatSkipsEmpty(texts, k);
  }

  lemma ConcatSkipsEmpty(xs: seq<string>, k: nat)
    requires k < |xs| && xs[k] == ""
    ensures Concat(xs) == Concat(xs[..k] + xs[k + 1..])
  {
    var a, c := xs[..k], xs[k + 1..];
    var e: seq<string> := [""];
    assert xs == (a + e) + c;
    ConcatAppend(a + e, c);
    ConcatAppend(a, e);
    ConcatAppend(a, c);
    assert Concat(e) == "" by {
      assert e[1..] == [];
    }
    assert Concat(a + e) == Concat(a);
  }

  // ---------------------------------------------------------------------
  // classifyIntent

  datatype Intent = College | General

  /** `classifyIntent` after the classifier has replied: "college" exactly
      when the lower-cased reply contains `college` anywhere. */
  function ClassifyIntent(reply: Content): Intent {
    if Includes(ToLowerCase(ChunkToText(reply)), "college") then College else General
  }

  /** The rule ignores case and surrounding words: any spelling of the word
      that lower-cases to `college`, anywhere in the reply, classifies the
      query as a college query. */
  lemma ClassifyIgnoresCase(before: string, word: string, after: string)
    requires ToLowerCase(word) == "college"
    ensures ClassifyIntent(Text(before + word + after)) == College
  {
    ToLowerCaseAppend(before + word, after);
    ToLowerCaseAppend(before, word);
    var low := ToLowerCase(before + word + after);
    var i := |ToLowerCase(before)|;
    assert low == ToLowerCase(before) + "college" + ToLowerCase(after);
    assert low[i..i + 7] == "college";
    assert OccursAt(low, "college", i);
  }

  /** A reply without the letter c in either case can only mean "general". */
  lemma {:induction false} ClassifyWithoutC(reply: Content)
    requires forall i :: 0 <= i < |ChunkToText(reply)| ==> ChunkToText(reply)[i] != 'c' && ChunkToText(reply)[i] != 'C'
    ensures ClassifyIntent(reply) == General
  {
    var low := ToLowerCase(ChunkToText(reply));
    LowerKeepsNoC(ChunkToText(reply));
    forall i | 0 <= i <= |low| - 7
      ensures !OccursAt(low, "college", i)
    {
      assert low[i..i + 7][0] == low[i] != 'c';
    }
  }

  lemma {:induction false} LowerKeepsNoC(s: string)
    requires forall i :: 0 <= i < |s| ==> s[i] != 'c' && s[i] != 'C'
    ensures forall i :: 0 <= i < |ToLowerCase(s)| ==> ToLowerCase(s)[i] != 'c'
  {
    if s != [] {
      LowerKeepsNoC(s[1..]);
      assert ToLowerCase(s) == LowerChar(s[0]) + ToLowerCase(s[1..]);
    }
  }

  // ---------------------------------------------------------------------
  // streamModelText

  /** The text of every chunk of a stream, in order. */
  function Texts(chunks: seq<Content>): (r: seq<string>)
    ensures |r| == |chunks|
  {
    if chunks == [] then [] else Texts(chunks[..|chunks| - 1]) + [ChunkToText(chunks[|chunks| - 1])]
  }

  /** The fragments `streamModelText` yields for a stream: the non-empty
      chunk texts, in order. */
  function Relay(chunks: seq<Content>): (r: seq<string>)
    ensures |r| <= |chunks|
    ensures forall i :: 0 <= i < |r| ==> r[i] != ""
  {
    if chunks == [] then []
    else
      var t := ChunkToText(chunks[|chunks| - 1]);
      Relay(chunks[..|chunks| - 1]) + (if t != "" then [t] else [])
  }

  /** The relay is the `filter(Boolean)` of the chunk texts: the texts in
      chunk order, with exactly the empty ones dropped. */
  lemma {:induction false} RelayIsNonEmptyTexts(chunks: seq<Content>)
    ensures Relay(chunks) == NonEmpty(Texts(chunks))
  {
    if chunks != [] {
      var init := chunks[..|chunks| - 1];
      var t := ChunkToText(chunks[|chunks| - 1]);
      RelayIsNonEmptyTexts(init);
      NonEmptyAppend(Texts(init), [t]);
      assert NonEmpty([t]) == (if t != "" then [t] else []) by {
        assert [t][1..] == [];
      }
    }
  }

  /** Dropping the empty fragments loses no text: the relayed fragments
      concatenate to the whole streamed text. */
  lemma RelayConcat(chunks: seq<Content>)
    ensures Concat(Relay(chunks)) == Concat(Texts(chunks))
  {
    RelayIsNonEmptyTexts(chunks);
    NonEmptyConcat(Texts(chunks));
  }

  /** `streamModelText`: reads the stream chunk by chunk and yields every
      non-empty text. */
  method StreamModelText(chunks: seq<Content>) returns (fragments: seq<string>)
    ensures fragments == Relay(chunks)
  {
    fragments := [];
    for k := 0 to |chunks|
      invariant fragments == Relay(chunks[..k])
    {
      assert chunks[..k + 1][..k] == chunks[..k];
      var text := ChunkToText(chunks[k]);
      if text != "" {
        fragments := fragments + [text];
      }
    }
    assert chunks[..|chunks|] == chunks;
  }

  // ---------------------------------------------------------------------
  // streamAssistantResponse

  /** The two turns sent to the responder. */
  datatype Prompt = Prompt(system: string, user: string)

  /** What the responder streams for a prompt: its chunks, and whether the
      stream then throws (a stream that fails part-way is one whose chunks
      stop there). */
  datatype Generation = Generation(chunks: seq<Content>, fails: bool)

  /** The knowledge base as the college path finds it. `Uninitialised` is
      `getRetriever` throwing; a retriever call that rejects has the same
      effect. */
  datatype Retrieval = Uninitialised | Retrieved(pages: seq<string>)

  /** Everything outside the policy: whether an API key is configured, the
      classifier's reply (None when the call fails), the knowledge base and
      the responder's behaviour for each prompt. */
  datatype Backends = Backends(
    hasApiKey: bool,
    classifierReply: Option<Content>,
    retrieval: Retrieval,
    responder: Prompt -> Generation)

  datatype Outcome = Completed | Failed

  /** One run of `streamAssistantResponse`: the tokens passed to `onToken`
      in order, whether the call resolves or rejects, the prompt the
      responder received (if it was called) and whether the college path
      reached the knowledge base. */
  datatype Run = Run(trace: seq<string>, outcome: Outcome, responderPrompt: Option<Prompt>, retrievalAttempted: bool)

  /** The user turn of the college path. */
  function CollegeQuestion(message: string, context: string): string {
    "Question:\n" + message + "\n\nCollege Context:\n" + context
  }

  /** The run `streamAssistantResponse` makes for `message`. */
  function Respond(message: string, b: Backends): (run: Run)
    ensures b.hasApiKey <==> run.trace != []
    ensures run.trace != [] ==> run.trace[0] == INTRO_TOKEN
    ensures forall i :: 0 <= i < |run.trace| ==> run.trace[i] != ""
    ensures run.retrievalAttempted ==> b.classifierReply.Some? && ClassifyIntent(b.classifierReply.value) == College
    ensures run.responderPrompt.Some? ==> |run.trace| >= 1 && run.trace[1..] == Relay(b.responder(run.responderPrompt.value).chunks)
  {
    if !b.hasApiKey then Run([], Failed, None, false)
    else match b.classifierReply
      case None => Run([INTRO_TOKEN], Failed, None, false)
      case Some(reply) =>
        if ClassifyIntent(reply) == General then
          var prompt := Prompt(GENERAL_SYSTEM, message);
          Relayed(prompt, b.responder(prompt), false)
        else match b.retrieval
          case Uninitialised => Run([INTRO_TOKEN], Failed, None, true)
          case Retrieved(pages) =>
            var context := Join(pages, "\n\n");
            if Trim(context) == "" then Run([INTRO_TOKEN, COLLEGE_FALLBACK], Completed, None, true)
            else
              var prompt := Prompt(COLLEGE_SYSTEM, CollegeQuestion(message, context));
              Relayed(prompt, b.responder(prompt), true)
  }

  /** A run that ends by relaying the responder's stream after the intro. */
  function Relayed(prompt: Prompt, g: Generation, retrievalAttempted: bool): (run: Run)
    ensures |run.trace| >= 1 && run.trace[1..] == Relay(g.chunks)
  {
    Run([INTRO_TOKEN] + Relay(g.chunks), if g.fails then Failed else Completed, Some(prompt), retrievalAttempted)
  }

  /** `streamAssistantResponse`: emits the intro, classifies, and then
      relays the general answer, emits the fallback, or relays the answer
      grounded in the retrieved context. */
  method StreamAssistantResponse(message: string, b: Backends) returns (run: Run)
    ensures run == Respond(message, b)
  {
    if !b.hasApiKey {
      return Run([], Failed, None, false);
    }
    var trace := [INTRO_TOKEN];
    if b.classifierReply.None? {
      return Run(trace, Failed, None, false);
    }
    var intent := ClassifyIntent(b.classifierReply.value);
    var prompt: Prompt;
    if intent == General {
      prompt := Prompt(GENERAL_SYSTEM, message);
      assert Respond(message, b) == Relayed(prompt, b.responder(prompt), intent == College);
    } else {
      if b.retrieval.Uninitialised? {
        return Run(trace, Failed, None, true);
      }
      var context := Join(b.retrieval.pages, "\n\n");
      if Trim(context) == "" {
        trace := trace + [COLLEGE_FALLBACK];
        return Run(trace, Completed, None, true);
      }
      prompt := Prompt(COLLEGE_SYSTEM, CollegeQuestion(message, context));
      assert Respond(message, b) == Relayed(prompt, b.responder(prompt), intent == College);
    }
    var generation := b.responder(prompt);
    var fragments := StreamModelText(generation.chunks);
    trace := trace + fragments;
    run := Run(trace, if generation.fails then Failed else Completed, Some(prompt), intent == College);
    assert run == Relayed(prompt, generation, intent == College);
  }

  /** Without an API key nothing is emitted and the call rejects. */
  lemma MissingKeyEmitsNothing(message: string, b: Backends)
    requires !b.hasApiKey
    ensures Respond(message, b) == Run([], Failed, None, false)
  {
  }

  /** The intro is emitted before the classifier is consulted: when the
      classifier call fails, the intro is all that was emitted. */
  lemma IntroPrecedesClassifier(message: string, b: Backends)
    requires b.hasApiKey && b.classifierReply.None?
    ensures Respond(message, b).trace == [INTRO_TOKEN]
    ensures Respond(message, b).outcome == Failed
  {
  }

  /** General path: the knowledge base is not consulted, the responder
      receives the general system prompt and the message itself, and the
      answer after the intro is the whole streamed text. */
  lemma GeneralPathRelays(message: string, b: Backends)
    requires b.hasApiKey && b.classifierReply.Some? && ClassifyIntent(b.classifierReply.value) == General
    ensures var run := Respond(message, b);
      var g := b.responder(Prompt(GENERAL_SYSTEM, message));
      && !run.retrievalAttempted
      && run.responderPrompt == Some(Prompt(GENERAL_SYSTEM, message))
      && Concat(run.trace) == INTRO_TOKEN + Concat(Texts(g.chunks))
      && (run.outcome == Failed <==> g.fails)
  {
    var g := b.responder(Prompt(GENERAL_SYSTEM, message));
    RelayConcat(g.chunks);
    ConcatAppend([INTRO_TOKEN], Relay(g.chunks));
    assert Concat([INTRO_TOKEN]) == INTRO_TOKEN + Concat([]);
  }

  /** College path with no knowledge base: the intro, then the call
      rejects without the responder being called. */
  lemma CollegePathUninitialised(message: string, b: Backends)
    requires b.hasApiKey && b.classifierReply.Some? && ClassifyIntent(b.classifierReply.value) == College
    requires b.retrieval.Uninitialised?
    ensures Respond(message, b) == Run([INTRO_TOKEN], Failed, None, true)
  {
  }

  /** College path: the responder is skipped exactly when every retrieved
      page is blank (no pages at all included), and then the answer is the
      fixed fallback alone. */
  lemma {:induction false} FallbackIffBlankContext(message: string, b: Backends)
    requires b.hasApiKey && b.classifierReply.Some? && ClassifyIntent(b.classifierReply.value) == College
    requires b.retrieval.Retrieved?
    ensures var run := Respond(message, b);
      && (run.responderPrompt.None? <==> forall k :: 0 <= k < |b.retrieval.pages| ==> IsBlank(b.retrieval.pages[k]))
      && (run.responderPrompt.None? ==> run.trace == [INTRO_TOKEN, COLLEGE_FALLBACK] && run.outcome == Completed)
  {
    var pages := b.retrieval.pages;
    assert IsBlank("\n\n");
    JoinBlankIffAllBlank(pages, "\n\n");
    TrimEmptyIffBlank(Join(pages, "\n\n"));
  }

  /** College path with some non-blank context: the responder's user turn
      is the question followed by the pages joined with blank lines, and
      its non-empty fragments follow the intro. */
  lemma {:induction false} CollegePromptCarriesContext(message: string, b: Backends)
    requires b.hasApiKey && b.classifierReply.Some? && ClassifyIntent(b.classifierReply.value) == College
    requires b.retrieval.Retrieved?
    requires exists k :: 0 <= k < |b.retrieval.pages| && !IsBlank(b.retrieval.pages[k])
    ensures var run := Respond(message, b);
      var prompt := Prompt(COLLEGE_SYSTEM, CollegeQuestion(message, Join(b.retrieval.pages, "\n\n")));
      && run.responderPrompt == Some(prompt)
      && run.trace == [INTRO_TOKEN] + Relay(b.responder(prompt).chunks)
      && (run.outcome == Failed <==> b.responder(prompt).fails)
  {
    FallbackIffBlankContext(message, b);
  }
}
