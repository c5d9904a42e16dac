# GVP chatbot core, modelled in Dafny

This project models the core of the Gayatri Vidya Parishad College chatbot,
a retrieval-augmented assistant. The server loads the college's knowledge
files, turns text into bag-of-words vectors and classifies each question as
`college` or `general`. It streams the model's answer to the browser as
server-sent events. The chat page parses those events back into callbacks
and appends each token to the assistant's message. The model covers:

- `text.dfy` (`Text`): the string primitives the core relies on. These are
  JavaScript `trim`, `toLowerCase`, `join`, `includes`, `startsWith`,
  `replaceAll` of one character and the decimal rendering of a number.
- `json.dfy` (`Json`): JSON values, `JSON.stringify`, and a decoder for
  string literals that `JSON.stringify`'s quoting round-trips through.
- `embeddings.dfy` (`SimpleEmbeddings`): `tokenize` and `hashToken`. It
  also models the 256 bucket counts `embed` builds before it normalises
  them. `hashToken` uses FNV-1a with the 32-bit wrap-around of
  `Math.imul` and `^=`, written out: exclusive or bit by bit, and the
  product modulo 2^32 by shift and add.
- `loader.dfy` (`Loader`): `flattenObject`, `toDocumentInput`,
  `collectKnowledgeFiles` with its extension filter, and the chunk
  collection of `loadCollegeDocuments`.
- `llm.js` in `llm.dfy` (`Llm`): `chunkToText`, `classifyIntent` and
  `streamModelText`. `streamAssistantResponse` is a specification function
  `Respond` that returns the tokens emitted and the outcome; a method
  implements it.
- `chat_route.dfy` (`ChatRoute`): request validation, `writeSse`, and the
  response as a class whose writes are all gated on the client still being
  there and the response not yet ended. The POST handler is modelled too.
- `chat_page.dfy` (`ChatPage`): `appendAssistantToken`, then
  `String.prototype.split` on `/\r?\n\r?\n/` and `/\r?\n/`, then
  `parseAndApplySse`.
- `protocol.dfy` (`Protocol`): the two ends put together. Whatever a
  request's run emits, the page parses the route's bytes into exactly the
  delivered tokens. It then sees `done` or the fixed error message, unless
  the client left early.

Every outside service is an input to the model. The language model, the
classifier, the retriever, the file system and `JSON.parse` are each given
as data or as a function parameter.

## Model

| member | source | states |
|---|---|---|
| Text.Trim | server/routes/chat.js:17 | the result is `s` with blank runs removed at both ends, and no whitespace is left at either end |
| Text.TrimEmptyIffBlank | server/routes/chat.js:17 | `trim()` is empty exactly when the string is whitespace only |
| Text.ToLowerCase | server/rag/simpleEmbeddings.js:5 | no ASCII capital, Kelvin sign or dotted capital I survives lower-casing, and the result is at least as long as the input |
| Text.ToLowerCaseAppend | server/rag/simpleEmbeddings.js:5 | lower-casing works character by character: it distributes over concatenation |
| Text.ToLowerCaseFixed | server/services/llm.js:57 | a string without capitals, Kelvin sign or dotted capital I is unchanged by lower-casing |
| Text.ToLowerCaseIdempotent | server/rag/simpleEmbeddings.js:5 | lower-casing twice is lower-casing once |
| Text.ConcatAppend | server/services/llm.js:41 | `join("")` of two lists appended is the two joins appended |
| Text.JoinBlankIffAllBlank | server/services/llm.js:93-95 | a join with a blank separator is blank exactly when every part is blank |
| Text.NatToStringRoundTrip | server/rag/loader.js:23 | the decimal rendering of an index reads back as that index |
| Text.NatToStringInjective | server/rag/loader.js:23 | distinct indices render differently |
| Text.Includes | server/services/llm.js:58 | `includes` holds exactly when the pattern occurs at some position |
| Text.ReplaceChar | server/rag/loader.js:49 | `replaceAll` of one character changes exactly the occurrences of it, and the length is kept |
| Json.EscapeString | server/routes/chat.js:8 | a stringified string never contains a raw line feed or carriage return |
| Json.StringifySingleLine | server/routes/chat.js:8 | `JSON.stringify` output lies on one line (given numerals that do), so a `data:` line holds the whole payload |
| Json.QuoteRoundTrip | server/routes/chat.js:8 | a quoted string decodes back to the same string, with whatever follows it left over |
| Json.QuoteInjective | server/routes/chat.js:8 | distinct strings stringify differently |
| Json.Lookup | client/pages/ChatPage.jsx:56-57 | a property is defined exactly when the object has a member with that key, and its value is that of a member with the key after which no member has it (the last one wins) |
| SimpleEmbeddings.Sanitize | server/rag/simpleEmbeddings.js:6 | each character that is neither `[a-z0-9]` nor whitespace becomes a space; the rest are kept |
| SimpleEmbeddings.Tokenize | server/rag/simpleEmbeddings.js:3-8 | every token is non-empty and made of `[a-z0-9]` only |
| SimpleEmbeddings.TokenizeSeparator | server/rag/simpleEmbeddings.js:3-8 | a character whose lower case has no letter or digit cuts the text: the tokens around it are those of either side, in order |
| SimpleEmbeddings.TokenizeRun | server/rag/simpleEmbeddings.js:3-8 | a non-empty run of `[a-z0-9]` is one token, never cut |
| SimpleEmbeddings.TokenizeLower | server/rag/simpleEmbeddings.js:3-5 | a text has the same tokens as its lower case; with TokenizeSeparator and TokenizeRun on the lower case, the tokens of any text, capitals included, are the maximal `[a-z0-9]` runs of its lower case |
| SimpleEmbeddings.TokenizeRunAnyCase | server/rag/simpleEmbeddings.js:3-8 | a non-empty run whose lower case is all `[a-z0-9]`, such as "Ab", is one token, its lower case |
| SimpleEmbeddings.TokensConcat | server/rag/simpleEmbeddings.js:3-8 | the tokens put together are exactly the `[a-z0-9]` characters of the lower-cased text, in order |
| SimpleEmbeddings.TokenizeEmptyIff | server/rag/simpleEmbeddings.js:3-8 | there are no tokens exactly when the lower-cased text has no `[a-z0-9]` character |
| SimpleEmbeddings.NoAlphanumericNoTokens | server/rag/simpleEmbeddings.js:3-8 | text without ASCII letters, digits, Kelvin sign or dotted capital I yields no token |
| SimpleEmbeddings.ToInt32 | server/rag/simpleEmbeddings.js:13-14 | reducing to a signed 32-bit value keeps the number modulo 2^32 |
| SimpleEmbeddings.MulBitsIsProduct | server/rag/simpleEmbeddings.js:14 | shift and add over the bits of the multiplier gives the product modulo 2^32 |
| SimpleEmbeddings.ImulIsProduct | server/rag/simpleEmbeddings.js:14 | `Math.imul(a, b)` is the product of the 32-bit forms of `a` and `b`, modulo 2^32, read as two's complement |
| SimpleEmbeddings.HashToken | server/rag/simpleEmbeddings.js:10-17 | the loop computes FNV-1a with 32-bit wrap-around, then `Math.abs`; for a non-empty token the result is at most 2^31 |
| SimpleEmbeddings.Bucket | server/rag/simpleEmbeddings.js:30 | every token lands in one of the 256 dimensions |
| SimpleEmbeddings.BucketCounts | server/rag/simpleEmbeddings.js:25-33 | the fresh array `embed` fills holds, per dimension, the count of the text's tokens hashed there |
| SimpleEmbeddings.CountTokens | server/rag/simpleEmbeddings.js:26-31 | the loop over the tokens leaves in the fresh zeroed array the count vector of those tokens |
| SimpleEmbeddings.CountVectorCounts | server/rag/simpleEmbeddings.js:29-32 | entry `b` of the count vector is the number of tokens whose bucket is `b` |
| SimpleEmbeddings.CountVectorSum | server/rag/simpleEmbeddings.js:29-32 | the counts add up to the number of tokens |
| SimpleEmbeddings.CountVectorNonNegative | server/rag/simpleEmbeddings.js:29-32 | no count is negative |
| SimpleEmbeddings.ZeroMagnitudeIffNoTokens | server/rag/simpleEmbeddings.js:19-23 | the count vector's sum of squares, which `normalize` takes the root of, is zero exactly when the text has no tokens, and the vector is then all zeros |
| Loader.FlattenLineCount | server/rag/loader.js:14-31 | `flattenObject` yields one line per leaf (`null` leaves yield none) |
| Loader.FlattenStartsWithPrefix | server/rag/loader.js:14-31 | every line starts with the prefix it was flattened under |
| Loader.ArrayElementLines | server/rag/loader.js:21-25 | an array's lines are those of its earlier elements, then those of element `n` under `prefix[n]` (1-based) |
| Loader.ObjectMemberLines | server/rag/loader.js:27-30 | an object's lines are those of its earlier members, then those of the new member under `prefix.key` (or `key` at the top) |
| Loader.JsonTextHasNoUnderscore | server/rag/loader.js:48-50 | the text made from a JSON file has no underscore left |
| Loader.ToDocumentInput | server/rag/loader.js:41-55 | it fails exactly for a `.json` file that does not parse; JSON files become flattened text typed `json`, and other files keep their raw text, typed by their extension |
| Loader.ExtName | server/rag/loader.js:42 | the extension is non-empty exactly when the name is not `..` and has a dot after its first character, and it is then the name's final `.`-suffix without another dot |
| Loader.SelectedFilesAreSelected | server/rag/loader.js:63-69 | a file is read exactly when it comes from a directory entry that is a file with a supported extension |
| Loader.SelectedFilesAppend | server/rag/loader.js:63-69 | one more listed entry adds its file at the end exactly when it is selected, so files are read in listing order |
| Loader.InputsOfSuccess | server/rag/loader.js:57-72 | collection succeeds exactly when every selected file converts, and then the inputs are their conversions, in order |
| Loader.InputsOfAbort | server/rag/loader.js:68 | once one file fails, no later file can change the outcome |
| Loader.CollectKnowledgeFiles | server/rag/loader.js:57-72 | the loop returns the main file's input followed by the selected files' inputs, or the first conversion error |
| Loader.UnreadableDirectoryKeepsMain | server/rag/loader.js:33-39 | an unreadable knowledge directory counts as empty: only the main file is collected |
| Loader.LoadCollegeDocuments | server/rag/loader.js:80-88 | the loop returns the chunks of each input, input after input |
| Loader.AllChunksFromInputs | server/rag/loader.js:83-86 | every chunk comes from some input, and every chunk of every input is kept |
| Loader.AllChunksAppend | server/rag/loader.js:83-86 | chunking two batches of inputs gives the first batch's chunks, then the second's |
| Llm.PartTexts | server/services/llm.js:36-40 | each content part contributes its string, its `text` when typed `text`, or nothing |
| Llm.ChunkToText | server/services/llm.js:30-45 | string content is returned as is; missing and non-array content give `""` |
| Llm.ChunkToTextAppendPart | server/services/llm.js:34-42 | array content is the parts' texts joined in order |
| Llm.OtherPartsContributeNothing | server/services/llm.js:38-39 | removing a part that is neither a string nor typed `text` does not change the text |
| Llm.ClassifyIgnoresCase | server/services/llm.js:57-58 | a reply containing "college" in any letter case classifies as `college` |
| Llm.ClassifyWithoutC | server/services/llm.js:57-58 | a reply with no `c` or `C` classifies as `general` |
| Text.NonEmpty | server/rag/simpleEmbeddings.js:8 | `filter(Boolean)` keeps only non-empty strings, each taken from the input, and no more of them than there were |
| Text.NonEmptyAppend | server/rag/simpleEmbeddings.js:8 | filtering two lists appended is filtering each and appending, so the order is kept |
| Llm.Relay | server/services/llm.js:61-67 | the fragments yielded are non-empty, and there are no more of them than chunks |
| Llm.RelayIsNonEmptyTexts | server/services/llm.js:61-67 | the fragments yielded are the chunk texts, in chunk order, with exactly the empty ones dropped (the same `filter(Boolean)` as tokenising) |
| Llm.RelayConcat | server/services/llm.js:61-67 | dropping empty fragments loses no text: the fragments put together equal all the chunks' texts put together |
| Llm.StreamModelText | server/services/llm.js:61-67 | the loop yields exactly the non-empty chunk texts, in order |
| Llm.Respond | server/services/llm.js:69-115 | a token is emitted exactly when the API key is set; the intro line is always first; no token is empty; retrieval happens only for `college`; whatever follows the intro is the relayed generation |
| Llm.StreamAssistantResponse | server/services/llm.js:69-115 | the imperative orchestrator produces exactly the run `Respond` specifies |
| Llm.MissingKeyEmitsNothing | server/services/llm.js:10-13 | without an API key nothing is emitted and the call fails |
| Llm.IntroPrecedesClassifier | server/services/llm.js:71-73 | the intro is emitted before classification, so a failing classifier leaves exactly the intro |
| Llm.GeneralPathRelays | server/services/llm.js:75-89 | a general question sends the general prompt, emits the intro and then the generation's text, never retrieves, and fails exactly when the generation fails |
| Llm.CollegePathUninitialised | server/services/llm.js:91 | a college question before the knowledge base is built fails after the intro |
| Llm.FallbackIffBlankContext | server/services/llm.js:93-98 | the fixed fallback answer is given, with no model call, exactly when every retrieved page is blank |
| Llm.CollegePromptCarriesContext | server/services/llm.js:100-114 | with some non-blank page, the responder gets the college prompt with the question and the pages joined by blank lines |
| ChatRoute.ValidateMessage | server/routes/chat.js:15-19 | a message is accepted exactly when it is a string that is not whitespace only, and then it is trimmed |
| ChatRoute.SseWrites | server/routes/chat.js:6-12 | a frame is an `event:` line and then a `data:` line ending in a blank line |
| ChatRoute.WritesOfFrame | server/routes/chat.js:6-12 | each frame owns two consecutive writes, in frame order |
| ChatRoute.SseResponse.constructor | server/routes/chat.js:27 | a response starts with nothing written, not ended, client present |
| ChatRoute.SseResponse.Disconnect | server/routes/chat.js:27-33 | a disconnect sets the flag and writes nothing |
| ChatRoute.SseResponse.WriteSse | server/routes/chat.js:6-12 | `writeSse` appends one frame's two writes |
| ChatRoute.SseResponse.OnToken | server/routes/chat.js:38-42 | a token frame is written only while the client is there and the response is open |
| ChatRoute.SseResponse.Complete | server/routes/chat.js:45-48 | a `done` frame and the end of the response, only while open |
| ChatRoute.SseResponse.Fail | server/routes/chat.js:49-56 | an `error` frame with the fixed message and the end of the response, only while open |
| ChatRoute.SseResponse.Finish | server/routes/chat.js:45-56 | at most one terminal frame is written, always last, and the response ends with it |
| ChatRoute.StreamFrames | server/routes/chat.js:36-56 | a request streams the tokens sent before the client left; if the client never left, it ends with `done` or `error` by the outcome |
| ChatRoute.OneTerminalFrame | server/routes/chat.js:45-56 | `done` and `error` never both appear, and a terminal frame is always the last one |
| ChatRoute.StreamRun | server/routes/chat.js:36-56 | replaying a run into a fresh response writes exactly those frames, and the response has ended exactly when the client stayed |
| ChatRoute.HandlePost | server/routes/chat.js:14-57 | an invalid message gets a 400 with the fixed JSON error; otherwise the trimmed message's run is streamed with every write gated |
| ChatPage.LastAssistant | client/pages/ChatPage.jsx:16-21 | finds the last assistant message, or reports that there is none |
| ChatPage.AppendAssistantToken | client/pages/ChatPage.jsx:14-24 | the backward scan extends the last assistant message, or appends a new assistant message holding the token |
| ChatPage.TokenTargetIsStable | client/pages/ChatPage.jsx:14-24 | the message a token went to stays the last assistant message, and nothing else changes |
| ChatPage.TokensAccumulate | client/pages/ChatPage.jsx:14-24 | a stream of tokens extends the last assistant message by their concatenation and leaves the rest alone |
| ChatPage.AnswerFillsBubble | client/pages/ChatPage.jsx:68 | the empty assistant bubble added before reading ends up holding exactly the tokens received, put together |
| ChatPage.BreakAt | client/pages/ChatPage.jsx:43 | `\r?\n` matches a line feed, optionally preceded by a carriage return |
| ChatPage.MatchAt | client/pages/ChatPage.jsx:39 | `\r?\n\r?\n` matches two such line breaks in a row |
| ChatPage.SeparatorMatches | client/pages/ChatPage.jsx:39 | what a match covers is one spelling of the pattern (`\n`, `\r\n`, or two of them for a blank line) |
| ChatPage.SpellingMatches | client/pages/ChatPage.jsx:39 | conversely, wherever a spelling of the pattern occurs, the pattern matches exactly that spelling |
| ChatPage.NoMatchIffNoSpelling | client/pages/ChatPage.jsx:39 | a string holds no match exactly when no spelling of the pattern occurs in it |
| ChatPage.FirstMatch | client/pages/ChatPage.jsx:39 | the split finds the leftmost match |
| ChatPage.SplitPieces | client/pages/ChatPage.jsx:39 | no piece of a split contains the separator, and each removed separator is one whole match |
| ChatPage.SplitRejoins | client/pages/ChatPage.jsx:39 | the pieces with the separators put back are the original text |
| ChatPage.SplitCutsLeftmost | client/pages/ChatPage.jsx:39 | every cut is at the leftmost match: no match in the text starts inside the span of any piece |
| ChatPage.FindLine | client/pages/ChatPage.jsx:44-45 | `find` returns the first line with the prefix, or nothing if no line has it |
| ChatPage.ApplyFrame | client/pages/ChatPage.jsx:42-55 | a frame without an `event:` or a `data:` line, or with unparseable data, is skipped |
| ChatPage.Dispatch | client/pages/ChatPage.jsx:56-58 | `token`, `error` and `done` fire their own callback; other events are skipped; a `null` payload throws for `token` and `error`; `onToken` gets the `token` property or `""` when it is missing or falsy, and `onError` the `error` property or `"Streaming failed"` |
| ChatPage.Effects | client/pages/ChatPage.jsx:42 | every complete frame is processed, in order |
| ChatPage.RunEffects | client/pages/ChatPage.jsx:42-59 | the run throws exactly when some frame throws; the callbacks are those of the frames that fire, in frame order, up to the first frame that throws |
| ChatPage.RunEffectsAppend | client/pages/ChatPage.jsx:42-59 | processing two batches of frames is processing the first, then the second unless the first threw |
| ChatPage.UnterminatedTail | client/pages/ChatPage.jsx:38-40 | the last piece of the split holds no blank line, and the complete frames, the separators and it put back together are all the text received |
| ChatPage.ParseAndApplySse | client/pages/ChatPage.jsx:37-62 | it throws exactly when a complete frame throws, after the callbacks of the frames before it; otherwise every complete frame's callback runs in order, and the buffer returned holds no blank line and, with the frames and separators, rebuilds the text received |
| Protocol.BodyFront | server/routes/chat.js:6-12 | on the wire, each frame is its head followed by one blank line |
| Protocol.SplitAfterHead | client/pages/ChatPage.jsx:39 | the page's split cuts the stream exactly at the blank line after each frame |
| Protocol.BodySplitsIntoHeads | client/pages/ChatPage.jsx:38-40 | the route's bytes split into the frames' heads and an empty tail |
| Protocol.HeadLines | client/pages/ChatPage.jsx:43 | a frame's head splits into its `event:` line and its `data:` line |
| Protocol.HeadReadsBack | client/pages/ChatPage.jsx:43-58 | the page reads back the event name and payload of each frame the route wrote |
| Protocol.ServerFramesClean | server/routes/chat.js:40 | token, `done` and `error` frames have single-line, unpadded event names and payloads |
| Protocol.ServerFramesDispatch | client/pages/ChatPage.jsx:56-58 | a token frame fires `onToken` with its token, `done` fires `onDone`, and the route's error frame fires `onError` with its message |
| Protocol.ClientReadsServerStream | client/pages/ChatPage.jsx:37-62 | the bytes of a request, parsed from an empty buffer, give the delivered tokens in order, then `done` or the route's error if the client stayed; nothing throws and nothing is left buffered |

## Left out

- `normalize` (`simpleEmbeddings.js`) divides by a floating-point square root. The model stops at the integer bucket counts. It proves only that the magnitude is zero exactly when there are no tokens.
- `embedDocuments` and `embedQuery` are one-line maps over `embed`. Nothing is proved about them beyond `BucketCounts`.
- The vector store and its similarity ranking are not part of this model. The retriever's pages are an input (`Retrieval`). An uninitialised retriever is the `Uninitialised` case of that input.
- `RecursiveCharacterTextSplitter` is a library. Its chunking is the `split` parameter of `LoadCollegeDocuments`.
- File reads, `readdir`, `path.join`, `path.relative` and `fileURLToPath` are not modelled. A file is a record holding its relative source, its extension, its raw text and, for JSON, the parsed value or `None`. The directory listing is `None` when it cannot be read.
- `JSON.parse` is not modelled. In the loader, a file's parsed value is given. On the page, it is the `parse` parameter, and the end-to-end lemma requires only that it reads back the route's three payload shapes.
- Strings are sequences of Unicode scalar values, while JavaScript strings are UTF-16 code units. A lone surrogate cannot be represented: a message such as `{"message":"\ud800"}`, which server/routes/chat.js:17 accepts, has no counterpart, and `Json.DecodeUnit` rejects a lone `\uD800` escape that `JSON.parse` accepts. No proved property depends on this.
- JSON numbers keep their textual form. `String(value)` and `JSON.stringify` of a number are that text.
- `toLowerCase` is modelled for ASCII, U+212A KELVIN SIGN and U+0130. These are the only characters whose lower case contains an ASCII letter, so tokenising, classification and extension matching are exact. Other characters are left as they are.
- The Groq clients, the model name, temperatures and the environment variables are not modelled. Only `GROQ_API_KEY` being set or not matters (`hasApiKey`). The classifier's reply is an input, and so is each prompt's generation: its chunks and whether the stream then fails.
- Express headers, `flushHeaders`, `res.flush` and `console.error` are not modelled. They do not change what is written.
- `createMessage`'s id comes from the clock and a random number. It is the `freshId` parameter.
- `sendMessage` is not modelled beyond the empty bubble it adds. This leaves out `fetch`, the reader loop, `TextDecoder`, React state and the UI components.
- Concurrency is not modelled. The orchestrator's run is computed whole, then replayed into the response with the disconnect between two tokens. This is faithful because the code never stops the generator on a disconnect; it only stops writing.
- ChatRoute.HandlePost: it does not claim that a disconnect stops the generator. In server/routes/chat.js:35-55 the disconnect flag only guards each write; `streamAssistantResponse` runs to its end regardless, and the model follows that.
- Loader.CollectKnowledgeFiles: it does not claim that a malformed supplementary JSON file is skipped. In server/rag/loader.js:47 and 68, `JSON.parse` throws out of `toDocumentInput` and then out of `collectKnowledgeFiles`, so the whole ingestion aborts. The model returns that first error.
- The end-to-end lemma delivers the whole stream to `parseAndApplySse` in one chunk. Delivery in several network chunks is not covered.
