# llm-prompt-stream: the buffering re-chunker, in Dafny

`streamPrompt` (src/utils.ts) turns a stream of LLM completion fragments into
display-friendly chunks. It appends each non-empty fragment to a `buffer` and
cuts the buffer with the zero-width lookahead
`/(?=\n|^#{1,4}|\s-\s|\n\s\*\s|\n\d+\.\s)/`. It enqueues every piece except a
trailing piece that does not end in a line feed, which it holds back as the new
buffer. At the end it enqueues the leftover buffer and then the event-stream
terminator `"event: done\n\n"`. `parseMarkdownToCompletions` turns a markdown
text into completion chunks, one per non-blank line. `stringChunks`
(src/test/streamPrompt.test.ts) slices a text into fixed-size fragments, which
the tests feed to `streamPrompt`.

The project has four modules:

- `JsStrings` (js_strings.dfy) holds the ECMAScript string operations the code
  relies on:
  - white space as `\s` and `trim()` see it;
  - `join("")`, `endsWith("\n")` and `trim()`;
  - `split("\n")` and its inverse `join("\n")`.
- `RegexSplit` (regex_split.dfy) holds `buffer.split(regex)`. `Split` follows
  the `RegExp.prototype[@@split]` loop of ECMA-262 (section 22.2.6.14) over
  all five lookahead alternatives. `Bounds`/`Slices` is an independent
  reference: cut at each index from 1 to len(s) - 1 that holds a line feed or starts a
  white space, dash, white space triple. The lemmas prove the loop and the
  reference agree.
- `Utils` (utils.dfy) holds `streamPrompt` in two forms:
  - a state machine on values (`Rechunker`, `Step`, `Drain`, `Close`, `Output`), which carries the proofs;
  - the imperative code (`StreamPrompt`, `OnContent`, `ForEachPiece`), proved equal to the state machine.

  The write-only accumulators `rawTotalResponse` and `totalFormattedResponse`
  are ghost variables whose invariant is proved. The module also holds
  `parseMarkdownToCompletions`, a pure filter/map over `SplitLines`, and the
  end-to-end result of streaming its output.
- `StreamPromptTest` (stream_prompt_test.dfy) holds:
  - `stringChunks`: its loop, the function `Chunks` that specifies it, and the slicing lemmas;
  - the `"event: done"` expectation, stated for every fragmentation;
  - the concrete `"Hello world.\n"` scenario.

The controller is modelled as the sequence of strings enqueued, in order. A
completion is modelled as the finite sequence of its
`chunk.choices[0]?.delta?.content` values (`Option<string>`). `readStream`
concatenates what the stream yields, which is `Concat` of that sequence.

What the code does, and what the test file expects of it:

- **No fence or table classifier.** src/utils.ts cuts the buffer only with the
  lookahead pattern and never keeps a code block or a table together. By
  `Utils.OutputSpec`, every chunk before the terminator holds a line feed at
  most as its first character. So no chunk holds both "```js" and
  "const x = 1;", and no chunk holds both "| A | B |" and "| 3 | 4 |". The
  tests at src/test/streamPrompt.test.ts:23-79 expect such chunks, but they
  import `streamPrompt` from src/index, which is not part of this model.
- **"Hello world.\n" yields three chunks.** The single content
  "Hello world.\n" comes out as "Hello world.", then the lone line feed, then
  the terminator (`StreamPromptTest.HelloWorld`). The test at
  src/test/streamPrompt.test.ts:96-104 only asks that the result contain
  "event: done", which holds.
- **The tests feed bare strings.** The test generators yield bare strings. In
  src/utils.ts `chunk.choices[0]` would throw on those. The model feeds each
  fragment as the content of a completion chunk (`AsCompletion`), the shape
  `parseMarkdownToCompletions` yields.

## Model

| member | source | states |
|---|---|---|
| `JsStrings.IsSpace` | src/utils.ts:70 | the ECMAScript WhiteSpace and LineTerminator code points that `\s` matches and `trim()` strips; characterized for `trim()` by `JsStrings.TrimEmptyIffBlank` and for the pattern by `RegexSplit.LookaheadIsCut` |
| `JsStrings.EndsWithNewline` | src/utils.ts:28 | `line.endsWith("\n")`, tested on the last character, agrees with the ECMAScript definition of `endsWith`: the last len(suffix) characters equal the suffix |
| `JsStrings.TrimStart` | src/utils.ts:70 | the white space at the front of the line removed; what is left is no longer than the line and does not start with white space |
| `JsStrings.TrimEnd` | src/utils.ts:70 | the white space at the back removed; what is left is no longer than its input, keeps the first character and does not end with white space |
| `JsStrings.Trim` | src/utils.ts:70 | `line.trim()`: no longer than the line, and a non-empty result neither starts nor ends with white space |
| `JsStrings.TrimEmptyIffBlank` | src/utils.ts:70 | `line.trim()` is falsy exactly when every character of the line is ECMAScript white space, in both directions |
| `JsStrings.SplitLines` | src/utils.ts:68 | `markdown.split("\n")`: the runs between line feeds; there is always at least one, even for the empty text |
| `JsStrings.SplitLinesNoNewline` | src/utils.ts:68 | no element of `markdown.split("\n")` contains a line feed |
| `JsStrings.SplitLinesRoundTrip` | src/utils.ts:68 | joining the elements of `s.split("\n")` with line feeds gives back `s` |
| `JsStrings.JoinLinesRoundTrip` | src/utils.ts:68 | the other direction: a non-empty list of line-feed-free lines survives a join then a split |
| `JsStrings.LoneNewline` | src/utils.ts:28 | a piece whose only possible line feed is its first character ends with "\n" exactly when it is "\n" |
| `RegexSplit.Split` | src/utils.ts:24 | `buffer.split(regex)` by the @@split loop: always at least one piece; for a non-empty buffer the first piece is non-empty and there are no more pieces than characters |
| `RegexSplit.SplitFrom` | src/utils.ts:24 | the @@split loop with the current piece starting at p: at least one piece, the first non-empty, at most one piece per character from p on |
| `RegexSplit.LookaheadAt` | src/utils.ts:24 | the zero-width lookahead of the split pattern tried at an index, one predicate per alternative (line feed, `^#{1,4}`, `\s-\s`, `\n\s\*\s`, `\n\d+\.\s`); characterized by `RegexSplit.LookaheadIsCut` |
| `RegexSplit.LookaheadIsCut` | src/utils.ts:24 | at an index from 1 to len(s) - 1, some of the five lookahead alternatives matches exactly when a line feed is there or a white space, dash, white space triple starts there; `^#{1,4}`, `\n\s\*\s` and `\n\d+\.\s` add nothing |
| `RegexSplit.SplitCutsExactly` | src/utils.ts:24 | the cut indices of a non-empty buffer are strictly ascending from 0 to len(s); an index i with 0 < i < len(s) is a cut exactly when it holds "\n" or starts a white space, dash, white space triple; the pieces are the slices between consecutive cuts |
| `RegexSplit.SplitRoundTrip` | src/utils.ts:24-25 | the pieces concatenate back to the buffer, so clearing the buffer after the split loses nothing |
| `RegexSplit.SplitPieces` | src/utils.ts:24 | a non-empty buffer splits into at least one piece; no piece is empty, and inside a piece a line feed can only be the first character |
| `RegexSplit.SplitLastPiece` | src/utils.ts:24-28 | the last piece is a lone "\n" exactly when the buffer ends with a line feed |
| `RegexSplit.SkipRun` | src/utils.ts:24 | the split loop walks over a stretch without cut indices without producing a piece |
| `Utils.IsTruthy` | src/utils.ts:18-20 | `if (content)` on `choices[0]?.delta?.content`: absent content and "" are falsy; what this means for the stream is stated by `Utils.StepSpec` (a falsy content leaves the state unchanged) and `Utils.OnContent` |
| `Utils.Dispatch` | src/utils.ts:27-34 | the `forEach` decision: either every piece goes out and nothing is kept, or all but the last go out and the last is kept; what is kept never ends in "\n" |
| `Utils.DispatchSplit` | src/utils.ts:24-34 | for a non-empty buffer, the pieces sent are non-empty with a line feed at most in front, the kept piece is a valid buffer, sent plus kept is the buffer, and nothing is kept exactly when the buffer ends in "\n" |
| `Utils.Step` | src/utils.ts:18-34 | one fragment: the queue only grows at its end; a falsy content changes nothing; after a truthy content the buffer does not end in "\n" |
| `Utils.Drain` | src/utils.ts:17-36 | the `for await` loop: the queue only grows at its end, and a buffer that does not end in "\n" never comes to end in one |
| `Utils.Flush` | src/utils.ts:38-41 | `if (buffer)`: at most one chunk, never empty, holding exactly the leftover buffer |
| `Utils.Close` | src/utils.ts:38-45 | after the loop the queued chunks stay in front and the last chunk is "event: done\n\n" |
| `Utils.Output` | src/utils.ts:8-47 | what the stream yields is never empty and ends with "event: done\n\n" |
| `Utils.DispatchHoldsBack` | src/utils.ts:25-34 | the `forEach` hold-back: all pieces go out iff the last ends with "\n"; otherwise all but the last go out in order and the last becomes the buffer. The new buffer is empty iff the last piece is "\n" and never ends with "\n"; sent plus kept equals the pieces joined |
| `Utils.StepSpec` | src/utils.ts:18-34 | one fragment: a falsy content (absent or "") leaves queue and buffer unchanged; a truthy one keeps the state valid and only appends to the queue. Enqueued text plus buffer grows by exactly the content; the buffer is emptied iff old buffer + content ends with "\n" |
| `Utils.DrainSpec` | src/utils.ts:17-36 | over any run of fragments the state stays valid, the queue only grows, and enqueued text plus buffer grows by exactly the fragments' text |
| `Utils.DrainedPieces` | src/utils.ts:17-41 | everything enqueued before the terminator, including the flushed buffer, concatenates to all the contents; each such chunk is non-empty with a line feed at most in front |
| `Utils.DoneIsNoPiece` | src/utils.ts:43 | the terminator "event: done\n\n" has a line feed past its first character, so no split piece can equal it |
| `Utils.OutputSpec` | src/utils.ts:38-45 | the output ends with "event: done\n\n" and holds it only there; every earlier chunk is non-empty with a line feed at most in front; the earlier chunks concatenate to all the contents; the whole output is the contents followed by the terminator |
| `Utils.ForEachPiece` | src/utils.ts:27-34 | the `forEach` loop enqueues exactly the pieces the hold-back rule sends, after what was enqueued before, and returns the held-back piece as the buffer; `totalFormattedResponse` grows by exactly the enqueued text |
| `Utils.ReadStep` | src/utils.ts:17-22 | one turn of the `for await` loop continues the run from `Step`, keeps the state valid, and grows `rawTotalResponse` (enqueued text plus buffer) by the content's text |
| `Utils.OnContent` | src/utils.ts:18-35 | the loop body for one chunk leaves the queue and buffer `Step` prescribes, adds the content to `rawTotalResponse`, and keeps `totalFormattedResponse` equal to the enqueued text |
| `Utils.StreamPrompt` | src/utils.ts:8-47 | the imperative `streamPrompt` enqueues exactly `Output(completion)`; its last chunk is the terminator and the chunks concatenate to all contents followed by the terminator; its loop invariant keeps `totalFormattedResponse + buffer == rawTotalResponse`, and after the flush the two accumulators are equal |
| `Utils.FlushingStep` | src/utils.ts:20-34 | a fragment ending with a line feed, read with an empty buffer, is enqueued whole (all its pieces) and leaves the buffer empty |
| `Utils.CompletionItems` | src/utils.ts:69-73 | the `for (const line of lines)` loop yields at most one item per line, and every item is truthy and ends with "\n" |
| `Utils.ParseMarkdownToCompletions` | src/utils.ts:67-75 | the generator yields at least one item and at most one per line plus the final one; the final item is the empty content and every earlier item is truthy |
| `Utils.ItemsCons` | src/utils.ts:69-72 | a line yields the item `line + "\n"` exactly when it is not white space only |
| `Utils.CompletionItemsSpec` | src/utils.ts:68-73 | the generator loop yields one item per non-blank line, in order, and item k is the k-th non-blank line followed by "\n" |
| `Utils.ParseMarkdownSpec` | src/utils.ts:67-75 | the item count is the number of non-blank lines plus one; the last item is the empty content; every other item is a non-blank line plus "\n" and is truthy; a line is kept iff it is an element of `markdown.split("\n")` that is not white space only |
| `Utils.DrainCons` | src/utils.ts:17-36 | the `for await` loop handles the first content first and continues from the state it leaves |
| `Utils.KeptLine` | src/utils.ts:69-72 | a non-blank line in front yields its item `line + "\n"` first, and its pieces come first among the pieces of the non-blank lines |
| `Utils.DroppedLine` | src/utils.ts:70 | a white-space-only line in front yields no item and is not among the non-blank lines |
| `Utils.DrainLines` | src/utils.ts:17-36 | streaming the generator's items from an empty buffer enqueues the pieces of each non-blank line with its line feed, in order, and leaves the buffer empty; the final "" item is dropped by `if (content)` |
| `Utils.ConcatSplitEach` | src/utils.ts:24 | the pieces of the lines concatenate to the lines, each followed by a line feed |
| `Utils.CloseEmpty` | src/utils.ts:38-43 | with an empty buffer after the loop, only the terminator follows the queued chunks |
| `Utils.StreamParsedMarkdown` | src/utils.ts:8-75 | `streamPrompt(parseMarkdownToCompletions(md))` yields the pieces of each non-blank line plus "\n", then the terminator; written out, that is the non-blank lines each followed by "\n", then "event: done\n\n" |
| `StreamPromptTest.Chunks` | src/test/streamPrompt.test.ts:5-9 | the slices `stringChunks(text, n)` yields: n characters each from the front, the last one possibly shorter; its properties are stated by `ChunksJoin`, `ChunksCount`, `ChunksSizes` and `ChunkAt` |
| `StreamPromptTest.ChunksJoin` | src/test/streamPrompt.test.ts:5-8 | the slices yielded by `stringChunks(text, n)` concatenate back to `text` |
| `StreamPromptTest.ChunksCount` | src/test/streamPrompt.test.ts:6-7 | there are no slices exactly for the empty text; otherwise (count - 1) * n < len(text) <= count * n, i.e. count = ceil(len(text) / n) |
| `StreamPromptTest.ChunksSizes` | src/test/streamPrompt.test.ts:6-7 | every slice is non-empty and at most n long; every slice except the last is exactly n long |
| `StreamPromptTest.SliceStartProduct` | src/test/streamPrompt.test.ts:6 | after k steps of `i += chunkSize`, `i` is k * n |
| `StreamPromptTest.ChunkAt` | src/test/streamPrompt.test.ts:6-7 | slice k starts inside the text and is `text.slice(i, i + n)` for the k-th `i` |
| `StreamPromptTest.ChunksAt` | src/test/streamPrompt.test.ts:6-7 | the same for every slice at once |
| `StreamPromptTest.ChunksFrom` | src/test/streamPrompt.test.ts:6-7 | one turn of the loop: the slices from `i` on are `text.slice(i, i + n)` followed by the slices from `i + n` on |
| `StreamPromptTest.StringChunks` | src/test/streamPrompt.test.ts:5-9 | the generator loop with default chunk size 80 yields exactly `Chunks(text, n)`, which concatenate back to `text` |
| `StreamPromptTest.AllTextFragments` | src/test/streamPrompt.test.ts:14 | fed as completion contents, the fragments' text is their concatenation |
| `StreamPromptTest.AnyFragmentationEndsWithDone` | src/test/streamPrompt.test.ts:14-20 | whatever the chunk size, streaming the slices of a text ends with the terminator; everything read is the text followed by "event: done\n\n", which starts with "event: done" |
| `StreamPromptTest.BlockquoteScenario` | src/test/streamPrompt.test.ts:81-94 | the blockquote text fed in slices of 10 characters reads back whole, followed by "event: done\n\n" |
| `StreamPromptTest.BlockquoteLines` | src/test/streamPrompt.test.ts:91-92 | the blockquote text holds "> This is a quote." and "> Second line of quote.", so the read result does too |
| `StreamPromptTest.HelloWorldSplit` | src/test/streamPrompt.test.ts:96-99 | the pattern cuts "Hello world.\n" only in front of its line feed |
| `StreamPromptTest.HelloWorld` | src/test/streamPrompt.test.ts:96-104 | the single content "Hello world.\n" yields "Hello world.", "\n", "event: done\n\n", in that order |

## Left out

- `setUpCompletionForStream`, the OpenAI client, `dotenv` and `openAIKey` (src/utils.ts:1-6, 54-65): network client and environment configuration.
- `readStream` (src/utils.ts:77-99): it reads, decodes and logs a `ReadableStream`, which is I/O. Reading the stream to the end is modelled as the concatenation `Concat` of the enqueued chunks.
- `ReadableStream`, `controller.close()`, `TextEncoder` and the `for await` suspension: async machinery and byte encoding. The stream is the sequence of strings enqueued, the completion a finite sequence, and UTF-8 encoding is not modelled.
- The `try`/`catch` around the stream constructor (src/utils.ts:13, 49-51): the model has no exceptions. A chunk without `choices`, which would throw inside `start`, is not modelled.
- A truthy `content` that is not a string (a number, an object): the model types content as `Option<string>`, so string conversion by `+=` is not modelled.
- Characters are Unicode scalar values, while JavaScript strings are UTF-16 code units. A surrogate pair that `stringChunks` cuts in two, and `\s`/`trim()` on lone surrogates, are not modelled. `IsSpace` is written out as the ECMAScript WhiteSpace and LineTerminator code points.
- The ECMAScript `split` limit of 2^32 - 1 pieces: lengths are unbounded here.
- StreamPromptTest.StringChunks: requires `chunkSize > 0` for a non-empty text, because with `chunkSize <= 0` the source loop never ends.
- Code-fence and table atomicity (src/test/streamPrompt.test.ts:23-79): the tests expect these of src/index, which is not part of this model, and src/utils.ts does not provide them (see `Utils.OutputSpec` above). The blockquote expectations (src/test/streamPrompt.test.ts:81-94) hold of src/utils.ts when each fragment is fed as a completion content (`AsCompletion`), by `StreamPromptTest.BlockquoteScenario` and `StreamPromptTest.BlockquoteLines`.
- The first scenario's expectations "- Bullet point" and "# Heading " (src/test/streamPrompt.test.ts:12-21) depend on src/test/mocks/mockMd.ts, which is not part of this model. Its "event: done" expectation holds of src/utils.ts when each fragment is fed as a completion content (`AsCompletion`), by `StreamPromptTest.AnyFragmentationEndsWithDone`.
- The vitest harness (`describe`, `it`, `expect`).
