/** `streamPrompt` and `parseMarkdownToCompletions` of src/utils.ts.

    `streamPrompt` reads the text fragments of a completion in order, keeps an
    unfinished tail in `buffer`, cuts the buffer with the lookahead pattern of
    `RegexSplit`, hands every finished piece to the stream controller and, at the
    end, the leftover tail and the event-stream terminator `"event: done\n\n"`
    (an `event` field line and the blank line that ends an event in the
    event-stream format of section 9.2 of the WHATWG HTML Living Standard).

    The controller is modelled by the sequence of strings enqueued, in order; the
    completion by the finite sequence of `choices[0]?.delta?.content` values. */
module Utils {
  import opened JsStrings
  import opened RegexSplit

  datatype Option<T> = None | Some(value: T)

  /** The terminator enqueued after the last piece. */
  const Done: string := "event: done\n\n"

  /** `if (content)`: absent content and the empty string are both falsy. */
  predicate IsTruthy(content: Option<string>) {
    content.Some? && content.value != ""
  }

  /** What a content adds to `rawTotalResponse`. */
  function Text(content: Option<string>): string {
    if IsTruthy(content) then content.value else ""
  }

  /** `rawTotalResponse` after a whole run of contents. */
  function AllText(completion: seq<Option<string>>): string {
    if completion == [] then "" else Text(completion[0]) + AllText(completion[1..])
  }

  // ---------------------------------------------------------------------------
  // The state machine that `streamPrompt` runs, as functions.

  /** What `streamPrompt` keeps between fragments: the strings handed to the
      controller so far, in order, and the held-back `buffer`.
      `totalFormattedResponse` is `Concat(queue)` and `rawTotalResponse` is
      `Concat(queue) + buffer`. */
  datatype Rechunker = Rechunker(queue: seq<string>, buffer: string)

  const Start: Rechunker := Rechunker([], "")

  /** The `lines.forEach` decision: every piece goes out except a last piece
      that does not end in a line feed, which is kept. */
  function Dispatch(lines: seq<string>): (r: (seq<string>, string))
    ensures !EndsWithNewline(r.1)
    ensures lines == r.0 || lines == r.0 + [r.1]
    ensures r.0 == lines ==> r.1 == ""
  {
    if lines == [] then ([], "")
    else if EndsWithNewline(lines[|lines| - 1]) then (lines, "")
    else (lines[..|lines| - 1], lines[|lines| - 1])
  }

  /** One iteration of the `for await` loop. */
  function Step(st: Rechunker, content: Option<string>): (next: Rechunker)
    ensures st.queue <= next.queue
    ensures !IsTruthy(content) ==> next == st
    ensures IsTruthy(content) ==> !EndsWithNewline(next.buffer)
  {
    if IsTruthy(content) then
      var (out, held) := Dispatch(Split(st.buffer + content.value));
      Rechunker(st.queue + out, held)
    else st
  }

  /** The `for await` loop over the remaining contents. */
  function Drain(st: Rechunker, contents: seq<Option<string>>): (end: Rechunker)
    ensures st.queue <= end.queue
    ensures !EndsWithNewline(st.buffer) ==> !EndsWithNewline(end.buffer)
    decreases |contents|
  {
    if contents == [] then st else Drain(Step(st, contents[0]), contents[1..])
  }

  /** `if (buffer)` after the loop: the leftover buffer, if any. */
  function Flush(st: Rechunker): (rest: seq<string>)
    ensures |rest| <= 1 && Concat(rest) == st.buffer
    ensures forall k :: 0 <= k < |rest| ==> rest[k] != ""
  {
    if st.buffer != "" then [st.buffer] else []
  }

  /** After the loop: the leftover buffer if it is not empty, then the terminator. */
  function Close(st: Rechunker): (out: seq<string>)
    ensures st.queue <= out && |out| >= |st.queue| + 1
    ensures out[|out| - 1] == Done
  {
    st.queue + Flush(st) + [Done]
  }

  /** Everything the stream yields for a completion, in order. */
  function Output(completion: seq<Option<string>>): (out: seq<string>)
    ensures |out| >= 1 && out[|out| - 1] == Done
  {
    Close(Drain(Start, completion))
  }

  /** What holds of the state after every fragment: each enqueued piece is
      non-empty and has a line feed at most as its first character, and so
      does the buffer, which never ends in a line feed. */
  ghost predicate Valid(st: Rechunker) {
    Pieces(st.queue) && NewlineOnlyFirst(st.buffer) && !EndsWithNewline(st.buffer)
  }

  /** Every string is non-empty with a line feed at most in front. */
  ghost predicate Pieces(q: seq<string>) {
    forall k :: 0 <= k < |q| ==> q[k] != "" && NewlineOnlyFirst(q[k])
  }

  lemma PiecesAppend(a: seq<string>, b: seq<string>)
    requires Pieces(a) && Pieces(b)
    ensures Pieces(a + b)
  {
    forall k | |a| <= k < |a + b| ensures (a + b)[k] == b[k - |a|] {
    }
  }

  /** The hold-back rule on the pieces of a non-empty buffer: the non-last
      pieces go out in order; the last goes out too if it ends in a line feed
      and is kept otherwise; nothing is lost; what is kept never ends in a line
      feed and is empty exactly when the last piece is a lone line feed. */
  lemma DispatchHoldsBack(lines: seq<string>)
    requires lines != []
    requires lines[|lines| - 1] != "" && NewlineOnlyFirst(lines[|lines| - 1])
    ensures Dispatch(lines).0 == lines <==> EndsWithNewline(lines[|lines| - 1])
    ensures !EndsWithNewline(lines[|lines| - 1]) ==>
              Dispatch(lines).0 == lines[..|lines| - 1] && Dispatch(lines).1 == lines[|lines| - 1]
    ensures Dispatch(lines).1 == "" <==> lines[|lines| - 1] == "\n"
    ensures Concat(Dispatch(lines).0) + Dispatch(lines).1 == Concat(lines)
    ensures !EndsWithNewline(Dispatch(lines).1)
  {
    var last := lines[|lines| - 1];
    LoneNewline(last);
    var (out, held) := Dispatch(lines);
    if EndsWithNewline(last) {
      assert out == lines && held == "";
    } else {
      assert out == lines[..|lines| - 1] && held == last;
      assert |out| < |lines|;
      assert lines == out + [last];
      ConcatAppend(out, [last]);
      assert Concat([last]) == last;
    }
  }

  /** The pieces of a non-empty buffer after the hold-back rule: what goes
      out is well-formed pieces, what is kept is a well-formed buffer, and
      the two join back to the buffer. */
  lemma DispatchSplit(s: string)
    requires s != ""
    ensures Pieces(Dispatch(Split(s)).0)
    ensures NewlineOnlyFirst(Dispatch(Split(s)).1) && !EndsWithNewline(Dispatch(Split(s)).1)
    ensures Concat(Dispatch(Split(s)).0) + Dispatch(Split(s)).1 == s
    ensures Dispatch(Split(s)).1 == "" <==> EndsWithNewline(s)
  {
    var lines := Split(s);
    SplitPieces(s);
    SplitRoundTrip(s);
    SplitLastPiece(s);
    DispatchHoldsBack(lines);
    var (out, held) := Dispatch(lines);
    assert Pieces(out) by {
      forall k | 0 <= k < |out| ensures out[k] == lines[k] {
      }
    }
  }

  /** One fragment: a falsy content changes nothing; a truthy one keeps the
      state valid, extends the queue, conserves the text, and leaves the buffer
      empty exactly when the old buffer followed by the content ends in a line
      feed. */
  lemma StepSpec(st: Rechunker, content: Option<string>)
    requires Valid(st)
    ensures !IsTruthy(content) ==> Step(st, content) == st
    ensures Valid(Step(st, content))
    ensures st.queue <= Step(st, content).queue
    ensures Concat(Step(st, content).queue) + Step(st, content).buffer
            == Concat(st.queue) + st.buffer + Text(content)
    ensures IsTruthy(content) ==>
              (Step(st, content).buffer == "" <==> EndsWithNewline(st.buffer + content.value))
  {
    if IsTruthy(content) {
      var s := st.buffer + content.value;
      DispatchSplit(s);
      var out, held := Dispatch(Split(s)).0, Dispatch(Split(s)).1;
      assert Step(st, content) == Rechunker(st.queue + out, held);
      assert Text(content) == content.value;
      PiecesAppend(st.queue, out);
      ConcatAppend(st.queue, out);
      AppendAssoc(Concat(st.queue), Concat(out), held);
    } else {
      assert Text(content) == "";
    }
  }

  /** The invariant and conservation over any run of fragments. */
  lemma {:induction false} DrainSpec(st: Rechunker, contents: seq<Option<string>>)
    requires Valid(st)
    ensures Valid(Drain(st, contents))
    ensures st.queue <= Drain(st, contents).queue
    ensures Concat(Drain(st, contents).queue) + Drain(st, contents).buffer
            == Concat(st.queue) + st.buffer + AllText(contents)
    decreases |contents|
  {
    if contents != [] {
      var next := Step(st, contents[0]);
      StepSpec(st, contents[0]);
      DrainSpec(next, contents[1..]);
      assert Drain(st, contents) == Drain(next, contents[1..]);
      AppendAssoc(Concat(st.queue) + st.buffer, Text(contents[0]), AllText(contents[1..]));
    }
  }

  /** The pieces enqueued before the terminator: all of the completion's
      text, each piece non-empty with a line feed at most in front. */
  lemma {:induction false} DrainedPieces(completion: seq<Option<string>>)
    ensures Concat(Drain(Start, completion).queue + Flush(Drain(Start, completion))) == AllText(completion)
    ensures forall k :: 0 <= k < |Drain(Start, completion).queue + Flush(Drain(Start, completion))| ==>
              (Drain(Start, completion).queue + Flush(Drain(Start, completion)))[k] != ""
              && NewlineOnlyFirst((Drain(Start, completion).queue + Flush(Drain(Start, completion)))[k])
  {
    DrainSpec(Start, completion);
    var st := Drain(Start, completion);
    var body := st.queue + Flush(st);
    ConcatAppend(st.queue, Flush(st));
    assert Concat(Flush(st)) == st.buffer;
    assert Concat(Start.queue) + Start.buffer + AllText(completion) == AllText(completion);
    forall k | 0 <= k < |body| ensures body[k] != "" && NewlineOnlyFirst(body[k]) {
      if k < |st.queue| {
        assert body[k] == st.queue[k];
      } else {
        assert body[k] == st.buffer;
      }
    }
  }

  /** The terminator is not a piece: it holds a line feed past its start. */
  lemma DoneIsNoPiece()
    ensures !NewlineOnlyFirst(Done)
  {
    assert Done[11] == '\n';
  }

  /** The whole output: the terminator comes last and only there (every other
      chunk is non-empty with a line feed at most in front, while the
      terminator holds one inside), and the chunks before it are exactly the
      concatenated contents. */
  lemma OutputSpec(completion: seq<Option<string>>)
    ensures |Output(completion)| >= 1
    ensures Output(completion)[|Output(completion)| - 1] == Done
    ensures forall k :: 0 <= k < |Output(completion)| - 1 ==>
              Output(completion)[k] != "" && NewlineOnlyFirst(Output(completion)[k])
              && Output(completion)[k] != Done
    ensures Concat(Output(completion)[..|Output(completion)| - 1]) == AllText(completion)
    ensures Concat(Output(completion)) == AllText(completion) + Done
  {
    DrainedPieces(completion);
    DoneIsNoPiece();
    var st := Drain(Start, completion);
    var body := st.queue + Flush(st);
    var out := Output(completion);
    assert out == body + [Done];
    assert out[..|out| - 1] == body;
    ConcatAppend(body, [Done]);
    assert Concat([Done]) == Done;
    forall k | 0 <= k < |out| - 1 ensures out[k] == body[k] {
    }
  }

  // ---------------------------------------------------------------------------
  // The imperative code.

  /** The `lines.forEach` callback run over the pieces of the buffer: every
      piece is enqueued (and added to `totalFormattedResponse`) except a last
      piece not ending in a line feed, which becomes the new buffer. */
  method ForEachPiece(lines: seq<string>, queued: seq<string>, ghost formatted: string)
    returns (chunks: seq<string>, buffer: string, ghost totalFormattedResponse: string)
    ensures chunks == queued + Dispatch(lines).0 && buffer == Dispatch(lines).1
    ensures totalFormattedResponse == formatted + Concat(Dispatch(lines).0)
  {
    chunks, buffer, totalFormattedResponse := queued, "", formatted;
    ghost var sent: seq<string> := [];
    for index := 0 to |lines|
      invariant chunks == queued + sent
      invariant index < |lines| ==> sent == lines[..index] && buffer == ""
      invariant index == |lines| ==> sent == Dispatch(lines).0 && buffer == Dispatch(lines).1
      invariant totalFormattedResponse == formatted + Concat(sent)
    {
      var line := lines[index];
      if index == |lines| - 1 && !EndsWithNewline(line) {
        buffer := line;
      } else {
        ConcatAppend(sent, [line]);
        assert Concat([line]) == line;
        AppendAssoc(formatted, Concat(sent), line);
        AppendAssoc(queued, sent, [line]);
        totalFormattedResponse := totalFormattedResponse + line;
        chunks := chunks + [line];
        sent := sent + [line];
      }
      assert lines[..index + 1] == lines[..index] + [line];
      assert index + 1 == |lines| ==> lines[..index + 1] == lines;
    }
  }

  /** One turn of the `for await` loop, in terms of the state machine: the
      rest of the run continues from `Step`, the state stays valid, and
      `rawTotalResponse`, which is what has been enqueued plus the buffer,
      grows by the content and still leads to the whole text. */
  lemma ReadStep(st: Rechunker, raw: string, completion: seq<Option<string>>, i: nat)
    requires i < |completion| && Valid(st)
    requires Concat(st.queue) + st.buffer == raw
    requires raw + AllText(completion[i..]) == AllText(completion)
    ensures Drain(st, completion[i..]) == Drain(Step(st, completion[i]), completion[i + 1..])
    ensures Valid(Step(st, completion[i]))
    ensures Concat(Step(st, completion[i]).queue) + Step(st, completion[i]).buffer == raw + Text(completion[i])
    ensures (raw + Text(completion[i])) + AllText(completion[i + 1..]) == AllText(completion)
  {
    StepSpec(st, completion[i]);
    assert completion[i..][1..] == completion[i + 1..];
    AppendAssoc(raw, Text(completion[i]), AllText(completion[i + 1..]));
  }

  /** The body of the `for await` loop for one completion chunk: a truthy
      content is appended to `rawTotalResponse` and to the buffer, the buffer
      is split, and the pieces are handed to `ForEachPiece`. */
  method OnContent(content: Option<string>, queued: seq<string>, held: string,
                   ghost raw: string, ghost formatted: string)
    returns (chunks: seq<string>, buffer: string, ghost rawTotalResponse: string, ghost totalFormattedResponse: string)
    requires formatted == Concat(queued)
    ensures Rechunker(chunks, buffer) == Step(Rechunker(queued, held), content)
    ensures rawTotalResponse == raw + Text(content)
    ensures totalFormattedResponse == Concat(chunks)
  {
    chunks, buffer, rawTotalResponse, totalFormattedResponse := queued, held, raw, formatted;
    if content.Some? && content.value != "" {
      rawTotalResponse := rawTotalResponse + content.value;
      buffer := buffer + content.value;
      var lines := Split(buffer);
      ConcatAppend(chunks, Dispatch(lines).0);
      chunks, buffer, totalFormattedResponse := ForEachPiece(lines, chunks, totalFormattedResponse);
    }
  }

  /** `streamPrompt(completion)`, read to the end: the chunks enqueued, in
      order, up to `controller.close()`. */
  method StreamPrompt(completion: seq<Option<string>>) returns (chunks: seq<string>)
    ensures chunks == Output(completion)
    ensures |chunks| >= 1 && chunks[|chunks| - 1] == Done
    ensures Concat(chunks) == AllText(completion) + Done
  {
    var buffer := "";
    ghost var rawTotalResponse := "";
    ghost var totalFormattedResponse := "";
    chunks := [];

    for i := 0 to |completion|
      invariant Drain(Rechunker(chunks, buffer), completion[i..]) == Drain(Start, completion)
      invariant Valid(Rechunker(chunks, buffer))
      invariant rawTotalResponse + AllText(completion[i..]) == AllText(completion)
      invariant totalFormattedResponse == Concat(chunks)
      invariant totalFormattedResponse + buffer == rawTotalResponse
    {
      var content := completion[i];
      ReadStep(Rechunker(chunks, buffer), rawTotalResponse, completion, i);
      chunks, buffer, rawTotalResponse, totalFormattedResponse :=
        OnContent(content, chunks, buffer, rawTotalResponse, totalFormattedResponse);
    }

    assert completion[|completion|..] == [];
    ghost var end := Drain(Start, completion);
    assert Rechunker(chunks, buffer) == end;
    if buffer != "" {
      totalFormattedResponse := totalFormattedResponse + buffer;
      chunks := chunks + [buffer];
    }
    // After the flush nothing is held back: the formatted text is the raw text.
    assert totalFormattedResponse == rawTotalResponse;
    assert chunks == end.queue + Flush(end);
    chunks := chunks + [Done];
    assert chunks == Close(end);
    OutputSpec(completion);
  }

  // ---------------------------------------------------------------------------
  // parseMarkdownToCompletions

  /** The `for (const line of lines)` loop: a content `line + "\n"` for every
      line whose trim is not empty, in order. */
  function CompletionItems(lines: seq<string>): (items: seq<Option<string>>)
    ensures |items| <= |lines|
    ensures forall k :: 0 <= k < |items| ==> IsTruthy(items[k]) && EndsWithNewline(items[k].value)
  {
    if lines == [] then []
    else (if Trim(lines[0]) != "" then [Some(lines[0] + "\n")] else []) + CompletionItems(lines[1..])
  }

  /** `parseMarkdownToCompletions(markdown)`: the contents of the yielded
      completion chunks, ending with the empty content. */
  function ParseMarkdownToCompletions(markdown: string): (items: seq<Option<string>>)
    ensures 1 <= |items| <= |SplitLines(markdown)| + 1
    ensures items[|items| - 1] == Some("")
    ensures forall k :: 0 <= k < |items| - 1 ==> IsTruthy(items[k])
  {
    CompletionItems(SplitLines(markdown)) + [Some("")]
  }

  /** A line yields an item exactly when it is not white space only. */
  lemma ItemsCons(lines: seq<string>)
    requires lines != []
    ensures CompletionItems(lines)
            == (if IsBlank(lines[0]) then [] else [Some(lines[0] + "\n")]) + CompletionItems(lines[1..])
  {
    TrimEmptyIffBlank(lines[0]);
  }

  /** Reference: the lines that are not white space only, in order. */
  function NonBlank(lines: seq<string>): seq<string> {
    if lines == [] then []
    else (if IsBlank(lines[0]) then [] else [lines[0]]) + NonBlank(lines[1..])
  }

  /** Each line followed by a line feed, one after another. */
  function Terminated(lines: seq<string>): string {
    if lines == [] then "" else lines[0] + "\n" + Terminated(lines[1..])
  }

  lemma {:induction false} NonBlankSpec(lines: seq<string>)
    ensures forall l :: l in NonBlank(lines) ==> l in lines && !IsBlank(l)
    ensures forall l :: l in lines && !IsBlank(l) ==> l in NonBlank(lines)
  {
    if lines != [] {
      NonBlankSpec(lines[1..]);
      assert lines == [lines[0]] + lines[1..];
    }
  }

  lemma {:induction false} CompletionItemsSpec(lines: seq<string>)
    ensures |CompletionItems(lines)| == |NonBlank(lines)|
    ensures forall k :: 0 <= k < |NonBlank(lines)| ==> CompletionItems(lines)[k] == Some(NonBlank(lines)[k] + "\n")
  {
    if lines != [] {
      CompletionItemsSpec(lines[1..]);
      ItemsCons(lines);
    }
  }

  /** `parseMarkdownToCompletions` yields `line + "\n"` for each non-blank line
      of `markdown.split("\n")`, in order, and then one empty content; that
      empty content is the only falsy one. */
  lemma ParseMarkdownSpec(markdown: string)
    ensures |ParseMarkdownToCompletions(markdown)| == |NonBlank(SplitLines(markdown))| + 1
    ensures ParseMarkdownToCompletions(markdown)[|ParseMarkdownToCompletions(markdown)| - 1] == Some("")
    ensures forall k :: 0 <= k < |NonBlank(SplitLines(markdown))| ==>
              ParseMarkdownToCompletions(markdown)[k] == Some(NonBlank(SplitLines(markdown))[k] + "\n")
              && IsTruthy(ParseMarkdownToCompletions(markdown)[k])
    ensures forall l :: l in NonBlank(SplitLines(markdown)) ==> l in SplitLines(markdown) && !IsBlank(l) && NoNewline(l)
    ensures forall l :: l in SplitLines(markdown) && !IsBlank(l) ==> l in NonBlank(SplitLines(markdown))
  {
    var lines := SplitLines(markdown);
    CompletionItemsSpec(lines);
    NonBlankSpec(lines);
    SplitLinesNoNewline(markdown);
  }

  /** The pieces `streamPrompt` cuts each line-feed-terminated line into. */
  function SplitEach(lines: seq<string>): seq<string> {
    if lines == [] then [] else Split(lines[0] + "\n") + SplitEach(lines[1..])
  }

  /** A fragment ending in a line feed, read with an empty buffer, goes out
      whole: all its pieces are enqueued and the buffer stays empty. */
  lemma FlushingStep(queue: seq<string>, t: string)
    requires EndsWithNewline(t)
    ensures Step(Rechunker(queue, ""), Some(t)) == Rechunker(queue + Split(t), "")
  {
    assert "" + t == t;
    SplitLastPiece(t);
  }

  /** The `for await` loop takes the first content first. */
  lemma DrainCons(st: Rechunker, c: Option<string>, rest: seq<Option<string>>)
    ensures Drain(st, [c] + rest) == Drain(Step(st, c), rest)
  {
    assert ([c] + rest)[1..] == rest;
  }

  /** A non-blank line in front: its item comes first, its pieces too. */
  lemma KeptLine(lines: seq<string>)
    requires lines != [] && !IsBlank(lines[0])
    ensures CompletionItems(lines) + [Some("")]
            == [Some(lines[0] + "\n")] + (CompletionItems(lines[1..]) + [Some("")])
    ensures SplitEach(NonBlank(lines)) == Split(lines[0] + "\n") + SplitEach(NonBlank(lines[1..]))
  {
    ItemsCons(lines);
    AppendAssoc([Some(lines[0] + "\n")], CompletionItems(lines[1..]), [Some("")]);
    assert NonBlank(lines) == [lines[0]] + NonBlank(lines[1..]);
  }

  /** A blank line in front yields no item and no piece. */
  lemma DroppedLine(lines: seq<string>)
    requires lines != [] && IsBlank(lines[0])
    ensures CompletionItems(lines) == CompletionItems(lines[1..])
    ensures NonBlank(lines) == NonBlank(lines[1..])
  {
    ItemsCons(lines);
  }

  lemma {:induction false} DrainLines(queue: seq<string>, lines: seq<string>)
    ensures Drain(Rechunker(queue, ""), CompletionItems(lines) + [Some("")])
            == Rechunker(queue + SplitEach(NonBlank(lines)), "")
    decreases lines
  {
    if lines == [] {
      assert CompletionItems(lines) + [Some("")] == [Some("")];
      DrainCons(Rechunker(queue, ""), Some(""), []);
      assert SplitEach(NonBlank(lines)) == [];
    } else if !IsBlank(lines[0]) {
      var t := lines[0] + "\n";
      KeptLine(lines);
      DrainCons(Rechunker(queue, ""), Some(t), CompletionItems(lines[1..]) + [Some("")]);
      FlushingStep(queue, t);
      DrainLines(queue + Split(t), lines[1..]);
      AppendAssoc(queue, Split(t), SplitEach(NonBlank(lines[1..])));
    } else {
      DroppedLine(lines);
      DrainLines(queue, lines[1..]);
    }
  }

  /** The pieces of the lines join back to the lines, each with its line feed. */
  lemma {:induction false} ConcatSplitEach(lines: seq<string>)
    ensures Concat(SplitEach(lines)) == Terminated(lines)
  {
    if lines != [] {
      ConcatSplitEach(lines[1..]);
      SplitRoundTrip(lines[0] + "\n");
      ConcatAppend(Split(lines[0] + "\n"), SplitEach(lines[1..]));
    }
  }

  /** Closing with an empty buffer sends only the terminator. */
  lemma CloseEmpty(queue: seq<string>)
    ensures Close(Rechunker(queue, "")) == queue + [Done]
  {
    assert Flush(Rechunker(queue, "")) == [];
  }

  /** Streaming a parsed markdown text: every line item leaves the buffer
      empty, the final empty item is dropped by `if (content)`, so the output is
      the pieces of each non-blank line and its line feed, then the terminator;
      written out, the non-blank lines each followed by a line feed. */
  lemma StreamParsedMarkdown(markdown: string)
    ensures Output(ParseMarkdownToCompletions(markdown))
            == SplitEach(NonBlank(SplitLines(markdown))) + [Done]
    ensures Concat(Output(ParseMarkdownToCompletions(markdown)))
            == Terminated(NonBlank(SplitLines(markdown))) + Done
  {
    var lines := SplitLines(markdown);
    var items := ParseMarkdownToCompletions(markdown);
    var pieces := SplitEach(NonBlank(lines));
    DrainLines([], lines);
    assert [] + pieces == pieces;
    assert Drain(Start, items) == Rechunker(pieces, "");
    CloseEmpty(pieces);
    ConcatSplitEach(NonBlank(lines));
    ConcatAppend(pieces, [Done]);
    ConcatSingle(Done);
  }
}
