/** src/test/streamPrompt.test.ts: the `stringChunks` fragment generator and
    the facts its scenarios rely on, stated about the model of `streamPrompt`. */
module StreamPromptTest {
  import opened JsStrings
  import opened RegexSplit
  import opened Utils

  /** The default `chunkSize` of `stringChunks`; the scenarios pass 10. */
  const DefaultChunkSize: int := 80
  const ScenarioChunkSize: int := 10

  function Min(a: int, b: int): int {
    if a <= b then a else b
  }

  /** What `stringChunks(text, size)` yields: consecutive slices of `size`
      characters, the last one possibly shorter. */
  function Chunks(text: string, size: int): seq<string>
    requires size > 0 || text == ""
    decreases |text|
  {
    if text == "" then [] else [text[..Min(size, |text|)]] + Chunks(text[Min(size, |text|)..], size)
  }

  /** The slices join back to the text. */
  lemma {:induction false} ChunksJoin(text: string, size: int)
    requires size > 0
    ensures Concat(Chunks(text, size)) == text
    decreases |text|
  {
    if text != "" {
      var n := Min(size, |text|);
      ChunksJoin(text[n..], size);
      assert text == text[..n] + text[n..];
    }
  }

  /** There are ceil(|text| / size) slices, none for the empty text. */
  lemma {:induction false} ChunksCount(text: string, size: int)
    requires size > 0
    ensures Chunks(text, size) == [] <==> text == ""
    ensures text != "" ==> (|Chunks(text, size)| - 1) * size < |text| <= |Chunks(text, size)| * size
    decreases |text|
  {
    if text != "" {
      var rest := text[Min(size, |text|)..];
      var c := |Chunks(rest, size)|;
      ChunksCount(rest, size);
      assert |Chunks(text, size)| == c + 1;
      assert (c + 1) * size == c * size + size;
      if rest != "" {
        assert (c - 1) * size + size == c * size;
      }
    }
  }

  /** Every slice is non-empty and at most `size` long, and all but the last
      are exactly `size` long. */
  lemma {:induction false} ChunksSizes(text: string, size: int)
    requires size > 0
    ensures forall k :: 0 <= k < |Chunks(text, size)| ==> 0 < |Chunks(text, size)[k]| <= size
    ensures forall k :: 0 <= k < |Chunks(text, size)| - 1 ==> |Chunks(text, size)[k]| == size
    decreases |text|
  {
    if text != "" {
      var n := Min(size, |text|);
      var rest := text[n..];
      var cs := Chunks(text, size);
      var tail := Chunks(rest, size);
      ChunksSizes(rest, size);
      assert cs == [text[..n]] + tail;
      if |cs| > 1 {
        assert rest != "";
      }
      forall k | 0 <= k < |cs| ensures 0 < |cs[k]| <= size && (k < |cs| - 1 ==> |cs[k]| == size) {
        if k > 0 {
          assert cs[k] == tail[k - 1];
        }
      }
    }
  }

  /** Where slice k starts: `i` after k steps of `i += chunkSize`. */
  function SliceStart(k: nat, size: nat): nat {
    if k == 0 then 0 else SliceStart(k - 1, size) + size
  }

  /** The k-th `i` is `k * size`. */
  lemma {:induction false} SliceStartProduct(k: nat, size: nat)
    ensures SliceStart(k, size) == k * size
  {
    if k > 0 {
      SliceStartProduct(k - 1, size);
      assert (k - 1) * size + size == k * size;
    }
  }

  lemma SliceOfSuffix(t: string, n: nat, a: nat, b: nat)
    requires n <= |t| && a <= b <= |t| - n
    ensures t[n..][a..b] == t[n + a..n + b]
  {
    assert forall i :: 0 <= i < b - a ==> t[n..][a..b][i] == t[n + a + i];
  }

  /** Slice k of `stringChunks` is `text.slice(i, i + size)` for the k-th `i`. */
  lemma {:induction false} ChunkAt(text: string, size: int, k: nat)
    requires size > 0 && k < |Chunks(text, size)|
    ensures SliceStart(k, size) < |text|
    ensures Chunks(text, size)[k] == text[SliceStart(k, size)..Min(SliceStart(k, size) + size, |text|)]
    decreases k
  {
    var n := Min(size, |text|);
    var tail := Chunks(text[n..], size);
    assert text != "";
    assert Chunks(text, size) == [text[..n]] + tail;
    if k > 0 {
      assert |tail| > 0 && n == size;
      ChunkAt(text[n..], size, k - 1);
      var a := SliceStart(k - 1, size);
      SliceOfSuffix(text, n, a, Min(a + size, |text| - n));
    }
  }

  /** Every slice is `text.slice(i, i + size)` for its own `i`. */
  lemma ChunksAt(text: string, size: int)
    requires size > 0
    ensures forall k :: 0 <= k < |Chunks(text, size)| ==> SliceStart(k, size) < |text|
    ensures forall k :: 0 <= k < |Chunks(text, size)| ==>
              Chunks(text, size)[k] == text[SliceStart(k, size)..Min(SliceStart(k, size) + size, |text|)]
  {
    forall k | 0 <= k < |Chunks(text, size)|
      ensures SliceStart(k, size) < |text|
      ensures Chunks(text, size)[k] == text[SliceStart(k, size)..Min(SliceStart(k, size) + size, |text|)]
    {
      ChunkAt(text, size, k);
    }
  }

  /** One turn of the `stringChunks` loop: the slices from `i` on are
      `text.slice(i, i + size)` followed by the slices from `i + size` on. */
  lemma ChunksFrom(text: string, size: int, i: nat)
    requires size > 0 && i < |text|
    ensures Chunks(text[i..], size)
            == [text[i..Min(i + size, |text|)]] + Chunks(text[Min(i + size, |text|)..], size)
  {
    var t := text[i..];
    var n := Min(size, |t|);
    assert t[..n] == text[i..i + n];
    assert t[n..] == text[i + n..];
  }

  /** `stringChunks(text, chunkSize)`: the loop stepping `i` by `chunkSize`
      and yielding `text.slice(i, i + chunkSize)`. A non-positive `chunkSize`
      never ends on a non-empty text, so it is excluded there. */
  method StringChunks(text: string, chunkSize: int := DefaultChunkSize) returns (slices: seq<string>)
    requires chunkSize > 0 || text == ""
    ensures slices == Chunks(text, chunkSize)
    ensures Concat(slices) == text
  {
    slices := [];
    var i := 0;
    while i < |text|
      invariant 0 <= i
      invariant i < |text| ==> slices + Chunks(text[i..], chunkSize) == Chunks(text, chunkSize)
      invariant i >= |text| ==> slices == Chunks(text, chunkSize)
      decreases |text| - i
    {
      var slice := text[i..Min(i + chunkSize, |text|)];
      ChunksFrom(text, chunkSize, i);
      AppendAssoc(slices, [slice], Chunks(text[Min(i + chunkSize, |text|)..], chunkSize));
      if i + chunkSize >= |text| {
        assert Chunks(text[|text|..], chunkSize) == [];
      }
      slices := slices + [slice];
      i := i + chunkSize;
    }
    if chunkSize > 0 {
      ChunksJoin(text, chunkSize);
    }
  }

  /** The fragments of a text as completion contents. */
  function AsCompletion(fragments: seq<string>): seq<Option<string>> {
    seq(|fragments|, k requires 0 <= k < |fragments| => Some(fragments[k]))
  }

  lemma {:induction false} AllTextFragments(fragments: seq<string>)
    ensures AllText(AsCompletion(fragments)) == Concat(fragments)
    decreases |fragments|
  {
    if fragments != [] {
      AllTextFragments(fragments[1..]);
      assert AsCompletion(fragments)[1..] == AsCompletion(fragments[1..]);
      assert Text(AsCompletion(fragments)[0]) == fragments[0];
    }
  }

  /** Whatever the chunk size, streaming the slices of a text yields the text
      and then the terminator, which contains "event: done" and is the last
      chunk. */
  lemma AnyFragmentationEndsWithDone(text: string, size: int)
    requires size > 0
    ensures Output(AsCompletion(Chunks(text, size)))[|Output(AsCompletion(Chunks(text, size)))| - 1] == Done
    ensures Concat(Output(AsCompletion(Chunks(text, size)))) == text + Done
    ensures Done[..11] == "event: done"
  {
    ChunksJoin(text, size);
    AllTextFragments(Chunks(text, size));
    OutputSpec(AsCompletion(Chunks(text, size)));
  }

  /** The blockquote scenario's text. */
  const Blockquotes: string :=
    "# Title\n\n" + "> This is a quote.\n" + "> Second line of quote.\n" + "\nNormal text.\n"

  /** Fed in slices of 10 characters, the blockquote text reads back whole,
      so both quote lines (`BlockquoteLines`) are in it, followed by the
      terminator, which starts with "event: done". */
  lemma BlockquoteScenario()
    ensures Concat(Output(AsCompletion(Chunks(Blockquotes, ScenarioChunkSize)))) == Blockquotes + Done
  {
    AnyFragmentationEndsWithDone(Blockquotes, ScenarioChunkSize);
  }

  /** Where the two quote lines sit in the blockquote text. */
  lemma BlockquoteLines()
    ensures Blockquotes[9..27] == "> This is a quote."
    ensures Blockquotes[28..51] == "> Second line of quote."
  {
  }

  /** The pattern cuts "Hello world.\n" only in front of its line feed. */
  lemma HelloWorldSplit()
    ensures Split("Hello world.\n") == ["Hello world.", "\n"]
  {
    var s := "Hello world.\n";
    assert NoCutBetween(s, 8, 12);
    assert NoCutBetween(s, 4, 12);
    assert NoCutBetween(s, 1, 12);
    SkipRun(s, 0, 1, 12);
    assert LookaheadAt(s, 12);
    assert s[0..12] == "Hello world." && s[12..] == "\n";
  }

  /** The single content "Hello world.\n" comes out as "Hello world.", then
      the lone line feed, then the terminator. */
  lemma HelloWorld()
    ensures Output([Some("Hello world.\n")]) == ["Hello world.", "\n", Done]
  {
    HelloWorldSplit();
    FlushingStep([], "Hello world.\n");
    assert [] + ["Hello world.", "\n"] == ["Hello world.", "\n"];
  }
}
