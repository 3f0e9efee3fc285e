/** `buffer.split(/(?=\n|^#{1,4}|\s-\s|\n\s\*\s|\n\d+\.\s)/)` as ECMAScript
    evaluates it. The pattern is a lone lookahead, so every match is empty and
    the string is only ever cut, never shortened: `Split` follows the
    `RegExp.prototype[@@split]` loop of ECMA-262 (section 22.2.6.14), and
    `Bounds`/`Slices` give the independent reading "cut at every index from 1
    to |s| - 1 where a line feed or a white space, dash, white space triple
    starts". `SplitCutsExactly` proves the two agree. */
module RegexSplit {
  import opened JsStrings

  predicate IsDigit(c: char) {
    '0' <= c <= '9'
  }

  // The five alternatives of the lookahead, each tried at index q.

  /** `\n` */
  predicate NewlineAt(s: string, q: int) {
    0 <= q < |s| && s[q] == '\n'
  }

  /** `^#{1,4}`: without the `m` flag `^` holds only at index 0. */
  predicate HeadingAt(s: string, q: int) {
    q == 0 && |s| > 0 && s[0] == '#'
  }

  /** `\s-\s` */
  predicate SpaceDashSpaceAt(s: string, q: int) {
    0 <= q && q + 2 < |s| && IsSpace(s[q]) && s[q + 1] == '-' && IsSpace(s[q + 2])
  }

  /** `\n\s\*\s` */
  predicate NewlineStarAt(s: string, q: int) {
    0 <= q && q + 3 < |s| && s[q] == '\n' && IsSpace(s[q + 1]) && s[q + 2] == '*' && IsSpace(s[q + 3])
  }

  /** `\d+\.\s` starting at j */
  predicate DigitsDotSpaceAt(s: string, j: int)
    decreases |s| - j
  {
    0 <= j < |s| && IsDigit(s[j])
    && ((j + 2 < |s| && s[j + 1] == '.' && IsSpace(s[j + 2])) || DigitsDotSpaceAt(s, j + 1))
  }

  /** `\n\d+\.\s` */
  predicate NewlineNumberAt(s: string, q: int) {
    NewlineAt(s, q) && DigitsDotSpaceAt(s, q + 1)
  }

  /** The lookahead succeeds at index q. */
  predicate LookaheadAt(s: string, q: int) {
    NewlineAt(s, q) || HeadingAt(s, q) || SpaceDashSpaceAt(s, q)
    || NewlineStarAt(s, q) || NewlineNumberAt(s, q)
  }

  /** The indices where the split cuts: never 0 (an empty match where the
      current piece starts is skipped), never |s|, and `^#`, `\n\s\*\s` and
      `\n\d+\.\s` add nothing to the line-feed alternative. */
  predicate IsCut(s: string, i: int) {
    1 <= i < |s| && (s[i] == '\n' || SpaceDashSpaceAt(s, i))
  }

  /** `s.split(regex)`. For the empty string the pattern is tried once at 0. */
  function Split(s: string): (pieces: seq<string>)
    ensures |pieces| >= 1
    ensures s != "" ==> pieces[0] != "" && |pieces| <= |s|
  {
    if |s| == 0 then (if LookaheadAt(s, 0) then [] else [s])
    else SplitFrom(s, 0, 1)
  }

  /** The @@split loop with the current piece starting at p and the next
      match tried at q. A zero-width match at q == p is stepped over, which
      is why the loop starts at q == p + 1 and resumes at q + 1 after a cut. */
  function SplitFrom(s: string, p: nat, q: nat): (pieces: seq<string>)
    requires p < q <= |s|
    ensures 1 <= |pieces| <= |s| - p && pieces[0] != ""
    decreases |s| - q
  {
    if q == |s| then [s[p..]]
    else if LookaheadAt(s, q) then [s[p..q]] + SplitFrom(s, q, q + 1)
    else SplitFrom(s, p, q + 1)
  }

  // ---------------------------------------------------------------------------
  // The reference reading: slices between consecutive cut points.

  /** The cut indices from q on, in increasing order. */
  function CutPoints(s: string, q: nat): seq<nat>
    decreases |s| - q
  {
    if q >= |s| then [] else (if IsCut(s, q) then [q] else []) + CutPoints(s, q + 1)
  }

  /** 0, every cut index, and |s|. */
  function Bounds(s: string): seq<nat> {
    [0] + CutPoints(s, 1) + [|s|]
  }

  predicate Ascending(b: seq<nat>, n: nat) {
    (forall i :: 0 <= i < |b| ==> b[i] <= n)
    && (forall i, j :: 0 <= i < j < |b| ==> b[i] <= b[j])
  }

  predicate StrictlyAscending(b: seq<nat>) {
    forall i, j :: 0 <= i < j < |b| ==> b[i] < b[j]
  }

  /** The pieces of s between consecutive entries of b. */
  function Slices(s: string, b: seq<nat>): seq<string>
    requires Ascending(b, |s|)
    decreases |b|
  {
    if |b| < 2 then [] else [s[b[0]..b[1]]] + Slices(s, b[1..])
  }

  lemma {:induction false} CutPointsMembers(s: string, q: nat)
    ensures forall i :: i in CutPoints(s, q) <==> q <= i && IsCut(s, i)
    decreases |s| - q
  {
    if q < |s| {
      CutPointsMembers(s, q + 1);
    }
  }

  /** Putting q in front of ascending entries above q keeps them ascending. */
  lemma PrependAscending(q: nat, rest: seq<nat>, n: nat)
    requires q < n
    requires forall k :: 0 <= k < |rest| ==> q + 1 <= rest[k] < n
    requires StrictlyAscending(rest)
    ensures forall k :: 0 <= k < |[q] + rest| ==> q <= ([q] + rest)[k] < n
    ensures StrictlyAscending([q] + rest)
  {
    var cuts := [q] + rest;
    forall i, j | 0 <= i < j < |cuts| ensures cuts[i] < cuts[j] {
      assert cuts[j] == rest[j - 1];
      if i > 0 {
        assert cuts[i] == rest[i - 1];
      }
    }
  }

  lemma {:induction false} CutPointsOrdered(s: string, q: nat)
    ensures forall k :: 0 <= k < |CutPoints(s, q)| ==> q <= CutPoints(s, q)[k] < |s|
    ensures StrictlyAscending(CutPoints(s, q))
    decreases |s| - q
  {
    if q < |s| {
      CutPointsOrdered(s, q + 1);
      var rest := CutPoints(s, q + 1);
      if IsCut(s, q) {
        PrependAscending(q, rest, |s|);
        assert CutPoints(s, q) == [q] + rest;
      } else {
        assert CutPoints(s, q) == rest;
      }
    }
  }

  lemma CutPointsSpec(s: string, q: nat)
    ensures forall i :: i in CutPoints(s, q) <==> q <= i && IsCut(s, i)
    ensures forall k :: 0 <= k < |CutPoints(s, q)| ==> q <= CutPoints(s, q)[k] < |s|
    ensures StrictlyAscending(CutPoints(s, q))
  {
    CutPointsMembers(s, q);
    CutPointsOrdered(s, q);
  }

  lemma {:induction false} SlicesShape(s: string, b: seq<nat>)
    requires Ascending(b, |s|) && |b| >= 1
    ensures |Slices(s, b)| == |b| - 1
    ensures forall k :: 0 <= k < |b| - 1 ==> Slices(s, b)[k] == s[b[k]..b[k + 1]]
    decreases |b|
  {
    if |b| >= 2 {
      SlicesShape(s, b[1..]);
    }
  }

  lemma {:induction false} SlicesConcat(s: string, b: seq<nat>)
    requires Ascending(b, |s|) && |b| >= 1
    ensures Concat(Slices(s, b)) == s[b[0]..b[|b| - 1]]
    decreases |b|
  {
    if |b| >= 2 {
      SlicesConcat(s, b[1..]);
      assert s[b[0]..b[|b| - 1]] == s[b[0]..b[1]] + s[b[1]..b[|b| - 1]];
    }
  }

  lemma LookaheadIsCut(s: string, q: nat)
    requires 1 <= q < |s|
    ensures LookaheadAt(s, q) <==> IsCut(s, q)
  {
  }

  /** Framing an ordered run of cut indices by a smaller start and the end. */
  lemma Framed(p: nat, cuts: seq<nat>, n: nat)
    requires p <= n
    requires forall k :: 0 <= k < |cuts| ==> p < cuts[k] < n
    requires StrictlyAscending(cuts)
    ensures Ascending([p] + cuts + [n], n)
    ensures p < n ==> StrictlyAscending([p] + cuts + [n])
  {
    var b := [p] + cuts + [n];
    forall i, j | 0 <= i < j < |b| ensures b[i] <= b[j] && (p < n ==> b[i] < b[j]) {
      if 0 < i && j < |b| - 1 { assert b[i] == cuts[i - 1] && b[j] == cuts[j - 1]; }
      else if 0 < i { assert b[i] == cuts[i - 1]; }
      else if j < |b| - 1 { assert b[j] == cuts[j - 1]; }
    }
  }

  /** The @@split loop at the end of the string: the last piece. */
  lemma SplitFromEnd(s: string, p: nat)
    requires p < |s|
    ensures Ascending([p] + CutPoints(s, |s|) + [|s|], |s|)
    ensures SplitFrom(s, p, |s|) == Slices(s, [p] + CutPoints(s, |s|) + [|s|])
  {
    var b := [p] + CutPoints(s, |s|) + [|s|];
    assert b == [p, |s|];
    assert Slices(s, b[1..]) == [];
    assert s[p..|s|] == s[p..];
  }

  lemma FrameTail(p: nat, q: nat, rest: seq<nat>, n: nat)
    ensures ([p] + ([q] + rest) + [n])[1..] == [q] + rest + [n]
    ensures ([p] + ([q] + rest) + [n])[0] == p && ([p] + ([q] + rest) + [n])[1] == q
  {
  }

  /** One turn of the @@split loop at a cut index, in terms of the slices. */
  lemma SplitFromCut(s: string, p: nat, q: nat)
    requires p < q < |s| && IsCut(s, q)
    requires Ascending([q] + CutPoints(s, q + 1) + [|s|], |s|)
    requires SplitFrom(s, q, q + 1) == Slices(s, [q] + CutPoints(s, q + 1) + [|s|])
    ensures Ascending([p] + CutPoints(s, q) + [|s|], |s|)
    ensures SplitFrom(s, p, q) == Slices(s, [p] + CutPoints(s, q) + [|s|])
  {
    CutPointsOrdered(s, q);
    Framed(p, CutPoints(s, q), |s|);
    LookaheadIsCut(s, q);
    var rest := CutPoints(s, q + 1);
    assert CutPoints(s, q) == [q] + rest;
    var b := [p] + ([q] + rest) + [|s|];
    FrameTail(p, q, rest, |s|);
    assert SplitFrom(s, p, q) == [s[p..q]] + SplitFrom(s, q, q + 1);
    assert Slices(s, b) == [s[p..q]] + Slices(s, b[1..]);
  }

  /** One turn of the @@split loop at an index that is not a cut. */
  lemma SplitFromSkip(s: string, p: nat, q: nat)
    requires p < q < |s| && !IsCut(s, q)
    ensures SplitFrom(s, p, q) == SplitFrom(s, p, q + 1)
    ensures CutPoints(s, q) == CutPoints(s, q + 1)
  {
    LookaheadIsCut(s, q);
  }

  /** No cut index in q..r-1. */
  predicate NoCutBetween(s: string, q: nat, r: nat)
    decreases r - q
  {
    q >= r || (!IsCut(s, q) && NoCutBetween(s, q + 1, r))
  }

  /** The @@split loop walks over a stretch without cut indices and yields
      no piece there. */
  lemma {:induction false} SkipRun(s: string, p: nat, q: nat, r: nat)
    requires p < q <= r <= |s| && NoCutBetween(s, q, r)
    ensures SplitFrom(s, p, q) == SplitFrom(s, p, r)
    decreases r - q
  {
    if q < r {
      LookaheadIsCut(s, q);
      SkipRun(s, p, q + 1, r);
    }
  }

  lemma {:induction false} SplitFromSlices(s: string, p: nat, q: nat)
    requires p < q <= |s|
    ensures Ascending([p] + CutPoints(s, q) + [|s|], |s|)
    ensures SplitFrom(s, p, q) == Slices(s, [p] + CutPoints(s, q) + [|s|])
    decreases |s| - q
  {
    if q == |s| {
      SplitFromEnd(s, p);
    } else if IsCut(s, q) {
      SplitFromSlices(s, q, q + 1);
      SplitFromCut(s, p, q);
    } else {
      SplitFromSlices(s, p, q + 1);
      SplitFromSkip(s, p, q);
    }
  }

  /** The split cuts exactly at the cut indices: the pieces are the slices
      of s between 0, each index in 1..|s|-1 holding a line feed or starting a
      white space, dash, white space triple, and |s|. */
  lemma SplitCutsExactly(s: string)
    requires s != ""
    ensures StrictlyAscending(Bounds(s)) && Ascending(Bounds(s), |s|)
    ensures Bounds(s)[0] == 0 && Bounds(s)[|Bounds(s)| - 1] == |s|
    ensures forall i :: 0 < i < |s| ==> (i in Bounds(s) <==> IsCut(s, i))
    ensures Split(s) == Slices(s, Bounds(s))
  {
    CutPointsSpec(s, 1);
    SplitFromSlices(s, 0, 1);
    var cuts := CutPoints(s, 1);
    var b := Bounds(s);
    Framed(0, cuts, |s|);
    forall i | 0 < i < |s| ensures i in b <==> IsCut(s, i) {
      assert i in b <==> i in cuts;
    }
  }

  /** Splitting loses and adds nothing: the pieces join back to s. */
  lemma SplitRoundTrip(s: string)
    ensures Concat(Split(s)) == s
  {
    if s != "" {
      SplitCutsExactly(s);
      SlicesConcat(s, Bounds(s));
    }
  }

  /** For a non-empty s: at least one piece, no piece empty, and inside a
      piece a line feed can only be the first character. */
  lemma SplitPieces(s: string)
    requires s != ""
    ensures |Split(s)| >= 1
    ensures forall k :: 0 <= k < |Split(s)| ==> Split(s)[k] != ""
    ensures forall k :: 0 <= k < |Split(s)| ==> NewlineOnlyFirst(Split(s)[k])
  {
    SplitCutsExactly(s);
    var b := Bounds(s);
    SlicesShape(s, b);
    forall k | 0 <= k < |Split(s)|
      ensures Split(s)[k] != "" && NewlineOnlyFirst(Split(s)[k])
    {
      var piece := Split(s)[k];
      assert piece == s[b[k]..b[k + 1]];
      forall j | 0 < j < |piece| ensures piece[j] != '\n' {
        var at := b[k] + j;
        assert piece[j] == s[at];
        assert at !in b by {
          forall m | 0 <= m < |b| ensures b[m] != at {
            if m < k { assert b[m] <= b[k]; }
            else if m > k + 1 { assert b[k + 1] <= b[m]; }
          }
        }
        assert !IsCut(s, at);
      }
    }
  }

  /** The last piece is a lone line feed exactly when s ends in one. */
  lemma SplitLastPiece(s: string)
    requires s != ""
    ensures |Split(s)| >= 1
    ensures Split(s)[|Split(s)| - 1] == "\n" <==> EndsWithNewline(s)
  {
    SplitPieces(s);
    SplitCutsExactly(s);
    var b := Bounds(s);
    SlicesShape(s, b);
    var last := Split(s)[|Split(s)| - 1];
    assert last == s[b[|b| - 2]..|s|];
    assert last[|last| - 1] == s[|s| - 1];
    LoneNewline(last);
  }
}
