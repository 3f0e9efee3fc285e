/** The ECMAScript string operations the re-chunker is built from: white space
    as the regular-expression class `\s` and `String.prototype.trim` see it,
    `Array.prototype.join("")`, `endsWith("\n")`, and `String.prototype.split("\n")`
    together with its inverse `join("\n")`. */
module JsStrings {

  /** ECMAScript WhiteSpace and LineTerminator code points: tab, vertical tab,
      form feed, space, no-break space, byte-order mark and the rest of Unicode
      category Zs, plus line feed, carriage return, line and paragraph separator. */
  predicate IsSpace(c: char) {
    c == '\t' || c == '\n' || c == '\U{000B}' || c == '\U{000C}' || c == '\r' || c == ' '
    || c == '\U{00A0}' || c == '\U{1680}' || ('\U{2000}' <= c <= '\U{200A}')
    || c == '\U{2028}' || c == '\U{2029}' || c == '\U{202F}' || c == '\U{205F}'
    || c == '\U{3000}' || c == '\U{FEFF}'
  }

  /** `pieces.join("")`: the pieces written one after another. */
  function Concat(pieces: seq<string>): string {
    if pieces == [] then "" else pieces[0] + Concat(pieces[1..])
  }

  lemma {:induction false} ConcatAppend(a: seq<string>, b: seq<string>)
    ensures Concat(a + b) == Concat(a) + Concat(b)
  {
    if a == [] {
      assert a + b == b;
    } else {
      assert (a + b)[1..] == a[1..] + b;
      ConcatAppend(a[1..], b);
    }
  }

  lemma ConcatSingle(t: string)
    ensures Concat([t]) == t
  {
    assert [t][1..] == [];
  }

  lemma AppendAssoc<T>(a: seq<T>, b: seq<T>, c: seq<T>)
    ensures (a + b) + c == a + (b + c)
  {
  }

  /** `t.endsWith(suffix)` as ECMAScript defines it: the last |suffix|
      characters of t are suffix. */
  predicate EndsWith(t: string, suffix: string) {
    |suffix| <= |t| && t[|t| - |suffix|..] == suffix
  }

  /** `t.endsWith("\n")`, tested on the last character. */
  predicate EndsWithNewline(t: string)
    ensures EndsWithNewline(t) <==> EndsWith(t, "\n")
  {
    |t| > 0 && t[|t| - 1] == '\n'
  }

  /** A line feed, if `t` holds one at all, is its first character. */
  predicate NewlineOnlyFirst(t: string) {
    forall j :: 0 < j < |t| ==> t[j] != '\n'
  }

  /** A piece whose only possible line feed is its first character ends in a
      line feed exactly when it is a lone line feed. */
  lemma LoneNewline(t: string)
    requires NewlineOnlyFirst(t)
    ensures EndsWithNewline(t) <==> t == "\n"
  {
    if EndsWithNewline(t) {
      assert |t| == 1;
      assert t == [t[0]];
    }
  }

  // ---------------------------------------------------------------------------
  // String.prototype.trim

  predicate IsBlank(s: string) {
    forall i :: 0 <= i < |s| ==> IsSpace(s[i])
  }

  /** White space removed from the front: what is left is no longer than s
      and does not start with white space. */
  function TrimStart(s: string): (t: string)
    ensures |t| <= |s|
    ensures t != "" ==> !IsSpace(t[0])
    decreases |s|
  {
    if |s| > 0 && IsSpace(s[0]) then TrimStart(s[1..]) else s
  }

  /** White space removed from the back: what is left is no longer than s,
      keeps its first character and does not end with white space. */
  function TrimEnd(s: string): (t: string)
    ensures |t| <= |s|
    ensures t != "" ==> t[0] == s[0] && !IsSpace(t[|t| - 1])
    decreases |s|
  {
    if |s| > 0 && IsSpace(s[|s| - 1]) then TrimEnd(s[..|s| - 1]) else s
  }

  /** `s.trim()`: white space removed from both ends; the result is a
      stretch of s that neither starts nor ends with white space. */
  function Trim(s: string): (t: string)
    ensures |t| <= |s|
    ensures t != "" ==> !IsSpace(t[0]) && !IsSpace(t[|t| - 1])
  {
    TrimEnd(TrimStart(s))
  }

  lemma {:induction false} TrimStartBlank(s: string)
    ensures TrimStart(s) == "" <==> IsBlank(s)
    ensures TrimStart(s) != "" ==> !IsSpace(TrimStart(s)[0])
    decreases |s|
  {
    if |s| > 0 && IsSpace(s[0]) {
      TrimStartBlank(s[1..]);
      assert IsBlank(s[1..]) <==> IsBlank(s) by {
        if IsBlank(s[1..]) {
          forall i | 0 < i < |s| ensures IsSpace(s[i]) { assert s[i] == s[1..][i - 1]; }
        }
      }
    }
  }

  lemma {:induction false} TrimEndKeepsFirst(t: string)
    requires t != "" && !IsSpace(t[0])
    ensures TrimEnd(t) != ""
    decreases |t|
  {
    if IsSpace(t[|t| - 1]) {
      TrimEndKeepsFirst(t[..|t| - 1]);
    }
  }

  /** `line.trim()` is falsy exactly when the line is white space only. */
  lemma TrimEmptyIffBlank(s: string)
    ensures Trim(s) == "" <==> IsBlank(s)
  {
    TrimStartBlank(s);
    if TrimStart(s) != "" {
      TrimEndKeepsFirst(TrimStart(s));
    }
  }

  // ---------------------------------------------------------------------------
  // String.prototype.split("\n") and Array.prototype.join("\n")

  /** `s.split("\n")`: the runs between line feeds, always at least one. */
  function SplitLines(s: string): (lines: seq<string>)
    ensures |lines| >= 1
    decreases |s|
  {
    if s == "" then [""]
    else
      var rest := SplitLines(s[1..]);
      if s[0] == '\n' then [""] + rest else [[s[0]] + rest[0]] + rest[1..]
  }

  /** `lines.join("\n")` */
  function JoinLines(lines: seq<string>): string
    decreases |lines|
  {
    if lines == [] then ""
    else if |lines| == 1 then lines[0]
    else lines[0] + "\n" + JoinLines(lines[1..])
  }

  predicate NoNewline(t: string) {
    forall j :: 0 <= j < |t| ==> t[j] != '\n'
  }

  /** No line of `s.split("\n")` holds a line feed. */
  lemma {:induction false} SplitLinesNoNewline(s: string)
    ensures forall k :: 0 <= k < |SplitLines(s)| ==> NoNewline(SplitLines(s)[k])
    decreases |s|
  {
    if s != "" && s[0] != '\n' {
      SplitLinesNoNewline(s[1..]);
      var rest := SplitLines(s[1..]);
      var lines := SplitLines(s);
      forall k | 0 <= k < |lines| ensures NoNewline(lines[k]) {
        if k > 0 {
          assert lines[k] == rest[k];
        } else {
          forall j | 0 <= j < |lines[0]| ensures lines[0][j] != '\n' {
            if j > 0 { assert lines[0][j] == rest[0][j - 1]; }
          }
        }
      }
    } else if s != "" {
      SplitLinesNoNewline(s[1..]);
      var rest := SplitLines(s[1..]);
      forall k | 0 <= k < |SplitLines(s)| ensures NoNewline(SplitLines(s)[k]) {
        if k > 0 { assert SplitLines(s)[k] == rest[k - 1]; }
      }
    }
  }

  /** Joining the lines of `s` with line feeds gives back `s`. */
  lemma {:induction false} SplitLinesRoundTrip(s: string)
    ensures JoinLines(SplitLines(s)) == s
    decreases |s|
  {
    if s != "" {
      var rest := SplitLines(s[1..]);
      SplitLinesRoundTrip(s[1..]);
      assert s == [s[0]] + s[1..];
      if s[0] == '\n' {
        assert ([""] + rest)[1..] == rest;
        assert "" + "\n" == "\n";
      } else if |rest| > 1 {
        var first := [s[0]] + rest[0];
        var tail := JoinLines(rest[1..]);
        assert ([first] + rest[1..])[1..] == rest[1..];
        assert JoinLines([first] + rest[1..]) == first + "\n" + tail;
        AppendAssoc([s[0]], rest[0], "\n");
        AppendAssoc([s[0]], rest[0] + "\n", tail);
      }
    }
  }

  lemma {:induction false} SplitLinesPrefix(a: string, t: string)
    requires NoNewline(a)
    ensures SplitLines(a + t) == [a + SplitLines(t)[0]] + SplitLines(t)[1..]
    decreases |a|
  {
    if a != "" {
      assert (a + t)[1..] == a[1..] + t;
      SplitLinesPrefix(a[1..], t);
      var rest := SplitLines(a[1..] + t);
      assert (a + t)[0] == a[0] && a[0] != '\n';
      assert SplitLines(a + t) == [[a[0]] + rest[0]] + rest[1..];
      assert rest[1..] == SplitLines(t)[1..];
      assert [a[0]] + rest[0] == a + SplitLines(t)[0] by {
        assert a == [a[0]] + a[1..];
      }
    } else {
      var lines := SplitLines(t);
      assert a + t == t && a + lines[0] == lines[0];
      assert [lines[0]] + lines[1..] == lines;
    }
  }

  /** The other direction: lines free of line feeds survive a join followed by a split. */
  lemma {:induction false} JoinLinesRoundTrip(lines: seq<string>)
    requires |lines| >= 1
    requires forall k :: 0 <= k < |lines| ==> NoNewline(lines[k])
    ensures SplitLines(JoinLines(lines)) == lines
    decreases |lines|
  {
    SplitLinesPrefix(lines[0], if |lines| == 1 then "" else "\n" + JoinLines(lines[1..]));
    if |lines| == 1 {
      assert lines[0] + "" == lines[0];
      assert lines == [lines[0]];
    } else {
      JoinLinesRoundTrip(lines[1..]);
      var t := "\n" + JoinLines(lines[1..]);
      assert t[1..] == JoinLines(lines[1..]);
      assert SplitLines(t) == [""] + lines[1..];
      assert lines[0] + "\n" + JoinLines(lines[1..]) == lines[0] + t;
      assert lines[0] + "" == lines[0];
      assert lines == [lines[0]] + lines[1..];
    }
  }
}
