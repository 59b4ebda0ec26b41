/**
 * `String.prototype.split` as `ContentState.createFromText` uses it: with the
 * default line-break pattern `/\r\n?|\n/g`, or with a literal string
 * separator.
 */
module TextSplit {
  import opened ImmutableSeq

  /** The separator handed to `createFromText`. */
  datatype Delimiter =
    | LineBreaks          // the default pattern: "\r\n", a lone "\r" or "\n"
    | Literal(sep: string)

  /** A string holding no character that the line-break pattern matches. */
  predicate LineFree(s: string) {
    '\n' !in s && '\r' !in s
  }

  /**
   * `s.split(/\r\n?|\n/g)`: the pieces between line breaks, left to right;
   * "\r\n" is one break. Splitting the empty string gives one empty piece.
   */
  function SplitLines(s: string): (r: seq<string>)
    ensures |r| >= 1
    ensures forall i :: 0 <= i < |r| ==> LineFree(r[i])
    decreases |s|
  {
    if s == [] then [""]
    else if s[0] == '\n' then [""] + SplitLines(s[1..])
    else if s[0] == '\r' then
      if |s| > 1 && s[1] == '\n' then [""] + SplitLines(s[2..]) else [""] + SplitLines(s[1..])
    else
      var rest := SplitLines(s[1..]);
      [[s[0]] + rest[0]] + rest[1..]
  }

  /**
   * `s.split(d)` for a non-empty string `d`: the pieces between the
   * non-overlapping occurrences of `d` found left to right.
   */
  function SplitOn(s: string, d: string): (r: seq<string>)
    requires |d| > 0
    ensures |r| >= 1
    ensures r[0] <= s
    ensures |r| > 1 ==> r[0] + d <= s
    ensures forall i :: 0 <= i < |r| ==> !Occurs(d, r[i])
    ensures forall i :: 0 <= i < |r| - 1 ==> !Occurs(d, r[i] + d[..|d| - 1])
    decreases |s|
  {
    if |s| < |d| then [s]
    else if s[..|d|] == d then
      var rest := SplitOn(s[|d|..], d);
      assert !Occurs(d, "" + d[..|d| - 1]);
      [""] + rest
    else
      var rest := SplitOn(s[1..], d);
      var piece := [s[0]] + rest[0];
      assert !Occurs(d, piece) by {
        forall k | 0 <= k <= |piece| ensures !(d <= piece[k..]) {
          if k == 0 {
            assert piece <= s;
            assert s[..|d|] != d;
          } else {
            assert piece[k..] == rest[0][k - 1..];
          }
        }
      }
      assert |rest| > 1 ==> !Occurs(d, piece + d[..|d| - 1]) by {
        if |rest| > 1 {
          var w := piece + d[..|d| - 1];
          forall k | 0 <= k <= |w| ensures !(d <= w[k..]) {
            if k == 0 {
              assert w <= s;
              assert s[..|d|] != d;
            } else {
              assert w[k..] == (rest[0] + d[..|d| - 1])[k - 1..];
            }
          }
        }
      }
      [piece] + rest[1..]
  }

  /** `d` occurs somewhere in `x`. */
  predicate Occurs(d: string, x: string) {
    exists k :: 0 <= k <= |x| && d <= x[k..]
  }

  /** `s.split("")`: one piece per character, none at all for the empty string. */
  function Characters(s: string): (r: seq<string>)
    ensures |r| == |s|
    ensures forall i :: 0 <= i < |s| ==> r[i] == [s[i]]
  {
    seq(|s|, i requires 0 <= i < |s| => [s[i]])
  }

  /** `text.split(delimiter)`. */
  function Split(text: string, delimiter: Delimiter): (r: seq<string>)
    ensures delimiter.LineBreaks? ==> forall i :: 0 <= i < |r| ==> LineFree(r[i])
    ensures delimiter.Literal? && delimiter.sep != "" ==> forall i :: 0 <= i < |r| ==> !Occurs(delimiter.sep, r[i])
    ensures delimiter.LineBreaks? || delimiter.sep != "" ==> |r| >= 1
    ensures delimiter == Literal("") ==> |r| == |text| && forall i :: 0 <= i < |r| ==> r[i] == [text[i]]
  {
    match delimiter
    case LineBreaks => SplitLines(text)
    case Literal(sep) => if sep == "" then Characters(text) else SplitOn(text, sep)
  }

  /** Joining by "\n" a line-break-free split restores a text that had no "\r". */
  lemma {:induction false} JoinSplitLines(s: string)
    requires '\r' !in s
    ensures Join(SplitLines(s), "\n") == s
    decreases |s|
  {
    if s == [] {
    } else if s[0] == '\n' {
      JoinSplitLines(s[1..]);
      var rest := SplitLines(s[1..]);
      assert SplitLines(s) == [""] + rest;
      assert Join([""] + rest, "\n") == "" + "\n" + Join(rest, "\n");
    } else {
      JoinSplitLines(s[1..]);
      var rest := SplitLines(s[1..]);
      JoinConsHead(s[0], rest, "\n");
    }
  }

  /** Putting a character in front of the first piece puts it in front of the join. */
  lemma JoinConsHead(c: char, rest: seq<string>, d: string)
    requires |rest| >= 1
    ensures Join([[c] + rest[0]] + rest[1..], d) == [c] + Join(rest, d)
  {
    var xs := [[c] + rest[0]] + rest[1..];
    if |rest| > 1 {
      assert xs[1..] == rest[1..];
    }
  }

  /** Joining by `d` the pieces of a split on a non-empty `d` restores the text. */
  lemma {:induction false} JoinSplitOn(s: string, d: string)
    requires |d| > 0
    ensures Join(SplitOn(s, d), d) == s
    decreases |s|
  {
    if |s| < |d| {
    } else if s[..|d|] == d {
      JoinSplitOn(s[|d|..], d);
      var rest := SplitOn(s[|d|..], d);
      assert Join([""] + rest, d) == "" + d + Join(rest, d);
      assert s == s[..|d|] + s[|d|..];
    } else {
      JoinSplitOn(s[1..], d);
      JoinConsHead(s[0], SplitOn(s[1..], d), d);
    }
  }

  /** A line-break-free string is a single piece of its own. */
  lemma {:induction false} SplitLinesOfLineFree(x: string)
    requires LineFree(x)
    ensures SplitLines(x) == [x]
    decreases |x|
  {
    if x != [] {
      SplitLinesOfLineFree(x[1..]);
      assert [x[0]] + x[1..] == x;
    }
  }

  /** A line-break-free piece followed by "\n" splits off as the first piece. */
  lemma {:induction false} SplitLinesAfterPiece(x: string, t: string)
    requires LineFree(x)
    ensures SplitLines(x + "\n" + t) == [x] + SplitLines(t)
    decreases |x|
  {
    var s := x + "\n" + t;
    if x == [] {
      assert s[1..] == t;
    } else {
      assert s[1..] == x[1..] + "\n" + t;
      SplitLinesAfterPiece(x[1..], t);
      assert [x[0]] + x[1..] == x;
    }
  }

  /**
   * Splitting at line breaks undoes joining by "\n" when no piece contains a
   * line break (there is always at least one piece).
   */
  lemma {:induction false} SplitJoinLines(xs: seq<string>)
    requires |xs| >= 1
    requires forall i :: 0 <= i < |xs| ==> LineFree(xs[i])
    ensures SplitLines(Join(xs, "\n")) == xs
    decreases |xs|
  {
    if |xs| == 1 {
      SplitLinesOfLineFree(xs[0]);
    } else {
      SplitJoinLines(xs[1..]);
      SplitLinesAfterPiece(xs[0], Join(xs[1..], "\n"));
      assert [xs[0]] + xs[1..] == xs;
    }
  }

  /** A piece without the separator's first character is a single piece of its own. */
  lemma {:induction false} SplitOnOfFree(x: string, d: string)
    requires |d| > 0 && d[0] !in x
    ensures SplitOn(x, d) == [x]
    decreases |x|
  {
    if |x| >= |d| {
      assert x[..|d|][0] != d[0];
      SplitOnOfFree(x[1..], d);
      assert [x[0]] + x[1..] == x;
    }
  }

  /** A piece without the separator's first character, followed by the separator, splits off first. */
  lemma {:induction false} SplitOnAfterPiece(x: string, d: string, t: string)
    requires |d| > 0 && d[0] !in x
    ensures SplitOn(x + d + t, d) == [x] + SplitOn(t, d)
    decreases |x|
  {
    var s := x + d + t;
    if x == [] {
      assert s[..|d|] == d && s[|d|..] == t;
    } else {
      assert s[..|d|][0] != d[0];
      assert s[1..] == x[1..] + d + t;
      SplitOnAfterPiece(x[1..], d, t);
      assert [x[0]] + x[1..] == x;
    }
  }

  /**
   * Splitting on a non-empty literal `d` undoes joining by `d` when the first
   * character of `d` occurs in no piece (there is always at least one piece).
   */
  lemma {:induction false} SplitJoinOn(xs: seq<string>, d: string)
    requires |d| > 0 && |xs| >= 1
    requires forall i :: 0 <= i < |xs| ==> d[0] !in xs[i]
    ensures SplitOn(Join(xs, d), d) == xs
    decreases |xs|
  {
    if |xs| == 1 {
      SplitOnOfFree(xs[0], d);
    } else {
      SplitJoinOn(xs[1..], d);
      SplitOnAfterPiece(xs[0], d, Join(xs[1..], d));
      assert [xs[0]] + xs[1..] == xs;
    }
  }

  /** A text in which `d` does not occur is a single piece of its own. */
  lemma {:induction false} SplitOnOfNoOccurrence(x: string, d: string)
    requires |d| > 0 && !Occurs(d, x)
    ensures SplitOn(x, d) == [x]
    decreases |x|
  {
    if |x| >= |d| {
      assert !(d <= x[0..]);
      assert x[0..] == x;
      assert !Occurs(d, x[1..]) by {
        forall k | 0 <= k <= |x[1..]| ensures !(d <= x[1..][k..]) {
          assert x[1..][k..] == x[k + 1..];
        }
      }
      SplitOnOfNoOccurrence(x[1..], d);
      assert [x[0]] + x[1..] == x;
    }
  }

  /**
   * A piece in which no occurrence of `d` starts, followed by `d`, splits off
   * first: the split cuts at the leftmost occurrence.
   */
  lemma {:induction false} SplitOnAfterLeftmost(x: string, d: string, t: string)
    requires |d| > 0 && !Occurs(d, x + d[..|d| - 1])
    ensures SplitOn(x + d + t, d) == [x] + SplitOn(t, d)
    decreases |x|
  {
    var s := x + d + t;
    if x == [] {
      assert s[..|d|] == d && s[|d|..] == t;
    } else {
      var w := x + d[..|d| - 1];
      assert !(d <= w[0..]);
      assert w[0..] == w && w <= s;
      var w' := x[1..] + d[..|d| - 1];
      assert !Occurs(d, w') by {
        forall k | 0 <= k <= |w'| ensures !(d <= w'[k..]) {
          assert w'[k..] == w[k + 1..];
        }
      }
      assert s[1..] == x[1..] + d + t;
      SplitOnAfterLeftmost(x[1..], d, t);
      assert [x[0]] + x[1..] == x;
    }
  }

  /**
   * The split on `d` is the only way to cut a text into pieces joined by `d`
   * such that each cut is at the leftmost occurrence of `d` (no occurrence
   * starts inside an earlier piece) and the last piece holds no `d`.
   */
  lemma {:induction false} SplitOnUnique(xs: seq<string>, d: string)
    requires |d| > 0 && |xs| >= 1
    requires forall i :: 0 <= i < |xs| - 1 ==> !Occurs(d, xs[i] + d[..|d| - 1])
    requires !Occurs(d, xs[|xs| - 1])
    ensures SplitOn(Join(xs, d), d) == xs
    decreases |xs|
  {
    if |xs| == 1 {
      SplitOnOfNoOccurrence(xs[0], d);
    } else {
      SplitOnUnique(xs[1..], d);
      SplitOnAfterLeftmost(xs[0], d, Join(xs[1..], d));
      assert [xs[0]] + xs[1..] == xs;
    }
  }

  /** "\r\n" after a line-break-free piece is a single break. */
  lemma {:induction false} SplitLinesAfterCrLf(x: string, t: string)
    requires LineFree(x)
    ensures SplitLines(x + "\r\n" + t) == [x] + SplitLines(t)
    decreases |x|
  {
    var s := x + "\r\n" + t;
    if x == [] {
      assert s[2..] == t;
    } else {
      assert s[1..] == x[1..] + "\r\n" + t;
      SplitLinesAfterCrLf(x[1..], t);
      assert [x[0]] + x[1..] == x;
    }
  }

  /** A lone "\r" (one not followed by "\n") after a line-break-free piece is a break. */
  lemma {:induction false} SplitLinesAfterCr(x: string, t: string)
    requires LineFree(x) && (t == [] || t[0] != '\n')
    ensures SplitLines(x + "\r" + t) == [x] + SplitLines(t)
    decreases |x|
  {
    var s := x + "\r" + t;
    if x == [] {
      assert s[1..] == t;
    } else {
      assert s[1..] == x[1..] + "\r" + t;
      SplitLinesAfterCr(x[1..], t);
      assert [x[0]] + x[1..] == x;
    }
  }

  /** Worked case: the self-overlapping "\n\n" is cut at its leftmost occurrence. */
  lemma SplitOnOverlapExample()
    ensures SplitOn("a\n\n\nb", "\n\n") == ["a", "\nb"]
  {
    var d := "\n\n";
    var w := "a" + d[..|d| - 1];
    assert !Occurs(d, w) by {
      forall k | 0 <= k <= |w| ensures !(d <= w[k..]) {
        assert k == 0 ==> w[k..][0] == 'a';
      }
    }
    SplitOnAfterLeftmost("a", d, "\nb");
    assert "a" + d + "\nb" == "a\n\n\nb";
    SplitOnOfNoOccurrence("\nb", d);
  }

  /** Worked case: "aaa" split on "aa" cuts at the very start. */
  lemma SplitOnRepeatExample()
    ensures SplitOn("aaa", "aa") == ["", "a"]
  {
    SplitOnAfterLeftmost("", "aa", "a");
    assert "" + "aa" + "a" == "aaa";
  }

  /** Worked case: "\r\n" is one break, and so is a lone "\r". */
  lemma SplitLinesExample()
    ensures SplitLines("a\r\nb") == ["a", "b"]
    ensures SplitLines("a\rb") == ["a", "b"]
  {
    SplitLinesAfterCrLf("a", "b");
    assert "a" + "\r\n" + "b" == "a\r\nb";
    SplitLinesAfterCr("a", "b");
    assert "a" + "\r" + "b" == "a\rb";
    SplitLinesOfLineFree("b");
  }
}
