/** Python's `str.splitlines()` and `"\n".join(...)`, and the collapsing of
    runs of spaces that substituting ` +` by one space performs. */
module Lines {
  import opened Chars
  import opened Patterns
  import opened Scan

  /** `str.splitlines()`: break at every line boundary (`\r\n` counts as
      one), drop the boundaries, and add no empty line after a final one. */
  function SplitLines(s: string): (ls: seq<string>)
    ensures forall i :: 0 <= i < |ls| ==> All(ls[i], Inline)
    decreases |s|
  {
    if s == [] then []
    else
      var n := RunFrom(s, 0, Inline);
      RunAll(s, 0, Inline);
      if n == |s| then [s]
      else
        var k := if s[n] == '\r' && n + 1 < |s| && s[n + 1] == '\n' then n + 2 else n + 1;
        [s[..n]] + SplitLines(s[k..])
  }

  /** `"\n".join(ls)` */
  function JoinLines(ls: seq<string>): string
    decreases |ls|
  {
    if ls == [] then ""
    else if |ls| == 1 then ls[0]
    else ls[0] + "\n" + JoinLines(ls[1..])
  }

  /** Splitting what was joined gives the lines back, provided no line holds
      a line boundary and the last line is not empty (an empty last line
      leaves only a trailing `\n`, which `splitlines` does not count). */
  lemma {:induction false} SplitJoin(ls: seq<string>)
    requires forall i :: 0 <= i < |ls| ==> All(ls[i], Inline)
    requires ls != [] ==> ls[|ls| - 1] != ""
    ensures SplitLines(JoinLines(ls)) == ls
    decreases |ls|
  {
    if |ls| == 1 {
      RunUnique(ls[0], 0, Inline, |ls[0]|);
    } else if |ls| > 1 {
      var t := JoinLines(ls);
      var rest := JoinLines(ls[1..]);
      assert t == ls[0] + "\n" + rest;
      JoinedFirst(ls[0], rest);
      SplitJoin(ls[1..]);
      assert t[..|ls[0]|] == ls[0] && t[|ls[0]| + 1..] == rest;
    }
  }

  lemma JoinedFirst(l: string, rest: string)
    requires All(l, Inline)
    ensures RunFrom(l + "\n" + rest, 0, Inline) == |l|
  {
    var t := l + "\n" + rest;
    assert t[|l|] == '\n';
    forall i | 0 <= i < |l|
      ensures Inline.Has(t[i])
    {
      assert t[i] == l[i];
    }
    RunUnique(t, 0, Inline, |l|);
  }

  /** Every line holds only characters of a class the whole text holds. */
  lemma {:induction false} SplitLinesKeep(s: string, k: Class)
    requires All(s, k)
    ensures forall i :: 0 <= i < |SplitLines(s)| ==> All(SplitLines(s)[i], k)
    decreases |s|
  {
    if s != [] {
      var n := RunFrom(s, 0, Inline);
      if n < |s| {
        var j := if s[n] == '\r' && n + 1 < |s| && s[n + 1] == '\n' then n + 2 else n + 1;
        assert All(s[j..], k) by {
          forall i | 0 <= i < |s[j..]| ensures k.Has(s[j..][i]) {
            assert s[j..][i] == s[j + i];
          }
        }
        SplitLinesKeep(s[j..], k);
        assert All(s[..n], k) by {
          forall i | 0 <= i < n ensures k.Has(s[..n][i]) {
            assert s[..n][i] == s[i];
          }
        }
      }
    }
  }

  /** A `\n` ends a line whatever follows it: the lines of `x + "\n" + y`
      are those of `x + "\n"`, then those of `y`. */
  lemma {:induction false} SplitAtNewline(x: string, y: string)
    ensures SplitLines(x + "\n" + y) == SplitLines(x + "\n") + SplitLines(y)
    decreases |x|, 1
  {
    var t, w := x + "\n" + y, x + "\n";
    var n := FirstBreak(x, y);
    var k := if n < |x| && x[n] == '\r' && w[n + 1] == '\n' then n + 2 else n + 1;
    assert n < |x| ==> t[n] == x[n] && w[n] == x[n] && t[n + 1] == w[n + 1];
    assert n == |x| ==> t[n] == '\n' && w[n] == '\n';
    SplitStep(t, n, k);
    SplitStep(w, n, k);
    assert t[..n] == w[..n];
    SplitRest(x, y, k);
    ConsAppend(w[..n], SplitLines(w[k..]), SplitLines(y));
  }

  /** After the first line: what is left of `x` still ends at the `\n`, or
      nothing of `x` is left. */
  lemma {:induction false} SplitRest(x: string, y: string, k: nat)
    requires 0 < k <= |x| + 1
    ensures SplitLines((x + "\n" + y)[k..]) == SplitLines((x + "\n")[k..]) + SplitLines(y)
    decreases |x|, 0
  {
    var rest, restW := (x + "\n" + y)[k..], (x + "\n")[k..];
    if k <= |x| {
      var a := x[k..];
      assert rest == a + "\n" + y;
      assert restW == a + "\n";
      SplitAtNewline(a, y);
    } else {
      assert rest == y && restW == [];
      assert SplitLines(restW) == [];
    }
  }

  lemma ConsAppend<T>(x: T, p: seq<T>, q: seq<T>)
    ensures [x] + (p + q) == ([x] + p) + q
  {
  }

  /** One step of `splitlines`: the first line up to the boundary at `n`,
      then the lines after the boundary, which ends before `k`. */
  lemma SplitStep(s: string, n: nat, k: nat)
    requires n < |s| && RunFrom(s, 0, Inline) == n
    requires k == if s[n] == '\r' && n + 1 < |s| && s[n + 1] == '\n' then n + 2 else n + 1
    ensures SplitLines(s) == [s[..n]] + SplitLines(s[k..])
  {
  }

  /** Where the first line of `x + "\n" + y` ends, and of `x + "\n"`: at the
      first line boundary in `x`, or else at the added `\n`. */
  lemma FirstBreak(x: string, y: string) returns (n: nat)
    ensures n <= |x|
    ensures RunFrom(x + "\n" + y, 0, Inline) == n && RunFrom(x + "\n", 0, Inline) == n
    ensures n == |x| || !Inline.Has(x[n])
  {
    var t, w := x + "\n" + y, x + "\n";
    n := RunFrom(x, 0, Inline);
    RunAll(x, 0, Inline);
    forall i | 0 <= i < n ensures Inline.Has(t[i]) && Inline.Has(w[i]) {
      assert t[i] == x[i] && w[i] == x[i];
    }
    assert n < |x| ==> t[n] == x[n] && w[n] == x[n];
    RunUnique(t, 0, Inline, n);
    RunUnique(w, 0, Inline, n);
  }

  /** A line without line boundaries, ended by `\n`, is one line. */
  lemma SplitEndedLine(l: string)
    requires All(l, Inline)
    ensures SplitLines(l + "\n") == [l]
  {
    var w := l + "\n";
    var n := FirstBreak(l, "");
    assert l + "\n" + "" == w;
    assert w[..n] == l && w[n + 1..] == [];
  }

  // ---------------------------------------------------------------------
  // Collapsing runs of spaces

  /** No two spaces in a row. */
  predicate NoDoubleSpace(s: string) {
    forall i :: 0 <= i < |s| - 1 ==> !(s[i] == ' ' && s[i + 1] == ' ')
  }

  /** How far one step of collapsing moves: past the whole run of spaces,
      or past one other character. */
  function StepFrom(l: string, p: nat): (n: nat)
    requires p < |l|
    ensures 0 < n && p + n <= |l|
    ensures l[p] == ' ' && p + n < |l| ==> l[p + n] != ' '
  {
    if l[p] == ' ' then RunFrom(l, p, Is(' ')) else 1
  }

  /** The text from `p` on with each run of spaces shrunk to one space: each
      step keeps its first character. */
  function CollapseFrom(l: string, p: nat): (r: string)
    requires p <= |l|
    ensures p < |l| ==> r != [] && r[0] == l[p]
    decreases |l| - p
  {
    if p == |l| then [] else [l[p]] + CollapseFrom(l, p + StepFrom(l, p))
  }

  function Collapse(l: string): string {
    CollapseFrom(l, 0)
  }

  /** The result has no two spaces in a row. */
  lemma {:induction false} CollapseNoDouble(l: string, p: nat)
    requires p <= |l|
    ensures NoDoubleSpace(CollapseFrom(l, p))
    decreases |l| - p
  {
    if p < |l| {
      var n := StepFrom(l, p);
      CollapseNoDouble(l, p + n);
      var r := CollapseFrom(l, p);
      forall i | 0 <= i < |r| - 1 ensures !(r[i] == ' ' && r[i + 1] == ' ') {
        if i > 0 {
          assert r[i] == CollapseFrom(l, p + n)[i - 1];
        }
      }
    }
  }

  /** Text with no two spaces in a row is left as it is. */
  lemma {:induction false} CollapseKeeps(l: string, p: nat)
    requires p <= |l| && NoDoubleSpace(l)
    ensures CollapseFrom(l, p) == l[p..]
    decreases |l| - p
  {
    if p < |l| {
      var n := StepFrom(l, p);
      assert n == 1 by {
        if l[p] == ' ' {
          SingleSpace(l, p);
        }
      }
      CollapseKeeps(l, p + 1);
      assert l[p..] == [l[p]] + l[p + 1..];
    }
  }

  /** In text with no two spaces in a row, a run of spaces is one space. */
  lemma SingleSpace(l: string, p: nat)
    requires p < |l| && l[p] == ' ' && NoDoubleSpace(l)
    ensures RunFrom(l, p, Is(' ')) == 1
  {
    if p + 1 < |l| {
      assert !(l[p] == ' ' && l[p + 1] == ' ');
    }
    RunUnique(l, p, Is(' '), 1);
  }

  /** A class that holds over the text holds over the result. */
  lemma {:induction false} CollapseKeepsClass(l: string, p: nat, k: Class)
    requires AllIn(l, p, |l|, k)
    ensures All(CollapseFrom(l, p), k)
    decreases |l| - p
  {
    if p < |l| {
      var n := StepFrom(l, p);
      CollapseKeepsClass(l, p + n, k);
      var r := CollapseFrom(l, p);
      forall i | 0 <= i < |r| ensures k.Has(r[i]) {
        if i > 0 {
          assert r[i] == CollapseFrom(l, p + n)[i - 1];
        }
      }
    }
  }

  /** The result is all whitespace exactly when the text is. */
  lemma {:induction false} CollapseBlank(l: string, p: nat)
    requires p <= |l|
    ensures All(CollapseFrom(l, p), Space) <==> AllIn(l, p, |l|, Space)
    decreases |l| - p
  {
    if AllIn(l, p, |l|, Space) {
      CollapseKeepsClass(l, p, Space);
    } else {
      var i :| p <= i < |l| && !IsSpace(l[i]);
      CollapseHasAt(l, p, i);
    }
  }

  /** A character other than whitespace survives into the result. */
  lemma {:induction false} CollapseHasAt(l: string, p: nat, i: nat)
    requires p <= i < |l| && !IsSpace(l[i])
    ensures !All(CollapseFrom(l, p), Space)
    decreases i - p
  {
    var n := StepFrom(l, p);
    if p < i {
      if l[p] == ' ' {
        RunStops(l, p, Is(' '), i);
      }
      CollapseHasAt(l, p + n, i);
      var r := CollapseFrom(l, p + n);
      var j :| 0 <= j < |r| && !IsSpace(r[j]);
      ConsIndex(l[p], r, j);
    }
  }

  lemma ConsIndex<T>(x: T, r: seq<T>, j: nat)
    requires j < |r|
    ensures ([x] + r)[j + 1] == r[j]
  {
  }

  /** A last character other than a space stays last. */
  lemma {:induction false} CollapseLast(l: string, p: nat)
    requires p < |l| && l[|l| - 1] != ' '
    ensures CollapseFrom(l, p)[|CollapseFrom(l, p)| - 1] == l[|l| - 1]
    decreases |l| - p
  {
    var n := StepFrom(l, p);
    var rest := CollapseFrom(l, p + n);
    assert CollapseFrom(l, p) == [l[p]] + rest;
    if p + n < |l| {
      CollapseLast(l, p + n);
      ConsLast(l[p], rest);
    } else {
      LastStep(l, p);
      assert rest == [];
    }
  }

  /** Only the last character's step reaches the end of a line that does
      not end in a space. */
  lemma LastStep(l: string, p: nat)
    requires p < |l| && l[|l| - 1] != ' '
    ensures p + StepFrom(l, p) == |l| ==> p == |l| - 1
  {
    if l[p] == ' ' {
      RunStops(l, p, Is(' '), |l| - 1);
    }
  }

  lemma ConsLast<T>(x: T, r: seq<T>)
    requires r != []
    ensures ([x] + r)[|[x] + r| - 1] == r[|r| - 1]
  {
  }

  /** Substituting one space for every match of ` +` is `Collapse(l)`. */
  lemma SpacesSubIsCollapse(l: string)
    ensures Sub(Spaces, [Text(" ")], l) == Collapse(l)
  {
    AttemptSteps(Spaces, l);
    forall q: nat | q <= |l| ensures Attempt(Spaces, l)(q) == SpacesHere(l, q) {
      assert Attempt(Spaces, l)(q) == MatchAt(Spaces, l, q);
    }
    SpacesSubFrom(Attempt(Spaces, l), l, 0);
  }

  lemma {:induction false} SpacesSubFrom(at: Attempts, l: string, p: nat)
    requires p <= |l| && Steps(at, l, 0)
    requires forall q: nat {:trigger SpacesHere(l, q)} :: q <= |l| ==> at(q) == SpacesHere(l, q)
    ensures SubFrom(at, l, 0, [Text(" ")], p) == CollapseFrom(l, p)
    decreases |l| - p
  {
    if p < |l| {
      var n := StepFrom(l, p);
      assert at(p) == SpacesHere(l, p);
      SpacesSubOne(at, l, p);
      SpacesSubFrom(at, l, p + n);
      assert CollapseFrom(l, p) == [l[p]] + CollapseFrom(l, p + n);
    } else {
      assert at(p) == SpacesHere(l, p);
      SubAtEnd(at, l, 0, [Text(" ")]);
    }
  }

  /** One step of the substitution does what one step of collapsing does. */
  lemma SpacesSubOne(at: Attempts, l: string, p: nat)
    requires p < |l| && Steps(at, l, 0) && at(p) == SpacesHere(l, p)
    ensures SubFrom(at, l, 0, [Text(" ")], p) == [l[p]] + SubFrom(at, l, 0, [Text(" ")], p + StepFrom(l, p))
  {
    var n := StepFrom(l, p);
    if l[p] == ' ' {
      SpacesSubStep(at, l, p, n);
    } else {
      SubSkips(at, l, 0, [Text(" ")], p);
    }
  }

  lemma SpacesSubStep(at: Attempts, l: string, p: nat, n: nat)
    requires p + n <= |l| && Steps(at, l, 0) && at(p) == Some(Hit(p + n, []))
    ensures SubFrom(at, l, 0, [Text(" ")], p) == " " + SubFrom(at, l, 0, [Text(" ")], p + n)
  {
    assert Search(at, l, p) == Some(Found(p, Hit(p + n, [])));
    assert Expand([Text(" ")], l, Hit(p + n, [])) == " ";
    assert l[p..p] == "";
  }

  /** Where no attempt succeeds at `p`, `re.sub` keeps the character there. */
  lemma SubSkips(at: Attempts, s: string, groups: nat, tmpl: seq<Piece>, p: nat)
    requires p < |s| && Steps(at, s, groups) && RefsWithin(tmpl, groups) && at(p).None?
    ensures SubFrom(at, s, groups, tmpl, p) == [s[p]] + SubFrom(at, s, groups, tmpl, p + 1)
  {
    assert Search(at, s, p) == Search(at, s, p + 1);
    match Search(at, s, p + 1)
    case None =>
      assert s[p..] == [s[p]] + s[p + 1..];
    case Some(f) =>
      assert s[p..f.start] == [s[p]] + s[p + 1..f.start];
  }

  // ---------------------------------------------------------------------
  // The shape of tidy text

  /** A line as the normaliser leaves it: not empty, no line boundary, no
      whitespace at either end, no two spaces in a row. */
  predicate TidyLine(l: string) {
    && l != []
    && All(l, Inline)
    && !IsSpace(l[0]) && !IsSpace(l[|l| - 1])
    && NoDoubleSpace(l)
  }

  /** Text made of tidy lines joined by `\n`, described character by
      character: no two spaces in a row, no whitespace at either end, and
      every line boundary is a `\n` with a character other than whitespace
      on each side (so no empty or blank line, no leading or trailing
      `\n`). */
  predicate Tidy(r: string) {
    && NoDoubleSpace(r)
    && (r != [] ==> !IsSpace(r[0]) && !IsSpace(r[|r| - 1]))
    && forall i :: 0 <= i < |r| && IsLineBreak(r[i]) ==>
         r[i] == '\n' && 0 < i < |r| - 1 && !IsSpace(r[i - 1]) && !IsSpace(r[i + 1])
  }

  lemma TidyOne(l: string)
    requires TidyLine(l)
    ensures Tidy(l)
  {
  }

  lemma {:induction false} JoinHead(ls: seq<string>)
    requires ls != [] && ls[0] != []
    ensures JoinLines(ls) != [] && JoinLines(ls)[0] == ls[0][0]
  {
    if |ls| > 1 {
      assert JoinLines(ls) == ls[0] + "\n" + JoinLines(ls[1..]);
    }
  }

  lemma {:induction false} JoinLast(ls: seq<string>)
    requires ls != [] && ls[|ls| - 1] != []
    ensures JoinLines(ls) != []
    ensures JoinLines(ls)[|JoinLines(ls)| - 1] == ls[|ls| - 1][|ls[|ls| - 1]| - 1]
    decreases |ls|
  {
    if |ls| > 1 {
      var rest := ls[1..];
      JoinLast(rest);
      assert rest[|rest| - 1] == ls[|ls| - 1];
      assert JoinLines(ls) == ls[0] + "\n" + JoinLines(rest);
    }
  }

  /** Joining tidy lines gives tidy text. */
  lemma {:induction false} JoinTidy(ls: seq<string>)
    requires forall i :: 0 <= i < |ls| ==> TidyLine(ls[i])
    ensures Tidy(JoinLines(ls))
    decreases |ls|
  {
    if |ls| == 1 {
      TidyOne(ls[0]);
    } else if |ls| > 1 {
      var rest := JoinLines(ls[1..]);
      JoinTidy(ls[1..]);
      JoinHead(ls[1..]);
      JoinLast(ls[1..]);
      TidyCons(ls[0], rest);
      assert JoinLines(ls) == ls[0] + "\n" + rest;
    }
  }

  lemma TidyCons(l: string, rest: string)
    requires TidyLine(l) && Tidy(rest) && rest != []
    ensures Tidy(l + "\n" + rest)
  {
    var r := l + "\n" + rest;
    var n := |l|;
    assert r[n] == '\n';
    assert r[0] == l[0] && r[n - 1] == l[n - 1] && r[n + 1] == rest[0] && r[|r| - 1] == rest[|rest| - 1];
    forall i | 0 <= i < |r| - 1 ensures !(r[i] == ' ' && r[i + 1] == ' ') {
      if i < n - 1 {
        assert r[i] == l[i] && r[i + 1] == l[i + 1];
      } else if i > n {
        assert r[i] == rest[i - n - 1] && r[i + 1] == rest[i - n];
      }
    }
    forall i | 0 <= i < n ensures !IsLineBreak(r[i]) {
      assert r[i] == l[i] && Inline.Has(l[i]);
    }
    forall i | 0 <= i < |r| && IsLineBreak(r[i])
      ensures r[i] == '\n' && 0 < i < |r| - 1 && !IsSpace(r[i - 1]) && !IsSpace(r[i + 1])
    {
      if i > n {
        assert r[i] == rest[i - n - 1];
        if i > n + 1 {
          assert r[i - 1] == rest[i - n - 2];
        }
        if i < |r| - 1 {
          assert r[i + 1] == rest[i - n];
        }
      }
    }
  }

  /** A piece of a text keeps the text's classes and its lack of double
      spaces. */
  lemma SliceKeeps(s: string, a: nat, b: nat, k: Class)
    requires a <= b <= |s|
    ensures NoDoubleSpace(s) ==> NoDoubleSpace(s[a..b])
    ensures All(s, k) ==> All(s[a..b], k)
  {
    assert forall i :: 0 <= i < b - a ==> s[a..b][i] == s[a + i];
  }
}
