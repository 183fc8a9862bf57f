/** What the header pattern `^={3,}\s*(.*?)\s*={3,}$` does to a whole line
    of the form `=== title ===`: it matches the line, and its group is the
    title with the surrounding whitespace removed. */
module Headers {
  import opened Chars
  import opened Patterns

  /** From `p`, `s` holds a line of `i >= 3` equals signs, a middle part `m`
      that neither starts nor ends with `=`, and `j >= 3` equals signs. */
  predicate TitledLine(s: string, p: nat, i: nat, m: string, j: nat) {
    && 3 <= i && 3 <= j
    && 0 < |m| && m[0] != '=' && m[|m| - 1] != '='
    && All(m, Not('\n'))
    && AllIn(s, p, p + i, Is('='))
    && HasAt(s, p + i, m)
    && AllIn(s, p + i + |m|, p + i + |m| + j, Is('='))
    && AtLineEnd(s, p + i + |m| + j)
  }

  /** The same line cut where the pattern's parts meet: equals signs up to
      `o`, whitespace up to `g0`, the title up to `h1` (starting and ending
      with a non-whitespace character), whitespace up to `c`, equals signs up
      to the line end `e`. The whitespace after the opening run may hold
      line breaks; from the title on, nothing does. */
  predicate HeaderLayout(s: string, p: nat, o: nat, g0: nat, h1: nat, c: nat, e: nat) {
    && p + 3 <= o <= g0 <= h1 <= c && o < c && c + 3 <= e <= |s|
    && AllIn(s, p, o, Is('='))
    && s[o] != '='
    && AllIn(s, o, g0, Space)
    && (g0 < h1 ==> !IsSpace(s[g0]) && !IsSpace(s[h1 - 1]))
    && (g0 == h1 ==> h1 == c)
    && AllIn(s, h1, c, Space)
    && s[c - 1] != '='
    && AllIn(s, c, e, Is('='))
    && AllIn(s, g0, e, Not('\n'))
    && AtLineEnd(s, e)
  }

  /** The closing `={3,}` started at `cc` cannot reach the line end when a
      character other than `=` (and other than a newline) comes at `y`. */
  lemma {:induction false} CloseFails(s: string, p: nat, o: nat, g0: nat, h: nat, cc: nat, b: nat, y: nat)
    requires p + 3 <= o <= g0 <= h <= cc <= |s| && b <= RunFrom(s, cc, Is('='))
    requires cc <= y < |s| && s[y] != '=' && AllIn(s, cc, y + 1, Not('\n'))
    ensures HeaderClose(s, p, o, g0, h, cc, b).None?
    decreases b
  {
    if b >= 3 {
      RunStops(s, cc, Is('='), y);
      CloseFails(s, p, o, g0, h, cc, b - 1, y);
    }
  }

  /** Before the title's end no length of the second `\s*` lets the rest
      match: whitespace stops at the non-whitespace character at `z`, and the
      closing run then stops at `y`. */
  lemma {:induction false} RightSpaceFails(s: string, p: nat, o: nat, g0: nat, h: nat, k: nat, z: nat, y: nat)
    requires p + 3 <= o <= g0 <= h <= |s| && k <= RunFrom(s, h, Space)
    requires h <= z <= y < |s| && !IsSpace(s[z]) && s[y] != '=' && AllIn(s, h, y + 1, Not('\n'))
    ensures HeaderRightSpace(s, p, o, g0, h, k).None?
    decreases k
  {
    RunStops(s, h, Space, z);
    CloseFails(s, p, o, g0, h, h + k, RunFrom(s, h + k, Is('=')), y);
    if k > 0 {
      RightSpaceFails(s, p, o, g0, h, k - 1, z, y);
    }
  }

  /** At the title's end the second `\s*` and the closing run take their
      longest runs and reach the line end. */
  lemma CloseSucceeds(s: string, p: nat, o: nat, g0: nat, h1: nat, c: nat, e: nat)
    requires HeaderLayout(s, p, o, g0, h1, c, e)
    ensures HeaderTitle(s, p, o, g0, h1) == Some(Hit(e, [Span(g0, h1)]))
  {
    RunUnique(s, h1, Space, c - h1);
    RunUnique(s, c, Is('='), e - c);
    CloseHits(s, p, o, g0, h1, c, e);
  }

  lemma CloseHits(s: string, p: nat, o: nat, g0: nat, h1: nat, c: nat, e: nat)
    requires p + 3 <= o <= g0 <= h1 <= c <= |s|
    requires h1 + RunFrom(s, h1, Space) == c && c + RunFrom(s, c, Is('=')) == e
    requires c + 3 <= e && AtLineEnd(s, e)
    ensures HeaderTitle(s, p, o, g0, h1) == Some(Hit(e, [Span(g0, h1)]))
  {
    assert HeaderClose(s, p, o, g0, h1, c, RunFrom(s, c, Is('='))) == Some(Hit(e, [Span(g0, h1)]));
    assert HeaderRightSpace(s, p, o, g0, h1, RunFrom(s, h1, Space)) == Some(Hit(e, [Span(g0, h1)]));
  }

  /** The lazy title grows one character at a time from `h` until it reaches
      `h1`: before that, whitespace stops at the title's last character and
      the closing run stops at the `y` before the closing equals signs. */
  lemma {:induction false} TitleScan(s: string, p: nat, o: nat, g0: nat, h: nat, h1: nat, y: nat, x: Option<Hit>)
    requires p + 3 <= o <= g0 <= h <= h1 <= y + 1 && y < |s|
    requires AllIn(s, h, y + 1, Not('\n')) && s[y] != '='
    requires h < h1 ==> !IsSpace(s[h1 - 1])
    requires HeaderTitle(s, p, o, g0, h1) == x
    ensures HeaderTitle(s, p, o, g0, h) == x
    decreases h1 - h
  {
    if h < h1 {
      RightSpaceFails(s, p, o, g0, h, RunFrom(s, h, Space), h1 - 1, y);
      TitleScan(s, p, o, g0, h + 1, h1, y, x);
      TitleGrows(s, p, o, g0, h, x);
    }
  }

  lemma TitleGrows(s: string, p: nat, o: nat, g0: nat, h: nat, x: Option<Hit>)
    requires p + 3 <= o <= g0 <= h < |s| && s[h] != '\n'
    requires HeaderRightSpace(s, p, o, g0, h, RunFrom(s, h, Space)).None?
    requires HeaderTitle(s, p, o, g0, h + 1) == x
    ensures HeaderTitle(s, p, o, g0, h) == x
  {
  }

  /** A line laid out as a header is matched as one: the opening `={3,}` and
      the first `\s*` take their longest runs, and the lazy title grows until
      only whitespace and the closing equals signs are left. */
  lemma HeaderOfLayout(s: string, p: nat, o: nat, g0: nat, h1: nat, c: nat, e: nat)
    requires HeaderLayout(s, p, o, g0, h1, c, e)
    ensures HeaderHere(s, p) == Some(Hit(e, [Span(g0, h1)]))
  {
    var x := Some(Hit(e, [Span(g0, h1)]));
    LayoutRuns(s, p, o, g0, h1, c, e);
    CloseSucceeds(s, p, o, g0, h1, c, e);
    TitleScan(s, p, o, g0, g0, h1, c - 1, x);
    OpenHits(s, p, o, g0, x);
  }

  /** The opening equals signs and the whitespace after them are whole
      runs, and the rest of the line up to the closing run has no newline. */
  lemma LayoutRuns(s: string, p: nat, o: nat, g0: nat, h1: nat, c: nat, e: nat)
    requires HeaderLayout(s, p, o, g0, h1, c, e)
    ensures p + RunFrom(s, p, Is('=')) == o && o + RunFrom(s, o, Space) == g0
    ensures AllIn(s, g0, c, Not('\n'))
  {
    RunUnique(s, p, Is('='), o - p);
    if g0 < h1 {
      assert !IsSpace(s[g0]);
    } else {
      assert s[g0] == '=';
    }
    RunUnique(s, o, Space, g0 - o);
  }

  lemma OpenHits(s: string, p: nat, o: nat, g0: nat, x: Option<Hit>)
    requires p <= |s| && p + RunFrom(s, p, Is('=')) == o && p + 3 <= o
    requires o + RunFrom(s, o, Space) == g0
    requires HeaderTitle(s, p, o, g0, g0) == x && x.Some?
    ensures HeaderHere(s, p) == x
  {
    var k := RunFrom(s, o, Space);
    assert o + k == g0;
    assert HeaderLeftSpace(s, p, o, k) == x;
    assert HeaderOpen(s, p, o - p) == x;
  }

  /** Where the title the header pattern captures starts and ends in the text. */
  function TitleStart(p: nat, i: nat, m: string): nat {
    p + i + RunFrom(m, 0, Space)
  }

  function TitleEnd(p: nat, i: nat, m: string): nat {
    TitleStart(p, i, m) + |Strip(m)|
  }

  /** A line `=== title ===` (any runs of at least three `=`, whatever the
      rest of the text) is a header whose captured title is the line's middle
      part with its surrounding whitespace removed. */
  lemma HeaderOfTitledLine(s: string, p: nat, i: nat, m: string, j: nat)
    requires TitledLine(s, p, i, m, j)
    ensures HeaderHere(s, p) == Some(Hit(p + i + |m| + j, [Span(TitleStart(p, i, m), TitleEnd(p, i, m))]))
    ensures TitleEnd(p, i, m) <= |s| && s[TitleStart(p, i, m)..TitleEnd(p, i, m)] == Strip(m)
  {
    TitledLineLayout(s, p, i, m, j);
    HeaderOfLayout(s, p, p + i, TitleStart(p, i, m), TitleEnd(p, i, m), p + i + |m|, p + i + |m| + j);
  }

  lemma TitledLineLayout(s: string, p: nat, i: nat, m: string, j: nat)
    requires TitledLine(s, p, i, m, j)
    ensures HeaderLayout(s, p, p + i, TitleStart(p, i, m), TitleEnd(p, i, m), p + i + |m|, p + i + |m| + j)
    ensures TitleEnd(p, i, m) <= |s| && s[TitleStart(p, i, m)..TitleEnd(p, i, m)] == Strip(m)
  {
    var o := p + i;
    var g0, h1 := TitleStart(p, i, m), TitleEnd(p, i, m);
    MiddleSpaces(s, o, m, g0, h1);
    MiddleEnds(s, o, m);
    MiddleCore(s, o, m, g0, h1);
    LineHasNoNewline(s, p, i, m, j);
  }

  /** The middle part copied into the text: its leading whitespace, its
      stripped title, its trailing whitespace. */
  lemma MiddleSpaces(s: string, o: nat, m: string, g0: nat, h1: nat)
    requires HasAt(s, o, m) && 0 < |m|
    requires g0 == o + RunFrom(m, 0, Space) && h1 == g0 + |Strip(m)|
    ensures h1 <= o + |m|
    ensures AllIn(s, o, g0, Space) && AllIn(s, h1, o + |m|, Space)
    ensures g0 == h1 ==> h1 == o + |m|
  {
    var lead := RunFrom(m, 0, Space);
    var n := |Strip(m)|;
    StripCuts(m);
    AllInCopy(s, o, m, 0, lead, Space);
    AllInCopy(s, o, m, lead + n, |m|, Space);
  }

  lemma MiddleCore(s: string, o: nat, m: string, g0: nat, h1: nat)
    requires HasAt(s, o, m)
    requires g0 == o + RunFrom(m, 0, Space) && h1 == g0 + |Strip(m)|
    ensures h1 <= |s| && s[g0..h1] == Strip(m)
    ensures g0 < h1 ==> !IsSpace(s[g0]) && !IsSpace(s[h1 - 1])
  {
    MiddleTitle(s, o, m, RunFrom(m, 0, Space), Strip(m));
  }

  lemma MiddleEnds(s: string, o: nat, m: string)
    requires HasAt(s, o, m) && 0 < |m|
    ensures s[o] == m[0] && s[o + |m| - 1] == m[|m| - 1]
  {
    assert s[o + 0] == m[0] && s[o + (|m| - 1)] == m[|m| - 1];
  }

  lemma MiddleTitle(s: string, o: nat, m: string, lead: nat, t: string)
    requires HasAt(s, o, m) && lead + |t| <= |m| && t == m[lead..lead + |t|]
    requires |t| > 0 ==> !IsSpace(t[0]) && !IsSpace(t[|t| - 1])
    ensures s[o + lead..o + lead + |t|] == t
    ensures |t| > 0 ==> !IsSpace(s[o + lead]) && !IsSpace(s[o + lead + |t| - 1])
  {
    forall q | 0 <= q < |t|
      ensures s[o + lead..o + lead + |t|][q] == t[q]
    {
      assert s[o + (lead + q)] == m[lead + q];
    }
  }

  lemma LineHasNoNewline(s: string, p: nat, i: nat, m: string, j: nat)
    requires TitledLine(s, p, i, m, j)
    ensures AllIn(s, p, p + i + |m| + j, Not('\n'))
  {
    AllInCopy(s, p + i, m, 0, |m|, Not('\n'));
  }

  // ---------------------------------------------------------------------
  // A line of equals signs only

  /** A line of `=` and nothing else is a header exactly when it has at
      least six: the opening and the closing run each need three. The opening
      run gives back all but its last three, so the captured title is empty. */
  lemma HeaderOfRule(s: string)
    requires All(s, Is('='))
    ensures HeaderHere(s, 0) == if 6 <= |s| then Some(Hit(|s|, [Span(|s| - 3, |s| - 3)])) else None
  {
    RuleRuns(s, 0);
    RuleOpen(s, |s|);
  }

  /** The opening run holding its first `a` characters: the title starts
      where the run stops, as late as leaves three `=` for the close. */
  lemma {:induction false} RuleOpen(s: string, a: nat)
    requires All(s, Is('=')) && a <= |s|
    ensures RunFrom(s, 0, Is('=')) == |s|
    ensures HeaderOpen(s, 0, a) ==
      if 3 <= a && 6 <= |s| then
        var k := if a + 3 <= |s| then a else |s| - 3;
        Some(Hit(|s|, [Span(k, k)]))
      else None
    decreases a
  {
    RuleRuns(s, 0);
    if 3 <= a {
      RuleRuns(s, a);
      RuleTitle(s, 0, a, a, a);
      RuleOpen(s, a - 1);
    }
  }

  /** The lazy title on a line of `=`: the pattern closes at the line end
      as soon as three `=` are left for the closing run. */
  lemma {:induction false} RuleTitle(s: string, p: nat, o: nat, g0: nat, h: nat)
    requires All(s, Is('=')) && p + 3 <= o <= g0 <= h <= |s|
    ensures HeaderTitle(s, p, o, g0, h) == if h + 3 <= |s| then Some(Hit(|s|, [Span(g0, h)])) else None
    decreases |s| - h
  {
    RuleRuns(s, h);
    if h + 3 > |s| && h < |s| {
      RuleTitle(s, p, o, g0, h + 1);
    }
  }

  /** On a line of `=`, the run of `=` from `q` reaches the end, and the
      run of whitespace is empty. */
  lemma RuleRuns(s: string, q: nat)
    requires All(s, Is('=')) && q <= |s|
    ensures RunFrom(s, q, Is('=')) == |s| - q && RunFrom(s, q, Space) == 0
  {
    RunUnique(s, q, Is('='), |s| - q);
    RunUnique(s, q, Space, 0);
  }
}
