/** What `clean_text` does to one line of a longer text. The two
    regular-expression passes work on the whole text, so whether a line is
    touched can depend on its neighbours: a line that no match of either pass
    touches comes out as one line of the result, cleaned, and a line
    `=== title ===` comes out as `## title` unless the text before it ends
    with a line that opens a header and so takes the titled line into its
    own match. */
module InContext {
  import opened Chars
  import opened Patterns
  import opened Scan
  import opened Lines
  import opened Headers
  import opened Cleansing

  /** `s[a..b]` is a whole `\n`-separated line of `s`. */
  predicate IsLine(s: string, a: nat, b: nat) {
    && a <= b <= |s|
    && AtLineStart(s, a) && AtLineEnd(s, b)
    && AllIn(s, a, b, Not('\n'))
  }

  /** `s` holds the line `l` at `a`. */
  predicate HoldsLine(s: string, a: nat, l: string) {
    IsLine(s, a, a + |l|) && s[a..a + |l|] == l
  }

  /** Where the `\n` in front of the line starting at `a` is, if there is one. */
  function Before(a: nat): nat {
    if a == 0 then 0 else a - 1
  }

  /** Just past the `\n` after the line ending at `b`, if there is one. */
  function After(s: string, b: nat): nat
    requires b <= |s|
  {
    if b == |s| then b else b + 1
  }

  /** What the pass of `pat` makes of the text before `lo`. */
  function SubBefore(pat: Pattern, tmpl: seq<Piece>, s: string, lo: nat): string
    requires lo <= |s| && RefsWithin(tmpl, pat.GroupCount())
  {
    AttemptSteps(pat, s);
    SubTo(Attempt(pat, s), s, pat.GroupCount(), tmpl, 0, lo)
  }

  /** What the pass of `pat` makes of the text from `e` on. */
  function SubAfter(pat: Pattern, tmpl: seq<Piece>, s: string, e: nat): string
    requires e <= |s| && RefsWithin(tmpl, pat.GroupCount())
  {
    AttemptSteps(pat, s);
    SubFrom(Attempt(pat, s), s, pat.GroupCount(), tmpl, e)
  }

  /** Where the line starting at `a` stands once the pass of `pat` has
      replaced the matches before it. */
  function ShiftedStart(pat: Pattern, tmpl: seq<Piece>, s: string, a: nat): nat
    requires a <= |s| && RefsWithin(tmpl, pat.GroupCount())
  {
    |SubBefore(pat, tmpl, s, Before(a))| + (a - Before(a))
  }

  // ---------------------------------------------------------------------
  // One pass

  /** A line that no match of a pass touches -- no match reaches across the
      `\n` in front of it, and no attempt succeeds from there up to the `\n`
      after it -- stands, as a whole line and unchanged, in the pass's output,
      at the position `ShiftedStart` gives. */
  lemma PassKeepsLine(pat: Pattern, tmpl: seq<Piece>, s: string, a: nat, b: nat, a2: nat)
    requires RefsWithin(tmpl, pat.GroupCount()) && IsLine(s, a, b)
    requires NoneAcross(Matches(pat, s), Before(a))
    requires NoMatchIn(Attempt(pat, s), s, Before(a), After(s, b))
    requires a2 == ShiftedStart(pat, tmpl, s, a)
    ensures HoldsLine(Sub(pat, tmpl, s), a2, s[a..b])
  {
    var at, g := Attempt(pat, s), pat.GroupCount();
    AttemptSteps(pat, s);
    var lo, hi := Before(a), After(s, b);
    SubKeepsWindow(at, s, g, tmpl, lo, hi);
    var u, v := SubTo(at, s, g, tmpl, 0, lo), SubFrom(at, s, g, tmpl, hi);
    SubAtEnd(at, s, g, tmpl);
    WindowLine(s, a, b, Sub(pat, tmpl, s), u, v, a2);
  }

  /** The text around a window `s[Before(a)..After(s, b)]` holding a line:
      the line stands in `u + window + v` as a line, after `u`. */
  lemma WindowLine(s: string, a: nat, b: nat, t: string, u: string, v: string, a2: nat)
    requires IsLine(s, a, b)
    requires t == u + s[Before(a)..After(s, b)] + v
    requires Before(a) == 0 ==> u == []
    requires After(s, b) == |s| ==> v == []
    requires a2 == |u| + (a - Before(a))
    ensures HoldsLine(t, a2, s[a..b])
  {
    var lo, hi := Before(a), After(s, b);
    var w, l, e2 := s[lo..hi], s[a..b], a2 + (b - a);
    assert l == w[a - lo..b - lo];
    MiddleHasAt(u, w, v, a - lo, b - lo);
    assert t[a2..e2] == l;
    SliceAllIn(s, a, b, 0, b - a, Not('\n'));
    AllInCopy(t, a2, l, 0, |l|, Not('\n'));
    if 0 < a {
      MiddleAt(u, w, v, 0);
      assert w[0] == s[a - 1];
    }
    if b < |s| {
      MiddleAt(u, w, v, b - lo);
      assert w[b - lo] == s[b];
    }
    assert AtLineStart(t, a2) && AtLineEnd(t, e2);
  }

  /** A stretch of the middle of `u + w + v` stands there after `u`. */
  lemma MiddleHasAt<T>(u: seq<T>, w: seq<T>, v: seq<T>, x: nat, y: nat)
    requires x <= y <= |w|
    ensures (u + w + v)[|u| + x..|u| + y] == w[x..y]
  {
  }

  /** An element of the middle of `u + w + v` stands there after `u`. */
  lemma MiddleAt<T>(u: seq<T>, w: seq<T>, v: seq<T>, j: nat)
    requires j < |w|
    ensures (u + w + v)[|u| + j] == w[j]
  {
  }

  /** A page-number match holds only whitespace and digits, starts at a line
      start and ends at a line end, so it cannot overlap a line holding any
      other character, nor the `\n`s around that line. */
  lemma PageMissesLine(s: string, a: nat, b: nat, i: nat, q: nat, e: nat)
    requires IsLine(s, a, b) && a <= i < b && !IsSpace(s[i]) && !IsDigit(s[i])
    requires q <= |s| && AtLineStart(s, q) && PageHere(s, q) == Some(Hit(e, []))
    ensures e <= Before(a) || After(s, b) <= q
  {
    var w, d := PageWitness(s, q, e);
    assert forall k :: q <= k < e ==> IsSpace(s[k]) || IsDigit(s[k]);
    assert 0 < q ==> s[q - 1] == '\n';
    assert e < |s| ==> s[e] == '\n';
  }

  /** So the page-number pass never touches such a line. */
  lemma PageSparesLine(s: string, a: nat, b: nat, i: nat)
    requires IsLine(s, a, b) && a <= i < b && !IsSpace(s[i]) && !IsDigit(s[i])
    ensures NoneAcross(Matches(PageNumber, s), Before(a))
    ensures NoMatchIn(Attempt(PageNumber, s), s, Before(a), After(s, b))
  {
    var at := Attempt(PageNumber, s);
    var ms := Matches(PageNumber, s);
    forall k | 0 <= k < |ms|
      ensures ms[k].hit.end <= Before(a) || Before(a) <= ms[k].start
    {
      var f := ms[k];
      assert at(f.start) == Some(f.hit);
      PageMissesLine(s, a, b, i, f.start, f.hit.end);
    }
    forall q: nat | Before(a) <= q < After(s, b) && q <= |s|
      ensures at(q).None?
    {
      if at(q).Some? {
        PageMissesLine(s, a, b, i, q, at(q).value.end);
      }
    }
  }

  /** No header attempt succeeds on a line that does not start with `=`,
      nor at the `\n`s around it: a header starts with `=` at a line start. */
  lemma HeaderSparesLineStart(s: string, a: nat, b: nat)
    requires IsLine(s, a, b) && (a < b ==> s[a] != '=')
    ensures NoMatchIn(Attempt(HeaderLine, s), s, Before(a), After(s, b))
  {
    forall q: nat | Before(a) <= q < After(s, b) && q <= |s|
      ensures Attempt(HeaderLine, s)(q).None?
    {
      HeaderAttemptStarts(s, q);
    }
  }

  // ---------------------------------------------------------------------
  // The line pass

  /** The text up to a line start splits into lines apart from the rest. */
  lemma SplitAtLineStart(r: string, a: nat)
    requires a <= |r| && AtLineStart(r, a)
    ensures SplitLines(r) == SplitLines(r[..a]) + SplitLines(r[a..])
  {
    if a == 0 {
      assert r[..a] == [] && r[a..] == r;
    } else {
      CutAt(r, a - 1);
      assert [r[a - 1]] == "\n";
      SplitAtNewline(r[..a - 1], r[a..]);
    }
  }

  /** A sequence cut around its element at `k`. */
  lemma CutAt<T>(r: seq<T>, k: nat)
    requires k < |r|
    ensures r == r[..k] + [r[k]] + r[k + 1..] && r[..k + 1] == r[..k] + [r[k]]
  {
  }

  /** From a line start, the line pass gives that line's result, then the
      result of the lines after it. */
  lemma CleanFromLine(r: string, a: nat, b: nat)
    requires IsLine(r, a, b) && All(r[a..b], Inline)
    ensures CleanLines(SplitLines(r[a..])) == CleanLines([r[a..b]]) + CleanLines(SplitLines(r[After(r, b)..]))
  {
    var l := r[a..b];
    if b == |r| {
      assert r[a..] == l && r[After(r, b)..] == [];
      if l == [] {
        CleanLinesOne(l);
      } else {
        SplitOne(l);
      }
    } else {
      assert r[a..] == l + "\n" + r[b + 1..];
      SplitAtNewline(l, r[b + 1..]);
      SplitEndedLine(l);
      CleanLinesAppend([l], SplitLines(r[b + 1..]));
    }
  }

  /** The line pass over a whole text: a line of it gives its own result
      between the results of the lines before and after it. */
  lemma LinePassFindsLine(r: string, a: nat, b: nat)
    requires IsLine(r, a, b) && All(r[a..b], Inline)
    ensures CleanLines(SplitLines(r)) ==
      CleanLines(SplitLines(r[..a])) + CleanLines([r[a..b]]) + CleanLines(SplitLines(r[After(r, b)..]))
  {
    var x, y := SplitLines(r[..a]), SplitLines(r[a..]);
    SplitAtLineStart(r, a);
    CleanLinesAppend(x, y);
    CleanFromLine(r, a, b);
    var cl, cz := CleanLines([r[a..b]]), CleanLines(SplitLines(r[After(r, b)..]));
    Regroup(CleanLines(SplitLines(r)), CleanLines(x), CleanLines(y), cl, cz);
  }

  /** Regrouping a concatenation of three. */
  lemma Regroup<T>(whole: seq<T>, u: seq<T>, v: seq<T>, v1: seq<T>, v2: seq<T>)
    requires whole == u + v && v == v1 + v2
    ensures whole == u + v1 + v2
  {
  }

  /** The lines of `clean_text`'s output are what the line pass gives. */
  lemma CleanTextLines(text: string)
    ensures SplitLines(CleanText(text)) == CleanLines(SplitLines(FormatHeaders(DropPageNumbers(text))))
  {
    var ls := CleanLines(SplitLines(FormatHeaders(DropPageNumbers(text))));
    CleanLinesTidy(SplitLines(FormatHeaders(DropPageNumbers(text))));
    SplitJoin(ls);
    CleanTextOf(text, ls);
  }

  // ---------------------------------------------------------------------
  // The whole of `clean_text`

  /** A line holding a character other than whitespace and digits stands,
      unchanged, in the output of the page-number pass. */
  lemma PagePassKeepsLine(text: string, a: nat, l: string, i: nat)
    requires HoldsLine(text, a, l)
    requires i < |l| && !IsSpace(l[i]) && !IsDigit(l[i])
    ensures var a2 := ShiftedStart(PageNumber, [], text, a);
      HoldsLine(DropPageNumbers(text), a2, l)
  {
    assert text[a + i] == l[i];
    PageSparesLine(text, a, a + |l|, a + i);
    PassKeepsLine(PageNumber, [], text, a, a + |l|, ShiftedStart(PageNumber, [], text, a));
  }

  /** A line not starting with `=` that no header match reaches into from
      the lines before it stands, unchanged, in the output of the header
      pass. */
  lemma HeaderPassKeepsLine(s: string, a: nat, l: string)
    requires HoldsLine(s, a, l) && (l != [] ==> l[0] != '=')
    requires NoneAcross(Matches(HeaderLine, s), Before(a))
    ensures var a3 := ShiftedStart(HeaderLine, HeaderTemplate, s, a);
      HoldsLine(FormatHeaders(s), a3, l)
  {
    assert l != [] ==> s[a] == l[0];
    HeaderSparesLineStart(s, a, a + |l|);
    PassKeepsLine(HeaderLine, HeaderTemplate, s, a, a + |l|, ShiftedStart(HeaderLine, HeaderTemplate, s, a));
  }

  /** `out` is what the line pass makes of the text `r` around the line of
      length `n` standing at `a`: the cleaned lines before it, then `x`, then
      the cleaned lines after it. */
  predicate Around(out: seq<string>, r: string, a: nat, n: nat, x: string)
    requires a + n <= |r|
  {
    out == CleanLines(SplitLines(r[..a])) + [x] + CleanLines(SplitLines(r[After(r, a + n)..]))
  }

  /** A line of the text given to the line pass comes out of `clean_text`
      as one line, cleaned, between what the lines before and after it
      give. */
  lemma LinePassKeepsLine(text: string, s: string, a: nat, l: string)
    requires s == FormatHeaders(DropPageNumbers(text))
    requires HoldsLine(s, a, l) && All(l, Inline) && !AllIn(l, 0, |l|, Space)
    ensures Around(SplitLines(CleanText(text)), s, a, |l|, CleanLine(l))
  {
    LineOfPass(s, a, l);
    CleanTextLines(text);
  }

  /** The same for the line pass on its own. */
  lemma LineOfPass(s: string, a: nat, l: string)
    requires HoldsLine(s, a, l) && All(l, Inline) && !AllIn(l, 0, |l|, Space)
    ensures Around(CleanLines(SplitLines(s)), s, a, |l|, CleanLine(l))
  {
    LinePassFindsLine(s, a, a + |l|);
    CleanLinesOne(l);
  }

  /** A line of a longer text that holds a character other than whitespace
      and digits, does not start with `=`, and that no header match reaches
      into from the lines before it, goes through `clean_text` untouched
      until the line pass: the page-number pass cannot touch it, the header
      pass does not start a match on it. It stands, unchanged, in the output
      of each pass at the place the matches before it leave it, and the
      output of `clean_text` is the cleaned lines before that place, the
      line cleaned, and the cleaned lines after it, whatever the other lines
      hold. */
  lemma UnhitLineKept(text: string, a: nat, b: nat, i: nat)
    requires IsLine(text, a, b) && All(text[a..b], Inline)
    requires a <= i < b && !IsSpace(text[i]) && !IsDigit(text[i]) && text[a] != '='
    requires NoneAcross(Matches(HeaderLine, DropPageNumbers(text)), Before(ShiftedStart(PageNumber, [], text, a)))
    ensures var a2 := ShiftedStart(PageNumber, [], text, a);
      HoldsLine(DropPageNumbers(text), a2, text[a..b])
    ensures var s := DropPageNumbers(text);
      var a3 := ShiftedStart(HeaderLine, HeaderTemplate, s, ShiftedStart(PageNumber, [], text, a));
      && HoldsLine(FormatHeaders(s), a3, text[a..b])
      && Around(SplitLines(CleanText(text)), FormatHeaders(s), a3, |text[a..b]|, CleanLine(text[a..b]))
  {
    LineFacts(text, a, b, i);
    PassesKeepLine(text, a, text[a..b], i - a);
  }

  /** The line `s[a..b]` cut out, with its character at `i`. */
  lemma LineFacts(text: string, a: nat, b: nat, i: nat)
    requires IsLine(text, a, b) && a <= i < b && !IsSpace(text[i]) && !IsDigit(text[i]) && text[a] != '='
    ensures HoldsLine(text, a, text[a..b]) && |text[a..b]| == b - a
    ensures i - a < |text[a..b]| && !IsSpace(text[a..b][i - a]) && !IsDigit(text[a..b][i - a])
    ensures text[a..b][0] != '='
  {
    assert a + |text[a..b]| == b;
  }

  /** The three passes of `clean_text` over a line that the first two leave
      alone. */
  lemma PassesKeepLine(text: string, a: nat, l: string, i: nat)
    requires HoldsLine(text, a, l) && All(l, Inline)
    requires i < |l| && !IsSpace(l[i]) && !IsDigit(l[i]) && l[0] != '='
    requires NoneAcross(Matches(HeaderLine, DropPageNumbers(text)), Before(ShiftedStart(PageNumber, [], text, a)))
    ensures var a2 := ShiftedStart(PageNumber, [], text, a);
      HoldsLine(DropPageNumbers(text), a2, l)
    ensures var s := DropPageNumbers(text);
      var a3 := ShiftedStart(HeaderLine, HeaderTemplate, s, ShiftedStart(PageNumber, [], text, a));
      HoldsLine(FormatHeaders(s), a3, l) && Around(SplitLines(CleanText(text)), FormatHeaders(s), a3, |l|, CleanLine(l))
  {
    PagePassKeepsLine(text, a, l, i);
    HeaderAndLinePasses(text, DropPageNumbers(text), ShiftedStart(PageNumber, [], text, a), l);
  }

  /** The header pass and the line pass, on a line the page-number pass
      kept. */
  lemma HeaderAndLinePasses(text: string, s: string, a: nat, l: string)
    requires s == DropPageNumbers(text)
    requires HoldsLine(s, a, l) && All(l, Inline)
    requires !AllIn(l, 0, |l|, Space) && l[0] != '='
    requires NoneAcross(Matches(HeaderLine, s), Before(a))
    ensures var a3 := ShiftedStart(HeaderLine, HeaderTemplate, s, a);
      HoldsLine(FormatHeaders(s), a3, l) && Around(SplitLines(CleanText(text)), FormatHeaders(s), a3, |l|, CleanLine(l))
  {
    HeaderPassKeepsLine(s, a, l);
    LinePassKeepsLine(text, FormatHeaders(s), ShiftedStart(HeaderLine, HeaderTemplate, s, a), l);
  }

  // ---------------------------------------------------------------------
  // Titled lines

  /** A titled line cut out of a text is a titled line on its own. */
  lemma LineOfTitled(text: string, a: nat, i: nat, m: string, j: nat)
    requires TitledLine(text, a, i, m, j) && AtLineStart(text, a)
    ensures HoldsLine(text, a, text[a..a + i + |m| + j])
    ensures TitledLine(text[a..a + i + |m| + j], 0, i, m, j)
  {
    var n := i + |m| + j;
    var l := text[a..a + n];
    LineHasNoNewline(text, a, i, m, j);
    assert forall k :: 0 <= k < n ==> l[k] == text[a + k];
    assert HasAt(l, i, m);
  }

  /** A titled line standing in a text is a titled line of the text there. */
  lemma TitledLineAt(s: string, a: nat, l: string, i: nat, m: string, j: nat)
    requires HoldsLine(s, a, l) && TitledLine(l, 0, i, m, j) && |l| == i + |m| + j
    ensures TitledLine(s, a, i, m, j)
  {
    forall k | 0 <= k < |l|
      ensures s[a + k] == l[k]
    {
      assert s[a..a + |l|][k] == s[a + k];
    }
    assert HasAt(s, a + i, m);
  }

  /** Text joined around a piece `x` without line breaks, with a `\n` or the
      start of the text before it and a `\n` or the end of the text after
      it, holds `x` as a line. */
  lemma JoinedLine(t: string, u: string, w: string, x: string, v: string, a: nat)
    requires t == u + w + x + v && All(x, Inline)
    requires w == "\n" || (u == [] && w == [])
    requires v == [] || v[0] == '\n'
    requires a == |u| + |w|
    ensures HoldsLine(t, a, x)
  {
    assert t == (u + w) + x + v;
    MiddleHasAt(u + w, x, v, 0, |x|);
    assert x[0..|x|] == x;
    forall k | a <= k < a + |x|
      ensures Not('\n').Has(t[k])
    {
      MiddleAt(u + w, x, v, k - a);
    }
    if w == "\n" {
      MiddleAt(u, w, x + v, 0);
      assert t == u + w + (x + v);
    }
    if v != [] {
      assert t[a + |x|] == v[0];
    }
  }

  /** What the header pass gives after a titled line: nothing, or a `\n`
      and the rest. */
  lemma AfterTitledLine(s: string, e: nat)
    requires AtLineEnd(s, e)
    ensures var v := SubAfter(HeaderLine, HeaderTemplate, s, e);
      v == [] || v[0] == '\n'
  {
    var at := Attempt(HeaderLine, s);
    AttemptSteps(HeaderLine, s);
    if e < |s| {
      HeaderAttemptStarts(s, e);
      SubFromSkips(at, s, HeaderLine.GroupCount(), HeaderTemplate, e, e + 1);
    } else {
      SubAtEnd(at, s, HeaderLine.GroupCount(), HeaderTemplate);
    }
  }

  /** The header pass around a header found at a line start `a` that no
      earlier match reaches past: what the text before the line becomes, the
      `\n` before the line, the replacement, then what the text after the
      match becomes. */
  lemma HeaderPassAt(s: string, a: nat, h: Hit)
    requires a <= |s| && AtLineStart(s, a) && HeaderHere(s, a) == Some(h)
    requires NoneAcross(Matches(HeaderLine, s), Before(a))
    ensures h.end <= |s|
    ensures FormatHeaders(s) == SubBefore(HeaderLine, HeaderTemplate, s, Before(a)) + s[Before(a)..a]
      + Expand(HeaderTemplate, s, h) + SubAfter(HeaderLine, HeaderTemplate, s, h.end)
  {
    var at := Attempt(HeaderLine, s);
    AttemptSteps(HeaderLine, s);
    assert at(a) == Some(h);
    HeaderNoneBeforeLine(s, a);
    SubReplacesAt(at, s, HeaderLine.GroupCount(), HeaderTemplate, Before(a), a, h);
  }

  /** No header attempt succeeds on the `\n` in front of a line. */
  lemma HeaderNoneBeforeLine(s: string, a: nat)
    requires a <= |s| && AtLineStart(s, a)
    ensures NoMatchIn(Attempt(HeaderLine, s), s, Before(a), a)
  {
    forall q: nat | Before(a) <= q < a && q <= |s|
      ensures Attempt(HeaderLine, s)(q).None?
    {
      HeaderAttemptStarts(s, q);
    }
  }

  /** A header found at a line start, whose match runs to the line end and
      whose replacement `x` holds no line break, leaves `x` as a line of the
      header pass's output, provided no earlier match reaches past the `\n`
      in front of it. */
  lemma HeaderPassReplacesLine(s: string, a: nat, h: Hit, x: string)
    requires a <= |s| && AtLineStart(s, a) && HeaderHere(s, a) == Some(h) && AtLineEnd(s, h.end)
    requires NoneAcross(Matches(HeaderLine, s), Before(a))
    requires Expand(HeaderTemplate, s, h) == x && All(x, Inline)
    ensures HoldsLine(FormatHeaders(s), ShiftedStart(HeaderLine, HeaderTemplate, s, a), x)
  {
    HeaderPassAt(s, a, h);
    AfterTitledLine(s, h.end);
    var u, w := SubBefore(HeaderLine, HeaderTemplate, s, Before(a)), s[Before(a)..a];
    assert 0 < a ==> w == [s[a - 1]];
    JoinedLine(FormatHeaders(s), u, w, x, SubAfter(HeaderLine, HeaderTemplate, s, h.end),
      ShiftedStart(HeaderLine, HeaderTemplate, s, a));
  }

  /** A titled line that no header match reaches into from the lines before
      it becomes, in the output of the header pass, the line `## ` and its
      title stripped. */
  lemma HeaderPassOnTitledLine(s: string, a: nat, l: string, i: nat, m: string, j: nat)
    requires HoldsLine(s, a, l) && TitledLine(l, 0, i, m, j) && |l| == i + |m| + j && All(m, Inline)
    requires NoneAcross(Matches(HeaderLine, s), Before(a))
    ensures HoldsLine(FormatHeaders(s), ShiftedStart(HeaderLine, HeaderTemplate, s, a), "## " + Strip(m))
  {
    TitledLineAt(s, a, l, i, m, j);
    HeaderOfTitledLine(s, a, i, m, j);
    var h := Hit(a + |l|, [Span(TitleStart(a, i, m), TitleEnd(a, i, m))]);
    ExpandHeader(s, h);
    StripInline(m);
    HeaderTextInline(Strip(m));
    HeaderPassReplacesLine(s, a, h, "## " + Strip(m));
  }

  /** The line `clean_text` makes of the title `m`. */
  function HeaderOutput(m: string): string {
    if Strip(m) == [] then "##" else "## " + Collapse(Strip(m))
  }

  /** A line `=== title ===` of a longer text, with at least three `=` on each
      side, that no header match reaches into from the lines before it: the
      page-number pass leaves it where the matches before it put it, the
      header pass turns it into `## ` and its title stripped, and the output
      of `clean_text` is the cleaned lines before that place, `## ` and the
      title stripped and with its runs of spaces collapsed (`##` for a blank
      title), and the cleaned lines after it, whatever the other lines
      hold. */
  lemma TitledLineKept(text: string, a: nat, i: nat, m: string, j: nat)
    requires TitledLine(text, a, i, m, j) && AtLineStart(text, a) && All(m, Inline)
    requires NoneAcross(Matches(HeaderLine, DropPageNumbers(text)), Before(ShiftedStart(PageNumber, [], text, a)))
    ensures var a2 := ShiftedStart(PageNumber, [], text, a);
      HoldsLine(DropPageNumbers(text), a2, text[a..a + i + |m| + j])
    ensures var s := DropPageNumbers(text);
      var a3 := ShiftedStart(HeaderLine, HeaderTemplate, s, ShiftedStart(PageNumber, [], text, a));
      && HoldsLine(FormatHeaders(s), a3, "## " + Strip(m))
      && Around(SplitLines(CleanText(text)), FormatHeaders(s), a3, |"## " + Strip(m)|, HeaderOutput(m))
  {
    LineOfTitled(text, a, i, m, j);
    TitledPasses(text, a, text[a..a + i + |m| + j], i, m, j);
  }

  /** The three passes over a titled line standing at `a`. */
  lemma TitledPasses(text: string, a: nat, l: string, i: nat, m: string, j: nat)
    requires HoldsLine(text, a, l) && TitledLine(l, 0, i, m, j) && |l| == i + |m| + j && All(m, Inline)
    requires NoneAcross(Matches(HeaderLine, DropPageNumbers(text)), Before(ShiftedStart(PageNumber, [], text, a)))
    ensures var a2 := ShiftedStart(PageNumber, [], text, a);
      HoldsLine(DropPageNumbers(text), a2, l)
    ensures var s := DropPageNumbers(text);
      var a3 := ShiftedStart(HeaderLine, HeaderTemplate, s, ShiftedStart(PageNumber, [], text, a));
      && HoldsLine(FormatHeaders(s), a3, "## " + Strip(m))
      && Around(SplitLines(CleanText(text)), FormatHeaders(s), a3, |"## " + Strip(m)|, HeaderOutput(m))
  {
    assert l[0] == '=';
    EqualsSign();
    PagePassKeepsLine(text, a, l, 0);
    TitledHeaderAndLine(text, DropPageNumbers(text), ShiftedStart(PageNumber, [], text, a), l, i, m, j);
  }

  /** The header pass and the line pass, on a titled line the page-number
      pass kept. */
  lemma TitledHeaderAndLine(text: string, s: string, a: nat, l: string, i: nat, m: string, j: nat)
    requires s == DropPageNumbers(text)
    requires HoldsLine(s, a, l) && TitledLine(l, 0, i, m, j) && |l| == i + |m| + j && All(m, Inline)
    requires NoneAcross(Matches(HeaderLine, s), Before(a))
    ensures var a3 := ShiftedStart(HeaderLine, HeaderTemplate, s, a);
      && HoldsLine(FormatHeaders(s), a3, "## " + Strip(m))
      && Around(SplitLines(CleanText(text)), FormatHeaders(s), a3, |"## " + Strip(m)|, HeaderOutput(m))
  {
    HeaderPassOnTitledLine(s, a, l, i, m, j);
    StripInline(m);
    HeaderTextInline(Strip(m));
    CleanHeaderLine(Strip(m));
    LinePassKeepsLine(text, FormatHeaders(s), ShiftedStart(HeaderLine, HeaderTemplate, s, a), "## " + Strip(m));
  }

  /** The condition on the lines before cannot be dropped. After a line
      holding only `===`, the titled line `=== w ===` is taken into a header
      match that starts on the line before it, since the whitespace after the
      opening run crosses the line break; the output is `## === w`, where the
      titled line alone gives `## w`. */
  lemma OpenerTakesTitledLine(w: string)
    requires w != [] && All(w, Lower)
    ensures TitledLine("===\n=== " + w + " ===", 4, 3, " " + w + " ", 3)
    ensures CleanText("===\n=== " + w + " ===") == "## === " + w
    ensures CleanText("=== " + w + " ===") == "## " + w
  {
    OpenerTitled(w, "===\n=== " + w + " ===");
    OpenerCleaned(w, "===\n=== " + w + " ===");
    LowerWord(w);
    TitleExample(w);
  }

  lemma OpenerCleaned(w: string, s: string)
    requires w != [] && All(w, Lower) && s == "===\n=== " + w + " ==="
    ensures CleanText(s) == "## === " + w
  {
    OpenerPasses(w, s);
    CleanTextVia(s, "## === " + w);
    MergedHeaderLine(w);
  }

  lemma LowerWord(w: string)
    requires All(w, Lower)
    ensures All(w, Word)
  {
  }

  /** Where the characters of `===\n=== w ===` sit. */
  lemma OpenerChars(w: string, s: string)
    requires w != [] && All(w, Lower) && s == "===\n=== " + w + " ==="
    ensures |s| == 12 + |w|
    ensures AllIn(s, 0, 3, Is('=')) && s[3] == '\n' && AllIn(s, 4, 7, Is('=')) && s[7] == ' '
    ensures forall k :: 0 <= k < |w| ==> s[8 + k] == w[k]
    ensures s[8 + |w|] == ' ' && AllIn(s, 9 + |w|, 12 + |w|, Is('='))
    ensures s[4..8 + |w|] == "=== " + w
  {
  }

  lemma OpenerTitled(w: string, s: string)
    requires w != [] && All(w, Lower) && s == "===\n=== " + w + " ==="
    ensures TitledLine(s, 4, 3, " " + w + " ", 3)
  {
    var m := " " + w + " ";
    OpenerChars(w, s);
    assert forall k :: 0 <= k < |w| ==> m[1 + k] == w[k];
    assert HasAt(s, 7, m) by {
      assert forall k :: 0 <= k < |m| ==> s[7 + k] == m[k];
    }
  }

  lemma OpenerPasses(w: string, s: string)
    requires w != [] && All(w, Lower) && s == "===\n=== " + w + " ==="
    ensures FormatHeaders(DropPageNumbers(s)) == "## === " + w
  {
    OpenerChars(w, s);
    assert forall i :: 0 <= i < |s| ==> !IsDigit(s[i]);
    NoPageWithoutDigit(s);
    SubUnchanged(PageNumber, [], s);
    OpenerHeader(w, s);
  }

  /** The whole text is one header match: the opening run on the first
      line, the line break as its whitespace, and `=== w` as the title. */
  lemma OpenerHeader(w: string, s: string)
    requires w != [] && All(w, Lower) && s == "===\n=== " + w + " ==="
    ensures FormatHeaders(s) == "## === " + w
  {
    OpenerChars(w, s);
    OpenerLayout(w, s);
    HeaderOfLayout(s, 0, 3, 4, 8 + |w|, 9 + |w|, |s|);
    WholeHeader(s, 4, 8 + |w|);
  }

  lemma OpenerLayout(w: string, s: string)
    requires w != [] && All(w, Lower) && s == "===\n=== " + w + " ==="
    ensures HeaderLayout(s, 0, 3, 4, 8 + |w|, 9 + |w|, |s|)
  {
    OpenerChars(w, s);
    assert !IsSpace(s[4]) && !IsSpace(s[8 + |w| - 1]);
    assert AllIn(s, 4, |s|, Not('\n'));
  }

  /** The line pass leaves `## === w` as it is. */
  lemma MergedHeaderLine(w: string)
    requires w != [] && All(w, Lower)
    ensures JoinLines(CleanLines(SplitLines("## === " + w))) == "## === " + w
  {
    var x := "=== " + w;
    MergedTitle(w, x);
    CleanHeaderText(x);
    CollapseKeeps(x, 0);
  }

  lemma MergedTitle(w: string, x: string)
    requires w != [] && All(w, Lower) && x == "=== " + w
    ensures All(x, Inline) && !IsSpace(x[0]) && !IsSpace(x[|x| - 1]) && NoDoubleSpace(x)
    ensures "## " + x == "## === " + w
  {
    assert forall k :: 0 <= k < |w| ==> x[4 + k] == w[k];
  }

  lemma EqualsSign()
    ensures !IsSpace('=') && !IsDigit('=')
  {
  }
}
