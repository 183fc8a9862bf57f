/** `clean_text`: page-number lines removed, `=== title ===` lines turned
    into `## title`, then the text split into lines, blank lines dropped,
    runs of spaces collapsed, each line stripped, and the lines joined with
    `\n`. */
module Cleansing {
  import opened Chars
  import opened Patterns
  import opened Scan
  import opened Lines
  import opened Headers

  /** The page-number pass: every match of `(?m)^\s*\d+\s*$` replaced by
      nothing. */
  function DropPageNumbers(text: string): string {
    Sub(PageNumber, [], text)
  }

  /** The replacement `## \1`. */
  const HeaderTemplate: seq<Piece> := [Text("## "), Ref(1)]

  /** The header pass: every match of `(?m)^={3,}\s*(.*?)\s*={3,}$` replaced
      by `## ` and its group. */
  function FormatHeaders(text: string): string {
    Sub(HeaderLine, HeaderTemplate, text)
  }

  /** One line of the line pass: runs of spaces collapsed, then
      whitespace stripped from both ends. It is empty exactly for a blank
      line, and otherwise tidy. */
  function CleanLine(l: string): (r: string)
    ensures r == Strip(Collapse(l))
    ensures r == [] <==> AllIn(l, 0, |l|, Space)
    ensures r != [] ==> Cleaned(r)
    ensures All(l, Inline) ==> All(r, Inline)
  {
    SpacesSubIsCollapse(l);
    CleanLineShape(l);
    Strip(Sub(Spaces, [Text(" ")], l))
  }

  lemma CleanLineShape(l: string)
    ensures var r := Strip(Collapse(l));
      && (r == [] <==> AllIn(l, 0, |l|, Space))
      && NoDoubleSpace(r)
      && (All(l, Inline) ==> All(r, Inline))
  {
    var c := Collapse(l);
    CollapseBlank(l, 0);
    StripBlank(c);
    CollapseNoDouble(l, 0);
    if All(l, Inline) {
      CollapseKeepsClass(l, 0, Inline);
    }
    SliceKeeps(c, RunFrom(c, 0, Space), RunFrom(c, 0, Space) + |Strip(c)|, Inline);
  }

  /** A line as `clean_text` emits it: not empty, no whitespace at either
      end, no two spaces in a row. */
  predicate Cleaned(r: string) {
    r != [] && !IsSpace(r[0]) && !IsSpace(r[|r| - 1]) && NoDoubleSpace(r)
  }

  /** The line pass: blank lines dropped, every other line cleaned; never more lines
      than it is given. */
  function CleanLines(ls: seq<string>): (out: seq<string>)
    ensures |out| <= |ls|
    decreases |ls|
  {
    if ls == [] then []
    else if Strip(ls[0]) == [] then CleanLines(ls[1..])
    else
      StripBlank(ls[0]);
      [CleanLine(ls[0])] + CleanLines(ls[1..])
  }

  /** Lines without line breaks come out as tidy lines. */
  lemma {:induction false} CleanLinesTidy(ls: seq<string>)
    requires forall i :: 0 <= i < |ls| ==> All(ls[i], Inline)
    ensures forall i :: 0 <= i < |CleanLines(ls)| ==> TidyLine(CleanLines(ls)[i])
    decreases |ls|
  {
    if ls != [] {
      assert ls == [ls[0]] + ls[1..];
      assert All(ls[0], Inline);
      assert forall i :: 0 <= i < |ls[1..]| ==> ls[1..][i] == ls[i + 1];
      CleanLinesTidy(ls[1..]);
      if Strip(ls[0]) == [] {
        CleanLinesDrop(ls[0], ls[1..]);
      } else {
        CleanLinesKeep(ls[0], ls[1..]);
        TidyLinesCons(CleanLine(ls[0]), CleanLines(ls[1..]));
      }
    }
  }

  lemma TidyLinesCons(l: string, rest: seq<string>)
    requires TidyLine(l) && forall i :: 0 <= i < |rest| ==> TidyLine(rest[i])
    ensures forall i :: 0 <= i < |[l] + rest| ==> TidyLine(([l] + rest)[i])
  {
    forall i | 0 <= i < |[l] + rest| ensures TidyLine(([l] + rest)[i]) {
      if i > 0 {
        assert ([l] + rest)[i] == rest[i - 1];
      }
    }
  }

  /** Cleaning the lines keeps their order: it works line by line ... */
  lemma {:induction false} CleanLinesAppend(a: seq<string>, b: seq<string>)
    ensures CleanLines(a + b) == CleanLines(a) + CleanLines(b)
    decreases |a|
  {
    if a == [] {
      assert a + b == b;
    } else {
      assert a == [a[0]] + a[1..];
      assert a + b == [a[0]] + (a[1..] + b);
      if Strip(a[0]) == [] {
        CleanLinesDrop(a[0], a[1..]);
        CleanLinesDrop(a[0], a[1..] + b);
      } else {
        CleanLinesKeep(a[0], a[1..]);
        CleanLinesKeep(a[0], a[1..] + b);
        ConsAppend(CleanLine(a[0]), CleanLines(a[1..]), CleanLines(b));
      }
      CleanLinesAppend(a[1..], b);
    }
  }

  /** A blank first line is dropped ... */
  lemma CleanLinesDrop(l: string, rest: seq<string>)
    requires Strip(l) == []
    ensures CleanLines([l] + rest) == CleanLines(rest)
  {
    assert ([l] + rest)[0] == l && ([l] + rest)[1..] == rest;
  }

  /** ... and any other is cleaned, on its own. */
  lemma CleanLinesKeep(l: string, rest: seq<string>)
    requires Strip(l) != []
    ensures CleanLines([l] + rest) == [CleanLine(l)] + CleanLines(rest)
  {
    assert ([l] + rest)[0] == l && ([l] + rest)[1..] == rest;
  }

  /** ... dropping a blank line and turning any other line into its
      collapsed, stripped form. */
  lemma CleanLinesOne(l: string)
    ensures CleanLines([l]) == if AllIn(l, 0, |l|, Space) then [] else [Strip(Collapse(l))]
  {
    StripBlank(l);
    assert [l][1..] == [];
  }

  /** `clean_text`. Whatever the input, the output is tidy text, and its
      lines, as `splitlines` sees them, are tidy lines. */
  function CleanText(text: string): (r: string)
    ensures Tidy(r)
    ensures forall i :: 0 <= i < |SplitLines(r)| ==> TidyLine(SplitLines(r)[i])
  {
    var ls := CleanLines(SplitLines(FormatHeaders(DropPageNumbers(text))));
    CleanLinesTidy(SplitLines(FormatHeaders(DropPageNumbers(text))));
    JoinTidy(ls);
    SplitJoin(ls);
    JoinLines(ls)
  }

  // ---------------------------------------------------------------------
  // When the two regular-expression passes leave the text alone

  /** Without a match anywhere, a substitution leaves the text as it is. */
  lemma SubUnchanged(pat: Pattern, tmpl: seq<Piece>, s: string)
    requires RefsWithin(tmpl, pat.GroupCount())
    requires NoMatchIn(Attempt(pat, s), s, 0, |s| + 1)
    ensures Sub(pat, tmpl, s) == s
  {
    AttemptSteps(pat, s);
    SubNoMatch(Attempt(pat, s), s, pat.GroupCount(), tmpl, 0);
  }

  /** In a page-number match the first character after the leading
      whitespace is a digit. */
  lemma PageNeeds(s: string, p: nat)
    requires p <= |s| && PageHere(s, p).Some?
    ensures p + RunFrom(s, p, Space) < |s| && IsDigit(s[p + RunFrom(s, p, Space)])
  {
    var w, d := PageWitness(s, p, PageHere(s, p).value.end);
    PageRuns(s, p, w, d, PageHere(s, p).value.end);
  }

  /** A header match starts with `=`. */
  lemma HeaderNeeds(s: string, p: nat)
    requires p <= |s| && HeaderHere(s, p).Some?
    ensures p < |s| && s[p] == '='
  {
    var _ := OpenCases(s, p, RunFrom(s, p, Is('=')), HeaderHere(s, p).value);
    RunAll(s, p, Is('='));
  }

  /** Text without a digit holds no page number. */
  lemma NoPageWithoutDigit(s: string)
    requires forall i :: 0 <= i < |s| ==> !IsDigit(s[i])
    ensures NoMatchIn(Attempt(PageNumber, s), s, 0, |s| + 1)
  {
    forall q: nat | q <= |s| && MatchAt(PageNumber, s, q).Some?
      ensures false
    {
      PageNeeds(s, q);
    }
  }

  /** Text without `=` holds no header. */
  lemma NoHeaderWithoutEquals(s: string)
    requires All(s, Not('='))
    ensures NoMatchIn(Attempt(HeaderLine, s), s, 0, |s| + 1)
  {
    forall q: nat | q <= |s| && MatchAt(HeaderLine, s, q).Some?
      ensures false
    {
      HeaderNeeds(s, q);
    }
  }

  /** In text of a single line, a pattern anchored by `^` can only match at
      the very start. */
  lemma AnchoredOnlyAtStart(pat: Pattern, s: string)
    requires pat.Anchored() && All(s, Not('\n'))
    ensures NoMatchIn(Attempt(pat, s), s, 1, |s| + 1)
  {
    forall q: nat | 1 <= q <= |s|
      ensures Attempt(pat, s)(q).None?
    {
      assert Not('\n').Has(s[q - 1]);
      assert !AtLineStart(s, q);
    }
  }

  /** A single line holding a character other than whitespace and digits
      is no page number. */
  lemma OneLineWithoutPage(text: string, i: nat)
    requires All(text, Not('\n'))
    requires i < |text| && !IsSpace(text[i]) && !IsDigit(text[i])
    ensures DropPageNumbers(text) == text
  {
    AnchoredOnlyAtStart(PageNumber, text);
    PageTakesLine(text, i);
    assert Attempt(PageNumber, text)(0).None?;
    SubUnchanged(PageNumber, [], text);
  }

  /** A page-number match on a single line takes the whole line, so every
      character of it is whitespace or a digit. */
  lemma PageTakesLine(text: string, i: nat)
    requires All(text, Not('\n')) && i < |text|
    ensures PageHere(text, 0).Some? ==> IsSpace(text[i]) || IsDigit(text[i])
  {
    if PageHere(text, 0).Some? {
      var e := PageHere(text, 0).value.end;
      var w, d := PageWitness(text, 0, e);
      assert e == |text|;
    }
  }

  /** A single line that does not start with `=` is no header. */
  lemma OneLineWithoutHeader(text: string)
    requires All(text, Not('\n'))
    requires text != [] ==> text[0] != '='
    ensures FormatHeaders(text) == text
  {
    AnchoredOnlyAtStart(HeaderLine, text);
    if HeaderHere(text, 0).Some? {
      HeaderNeeds(text, 0);
    }
    SubUnchanged(HeaderLine, HeaderTemplate, text);
  }

  /** A single line that does not end with `=` is no header either: the
      closing `={3,}` must stand right before `$`, and on a line without `\n`
      only the end of the text satisfies `$`. */
  lemma OneLineEndsWithoutHeader(text: string)
    requires All(text, Not('\n'))
    requires text != [] ==> text[|text| - 1] != '='
    ensures FormatHeaders(text) == text
  {
    AnchoredOnlyAtStart(HeaderLine, text);
    if HeaderHere(text, 0).Some? {
      OneLineHeaderEnd(text);
    }
    SubUnchanged(HeaderLine, HeaderTemplate, text);
  }

  /** A header hit on a line without `\n` runs to the end of the text, and
      the text ends with `=`. */
  lemma OneLineHeaderEnd(text: string)
    requires All(text, Not('\n')) && HeaderHere(text, 0).Some?
    ensures text != [] && text[|text| - 1] == '='
  {
    var x := HeaderHere(text, 0).value;
    HeaderSound(text, 0);
    var o: nat, c: nat :| HeaderParts(text, 0, o, x.groups[0].lo, x.groups[0].hi, c, x.end);
    assert x.end < |text| ==> !Not('\n').Has(text[x.end]);
    assert Is('=').Has(text[x.end - 1]);
  }

  /** Text holding neither a page number nor a header goes through the line
      pass alone. */
  lemma CleanWithoutMatches(text: string)
    requires NoMatchIn(Attempt(PageNumber, text), text, 0, |text| + 1)
    requires NoMatchIn(Attempt(HeaderLine, text), text, 0, |text| + 1)
    ensures CleanText(text) == JoinLines(CleanLines(SplitLines(text)))
  {
    PassesUnchanged(text);
    CleanTextOf(text, CleanLines(SplitLines(text)));
  }

  lemma PassesUnchanged(text: string)
    requires NoMatchIn(Attempt(PageNumber, text), text, 0, |text| + 1)
    requires NoMatchIn(Attempt(HeaderLine, text), text, 0, |text| + 1)
    ensures FormatHeaders(DropPageNumbers(text)) == text
  {
    SubUnchanged(PageNumber, [], text);
    SubUnchanged(HeaderLine, HeaderTemplate, text);
  }

  /** Lines that are all whitespace are all dropped. */
  lemma {:induction false} CleanLinesBlank(ls: seq<string>)
    requires forall i :: 0 <= i < |ls| ==> All(ls[i], Space)
    ensures CleanLines(ls) == []
    decreases |ls|
  {
    if ls != [] {
      assert AllIn(ls[0], 0, |ls[0]|, Space);
      StripBlank(ls[0]);
      CleanLinesBlank(ls[1..]);
    }
  }

  /** Empty or all-whitespace input comes out empty. */
  lemma CleanBlank(text: string)
    requires All(text, Space)
    ensures CleanText(text) == ""
  {
    NoPageWithoutDigit(text);
    SubUnchanged(PageNumber, [], text);
    NoHeaderWithoutEquals(text);
    SubUnchanged(HeaderLine, HeaderTemplate, text);
    SplitLinesKeep(text, Space);
    CleanLinesBlank(SplitLines(text));
  }

  // ---------------------------------------------------------------------
  // A line `=== title ===`

  /** Collapsing a text's tail does not look at what comes before it. */
  lemma {:induction false} CollapseShift(a: string, b: string, p: nat)
    requires p <= |b|
    ensures CollapseFrom(a + b, |a| + p) == CollapseFrom(b, p)
    decreases |b| - p
  {
    if p < |b| {
      var n := StepFrom(b, p);
      StepInTail(a, b, p);
      CollapseShift(a, b, p + n);
      assert CollapseFrom(a + b, |a| + p) == [b[p]] + CollapseFrom(a + b, |a| + (p + n));
    }
  }

  /** A step of collapsing in a text's tail is the step in the tail alone. */
  lemma StepInTail(a: string, b: string, p: nat)
    requires p < |b|
    ensures (a + b)[|a| + p] == b[p]
    ensures StepFrom(a + b, |a| + p) == StepFrom(b, p)
  {
    RunInTail(a, b, p, Is(' '));
  }

  /** A run in a text's tail is the same run as in the tail alone. */
  lemma {:induction false} RunInTail(a: string, b: string, p: nat, k: Class)
    requires p <= |b|
    ensures RunFrom(a + b, |a| + p, k) == RunFrom(b, p, k)
    decreases |b| - p
  {
    if p < |b| {
      assert (a + b)[|a| + p] == b[p];
      RunInTail(a, b, p + 1, k);
    }
  }

  /** The header pass's `## title` line, cleaned: the title's inner runs of
      spaces collapse, and nothing else changes. */
  lemma CleanHeaderLine(x: string)
    requires x != [] ==> !IsSpace(x[0]) && !IsSpace(x[|x| - 1])
    ensures CleanLine("## " + x) == if x == [] then "##" else "## " + Collapse(x)
  {
    if x == [] {
      assert "## " + x == "## ";
      HeaderMarkAlone();
    } else {
      HeaderMarkCollapse(x);
      var c := Collapse(x);
      CollapseLast(x, 0);
      assert ("## " + c)[|"## " + c| - 1] == c[|c| - 1];
      StripFixed("## " + c);
    }
  }

  /** `## ` alone collapses to itself and strips to `##`. */
  lemma HeaderMarkAlone()
    ensures Strip(Collapse("## ")) == "##"
  {
    MarkCollapses();
    MarkStrips();
  }

  lemma MarkCollapses()
    ensures Collapse("## ") == "## "
  {
    var t := "## ";
    RunUnique(t, 2, Is(' '), 1);
    assert CollapseFrom(t, 2) == " ";
    assert CollapseFrom(t, 1) == "# ";
  }

  lemma MarkStrips()
    ensures Strip("## ") == "##"
  {
    assert RunFrom("## ", 0, Space) == 0;
    assert RunBack("## ", 0, 3, Space) == 2;
  }

  /** The single space after `##` is kept, and the title collapses on its
      own. */
  lemma HeaderMarkCollapse(x: string)
    requires x != [] && x[0] != ' '
    ensures Collapse("## " + x) == "## " + Collapse(x)
  {
    var t := "## " + x;
    assert t[3] == x[0];
    RunUnique(t, 2, Is(' '), 1);
    CollapseShift("## ", x, 0);
    var c := CollapseFrom(t, 3);
    assert CollapseFrom(t, 2) == [' '] + c;
    assert CollapseFrom(t, 1) == ['#'] + ([' '] + c);
    assert CollapseFrom(t, 0) == ['#'] + (['#'] + ([' '] + c));
    assert ['#'] + (['#'] + ([' '] + c)) == "## " + c;
  }

  /** A whole text that is one line `=== title ===` (at least three `=` on
      each side, the title neither starting nor ending with `=`) comes out as
      `## ` and the title with its surrounding whitespace removed and its
      runs of spaces collapsed; a title of whitespace only leaves `##`. */
  lemma CleanTitledLine(text: string, i: nat, m: string, j: nat)
    requires TitledLine(text, 0, i, m, j) && |text| == i + |m| + j && All(m, Inline)
    ensures CleanText(text) == if Strip(m) == [] then "##" else "## " + Collapse(Strip(m))
  {
    PassesOnTitledLine(text, i, m, j);
    CleanTextVia(text, "## " + Strip(m));
    StripInline(m);
    CleanHeaderText(Strip(m));
  }

  /** A whole text that is one line of six or more `=` is a header with an
      empty title, and comes out as `##`. */
  lemma CleanRuleLine(text: string)
    requires All(text, Is('=')) && 6 <= |text|
    ensures CleanText(text) == "##"
  {
    PassesOnRuleLine(text);
    CleanTextVia(text, "## " + []);
    CleanHeaderText([]);
  }

  /** The regular-expression passes on such a line: no page number, and the
      header rewritten to `## ` and the empty title. */
  lemma PassesOnRuleLine(text: string)
    requires All(text, Is('=')) && 6 <= |text|
    ensures DropPageNumbers(text) == text
    ensures FormatHeaders(DropPageNumbers(text)) == "## " + []
  {
    forall i | 0 <= i < |text|
      ensures !IsDigit(text[i])
    {
      assert Is('=').Has(text[i]);
    }
    NoPageWithoutDigit(text);
    SubUnchanged(PageNumber, [], text);
    HeaderOfRule(text);
    WholeHeader(text, |text| - 3, |text| - 3);
  }

  /** The line pass on the one line `## ` and a stripped title. */
  lemma CleanHeaderText(x: string)
    requires All(x, Inline)
    requires x != [] ==> !IsSpace(x[0]) && !IsSpace(x[|x| - 1])
    ensures JoinLines(CleanLines(SplitLines("## " + x))) == if x == [] then "##" else "## " + Collapse(x)
  {
    HeaderTextInline(x);
    CleanOneLine("## " + x);
    CleanHeaderLine(x);
  }

  /** `## ` and a title on one line is one line, and not a blank one. */
  lemma HeaderTextInline(x: string)
    requires All(x, Inline)
    ensures All("## " + x, Inline) && !AllIn("## " + x, 0, |"## " + x|, Space)
  {
    var t := "## " + x;
    MarkInline();
    PrefixInline("## ", x);
    assert t[0] == '#';
  }

  lemma CleanTextVia(text: string, t: string)
    requires FormatHeaders(DropPageNumbers(text)) == t
    ensures CleanText(text) == JoinLines(CleanLines(SplitLines(t)))
  {
    CleanTextOf(text, CleanLines(SplitLines(t)));
  }

  /** A text of one line that is not blank comes out as that line
      cleaned. */
  lemma CleanOneLine(t: string)
    requires All(t, Inline) && !AllIn(t, 0, |t|, Space)
    ensures JoinLines(CleanLines(SplitLines(t))) == CleanLine(t)
  {
    SplitOne(t);
    StripBlank(t);
    CleanLinesOne(t);
  }

  /** The regular-expression passes on such a line: no page number, and the
      header rewritten to `## title`. */
  lemma PassesOnTitledLine(text: string, i: nat, m: string, j: nat)
    requires TitledLine(text, 0, i, m, j) && |text| == i + |m| + j
    ensures DropPageNumbers(text) == text
    ensures FormatHeaders(text) == "## " + Strip(m)
  {
    LineHasNoNewline(text, 0, i, m, j);
    assert All(text, Not('\n'));
    OneLineWithoutPage(text, 0);
    AnchoredOnlyAtStart(HeaderLine, text);
    HeaderSubOnTitledLine(text, i, m, j);
  }

  lemma HeaderSubOnTitledLine(text: string, i: nat, m: string, j: nat)
    requires TitledLine(text, 0, i, m, j) && |text| == i + |m| + j
    requires NoMatchIn(Attempt(HeaderLine, text), text, 1, |text| + 1)
    ensures FormatHeaders(text) == "## " + Strip(m)
  {
    var at := Attempt(HeaderLine, text);
    HeaderOfTitledLine(text, 0, i, m, j);
    var h := Hit(|text|, [Span(TitleStart(0, i, m), TitleEnd(0, i, m))]);
    assert MatchAt(HeaderLine, text, 0) == HeaderHere(text, 0);
    assert at(0) == Some(h);
    AttemptSteps(HeaderLine, text);
    SubWhole(at, text, 1, HeaderTemplate, h);
    ExpandHeader(text, h);
  }

  /** Where a header attempt succeeds: at a line start, on a `=`. */
  lemma HeaderAttemptStarts(s: string, q: nat)
    requires q <= |s|
    ensures Attempt(HeaderLine, s)(q).Some? ==> q < |s| && s[q] == '=' && AtLineStart(s, q)
  {
    if MatchAt(HeaderLine, s, q).Some? {
      HeaderNeeds(s, q);
    }
  }

  /** A text that is one header match from start to end becomes `## ` and
      the title. */
  lemma WholeHeader(s: string, g0: nat, h1: nat)
    requires g0 <= h1 <= |s| && HeaderHere(s, 0) == Some(Hit(|s|, [Span(g0, h1)]))
    ensures FormatHeaders(s) == "## " + s[g0..h1]
  {
    var h := Hit(|s|, [Span(g0, h1)]);
    var at := Attempt(HeaderLine, s);
    AttemptSteps(HeaderLine, s);
    assert at(0) == Some(h);
    HeaderAttemptStarts(s, |s|);
    SubWhole(at, s, 1, HeaderTemplate, h);
    ExpandHeader(s, h);
  }

  /** The replacement `## \1` for a header hit. */
  lemma ExpandHeader(s: string, h: Hit)
    requires |h.groups| == 1 && h.groups[0].lo <= h.groups[0].hi <= |s|
    ensures Expand(HeaderTemplate, s, h) == "## " + s[h.groups[0].lo..h.groups[0].hi]
  {
    var g := h.groups[0];
    assert HeaderTemplate[1..] == [Ref(1)];
    assert HeaderTemplate[1..][1..] == [];
    assert Expand([], s, h) == "";
    assert Expand([Ref(1)], s, h) == s[g.lo..g.hi];
  }

  /** Stripping keeps a text's lack of line breaks. */
  lemma StripInline(m: string)
    requires All(m, Inline)
    ensures All(Strip(m), Inline)
  {
    SliceKeeps(m, RunFrom(m, 0, Space), RunFrom(m, 0, Space) + |Strip(m)|, Inline);
  }

  lemma MarkInline()
    ensures All("## ", Inline)
  {
    var t := "## ";
    assert t[0] == '#' && t[1] == '#' && t[2] == ' ';
  }

  lemma PrefixInline(a: string, b: string)
    requires All(a, Inline) && All(b, Inline)
    ensures All(a + b, Inline)
  {
    assert forall i :: |a| <= i < |a + b| ==> (a + b)[i] == b[i - |a|];
  }

  /** `splitlines` cuts at a line break other than `\r`. */
  lemma SplitAtBreak(a: string, c: char, b: string)
    requires All(a, Inline) && IsLineBreak(c) && c != '\r'
    ensures SplitLines(a + [c] + b) == [a] + SplitLines(b)
  {
    var s := a + [c] + b;
    assert forall i :: 0 <= i < |a| ==> s[i] == a[i];
    RunUnique(s, 0, Inline, |a|);
    assert s[..|a|] == a && s[|a| + 1..] == b;
  }

  /** A text without line breaks is one line. */
  lemma SplitOne(t: string)
    requires t != [] && All(t, Inline)
    ensures SplitLines(t) == [t]
  {
    RunUnique(t, 0, Inline, |t|);
  }

  /** `=== Title ===` becomes `## Title`, and so does any other word
      between the equals signs. */
  lemma TitleExample(w: string)
    requires w != [] && All(w, Word)
    ensures CleanText("=== " + w + " ===") == "## " + w
  {
    var text := "=== " + w + " ===";
    var m := " " + w + " ";
    assert text == "===" + m + "===";
    WordIsTitled(w, m, text);
    WordTitle(w, m);
    CleanTitledLine(text, 3, m, 3);
  }

  lemma WordIsTitled(w: string, m: string, text: string)
    requires w != [] && All(w, Word) && m == " " + w + " " && text == "===" + m + "==="
    ensures TitledLine(text, 0, 3, m, 3) && All(m, Inline) && |text| == 3 + |m| + 3
  {
    SpacedWord(w, m);
    EqualsAround(m, text);
  }

  lemma SpacedWord(w: string, m: string)
    requires w != [] && All(w, Word) && m == " " + w + " "
    ensures 0 < |m| && m[0] == ' ' && m[|m| - 1] == ' '
    ensures All(m, Inline) && All(m, Not('\n'))
  {
    assert forall i :: 0 <= i < |w| ==> m[i + 1] == w[i];
  }

  lemma EqualsAround(m: string, text: string)
    requires text == "===" + m + "==="
    ensures |text| == 3 + |m| + 3
    ensures AllIn(text, 0, 3, Is('=')) && HasAt(text, 3, m) && AllIn(text, 3 + |m|, 3 + |m| + 3, Is('='))
  {
    assert forall i :: 0 <= i < |m| ==> text[3 + i] == m[i];
  }

  lemma WordTitle(w: string, m: string)
    requires w != [] && All(w, Word) && m == " " + w + " "
    ensures Strip(m) == w && Collapse(w) == w
  {
    assert m[1..|m| - 1] == w;
    assert forall i :: 1 <= i < |m| - 1 ==> m[i] == w[i - 1];
    RunUnique(m, 0, Space, 1);
    assert RunBack(m, 1, |m| - 1, Space) == |m| - 1;
    assert RunBack(m, 1, |m|, Space) == |m| - 1;
    CollapseKeeps(w, 0);
  }

  // ---------------------------------------------------------------------
  // `clean_text` is not idempotent

  /** The header rule looks for `=` at the very start of a line, and lines
      are stripped only afterwards: an indented header line loses its
      indentation in one pass and becomes `## title` in the next. */
  lemma IndentedHeaderTakesTwoPasses(w: string)
    requires w != [] && All(w, Word)
    ensures CleanText("  === " + w + " ===") == "=== " + w + " ==="
    ensures CleanText("=== " + w + " ===") == "## " + w
  {
    var u := "=== " + w + " ===";
    var text := "  " + u;
    assert text == "  === " + w + " ===";
    WordLine(w, u);
    PrefixInline("  ", u);
    assert All(text, Not('\n'));
    OneLineWithoutPage(text, 2);
    OneLineWithoutHeader(text);
    assert !IsSpace(text[2]);
    CleanOneLine(text);
    IndentCollapses(u, text);
    TitleExample(w);
  }

  /** `=== w ===` for a word `w`: one line, no two spaces in a row,
      equals signs at both ends. */
  lemma WordLine(w: string, u: string)
    requires w != [] && All(w, Word) && u == "=== " + w + " ==="
    ensures All(u, Inline) && NoDoubleSpace(u) && u[0] == '=' && u[|u| - 1] == '='
  {
    assert forall i :: 4 <= i < 4 + |w| ==> u[i] == w[i - 4];
    forall i | 0 <= i < |u| - 1
      ensures !(u[i] == ' ' && u[i + 1] == ' ')
    {
      if i == 3 {
        assert u[4] == w[0];
      }
    }
  }

  lemma IndentCollapses(u: string, text: string)
    requires NoDoubleSpace(u) && u != [] && u[0] == '=' && u[|u| - 1] == '=' && text == "  " + u
    ensures CleanLine(text) == u
  {
    IndentCollapse(u, text);
    var c := " " + u;
    RunUnique(c, 0, Space, 1);
    assert RunBack(c, 1, |c|, Space) == |c|;
    assert c[1..] == u;
  }

  lemma IndentCollapse(u: string, text: string)
    requires NoDoubleSpace(u) && u != [] && u[0] == '=' && text == "  " + u
    ensures Collapse(text) == " " + u
  {
    RunUnique(text, 0, Is(' '), 2);
    assert CollapseFrom(text, 0) == " " + CollapseFrom(text, 2);
    CollapseShift("  ", u, 0);
    CollapseKeeps(u, 0);
  }

  /** `clean_text` joins the lines the line pass keeps. */
  lemma CleanTextOf(text: string, ls: seq<string>)
    requires CleanLines(SplitLines(FormatHeaders(DropPageNumbers(text)))) == ls
    ensures CleanText(text) == JoinLines(ls)
  {
  }

  lemma JoinTwo(a: string, b: string)
    ensures JoinLines([a, b]) == a + "\n" + b
  {
    assert [a, b][1..] == [b];
  }

  /** `splitlines` breaks lines at a form feed, which the page-number rule's
      `^` and `$` do not treat as a line boundary: a digit after a form feed
      (as in `a\f5`) survives the first pass as a line of its own, and the
      second pass drops it. */
  lemma FormFeedTakesTwoPasses(x: char, d: char)
    requires IsLetter(x) && IsDigit(d)
    ensures CleanText([x, '\U{0c}', d]) == [x, '\n', d]
    ensures CleanText([x, '\n', d]) == [x]
  {
    FormFeedFirstPass(x, d, [x, '\U{0c}', d]);
    FormFeedSecondPass(x, d, [x, '\n', d]);
  }

  lemma FormFeedFirstPass(x: char, d: char, s: string)
    requires IsLetter(x) && IsDigit(d) && s == [x, '\U{0c}', d]
    ensures CleanText(s) == [x, '\n', d]
  {
    FormFeedPasses(x, d, s);
    FormFeedLines(x, d, s);
    TwoLinesKept([x], [d]);
    CleanTextOf(s, [[x], [d]]);
    JoinTwo([x], [d]);
  }

  lemma FormFeedPasses(x: char, d: char, s: string)
    requires IsLetter(x) && IsDigit(d) && s == [x, '\U{0c}', d]
    ensures FormatHeaders(DropPageNumbers(s)) == s
  {
    assert All(s, Not('\n'));
    LetterFacts(x);
    OneLineWithoutPage(s, 0);
    OneLineWithoutHeader(s);
  }

  lemma FormFeedLines(x: char, d: char, s: string)
    requires IsLetter(x) && IsDigit(d) && s == [x, '\U{0c}', d]
    ensures SplitLines(s) == [[x], [d]]
  {
    assert s == [x] + ['\U{0c}'] + [d];
    LetterFacts(x);
    SplitAtBreak([x], '\U{0c}', [d]);
    SplitOne([d]);
  }

  lemma LetterFacts(x: char)
    requires IsLetter(x)
    ensures All([x], Inline) && !IsSpace(x) && x != '='
  {
  }

  lemma TwoLinesKept(x: string, y: string)
    requires |x| == 1 && !IsSpace(x[0]) && |y| == 1 && !IsSpace(y[0])
    ensures CleanLines([x, y]) == [x, y]
  {
    assert [x, y] == [x] + [y];
    CleanLinesAppend([x], [y]);
    CleanSingle(x);
    CleanSingle(y);
  }

  lemma CleanSingle(l: string)
    requires |l| == 1 && !IsSpace(l[0])
    ensures CleanLines([l]) == [l]
  {
    CleanLinesOne(l);
    CollapseKeeps(l, 0);
    StripFixed(l);
  }

  lemma FormFeedSecondPass(x: char, d: char, t: string)
    requires IsLetter(x) && IsDigit(d) && t == [x, '\n', d]
    ensures CleanText(t) == [x]
  {
    var u := [x, '\n'];
    PageLineDropped(x, d, t);
    LetterFacts(x);
    assert All(u, Not('='));
    NoHeaderWithoutEquals(u);
    SubUnchanged(HeaderLine, HeaderTemplate, u);
    assert u == [x] + ['\n'] + "";
    SplitAtBreak([x], '\n', "");
    CleanSingle([x]);
  }

  /** The header rule's `$` holds only before `\n`, while `splitlines` also
      ends lines at a form feed, a vertical tab and the other boundaries: a
      `=== w ===` line ended by one of those keeps its equals signs, where
      the same line ended by `\n` would become `## w`. */
  lemma BreakEndedTitle(w: string, c: char, x: char)
    requires w != [] && All(w, Word) && IsLineBreak(c) && c != '\n' && c != '\r' && IsLetter(x)
    ensures CleanText("=== " + w + " ===" + [c, x]) == "=== " + w + " ===" + "\n" + [x]
    ensures CleanText("=== " + w + " ===") == "## " + w
  {
    var u := "=== " + w + " ===";
    var s := u + [c, x];
    BreakEndedPasses(w, u, c, x, s);
    CleanTextVia(s, s);
    BreakEndedSplit(u, c, x, s);
    LetterFacts(x);
    BreakEndedLines(u, [x]);
    JoinTwo(u, [x]);
    TitleExample(w);
  }

  lemma BreakEndedSplit(u: string, c: char, x: char, s: string)
    requires All(u, Inline) && IsLineBreak(c) && c != '\r' && IsLetter(x) && s == u + [c, x]
    ensures SplitLines(s) == [u, [x]]
  {
    assert s == u + [c] + [x];
    LetterFacts(x);
    SplitAtBreak(u, c, [x]);
    SplitOne([x]);
  }

  lemma BreakEndedPasses(w: string, u: string, c: char, x: char, s: string)
    requires w != [] && All(w, Word) && IsLineBreak(c) && c != '\n' && IsLetter(x)
    requires u == "=== " + w + " ===" && s == u + [c, x]
    ensures All(u, Inline) && NoDoubleSpace(u) && u[0] == '=' && u[|u| - 1] == '='
    ensures FormatHeaders(DropPageNumbers(s)) == s
  {
    WordLine(w, u);
    assert forall i :: 0 <= i < |u| ==> s[i] == u[i];
    assert All(s, Not('\n'));
    OneLineWithoutPage(s, 0);
    LetterFacts(x);
    OneLineEndsWithoutHeader(s);
  }

  /** Two lines that are already clean come through the line pass as they
      are. */
  lemma BreakEndedLines(u: string, y: string)
    requires NoDoubleSpace(u) && u != [] && u[0] == '=' && u[|u| - 1] == '='
    requires |y| == 1 && !IsSpace(y[0])
    ensures CleanLines([u, y]) == [u, y]
  {
    assert [u, y] == [u] + [y];
    CleanLinesAppend([u], [y]);
    CleanSingle(y);
    CleanTidyLine(u);
  }

  lemma CleanTidyLine(u: string)
    requires NoDoubleSpace(u) && u != [] && u[0] == '=' && u[|u| - 1] == '='
    ensures CleanLines([u]) == [u]
  {
    CleanLinesOne(u);
    CollapseKeeps(u, 0);
    StripFixed(u);
  }

  /** The digit line of `a\n5` is a page number. */
  lemma PageLineDropped(x: char, d: char, t: string)
    requires IsLetter(x) && IsDigit(d) && t == [x, '\n', d]
    ensures DropPageNumbers(t) == [x, '\n']
  {
    var at := Attempt(PageNumber, t);
    AttemptSteps(PageNumber, t);
    RunUnique(t, 0, Space, 0);
    RunUnique(t, 2, Space, 0);
    RunUnique(t, 2, Digit, 1);
    RunUnique(t, 3, Space, 0);
    assert PageTrail(t, 3, 0) == Some(3);
    PageFound(t, 2, 0, 1, 3);
    assert at(2) == Some(Hit(3, []));
    assert NoMatchIn(at, t, 0, 2);
    SearchFinds(at, t, 0, Found(2, Hit(3, [])));
    SubNoMatch(at, t, 0, [], 3);
    assert t[0..2] == [x, '\n'];
  }
}
