/** Page numbers do not survive `clean_text` in text whose only line
    boundary is `\n`. The page-number pass leaves no line that is
    whitespace, digits and whitespace; the header pass makes no such line;
    and the line pass turns any other line into something that is not
    digits alone. */
module PageLines {
  import opened Chars
  import opened Patterns
  import opened Scan
  import opened Lines
  import opened Cleansing

  // ---------------------------------------------------------------------
  // Lines that read as \s*\d+\s*

  /** Where a left-to-right reading of a line stands against `\s*\d+\s*`:
      in the leading whitespace, in the digits, in the trailing whitespace,
      or past a character the pattern cannot take. */
  datatype Phase = Lead | Digits | Trail | Off

  function Next(ph: Phase, c: char): Phase {
    match ph
    case Lead => if IsSpace(c) then Lead else if IsDigit(c) then Digits else Off
    case Digits => if IsDigit(c) then Digits else if IsSpace(c) then Trail else Off
    case Trail => if IsSpace(c) then Trail else Off
    case Off => Off
  }

  function Read(w: string, ph: Phase): Phase
    decreases |w|
  {
    if w == [] then ph else Read(w[1..], Next(ph, w[0]))
  }

  /** `w` as a whole is whitespace, at least one digit, then whitespace. */
  predicate PageShape(w: string) {
    Read(w, Lead) == Digits || Read(w, Lead) == Trail
  }

  lemma {:induction false} ReadAppend(a: string, b: string, ph: Phase)
    ensures Read(a + b, ph) == Read(b, Read(a, ph))
    decreases |a|
  {
    if a == [] {
      assert a + b == b;
    } else {
      assert (a + b)[0] == a[0] && (a + b)[1..] == a[1..] + b;
      ReadAppend(a[1..], b, Next(ph, a[0]));
    }
  }

  lemma ReadCons(c: char, r: string, ph: Phase)
    ensures Read([c] + r, ph) == Read(r, Next(ph, c))
  {
    assert ([c] + r)[0] == c && ([c] + r)[1..] == r;
  }

  lemma {:induction false} ReadOff(w: string)
    ensures Read(w, Off) == Off
    decreases |w|
  {
    if w != [] {
      ReadOff(w[1..]);
    }
  }

  /** Whitespace moves the reading as one space does. */
  lemma {:induction false} ReadBlank(w: string, ph: Phase)
    requires All(w, Space)
    ensures Read(w, ph) == if w == [] then ph else Next(ph, ' ')
    decreases |w|
  {
    if w != [] {
      assert forall i :: 0 <= i < |w| - 1 ==> w[1..][i] == w[i + 1];
      ReadBlank(w[1..], Next(ph, w[0]));
    }
  }

  lemma {:induction false} ReadDigits(w: string, ph: Phase)
    requires w != [] && All(w, Digit) && (ph == Lead || ph == Digits)
    ensures Read(w, ph) == Digits
    decreases |w|
  {
    if |w| > 1 {
      assert forall i :: 0 <= i < |w| - 1 ==> w[1..][i] == w[i + 1];
      ReadDigits(w[1..], Digits);
    }
  }

  /** Once past the digits, only whitespace keeps the reading alive. */
  lemma {:induction false} TrailBlank(r: string)
    ensures Read(r, Trail) != Off ==> All(r, Space)
    decreases |r|
  {
    if r != [] {
      if IsSpace(r[0]) {
        TrailBlank(r[1..]);
        assert forall i :: 1 <= i < |r| ==> r[i] == r[1..][i - 1];
      } else {
        ReadOff(r[1..]);
      }
    }
  }

  lemma AfterDigits(r: string)
    requires r != [] ==> !IsDigit(r[0])
    ensures Read(r, Digits) != Off ==> All(r, Space)
  {
    if r != [] {
      if IsSpace(r[0]) {
        TrailBlank(r[1..]);
        assert forall i :: 1 <= i < |r| ==> r[i] == r[1..][i - 1];
      } else {
        ReadOff(r[1..]);
      }
    }
  }

  /** Reading `w[i..]` is reading `w[i..j]`, then `w[j..]`. */
  lemma ReadSplit(w: string, i: nat, j: nat, ph: Phase)
    requires i <= j <= |w|
    ensures Read(w[i..], ph) == Read(w[j..], Read(w[i..j], ph))
  {
    assert w[i..] == w[i..j] + w[j..];
    ReadAppend(w[i..j], w[j..], ph);
  }

  /** Whitespace in front leaves the reading where it began. */
  lemma LeadBlank(w: string, x: nat)
    requires AllIn(w, 0, x, Space)
    ensures Read(w, Lead) == Read(w[x..], Lead)
  {
    SliceAll(w, 0, x, Space);
    ReadSplit(w, 0, x, Lead);
    ReadBlank(w[0..x], Lead);
    assert w[0..] == w;
  }

  /** In particular, the leading whitespace `strip` would drop. */
  lemma LeadSkip(w: string)
    ensures Read(w, Lead) == Read(w[RunFrom(w, 0, Space)..], Lead)
  {
    RunAll(w, 0, Space);
    LeadBlank(w, RunFrom(w, 0, Space));
  }

  /** Without a digit where the whitespace ends, the reading fails. */
  lemma NoDigitAfterLead(w: string, x: nat)
    requires x <= |w| && (x < |w| ==> !IsSpace(w[x]) && !IsDigit(w[x]))
    ensures !PageShape(w[x..]) || x == |w|
  {
    if x < |w| {
      ReadSplit(w, x, x + 1, Lead);
      assert w[x..x + 1] == [w[x]] + [];
      ReadCons(w[x], [], Lead);
      ReadOff(w[x + 1..]);
    }
  }

  /** After the digits, a line of that shape holds whitespace only. */
  lemma DigitsThen(w: string, x: nat)
    requires x <= |w| && 0 < RunFrom(w, x, Digit)
    ensures Read(w[x..], Lead) != Off ==> AllIn(w, x + RunFrom(w, x, Digit), |w|, Space)
  {
    var y := x + RunFrom(w, x, Digit);
    RunAll(w, x, Digit);
    SliceAll(w, x, y, Digit);
    ReadSplit(w, x, y, Lead);
    ReadDigits(w[x..y], Lead);
    if y < |w| {
      assert w[y..][0] == w[y];
    }
    AfterDigits(w[y..]);
    if Read(w[x..], Lead) != Off {
      forall i | y <= i < |w|
        ensures IsSpace(w[i])
      {
        assert w[i] == w[y..][i - y];
      }
    }
  }

  /** A line of that shape is a maximal run of whitespace, the maximal run
      of digits after it, and whitespace to the end: the parts the page
      pattern's matcher looks for. */
  lemma ShapeParts(w: string)
    ensures PageShape(w) ==>
      PageParts(w, 0, RunFrom(w, 0, Space), RunFrom(w, RunFrom(w, 0, Space), Digit), |w|)
  {
    var x := RunFrom(w, 0, Space);
    var d := RunFrom(w, x, Digit);
    LeadSkip(w);
    RunAll(w, 0, Space);
    RunAll(w, x, Digit);
    if d == 0 {
      NoDigitAfterLead(w, x);
      assert w[|w|..] == [];
    } else {
      DigitsThen(w, x);
    }
  }

  /** Collapsing runs of spaces does not change how a line reads. */
  lemma {:induction false} ReadCollapse(l: string, p: nat, ph: Phase)
    requires p <= |l|
    ensures Read(CollapseFrom(l, p), ph) == Read(l[p..], ph)
    decreases |l| - p
  {
    if p < |l| {
      var n := StepFrom(l, p);
      ReadStep(l, p, ph);
      assert l[p..] == l[p..p + n] + l[p + n..];
      ReadAppend(l[p..p + n], l[p + n..], ph);
      ReadCollapse(l, p + n, Next(ph, l[p]));
      ReadCons(l[p], CollapseFrom(l, p + n), ph);
    }
  }

  lemma ReadStep(l: string, p: nat, ph: Phase)
    requires p < |l|
    ensures Read(l[p..p + StepFrom(l, p)], ph) == Next(ph, l[p])
  {
    var n := StepFrom(l, p);
    if l[p] == ' ' {
      RunAllTo(l, p, Is(' '), p + n);
      var run := l[p..p + n];
      forall i | 0 <= i < n
        ensures IsSpace(run[i])
      {
        assert run[i] == l[p + i];
      }
      ReadBlank(l[p..p + n], ph);
    } else {
      assert l[p..p + n] == [l[p]] + [];
      ReadCons(l[p], [], ph);
    }
  }

  /** A line that is whitespace, `w[x..y]` and whitespace reads as
      `w[x..y]` followed by whitespace. */
  lemma ReadFramed(w: string, x: nat, y: nat)
    requires x <= y <= |w| && AllIn(w, 0, x, Space) && AllIn(w, y, |w|, Space)
    ensures Read(w, Lead) == Read(w[y..], Read(w[x..y], Lead))
    ensures Read(w[y..], Digits) in {Digits, Trail}
  {
    LeadBlank(w, x);
    ReadSplit(w, x, y, Lead);
    TrailAfter(w, y);
  }

  lemma TrailAfter(w: string, y: nat)
    requires AllIn(w, y, |w|, Space)
    ensures Read(w[y..], Digits) in {Digits, Trail}
  {
    SliceAll(w, y, |w|, Space);
    assert w[y..|w|] == w[y..];
    ReadBlank(w[y..], Digits);
  }

  /** Text whose strip is digits alone has the shape. */
  lemma StripDigits(w: string)
    ensures Strip(w) != [] && All(Strip(w), Digit) ==> PageShape(w)
  {
    var r := Strip(w);
    if r != [] && All(r, Digit) {
      var x := RunFrom(w, 0, Space);
      StripCuts(w);
      ReadFramed(w, x, x + |r|);
      assert w[x..x + |r|] == r;
      ReadDigits(r, Lead);
    }
  }

  /** A line the line pass turns into digits alone has the shape. */
  lemma CleanLineDigits(l: string)
    ensures CleanLine(l) != [] && All(CleanLine(l), Digit) ==> PageShape(l)
  {
    StripDigits(Collapse(l));
    ReadCollapse(l, 0, Lead);
    assert l[0..] == l;
  }

  // ---------------------------------------------------------------------
  // The lines of a text

  /** `t[a..b]` is a line of `t`, lines being separated by `\n`: it starts
      at a line start and runs, without a `\n`, to a line end. */
  predicate LineSpan(t: string, a: nat, b: nat) {
    a <= b && AtLineStart(t, a) && AtLineEnd(t, b) && AllIn(t, a, b, Not('\n'))
  }

  /** No line of `t` is a page number. */
  ghost predicate NoPageLine(t: string) {
    forall a: nat, b: nat :: LineSpan(t, a, b) ==> !PageShape(t[a..b])
  }

  /** A line of `x + y` that ends within `x` is a line of `x`. */
  lemma SpanInHead(x: string, y: string, a: nat, b: nat)
    requires LineSpan(x + y, a, b) && b <= |x|
    ensures LineSpan(x, a, b) && (x + y)[a..b] == x[a..b]
  {
    forall i | a <= i < b
      ensures x[i] != '\n'
    {
      assert x[i] == (x + y)[i];
    }
    if 0 < a {
      assert x[a - 1] == (x + y)[a - 1];
    }
    if b < |x| {
      assert x[b] == (x + y)[b];
    }
  }

  /** A line of `x + y` that starts within `y` is a line of `y`. */
  lemma SpanInTail(x: string, y: string, a: nat, b: nat)
    requires LineSpan(x + y, a, b) && |x| <= a
    ensures LineSpan(y, a - |x|, b - |x|) && (x + y)[a..b] == y[a - |x|..b - |x|]
  {
    forall i | a - |x| <= i < b - |x|
      ensures y[i] != '\n'
    {
      assert y[i] == (x + y)[|x| + i];
    }
    if |x| < a {
      assert y[a - |x| - 1] == (x + y)[a - 1];
    }
    if b < |x + y| {
      assert y[b - |x|] == (x + y)[b];
    }
  }

  /** Text ending in `\n`, followed by other text: every line lies in one
      of the two. */
  lemma NoPageAfterBreak(x: string, y: string)
    requires NoPageLine(x) && NoPageLine(y)
    requires x == [] || x[|x| - 1] == '\n'
    ensures NoPageLine(x + y)
  {
    forall a: nat, b: nat | LineSpan(x + y, a, b)
      ensures !PageShape((x + y)[a..b])
    {
      if b <= |x| {
        SpanInHead(x, y, a, b);
      } else {
        assert |x| <= a by {
          if x != [] {
            assert (x + y)[|x| - 1] == '\n';
          }
        }
        SpanInTail(x, y, a, b);
      }
    }
  }

  /** Text followed by text that starts with `\n`: every line lies in one
      of the two. */
  lemma NoPageBeforeBreak(x: string, y: string)
    requires NoPageLine(x) && NoPageLine(y)
    requires y == [] || y[0] == '\n'
    ensures NoPageLine(x + y)
  {
    forall a: nat, b: nat | LineSpan(x + y, a, b)
      ensures !PageShape((x + y)[a..b])
    {
      if b <= |x| {
        SpanInHead(x, y, a, b);
      } else {
        assert |x| < a by {
          assert (x + y)[|x|] == '\n';
        }
        SpanInTail(x, y, a, b);
      }
    }
  }

  /** Cutting a text just after a `\n` keeps the lines after the cut. */
  lemma NoPageAfterCut(t: string, k: nat)
    requires k <= |t| && AtLineStart(t, k) && NoPageLine(t)
    ensures NoPageLine(t[k..])
  {
    assert t == t[..k] + t[k..];
    forall a: nat, b: nat | LineSpan(t[k..], a, b)
      ensures !PageShape(t[k..][a..b])
    {
      SpanAfterCut(t, k, a, b);
    }
  }

  lemma SpanAfterCut(t: string, k: nat, a: nat, b: nat)
    requires k <= |t| && AtLineStart(t, k) && LineSpan(t[k..], a, b)
    ensures LineSpan(t, k + a, k + b) && t[k..][a..b] == t[k + a..k + b]
  {
    forall i | k + a <= i < k + b
      ensures t[i] != '\n'
    {
      assert t[i] == t[k..][i - k];
    }
    if 0 < a {
      assert t[k + a - 1] == t[k..][a - 1];
    }
    if k + b < |t| {
      assert t[k + b] == t[k..][b];
    }
  }

  /** The text from `p` (the start, or a line end) to `f` (where a line
      starts) holds only lines of the whole text, and empty ones; so when
      no line of the whole text starting in between is a page number, no
      line of the cut is. */
  lemma KeptLines(s: string, p: nat, f: nat)
    requires p <= f <= |s| && (p == 0 || AtLineEnd(s, p))
    requires f == p || f == |s| || s[f - 1] == '\n'
    requires forall u: nat, v: nat :: p <= u < f && LineSpan(s, u, v) ==> !PageShape(s[u..v])
    ensures NoPageLine(s[p..f])
  {
    forall a: nat, b: nat | LineSpan(s[p..f], a, b)
      ensures !PageShape(s[p..f][a..b])
    {
      if a < b {
        var t := s[p..f];
        assert 0 < p ==> t[0] == '\n';
        assert 0 < p ==> 0 < a;
        assert f < |s| ==> t[|t| - 1] == '\n';
        assert p + b < f || f == |s|;
        SpanOfCut(s, p, f, a, b);
      } else {
        assert s[p..f][a..b] == [];
      }
    }
  }

  lemma SpanOfCut(s: string, p: nat, f: nat, a: nat, b: nat)
    requires p <= f <= |s| && LineSpan(s[p..f], a, b) && a < b
    requires 0 < p ==> 0 < a
    requires p + b < f || f == |s|
    ensures LineSpan(s, p + a, p + b) && s[p..f][a..b] == s[p + a..p + b]
  {
    var t := s[p..f];
    forall i | p + a <= i < p + b
      ensures s[i] != '\n'
    {
      assert s[i] == t[i - p];
    }
    if 0 < a {
      assert t[a - 1] == s[p + a - 1];
    }
    if p + b < f {
      assert t[b] == s[p + b];
    }
    forall i | 0 <= i < b - a
      ensures t[a..b][i] == s[p + a..p + b][i]
    {
      assert t[a..b][i] == s[p + a + i];
    }
  }

  // ---------------------------------------------------------------------
  // The page-number pass

  /** A line of page-number shape is matched where it starts. */
  lemma PageLineMatched(s: string, u: nat, v: nat)
    requires LineSpan(s, u, v)
    ensures PageShape(s[u..v]) ==> MatchAt(PageNumber, s, u).Some?
  {
    var w := s[u..v];
    ShapeParts(w);
    if PageShape(w) {
      var x := RunFrom(w, 0, Space);
      var d := RunFrom(w, x, Digit);
      CutAllIn(s, u, v, 0, x, Space);
      CutAllIn(s, u, v, x, x + d, Digit);
      CutAllIn(s, u, v, x + d, |w|, Space);
      assert PageParts(s, u, x, d, v);
      PageMatchIsLongest(s, u, v);
    }
  }

  /** A class that holds over part of a cut holds over the same part of the
      text. */
  lemma CutAllIn(s: string, u: nat, v: nat, lo: nat, hi: nat, k: Class)
    requires u <= v <= |s| && AllIn(s[u..v], lo, hi, k)
    ensures AllIn(s, u + lo, u + hi, k)
  {
    forall i | u + lo <= i < u + hi
      ensures k.Has(s[i])
    {
      assert s[i] == s[u..v][i - u];
    }
  }

  /** Where the page pattern matches nowhere, no line starts a page
      number. */
  lemma NoPageWhereNoMatch(s: string, p: nat, f: nat)
    requires p <= f <= |s| + 1 && NoMatchIn(Attempt(PageNumber, s), s, p, f)
    ensures forall u: nat, v: nat :: p <= u < f && LineSpan(s, u, v) ==> !PageShape(s[u..v])
  {
    forall u: nat, v: nat | p <= u < f && LineSpan(s, u, v)
      ensures !PageShape(s[u..v])
    {
      PageLineMatched(s, u, v);
      assert Attempt(PageNumber, s)(u) == MatchAt(PageNumber, s, u);
    }
  }

  /** A page-number match starts at a line start and ends at a line end. */
  lemma PageHitEnds(s: string, f: Found)
    requires IsFound(Attempt(PageNumber, s), s, f)
    ensures AtLineStart(s, f.start) && AtLineEnd(s, f.hit.end) && f.start < f.hit.end <= |s|
    ensures f.hit.groups == []
  {
    assert MatchAt(PageNumber, s, f.start) == Some(f.hit);
    assert PageHere(s, f.start) == Some(f.hit);
  }

  /** Past the last match the text is kept, and has no page-number
      line. */
  lemma PageRest(s: string, p: nat)
    requires p <= |s| && (p == 0 || AtLineEnd(s, p))
    requires NoMatchIn(Attempt(PageNumber, s), s, p, |s| + 1)
    ensures NoPageLine(s[p..])
  {
    NoPageWhereNoMatch(s, p, |s| + 1);
    KeptLines(s, p, |s|);
    assert s[p..|s|] == s[p..];
  }

  /** The text kept before a match has no page-number line, and ends with
      `\n` unless it is empty. */
  lemma PageKept(s: string, p: nat, q: nat)
    requires p <= q <= |s| && (p == 0 || AtLineEnd(s, p)) && AtLineStart(s, q)
    requires NoMatchIn(Attempt(PageNumber, s), s, p, q)
    ensures NoPageLine(s[p..q])
    ensures s[p..q] == [] || s[p..q][|s[p..q]| - 1] == '\n'
  {
    NoPageWhereNoMatch(s, p, q);
    KeptLines(s, p, q);
    if p < q {
      assert s[p..q][q - p - 1] == s[q - 1];
    }
  }

  /** One step of the page-number substitution: the kept text, nothing for
      the match, and what follows. */
  lemma PagePiece(s: string, p: nat, q: nat, h: Hit, y: string)
    requires p <= q <= |s| && (p == 0 || AtLineEnd(s, p)) && AtLineStart(s, q)
    requires NoMatchIn(Attempt(PageNumber, s), s, p, q)
    requires h.groups == [] && NoPageLine(y)
    ensures NoPageLine(s[p..q] + Expand([], s, h) + y)
  {
    PageKept(s, p, q);
    var x := s[p..q];
    NoPageAfterBreak(x, y);
    ExpandNothing(s, h);
    assert x + Expand([], s, h) == x;
  }

  /** The empty replacement leaves nothing of a match. */
  lemma ExpandNothing(s: string, h: Hit)
    requires h.groups == []
    ensures Expand([], s, h) == []
  {
  }

  /** The page-number substitution from `p` leaves no page-number line. */
  lemma {:induction false} PagePassFrom(s: string, p: nat)
    requires p <= |s| && (p == 0 || AtLineEnd(s, p))
    ensures NoPageLine(SubFrom(Attempt(PageNumber, s), s, 0, [], p))
    decreases |s| - p
  {
    var at := Attempt(PageNumber, s);
    match Search(at, s, p)
    case None =>
      PageRest(s, p);
    case Some(f) =>
      PageHitEnds(s, f);
      PagePassFrom(s, f.hit.end);
      PagePiece(s, p, f.start, f.hit, SubFrom(at, s, 0, [], f.hit.end));
  }

  /** After the page-number pass no line of the text is
      whitespace, digits and whitespace, whatever the text. */
  lemma PagePass(text: string)
    ensures NoPageLine(DropPageNumbers(text))
  {
    PagePassFrom(text, 0);
  }

  // ---------------------------------------------------------------------
  // The header pass

  /** A header match starts with `=` at a line start, ends at a line end,
      and its group holds no `\n`. */
  lemma HeaderHitEnds(s: string, f: Found)
    requires IsFound(Attempt(HeaderLine, s), s, f)
    ensures AtLineStart(s, f.start) && f.start < |s| && s[f.start] == '='
    ensures AtLineEnd(s, f.hit.end) && f.start < f.hit.end <= |s|
    ensures |f.hit.groups| == 1 && f.hit.groups[0].lo <= f.hit.groups[0].hi <= |s|
    ensures AllIn(s, f.hit.groups[0].lo, f.hit.groups[0].hi, Not('\n'))
  {
    var q, h := f.start, f.hit;
    assert MatchAt(HeaderLine, s, q) == Some(h);
    assert HeaderHere(s, q) == Some(h);
    HeaderSound(s, q);
    HeaderNeeds(s, q);
    var o: nat, c: nat :| HeaderParts(s, q, o, h.groups[0].lo, h.groups[0].hi, c, h.end);
  }

  /** `## ` and a title without `\n` is one line, and not a page number. */
  lemma MarkedLine(g: string)
    requires All(g, Not('\n'))
    ensures NoPageLine("## " + g)
  {
    var t := "## " + g;
    assert All(t, Not('\n')) by {
      assert forall i :: 3 <= i < |t| ==> t[i] == g[i - 3];
    }
    forall a: nat, b: nat | LineSpan(t, a, b)
      ensures !PageShape(t[a..b])
    {
      assert a == 0 && b == |t|;
      assert t[a..b][0] == '#';
      ReadOff(t[a..b][1..]);
    }
  }

  /** What the substitution builds from a line end on starts a new line. */
  predicate StartsLine(t: string) {
    t == [] || t[0] == '\n'
  }

  /** The header substitution from `p` makes no page-number line out of
      text that has none. */
  lemma {:induction false} HeaderPassFrom(s: string, p: nat)
    requires p <= |s| && (p == 0 || AtLineEnd(s, p)) && NoPageLine(s)
    ensures NoPageLine(SubFrom(Attempt(HeaderLine, s), s, 1, HeaderTemplate, p))
    ensures 0 < p ==> StartsLine(SubFrom(Attempt(HeaderLine, s), s, 1, HeaderTemplate, p))
    decreases |s| - p
  {
    var at := Attempt(HeaderLine, s);
    match Search(at, s, p)
    case None =>
      HeaderRest(s, p);
    case Some(f) =>
      HeaderHitEnds(s, f);
      HeaderPassFrom(s, f.hit.end);
      HeaderKept(s, p, f.start);
      HeaderPiece(s, p, f.start, f.hit, SubFrom(at, s, 1, HeaderTemplate, f.hit.end));
  }

  /** Text without a page-number line keeps none in any stretch from a
      line end to a line start. */
  lemma HeaderKept(s: string, p: nat, q: nat)
    requires p <= q <= |s| && (p == 0 || AtLineEnd(s, p)) && AtLineStart(s, q)
    requires NoPageLine(s)
    ensures NoPageLine(s[p..q])
  {
    KeptLines(s, p, q);
  }

  /** Past the last header the text is kept. */
  lemma HeaderRest(s: string, p: nat)
    requires p <= |s| && (p == 0 || AtLineEnd(s, p)) && NoPageLine(s)
    ensures NoPageLine(s[p..]) && (0 < p ==> StartsLine(s[p..]))
  {
    KeptLines(s, p, |s|);
    assert s[p..|s|] == s[p..];
    if 0 < p < |s| {
      assert s[p..][0] == s[p];
    }
  }

  /** One step of the header substitution: the kept text, the `## title`
      line, and what follows. */
  lemma HeaderPiece(s: string, p: nat, q: nat, h: Hit, y: string)
    requires p <= q < |s| && (p == 0 || AtLineEnd(s, p)) && AtLineStart(s, q) && s[q] == '='
    requires |h.groups| == 1 && h.groups[0].lo <= h.groups[0].hi <= |s|
    requires AllIn(s, h.groups[0].lo, h.groups[0].hi, Not('\n'))
    requires NoPageLine(s[p..q]) && NoPageLine(y) && StartsLine(y)
    ensures NoPageLine(s[p..q] + Expand(HeaderTemplate, s, h) + y)
    ensures 0 < p ==> StartsLine(s[p..q] + Expand(HeaderTemplate, s, h) + y)
  {
    var g := h.groups[0];
    var x := s[p..q];
    var e := Expand(HeaderTemplate, s, h);
    ExpandHeader(s, h);
    SliceAll(s, g.lo, g.hi, Not('\n'));
    MarkedLine(s[g.lo..g.hi]);
    NoPageBeforeBreak(e, y);
    if p < q {
      assert x[|x| - 1] == s[q - 1];
    }
    NoPageAfterBreak(x, e + y);
    assert x + e + y == x + (e + y);
    if 0 < p {
      assert p < q;
      assert (x + (e + y))[0] == s[p];
    }
  }

  /** After both regular-expression passes no line of the text is
      whitespace, digits and whitespace, whatever the text. */
  lemma PassesLeaveNoPage(text: string)
    ensures NoPageLine(FormatHeaders(DropPageNumbers(text)))
  {
    PagePass(text);
    HeaderPassFrom(DropPageNumbers(text), 0);
  }

  // ---------------------------------------------------------------------
  // The line pass

  /** With `\n` the only line boundary, the lines `splitlines` finds are
      lines in the sense above. */
  lemma {:induction false} SplitLinesNoPage(t: string)
    requires NoPageLine(t) && All(t, Plain)
    ensures forall i :: 0 <= i < |SplitLines(t)| ==> !PageShape(SplitLines(t)[i])
    decreases |t|
  {
    if t != [] {
      var n := RunFrom(t, 0, Inline);
      RunAll(t, 0, Inline);
      if n == |t| {
        assert LineSpan(t, 0, n);
        assert t[0..n] == t;
      } else {
        assert t[n] == '\n';
        assert LineSpan(t, 0, n);
        assert t[..n] == t[0..n];
        NoPageAfterCut(t, n + 1);
        var rest := t[n + 1..];
        forall i | 0 <= i < |rest|
          ensures Plain.Has(rest[i])
        {
          assert rest[i] == t[n + 1 + i];
        }
        SplitLinesNoPage(rest);
        LineThenLines(t[..n], SplitLines(rest));
      }
    }
  }

  lemma LineThenLines(l: string, ls: seq<string>)
    requires !PageShape(l) && forall i :: 0 <= i < |ls| ==> !PageShape(ls[i])
    ensures forall i :: 0 <= i < |[l] + ls| ==> !PageShape(([l] + ls)[i])
  {
    forall i | 0 < i < |[l] + ls|
      ensures !PageShape(([l] + ls)[i])
    {
      assert ([l] + ls)[i] == ls[i - 1];
    }
  }

  /** The line pass makes no line of digits alone out of lines that are no
      page numbers. */
  lemma {:induction false} CleanLinesNoDigits(ls: seq<string>)
    requires forall i :: 0 <= i < |ls| ==> !PageShape(ls[i])
    ensures forall i :: 0 <= i < |CleanLines(ls)| ==> !All(CleanLines(ls)[i], Digit)
    decreases |ls|
  {
    if ls != [] {
      var l := ls[0];
      assert ls == [l] + ls[1..];
      assert forall i :: 0 <= i < |ls| - 1 ==> ls[1..][i] == ls[i + 1];
      CleanLinesNoDigits(ls[1..]);
      if Strip(l) == [] {
        CleanLinesDrop(l, ls[1..]);
      } else {
        CleanLinesKeep(l, ls[1..]);
        StripBlank(l);
        CleanLineDigits(l);
        KeptNoDigits(CleanLine(l), CleanLines(ls[1..]));
      }
    }
  }

  lemma KeptNoDigits(r: string, rest: seq<string>)
    requires !All(r, Digit) && forall i :: 0 <= i < |rest| ==> !All(rest[i], Digit)
    ensures forall i :: 0 <= i < |[r] + rest| ==> !All(([r] + rest)[i], Digit)
  {
    forall i | 0 <= i < |[r] + rest|
      ensures !All(([r] + rest)[i], Digit)
    {
      if 0 < i {
        assert ([r] + rest)[i] == rest[i - 1];
      }
    }
  }

  /** Neither pass adds a line boundary other than `\n` to text that has
      none: the page-number pass only deletes, and the header pass's
      literal `## ` holds no line boundary. */
  lemma PassesKeepPlain(text: string)
    requires All(text, Plain)
    ensures All(FormatHeaders(DropPageNumbers(text)), Plain)
  {
    PagePassKeepsPlain(text);
    HeaderPassKeepsPlain(DropPageNumbers(text));
  }

  lemma PagePassKeepsPlain(text: string)
    requires All(text, Plain)
    ensures All(DropPageNumbers(text), Plain)
  {
    AttemptSteps(PageNumber, text);
    SubFromKeeps(Attempt(PageNumber, text), text, 0, [], 0, Plain);
  }

  lemma HeaderPassKeepsPlain(text: string)
    requires All(text, Plain)
    ensures All(FormatHeaders(text), Plain)
  {
    AttemptSteps(HeaderLine, text);
    MarkPlain();
    SubFromKeeps(Attempt(HeaderLine, text), text, 1, HeaderTemplate, 0, Plain);
  }

  lemma MarkPlain()
    ensures TextsAll(HeaderTemplate, Plain)
  {
    var m := HeaderTemplate[0].t;
    assert m[0] == '#' && m[1] == '#' && m[2] == ' ';
    assert All(m, Plain);
  }

  /** For text whose only line boundary is `\n`, no line of the output of
      `clean_text` consists of digits alone. */
  lemma NoDigitOnlyLine(text: string)
    requires All(text, Plain)
    ensures forall i :: 0 <= i < |SplitLines(CleanText(text))| ==> !All(SplitLines(CleanText(text))[i], Digit)
  {
    var t := FormatHeaders(DropPageNumbers(text));
    PassesLeaveNoPage(text);
    PassesKeepPlain(text);
    SplitLinesNoPage(t);
    var ls := CleanLines(SplitLines(t));
    CleanLinesNoDigits(SplitLines(t));
    CleanTextOf(text, ls);
    CleanLinesTidy(SplitLines(t));
    SplitJoin(ls);
  }
}
