/** The regular expressions of the text normaliser and the semantic tagger,
    each transcribed as the backtracking search Python's `re` engine performs
    for it at one starting position `p` of the text `s`: greedy repeats try
    their longest run first and give back one character at a time, the lazy
    `(.*?)` tries its shortest run first, and an alternation tries its left
    branch first. The first combination that reaches the end of the pattern
    is the match. Positions in hits are positions in `s`.

    Each matcher comes with a declarative description of the text it matches
    and lemmas tying the two. */
module Patterns {
  import opened Chars

  datatype Option<T> = None | Some(value: T)

  /** A capture group `s[lo..hi]`. */
  datatype Span = Span(lo: nat, hi: nat)

  /** A successful attempt: the match ends at `end` (it starts where it was
      attempted). */
  datatype Hit = Hit(end: nat, groups: seq<Span>)

  datatype Pattern =
    | PageNumber    // (?m)^\s*\d+\s*$                   dataCleansing.py:5
    | HeaderLine    // (?m)^={3,}\s*(.*?)\s*={3,}$       dataCleansing.py:8
    | Spaces        // ' +'                               dataCleansing.py:12
    | ClassName     // (class\s+[\w]+)                    pdf_extract.py:64
    | MethodName    // (start\.[a-z]+|install\([^\)]*\))  pdf_extract.py:74
    | Relationship  // (\w+)\s*=>\s*(\w+)                 pdf_extract.py:79
  {
    /** The patterns that start with `^` in multi-line mode. */
    predicate Anchored() {
      PageNumber? || HeaderLine?
    }

    function GroupCount(): nat {
      match this
      case PageNumber => 0
      case Spaces => 0
      case Relationship => 2
      case _ => 1
    }
  }

  /** `^` in multi-line mode: the start of the text or just after a `\n`. */
  predicate AtLineStart(s: string, p: nat) {
    p == 0 || (0 < p <= |s| && s[p - 1] == '\n')
  }

  /** `$` in multi-line mode: the end of the text or just before a `\n`. */
  predicate AtLineEnd(s: string, i: nat) {
    i == |s| || (i < |s| && s[i] == '\n')
  }

  /** A hit of an attempt at `p` is non-empty, inside the text, and has the
      pattern's groups, each inside the match. */
  predicate WellFormed(h: Hit, s: string, p: nat, groups: nat) {
    && p < h.end <= |s|
    && |h.groups| == groups
    && forall g :: g in h.groups ==> p <= g.lo <= g.hi <= h.end
  }

  /** One attempt of `pat` at position `p` of `s`. */
  function MatchAt(pat: Pattern, s: string, p: nat): (r: Option<Hit>)
    requires p <= |s|
    ensures r.Some? ==> WellFormed(r.value, s, p, pat.GroupCount())
    ensures r.Some? && pat.Anchored() ==> AtLineStart(s, p)
  {
    if pat.Anchored() && !AtLineStart(s, p) then None
    else
      match pat
      case PageNumber => PageHere(s, p)
      case HeaderLine => HeaderHere(s, p)
      case Spaces => SpacesHere(s, p)
      case ClassName => ClassHere(s, p)
      case MethodName => MethodHere(s, p)
      case Relationship => RelationHere(s, p)
  }

  // ---------------------------------------------------------------------
  // ^\s*\d+\s*$

  function PageHere(s: string, p: nat): (r: Option<Hit>)
    requires p <= |s|
    ensures r.Some? ==> r.value.groups == [] && IsPageMatch(s, p, r.value.end)
    ensures r.Some? ==> p < r.value.end <= |s|
  {
    match PageLead(s, p, RunFrom(s, p, Space))
    case Some(e) =>
      PageMatchBounds(s, p, e);
      Some(Hit(e, []))
    case None => None
  }

  lemma PageMatchBounds(s: string, p: nat, e: nat)
    requires IsPageMatch(s, p, e)
    ensures p < e <= |s|
  {
  }

  /** `\s*` holding its first `w` characters. */
  function PageLead(s: string, p: nat, w: nat): (r: Option<nat>)
    requires p <= |s| && w <= RunFrom(s, p, Space)
    ensures r.Some? ==> IsPageMatch(s, p, r.value)
    decreases w
  {
    match PageDigits(s, p, w, RunFrom(s, p + w, Digit))
    case Some(e) => Some(e)
    case None => if w == 0 then None else PageLead(s, p, w - 1)
  }

  /** `\d+` holding the `d` characters after `p + w`. */
  function PageDigits(s: string, p: nat, w: nat, d: nat): (r: Option<nat>)
    requires p <= |s| && w <= RunFrom(s, p, Space)
    requires d <= RunFrom(s, p + w, Digit)
    ensures r.Some? ==> IsPageMatch(s, p, r.value)
    decreases d
  {
    if d == 0 then None
    else
      match PageTrail(s, p + w + d, RunFrom(s, p + w + d, Space))
      case Some(e) =>
        RunAll(s, p, Space);
        RunAll(s, p + w, Digit);
        RunAll(s, p + w + d, Space);
        assert PageParts(s, p, w, d, e);
        Some(e)
      case None => PageDigits(s, p, w, d - 1)
  }

  /** The trailing `\s*` holding the `k` characters after `r`, then `$`. */
  function PageTrail(s: string, r: nat, k: nat): (e: Option<nat>)
    requires r + k <= |s|
    ensures e.Some? ==> r <= e.value <= r + k && AtLineEnd(s, e.value)
    decreases k
  {
    if AtLineEnd(s, r + k) then Some(r + k)
    else if k == 0 then None
    else PageTrail(s, r, k - 1)
  }

  /** `s[p..e]` is `w` whitespace characters, `d > 0` digits, then whitespace. */
  predicate PageParts(s: string, p: nat, w: nat, d: nat, e: nat) {
    && 0 < d && p + w + d <= e
    && AllIn(s, p, p + w, Space)
    && AllIn(s, p + w, p + w + d, Digit)
    && AllIn(s, p + w + d, e, Space)
  }

  /** `s[p..e]` belongs to the language of `\s*\d+\s*` and `e` satisfies `$`. */
  ghost predicate IsPageMatch(s: string, p: nat, e: nat) {
    AtLineEnd(s, e) && exists w: nat, d: nat :: PageParts(s, p, w, d, e)
  }

  lemma PageTrailReaches(s: string, r: nat, k: nat, e: nat)
    requires r <= e <= r + k <= |s| && AtLineEnd(s, e)
    ensures PageTrail(s, r, k).Some? && e <= PageTrail(s, r, k).value
    decreases k
  {
    if !AtLineEnd(s, r + k) {
      PageTrailReaches(s, r, k - 1, e);
    }
  }

  /** Among all ends the language allows, the search returns the longest: the
      leading `\s*` and `\d+` have only one way to succeed, and the trailing
      `\s*` gives back characters only until `$` holds. */
  lemma {:induction false} PageMatchIsLongest(s: string, p: nat, e: nat)
    requires IsPageMatch(s, p, e)
    ensures PageHere(s, p).Some?
    ensures e <= PageHere(s, p).value.end
  {
    var w, d := PageWitness(s, p, e);
    PageRuns(s, p, w, d, e);
    var r := p + w + d;
    PageTrailReaches(s, r, RunFrom(s, r, Space), e);
    PageFound(s, p, w, d, PageTrail(s, r, RunFrom(s, r, Space)).value);
  }

  /** When the longest runs of `\s*` and `\d+` lead to a successful trail,
      the search stops there. */
  lemma PageFound(s: string, p: nat, w: nat, d: nat, t: nat)
    requires p <= |s| && RunFrom(s, p, Space) == w && RunFrom(s, p + w, Digit) == d && 0 < d
    requires PageTrail(s, p + w + d, RunFrom(s, p + w + d, Space)) == Some(t)
    ensures PageHere(s, p) == Some(Hit(t, []))
  {
    assert PageDigits(s, p, w, d) == Some(t);
  }

  lemma PageWitness(s: string, p: nat, e: nat) returns (w: nat, d: nat)
    requires IsPageMatch(s, p, e)
    ensures PageParts(s, p, w, d, e)
  {
    w, d :| PageParts(s, p, w, d, e);
  }

  /** In a page-number line the leading `\s*` and the `\d+` are maximal runs,
      and the trailing whitespace lies within the run after the digits. */
  lemma PageRuns(s: string, p: nat, w: nat, d: nat, e: nat)
    requires PageParts(s, p, w, d, e) && AtLineEnd(s, e)
    ensures RunFrom(s, p, Space) == w
    ensures RunFrom(s, p + w, Digit) == d
    ensures e - (p + w + d) <= RunFrom(s, p + w + d, Space)
  {
    RunUnique(s, p, Space, w);
    RunUnique(s, p + w, Digit, d);
    RunCovers(s, p + w + d, Space, e - (p + w + d));
  }

  // ---------------------------------------------------------------------
  // ^={3,}\s*(.*?)\s*={3,}$
  //
  // The search records where each part ends: the opening equals signs at
  // `o`, the first `\s*` at `g0` (where the title starts), the title at `h`,
  // the second `\s*` at `c`. The matchers ask only for these positions to be
  // in order; that what they find is in the pattern's language is
  // `HeaderSound`.

  /** The shape of every header hit: one group, after the opening equals
      signs and before the closing ones. */
  predicate HeaderShaped(x: Hit, s: string, p: nat) {
    && |x.groups| == 1
    && p + 3 <= x.groups[0].lo <= x.groups[0].hi
    && x.groups[0].hi + 3 <= x.end <= |s|
  }

  function HeaderHere(s: string, p: nat): (r: Option<Hit>)
    requires p <= |s|
    ensures r.Some? ==> HeaderShaped(r.value, s, p)
  {
    HeaderOpen(s, p, RunFrom(s, p, Is('=')))
  }

  /** The opening `={3,}` holding its first `a` characters. */
  function HeaderOpen(s: string, p: nat, a: nat): (r: Option<Hit>)
    requires p <= |s| && a <= RunFrom(s, p, Is('='))
    ensures r.Some? ==> HeaderShaped(r.value, s, p)
    decreases a
  {
    if a < 3 then None
    else
      match HeaderLeftSpace(s, p, p + a, RunFrom(s, p + a, Space))
      case Some(h) => Some(h)
      case None => HeaderOpen(s, p, a - 1)
  }

  /** The first `\s*` holding the `k` characters after the opening. */
  function HeaderLeftSpace(s: string, p: nat, o: nat, k: nat): (r: Option<Hit>)
    requires p + 3 <= o <= |s| && k <= RunFrom(s, o, Space)
    ensures r.Some? ==> HeaderShaped(r.value, s, p)
    decreases k
  {
    match HeaderTitle(s, p, o, o + k, o + k)
    case Some(h) => Some(h)
    case None => if k == 0 then None else HeaderLeftSpace(s, p, o, k - 1)
  }

  /** The lazy `(.*?)`, started at `g0` and now ending at `h`: it first tries
      to let the rest of the pattern match, and only then takes one more
      character, which must not be a newline. */
  function HeaderTitle(s: string, p: nat, o: nat, g0: nat, h: nat): (r: Option<Hit>)
    requires p + 3 <= o <= g0 <= h <= |s|
    ensures r.Some? ==> HeaderShaped(r.value, s, p)
    decreases |s| - h
  {
    match HeaderRightSpace(s, p, o, g0, h, RunFrom(s, h, Space))
    case Some(x) => Some(x)
    case None =>
      if h < |s| && s[h] != '\n' then HeaderTitle(s, p, o, g0, h + 1)
      else None
  }

  /** The second `\s*` holding the `k` characters after the title. */
  function HeaderRightSpace(s: string, p: nat, o: nat, g0: nat, h: nat, k: nat): (r: Option<Hit>)
    requires p + 3 <= o <= g0 <= h <= |s| && k <= RunFrom(s, h, Space)
    ensures r.Some? ==> HeaderShaped(r.value, s, p)
    decreases k
  {
    match HeaderClose(s, p, o, g0, h, h + k, RunFrom(s, h + k, Is('=')))
    case Some(x) => Some(x)
    case None => if k == 0 then None else HeaderRightSpace(s, p, o, g0, h, k - 1)
  }

  /** The closing `={3,}` holding the `b` characters after `c`, then `$`. */
  function HeaderClose(s: string, p: nat, o: nat, g0: nat, h: nat, c: nat, b: nat): (r: Option<Hit>)
    requires p + 3 <= o <= g0 <= h <= c <= |s| && b <= RunFrom(s, c, Is('='))
    ensures r.Some? ==> 3 <= b && AtLineEnd(s, c + b) && r.value == Hit(c + b, [Span(g0, h)])
    ensures r.Some? ==> HeaderShaped(r.value, s, p)
    decreases b
  {
    if b < 3 then None
    else if AtLineEnd(s, c + b) then Some(Hit(c + b, [Span(g0, h)]))
    else
      // Giving back an `=` leaves an `=` where `$` must hold.
      RunAll(s, c, Is('='));
      HeaderClose(s, p, o, g0, h, c, b - 1)
  }

  /** `s[p..e]` is at least three equals signs, whitespace, the title
      `s[g0..h]` (no newline), whitespace, and at least three equals signs;
      `e` satisfies `$`. */
  predicate HeaderParts(s: string, p: nat, o: nat, g0: nat, h: nat, c: nat, e: nat) {
    && p + 3 <= o && c + 3 <= e
    && AllIn(s, p, o, Is('='))
    && AllIn(s, o, g0, Space)
    && AllIn(s, g0, h, Not('\n'))
    && AllIn(s, h, c, Space)
    && AllIn(s, c, e, Is('='))
    && AtLineEnd(s, e)
  }

  ghost predicate IsHeaderMatch(s: string, p: nat, x: Hit) {
    && |x.groups| == 1
    && exists o: nat, c: nat :: HeaderParts(s, p, o, x.groups[0].lo, x.groups[0].hi, c, x.end)
  }

  /** What the header search finds is in the pattern's language, with the
      group between the two runs of whitespace. */
  lemma HeaderSound(s: string, p: nat)
    requires p <= |s| && HeaderHere(s, p).Some?
    ensures IsHeaderMatch(s, p, HeaderHere(s, p).value)
  {
    OpenSound(s, p, RunFrom(s, p, Is('=')), HeaderHere(s, p).value);
  }

  // The soundness lemmas below state the parts matched so far as bounds on
  // the runs they lie in: `o <= p + RunFrom(s, p, Is('='))` says that
  // `s[p..o]` is all equals signs, and so on.

  lemma {:induction false} OpenSound(s: string, p: nat, a: nat, x: Hit)
    requires p <= |s| && a <= RunFrom(s, p, Is('=')) && HeaderOpen(s, p, a) == Some(x)
    ensures IsHeaderMatch(s, p, x)
    decreases a
  {
    var taken := OpenCases(s, p, a, x);
    if taken {
      LeftSpaceSound(s, p, p + a, RunFrom(s, p + a, Space), x);
    } else {
      OpenSound(s, p, a - 1, x);
    }
  }

  /** The opening run either leads to the hit at once or gives one `=` back. */
  lemma OpenCases(s: string, p: nat, a: nat, x: Hit) returns (taken: bool)
    requires p <= |s| && a <= RunFrom(s, p, Is('=')) && HeaderOpen(s, p, a) == Some(x)
    ensures 3 <= a
    ensures taken ==> HeaderLeftSpace(s, p, p + a, RunFrom(s, p + a, Space)) == Some(x)
    ensures !taken ==> 3 < a && HeaderOpen(s, p, a - 1) == Some(x)
  {
    taken := HeaderLeftSpace(s, p, p + a, RunFrom(s, p + a, Space)).Some?;
  }

  lemma {:induction false} LeftSpaceSound(s: string, p: nat, o: nat, k: nat, x: Hit)
    requires p + 3 <= o <= |s| && o <= p + RunFrom(s, p, Is('='))
    requires k <= RunFrom(s, o, Space) && HeaderLeftSpace(s, p, o, k) == Some(x)
    ensures IsHeaderMatch(s, p, x)
    decreases k
  {
    var taken := LeftSpaceCases(s, p, o, k, x);
    if taken {
      TitleSound(s, p, o, o + k, o + k, x);
    } else {
      LeftSpaceSound(s, p, o, k - 1, x);
    }
  }

  /** The first `\s*` either leads to the hit at once or gives one character back. */
  lemma LeftSpaceCases(s: string, p: nat, o: nat, k: nat, x: Hit) returns (taken: bool)
    requires p + 3 <= o <= |s| && k <= RunFrom(s, o, Space) && HeaderLeftSpace(s, p, o, k) == Some(x)
    ensures taken ==> HeaderTitle(s, p, o, o + k, o + k) == Some(x)
    ensures !taken ==> 0 < k && HeaderLeftSpace(s, p, o, k - 1) == Some(x)
  {
    taken := HeaderTitle(s, p, o, o + k, o + k).Some?;
  }

  lemma {:induction false} TitleSound(s: string, p: nat, o: nat, g0: nat, h: nat, x: Hit)
    requires p + 3 <= o <= g0 <= h <= |s| && o <= p + RunFrom(s, p, Is('='))
    requires g0 <= o + RunFrom(s, o, Space) && h <= g0 + RunFrom(s, g0, Not('\n'))
    requires HeaderTitle(s, p, o, g0, h) == Some(x)
    ensures IsHeaderMatch(s, p, x)
    decreases |s| - h
  {
    var taken := TitleCases(s, p, o, g0, h, x);
    if taken {
      RightSpaceSound(s, p, o, g0, h, RunFrom(s, h, Space), x);
    } else {
      TitleSound(s, p, o, g0, h + 1, x);
    }
  }

  /** The lazy title either lets the rest match or grows over one character
      that is not a newline. */
  lemma TitleCases(s: string, p: nat, o: nat, g0: nat, h: nat, x: Hit) returns (taken: bool)
    requires p + 3 <= o <= g0 <= h <= |s| && h <= g0 + RunFrom(s, g0, Not('\n'))
    requires HeaderTitle(s, p, o, g0, h) == Some(x)
    ensures taken ==> HeaderRightSpace(s, p, o, g0, h, RunFrom(s, h, Space)) == Some(x)
    ensures !taken ==> h < |s| && h + 1 <= g0 + RunFrom(s, g0, Not('\n'))
    ensures !taken ==> HeaderTitle(s, p, o, g0, h + 1) == Some(x)
  {
    taken := HeaderRightSpace(s, p, o, g0, h, RunFrom(s, h, Space)).Some?;
  }

  lemma {:induction false} RightSpaceSound(s: string, p: nat, o: nat, g0: nat, h: nat, k: nat, x: Hit)
    requires p + 3 <= o <= g0 <= h <= |s| && o <= p + RunFrom(s, p, Is('='))
    requires g0 <= o + RunFrom(s, o, Space) && h <= g0 + RunFrom(s, g0, Not('\n'))
    requires k <= RunFrom(s, h, Space) && HeaderRightSpace(s, p, o, g0, h, k) == Some(x)
    ensures IsHeaderMatch(s, p, x)
    decreases k
  {
    var taken := RightSpaceCases(s, p, o, g0, h, k, x);
    if taken {
      CloseSound(s, p, o, g0, h, h + k, RunFrom(s, h + k, Is('=')), x);
    } else {
      RightSpaceSound(s, p, o, g0, h, k - 1, x);
    }
  }

  /** The second `\s*` either leads to the hit at once or gives one character back. */
  lemma RightSpaceCases(s: string, p: nat, o: nat, g0: nat, h: nat, k: nat, x: Hit) returns (taken: bool)
    requires p + 3 <= o <= g0 <= h <= |s| && k <= RunFrom(s, h, Space)
    requires HeaderRightSpace(s, p, o, g0, h, k) == Some(x)
    ensures taken ==> HeaderClose(s, p, o, g0, h, h + k, RunFrom(s, h + k, Is('='))) == Some(x)
    ensures !taken ==> 0 < k && HeaderRightSpace(s, p, o, g0, h, k - 1) == Some(x)
  {
    taken := HeaderClose(s, p, o, g0, h, h + k, RunFrom(s, h + k, Is('='))).Some?;
  }

  lemma CloseSound(s: string, p: nat, o: nat, g0: nat, h: nat, c: nat, b: nat, x: Hit)
    requires p + 3 <= o <= g0 <= h <= c <= |s| && o <= p + RunFrom(s, p, Is('='))
    requires g0 <= o + RunFrom(s, o, Space) && h <= g0 + RunFrom(s, g0, Not('\n'))
    requires c <= h + RunFrom(s, h, Space)
    requires b <= RunFrom(s, c, Is('=')) && HeaderClose(s, p, o, g0, h, c, b) == Some(x)
    ensures IsHeaderMatch(s, p, x)
  {
    RunAllTo(s, p, Is('='), o);
    RunAllTo(s, o, Space, g0);
    RunAllTo(s, g0, Not('\n'), h);
    RunAllTo(s, h, Space, c);
    RunAllTo(s, c, Is('='), c + b);
    assert HeaderParts(s, p, o, g0, h, c, x.end);
  }

  // The completeness lemmas below follow the backtracking from the outside
  // in: each repeat tries its longest run first and gives back one
  // character at a time, so it reaches the length the described split uses,
  // unless an earlier try already succeeded.

  /** Wherever the text from `p` is in the header pattern's language, the
      search finds a header there. */
  lemma HeaderComplete(s: string, p: nat, o: nat, g0: nat, h: nat, c: nat, e: nat)
    requires p <= |s| && HeaderParts(s, p, o, g0, h, c, e)
    ensures HeaderHere(s, p).Some?
  {
    RunCovers(s, p, Is('='), o - p);
    OpenComplete(s, p, o, g0, h, c, e, RunFrom(s, p, Is('=')));
  }

  /** The same, for a hit described by `IsHeaderMatch`. */
  lemma HeaderMatchFound(s: string, p: nat, x: Hit)
    requires p <= |s| && IsHeaderMatch(s, p, x)
    ensures HeaderHere(s, p).Some?
  {
    var o: nat, c: nat :| HeaderParts(s, p, o, x.groups[0].lo, x.groups[0].hi, c, x.end);
    HeaderComplete(s, p, o, x.groups[0].lo, x.groups[0].hi, c, x.end);
  }

  lemma OpenComplete(s: string, p: nat, o: nat, g0: nat, h: nat, c: nat, e: nat, a: nat)
    requires p <= |s| && HeaderParts(s, p, o, g0, h, c, e)
    requires o - p <= a <= RunFrom(s, p, Is('='))
    ensures HeaderOpen(s, p, a).Some?
  {
    RunCovers(s, o, Space, g0 - o);
    LeftSpaceComplete(s, p, o, g0, h, c, e, RunFrom(s, o, Space));
    OpenFrom(s, p, o, a);
  }

  /** Backtracking over the opening run reaches `o`, where the rest
      matches, unless a longer opening matches first. */
  lemma {:induction false} OpenFrom(s: string, p: nat, o: nat, a: nat)
    requires p + 3 <= o <= |s| && o - p <= a <= RunFrom(s, p, Is('='))
    requires HeaderLeftSpace(s, p, o, RunFrom(s, o, Space)).Some?
    ensures HeaderOpen(s, p, a).Some?
    decreases a
  {
    if p + a != o && HeaderLeftSpace(s, p, p + a, RunFrom(s, p + a, Space)).None? {
      OpenFrom(s, p, o, a - 1);
    }
  }

  lemma LeftSpaceComplete(s: string, p: nat, o: nat, g0: nat, h: nat, c: nat, e: nat, k: nat)
    requires HeaderParts(s, p, o, g0, h, c, e)
    requires g0 - o <= k <= RunFrom(s, o, Space)
    ensures HeaderLeftSpace(s, p, o, k).Some?
  {
    TitleComplete(s, p, o, g0, h, c, e, g0);
    LeftSpaceFrom(s, p, o, g0, k);
  }

  /** Backtracking over the first `\s*` reaches `g0`, where the rest
      matches, unless a longer run matches first. */
  lemma {:induction false} LeftSpaceFrom(s: string, p: nat, o: nat, g0: nat, k: nat)
    requires p + 3 <= o <= g0 <= |s| && g0 - o <= k <= RunFrom(s, o, Space)
    requires HeaderTitle(s, p, o, g0, g0).Some?
    ensures HeaderLeftSpace(s, p, o, k).Some?
    decreases k
  {
    if o + k != g0 && HeaderTitle(s, p, o, o + k, o + k).None? {
      LeftSpaceFrom(s, p, o, g0, k - 1);
    }
  }

  lemma TitleComplete(s: string, p: nat, o: nat, g0: nat, h: nat, c: nat, e: nat, t: nat)
    requires HeaderParts(s, p, o, g0, h, c, e)
    requires g0 <= t <= h
    ensures HeaderTitle(s, p, o, g0, t).Some?
  {
    RunCovers(s, h, Space, c - h);
    RightSpaceComplete(s, p, o, g0, h, c, e, RunFrom(s, h, Space));
    TitleFrom(s, p, o, g0, h, t);
  }

  /** The lazy title grows one character at a time until it reaches `h`,
      where the rest matches, unless the rest matches earlier. */
  lemma {:induction false} TitleFrom(s: string, p: nat, o: nat, g0: nat, h: nat, t: nat)
    requires p + 3 <= o <= g0 <= t <= h <= |s| && AllIn(s, t, h, Not('\n'))
    requires HeaderRightSpace(s, p, o, g0, h, RunFrom(s, h, Space)).Some?
    ensures HeaderTitle(s, p, o, g0, t).Some?
    decreases h - t
  {
    if t != h && HeaderRightSpace(s, p, o, g0, t, RunFrom(s, t, Space)).None? {
      assert s[t] != '\n';
      TitleFrom(s, p, o, g0, h, t + 1);
    }
  }

  lemma RightSpaceComplete(s: string, p: nat, o: nat, g0: nat, h: nat, c: nat, e: nat, k: nat)
    requires HeaderParts(s, p, o, g0, h, c, e)
    requires c - h <= k <= RunFrom(s, h, Space)
    ensures HeaderRightSpace(s, p, o, g0, h, k).Some?
  {
    RunCovers(s, c, Is('='), e - c);
    CloseComplete(s, p, o, g0, h, c, e, RunFrom(s, c, Is('=')));
    RightSpaceFrom(s, p, o, g0, h, c, k);
  }

  /** Backtracking over the second `\s*` reaches `c`, where the closing run
      matches, unless a longer run matches first. */
  lemma {:induction false} RightSpaceFrom(s: string, p: nat, o: nat, g0: nat, h: nat, c: nat, k: nat)
    requires p + 3 <= o <= g0 <= h <= c <= |s| && c - h <= k <= RunFrom(s, h, Space)
    requires HeaderClose(s, p, o, g0, h, c, RunFrom(s, c, Is('='))).Some?
    ensures HeaderRightSpace(s, p, o, g0, h, k).Some?
    decreases k
  {
    if h + k != c && HeaderClose(s, p, o, g0, h, h + k, RunFrom(s, h + k, Is('='))).None? {
      RightSpaceFrom(s, p, o, g0, h, c, k - 1);
    }
  }

  lemma {:induction false} CloseComplete(s: string, p: nat, o: nat, g0: nat, h: nat, c: nat, e: nat, b: nat)
    requires HeaderParts(s, p, o, g0, h, c, e)
    requires e - c <= b <= RunFrom(s, c, Is('='))
    ensures HeaderClose(s, p, o, g0, h, c, b).Some?
    decreases b
  {
    if !AtLineEnd(s, c + b) {
      CloseComplete(s, p, o, g0, h, c, e, b - 1);
    }
  }

  // ---------------------------------------------------------------------
  // ' +'

  /** Nothing follows ` +`, so its longest run is accepted at once. */
  function SpacesHere(s: string, p: nat): (r: Option<Hit>)
    requires p <= |s|
    ensures r.Some? <==> p < |s| && s[p] == ' '
    ensures r.Some? ==> r.value.groups == [] && AllIn(s, p, r.value.end, Is(' '))
    ensures r.Some? ==> r.value.end < |s| ==> s[r.value.end] != ' '
  {
    var n := RunFrom(s, p, Is(' '));
    RunAll(s, p, Is(' '));
    if n > 0 then Some(Hit(p + n, [])) else None
  }

  // ---------------------------------------------------------------------
  // (class\s+[\w]+)

  function ClassHere(s: string, p: nat): (r: Option<Hit>)
    requires p <= |s|
    ensures r.Some? ==> r.value.groups == [Span(p, r.value.end)] && p + 5 < r.value.end <= |s|
  {
    if HasAt(s, p, "class") then ClassSpace(s, p, RunFrom(s, p + 5, Space)) else None
  }

  /** `\s+` holding the `k` characters after the keyword; nothing follows
      `[\w]+`, so its longest run is accepted at once. */
  function ClassSpace(s: string, p: nat, k: nat): (r: Option<Hit>)
    requires p + 5 + k <= |s|
    ensures r.Some? ==> r.value.groups == [Span(p, r.value.end)] && p + 5 < r.value.end <= |s|
    decreases k
  {
    if k == 0 then None
    else
      var w := RunFrom(s, p + 5 + k, Word);
      if w > 0 then Some(Hit(p + 5 + k + w, [Span(p, p + 5 + k + w)]))
      else ClassSpace(s, p, k - 1)
  }

  /** `s[p..e]` is `class`, whitespace, a word; the word is not followed by a
      word character (the greedy `[\w]+` took all of them). */
  predicate ClassParts(s: string, p: nat, k: nat, e: nat) {
    && HasAt(s, p, "class")
    && 0 < k && p + 5 + k < e
    && AllIn(s, p + 5, p + 5 + k, Space)
    && AllIn(s, p + 5 + k, e, Word)
    && (e < |s| ==> !IsWord(s[e]))
  }

  ghost predicate IsClassMatch(s: string, p: nat, e: nat) {
    exists k: nat :: ClassParts(s, p, k, e)
  }

  lemma ClassSound(s: string, p: nat)
    requires p <= |s| && ClassHere(s, p).Some?
    ensures IsClassMatch(s, p, ClassHere(s, p).value.end)
  {
    ClassTakesLongest(s, p);
    var k := RunFrom(s, p + 5, Space);
    RunAll(s, p + 5, Space);
    RunAll(s, p + 5 + k, Word);
    assert ClassParts(s, p, k, ClassHere(s, p).value.end);
  }

  /** Backtracking into `\s+` leaves a whitespace character where `[\w]+`
      must start, so only the longest run of whitespace can succeed. */
  lemma ClassTakesLongest(s: string, p: nat)
    requires p <= |s| && ClassHere(s, p).Some?
    ensures HasAt(s, p, "class") && 0 < RunFrom(s, p + 5, Space)
    ensures 0 < RunFrom(s, p + 5 + RunFrom(s, p + 5, Space), Word)
    ensures ClassHere(s, p).value.end
              == p + 5 + RunFrom(s, p + 5, Space) + RunFrom(s, p + 5 + RunFrom(s, p + 5, Space), Word)
  {
    var k := RunFrom(s, p + 5, Space);
    if RunFrom(s, p + 5 + k, Word) == 0 {
      RunAll(s, p + 5, Space);
      ClassSpaceGivesBackInVain(s, p, k, k - 1);
      assert false;
    }
  }

  lemma ClassSpaceGivesBackInVain(s: string, p: nat, k: nat, j: nat)
    requires j < k && AllIn(s, p + 5, p + 5 + k, Space)
    ensures ClassSpace(s, p, j).None?
    decreases j
  {
    if j > 0 {
      assert IsSpace(s[p + 5 + j]);
      assert RunFrom(s, p + 5 + j, Word) == 0;
      ClassSpaceGivesBackInVain(s, p, k, j - 1);
    }
  }

  lemma ClassComplete(s: string, p: nat, k: nat, e: nat)
    requires ClassParts(s, p, k, e)
    ensures ClassHere(s, p) == Some(Hit(e, [Span(p, e)]))
  {
    RunUnique(s, p + 5, Space, k);
    RunUnique(s, p + 5 + k, Word, e - (p + 5 + k));
    ClassFoundAt(s, p, k, e - (p + 5 + k));
  }

  lemma ClassFoundAt(s: string, p: nat, k: nat, w: nat)
    requires p + 5 <= |s| && HasAt(s, p, "class")
    requires 0 < k == RunFrom(s, p + 5, Space) && 0 < w == RunFrom(s, p + 5 + k, Word)
    ensures ClassHere(s, p) == Some(Hit(p + 5 + k + w, [Span(p, p + 5 + k + w)]))
  {
  }

  // ---------------------------------------------------------------------
  // (start\.[a-z]+|install\([^\)]*\))

  function MethodHere(s: string, p: nat): (r: Option<Hit>)
    requires p <= |s|
    ensures r.Some? ==> r.value.groups == [Span(p, r.value.end)] && p < r.value.end <= |s|
  {
    match StartCommand(s, p)
    case Some(h) => Some(h)
    case None => InstallCall(s, p)
  }

  /** The left branch; nothing follows `[a-z]+`, so its longest run is accepted. */
  function StartCommand(s: string, p: nat): (r: Option<Hit>)
    requires p <= |s|
    ensures r.Some? ==> r.value.groups == [Span(p, r.value.end)] && p < r.value.end <= |s|
  {
    if HasAt(s, p, "start.") && RunFrom(s, p + 6, Lower) > 0 then
      var e := p + 6 + RunFrom(s, p + 6, Lower);
      Some(Hit(e, [Span(p, e)]))
    else None
  }

  /** The right branch. */
  function InstallCall(s: string, p: nat): (r: Option<Hit>)
    requires p <= |s|
    ensures r.Some? ==> r.value.groups == [Span(p, r.value.end)] && p < r.value.end <= |s|
  {
    if HasAt(s, p, "install(") then InstallArgs(s, p, RunFrom(s, p + 8, Not(')'))) else None
  }

  /** `[^\)]*` holding the `n` characters after `install(`, then `\)`. */
  function InstallArgs(s: string, p: nat, n: nat): (r: Option<Hit>)
    requires p + 8 + n <= |s|
    ensures r.Some? ==> r.value.groups == [Span(p, r.value.end)] && p + 8 < r.value.end <= p + 9 + n
    ensures r.Some? ==> r.value.end <= |s| && s[r.value.end - 1] == ')'
    decreases n
  {
    if p + 8 + n < |s| && s[p + 8 + n] == ')' then Some(Hit(p + 9 + n, [Span(p, p + 9 + n)]))
    else if n == 0 then None
    else InstallArgs(s, p, n - 1)
  }

  /** `s[p..e]` is `start.` and a maximal run of lower-case letters, or
      `install(`, characters other than `)`, and `)`. */
  predicate IsMethodMatch(s: string, p: nat, e: nat) {
    || (&& HasAt(s, p, "start.")
        && p + 6 < e
        && AllIn(s, p + 6, e, Lower)
        && (e < |s| ==> !IsLower(s[e])))
    || (&& HasAt(s, p, "install(")
        && p + 9 <= e <= |s|
        && AllIn(s, p + 8, e - 1, Not(')'))
        && s[e - 1] == ')')
  }

  /** What the alternation finds is in the language of the pattern. */
  lemma MethodSound(s: string, p: nat)
    requires p <= |s| && MethodHere(s, p).Some?
    ensures IsMethodMatch(s, p, MethodHere(s, p).value.end)
  {
    if p + 8 <= |s| {
      RunAll(s, p + 8, Not(')'));
    }
    if p + 6 <= |s| {
      RunAll(s, p + 6, Lower);
    }
  }

  lemma {:induction false} MethodComplete(s: string, p: nat, e: nat)
    requires IsMethodMatch(s, p, e)
    ensures MethodHere(s, p) == Some(Hit(e, [Span(p, e)]))
  {
    assert "start."[0] == 's' && "install("[0] == 'i';
    if HasAt(s, p, "start.") {
      RunUnique(s, p + 6, Lower, e - (p + 6));
    } else {
      RunUnique(s, p + 8, Not(')'), e - (p + 9));
    }
  }

  // ---------------------------------------------------------------------
  // (\w+)\s*=>\s*(\w+)
  //
  // The search records where the source word ends (`a`) and where the
  // whitespace after the arrow starts (`q`).

  /** The shape every relationship hit has: the source group is `[p, a)`,
      the target group ends the match and starts after the arrow. */
  predicate RelShaped(x: Hit, s: string, p: nat, a: nat) {
    && |x.groups| == 2
    && x.groups[0] == Span(p, a)
    && p < a && a + 2 <= x.groups[1].lo < x.groups[1].hi == x.end <= |s|
  }

  function RelationHere(s: string, p: nat): (r: Option<Hit>)
    requires p <= |s|
    ensures r.Some? ==> |r.value.groups| == 2 && RelShaped(r.value, s, p, r.value.groups[0].hi)
    ensures r.Some? ==> IsRelationMatch(s, p, r.value)
  {
    RelSource(s, p, p + RunFrom(s, p, Word))
  }

  /** The first `(\w+)` ending at `a`. */
  function RelSource(s: string, p: nat, a: nat): (r: Option<Hit>)
    requires p <= |s| && p <= a <= p + RunFrom(s, p, Word)
    ensures r.Some? ==> |r.value.groups| == 2 && RelShaped(r.value, s, p, r.value.groups[0].hi)
    ensures r.Some? ==> IsRelationMatch(s, p, r.value)
    decreases a
  {
    if a == p then None
    else
      match RelArrow(s, p, a, RunFrom(s, a, Space))
      case Some(h) => Some(h)
      case None => RelSource(s, p, a - 1)
  }

  /** `\s*` holding the `k` characters after the source, then `=>`. */
  function RelArrow(s: string, p: nat, a: nat, k: nat): (r: Option<Hit>)
    requires p <= |s| && p < a <= p + RunFrom(s, p, Word)
    requires k <= RunFrom(s, a, Space)
    ensures r.Some? ==> RelShaped(r.value, s, p, a)
    ensures r.Some? ==> IsRelationMatch(s, p, r.value)
    decreases k
  {
    var here :=
      if HasAt(s, a + k, "=>") then RelTarget(s, p, a, a + k + 2, RunFrom(s, a + k + 2, Space))
      else None;
    match here
    case Some(h) => Some(h)
    case None => if k == 0 then None else RelArrow(s, p, a, k - 1)
  }

  /** `\s*` holding the `k` characters after the arrow that ends at `q`;
      nothing follows the second `(\w+)`, so its longest run is accepted at
      once. */
  function RelTarget(s: string, p: nat, a: nat, q: nat, k: nat): (r: Option<Hit>)
    requires p <= |s| && p < a <= p + RunFrom(s, p, Word)
    requires a + 2 <= q && q - 2 <= a + RunFrom(s, a, Space) && HasAt(s, q - 2, "=>")
    requires k <= RunFrom(s, q, Space)
    ensures r.Some? ==> RelShaped(r.value, s, p, a)
    ensures r.Some? ==> IsRelationMatch(s, p, r.value)
    decreases k
  {
    var w := RunFrom(s, q + k, Word);
    if w > 0 then
      RelTargetParts(s, p, a, q, k);
      Some(Hit(q + k + w, [Span(p, a), Span(q + k, q + k + w)]))
    else if k == 0 then None
    else RelTarget(s, p, a, q, k - 1)
  }

  lemma RelTargetParts(s: string, p: nat, a: nat, q: nat, k: nat)
    requires p <= |s| && p < a <= p + RunFrom(s, p, Word)
    requires a + 2 <= q && q - 2 <= a + RunFrom(s, a, Space) && HasAt(s, q - 2, "=>")
    requires k <= RunFrom(s, q, Space) && 0 < RunFrom(s, q + k, Word)
    ensures RelParts(s, p, a, q - 2, q + k, q + k + RunFrom(s, q + k, Word))
  {
    RunAllTo(s, p, Word, a);
    RunAllTo(s, a, Space, q - 2);
    RunAllTo(s, q, Space, q + k);
    RunAll(s, q + k, Word);
  }

  /** `s[p..e]` is the word `s[p..a]`, whitespace, `=>` at `b`, whitespace,
      and the word `s[c..e]`, which is not followed by a word character. */
  predicate RelParts(s: string, p: nat, a: nat, b: nat, c: nat, e: nat) {
    && p < a <= b && b + 2 <= c < e
    && AllIn(s, p, a, Word)
    && AllIn(s, a, b, Space)
    && HasAt(s, b, "=>")
    && AllIn(s, b + 2, c, Space)
    && AllIn(s, c, e, Word)
    && (e < |s| ==> !IsWord(s[e]))
  }

  ghost predicate IsRelationMatch(s: string, p: nat, x: Hit) {
    && |x.groups| == 2
    && x.groups[0].lo == p
    && x.groups[1].hi == x.end
    && exists b: nat :: RelParts(s, p, x.groups[0].hi, b, x.groups[1].lo, x.end)
  }

  lemma RelRunsOf(s: string, p: nat, a: nat, b: nat, c: nat, e: nat)
    requires RelParts(s, p, a, b, c, e)
    ensures p + RunFrom(s, p, Word) == a
    ensures a + RunFrom(s, a, Space) == b
    ensures b + 2 + RunFrom(s, b + 2, Space) == c
    ensures c + RunFrom(s, c, Word) == e
  {
    assert "=>"[0] == '=';
    RunUnique(s, p, Word, a - p);
    RunUnique(s, a, Space, b - a);
    RunUnique(s, b + 2, Space, c - (b + 2));
    RunUnique(s, c, Word, e - c);
  }

  lemma RelTargetHits(s: string, p: nat, a: nat, b: nat, c: nat, e: nat)
    requires RelParts(s, p, a, b, c, e)
    ensures c - (b + 2) <= RunFrom(s, b + 2, Space)
    ensures RelTarget(s, p, a, b + 2, c - (b + 2)) == Some(Hit(e, [Span(p, a), Span(c, e)]))
  {
    RelRunsOf(s, p, a, b, c, e);
  }

  lemma RelArrowHits(s: string, p: nat, a: nat, b: nat, c: nat, e: nat)
    requires RelParts(s, p, a, b, c, e)
    ensures b - a <= RunFrom(s, a, Space)
    ensures RelArrow(s, p, a, b - a) == Some(Hit(e, [Span(p, a), Span(c, e)]))
  {
    RelRunsOf(s, p, a, b, c, e);
    RelTargetHits(s, p, a, b, c, e);
  }

  lemma RelSourceHits(s: string, p: nat, a: nat, b: nat, c: nat, e: nat)
    requires RelParts(s, p, a, b, c, e)
    ensures p + RunFrom(s, p, Word) == a
    ensures RelSource(s, p, a) == Some(Hit(e, [Span(p, a), Span(c, e)]))
  {
    RelRunsOf(s, p, a, b, c, e);
    RelArrowHits(s, p, a, b, c, e);
    assert RunFrom(s, a, Space) == b - a;
  }

  /** Every text the pattern's language allows at `p` is found there, with
      the source and target words as its groups. */
  lemma RelationComplete(s: string, p: nat, a: nat, b: nat, c: nat, e: nat)
    requires RelParts(s, p, a, b, c, e)
    ensures RelationHere(s, p) == Some(Hit(e, [Span(p, a), Span(c, e)]))
  {
    RelSourceHits(s, p, a, b, c, e);
    RelationFromSource(s, p, a, Some(Hit(e, [Span(p, a), Span(c, e)])));
  }

  lemma RelationFromSource(s: string, p: nat, a: nat, x: Option<Hit>)
    requires p <= |s| && p + RunFrom(s, p, Word) == a
    requires RelSource(s, p, a) == x
    ensures RelationHere(s, p) == x
  {
  }
}
