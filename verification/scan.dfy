/** Python's `re.findall` and `re.sub`: try the pattern at each position from
    the left, take the first attempt that succeeds, resume at the end of that
    match. The scan is stated for any attempt function `at` whose hits are
    well formed, and applied to the patterns of `Patterns` by `Attempt`. No
    pattern here matches the empty string, so every scan step moves forward. */
module Scan {
  import opened Chars
  import opened Patterns

  /** What an attempt at each position of `s` returns. */
  type Attempts = nat -> Option<Hit>

  /** The attempts of `pat` on `s`. */
  function Attempt(pat: Pattern, s: string): Attempts {
    (q: nat) => if q <= |s| then MatchAt(pat, s, q) else None
  }

  /** Every hit of `at` is well formed, with `groups` groups. */
  predicate Steps(at: Attempts, s: string, groups: nat) {
    forall q: nat :: q <= |s| && at(q).Some? ==> WellFormed(at(q).value, s, q, groups)
  }

  lemma AttemptSteps(pat: Pattern, s: string)
    ensures Steps(Attempt(pat, s), s, pat.GroupCount())
  {
  }

  /** A match found by a scan: where it starts, and what the attempt there
      returned. */
  datatype Found = Found(start: nat, hit: Hit)

  /** `f` is what the attempt at `f.start` returns. */
  predicate IsFound(at: Attempts, s: string, f: Found) {
    f.start <= |s| && at(f.start) == Some(f.hit)
  }

  /** No attempt at a position in `[lo, hi)` succeeds. */
  predicate NoMatchIn(at: Attempts, s: string, lo: nat, hi: nat) {
    forall q: nat :: lo <= q < hi && q <= |s| ==> at(q).None?
  }

  /** The leftmost match starting at or after `p`. */
  function Search(at: Attempts, s: string, p: nat): (r: Option<Found>)
    requires p <= |s|
    ensures r.Some? ==> p <= r.value.start && IsFound(at, s, r.value)
    ensures r.Some? ==> NoMatchIn(at, s, p, r.value.start)
    ensures r.None? ==> NoMatchIn(at, s, p, |s| + 1)
    decreases |s| - p
  {
    match at(p)
    case Some(h) => Some(Found(p, h))
    case None => if p == |s| then None else Search(at, s, p + 1)
  }

  /** A match at `q` with none before it from `p` on is what the search finds. */
  lemma {:induction false} SearchFinds(at: Attempts, s: string, p: nat, f: Found)
    requires p <= f.start && IsFound(at, s, f) && NoMatchIn(at, s, p, f.start)
    ensures Search(at, s, p) == Some(f)
    decreases f.start - p
  {
    if p < f.start {
      SearchFinds(at, s, p + 1, f);
    }
  }

  /** With no match from `p` on, the search finds nothing. */
  lemma {:induction false} SearchMisses(at: Attempts, s: string, p: nat)
    requires p <= |s| && NoMatchIn(at, s, p, |s| + 1)
    ensures Search(at, s, p).None?
    decreases |s| - p
  {
    if p < |s| {
      SearchMisses(at, s, p + 1);
    }
  }

  /** `re.findall` from `p`: the leftmost match, then the scan resumed at
      its end. */
  function FindAll(at: Attempts, s: string, groups: nat, p: nat): (ms: seq<Found>)
    requires p <= |s| && Steps(at, s, groups)
    ensures forall i :: 0 <= i < |ms| ==> p <= ms[i].start && IsFound(at, s, ms[i])
    ensures forall i :: 0 < i < |ms| ==> ms[i - 1].hit.end <= ms[i].start
    decreases |s| - p
  {
    match Search(at, s, p)
    case None => []
    case Some(f) => [f] + FindAll(at, s, groups, f.hit.end)
  }

  /** A declarative description of a left-to-right scan from `p`: each entry
      is a match, no attempt succeeds between where the scan is and that
      match, the scan resumes at the match's end, and after the last match
      no attempt succeeds. */
  predicate Leftmost(at: Attempts, s: string, p: nat, ms: seq<Found>)
    decreases |ms|
  {
    if ms == [] then NoMatchIn(at, s, p, |s| + 1)
    else
      && p <= ms[0].start && IsFound(at, s, ms[0]) && NoMatchIn(at, s, p, ms[0].start)
      && Leftmost(at, s, ms[0].hit.end, ms[1..])
  }

  /** The matches of a scan do not overlap, so their starts strictly
      increase. */
  lemma FindAllIncreasing(at: Attempts, s: string, groups: nat, p: nat, i: nat, j: nat)
    requires p <= |s| && Steps(at, s, groups) && i < j < |FindAll(at, s, groups, p)|
    ensures FindAll(at, s, groups, p)[i].hit.end <= FindAll(at, s, groups, p)[j].start
    ensures FindAll(at, s, groups, p)[i].start < FindAll(at, s, groups, p)[j].start
    decreases j - i
  {
    var ms := FindAll(at, s, groups, p);
    assert WellFormed(ms[i].hit, s, ms[i].start, groups);
    assert WellFormed(ms[j - 1].hit, s, ms[j - 1].start, groups);
    if i < j - 1 {
      FindAllIncreasing(at, s, groups, p, i, j - 1);
    }
  }

  /** `FindAll` is a leftmost scan ... */
  lemma {:induction false} FindAllIsLeftmost(at: Attempts, s: string, groups: nat, p: nat)
    requires p <= |s| && Steps(at, s, groups)
    ensures Leftmost(at, s, p, FindAll(at, s, groups, p))
    decreases |s| - p
  {
    match Search(at, s, p)
    case None =>
    case Some(f) =>
      assert WellFormed(f.hit, s, f.start, groups);
      FindAllIsLeftmost(at, s, groups, f.hit.end);
      assert FindAll(at, s, groups, p) == [f] + FindAll(at, s, groups, f.hit.end);
  }

  /** ... and the only one: any leftmost scan from `p` is `FindAll`'s. */
  lemma {:induction false} LeftmostIsFindAll(at: Attempts, s: string, groups: nat, p: nat, ms: seq<Found>)
    requires p <= |s| && Steps(at, s, groups) && Leftmost(at, s, p, ms)
    ensures ms == FindAll(at, s, groups, p)
    decreases |s| - p
  {
    if ms == [] {
      SearchMisses(at, s, p);
    } else {
      var f := ms[0];
      SearchFinds(at, s, p, f);
      assert WellFormed(f.hit, s, f.start, groups);
      LeftmostIsFindAll(at, s, groups, f.hit.end, ms[1..]);
    }
  }

  // ---------------------------------------------------------------------
  // re.sub

  /** A piece of a replacement template: literal text, or `\n`, the text of
      group `n` (counted from 1). */
  datatype Piece = Text(t: string) | Ref(n: nat)

  /** Every group reference of `tmpl` names one of `groups` groups. */
  predicate RefsWithin(tmpl: seq<Piece>, groups: nat) {
    forall i :: 0 <= i < |tmpl| && tmpl[i].Ref? ==> 1 <= tmpl[i].n <= groups
  }

  /** The replacement text for a match: the template with each group
      reference replaced by the text the group captured. */
  function Expand(tmpl: seq<Piece>, s: string, h: Hit): string
    requires RefsWithin(tmpl, |h.groups|)
    requires forall g :: g in h.groups ==> g.lo <= g.hi <= |s|
  {
    if tmpl == [] then ""
    else
      var first := match tmpl[0]
        case Text(t) => t
        case Ref(n) => var g := h.groups[n - 1]; s[g.lo..g.hi];
      first + Expand(tmpl[1..], s, h)
  }

  /** `re.sub` from `p`: the text up to the leftmost match, its replacement,
      then the rest substituted in the same way. */
  function SubFrom(at: Attempts, s: string, groups: nat, tmpl: seq<Piece>, p: nat): string
    requires p <= |s| && Steps(at, s, groups) && RefsWithin(tmpl, groups)
    decreases |s| - p
  {
    match Search(at, s, p)
    case None => s[p..]
    case Some(f) => s[p..f.start] + Expand(tmpl, s, f.hit) + SubFrom(at, s, groups, tmpl, f.hit.end)
  }

  /** The text `re.sub` builds from the matches `ms` of a scan from `p`: the
      text between matches kept, each match replaced. */
  function Splice(at: Attempts, s: string, groups: nat, tmpl: seq<Piece>, p: nat, ms: seq<Found>): string
    requires p <= |s| && Steps(at, s, groups) && RefsWithin(tmpl, groups)
    requires Leftmost(at, s, p, ms)
    decreases |ms|
  {
    if ms == [] then s[p..]
    else
      assert WellFormed(ms[0].hit, s, ms[0].start, groups);
      s[p..ms[0].start] + Expand(tmpl, s, ms[0].hit) + Splice(at, s, groups, tmpl, ms[0].hit.end, ms[1..])
  }

  /** `re.sub` replaces exactly the matches `re.findall` reports, and keeps
      the text between them. */
  lemma {:induction false} SubIsSplice(at: Attempts, s: string, groups: nat, tmpl: seq<Piece>, p: nat)
    requires p <= |s| && Steps(at, s, groups) && RefsWithin(tmpl, groups)
    ensures Leftmost(at, s, p, FindAll(at, s, groups, p))
    ensures SubFrom(at, s, groups, tmpl, p) == Splice(at, s, groups, tmpl, p, FindAll(at, s, groups, p))
    decreases |s| - p
  {
    FindAllIsLeftmost(at, s, groups, p);
    match Search(at, s, p)
    case None =>
    case Some(f) =>
      assert WellFormed(f.hit, s, f.start, groups);
      SubIsSplice(at, s, groups, tmpl, f.hit.end);
  }

  /** Where the pattern matches nowhere, `re.sub` returns the text unchanged. */
  lemma SubNoMatch(at: Attempts, s: string, groups: nat, tmpl: seq<Piece>, p: nat)
    requires p <= |s| && Steps(at, s, groups) && RefsWithin(tmpl, groups)
    requires NoMatchIn(at, s, p, |s| + 1)
    ensures SubFrom(at, s, groups, tmpl, p) == s[p..]
  {
    SearchMisses(at, s, p);
  }

  /** A text that is one match from start to end is replaced as a whole. */
  lemma SubWhole(at: Attempts, s: string, groups: nat, tmpl: seq<Piece>, h: Hit)
    requires Steps(at, s, groups) && RefsWithin(tmpl, groups)
    requires at(0) == Some(h) && h.end == |s| && NoMatchIn(at, s, |s|, |s| + 1)
    ensures SubFrom(at, s, groups, tmpl, 0) == Expand(tmpl, s, h)
  {
    SearchFinds(at, s, 0, Found(0, h));
    SubNoMatch(at, s, groups, tmpl, |s|);
    assert s[0..0] == [] && s[|s|..] == [];
  }

  /** No match of `ms` reaches across position `lo`: each ends at or before
      it or starts at or after it. */
  predicate NoneAcross(ms: seq<Found>, lo: nat) {
    forall i :: 0 <= i < |ms| ==> ms[i].hit.end <= lo || lo <= ms[i].start
  }

  /** What `re.sub` from `p` makes of the text before `lo`: the matches that
      end by `lo` replaced, the text between them kept. */
  function SubTo(at: Attempts, s: string, groups: nat, tmpl: seq<Piece>, p: nat, lo: nat): (r: string)
    requires p <= lo <= |s| && Steps(at, s, groups) && RefsWithin(tmpl, groups)
    ensures p == lo ==> r == []
    decreases |s| - p
  {
    match Search(at, s, p)
    case None => s[p..lo]
    case Some(f) =>
      assert WellFormed(f.hit, s, f.start, groups);
      if lo < f.hit.end then s[p..lo]
      else s[p..f.start] + Expand(tmpl, s, f.hit) + SubTo(at, s, groups, tmpl, f.hit.end, lo)
  }

  /** `re.sub` can be cut at any position no match reaches across: the text
      before it comes out as `SubTo` says, and the rest as if the scan had
      started there. */
  lemma {:induction false} SubSplits(at: Attempts, s: string, groups: nat, tmpl: seq<Piece>, p: nat, lo: nat)
    requires p <= lo <= |s| && Steps(at, s, groups) && RefsWithin(tmpl, groups)
    requires NoneAcross(FindAll(at, s, groups, p), lo)
    ensures SubFrom(at, s, groups, tmpl, p) == SubTo(at, s, groups, tmpl, p, lo) + SubFrom(at, s, groups, tmpl, lo)
    decreases |s| - p
  {
    var ms := FindAll(at, s, groups, p);
    match Search(at, s, p)
    case None =>
      SearchMisses(at, s, lo);
      assert s[p..] == s[p..lo] + s[lo..];
    case Some(f) =>
      assert WellFormed(f.hit, s, f.start, groups);
      assert ms == [f] + FindAll(at, s, groups, f.hit.end);
      if lo < f.hit.end {
        assert ms[0] == f;
        SearchFinds(at, s, lo, f);
        assert s[p..f.start] == s[p..lo] + s[lo..f.start];
      } else {
        var rest := FindAll(at, s, groups, f.hit.end);
        assert forall i :: 0 <= i < |rest| ==> rest[i] == ms[i + 1];
        SubSplits(at, s, groups, tmpl, f.hit.end, lo);
      }
  }

  /** Where no attempt succeeds, `re.sub` copies the text from wherever the
      scan stands. */
  lemma SubFromSkips(at: Attempts, s: string, groups: nat, tmpl: seq<Piece>, p: nat, hi: nat)
    requires p <= hi <= |s| && Steps(at, s, groups) && RefsWithin(tmpl, groups)
    requires NoMatchIn(at, s, p, hi)
    ensures SubFrom(at, s, groups, tmpl, p) == s[p..hi] + SubFrom(at, s, groups, tmpl, hi)
  {
    match Search(at, s, hi)
    case None =>
      SearchMisses(at, s, p);
      assert s[p..] == s[p..hi] + s[hi..];
    case Some(f) =>
      SearchFinds(at, s, p, f);
      assert s[p..f.start] == s[p..hi] + s[hi..f.start];
  }

  /** A successful attempt at `p` is the match `re.sub` replaces there. */
  lemma SubFromHit(at: Attempts, s: string, groups: nat, tmpl: seq<Piece>, p: nat, h: Hit)
    requires p <= |s| && Steps(at, s, groups) && RefsWithin(tmpl, groups) && at(p) == Some(h)
    ensures h.end <= |s| && SubFrom(at, s, groups, tmpl, p) == Expand(tmpl, s, h) + SubFrom(at, s, groups, tmpl, h.end)
  {
    SearchFinds(at, s, p, Found(p, h));
    assert s[p..p] == [];
  }

  /** Text no match touches comes through `re.sub` as it was: when no match
      reaches across `lo` and no attempt succeeds in `[lo, hi)`, the output is
      what the text before `lo` becomes, then `s[lo..hi]`, then what the
      text from `hi` on becomes. */
  lemma SubKeepsWindow(at: Attempts, s: string, groups: nat, tmpl: seq<Piece>, lo: nat, hi: nat)
    requires lo <= hi <= |s| && Steps(at, s, groups) && RefsWithin(tmpl, groups)
    requires NoneAcross(FindAll(at, s, groups, 0), lo) && NoMatchIn(at, s, lo, hi)
    ensures SubFrom(at, s, groups, tmpl, 0)
         == SubTo(at, s, groups, tmpl, 0, lo) + s[lo..hi] + SubFrom(at, s, groups, tmpl, hi)
  {
    SubSplits(at, s, groups, tmpl, 0, lo);
    SubFromSkips(at, s, groups, tmpl, lo, hi);
  }

  /** ... and when the first attempt to succeed after `lo` is at `a`, its
      match is replaced right after the text kept from `lo` to `a`. */
  lemma SubReplacesAt(at: Attempts, s: string, groups: nat, tmpl: seq<Piece>, lo: nat, a: nat, h: Hit)
    requires lo <= a <= |s| && Steps(at, s, groups) && RefsWithin(tmpl, groups)
    requires NoneAcross(FindAll(at, s, groups, 0), lo) && NoMatchIn(at, s, lo, a) && at(a) == Some(h)
    ensures h.end <= |s|
    ensures SubFrom(at, s, groups, tmpl, 0)
         == SubTo(at, s, groups, tmpl, 0, lo) + s[lo..a] + Expand(tmpl, s, h) + SubFrom(at, s, groups, tmpl, h.end)
  {
    SubKeepsWindow(at, s, groups, tmpl, lo, a);
    SubFromHit(at, s, groups, tmpl, a, h);
  }

  /** At the end of the text `re.sub` adds nothing, since no match is empty. */
  lemma SubAtEnd(at: Attempts, s: string, groups: nat, tmpl: seq<Piece>)
    requires Steps(at, s, groups) && RefsWithin(tmpl, groups)
    ensures SubFrom(at, s, groups, tmpl, |s|) == []
  {
    assert at(|s|).Some? ==> WellFormed(at(|s|).value, s, |s|, groups);
    assert Search(at, s, |s|).None?;
  }

  /** `re.findall(pat, s)` and `re.sub(pat, tmpl, s)`, as positions. */
  function Matches(pat: Pattern, s: string): (ms: seq<Found>)
  {
    AttemptSteps(pat, s);
    FindAll(Attempt(pat, s), s, pat.GroupCount(), 0)
  }

  function Sub(pat: Pattern, tmpl: seq<Piece>, s: string): string
    requires RefsWithin(tmpl, pat.GroupCount())
  {
    AttemptSteps(pat, s);
    SubFrom(Attempt(pat, s), s, pat.GroupCount(), tmpl, 0)
  }

  /** Every literal piece of `tmpl` is of class `k`. */
  predicate TextsAll(tmpl: seq<Piece>, k: Class) {
    forall i :: 0 <= i < |tmpl| && tmpl[i].Text? ==> All(tmpl[i].t, k)
  }

  /** A replacement built from text of class `k` and literals of class `k`
      is of class `k`. */
  lemma {:induction false} ExpandKeeps(tmpl: seq<Piece>, s: string, h: Hit, k: Class)
    requires RefsWithin(tmpl, |h.groups|)
    requires forall g :: g in h.groups ==> g.lo <= g.hi <= |s|
    requires All(s, k) && TextsAll(tmpl, k)
    ensures All(Expand(tmpl, s, h), k)
    decreases |tmpl|
  {
    if tmpl != [] {
      ExpandKeeps(tmpl[1..], s, h, k);
      var first := match tmpl[0]
        case Text(t) => t
        case Ref(n) => var g := h.groups[n - 1]; s[g.lo..g.hi];
      assert All(first, k) by {
        if tmpl[0].Ref? {
          var g := h.groups[tmpl[0].n - 1];
          assert g in h.groups;
          assert forall i :: 0 <= i < g.hi - g.lo ==> s[g.lo..g.hi][i] == s[g.lo + i];
        }
      }
      AllJoin(first, Expand(tmpl[1..], s, h), k);
    }
  }

  lemma AllJoin(a: string, b: string, k: Class)
    requires All(a, k) && All(b, k)
    ensures All(a + b, k)
  {
    assert forall i :: |a| <= i < |a + b| ==> (a + b)[i] == b[i - |a|];
  }

  /** `re.sub` on text of class `k`, with a template whose literals are of
      class `k`, gives text of class `k`. */
  lemma {:induction false} SubFromKeeps(at: Attempts, s: string, groups: nat, tmpl: seq<Piece>, p: nat, k: Class)
    requires p <= |s| && Steps(at, s, groups) && RefsWithin(tmpl, groups)
    requires All(s, k) && TextsAll(tmpl, k)
    ensures All(SubFrom(at, s, groups, tmpl, p), k)
    decreases |s| - p
  {
    match Search(at, s, p)
    case None =>
      assert forall i :: 0 <= i < |s| - p ==> s[p..][i] == s[p + i];
    case Some(f) =>
      assert WellFormed(f.hit, s, f.start, groups);
      assert forall i :: 0 <= i < f.start - p ==> s[p..f.start][i] == s[p + i];
      ExpandKeeps(tmpl, s, f.hit, k);
      SubFromKeeps(at, s, groups, tmpl, f.hit.end, k);
      AllJoin(s[p..f.start], Expand(tmpl, s, f.hit), k);
      AllJoin(s[p..f.start] + Expand(tmpl, s, f.hit), SubFrom(at, s, groups, tmpl, f.hit.end), k);
  }
}
