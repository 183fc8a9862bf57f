/** Character classes used by the regular expressions and string methods of the
    text normaliser and the semantic tagger, and maximal runs of them.

    `IsSpace` is exactly the set Python's `str.isspace` (and the `\s` class of a
    `str` pattern) accepts; `IsLineBreak` is exactly the set `str.splitlines`
    breaks on. Digits, word characters and identifiers are the ASCII subsets of
    Python's Unicode classes. */
module Chars {

  /** Python `str.isspace()`, which is also what `\s` and `str.strip()` use. */
  predicate IsSpace(c: char) {
    || ('\t' <= c <= '\r')            // \t \n \v \f \r
    || ('\U{1c}' <= c <= '\U{1f}')    // file, group, record and unit separators
    || c == ' '
    || c == '\U{85}' || c == '\U{a0}' || c == '\U{1680}'
    || ('\U{2000}' <= c <= '\U{200a}')
    || c == '\U{2028}' || c == '\U{2029}' || c == '\U{202f}' || c == '\U{205f}'
    || c == '\U{3000}'
  }

  /** The characters `str.splitlines()` treats as line boundaries. */
  predicate IsLineBreak(c: char) {
    || ('\n' <= c <= '\r')            // \n \v \f \r
    || ('\U{1c}' <= c <= '\U{1e}')
    || c == '\U{85}' || c == '\U{2028}' || c == '\U{2029}'
  }

  /** `\d`, ASCII only. */
  predicate IsDigit(c: char) {
    '0' <= c <= '9'
  }

  /** `[a-z]` */
  predicate IsLower(c: char) {
    'a' <= c <= 'z'
  }

  predicate IsLetter(c: char) {
    IsLower(c) || ('A' <= c <= 'Z')
  }

  /** `\w`, ASCII only. */
  predicate IsWord(c: char) {
    IsLetter(c) || IsDigit(c) || c == '_'
  }

  /** `str.isidentifier()`, ASCII only: a letter or underscore, then word characters. */
  predicate IsIdentifier(s: string) {
    && |s| > 0
    && (IsLetter(s[0]) || s[0] == '_')
    && forall i :: 1 <= i < |s| ==> IsWord(s[i])
  }

  /** The single-character classes the patterns repeat. */
  datatype Class =
    | Space              // \s
    | Digit              // \d
    | Word               // \w
    | Lower              // [a-z]
    | Is(c: char)        // one literal character
    | Not(c: char)       // [^c]; `.` is Not('\n')
    | Inline             // anything but a line boundary of `str.splitlines`
    | Plain              // `\n`, or anything that is no line boundary
  {
    predicate Has(x: char) {
      match this
      case Space => IsSpace(x)
      case Digit => IsDigit(x)
      case Word => IsWord(x)
      case Lower => IsLower(x)
      case Is(c) => x == c
      case Not(c) => x != c
      case Inline => !IsLineBreak(x)
      case Plain => x == '\n' || !IsLineBreak(x)
    }
  }

  /** Every character of `s` is of class `k`. */
  predicate All(s: string, k: Class) {
    forall i :: 0 <= i < |s| ==> k.Has(s[i])
  }

  /** Every character of `s[lo..hi]` is of class `k`. */
  predicate AllIn(s: string, lo: nat, hi: nat, k: Class) {
    lo <= hi <= |s| && forall i :: lo <= i < hi ==> k.Has(s[i])
  }

  /** `s` holds the word `w` at position `p`. */
  predicate HasAt(s: string, p: nat, w: string) {
    p + |w| <= |s| && forall i :: 0 <= i < |w| ==> s[p + i] == w[i]
  }

  /** The length of the longest run of class-`k` characters starting at `i`:
      how far a greedy `k*` can reach from there. */
  function RunFrom(s: string, i: nat, k: Class): (n: nat)
    requires i <= |s|
    ensures i + n <= |s|
    ensures i + n < |s| ==> !k.Has(s[i + n])
    decreases |s| - i
  {
    if i < |s| && k.Has(s[i]) then 1 + RunFrom(s, i + 1, k) else 0
  }

  /** Everything the run covers is of its class. */
  lemma RunAll(s: string, i: nat, k: Class)
    requires i <= |s|
    ensures AllIn(s, i, i + RunFrom(s, i, k), k)
    decreases |s| - i
  {
    if i < |s| && k.Has(s[i]) {
      RunAll(s, i + 1, k);
    }
  }

  /** Any stretch from `i` up to the run's end is of the run's class. */
  lemma RunAllTo(s: string, i: nat, k: Class, j: nat)
    requires i <= |s| && i <= j <= i + RunFrom(s, i, k)
    ensures AllIn(s, i, j, k)
  {
    RunAll(s, i, k);
  }

  /** A run is determined by any stretch that is all of class `k` and is then
      followed by the end or by a character outside `k`. */
  lemma RunUnique(s: string, i: nat, k: Class, n: nat)
    requires AllIn(s, i, i + n, k)
    requires i + n < |s| ==> !k.Has(s[i + n])
    ensures RunFrom(s, i, k) == n
  {
    RunAll(s, i, k);
    var m := RunFrom(s, i, k);
    if m < n {
      assert false;
    } else if n < m {
      assert false;
    }
  }

  /** A run stops at the first character outside its class. */
  lemma RunStops(s: string, i: nat, k: Class, y: nat)
    requires i <= y < |s| && !k.Has(s[y])
    ensures i + RunFrom(s, i, k) <= y
  {
    RunAll(s, i, k);
    if i + RunFrom(s, i, k) > y {
      assert false;
    }
  }

  /** A stretch of class `k` is covered by the run. */
  lemma RunCovers(s: string, i: nat, k: Class, n: nat)
    requires AllIn(s, i, i + n, k)
    ensures n <= RunFrom(s, i, k)
  {
    if RunFrom(s, i, k) < n {
      assert false;
    }
  }

  /** The start of the longest run of class-`k` characters that ends at `hi`,
      looking no further left than `lo`. */
  function RunBack(s: string, lo: nat, hi: nat, k: Class): (b: nat)
    requires lo <= hi <= |s|
    ensures lo <= b <= hi
    ensures AllIn(s, b, hi, k)
    ensures lo < b ==> !k.Has(s[b - 1])
    decreases hi - lo
  {
    if lo < hi && k.Has(s[hi - 1]) then RunBack(s, lo, hi - 1, k) else hi
  }

  /** A class that holds over part of a word holds over the same part of a
      text that holds the word at `o`. */
  lemma AllInCopy(s: string, o: nat, w: string, lo: nat, hi: nat, k: Class)
    requires HasAt(s, o, w) && AllIn(w, lo, hi, k)
    ensures AllIn(s, o + lo, o + hi, k)
  {
    forall q | o + lo <= q < o + hi
      ensures k.Has(s[q])
    {
      assert s[o + (q - o)] == w[q - o];
    }
  }

  /** Python `str.strip()` with no argument: drop leading and trailing whitespace. */
  function Strip(s: string): (r: string)
    ensures RunFrom(s, 0, Space) + |r| <= |s|
    ensures r == s[RunFrom(s, 0, Space)..RunFrom(s, 0, Space) + |r|]
    ensures AllIn(s, RunFrom(s, 0, Space) + |r|, |s|, Space)
    ensures |r| > 0 ==> !IsSpace(r[0]) && !IsSpace(r[|r| - 1])
  {
    var a := RunFrom(s, 0, Space);
    s[a..RunBack(s, a, |s|, Space)]
  }

  /** How `strip` cuts a string: leading whitespace up to `RunFrom(s, 0,
      Space)`, the result, then trailing whitespace; a string that is all
      whitespace leaves nothing. */
  lemma StripCuts(s: string)
    ensures RunFrom(s, 0, Space) + |Strip(s)| <= |s|
    ensures AllIn(s, 0, RunFrom(s, 0, Space), Space)
    ensures AllIn(s, RunFrom(s, 0, Space) + |Strip(s)|, |s|, Space)
    ensures |Strip(s)| == 0 ==> RunFrom(s, 0, Space) == |s|
  {
    RunAll(s, 0, Space);
  }

  /** `strip` leaves nothing exactly when the text is all whitespace. */
  lemma StripBlank(s: string)
    ensures |Strip(s)| == 0 <==> AllIn(s, 0, |s|, Space)
  {
    StripCuts(s);
    if AllIn(s, 0, |s|, Space) {
      RunUnique(s, 0, Space, |s|);
    }
  }

  /** Text that neither starts nor ends with whitespace is its own strip. */
  lemma StripFixed(s: string)
    requires s != [] ==> !IsSpace(s[0]) && !IsSpace(s[|s| - 1])
    ensures Strip(s) == s
  {
    if s != [] {
      RunUnique(s, 0, Space, 0);
      assert RunBack(s, 0, |s|, Space) == |s|;
    }
  }

  /** A slice of a text stands in the text where it was cut. */
  lemma SliceHasAt(s: string, lo: nat, hi: nat)
    requires lo <= hi <= |s|
    ensures HasAt(s, lo, s[lo..hi])
  {
  }

  /** A stretch of class `k` cut out is all of class `k`. */
  lemma SliceAll(s: string, lo: nat, hi: nat, k: Class)
    requires AllIn(s, lo, hi, k)
    ensures All(s[lo..hi], k)
  {
    assert forall i :: 0 <= i < hi - lo ==> s[lo..hi][i] == s[lo + i];
  }

  /** A stretch of class `k` inside a cut is of class `k` in the cut. */
  lemma SliceAllIn(s: string, a: nat, b: nat, lo: nat, hi: nat, k: Class)
    requires a <= b <= |s| && lo <= hi <= b - a && AllIn(s, a + lo, a + hi, k)
    ensures AllIn(s[a..b], lo, hi, k)
  {
    forall i | lo <= i < hi ensures k.Has(s[a..b][i]) {
      assert s[a..b][i] == s[a + i];
    }
  }

  /** A word inside a cut stands in the cut. */
  lemma SliceHasWord(s: string, a: nat, b: nat, o: nat, w: string)
    requires a <= b <= |s| && o + |w| <= b - a && HasAt(s, a + o, w)
    ensures HasAt(s[a..b], o, w)
  {
    forall i | 0 <= i < |w| ensures s[a..b][o + i] == w[i] {
      assert s[a..b][o + i] == s[a + o + i];
    }
  }
}
