/** `semantic_tagging`: class names, method and command names and
    relationship pairs found by `re.findall` scans of the text, and attribute
    pairs taken from the table rows whose first cell is an identifier. */
module Tagging {
  import opened Chars
  import opened Patterns
  import opened Scan

  /** A table as extracted: rows of cells, each cell a string. */
  type Row = seq<string>
  type Table = seq<Row>

  /** `{"name": row[0], "value": row[1]}` */
  datatype Attribute = Attribute(name: string, value: string)

  /** A `(source, target)` pair of the relationship pattern. */
  datatype Relation = Relation(source: string, target: string)

  /** The dictionary `semantic_tagging` returns. */
  datatype Tags = Tags(
    classes: seq<string>,
    attributes: seq<Attribute>,
    methods: seq<string>,
    relationships: seq<Relation>)

  /** The attempt of `pat` at the start of every match `findall` reports
      returns that match. */
  lemma MatchesHit(pat: Pattern, s: string, i: nat)
    requires i < |Matches(pat, s)|
    ensures Matches(pat, s)[i].start <= |s|
    ensures MatchAt(pat, s, Matches(pat, s)[i].start) == Some(Matches(pat, s)[i].hit)
  {
    AttemptSteps(pat, s);
    assert IsFound(Attempt(pat, s), s, Matches(pat, s)[i]);
  }

  /** The matches `findall` reports do not overlap: each ends before the
      next one starts. */
  lemma MatchesInOrder(pat: Pattern, s: string, i: nat, j: nat)
    requires i < j < |Matches(pat, s)|
    ensures Matches(pat, s)[i].hit.end <= Matches(pat, s)[j].start
    ensures Matches(pat, s)[i].start < Matches(pat, s)[j].start
  {
    AttemptSteps(pat, s);
    FindAllIncreasing(Attempt(pat, s), s, pat.GroupCount(), 0, i, j);
  }

  /** No pattern matches the empty text. */
  lemma NoMatchesInEmpty(pat: Pattern)
    ensures Matches(pat, "") == []
  {
    AttemptSteps(pat, "");
    assert Attempt(pat, "")(0).None?;
    assert Search(Attempt(pat, ""), "", 0).None?;
  }

  // ---------------------------------------------------------------------
  // Class names

  /** `e` reads `class`, then whitespace, then word characters to its end. */
  predicate IsClassEntry(e: string) {
    && HasAt(e, 0, "class")
    && 0 < RunFrom(e, 5, Space)
    && 5 + RunFrom(e, 5, Space) < |e|
    && AllIn(e, 5 + RunFrom(e, 5, Space), |e|, Word)
  }

  /** `e` occurs in `s` at `p` and is not followed by a word character. */
  predicate WordEndsAt(s: string, p: nat, e: string) {
    HasAt(s, p, e) && (p + |e| < |s| ==> !IsWord(s[p + |e|]))
  }

  /** What the class scan found at `p` is a class entry, and the greedy
      `[\w]+` took the whole word. */
  lemma ClassEntryOf(s: string, p: nat)
    requires p <= |s| && ClassHere(s, p).Some?
    ensures ClassHere(s, p).value.end <= |s|
    ensures ClassAt(s, p, s[p..ClassHere(s, p).value.end])
  {
    ClassSound(s, p);
    var e := ClassHere(s, p).value.end;
    var k: nat :| ClassParts(s, p, k, e);
    ClassPartsEntry(s, p, k, e);
  }

  /** The text of a match in the class pattern's language is a class entry
      standing where it matched. */
  lemma ClassPartsEntry(s: string, p: nat, k: nat, e: nat)
    requires ClassParts(s, p, k, e) && e <= |s|
    ensures ClassAt(s, p, s[p..e])
  {
    SliceAllIn(s, p, e, 5, 5 + k, Space);
    SliceAllIn(s, p, e, 5 + k, e - p, Word);
    SliceHasWord(s, p, e, 0, "class");
    SliceHasAt(s, p, e);
    ClassEntryParts(s[p..e], k);
  }

  /** `class`, a run of `k` whitespace characters and a word make a class
      entry. */
  lemma ClassEntryParts(x: string, k: nat)
    requires HasAt(x, 0, "class") && 0 < k && 5 + k < |x|
    requires AllIn(x, 5, 5 + k, Space) && AllIn(x, 5 + k, |x|, Word)
    ensures IsClassEntry(x)
  {
    RunUnique(x, 5, Space, k);
  }

  /** `e` is a class entry standing at `p` in `s` with its whole word. */
  predicate ClassAt(s: string, p: nat, e: string) {
    IsClassEntry(e) && WordEndsAt(s, p, e)
  }

  predicate ClassHits(s: string, ms: seq<Found>) {
    forall i :: 0 <= i < |ms| ==> ms[i].start <= |s| && ClassHere(s, ms[i].start) == Some(ms[i].hit)
  }

  /** The text of each class match, in order. */
  function ClassTexts(s: string, ms: seq<Found>): (r: seq<string>)
    requires ClassHits(s, ms)
    ensures |r| == |ms|
    ensures forall i :: 0 <= i < |r| ==> ClassAt(s, ms[i].start, r[i])
    decreases |ms|
  {
    if ms == [] then []
    else
      ClassEntryOf(s, ms[0].start);
      [s[ms[0].start..ms[0].hit.end]] + ClassTexts(s, ms[1..])
  }

  lemma ClassesHit(s: string)
    ensures ClassHits(s, Matches(ClassName, s))
  {
    forall i | 0 <= i < |Matches(ClassName, s)|
      ensures Matches(ClassName, s)[i].start <= |s|
      ensures ClassHere(s, Matches(ClassName, s)[i].start) == Some(Matches(ClassName, s)[i].hit)
    {
      MatchesHit(ClassName, s, i);
    }
  }

  /** The class scan, pattern `(class\s+[\w]+)`: one entry per match, each the
      keyword, whitespace and a whole word, found where the match starts. */
  function Classes(text: string): (r: seq<string>)
    ensures |r| == |Matches(ClassName, text)|
    ensures forall i :: 0 <= i < |r| ==> ClassAt(text, Matches(ClassName, text)[i].start, r[i])
  {
    ClassesHit(text);
    ClassTexts(text, Matches(ClassName, text))
  }

  /** Class entries appear in the order of the text and do not overlap. */
  lemma ClassesInOrder(text: string, i: nat, j: nat)
    requires i < j < |Classes(text)|
    ensures Matches(ClassName, text)[i].start + |Classes(text)[i]| <= Matches(ClassName, text)[j].start
  {
    MatchesInOrder(ClassName, text, i, j);
    ClassesHit(text);
    ClassSpans(text, Matches(ClassName, text), i);
  }

  lemma {:induction false} ClassSpans(s: string, ms: seq<Found>, i: nat)
    requires ClassHits(s, ms) && i < |ms|
    ensures ms[i].start + |ClassTexts(s, ms)[i]| == ms[i].hit.end
    decreases i
  {
    if i > 0 {
      assert ClassTexts(s, ms)[i] == ClassTexts(s, ms[1..])[i - 1];
      ClassSpans(s, ms[1..], i - 1);
    }
  }

  // ---------------------------------------------------------------------
  // Method and command names

  /** `e` is `start.` and lower-case letters, or `install(`, characters
      other than `)`, and `)`. */
  predicate IsMethodEntry(e: string) {
    || (HasAt(e, 0, "start.") && 6 < |e| && AllIn(e, 6, |e|, Lower))
    || (HasAt(e, 0, "install(") && 9 <= |e| && AllIn(e, 8, |e| - 1, Not(')')) && e[|e| - 1] == ')')
  }

  /** What the method scan found at `p` is a method entry; a `start.` entry
      took every lower-case letter that follows. */
  lemma MethodEntryOf(s: string, p: nat)
    requires p <= |s| && MethodHere(s, p).Some?
    ensures MethodHere(s, p).value.end <= |s|
    ensures MethodAt(s, p, s[p..MethodHere(s, p).value.end])
  {
    MethodSound(s, p);
    var e := MethodHere(s, p).value.end;
    var x := s[p..e];
    assert forall i :: 0 <= i < |x| ==> x[i] == s[p + i];
  }

  /** `e` is a method entry standing at `p` in `s`, as the pattern matches
      it there. */
  predicate MethodAt(s: string, p: nat, e: string) {
    IsMethodEntry(e) && HasAt(s, p, e) && IsMethodMatch(s, p, p + |e|)
  }

  predicate MethodHits(s: string, ms: seq<Found>) {
    forall i :: 0 <= i < |ms| ==> ms[i].start <= |s| && MethodHere(s, ms[i].start) == Some(ms[i].hit)
  }

  function MethodTexts(s: string, ms: seq<Found>): (r: seq<string>)
    requires MethodHits(s, ms)
    ensures |r| == |ms|
    ensures forall i :: 0 <= i < |r| ==> MethodAt(s, ms[i].start, r[i])
    decreases |ms|
  {
    if ms == [] then []
    else
      MethodEntryOf(s, ms[0].start);
      [s[ms[0].start..ms[0].hit.end]] + MethodTexts(s, ms[1..])
  }

  lemma MethodsHit(s: string)
    ensures MethodHits(s, Matches(MethodName, s))
  {
    forall i | 0 <= i < |Matches(MethodName, s)|
      ensures Matches(MethodName, s)[i].start <= |s|
      ensures MethodHere(s, Matches(MethodName, s)[i].start) == Some(Matches(MethodName, s)[i].hit)
    {
      MatchesHit(MethodName, s, i);
    }
  }

  /** The method scan, pattern `(start\.[a-z]+|install\([^\)]*\))`: one entry
      per match, each a `start.` command or an `install(...)` call found where
      the match starts. */
  function Methods(text: string): (r: seq<string>)
    ensures |r| == |Matches(MethodName, text)|
    ensures forall i :: 0 <= i < |r| ==> MethodAt(text, Matches(MethodName, text)[i].start, r[i])
  {
    MethodsHit(text);
    MethodTexts(text, Matches(MethodName, text))
  }

  // ---------------------------------------------------------------------
  // Relationships

  /** Both words of a pair are non-empty runs of word characters. */
  predicate IsRelationEntry(x: Relation) {
    && x.source != [] && All(x.source, Word)
    && x.target != [] && All(x.target, Word)
  }

  /** `s` holds, from `p`, the pair's source, whitespace up to `b`, `=>`,
      whitespace up to `c`, and the pair's target, which is not followed by
      a word character. */
  predicate PairParts(s: string, p: nat, x: Relation, b: nat, c: nat) {
    && RelParts(s, p, p + |x.source|, b, c, c + |x.target|)
    && HasAt(s, p, x.source)
    && HasAt(s, c, x.target)
  }

  ghost predicate RelationAt(s: string, p: nat, x: Relation) {
    exists b: nat, c: nat :: PairParts(s, p, x, b, c)
  }

  /** `x` is a pair standing at `p` in `s`. */
  ghost predicate RelationFound(s: string, p: nat, x: Relation) {
    IsRelationEntry(x) && RelationAt(s, p, x)
  }

  /** The text of a relationship hit's two groups. */
  function PairOf(s: string, h: Hit): Relation
    requires |h.groups| == 2 && h.groups[0].lo <= h.groups[0].hi <= |s| && h.groups[1].lo <= h.groups[1].hi <= |s|
  {
    Relation(s[h.groups[0].lo..h.groups[0].hi], s[h.groups[1].lo..h.groups[1].hi])
  }

  /** The groups of what the relationship scan found at `p` are a pair that
      stands there in the text. */
  lemma RelationEntryOf(s: string, p: nat)
    requires p <= |s| && RelationHere(s, p).Some?
    ensures var g := RelationHere(s, p).value.groups;
      |g| == 2 && g[0].lo <= g[0].hi <= |s| && g[1].lo <= g[1].hi <= |s|
    ensures RelationFound(s, p, PairOf(s, RelationHere(s, p).value))
  {
    var h := RelationHere(s, p).value;
    var a, c, e := h.groups[0].hi, h.groups[1].lo, h.end;
    var b :| RelParts(s, p, a, b, c, e);
    PairAt(s, p, a, b, c, e);
  }

  lemma PairAt(s: string, p: nat, a: nat, b: nat, c: nat, e: nat)
    requires RelParts(s, p, a, b, c, e)
    ensures RelationFound(s, p, Relation(s[p..a], s[c..e]))
  {
    PairPieces(s, p, a, b, c, e);
    assert PairParts(s, p, Relation(s[p..a], s[c..e]), b, c);
  }

  lemma PairPieces(s: string, p: nat, a: nat, b: nat, c: nat, e: nat)
    requires RelParts(s, p, a, b, c, e)
    ensures var x := Relation(s[p..a], s[c..e]);
      && IsRelationEntry(x) && HasAt(s, p, x.source) && HasAt(s, c, x.target)
      && p + |x.source| == a && c + |x.target| == e
  {
    SliceHasAt(s, p, a);
    SliceHasAt(s, c, e);
    SliceAll(s, p, a, Word);
    SliceAll(s, c, e, Word);
  }

  predicate RelationHits(s: string, ms: seq<Found>) {
    forall i :: 0 <= i < |ms| ==> ms[i].start <= |s| && RelationHere(s, ms[i].start) == Some(ms[i].hit)
  }

  function RelationPairs(s: string, ms: seq<Found>): (r: seq<Relation>)
    requires RelationHits(s, ms)
    ensures |r| == |ms|
    ensures forall i :: 0 <= i < |r| ==> RelationFound(s, ms[i].start, r[i])
    decreases |ms|
  {
    if ms == [] then []
    else
      RelationEntryOf(s, ms[0].start);
      [PairOf(s, ms[0].hit)] + RelationPairs(s, ms[1..])
  }

  lemma RelationsHit(s: string)
    ensures RelationHits(s, Matches(Relationship, s))
  {
    forall i | 0 <= i < |Matches(Relationship, s)|
      ensures Matches(Relationship, s)[i].start <= |s|
      ensures RelationHere(s, Matches(Relationship, s)[i].start) == Some(Matches(Relationship, s)[i].hit)
    {
      MatchesHit(Relationship, s, i);
    }
  }

  /** The relationship scan, pattern `(\w+)\s*=>\s*(\w+)`: one pair per match, the
      two words standing around `=>` where the match starts. */
  function Relationships(text: string): (r: seq<Relation>)
    ensures |r| == |Matches(Relationship, text)|
    ensures forall i :: 0 <= i < |r| ==> RelationFound(text, Matches(Relationship, text)[i].start, r[i])
  {
    RelationsHit(text);
    RelationPairs(text, Matches(Relationship, text))
  }

  /** A text that is exactly one pair -- a word, optional whitespace, `=>`,
      optional whitespace, a word -- yields that pair and nothing else. */
  lemma RelationshipsOfOnePair(s: string, x: Relation, b: nat, c: nat)
    requires IsRelationEntry(x) && PairParts(s, 0, x, b, c) && c + |x.target| == |s|
    ensures Relationships(s) == [x]
  {
    var e := |s|;
    var h := Hit(e, [Span(0, |x.source|), Span(c, e)]);
    RelationComplete(s, 0, |x.source|, b, c, e);
    assert RelationHere(s, e).None?;
    OneMatch(Relationship, s, h);
    assert s[0..|x.source|] == x.source;
    assert s[c..e] == x.target;
  }

  /** `A=>B` gives the pair `("A", "B")`, for any two word characters. */
  lemma ArrowExample(a: char, b: char)
    requires IsWord(a) && IsWord(b)
    ensures Relationships([a, '=', '>', b]) == [Relation([a], [b])]
  {
    var s := [a, '=', '>', b];
    assert HasAt(s, 1, "=>");
    assert PairParts(s, 0, Relation([a], [b]), 1, 3);
    RelationshipsOfOnePair(s, Relation([a], [b]), 1, 3);
  }

  /** A pattern whose attempt at `0` takes the whole text matches once. */
  lemma OneMatch(pat: Pattern, s: string, h: Hit)
    requires MatchAt(pat, s, 0) == Some(h) && h.end == |s| && MatchAt(pat, s, |s|).None?
    ensures Matches(pat, s) == [Found(0, h)]
  {
    AttemptSteps(pat, s);
    var at := Attempt(pat, s);
    assert at(|s|) == MatchAt(pat, s, |s|);
    assert Leftmost(at, s, |s|, []);
    assert Leftmost(at, s, 0, [Found(0, h)]);
    LeftmostIsFindAll(at, s, pat.GroupCount(), 0, [Found(0, h)]);
  }

  /** A text that is exactly one class entry yields that entry. */
  lemma ClassesOfOneEntry(s: string)
    requires IsClassEntry(s)
    ensures Classes(s) == [s]
  {
    var k := RunFrom(s, 5, Space);
    RunAll(s, 5, Space);
    ClassComplete(s, 0, k, |s|);
    assert ClassHere(s, |s|).None?;
    OneMatch(ClassName, s, Hit(|s|, [Span(0, |s|)]));
    ClassesHit(s);
    assert ClassTexts(s, [Found(0, Hit(|s|, [Span(0, |s|)]))]) == [s[0..|s|]];
    assert Classes(s) == ClassTexts(s, Matches(ClassName, s));
    assert s[0..|s|] == s;
  }

  /** A text that is exactly one `start.` command or `install(...)` call
      yields it. */
  lemma MethodsOfOneEntry(s: string)
    requires IsMethodMatch(s, 0, |s|)
    ensures Methods(s) == [s]
  {
    MethodComplete(s, 0, |s|);
    assert MethodHere(s, |s|).None?;
    OneMatch(MethodName, s, Hit(|s|, [Span(0, |s|)]));
    MethodsHit(s);
    assert MethodTexts(s, [Found(0, Hit(|s|, [Span(0, |s|)]))]) == [s[0..|s|]];
    assert Methods(s) == MethodTexts(s, Matches(MethodName, s));
    assert s[0..|s|] == s;
  }

  // ---------------------------------------------------------------------
  // Attribute rows

  /** A row whose first cell names an attribute and which has a value cell. */
  predicate IsAttributeRow(row: Row) {
    |row| >= 2 && IsIdentifier(row[0])
  }

  /** The attribute an attribute row gives: its first two cells. */
  function AttributeOf(row: Row): Attribute
    requires |row| >= 2
  {
    Attribute(row[0], row[1])
  }

  /** The attributes of a run of rows, in row order. */
  function RowAttributes(rows: seq<Row>): (r: seq<Attribute>)
    ensures |r| <= |rows|
    ensures |r| == |rows| <==> forall i :: 0 <= i < |rows| ==> IsAttributeRow(rows[i])
    ensures forall i :: 0 <= i < |r| ==> IsIdentifier(r[i].name)
    decreases |rows|
  {
    if rows == [] then []
    else
      var rest := RowAttributes(rows[1..]);
      if IsAttributeRow(rows[0]) then [AttributeOf(rows[0])] + rest
      else
        assert !IsAttributeRow(rows[0]);
        rest
  }

  /** `x` is what some attribute row among `rows` gives. */
  ghost predicate FromSomeRow(x: Attribute, rows: seq<Row>) {
    exists i :: 0 <= i < |rows| && IsAttributeRow(rows[i]) && x == AttributeOf(rows[i])
  }

  /** An attribute comes from an attribute row, and every attribute row
      gives one. */
  lemma {:induction false} RowAttributesFrom(rows: seq<Row>, x: Attribute)
    ensures x in RowAttributes(rows) <==> FromSomeRow(x, rows)
    decreases |rows|
  {
    if rows != [] {
      RowAttributesFrom(rows[1..], x);
      assert forall i :: 1 <= i < |rows| ==> rows[1..][i - 1] == rows[i];
      if exists i :: 0 <= i < |rows| && IsAttributeRow(rows[i]) && x == AttributeOf(rows[i]) {
        var i :| 0 <= i < |rows| && IsAttributeRow(rows[i]) && x == AttributeOf(rows[i]);
        if i > 0 {
          assert rows[1..][i - 1] == rows[i];
        }
      }
    }
  }

  /** Rows are read in order: the attributes of two runs of rows are those
      of the first run followed by those of the second. */
  lemma {:induction false} RowAttributesAppend(a: seq<Row>, b: seq<Row>)
    ensures RowAttributes(a + b) == RowAttributes(a) + RowAttributes(b)
    decreases |a|
  {
    if a == [] {
      assert a + b == b;
    } else {
      assert (a + b)[1..] == a[1..] + b;
      RowAttributesAppend(a[1..], b);
    }
  }

  /** The attribute row `i` gives stands after those of the rows before it. */
  lemma RowAttributeAt(rows: seq<Row>, i: nat)
    requires i < |rows| && IsAttributeRow(rows[i])
    ensures |RowAttributes(rows[..i])| < |RowAttributes(rows)|
    ensures RowAttributes(rows)[|RowAttributes(rows[..i])|] == AttributeOf(rows[i])
  {
    assert rows == rows[..i] + rows[i..];
    RowAttributesAppend(rows[..i], rows[i..]);
    assert RowAttributes(rows[i..])[0] == AttributeOf(rows[i]);
  }

  /** How many rows the tables hold together. */
  function RowCount(tables: seq<Table>): nat {
    if tables == [] then 0 else |tables[0]| + RowCount(tables[1..])
  }

  /** All rows of all tables, table by table. */
  function AllRows(tables: seq<Table>): (rows: seq<Row>)
    ensures |rows| == RowCount(tables)
  {
    if tables == [] then [] else tables[0] + AllRows(tables[1..])
  }

  /** The attributes of every table, table by table and row by row: at most
      one per row, each named by an identifier. */
  function Attributes(tables: seq<Table>): (r: seq<Attribute>)
    ensures |r| <= RowCount(tables)
    ensures forall i :: 0 <= i < |r| ==> IsIdentifier(r[i].name)
  {
    if tables == [] then [] else RowAttributes(tables[0]) + Attributes(tables[1..])
  }

  /** Reading the tables one after the other is reading all their rows as
      one run. */
  lemma {:induction false} AttributesOfAllRows(tables: seq<Table>)
    ensures Attributes(tables) == RowAttributes(AllRows(tables))
  {
    if tables != [] {
      AttributesOfAllRows(tables[1..]);
      RowAttributesAppend(tables[0], AllRows(tables[1..]));
    }
  }

  /** The attributes of the tables are exactly those of their attribute
      rows. */
  lemma AttributesFrom(tables: seq<Table>)
    ensures forall x :: x in Attributes(tables) <==>
      FromSomeRow(x, AllRows(tables))
  {
    AttributesOfAllRows(tables);
    forall x {
      RowAttributesFrom(AllRows(tables), x);
    }
  }

  // ---------------------------------------------------------------------
  // The tagger

  /** The four lists `semantic_tagging` returns: each class, method and
      relationship entry is found where a match of its pattern starts, in
      the order of the text; the attributes are those of the attribute rows
      of the tables, at most one per row. An empty text gives no class,
      method or relationship, and no tables give no attribute. */
  function SemanticTagging(text: string, tables: seq<Table>): (r: Tags)
    ensures |r.classes| == |Matches(ClassName, text)|
    ensures forall i :: 0 <= i < |r.classes| ==> ClassAt(text, Matches(ClassName, text)[i].start, r.classes[i])
    ensures |r.methods| == |Matches(MethodName, text)|
    ensures forall i :: 0 <= i < |r.methods| ==> MethodAt(text, Matches(MethodName, text)[i].start, r.methods[i])
    ensures |r.relationships| == |Matches(Relationship, text)|
    ensures forall i :: 0 <= i < |r.relationships| ==>
      RelationFound(text, Matches(Relationship, text)[i].start, r.relationships[i])
    ensures |r.attributes| <= RowCount(tables)
    ensures forall x :: x in r.attributes <==>
      FromSomeRow(x, AllRows(tables))
    ensures text == [] ==> r.classes == [] && r.methods == [] && r.relationships == []
    ensures tables == [] ==> r.attributes == []
  {
    EmptyTextFacts(text);
    AttributesFrom(tables);
    Tags(Classes(text), Attributes(tables), Methods(text), Relationships(text))
  }

  lemma EmptyTextFacts(text: string)
    ensures text == [] ==> Classes(text) == [] && Methods(text) == [] && Relationships(text) == []
  {
    if text == [] {
      NoMatchesInEmpty(ClassName);
      NoMatchesInEmpty(MethodName);
      NoMatchesInEmpty(Relationship);
      assert |Classes(text)| == |Methods(text)| == |Relationships(text)| == 0;
    }
  }
}
