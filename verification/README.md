# pdf_extraction text core, in Dafny

This project models the two pure functions of the `pdf_extraction` tool: `clean_text` and `semantic_tagging`.

`clean_text` normalises text extracted from a PDF:
1. It removes page-number lines with `re.sub(r'(?m)^\s*\d+\s*$', '', text)`.
2. It turns `=== title ===` lines into `## title` with `re.sub(r'(?m)^={3,}\s*(.*?)\s*={3,}$', r'## \1', text)`.
3. It splits the text with `str.splitlines()` and drops blank lines. Each remaining line has its runs of spaces collapsed by `re.sub(r' +', ' ', line)` and is then stripped.
4. It joins the lines with `\n`.

`semantic_tagging` returns four lists:
- class names, found by `re.findall(r'(class\s+[\w]+)', text)`;
- attribute pairs `(row[0], row[1])` from every table row with at least two cells whose first cell is an identifier;
- method and command names, found by `re.findall(r'(start\.[a-z]+|install\([^\)]*\))', text)`;
- relationship pairs, found by `re.findall(r'(\w+)\s*=>\s*(\w+)', text)`.

Modules:
- `Chars`: character classes, maximal runs and `str.strip()`.
- `Patterns`: each of the six regular expressions, written as the backtracking search Python's `re` performs at one position. Each comes with a declarative description of what it matches, and lemmas in both directions.
- `Scan`: `re.findall` and `re.sub` as leftmost, non-overlapping scans.
- `Headers`: what the header pattern does to a whole `=== title ===` line.
- `Lines`: `splitlines`, `"\n".join` and collapsing runs of spaces.
- `Cleansing`: `clean_text`.
- `PageLines`: no page-number line survives `clean_text`.
- `InContext`: what `clean_text` does to one line of a longer text.
- `Tagging`: `semantic_tagging`.

The two regular-expression passes of `clean_text` work on the whole text, character by character. Their `\s*` can therefore run across a `\n`, exactly as in Python. Only the last pass works on lines. So whether a line is touched can depend on the lines around it: `InContext.OpenerTakesTitledLine` shows a line of `===` taking the `=== w ===` line below it into its own header match.

`clean_text` is not idempotent: `Cleansing.IndentedHeaderTakesTwoPasses` and `Cleansing.FormFeedTakesTwoPasses` prove inputs where a second application changes the result.

## Model

| member | source | states |
|---|---|---|
| Cleansing.CleanText | dataCleansing.py:3-15 | The output has no two spaces in a row and no whitespace at either end. Every line boundary in it is a `\n` with non-whitespace on both sides, so there is no empty or blank line and no leading or trailing `\n`. Every line of the output is non-empty, stripped and free of double spaces. |
| Cleansing.CleanLine | dataCleansing.py:12 | A line cleans to the empty string exactly when it is all whitespace. Otherwise the result starts and ends with non-whitespace and has no two spaces in a row. A line without line boundaries keeps none. |
| Cleansing.CleanLines | dataCleansing.py:12 | The comprehension never yields more lines than it is given. |
| Cleansing.CleanLinesOne | dataCleansing.py:12 | One line gives nothing if it is all whitespace, and otherwise the line with spaces collapsed and stripped. |
| Cleansing.CleanLinesAppend | dataCleansing.py:12 | Cleaning two runs of lines one after the other gives the two cleaned runs in the same order, so surviving lines keep their relative order. |
| Cleansing.CleanLinesTidy | dataCleansing.py:12 | Every line the comprehension yields from lines without line boundaries is non-empty, stripped and free of double spaces. |
| Cleansing.CleanBlank | dataCleansing.py:12-15 | Empty or all-whitespace input gives the empty string. |
| Cleansing.SubUnchanged | dataCleansing.py:5-8 | A substitution whose pattern matches nowhere returns the text unchanged. |
| Cleansing.PassesUnchanged | dataCleansing.py:5-8 | Text where neither the page-number nor the header pattern matches goes through both passes unchanged. |
| Cleansing.CleanWithoutMatches | dataCleansing.py:5-15 | When neither pattern matches, the output is the cleaned lines of the input joined by `\n`, so a line not hit by either rule changes only by collapsing and stripping. |
| Cleansing.PageNeeds | dataCleansing.py:5 | A page-number match has a digit right after its leading whitespace. |
| Cleansing.HeaderNeeds | dataCleansing.py:8 | A header match starts with `=`. |
| Cleansing.NoPageWithoutDigit | dataCleansing.py:5 | Text without a digit has no page-number match anywhere. |
| Cleansing.NoHeaderWithoutEquals | dataCleansing.py:8 | Text without `=` has no header match anywhere. |
| Cleansing.AnchoredOnlyAtStart | dataCleansing.py:5-8 | In text without `\n`, the two `(?m)^` patterns can match only at position 0. |
| Cleansing.OneLineWithoutPage | dataCleansing.py:5 | A single line holding some character that is neither whitespace nor a digit survives the page-number pass, wherever that character stands (as in `3 of 10`). |
| Cleansing.OneLineWithoutHeader | dataCleansing.py:8 | A single line that does not start with `=` survives the header pass. |
| Cleansing.OneLineEndsWithoutHeader | dataCleansing.py:8 | A single line without `\n` that does not end with `=` survives the header pass: the closing `={3,}` must stand right before `$`, which holds there only at the end of the text. |
| Cleansing.ExpandHeader | dataCleansing.py:8 | The replacement `## \1` builds `## ` followed by the text of group 1. |
| Cleansing.PassesOnTitledLine | dataCleansing.py:5-8 | A text that is one `=== m ===` line survives the page-number pass and comes out of the header pass as `## ` plus `m` stripped. |
| Cleansing.CleanTitledLine | dataCleansing.py:3-15 | A text that is one `=== m ===` line (at least three `=` on each side) cleans to `## ` plus `m` stripped with its spaces collapsed. If `m` is blank, it cleans to `##`. |
| Cleansing.CleanRuleLine | dataCleansing.py:3-15 | A text that is one line of six or more `=` cleans to `##`. |
| InContext.PassKeepsLine | dataCleansing.py:5-8 | A `re.sub` pass over the whole text keeps a `\n`-separated line, as a whole line and unchanged, when no match reaches across the `\n` in front of it and no attempt succeeds from there to the `\n` after it. It stands after what the pass makes of the text before the line. |
| InContext.PageSparesLine | dataCleansing.py:5 | The page-number pass neither reaches across the `\n` in front of a line holding a character other than whitespace and digits nor matches from there to the `\n` after it. |
| InContext.PagePassKeepsLine | dataCleansing.py:5 | Such a line stands, unchanged and as a whole line, in the text `DropPageNumbers` returns. |
| InContext.HeaderSparesLineStart | dataCleansing.py:8 | No header match starts on a line that does not start with `=`, nor on the `\n`s around it. |
| InContext.HeaderPassKeepsLine | dataCleansing.py:8 | A line not starting with `=` that no header match from the lines above reaches into stands, unchanged, in the text `FormatHeaders` returns. |
| InContext.HeaderPassAt | dataCleansing.py:8 | A header match at a line start that no earlier match reaches past is replaced in place. `FormatHeaders` gives what the text before the line becomes, the `\n`, `## ` and the group, then what the text after the match becomes. |
| InContext.HeaderPassOnTitledLine | dataCleansing.py:8 | A titled line inside a text that no header match from above reaches into becomes the line `## ` and its title stripped, at its shifted place. |
| InContext.LinePassFindsLine | dataCleansing.py:11-12 | On a whole text, the line pass gives what the lines before a line give, then that line's own result, then what the lines after it give. |
| InContext.CleanTextLines | dataCleansing.py:11-15 | Splitting the output of `clean_text` into lines gives back exactly the lines the comprehension yields. |
| InContext.UnhitLineKept | dataCleansing.py:3-15 | A line of a longer text that neither pass touches keeps its place through both passes: the lemma names the position it moves to after each pass. In the output it is one line, collapsed and stripped. The output lines are exactly the cleaned lines of the passed text before that position, then this line, then the cleaned lines after it, whatever the other lines hold. The conditions: the line lies between `\n`s (or the text's ends) and holds no other `splitlines` boundary, it holds a character other than whitespace and digits, it does not start with `=`, and no header match from above reaches into it. |
| InContext.TitledLineKept | dataCleansing.py:3-15 | A line `=== m ===` of a longer text that lies between `\n`s (or the text's ends), holds no other `splitlines` boundary, and that no header match from above reaches into becomes `## ` plus `m` stripped, at a position the lemma names. In the output it is the line `## ` plus `m` stripped and collapsed, or `##` for a blank `m`. The output lines are exactly the cleaned lines before that position, then this line, then the cleaned lines after it. |
| InContext.OpenerTakesTitledLine | dataCleansing.py:8 | For any lower-case word `w`, `===` on the line above `=== w ===` makes one header match of both lines, since `\s*` crosses the `\n`. The output is `## === w`, where the titled line alone gives `## w`. |
| Cleansing.WholeHeader | dataCleansing.py:8 | A text that is one header match from start to end becomes `## ` and the group. |
| Cleansing.CleanHeaderLine | dataCleansing.py:12 | The line pass keeps `## title` as it is when the title is stripped and has no double spaces. For an empty title it gives `##`. |
| Cleansing.TitleExample | dataCleansing.py:3-15 | `=== w ===` cleans to `## w` for any word `w`. |
| Cleansing.IndentedHeaderTakesTwoPasses | dataCleansing.py:8-12 | `  === w ===` cleans to `=== w ===`, because the header pattern needs `=` at the line start and stripping comes later. A second application gives `## w`, so `clean_text` is not idempotent. |
| Cleansing.FormFeedTakesTwoPasses | dataCleansing.py:5-11 | A letter, form feed, digit cleans to letter, `\n`, digit. `splitlines` breaks at the form feed but the page-number pattern's `$` does not, so the digit line survives. A second application removes it. |
| Cleansing.BreakEndedTitle | dataCleansing.py:8-15 | `=== w ===` followed by a form feed, vertical tab or other `splitlines` boundary except `\n` and `\r`, then a letter, cleans to `=== w ===`, `\n`, the letter. The header pattern's `$` does not hold before that boundary, so the line is not converted. The same line ended by `\n` or the end of the text becomes `## w`. |
| Cleansing.PageLineDropped | dataCleansing.py:5 | In letter, `\n`, digit, the page-number pass removes the digit line and leaves the `\n`. |
| Lines.SplitLines | dataCleansing.py:11 | No line that `splitlines` yields contains a line boundary. |
| Lines.SplitJoin | dataCleansing.py:11-15 | Splitting the `\n`-join `JoinLines` of boundary-free lines, the last one non-empty, gives the lines back. |
| Lines.SplitAtNewline | dataCleansing.py:11 | A `\n` ends a line whatever follows: the lines of `x`, `\n`, `y` are those of `x` and `\n`, then those of `y`. |
| Lines.SplitLinesKeep | dataCleansing.py:11 | A character class that holds for the whole text holds for every line. |
| Lines.SpacesSubIsCollapse | dataCleansing.py:12 | `re.sub(r' +', ' ', l)` equals the independent definition `Collapse`: it shrinks every run of spaces to one space and keeps every other character. |
| Lines.CollapseNoDouble | dataCleansing.py:12 | After collapsing, no two spaces stand next to each other. |
| Lines.CollapseKeeps | dataCleansing.py:12 | Collapsing leaves text without double spaces unchanged. |
| Lines.CollapseBlank | dataCleansing.py:12 | The collapsed text is all whitespace exactly when the original is. |
| Lines.CollapseKeepsClass | dataCleansing.py:12 | A character class that holds for a text holds for its collapsed form. |
| Lines.JoinTidy | dataCleansing.py:15 | Joining non-empty, stripped, boundary-free lines with `\n` gives text whose every boundary is a `\n` between non-whitespace characters. |
| Chars.Strip | dataCleansing.py:12 | `strip()` returns the middle of the text. Only whitespace is cut from either end, and the result neither starts nor ends with whitespace. |
| Chars.StripBlank | dataCleansing.py:12 | `line.strip()` is empty exactly when the line is all whitespace. |
| Chars.StripFixed | dataCleansing.py:12 | Text that neither starts nor ends with whitespace is its own strip. |
| PageLines.NoDigitOnlyLine | dataCleansing.py:3-15 | For input whose only line boundary is `\n`, no output line consists of digits alone. |
| PageLines.PassesLeaveNoPage | dataCleansing.py:5-8 | After the two regular-expression passes, no `\n`-separated line of any text is whitespace, digits and whitespace. |
| PageLines.PagePass | dataCleansing.py:5 | The page-number pass `DropPageNumbers` leaves no line that is whitespace, digits and whitespace. |
| PageLines.HeaderPassFrom | dataCleansing.py:8 | The header pass `FormatHeaders` creates no such line in text that has none. |
| PageLines.PageLineMatched | dataCleansing.py:5 | The page-number pattern matches where every such line starts. |
| PageLines.ShapeParts | dataCleansing.py:5 | A line the whitespace-digits-whitespace automaton accepts splits into the parts the page-number pattern matches. |
| PageLines.ReadCollapse | dataCleansing.py:12 | Collapsing runs of spaces does not change how the automaton reads a line. |
| PageLines.CleanLineDigits | dataCleansing.py:12 | Only a line of page-number shape cleans to digits alone. |
| PageLines.SplitLinesNoPage | dataCleansing.py:11 | When `\n` is the only line boundary, `splitlines` yields no page-number-shaped line from text that has none. |
| PageLines.CleanLinesNoDigits | dataCleansing.py:12 | The line pass makes no digits-only line out of lines that are not page numbers. |
| PageLines.PassesKeepPlain | dataCleansing.py:5-8 | Neither pass adds a line boundary other than `\n` to text that has none. |
| Scan.Search | dataCleansing.py:5 | The search returns the first position from `p` at which the pattern matches, and no match means none anywhere from `p`. |
| Scan.FindAll | pdf_extract.py:65 | Every match `findall` (`Scan.Matches`) reports is what the pattern returns at its start. Matches come in order and do not overlap. |
| Scan.FindAllIsLeftmost | pdf_extract.py:65 | The scan's result is a leftmost, non-overlapping sequence of matches. |
| Scan.LeftmostIsFindAll | pdf_extract.py:65 | Any leftmost, non-overlapping sequence of matches is the scan's result, so the description above fixes `findall` uniquely. |
| Scan.FindAllIncreasing | pdf_extract.py:65 | Each match ends before the next one starts, and the starts strictly increase. |
| Scan.SubIsSplice | dataCleansing.py:5 | `re.sub` (`Scan.Sub`) keeps the text between the matches `findall` reports and replaces each match by the expanded template. |
| Scan.SubSplits | dataCleansing.py:5-8 | `re.sub` can be cut at any position no match reaches across: the part before comes out on its own, and the rest as if the scan had started there. |
| Scan.SubKeepsWindow | dataCleansing.py:5-8 | When no match reaches across `lo` and no attempt succeeds in `[lo, hi)`, `re.sub` keeps `s[lo..hi]` between what it makes of the text before and after. |
| Scan.SubReplacesAt | dataCleansing.py:8 | When no match reaches across `lo`, none starts in `[lo, a)` and the pattern hits at `a`, `re.sub` replaces that hit by the expanded template in place. |
| Scan.SubFromHit | dataCleansing.py:5-8 | A scan from a position where the pattern hits replaces the hit and goes on from its end. |
| Scan.SubAtEnd | dataCleansing.py:5-8 | Nothing is left to replace at the end of the text. |
| Scan.SubNoMatch | dataCleansing.py:5 | Where the pattern matches nowhere, the substitution keeps the text. |
| Scan.SubFromKeeps | dataCleansing.py:5-8 | A substitution whose text and template literals are all of one character class yields text of that class. |
| Patterns.MatchAt | dataCleansing.py:5-8 | Every hit is non-empty, lies inside the text and has the pattern's groups inside it. A `(?m)^` pattern hits only at a line start. |
| Patterns.PageHere | dataCleansing.py:5 | A page-number hit is whitespace, at least one digit, whitespace, and ends at a line end. |
| Patterns.PageMatchIsLongest | dataCleansing.py:5 | Whenever the text from `p` to a line end is whitespace, digits and whitespace, the matcher hits. Its hit ends at the furthest such line end. |
| Patterns.SpacesHere | dataCleansing.py:12 | ` +` hits exactly at a space and takes the whole run of spaces. |
| Patterns.HeaderSound | dataCleansing.py:8 | A header hit is at least three `=`, whitespace, a title without `\n`, whitespace and at least three `=`, ending at a line end. The group is the title. |
| Patterns.HeaderComplete | dataCleansing.py:8 | Wherever the text from `p` is at least three `=`, whitespace, a title without `\n`, whitespace and at least three `=` ending at a line end, the header pattern matches at `p`. |
| Patterns.HeaderMatchFound | dataCleansing.py:8 | Any match the declarative header description allows at `p` means the matcher hits at `p`. |
| Headers.HeaderOfTitledLine | dataCleansing.py:8 | On a line `=== m ===`, the header pattern matches the whole line. Its group is exactly `m` stripped, which is what the lazy `(.*?)` takes between the greedy `\s*`. |
| Headers.HeaderOfRule | dataCleansing.py:8 | A line of `=` and nothing else is a header exactly when it holds at least six. The opening `={3,}` gives back all but three `=`, so the group is empty. |
| Patterns.ClassSound | pdf_extract.py:64 | A class hit is `class`, whitespace and word characters. |
| Patterns.ClassTakesLongest | pdf_extract.py:64 | The class hit takes the whole run of whitespace and the whole run of word characters after `class`. |
| Patterns.ClassComplete | pdf_extract.py:64 | Wherever `class`, maximal whitespace and a maximal word stand, the pattern matches them exactly. |
| Patterns.MethodSound | pdf_extract.py:74 | A method hit is `start.` and a maximal run of lower-case letters, or `install(`, text without `)`, and `)`. |
| Patterns.MethodComplete | pdf_extract.py:74 | Wherever one of those two forms stands, the pattern matches it exactly. |
| Patterns.RelationComplete | pdf_extract.py:79 | Wherever word characters, whitespace, `=>`, whitespace and a word not followed by a word character stand from `p`, the pattern matches with the two words as its groups. |
| Tagging.SemanticTagging | pdf_extract.py:56-87 | Each class, method and relationship entry has the form its pattern describes and stands in the text where the scan found it, one entry per match. An attribute is in the result exactly when some row of some table is an attribute row giving it, and there are at most as many attributes as rows. Empty text gives no classes, methods or relationships, and no tables give no attributes. |
| Tagging.Classes | pdf_extract.py:64-65 | Every class entry is `class`, whitespace and word characters. It occurs in the text at its match and is not followed by a word character. |
| Tagging.ClassEntryOf | pdf_extract.py:64-65 | The text the class scan takes at a hit is a class entry that ends a word. |
| Tagging.ClassesInOrder | pdf_extract.py:65 | Class entries come in text order and do not overlap. |
| Tagging.ClassesOfOneEntry | pdf_extract.py:64-65 | A text that is one class entry yields exactly that entry. |
| Tagging.Methods | pdf_extract.py:74-75 | Every method entry is one of the pattern's two forms and occurs in the text at its match. |
| Tagging.MethodEntryOf | pdf_extract.py:74-75 | The text the method scan takes at a hit is a method entry. |
| Tagging.MethodsOfOneEntry | pdf_extract.py:74-75 | A text that is one method entry yields exactly that entry. |
| Tagging.Relationships | pdf_extract.py:79-80 | Every pair has non-empty word-character source and target. The text holds source, optional whitespace, `=>`, optional whitespace and target at the pair's match. |
| Tagging.RelationEntryOf | pdf_extract.py:79-80 | The two groups of a relationship hit form such a pair. |
| Tagging.RelationshipsOfOnePair | pdf_extract.py:79-80 | A text that is exactly one such pair yields exactly that pair. |
| Tagging.ArrowExample | pdf_extract.py:79-80 | `A=>B` gives the single pair `(A, B)`. |
| Tagging.MatchesInOrder | pdf_extract.py:65-80 | For each pattern, `findall` matches do not overlap, and their starts strictly increase. |
| Tagging.NoMatchesInEmpty | pdf_extract.py:65-80 | No pattern of the tagger matches in the empty text. |
| Tagging.RowAttributes | pdf_extract.py:69-71 | There are never more attributes than rows, and as many exactly when every row is an attribute row. Every attribute name is an identifier. |
| Tagging.RowAttributesFrom | pdf_extract.py:69-71 | An attribute is emitted exactly when some row has at least two cells and an identifier in cell 0. It is then that row's first two cells. |
| Tagging.RowAttributesAppend | pdf_extract.py:69-71 | Attributes of two runs of rows come in row order. |
| Tagging.RowAttributeAt | pdf_extract.py:69-71 | The attribute of an attribute row stands right after the attributes of the rows before it. |
| Tagging.AllRows | pdf_extract.py:68-69 | The nested loop visits as many rows as the tables hold together. |
| Tagging.Attributes | pdf_extract.py:68-71 | There are at most as many attributes as rows over all tables, and every name is an identifier. |
| Tagging.AttributesOfAllRows | pdf_extract.py:68-71 | The nested loop over tables and rows is the row filter applied to all rows, table by table. |
| Tagging.AttributesFrom | pdf_extract.py:68-71 | An attribute is emitted exactly when some row of some table is an attribute row giving it. |
| Tagging.EmptyTextFacts | pdf_extract.py:56-87 | Empty text gives no classes, methods or relationships. |

## Left out

- PDF extraction (`pdf_extract.py` lines 22-54): these functions are calls into PyMuPDF and pdfplumber, with nothing to model beyond the library.
- `write_output_to_txt` and `process_pdf`: file output and orchestration.
- `main.py`: a tkinter front end.
- `dataTokenization.py`: a pass-through to NLTK.
- `main` of `dataCleansing.py`: console prompts and file I/O.
- `None` cells: pdfplumber can put `None` in a cell, and `row[0].isidentifier()` would then raise. Cells are modelled as strings, so that error path is not modelled.
- Unicode classes: `\d`, `\w` and `str.isidentifier()` are modelled by their ASCII subsets. `\s` and `str.strip()` use the full set of characters `str.isspace()` accepts. `str.splitlines()` uses the full set of its line boundaries.
- General regular expressions: only the six patterns the two functions use are modelled, each by its own matcher.
- The `dict` that `semantic_tagging` returns and the `{"name", "value"}` dictionaries are modelled as the datatypes `Tags` and `Attribute`.
- Idempotence of `clean_text` is not proved, because it does not hold (see `Cleansing.IndentedHeaderTakesTwoPasses` and `Cleansing.FormFeedTakesTwoPasses`).
- Cleansing.CleanLines: its own contract states only the line-count bound. What it yields is stated by `Cleansing.CleanLinesOne`, `Cleansing.CleanLinesAppend` and `Cleansing.CleanLinesTidy`.
- Cleansing.CleanWithoutMatches: it needs the whole text free of matches of both patterns. A line inside a text that has matches elsewhere is covered by `InContext.UnhitLineKept`.
- Cleansing.CleanTitledLine: it is stated for a text that is that one line. A titled line inside a longer text is covered by `InContext.TitledLineKept`. Its middle part is not empty. A line of `=` only is covered by `Cleansing.CleanRuleLine` instead.
- Cleansing.PassesOnTitledLine: it is stated for a text that is that one line. Inside a longer text, `InContext.HeaderPassOnTitledLine` states the header pass.
- InContext.UnhitLineKept: "not hit by either rule" is stated by sufficient conditions. The line holds a character that is neither whitespace nor a digit, so no page-number match can touch it. It does not start with `=`, so no header match starts on it. No header match from the lines above reaches into it. A line starting with `=` that no header matches is not covered. The line must also lie between `\n`s (or the text's ends) and hold no other `splitlines` boundary (`\r`, `\v`, `\f`, `\x1c`-`\x1e`, `\x85`, `\u2028`, `\u2029`). A line next to such a boundary is not covered, and in a text with `\r\n` line ends that is every line but the last.
- InContext.TitledLineKept: it needs no header match from the lines above to reach into the titled line. `InContext.OpenerTakesTitledLine` shows that without this condition the result differs. It places each kept line on its own. That two kept lines keep their order in the output is not stated as a lemma of its own. The line must also lie between `\n`s (or the text's ends) and hold no other `splitlines` boundary. A `=== m ===` line ending at `\r`, `\f` or another such boundary is not a header in the source, because `$` holds only before `\n`. `Cleansing.BreakEndedTitle` shows such a line kept as it is.
- Cleansing.CleanRuleLine: it is stated for a text that is that one line. Inside a longer text, the `\s*` after the run of `=` may cross the `\n` into the next line and take it into the header, as `InContext.OpenerTakesTitledLine` shows for a `===` line. Lines of three to five `=` are not headers, by `Headers.HeaderOfRule`. What the line pass then makes of them is not stated.
- PageLines.NoDigitOnlyLine: it assumes `\n` is the input's only line boundary. With other boundaries, `Cleansing.FormFeedTakesTwoPasses` shows a digits-only line surviving.
- Tagging.EmptyTextFacts: it covers the empty text only. The empty-tables case is in `Tagging.SemanticTagging`.
