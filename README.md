# Parrot structural editing, text helpers, search index and tabs, in Dafny

This project models the core of Parrot, a small Common Lisp IDE, and proves what it promises.
It covers these parts:

- **Cursor scanners** from `parrot_ui/scripts/utils.js`:
  - the paren tally;
  - the expression before the cursor ("eval last expression");
  - the symbol under the cursor ("find definition");
  - the surrounding top-level form with its position, line and column ("compile form").
- **Path and padding helpers** from `utils.js`.
- **String-aware slurp scanners** from `parrot_ui/scripts/paredit.js`, and the way the editor splices their offsets into the document.
- **Text helpers** from `parrot_rs/src/text.rs`: quote escaping and trimming, quoting, slash wrapping, the context window, offset-to-line lookup and the n-gram tokenizer.
- **The in-memory full-text index** from `parrot_rs/src/fts/index.rs` and `fts/models.rs`: documents, path ids, name posting lists, Lisp file contents, and plain-text search.
- **The two tab-list components** in `parrot_ui/components/EditorTabs.js` and `parrot_ui/components/editor/EditorTabs.js`.

How the source is represented:

- Text is `seq<char>`, and JavaScript `null` or a Rust panic is `Option.None`.
- Loops in the source are methods with `while` loops. Each is proved equal to a declarative function, and that function is characterised by its own lemmas.
- The index and the tab lists update their fields in place, so each is a class with `modifies` clauses and a `Valid()` invariant that every operation preserves.
- Foreign primitives are uninterpreted function fields of `Foreign.Primitives`:
  - the 64-bit hash;
  - Unicode lower-casing;
  - the final path component;
  - the parent folder's name.

Some places where the code and its documentation differ. In each case the model follows the code:

- The `utils.js` scanners do not track string literals. Only the `paredit.js` scanners do.
- `getSymbolUnderOrBeforeCursor` does not extend the symbol into the text after the cursor when that text starts with a blank. For `(foo bar)| baz` it returns the empty string, not `baz`.
- In `getSurroundingTopLevelExpr` the statement meant to reset the line start is a comparison, so it does nothing. The column is therefore counted from index `-1` when there is no newline before the form.
- The line record built by plain-text search carries `to_mark` and `to_mark_ix`. The record type in `fts/models.rs` lacks them; the model uses the fields that `index.rs` builds.

## Model

| member | source | states |
|---|---|---|
| Parens.CountClosedAndOpenedParentheses | parrot_ui/scripts/utils.js:55-70 | the counts are exactly the number of `)` and `(` in the text, string literals included |
| Parens.HasBalancedNumberOfParentheses | parrot_ui/scripts/utils.js:51-54 | true exactly when the text has as many `(` as `)` |
| Parens.CloseThenOpenIsBalanced | parrot_ui/scripts/utils.js:51-54 | `")("` counts as balanced: only counts are compared, not nesting |
| Parens.NetConcat | parrot_ui/scripts/utils.js:55-70 | the paren surplus of a concatenation is the sum of the parts' surpluses |
| Strings.Trim | parrot_ui/scripts/utils.js:106 | `trim` removes the leading and trailing JavaScript whitespace and keeps the middle; it is empty exactly when the text is all whitespace |
| Strings.LastIndexOf | parrot_ui/scripts/utils.js:174-179 | `-1` when the character is absent, otherwise the index of its last occurrence |
| PrecedingExpr.GetPrecedingExpr | parrot_ui/scripts/utils.js:72-107 | the loop returns exactly the declarative preceding expression |
| PrecedingExpr.LastSignificant | parrot_ui/scripts/utils.js:78-93 | the last non-blank character; none exactly when every character is blank |
| PrecedingExpr.LastBalancedOpen | parrot_ui/scripts/utils.js:80-90 | the nearest `(` below the end whose suffix has equal paren counts; none when there is no such `(` |
| PrecedingExpr.AtomStart | parrot_ui/scripts/utils.js:91-102 | the atom starts after the last blank before the end, or at index 0 |
| PrecedingExpr.SpecForm | parrot_ui/scripts/utils.js:80-106 | when the last non-blank is `)`, the result is the trimmed text from the `(` where the backward count first balances |
| PrecedingExpr.SpecAtom | parrot_ui/scripts/utils.js:91-106 | otherwise the result is the trimmed text from the last blank, or from index 0 |
| PrecedingExpr.PrecedingFormIsBalanced | parrot_ui/scripts/utils.js:80-90 | a form result is non-empty, starts with `(` and has equal paren counts |
| PrecedingExpr.BlankTextHasNoExpr | parrot_ui/scripts/utils.js:91-105 | empty or whitespace-only text gives `null` |
| PrecedingExpr.PrecedingExprIsTrimmedSuffix | parrot_ui/scripts/utils.js:72-106 | every non-null result is `trim(text[k..])` for some `k` |
| SymbolScan.SymbolStart | parrot_ui/scripts/utils.js:115-128 | the symbol starts just after the last delimiter of the trimmed text before the cursor, or at 0 |
| SymbolScan.SymbolEnd | parrot_ui/scripts/utils.js:129-141 | the part after the cursor runs up to the first delimiter, or to the end |
| SymbolScan.GetSymbolUnderOrBeforeCursor | parrot_ui/scripts/utils.js:108-145 | `null` exactly when the trimmed text before the cursor is empty; otherwise the suffix of that text, extended by the prefix of the text after the cursor unless `ignoreAfter` holds on the untrimmed text; the result has no delimiter |
| TopLevelForm.LastTopLevelOpenBelow | parrot_ui/scripts/utils.js:153-168 | the nearest `(` before the cursor that is at index 0 or has a count-balanced prefix |
| TopLevelForm.FirstReturnToZero | parrot_ui/scripts/utils.js:187-201 | the first `)` after the cursor where the running count returns to zero |
| TopLevelForm.ScanBackToTopLevelOpen | parrot_ui/scripts/utils.js:149-168 | the backward loop finds that `(` (or `-1`), the net depth from it, and the character and newline distances to the cursor |
| TopLevelForm.ScanForwardToClose | parrot_ui/scripts/utils.js:187-201 | the forward loop returns exactly the first return to zero |
| TopLevelForm.GetSurroundingTopLevelExpr | parrot_ui/scripts/utils.js:147-202 | equals the declarative result: `null` when there is no such `(`, when the depth at the cursor is zero, or when no `)` closes it; otherwise the text, position, line and column (column from `-1` when no newline precedes the form) |
| TopLevelForm.FoundFormIsBalanced | parrot_ui/scripts/utils.js:187-199 | a found form starts with `(`, ends with `)` and has equal paren counts |
| Padding.PadStart | parrot_ui/scripts/utils.js:210-212 | `padStart` leaves a long enough text alone, otherwise fills on the left to the target length |
| Padding.PadEnd | parrot_ui/scripts/utils.js:210-212 | `padEnd` leaves a long enough text alone, otherwise fills on the right to the target length |
| Padding.PadStartEnd | parrot_ui/scripts/utils.js:204-213 | unchanged when `len` is at most the text length; otherwise `ceil(r/2)` pads, the text, and `floor(r/2)` pads, where `r` is `len` minus the text length |
| Padding.PadStartEndCentres | parrot_ui/scripts/utils.js:204-213 | the padded text has length `len` and holds the text in the middle, the front padding at most one longer than the back |
| Paths.NormalizePath | parrot_ui/scripts/utils.js:36-38 | every `\` becomes `/`, nothing else changes |
| Paths.NormalizePathIdempotent | parrot_ui/scripts/utils.js:36-38 | normalising twice is normalising once |
| Paths.NormalizePathConcat | parrot_ui/scripts/utils.js:36-38 | normalisation distributes over concatenation |
| Paths.GetLeafNameWithExtension | parrot_ui/scripts/utils.js:7-9 | the suffix after the last `\`, then after the last `/`, which is the suffix after the last separator of either kind |
| Paths.GetFolderNameFromFile | parrot_ui/scripts/utils.js:18-22 | the normalised path up to and including its last `/` |
| Paths.FolderThenLeafIsPath | parrot_ui/scripts/utils.js:7-22 | folder followed by leaf is the normalised path |
| Paths.ReplaceFileNameInPath | parrot_ui/scripts/utils.js:23-27 | the folder of the path followed by the new name |
| Paths.ReplaceFileNameKeepsFolder | parrot_ui/scripts/utils.js:23-27 | for a name without separators, the new path has that leaf and the old folder |
| Paths.TrimPrefix | parrot_ui/scripts/utils.js:28-35 | the normalised path without the normalised prefix when it starts with it, otherwise the normalised path |
| Paths.TrimPrefixOfJoin | parrot_ui/scripts/utils.js:28-35 | trimming a prefix off `prefix + rest` leaves the normalised rest |
| Paths.JoinPaths | parrot_ui/scripts/utils.js:39-50 | the join as written: a `/` between the parts, one slash dropped only when both sides carry one |
| Paths.JoinPathsDoublesTheSlash | parrot_ui/scripts/utils.js:39-50 | the join as written gives `a//b` for `a/`+`b`, `a`+`/b` and `a/`+`/b` |
| Paths.JoinPathsSingleSlashJoinsOnce | parrot_ui/scripts/utils.js:39-50 | the corrected join puts exactly one `/` between the parts and agrees with the original when neither side has a slash |
| Paths.FileNameIsValidIgnoresCase | parrot_ui/scripts/utils.js:1-6 | validity does not depend on ASCII case, as the case-insensitive device-name regex implies |
| Paths.ValidFileNameIsItsOwnLeaf | parrot_ui/scripts/utils.js:1-9 | a valid file name without `\` is its own leaf name (the first pattern of `fileNameIsValid` rejects `/` but lets `\` through) |
| Paths.ValidFileNameExamples | parrot_ui/scripts/utils.js:1-6 | `core.lisp`, `console.lisp` and `com10` are valid |
| Paths.InvalidFileNameExamples | parrot_ui/scripts/utils.js:1-6 | the empty name, a leading dot, a forbidden character and the device names `CON` and `Lpt1.txt` are rejected |
| ParenLexer.Step | parrot_ui/scripts/paredit.js:20-27 | a `"` toggles the string flag unless preceded by `\`; `(` and `)` move the depth by one, only outside strings |
| ParenLexer.StringAndListExclusive | parrot_ui/scripts/paredit.js:47-63 | no token is both a string literal and a list form |
| SlurpForward.FirstArmIsFirst | parrot_ui/scripts/paredit.js:28-38 | the scan arms at the first `)` outside strings that closes below the cursor's depth |
| SlurpForward.TokenStartIsFirst | parrot_ui/scripts/paredit.js:28-46 | the target starts at the first character after the arm that is neither blank nor `)` |
| SlurpForward.CompletionIsFirst | parrot_ui/scripts/paredit.js:47-63 | the target completes at the first position where the accumulated text is a finished string, list or bare token |
| SlurpForward.LastCloseBeforeToken | parrot_ui/scripts/paredit.js:28-38 | the destination is the last `)` before the target and only blanks lie between them |
| SlurpForward.GetSlurpForwardTarget | parrot_ui/scripts/paredit.js:7-76 | the loop returns exactly the declarative target, computed from the text after the cursor alone |
| SlurpForward.SpecWithoutArm | parrot_ui/scripts/paredit.js:17-75 | no arming `)` gives `null` |
| SlurpForward.SpecWithoutCompletion | parrot_ui/scripts/paredit.js:17-75 | a target that never completes gives `null` |
| SlurpForward.TargetAtFields | parrot_ui/scripts/paredit.js:65-70 | start is `cursorPos + startIx`, end is start plus the token length, destination is `cursorPos + lastSlurpDest` |
| SlurpForward.ForwardTargetShape | parrot_ui/scripts/paredit.js:28-70 | every reported target has `dest < start < end`, a `)` at `dest`, only blanks between them, and a token at `[start, end)` |
| SlurpForward.SlurpForwardExample | parrot_ui/scripts/paredit.js:7-76 | `)baz` after cursor 8 gives start 9, end 12, destination 8; empty text gives `null` |
| SlurpBackward.ArmBelowIsNearest | parrot_ui/scripts/paredit.js:98-105 | the backward scan arms at the nearest `(` outside strings that opens above the cursor's depth |
| SlurpBackward.TokenEndBelowIsNearest | parrot_ui/scripts/paredit.js:98-114 | the target ends at the nearest character below the arm that is neither blank nor `(` |
| SlurpBackward.CompletionBelowIsNearest | parrot_ui/scripts/paredit.js:115-130 | the target completes at the nearest position where the accumulated text is a finished string, list or bare token |
| SlurpBackward.FirstOpenAfterToken | parrot_ui/scripts/paredit.js:98-105 | the destination `(` is the first one after the target and only blanks lie between them |
| SlurpBackward.GetSlurpBackwardTarget | parrot_ui/scripts/paredit.js:77-142 | the loop returns exactly the declarative target, computed from the text before the cursor alone |
| SlurpBackward.SpecWithoutArm | parrot_ui/scripts/paredit.js:87-141 | no arming `(` gives `null` |
| SlurpBackward.SpecWithoutCompletion | parrot_ui/scripts/paredit.js:87-141 | a target that never completes gives `null` |
| SlurpBackward.TargetAtFields | parrot_ui/scripts/paredit.js:132-137 | with `n` the length of the text before the cursor, end is `cursorPos - (n - startIx) + 1`, start is end minus the token length, destination is `cursorPos - (n - lastSlurpDest) + 1` |
| SlurpBackward.BackwardTargetShape | parrot_ui/scripts/paredit.js:98-137 | every reported target has `start < end < dest`, a `(` just left of `dest`, only blanks between, and a token at `[start, end)` |
| SlurpBackward.SlurpBackwardExample | parrot_ui/scripts/paredit.js:77-142 | `a (` at cursor 3 gives start 0, end 1, destination 3; empty text gives `null` |
| EditorSplice.ForwardTargetInDocument | parrot_ui/components/editor/Editor.js:325-333 | with the cursor at the end of the text before it, the forward target lies in `before + after`, after a `)` with only blanks between |
| EditorSplice.BackwardTargetInDocument | parrot_ui/components/editor/Editor.js:349-357 | with the cursor at the end of the text before it, the backward target lies in `before`, before a `(` with only blanks between |
| EditorSplice.SpliceForwardNet | parrot_ui/components/editor/Editor.js:333-345 | the forward edit as written keeps the paren surplus when a blank precedes the target and raises it by one when the target touches the `)`; the corrected edit always keeps it |
| EditorSplice.SpliceBackwardNet | parrot_ui/components/editor/Editor.js:357-369 | the mirror for the backward edit |
| EditorSplice.ForwardSpliceDropsClose | parrot_ui/components/editor/Editor.js:333-345 | the forward edit as written turns the balanced `(foo bar)baz` into the unbalanced `(foo bar baz` |
| EditorSplice.ForwardSlurpKeepsBalance | parrot_ui/components/editor/Editor.js:333-345 | the corrected forward edit keeps the paren surplus and balance and places the target directly before the `)` |
| EditorSplice.ForwardSpliceCorrectedExample | parrot_ui/components/editor/Editor.js:333-345 | the corrected edit turns `(foo bar)baz` into `(foo bar baz)` |
| EditorSplice.BackwardSpliceDropsOpen | parrot_ui/components/editor/Editor.js:357-369 | the backward edit as written turns the balanced `a(b)` into the unbalanced `a b)` |
| EditorSplice.BackwardSlurpKeepsBalance | parrot_ui/components/editor/Editor.js:357-369 | the corrected backward edit keeps the paren surplus and balance and places the target directly after the `(` |
| EditorSplice.BackwardSpliceCorrectedExample | parrot_ui/components/editor/Editor.js:357-369 | the corrected edit turns `a(b)` into `(a b)` |
| TextEscape.EscapeQuotes | parrot_rs/src/text.rs:18-20 | one `\` is added per `"`; text without `"` is unchanged |
| TextEscape.UnescapeEscapeQuotes | parrot_rs/src/text.rs:163-165 | unescaping undoes escaping |
| TextEscape.EscapeForm | parrot_rs/src/text.rs:21-23 | one `\` is added per `"` and per `\` |
| TextEscape.UnescapeEscapeForm | parrot_rs/src/text.rs:21-23 | escaping a form is undone by the matching unescape |
| TextEscape.EscapeFormWithoutBackslash | parrot_rs/src/text.rs:18-23 | without backslashes, escaping a form is escaping quotes |
| TextEscape.TrimQuotes | parrot_rs/src/text.rs:134-142 | removes at most one leading and one trailing `"` and leaves the rest intact; a quoted text gives its inside |
| TextEscape.TrimEscapedQuotes | parrot_rs/src/text.rs:143-153 | the same for a leading and trailing `\"` |
| TextEscape.TrimParens | parrot_rs/src/text.rs:154-162 | the same for a leading `(` and a trailing `)` |
| TextEscape.Quote | parrot_rs/src/text.rs:166-174 | a text starting with `#'` or `'` is returned as is, any other gets a `'` in front |
| TextEscape.QuoteIdempotent | parrot_rs/src/text.rs:166-174 | quoting twice is quoting once |
| TextEscape.TrimQuoteOp | parrot_rs/src/text.rs:118-132 | as written: two characters are dropped from any text starting with `#'` or `'`, other texts are unchanged |
| TextEscape.TrimQuoteOpDropsQuotedChar | parrot_rs/src/text.rs:118-132 | as written, removing the quote operator from `'foo` gives `oo` |
| TextEscape.TrimQuoteOpCorrectedUndoesQuote | parrot_rs/src/text.rs:118-132 | the corrected removal undoes `quote` on any unquoted text, and `quote` undoes it on a `'`-quoted one |
| TextEscape.AddLeadingAndTrailingSlash | parrot_rs/src/text.rs:175-191 | the result starts and ends with a separator, uses `\` exactly when the input does, keeps the text in between, adds a trailing separator exactly when the text with its leading one does not already end in one (so its length is fixed), maps `""` to `/` and leaves an already wrapped text unchanged |
| TextContext.ContextWindowStart | parrot_rs/src/text.rs:85-111 | the window starts at or before the position and ends inside the text |
| TextContext.GetSurroundingContext | parrot_rs/src/text.rs:85-111 | the context is the slice of the text starting at `s <= p` whose length is `min(2w, n)` for a text of length `n`; a position at least `w` from both ends gets the centred window |
| TextContext.Lines | parrot_rs/src/text.rs:73-84 | the `\n`-inclusive lines concatenate back to the text |
| TextContext.LinesShape | parrot_rs/src/text.rs:73-84 | every line is non-empty, every line but the last ends with `\n`, and no line has another `\n` |
| TextContext.GetLineFromByteOffset | parrot_rs/src/text.rs:73-84 | `None` (the panic) exactly for empty text or an offset past the end; otherwise the first line whose end reaches the offset, that line, and the column with tabs counted as four |
| TextContext.ColumnCountsTabs | parrot_rs/src/text.rs:73-84 | the column is the prefix length plus three per tab |
| Ngram.CharWindows | parrot_rs/src/text.rs:197-204 | the `k`-character windows of a text, one per start position, none for a shorter text |
| Ngram.SplitShape | parrot_rs/src/text.rs:10 | splitting at token separators gives one more piece than there are separators, and no piece holds a separator |
| Ngram.NgramTokenizeLowercase | parrot_rs/src/text.rs:42-53 | the loop returns the hash of every `n`-window of every piece of the lower-cased text, in order |
| Ngram.NgramsLength | parrot_rs/src/text.rs:42-53 | the number of n-grams is the sum over pieces of `max(0, m - n + 1)` for a piece of length `m` |
| Ngram.NgramIsWindowHash | parrot_rs/src/text.rs:42-53 | every n-gram is the hash of some window of some piece |
| Ngram.NgramsOfTest | parrot_rs/src/text.rs:42-53 | `test` has 3 bigrams and 2 trigrams |
| Ngram.NgramsOfResEs | parrot_rs/src/text.rs:42-53 | `res es` has 3 bigrams |
| Ngram.NgramsOfShortPieces | parrot_rs/src/text.rs:42-53 | ` 12 12 ` has no trigrams |
| Ngram.NgramsOfUmlauts | parrot_rs/src/text.rs:42-53 | `öäü` has 3 unigrams, counted in characters |
| FtsModels.NewDocument | parrot_rs/src/fts/models.rs:22-38 | `None` exactly when the path has no final component; otherwise the path verbatim, the lower-cased name, the term frequencies and the name n-grams |
| FtsModels.TermFreqCountsTokens | parrot_rs/src/fts/models.rs:39-44 | the term frequency of a token is its number of occurrences, zero when absent |
| FtsModels.TokenIsInNameOfFileName | parrot_rs/src/fts/models.rs:45-47 | a token is in the name exactly when it is an n-gram of the path's final component |
| FtsIndex.WithoutKeepsTheRest | parrot_rs/src/fts/index.rs:112-123 | filtering an id out of a list removes every copy and keeps every other element, in order |
| FtsIndex.StripPostings | parrot_rs/src/fts/index.rs:112-123 | the id is filtered out of every posting list and lists left empty are dropped |
| FtsIndex.StripPostingsOnlyRemovesId | parrot_rs/src/fts/index.rs:112-123 | after stripping, no list holds the id, each is a subsequence of the old list, and other ids keep their counts |
| FtsIndex.TwoPassStrip | parrot_rs/src/fts/index.rs:112-123 | filtering every list and then dropping empty lists is the one-pass strip |
| FtsIndex.AddPostings | parrot_rs/src/fts/index.rs:146-151 | the loop appends the id to the posting list of each distinct token |
| FtsIndex.WithPostingsAppendsOnce | parrot_rs/src/fts/index.rs:146-151 | each distinct token's list gains the id exactly once at its end; other lists are unchanged |
| FtsIndex.RemovalKeepsValid | parrot_rs/src/fts/index.rs:110-125 | removing a document keeps the index consistent |
| FtsIndex.AddingKeepsValid | parrot_rs/src/fts/index.rs:127-153 | adding a document under a fresh id keeps the index consistent |
| FtsIndex.MovingKeepsValid | parrot_rs/src/fts/index.rs:57-79 | re-pathing a document keeps the index consistent |
| FtsIndex.Index.constructor | parrot_rs/src/fts/index.rs:34-42 | a new index is empty and consistent |
| FtsIndex.Index.GetDocument | parrot_rs/src/fts/index.rs:404-414 | finds the first document in iteration order with the path, `None` exactly when there is none |
| FtsIndex.Index.UnusedDocId | parrot_rs/src/fts/index.rs:334-337 | the largest id plus one, which is no existing id; `None` (the panic) for an empty index or at the largest id |
| FtsIndex.Index.DocumentFrequency | parrot_rs/src/fts/index.rs:393-398 | zero for a token without a posting list |
| FtsIndex.Index.DocumentFrequencyCountsDocuments | parrot_rs/src/fts/index.rs:393-398 | the frequency is the number of documents listed for the token, and positive exactly when it has a list |
| FtsIndex.Index.RemoveDocument | parrot_rs/src/fts/index.rs:110-125 | returns the document and leaves no trace of its id in any map; the rest is kept |
| FtsIndex.Index.RemoveDocumentIfExisting | parrot_rs/src/fts/index.rs:101-109 | removes the document with the path, or changes nothing and returns `None` when there is none |
| FtsIndex.Index.AddDocument | parrot_rs/src/fts/index.rs:127-153 | stores a document for the path under a fresh id, maps the path to it, posts it once per distinct name token and stores the content only for Lisp files |
| FtsIndex.Index.HandleFilePathChange | parrot_rs/src/fts/index.rs:57-79 | keeps the id, replaces the document by one for the new path, moves the path key and strips the id from the name postings without re-adding; an unknown path changes nothing |
| FtsIndex.Index.SearchSourceFiles | parrot_rs/src/fts/index.rs:270-325 | an exact-case non-empty query gives `None` exactly when some document the loop reaches before `limit` records are collected has a hit and no file name or folder name (a file directly under the root has no folder name), so it gives a result whenever every listed document has both; on a result `match_count <= limit`, `too_many_results == (match_count >= limit)`, `file_match_count` is the number of groups, the match count totals the groups, and each group reports its file's matches |
| FtsSearch.MatchIndices | parrot_rs/src/fts/index.rs:288 | every index is an occurrence of the query, the first is the leftmost one, and there are none exactly when the text does not contain the query |
| FtsSearch.MatchIndicesSpaced | parrot_rs/src/fts/index.rs:288 | the occurrences of a non-empty query run from left to right without overlapping: each ends at or before the next starts |
| FtsSearch.HitForIsHit | parrot_rs/src/fts/index.rs:287-298 | the line record of a match is the unique one meeting its description, with `to_mark_ix` a natural number |
| FtsSearch.HitAt | parrot_rs/src/fts/index.rs:287-298 | builds that record, `None` exactly where the line lookup panics |
| FtsSearch.CollectHits | parrot_rs/src/fts/index.rs:286-302 | the records of the first matches up to the budget, in order |
| FtsSearch.SearchFile | parrot_rs/src/fts/index.rs:284-318 | no group for a file without the query; otherwise a group holding its first matches up to the budget |
| FtsSearch.HitDocsMembers | parrot_rs/src/fts/index.rs:276-285 | the files with hits are exactly the visited files whose content contains the query |
| FtsSearch.RootLevelHitAborts | parrot_rs/src/fts/index.rs:308-315 | as written, searching `foo.lisp` holding `abc` for `a` aborts, because the root-level file has no folder name |
| FtsSearch.RootLevelHitReported | parrot_rs/src/fts/index.rs:306-318 | with the empty folder name for a root-level file, the same search reports one group with one match |
| FtsSearch.SearchDocs | parrot_rs/src/fts/index.rs:270-325 | the search over any iteration order, as for `SearchSourceFiles`: for an exact-case non-empty query `None` exactly when some document reached before `limit` records has a hit and no label; with `rootAsEmpty` a document without a folder name is labelled with the empty name and no longer aborts the search |
| FtsSearch.SearchLoop | parrot_rs/src/fts/index.rs:276-323 | the loop stops at the end of the order or at `limit` records with the groups, count and documents reported so far, or aborts where the step-by-step run of the loop reaches an unlabelled hit |
| FtsSearch.AbortsFromReached | parrot_rs/src/fts/index.rs:276-303 | run on from any document with the records of the documents before it (capped at `limit`), the loop aborts exactly when some document from there on, reached while fewer than `limit` records are collected, has a hit and no label |
| FtsSearch.AbortsFromStart | parrot_rs/src/fts/index.rs:276-315 | the loop started on the first document aborts exactly when some document it reaches has a hit and cannot be labelled |
| TabsPlain.OpenedShape | parrot_ui/components/EditorTabs.js:24-32 | opening appends the file only if absent and keeps the order of the rest |
| TabsPlain.OpenedIdempotent | parrot_ui/components/EditorTabs.js:24-32 | opening twice is opening once |
| TabsPlain.RemoveFirstSplices | parrot_ui/components/EditorTabs.js:52-57 | removal deletes the first occurrence and keeps the order of the rest |
| TabsPlain.RemoveFirstAbsent | parrot_ui/components/EditorTabs.js:52-57 | removing an absent file changes nothing |
| TabsPlain.RemoveFirstMultiset | parrot_ui/components/EditorTabs.js:52-57 | removal takes exactly one copy of the file out |
| TabsPlain.RemoveUndoesOpen | parrot_ui/components/EditorTabs.js:24-57 | removing a newly opened file restores the list |
| TabsPlain.OpenKeepsValid | parrot_ui/components/EditorTabs.js:24-32 | opening keeps the tabs duplicate-free with the active tab among them |
| TabsPlain.RemoveKeepsValid | parrot_ui/components/EditorTabs.js:52-67 | removal keeps that invariant, and the removed file is no longer active |
| TabsPlain.EditorTabs.Open | parrot_ui/components/EditorTabs.js:24-32 | the tabs become the opened list and the file becomes active |
| TabsPlain.EditorTabs.OpenAtPosition | parrot_ui/components/EditorTabs.js:33-43 | the same list and active update as `open` |
| TabsPlain.EditorTabs.Remove | parrot_ui/components/EditorTabs.js:52-67 | the first occurrence is removed; an active removed file hands over to the first tab, or to none |
| TabsPlain.EditorTabs.SetActive | parrot_ui/components/EditorTabs.js:68-72 | the file becomes active and the tabs are unchanged |
| TabsNormalized.AnyNormalizesToMeans | parrot_ui/components/editor/EditorTabs.js:119-124 | some open tab normalises to the path exactly when one index does |
| TabsNormalized.NormalTabsMatchExactly | parrot_ui/components/editor/EditorTabs.js:119-124 | with normalised tabs and query, the check is plain membership |
| TabsNormalized.OpenNormalizedKeepsValid | parrot_ui/components/editor/EditorTabs.js:26-43 | opening keeps normalised, duplicate-free tabs with the active one among them |
| TabsNormalized.OpenNormalizedOnce | parrot_ui/components/editor/EditorTabs.js:26-43 | opening two paths that normalise alike opens one tab |
| TabsNormalized.RemoveKeepsNormal | parrot_ui/components/editor/EditorTabs.js:93-108 | removal keeps that invariant |
| TabsNormalized.EditorTabs.HasAlreadyOpened | parrot_ui/components/editor/EditorTabs.js:119-124 | true exactly when some tab and the path are equal once `\` is replaced by `/` on both sides |
| TabsNormalized.EditorTabs.Open | parrot_ui/components/editor/EditorTabs.js:26-43 | nothing changes when the file does not exist; otherwise the normalised path is appended unless already open and becomes active |
| TabsNormalized.EditorTabs.OpenAtLineAndCol | parrot_ui/components/editor/EditorTabs.js:44-63 | the same state change as `open` |
| TabsNormalized.EditorTabs.OpenAtPosition | parrot_ui/components/editor/EditorTabs.js:64-84 | the same state change as `open` |
| TabsNormalized.EditorTabs.Remove | parrot_ui/components/editor/EditorTabs.js:93-108 | the first exact occurrence is removed; an active removed file hands over to the first tab, or to none |
| TabsNormalized.EditorTabs.CloseActiveEditor | parrot_ui/components/editor/EditorTabs.js:109-113 | nothing when no tab is active, otherwise `remove` of the active tab, which then is no longer open |
| TabsNormalized.EditorTabs.SetActive | parrot_ui/components/editor/EditorTabs.js:114-118 | the file becomes active and the tabs are unchanged |

## Left out

- File reads, `to_rel_path`, `is_lisp_file`, the editor's file-existence query and cursor moves are inputs of the model: file contents and the Lisp flag are parameters, and existence is a boolean.
- The 64-bit hash (`u64_hash`), Unicode `to_lowercase`, `Path::file_name` and the parent folder's name (`Path::parent` then `Path::file_name`) are uninterpreted functions in `Foreign.Primitives`. Properties that depend on their values are stated for any such functions.
- The order of `HashMap` iteration in search is an arbitrary listing of the content keys, given as a parameter. Results hold for every order.
- The regex branch of `search_source_files` (a foreign regex engine), `rank_tf_idf` and `inverse_document_frequency` (floating point), `build`, `handle_file_content_write`, `handle_dir_rename` and `handle_files_deletion` (file system walks) are not modelled.
- The display fields of a search group (`file_name`, `folder_name`, `path_to_file`) come from `Path` operations on the stored path. The model records the stored path only, and models the aborts of the `unwrap` calls on the file name and the folder name. The `unwrap` of `root_folder` in `path_to_file` is not modelled: the model has no root folder field, and the search runs after the index is built.
- `getLeafNameWithoutExtension`, `tokenize_lowercase`, `tokenize_lowercase_unique` and `ngram_tokenize_lowercase_unique` are not modelled; none of them is used by the modelled operations.
- Byte offsets in `text.rs` are counted as characters (one byte per character).
- JavaScript lengths and offsets count UTF-16 code units; the model counts characters, so positions in the cursor scanners, the slurp scanners, the splices, `lastIndexOf` and padding differ for text with characters outside the Basic Multilingual Plane.
- Ngram.NgramTokenizeLowercase: requires `n >= 1`. For `n == 0`, `win_size - 1` underflows in `char_windows`; the index always passes 3.
- FtsIndex.Index.UnusedDocId: the panic on an empty index and the `u32` overflow at the largest id are both modelled as `None` instead of an abort or a wrap-around.
- Rust panics elsewhere (`unwrap` on a missing document, a failed line lookup, a missing file or folder name in search) are `None` or a `Panicked` outcome.
- TabsPlain.EditorTabs.SetActive and TabsNormalized.EditorTabs.SetActive: keep the tab invariant only when the file is an open tab, which is how the rendered tabs call them.
- The Preact rendering of both tab components, the editor's CodeMirror dispatch and notifications are not modelled. The splice of slurp targets is modelled as a function on the document text.

## Findings

| source | as written | input that shows it | evidently intended | confidence | as-written member | corrected member |
|---|---|---|---|---|---|---|
| parrot_ui/scripts/utils.js:39-50 | a slash is dropped only when both parts carry one, so a join where exactly one side has a slash keeps it and adds another | `joinPaths("a/", "b")` gives `a//b` | exactly one `/` between the parts | not executed | Paths.JoinPathsDoublesTheSlash | Paths.JoinPathsSingleSlashJoinsOnce |
| parrot_rs/src/text.rs:118-132 | after a lone `'` two characters are removed, as after `#'` | `trim_quote_op("'foo")` gives `oo` | only the one-character `'` is removed, undoing `quote` | not executed | TextEscape.TrimQuoteOpDropsQuotedChar | TextEscape.TrimQuoteOpCorrectedUndoesQuote |
| parrot_rs/src/fts/index.rs:308-315 | the group's `folder_name` unwraps the file name of the stored path's parent, which a file directly under the root does not have | one document `foo.lisp` holding `abc`, query `a`, case kept: the search aborts | a root-level file is shown under an empty folder name and the search reports it | not executed | FtsSearch.RootLevelHitAborts | FtsSearch.RootLevelHitReported |
| parrot_ui/components/editor/Editor.js:333-345 | the forward slurp deletes the character before the target even when it is the destination `)` | document `(foo bar)baz`, cursor after `bar`, gives `(foo bar baz` | the `)` is kept and the target moves inside: `(foo bar baz)` | not executed | EditorSplice.ForwardSpliceDropsClose | EditorSplice.ForwardSlurpKeepsBalance |
| parrot_ui/components/editor/Editor.js:357-369 | the backward slurp deletes the character after the target even when it is the destination `(` | document `a(b)`, cursor after `(`, gives `a b)` | the `(` is kept and the target moves inside: `(a b)` | not executed | EditorSplice.BackwardSpliceDropsOpen | EditorSplice.BackwardSlurpKeepsBalance |
