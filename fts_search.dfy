/**
  The pieces of the plain-text content search: where a query occurs in a text
  (`str::match_indices`), and the record reported for one occurrence, built from the line that
  holds it and a window of context around its column.
 */
module FtsSearch {
  import opened Wrappers
  import opened Foreign
  import opened TextContext
  import opened FtsModels

  /** Characters of context on either side of a hit's column. */
  const ContextWidth: nat := 20

  /** `q` occurs in `s` at `i`. */
  predicate Occurs(s: seq<char>, q: seq<char>, i: nat)
  {
    i + |q| <= |s| && s[i..i + |q|] == q
  }

  /** `str::contains`. */
  predicate Contains(s: seq<char>, q: seq<char>)
  {
    exists i :: 0 <= i <= |s| && Occurs(s, q, i)
  }

  /** The text searched: lower-cased with the primitive when the case is ignored. */
  function Searched(p: Primitives, ignoreCase: bool, s: seq<char>): seq<char>
  {
    if ignoreCase then p.lower(s) else s
  }

  /** The leftmost non-overlapping occurrences of a non-empty `q` in `s` from `i` on. */
  function MatchesFrom(s: seq<char>, q: seq<char>, i: nat): (ms: seq<nat>)
    requires q != [] && i <= |s|
    ensures forall m :: 0 <= m < |ms| ==> i <= ms[m] && Occurs(s, q, ms[m])
    ensures ms == [] ==> forall j :: i <= j <= |s| ==> !Occurs(s, q, j)
    ensures ms != [] ==> forall j :: i <= j < ms[0] ==> !Occurs(s, q, j)
    decreases |s| - i
  {
    if i + |q| > |s| then []
    else if s[i..i + |q|] == q then
      var rest := MatchesFrom(s, q, i + |q|);
      assert forall m :: 0 < m < |[i] + rest| ==> ([i] + rest)[m] == rest[m - 1];
      [i] + rest
    else
      assert !Occurs(s, q, i);
      MatchesFrom(s, q, i + 1)
  }

  /** The occurrences `MatchesFrom` collects do not overlap: each ends at or before the next. */
  lemma {:induction false} MatchesFromSpaced(s: seq<char>, q: seq<char>, i: nat)
    requires q != [] && i <= |s|
    ensures forall m, m' :: 0 <= m < m' < |MatchesFrom(s, q, i)| ==>
      MatchesFrom(s, q, i)[m] + |q| <= MatchesFrom(s, q, i)[m']
    decreases |s| - i
  {
    if i + |q| > |s| {
    } else if s[i..i + |q|] == q {
      var rest := MatchesFrom(s, q, i + |q|);
      MatchesFromSpaced(s, q, i + |q|);
      var ms := [i] + rest;
      assert MatchesFrom(s, q, i) == ms;
      assert forall m :: 0 < m < |ms| ==> ms[m] == rest[m - 1];
    } else {
      MatchesFromSpaced(s, q, i + 1);
    }
  }

  /** `str::match_indices`: for a non-empty query its leftmost non-overlapping occurrences;
      the empty query matches at every position, the end included. */
  function MatchIndices(s: seq<char>, q: seq<char>): (ms: seq<nat>)
    ensures forall m :: 0 <= m < |ms| ==> Occurs(s, q, ms[m])
    ensures ms == [] <==> !Contains(s, q)
    ensures q == [] ==> |ms| == |s| + 1
  {
    if q == [] then
      assert Occurs(s, q, 0);
      seq(|s| + 1, i requires 0 <= i <= |s| => i)
    else
      var ms := MatchesFrom(s, q, 0);
      assert ms != [] ==> Occurs(s, q, ms[0]);
      ms
  }

  /** The occurrences of a non-empty query run from left to right and do not overlap. */
  lemma MatchIndicesSpaced(s: seq<char>, q: seq<char>)
    requires q != []
    ensures forall m, m' :: 0 <= m < m' < |MatchIndices(s, q)| ==>
      MatchIndices(s, q)[m] + |q| <= MatchIndices(s, q)[m']
  {
    MatchesFromSpaced(s, q, 0);
  }

  /** One reported occurrence, as the search builds it: line index, context window, column,
      the text to highlight and its index in the window. */
  datatype LineResult = LineResult(line: nat, context: seq<char>, col: nat, toMark: seq<char>, toMarkIx: nat)

  /** The context window `get_surrounding_context` cuts from `line` around `col`. */
  function WindowOf(line: seq<char>, col: nat): seq<char>
  {
    var s := ContextWindowStart(|line|, col, ContextWidth);
    line[s..s + Min(2 * ContextWidth, |line|)]
  }

  /** `h` reports the occurrence of `q` at offset `off` of `text`: the line `off` is in, the
      column of `off` in it with tabs widened, the context window around that column, and the
      column relative to the window, which starts at or before it. */
  predicate IsHit(text: seq<char>, off: nat, q: seq<char>, h: LineResult)
  {
    && HoldsOffset(Lines(text), h.line, off)
    && h.col == ColumnOf(Lines(text), h.line, off)
    && h.context == WindowOf(Lines(text)[h.line], h.col)
    && ContextWindowStart(|Lines(text)[h.line]|, h.col, ContextWidth) + h.toMarkIx == h.col
    && h.toMark == q
  }

  /** Where `get_line_from_byte_offset` panics. */
  predicate Panics(text: seq<char>, off: nat)
  {
    text == [] || off > |text|
  }

  /** Index of the first line whose end is at or after `o`; `|ls|` when there is none. */
  function LocateLine(ls: seq<seq<char>>, o: nat): (ix: nat)
    ensures ix <= |ls|
  {
    if ls == [] then 0
    else if o <= |ls[0]| then 0
    else 1 + LocateLine(ls[1..], o - |ls[0]|)
  }

  lemma LineStartTail(ls: seq<seq<char>>, k: nat)
    requires k < |ls|
    ensures LineStart(ls, k + 1) == |ls[0]| + LineStart(ls[1..], k)
  {
    assert ls[..k + 1] == [ls[0]] + ls[1..][..k];
    assert ls[..k + 1][1..] == ls[1..][..k];
  }

  /** Within the text, the line found holds `o` as `get_line_from_byte_offset` requires. */
  lemma {:induction false} LocateLineHoldsOffset(ls: seq<seq<char>>, o: nat)
    requires ls != [] && o <= |Concat(ls)|
    ensures HoldsOffset(ls, LocateLine(ls, o), o)
  {
    if o > |ls[0]| {
      var rest, o' := ls[1..], o - |ls[0]|;
      ConcatLengthTail(ls);
      LocateLineHoldsOffset(rest, o');
      var k := LocateLine(rest, o');
      assert LocateLine(ls, o) == k + 1;
      HoldsOffsetTail(ls, o, k);
    } else {
      HoldsOffsetFirst(ls, o);
      assert LocateLine(ls, o) == 0;
    }
  }

  /** The text of all lines is as long as the first line and the text of the rest together. */
  lemma ConcatLengthTail(ls: seq<seq<char>>)
    requires ls != []
    ensures |Concat(ls)| == |ls[0]| + |Concat(ls[1..])|
    ensures ls[1..] == [] ==> Concat(ls[1..]) == []
  {
  }

  /** An offset within the first line is held by it. */
  lemma HoldsOffsetFirst(ls: seq<seq<char>>, o: nat)
    requires ls != [] && o <= |ls[0]|
    ensures HoldsOffset(ls, 0, o)
  {
    assert ls[..0] == [];
  }

  /** A line holding an offset past the first line holds it in the whole list, one further on. */
  lemma HoldsOffsetTail(ls: seq<seq<char>>, o: nat, k: nat)
    requires ls != [] && o > |ls[0]|
    requires HoldsOffset(ls[1..], k, o - |ls[0]|)
    ensures HoldsOffset(ls, k + 1, o)
  {
    LineStartTail(ls, k);
    assert ls[1..][k] == ls[k + 1];
    if k == 0 {
      assert ls[1..][..0] == [];
    }
  }

  /** The record for the occurrence of `q` at `off`, as a function of the text. */
  function HitFor(text: seq<char>, off: nat, q: seq<char>): LineResult
    requires !Panics(text, off)
  {
    LocateLineHoldsOffset(Lines(text), off);
    var ix := LocateLine(Lines(text), off);
    var col := ColumnOf(Lines(text), ix, off);
    LineResult(ix, WindowOf(Lines(text)[ix], col), col, q, col - ContextWindowStart(|Lines(text)[ix]|, col, ContextWidth))
  }

  /** The record `HitFor` builds is the one `IsHit` describes, and no other record is. */
  lemma HitForIsHit(text: seq<char>, off: nat, q: seq<char>, h: LineResult)
    requires !Panics(text, off)
    ensures IsHit(text, off, q, HitFor(text, off, q))
    ensures IsHit(text, off, q, h) ==> h == HitFor(text, off, q)
  {
    LocateLineHoldsOffset(Lines(text), off);
    if IsHit(text, off, q, h) {
      SameLine(Lines(text), h.line, LocateLine(Lines(text), off), off);
    }
  }

  /** The record for the occurrence at `off`; `None` where locating its line panics. */
  method HitAt(text: seq<char>, off: nat, q: seq<char>) returns (h: Option<LineResult>)
    ensures h.None? <==> Panics(text, off)
    ensures h.Some? ==> !Panics(text, off) && h.value == HitFor(text, off, q)
  {
    var lp := GetLineFromByteOffset(text, off);
    if lp.None? {
      return None;
    }
    LocateLineHoldsOffset(Lines(text), off);
    SameLine(Lines(text), lp.value.ix, LocateLine(Lines(text), off), off);
    var c := GetSurroundingContext(lp.value.line, lp.value.col, ContextWidth);
    return Some(LineResult(lp.value.ix, c.ctx, lp.value.col, q, lp.value.col - c.offset));
  }

  lemma {:induction false} LineStartMonotone(ls: seq<seq<char>>, j: nat, k: nat)
    requires j <= k <= |ls|
    ensures LineStart(ls, j) <= LineStart(ls, k)
    decreases k - j
  {
    if j < k {
      LineStartStep(ls, j);
      LineStartMonotone(ls, j + 1, k);
    }
  }

  /** At most one line holds an offset in the sense of `get_line_from_byte_offset`. */
  lemma SameLine(ls: seq<seq<char>>, a: nat, b: nat, off: nat)
    requires HoldsOffset(ls, a, off) && HoldsOffset(ls, b, off)
    ensures a == b
  {
    if a < b {
      LineStartStep(ls, a);
      LineStartMonotone(ls, a + 1, b);
    } else if b < a {
      LineStartStep(ls, b);
      LineStartMonotone(ls, b + 1, a);
    }
  }

  /** The records for the occurrences at `offs`, in order. */
  function HitsFor(text: seq<char>, offs: seq<nat>, q: seq<char>): (hs: seq<LineResult>)
    requires forall m :: 0 <= m < |offs| ==> !Panics(text, offs[m])
    ensures |hs| == |offs|
  {
    if offs == [] then []
    else HitsFor(text, offs[..|offs| - 1], q) + [HitFor(text, offs[|offs| - 1], q)]
  }

  lemma HitsForStep(text: seq<char>, offs: seq<nat>, k: nat, q: seq<char>)
    requires k < |offs| && forall m :: 0 <= m <= k ==> !Panics(text, offs[m])
    ensures HitsFor(text, offs[..k + 1], q) == HitsFor(text, offs[..k], q) + [HitFor(text, offs[k], q)]
  {
    assert offs[..k + 1][..k] == offs[..k];
  }

  /** The inner loop of the search over the occurrences `ms` of one document: a record per
      occurrence until `budget` records are collected (the source breaks once the total count
      reaches the limit, and enters the loop only below it). */
  method CollectHits(text: seq<char>, ms: seq<nat>, q: seq<char>, budget: nat) returns (found: Option<seq<LineResult>>)
    requires budget >= 1
    ensures found.None? <==> exists m :: 0 <= m < Min(|ms|, budget) && Panics(text, ms[m])
    ensures found.Some? ==>
      && (forall m :: 0 <= m < Min(|ms|, budget) ==> !Panics(text, ms[m]))
      && found.value == HitsFor(text, ms[..Min(|ms|, budget)], q)
  {
    var hits: seq<LineResult> := [];
    var j := 0;
    ghost var n := Min(|ms|, budget);
    while j < |ms|
      invariant 0 <= j <= |ms| && j < budget && j <= n
      invariant forall m :: 0 <= m < j ==> !Panics(text, ms[m])
      invariant hits == HitsFor(text, ms[..j], q)
    {
      var h := HitAt(text, ms[j], q);
      if h.None? {
        assert j < n && Panics(text, ms[j]);
        return None;
      }
      HitsForStep(text, ms, j, q);
      hits := hits + [h.value];
      j := j + 1;
      if j >= budget {
        assert j == n;
        return Some(hits);
      }
    }
    assert j == n;
    return Some(hits);
  }

  /** The search's record for a file: the stored path and the occurrences found in it. */
  datatype FileGroup = FileGroup(path: seq<char>, matches: seq<LineResult>)

  datatype SearchResult = SearchResult(results: seq<FileGroup>, tooManyResults: bool, matchCount: nat, fileMatchCount: nat)

  function TotalMatches(gs: seq<FileGroup>): nat
  {
    if gs == [] then 0 else TotalMatches(gs[..|gs| - 1]) + |gs[|gs| - 1].matches|
  }

  /** `g` reports the file at `path`, whose stored text is `text` and searched text `searched`:
      at least one record, one per occurrence of `q` in the searched text, the first ones in
      order. */
  predicate ReportsFile(g: FileGroup, path: seq<char>, text: seq<char>, searched: seq<char>, q: seq<char>)
  {
    && g.path == path
    && 1 <= |g.matches| <= |MatchIndices(searched, q)|
    && (forall m :: 0 <= m < |g.matches| ==> !Panics(text, MatchIndices(searched, q)[m]))
    && g.matches == HitsFor(text, MatchIndices(searched, q)[..|g.matches|], q)
  }

  /** What searching one file gives: a panic, no occurrence, or the file's group. */
  datatype FileOutcome = Panicked | NoMatch | Found(group: FileGroup)

  /** The body of the search loop for one file: if its searched text contains the query, the
      records of at most `budget` occurrences, grouped under the file's path. */
  method SearchFile(text: seq<char>, searched: seq<char>, path: seq<char>, q: seq<char>, budget: nat) returns (o: FileOutcome)
    requires budget >= 1
    ensures o.NoMatch? <==> !Contains(searched, q)
    ensures o.Panicked? ==>
      exists m :: 0 <= m < |MatchIndices(searched, q)| && Panics(text, MatchIndices(searched, q)[m])
    ensures o.Found? ==>
      && ReportsFile(o.group, path, text, searched, q)
      && |o.group.matches| == Min(|MatchIndices(searched, q)|, budget)
  {
    if !Contains(searched, q) {
      return NoMatch;
    }
    var ms := MatchIndices(searched, q);
    var found := CollectHits(text, ms, q, budget);
    if found.None? {
      return Panicked;
    }
    return Found(FileGroup(path, found.value));
  }

  lemma TotalMatchesStep(gs: seq<FileGroup>, g: FileGroup)
    ensures TotalMatches(gs + [g]) == TotalMatches(gs) + |g.matches|
  {
    assert (gs + [g])[..|gs|] == gs;
  }

  /** For an exact, non-empty query every occurrence lies inside the text, so locating its line
      never panics. */
  lemma OccurrencesInsideText(text: seq<char>, q: seq<char>)
    requires q != []
    ensures forall m :: 0 <= m < |MatchIndices(text, q)| ==> !Panics(text, MatchIndices(text, q)[m])
  {
  }

  /** The ids among the first `n` of `order` whose searched content contains `q`, in order. */
  function HitDocs(p: Primitives, ignoreCase: bool, q: seq<char>, order: seq<DocId>, n: nat,
                   contents: map<DocId, seq<char>>): seq<DocId>
    requires n <= |order| && forall k :: k in order ==> k in contents
  {
    if n == 0 then []
    else
      HitDocs(p, ignoreCase, q, order, n - 1, contents)
        + (if Contains(Searched(p, ignoreCase, contents[order[n - 1]]), q) then [order[n - 1]] else [])
  }

  /** One more document of the iteration order: it is found exactly when its searched content
      contains the query. */
  lemma HitDocsNext(p: Primitives, ignoreCase: bool, q: seq<char>, order: seq<DocId>, n: nat,
                    contents: map<DocId, seq<char>>, found: bool)
    requires n < |order| && forall k :: k in order ==> k in contents
    requires found == Contains(Searched(p, ignoreCase, contents[order[n]]), q)
    ensures HitDocs(p, ignoreCase, q, order, n + 1, contents)
      == HitDocs(p, ignoreCase, q, order, n, contents) + (if found then [order[n]] else [])
  {
  }

  /** The documents found among the first `n` of the iteration order are the first ones found
      among the first `m >= n`. */
  lemma {:induction false} HitDocsPrefix(p: Primitives, ignoreCase: bool, q: seq<char>, order: seq<DocId>,
                                         n: nat, m: nat, contents: map<DocId, seq<char>>)
    requires n <= m <= |order| && forall k :: k in order ==> k in contents
    ensures HitDocs(p, ignoreCase, q, order, n, contents) <= HitDocs(p, ignoreCase, q, order, m, contents)
    decreases m - n
  {
    if n < m {
      HitDocsPrefix(p, ignoreCase, q, order, n, m - 1, contents);
    }
  }

  /** A document is found exactly when it is among the first `n` listed and its searched
      content contains `q`. */
  lemma {:induction false} HitDocsMembers(p: Primitives, ignoreCase: bool, q: seq<char>, order: seq<DocId>,
                                          n: nat, contents: map<DocId, seq<char>>, x: DocId)
    requires n <= |order| && forall k :: k in order ==> k in contents
    ensures x in HitDocs(p, ignoreCase, q, order, n, contents) <==>
      x in order[..n] && Contains(Searched(p, ignoreCase, contents[x]), q)
  {
    if n > 0 {
      HitDocsMembers(p, ignoreCase, q, order, n - 1, contents, x);
      assert order[..n] == order[..n - 1] + [order[n - 1]];
    }
  }

  /** Group `g` reports document `id`: `id` is indexed and `g` holds its path and the records
      of its first occurrences. */
  predicate ReportsDoc(g: FileGroup, id: DocId, documents: map<DocId, Document>,
                       contents: map<DocId, seq<char>>, p: Primitives, ignoreCase: bool, q: seq<char>)
  {
    && id in documents && id in contents
    && ReportsFile(g, documents[id].path, contents[id], Searched(p, ignoreCase, contents[id]), q)
  }

  /** Group `k` of `res` reports document `ids[k]`, for every group (stated from the last group
      back; `GroupsReportAt` gives it group by group). */
  predicate GroupsReport(res: seq<FileGroup>, ids: seq<DocId>, documents: map<DocId, Document>,
                         contents: map<DocId, seq<char>>, p: Primitives, ignoreCase: bool, q: seq<char>)
    decreases |ids|
  {
    && |res| == |ids|
    && (ids != [] ==>
          && GroupsReport(res[..|res| - 1], ids[..|ids| - 1], documents, contents, p, ignoreCase, q)
          && ReportsDoc(res[|res| - 1], ids[|ids| - 1], documents, contents, p, ignoreCase, q))
  }

  lemma {:induction false} GroupsReportAt(res: seq<FileGroup>, ids: seq<DocId>, documents: map<DocId, Document>,
                                          contents: map<DocId, seq<char>>, p: Primitives, ignoreCase: bool,
                                          q: seq<char>, k: nat)
    requires GroupsReport(res, ids, documents, contents, p, ignoreCase, q)
    requires k < |ids|
    ensures |res| == |ids|
    ensures ReportsDoc(res[k], ids[k], documents, contents, p, ignoreCase, q)
  {
    if k < |ids| - 1 {
      GroupsReportAt(res[..|res| - 1], ids[..|ids| - 1], documents, contents, p, ignoreCase, q, k);
    }
  }

  lemma GroupsReportStep(res: seq<FileGroup>, ids: seq<DocId>, documents: map<DocId, Document>,
                         contents: map<DocId, seq<char>>, p: Primitives, ignoreCase: bool, q: seq<char>,
                         g: FileGroup, id: DocId)
    requires GroupsReport(res, ids, documents, contents, p, ignoreCase, q)
    requires ReportsDoc(g, id, documents, contents, p, ignoreCase, q)
    ensures GroupsReport(res + [g], ids + [id], documents, contents, p, ignoreCase, q)
  {
    assert (res + [g])[..|res|] == res;
    assert (ids + [id])[..|ids|] == ids;
  }

  /** Group `g` was not cut short: it holds a record for every occurrence in the file of `id`. */
  predicate CompleteDoc(g: FileGroup, id: DocId, contents: map<DocId, seq<char>>,
                        p: Primitives, ignoreCase: bool, q: seq<char>)
  {
    id in contents && |g.matches| == |MatchIndices(Searched(p, ignoreCase, contents[id]), q)|
  }

  /** No group was cut short (stated from the last group back; `GroupsCompleteAt` gives it
      group by group). */
  predicate GroupsComplete(res: seq<FileGroup>, ids: seq<DocId>, contents: map<DocId, seq<char>>,
                           p: Primitives, ignoreCase: bool, q: seq<char>)
    decreases |ids|
  {
    && |res| == |ids|
    && (ids != [] ==>
          && GroupsComplete(res[..|res| - 1], ids[..|ids| - 1], contents, p, ignoreCase, q)
          && CompleteDoc(res[|res| - 1], ids[|ids| - 1], contents, p, ignoreCase, q))
  }

  lemma {:induction false} GroupsCompleteAt(res: seq<FileGroup>, ids: seq<DocId>, contents: map<DocId, seq<char>>,
                                            p: Primitives, ignoreCase: bool, q: seq<char>, k: nat)
    requires GroupsComplete(res, ids, contents, p, ignoreCase, q)
    requires k < |ids|
    ensures |res| == |ids|
    ensures CompleteDoc(res[k], ids[k], contents, p, ignoreCase, q)
  {
    if k < |ids| - 1 {
      GroupsCompleteAt(res[..|res| - 1], ids[..|ids| - 1], contents, p, ignoreCase, q, k);
    }
  }

  lemma GroupsCompleteStep(res: seq<FileGroup>, ids: seq<DocId>, contents: map<DocId, seq<char>>,
                           p: Primitives, ignoreCase: bool, q: seq<char>, g: FileGroup, id: DocId)
    requires GroupsComplete(res, ids, contents, p, ignoreCase, q)
    requires CompleteDoc(g, id, contents, p, ignoreCase, q)
    ensures GroupsComplete(res + [g], ids + [id], contents, p, ignoreCase, q)
  {
    assert (res + [g])[..|res|] == res;
    assert (ids + [id])[..|ids|] == ids;
  }

  /** What the loop of `search` keeps after the first `i` documents of the iteration order:
      `count` records in the groups `res`, one per found document `ids`. */
  predicate SearchedUpTo(p: Primitives, q: seq<char>, ignoreCase: bool, limit: nat, order: seq<DocId>,
                         documents: map<DocId, Document>, contents: map<DocId, seq<char>>,
                         i: nat, count: nat, res: seq<FileGroup>, ids: seq<DocId>)
    requires forall k :: k in order ==> k in contents && k in documents
  {
    && i <= |order|
    && count <= limit
    && count == TotalMatches(res)
    && ids == HitDocs(p, ignoreCase, q, order, i, contents)
    && GroupsReport(res, ids, documents, contents, p, ignoreCase, q)
    && (count < limit ==> GroupsComplete(res, ids, contents, p, ignoreCase, q))
  }

  /** The group of the document at `path` can be labelled: `path_to_node_name` finds its file
      name, and the folder that holds it has a name too. With `rootAsEmpty` a document directly
      under the root is labelled with the empty folder name instead of having none. */
  predicate Labelled(p: Primitives, path: seq<char>, rootAsEmpty: bool)
  {
    p.fileName(path).Some? && (rootAsEmpty || p.folderName(path).Some?)
  }

  /** Every listed document can be labelled. */
  predicate AllLabelled(p: Primitives, order: seq<DocId>, documents: map<DocId, Document>, rootAsEmpty: bool)
    requires forall k :: k in order ==> k in documents
  {
    forall k :: k in order ==> Labelled(p, documents[k].path, rootAsEmpty)
  }

  /** The number of occurrences of `q` in the searched contents of each listed document, in
      iteration order. */
  function HitCounts(p: Primitives, ignoreCase: bool, q: seq<char>, order: seq<DocId>,
                     contents: map<DocId, seq<char>>): (hs: seq<nat>)
    requires forall k :: k in order ==> k in contents
    ensures |hs| == |order|
    ensures forall j :: 0 <= j < |order| ==>
              hs[j] == |MatchIndices(Searched(p, ignoreCase, contents[order[j]]), q)|
  {
    seq(|order|, j requires 0 <= j < |order| =>
      assert order[j] in order;
      |MatchIndices(Searched(p, ignoreCase, contents[order[j]]), q)|)
  }

  /** For each listed document, in iteration order: its searched contents hold the query and
      its group cannot be labelled. */
  function UnlabelledHits(p: Primitives, q: seq<char>, ignoreCase: bool, rootAsEmpty: bool, order: seq<DocId>,
                          documents: map<DocId, Document>, contents: map<DocId, seq<char>>): (bs: seq<bool>)
    requires forall k :: k in order ==> k in contents && k in documents
    ensures |bs| == |order|
    ensures forall j :: 0 <= j < |order| ==>
              bs[j] == (Contains(Searched(p, ignoreCase, contents[order[j]]), q)
                        && !Labelled(p, documents[order[j]].path, rootAsEmpty))
  {
    seq(|order|, j requires 0 <= j < |order| =>
      assert order[j] in order;
      Contains(Searched(p, ignoreCase, contents[order[j]]), q) && !Labelled(p, documents[order[j]].path, rootAsEmpty))
  }

  /** The entries of both sequences for the `i`-th listed document. */
  lemma DocFacts(p: Primitives, q: seq<char>, ignoreCase: bool, rootAsEmpty: bool, order: seq<DocId>,
                 documents: map<DocId, Document>, contents: map<DocId, seq<char>>, i: nat)
    requires forall k :: k in order ==> k in contents && k in documents
    requires i < |order|
    ensures HitCounts(p, ignoreCase, q, order, contents)[i]
         == |MatchIndices(Searched(p, ignoreCase, contents[order[i]]), q)|
    ensures UnlabelledHits(p, q, ignoreCase, rootAsEmpty, order, documents, contents)[i]
         == (Contains(Searched(p, ignoreCase, contents[order[i]]), q)
             && !Labelled(p, documents[order[i]].path, rootAsEmpty))
  {
  }

  /** The sum of the first `n` counts. */
  function Total(hs: seq<nat>, n: nat): nat
    requires n <= |hs|
  {
    if n == 0 then 0 else Total(hs, n - 1) + hs[n - 1]
  }

  lemma {:induction false} TotalMonotone(hs: seq<nat>, n: nat, m: nat)
    requires n <= m <= |hs|
    ensures Total(hs, n) <= Total(hs, m)
    decreases m - n
  {
    if n < m {
      TotalMonotone(hs, n, m - 1);
    }
  }

  /** With `hs[j]` the occurrences in the `j`-th listed document and `bs[j]` whether it has a
      hit and no label: the search reaches the `j`-th document (fewer than `limit` records are
      collected before it) and aborts there. */
  predicate AbortsAt(hs: seq<nat>, bs: seq<bool>, limit: nat, j: nat)
    requires |hs| == |bs|
  {
    j < |bs| && Total(hs, j) < limit && bs[j]
  }

  /** Some listed document is reached by the search with fewer than `limit` records collected
      before it, holds the query and cannot be labelled: where `search` panics. */
  ghost predicate SearchAborts(p: Primitives, q: seq<char>, ignoreCase: bool, rootAsEmpty: bool, limit: nat,
                               order: seq<DocId>, documents: map<DocId, Document>, contents: map<DocId, seq<char>>)
    requires forall k :: k in order ==> k in contents && k in documents
  {
    var hs := HitCounts(p, ignoreCase, q, order, contents);
    var bs := UnlabelledHits(p, q, ignoreCase, rootAsEmpty, order, documents, contents);
    exists j :: AbortsAt(hs, bs, limit, j)
  }

  /** The loop of `search` run on from the `i`-th document with `count` records collected so far,
      step by step: whether it reaches an aborting document before it stops. */
  predicate AbortsFrom(hs: seq<nat>, bs: seq<bool>, limit: nat, i: nat, count: nat)
    requires |hs| == |bs|
    decreases |hs| - i
  {
    if i < |hs| && count < limit then
      bs[i] || AbortsFrom(hs, bs, limit, i + 1, Min(count + hs[i], limit))
    else
      false
  }

  /** One document of the loop: it aborts there or in the rest of the run. */
  lemma AbortsFromStep(hs: seq<nat>, bs: seq<bool>, limit: nat, i: nat, count: nat)
    requires |hs| == |bs| && i < |hs| && count < limit
    ensures AbortsFrom(hs, bs, limit, i, count)
        == (bs[i] || AbortsFrom(hs, bs, limit, i + 1, Min(count + hs[i], limit)))
  {
  }

  /** Some document from the `i`-th on aborts exactly when the `i`-th does or one after it. */
  lemma AbortsAtOrAfter(hs: seq<nat>, bs: seq<bool>, limit: nat, i: nat)
    requires |hs| == |bs|
    ensures (exists j :: i <= j && AbortsAt(hs, bs, limit, j))
        <==> AbortsAt(hs, bs, limit, i) || exists j :: i + 1 <= j && AbortsAt(hs, bs, limit, j)
  {
    if exists j :: i <= j && AbortsAt(hs, bs, limit, j) {
      var j :| i <= j && AbortsAt(hs, bs, limit, j);
      if j != i {
        assert i + 1 <= j && AbortsAt(hs, bs, limit, j);
      }
    }
    if exists j :: i + 1 <= j && AbortsAt(hs, bs, limit, j) {
      var j :| i + 1 <= j && AbortsAt(hs, bs, limit, j);
      assert i <= j && AbortsAt(hs, bs, limit, j);
    }
  }

  /** Run on from the `i`-th document with the records of the documents before it, the loop
      aborts exactly when some document from the `i`-th on is reached and aborts it. */
  lemma {:induction false} AbortsFromReached(hs: seq<nat>, bs: seq<bool>, limit: nat, i: nat)
    requires |hs| == |bs| && i <= |hs|
    ensures AbortsFrom(hs, bs, limit, i, Min(Total(hs, i), limit))
        <==> exists j :: i <= j && AbortsAt(hs, bs, limit, j)
    decreases |hs| - i
  {
    var total := Total(hs, i);
    if i < |hs| && total < limit {
      assert Min(total, limit) == total;
      assert Total(hs, i + 1) == total + hs[i];
      AbortsFromStep(hs, bs, limit, i, total);
      AbortsFromReached(hs, bs, limit, i + 1);
      AbortsAtOrAfter(hs, bs, limit, i);
    } else if i < |hs| {
      forall j | i <= j < |hs|
        ensures !AbortsAt(hs, bs, limit, j)
      {
        TotalMonotone(hs, i, j);
      }
      assert Min(total, limit) == limit;
    }
  }

  /** The loop of `search` started on the first document aborts exactly when some document the
      search reaches has a hit and no label. */
  lemma AbortsFromStart(p: Primitives, q: seq<char>, ignoreCase: bool, rootAsEmpty: bool, limit: nat,
                        order: seq<DocId>, documents: map<DocId, Document>, contents: map<DocId, seq<char>>)
    requires forall k :: k in order ==> k in contents && k in documents
    ensures AbortsFrom(HitCounts(p, ignoreCase, q, order, contents),
                       UnlabelledHits(p, q, ignoreCase, rootAsEmpty, order, documents, contents), limit, 0, 0)
        <==> SearchAborts(p, q, ignoreCase, rootAsEmpty, limit, order, documents, contents)
  {
    AbortsFromReached(HitCounts(p, ignoreCase, q, order, contents),
                      UnlabelledHits(p, q, ignoreCase, rootAsEmpty, order, documents, contents), limit, 0);
  }

  /** A listed document with a hit and no label means not every listed document is labelled. */
  lemma NotAllLabelled(p: Primitives, order: seq<DocId>, documents: map<DocId, Document>, rootAsEmpty: bool, i: nat)
    requires forall k :: k in order ==> k in documents
    requires i < |order| && !Labelled(p, documents[order[i]].path, rootAsEmpty)
    ensures !AllLabelled(p, order, documents, rootAsEmpty)
  {
    assert order[i] in order;
  }

  /** One turn of the loop of `search`: the next document's file is searched with what is left
      of the budget; `panicked` where locating a line panics, or where the group of a document
      with a hit cannot be labelled. */
  method SearchNext(p: Primitives, q: seq<char>, ignoreCase: bool, rootAsEmpty: bool, limit: nat,
                    order: seq<DocId>, documents: map<DocId, Document>, contents: map<DocId, seq<char>>,
                    i: nat, count: nat, res: seq<FileGroup>, ghost ids: seq<DocId>)
    returns (panicked: bool, count': nat, res': seq<FileGroup>, ghost ids': seq<DocId>)
    requires forall k :: k in order ==> k in contents && k in documents
    requires i < |order| && count < limit
    requires SearchedUpTo(p, q, ignoreCase, limit, order, documents, contents, i, count, res, ids)
    ensures panicked ==> Contains(Searched(p, ignoreCase, contents[order[i]]), q)
    ensures panicked ==> ignoreCase || q == [] || !Labelled(p, documents[order[i]].path, rootAsEmpty)
    ensures !panicked ==>
      !Contains(Searched(p, ignoreCase, contents[order[i]]), q) || Labelled(p, documents[order[i]].path, rootAsEmpty)
    ensures !panicked ==>
      count' == Min(count + |MatchIndices(Searched(p, ignoreCase, contents[order[i]]), q)|, limit)
    ensures !panicked ==>
      && SearchedUpTo(p, q, ignoreCase, limit, order, documents, contents, i + 1, count', res', ids')
      && ids <= ids'
  {
    var id := order[i];
    var searched := Searched(p, ignoreCase, contents[id]);
    var o := SearchFile(contents[id], searched, documents[id].path, q, limit - count);
    HitDocsNext(p, ignoreCase, q, order, i, contents, !o.NoMatch?);
    if o.Panicked? {
      if !ignoreCase && q != [] {
        OccurrencesInsideText(contents[id], q);
        assert false;
      }
      return true, count, res, ids;
    }
    if o.NoMatch? {
      return false, count, res, ids;
    }
    if !Labelled(p, documents[id].path, rootAsEmpty) {
      return true, count, res, ids;
    }
    GroupsReportStep(res, ids, documents, contents, p, ignoreCase, q, o.group, id);
    if count + |o.group.matches| < limit {
      GroupsCompleteStep(res, ids, contents, p, ignoreCase, q, o.group, id);
    }
    TotalMatchesStep(res, o.group);
    panicked, count', res', ids' := false, count + |o.group.matches|, res + [o.group], ids + [id];
  }

  /** One turn of the loop of `search` with what it tells about where the loop aborts. */
  method SearchStep(p: Primitives, q: seq<char>, ignoreCase: bool, rootAsEmpty: bool, limit: nat,
                    order: seq<DocId>, documents: map<DocId, Document>, contents: map<DocId, seq<char>>,
                    ghost hs: seq<nat>, ghost bs: seq<bool>,
                    i: nat, count: nat, res: seq<FileGroup>, ghost ids: seq<DocId>)
    returns (panicked: bool, count': nat, res': seq<FileGroup>, ghost ids': seq<DocId>)
    requires forall k :: k in order ==> k in contents && k in documents
    requires hs == HitCounts(p, ignoreCase, q, order, contents)
    requires bs == UnlabelledHits(p, q, ignoreCase, rootAsEmpty, order, documents, contents)
    requires i < |order| && count < limit
    requires SearchedUpTo(p, q, ignoreCase, limit, order, documents, contents, i, count, res, ids)
    ensures panicked && !ignoreCase && q != [] ==> bs[i] && !AllLabelled(p, order, documents, rootAsEmpty)
    ensures !panicked ==>
      && SearchedUpTo(p, q, ignoreCase, limit, order, documents, contents, i + 1, count', res', ids')
      && !bs[i] && count' == Min(count + hs[i], limit)
  {
    panicked, count', res', ids' :=
      SearchNext(p, q, ignoreCase, rootAsEmpty, limit, order, documents, contents, i, count, res, ids);
    DocFacts(p, q, ignoreCase, rootAsEmpty, order, documents, contents, i);
    if panicked && !ignoreCase && q != [] {
      NotAllLabelled(p, order, documents, rootAsEmpty, i);
    }
  }

  /** The loop of `search`: it stops at the end of the iteration order, once `limit` records
      are collected, or where a document aborts the search. */
  method SearchLoop(p: Primitives, q: seq<char>, ignoreCase: bool, rootAsEmpty: bool, limit: nat,
                    order: seq<DocId>, documents: map<DocId, Document>, contents: map<DocId, seq<char>>)
    returns (panicked: bool, i: nat, count: nat, res: seq<FileGroup>, ghost ids: seq<DocId>)
    requires forall k :: k in order ==> k in contents && k in documents
    ensures panicked && !ignoreCase && q != [] ==>
      && AbortsFrom(HitCounts(p, ignoreCase, q, order, contents),
                    UnlabelledHits(p, q, ignoreCase, rootAsEmpty, order, documents, contents), limit, 0, 0)
      && !AllLabelled(p, order, documents, rootAsEmpty)
    ensures !panicked ==>
      && SearchedUpTo(p, q, ignoreCase, limit, order, documents, contents, i, count, res, ids)
      && !(i < |order| && count < limit)
      && !AbortsFrom(HitCounts(p, ignoreCase, q, order, contents),
                     UnlabelledHits(p, q, ignoreCase, rootAsEmpty, order, documents, contents), limit, 0, 0)
  {
    count, res, ids, i := 0, [], [], 0;
    ghost var hs := HitCounts(p, ignoreCase, q, order, contents);
    ghost var bs := UnlabelledHits(p, q, ignoreCase, rootAsEmpty, order, documents, contents);
    while i < |order| && count < limit
      invariant SearchedUpTo(p, q, ignoreCase, limit, order, documents, contents, i, count, res, ids)
      invariant AbortsFrom(hs, bs, limit, i, count) == AbortsFrom(hs, bs, limit, 0, 0)
    {
      AbortsFromStep(hs, bs, limit, i, count);
      panicked, count, res, ids :=
        SearchStep(p, q, ignoreCase, rootAsEmpty, limit, order, documents, contents, hs, bs, i, count, res, ids);
      if panicked {
        return;
      }
      i := i + 1;
    }
    panicked := false;
  }

  /** The loop of `search` over the documents in iteration order: each document's file is
      searched with what is left of the budget of `limit` records, and the search stops once
      `limit` records are collected. `None` where locating a line panics or a group cannot be
      labelled (see `Labelled`). The ghost `ids` are the documents of the groups. */
  method SearchDocs(p: Primitives, q: seq<char>, ignoreCase: bool, rootAsEmpty: bool, limit: nat,
                    order: seq<DocId>, documents: map<DocId, Document>, contents: map<DocId, seq<char>>)
    returns (r: Option<SearchResult>, ghost ids: seq<DocId>)
    requires forall k :: k in order ==> k in contents && k in documents
    ensures !ignoreCase && q != [] && AllLabelled(p, order, documents, rootAsEmpty) ==> r.Some?
    ensures !ignoreCase && q != [] ==>
      (r.None? <==> SearchAborts(p, q, ignoreCase, rootAsEmpty, limit, order, documents, contents))
    ensures r.Some? ==>
      && r.value.matchCount <= limit
      && r.value.tooManyResults == (r.value.matchCount >= limit)
      && r.value.fileMatchCount == |r.value.results|
      && r.value.matchCount == TotalMatches(r.value.results)
      && ids <= HitDocs(p, ignoreCase, q, order, |order|, contents)
      && GroupsReport(r.value.results, ids, documents, contents, p, ignoreCase, q)
      && (!r.value.tooManyResults ==>
            && ids == HitDocs(p, ignoreCase, q, order, |order|, contents)
            && GroupsComplete(r.value.results, ids, contents, p, ignoreCase, q))
  {
    var panicked, i, count, res;
    panicked, i, count, res, ids :=
      SearchLoop(p, q, ignoreCase, rootAsEmpty, limit, order, documents, contents);
    if panicked {
      if !ignoreCase && q != [] {
        AbortsFromStart(p, q, ignoreCase, rootAsEmpty, limit, order, documents, contents);
      }
      return None, ids;
    }
    AbortsFromStart(p, q, ignoreCase, rootAsEmpty, limit, order, documents, contents);
    r := Some(SearchResult(res, count >= limit, count, |res|));
    HitDocsPrefix(p, ignoreCase, q, order, i, |order|, contents);
  }

  /** A single document directly under the root, `foo.lisp` holding `abc`, searched for `a` with
      the case kept and a limit of 10: as written, the search aborts on the missing folder name. */
  method RootLevelHitAborts(p: Primitives, d: Document) returns (r: Option<SearchResult>)
    requires d.path == "foo.lisp" && p.fileName("foo.lisp").Some? && p.folderName("foo.lisp").None?
    ensures r.None?
  {
    assert Occurs("abc", "a", 0);
    ghost var bs := UnlabelledHits(p, "a", false, false, [0], map[0 := d], map[0 := "abc"]);
    assert bs[0];
    assert AbortsAt(HitCounts(p, false, "a", [0], map[0 := "abc"]), bs, 10, 0);
    assert SearchAborts(p, "a", false, false, 10, [0], map[0 := d], map[0 := "abc"]);
    ghost var ids;
    r, ids := SearchDocs(p, "a", false, false, 10, [0], map[0 := d], map[0 := "abc"]);
  }

  /** The same search when a document directly under the root is labelled with the empty folder
      name: one group holding the one occurrence. */
  method RootLevelHitReported(p: Primitives, d: Document) returns (r: Option<SearchResult>)
    requires d.path == "foo.lisp" && p.fileName("foo.lisp").Some? && p.folderName("foo.lisp").None?
    ensures r.Some? && r.value.fileMatchCount == 1 && r.value.matchCount == 1
  {
    var contents: map<DocId, seq<char>> := map[0 := "abc"];
    assert Occurs("abc", "a", 0);
    ghost var ids;
    r, ids := SearchDocs(p, "a", false, true, 10, [0], map[0 := d], contents);
    assert HitDocs(p, false, "a", [0], 1, contents) == [0];
    OneGroupOneMatch(p, d, r.value, ids);
  }

  /** What the search contract leaves for `abc` searched for `a` within a limit of 10: one
      group with one match. */
  lemma OneGroupOneMatch(p: Primitives, d: Document, s: SearchResult, ids: seq<DocId>)
    requires s.matchCount <= 10 && s.tooManyResults == (s.matchCount >= 10)
    requires s.fileMatchCount == |s.results| && s.matchCount == TotalMatches(s.results)
    requires ids <= [0]
    requires GroupsReport(s.results, ids, map[0 := d], map[0 := "abc"], p, false, "a")
    requires !s.tooManyResults ==>
      ids == [0] && GroupsComplete(s.results, ids, map[0 := "abc"], p, false, "a")
    ensures s.fileMatchCount == 1 && s.matchCount == 1
  {
    OneMatchInAbc();
    assert ids == [0];
    var res := s.results;
    GroupsReportAt(res, ids, map[0 := d], map[0 := "abc"], p, false, "a", 0);
    assert res == [res[0]];
    TotalMatchesStep([], res[0]);
    assert !s.tooManyResults;
    GroupsCompleteAt(res, ids, map[0 := "abc"], p, false, "a", 0);
  }

  lemma OneMatchInAbc()
    ensures MatchIndices("abc", "a") == [0]
  {
    assert "abc"[0..1] == "a";
    assert !Occurs("abc", "a", 1) && !Occurs("abc", "a", 2) by {
      assert "abc"[1..2] == "b" && "abc"[2..3] == "c";
    }
    assert MatchesFrom("abc", "a", 1) == [];
  }
}
