/**
  The in-memory full-text index of the project's files: documents by id, ids by relative path,
  the documents whose path holds each n-gram (posting lists), and the contents of the Lisp
  files. Paths reach the index already made relative to the project root; file contents and
  the Lisp-file test are passed in. `HashMap` iteration order is a parameter `order` listing
  the keys being iterated.
 */
module FtsIndex {
  import opened Wrappers
  import opened Strings
  import opened Foreign
  import opened Ngram
  import opened TextContext
  import opened FtsModels
  import opened FtsSearch

  const MaxDocId: DocId := 0xFFFF_FFFF

  predicate NoDup<T(==)>(s: seq<T>)
  {
    forall i, j :: 0 <= i < j < |s| ==> s[i] != s[j]
  }

  /** `order` lists every element of `keys` exactly once: a `HashMap`'s iteration order. */
  predicate IsListing(order: seq<DocId>, keys: set<DocId>)
  {
    NoDup(order) && forall k :: k in order <==> k in keys
  }

  /** `Vec::retain(|x| x != id)`: the list without `id`, the rest in order. */
  function Without(l: seq<DocId>, id: DocId): (r: seq<DocId>)
    ensures id !in r
    ensures forall x :: x in r ==> x in l
    ensures |r| <= |l|
  {
    if l == [] then [] else (if l[0] == id then [] else [l[0]]) + Without(l[1..], id)
  }

  /** `s` is `l` with some elements left out, the rest in their order. */
  predicate IsSubsequence(s: seq<DocId>, l: seq<DocId>)
  {
    if s == [] then true
    else if l == [] then false
    else if s[0] == l[0] then IsSubsequence(s[1..], l[1..])
    else IsSubsequence(s, l[1..])
  }

  lemma {:induction false} WithoutKeepsTheRest(l: seq<DocId>, id: DocId, x: DocId)
    ensures Count(Without(l, id), x) == if x == id then 0 else Count(l, x)
    ensures IsSubsequence(Without(l, id), l)
  {
    if l == [] {
    } else {
      WithoutKeepsTheRest(l[1..], id, x);
      var w := Without(l[1..], id);
      if l[0] != id {
        assert ([l[0]] + w)[1..] == w;
      } else {
        assert [] + w == w;
        SkipOneKeepsSubsequence(w, l);
      }
    }
  }

  lemma {:induction false} SkipOneKeepsSubsequence(w: seq<DocId>, l: seq<DocId>)
    requires l != [] && IsSubsequence(w, l[1..])
    ensures IsSubsequence(w, l)
    decreases |w| + |l|
  {
    if w != [] && w[0] == l[0] {
      DropHeadKeepsSubsequence(w, l[1..]);
    }
  }

  lemma {:induction false} DropHeadKeepsSubsequence(w: seq<DocId>, t: seq<DocId>)
    requires w != [] && IsSubsequence(w, t)
    ensures IsSubsequence(w[1..], t)
    decreases |w| + |t|
  {
    if w[0] == t[0] {
      SkipOneKeepsSubsequence(w[1..], t);
    } else {
      DropHeadKeepsSubsequence(w, t[1..]);
      SkipOneKeepsSubsequence(w[1..], t);
    }
  }

  lemma {:induction false} WithoutKeepsNoDup(l: seq<DocId>, id: DocId)
    requires NoDup(l)
    ensures NoDup(Without(l, id))
  {
    if l != [] {
      WithoutKeepsNoDup(l[1..], id);
      assert l[0] !in l[1..];
    }
  }

  /** Every posting list with `id` removed, and the lists that became empty dropped. */
  function StripPostings(m: map<U64, seq<DocId>>, id: DocId): (r: map<U64, seq<DocId>>)
    ensures forall t :: t in r ==> t in m && r[t] == Without(m[t], id) && r[t] != []
    ensures forall t :: t in m && Without(m[t], id) != [] ==> t in r
  {
    map t | t in m && Without(m[t], id) != [] :: Without(m[t], id)
  }

  /** The largest key of a non-empty set of ids. */
  lemma {:induction false} MaxExists(s: set<DocId>)
    requires s != {}
    ensures exists m :: m in s && IsUpperBound(s, m)
  {
    var x :| x in s;
    if s - {x} == {} {
      assert s == {x};
      assert IsUpperBound(s, x);
    } else {
      MaxExists(s - {x});
      var m :| m in s - {x} && IsUpperBound(s - {x}, m);
      UpperBoundWithOneMore(s, x, m);
    }
  }

  predicate IsUpperBound(s: set<DocId>, m: DocId)
  {
    forall k :: k in s ==> k <= m
  }

  lemma UpperBoundWithOneMore(s: set<DocId>, x: DocId, m: DocId)
    requires x in s && m in s && IsUpperBound(s - {x}, m)
    ensures IsUpperBound(s, if x > m then x else m)
  {
    forall k | k in s
      ensures k <= (if x > m then x else m)
    {
      if k != x {
        assert k in s - {x};
      }
    }
  }

  lemma {:induction false} NoDupCardinality(l: seq<DocId>)
    requires NoDup(l)
    ensures |set x | x in l| == |l|
  {
    if l != [] {
      NoDupCardinality(l[1..]);
      assert (set x | x in l) == (set x | x in l[1..]) + {l[0]};
      assert l[0] !in l[1..];
    }
  }

  /** Every id the index mentions is a stored document, and posting lists are non-empty and
      hold each document at most once. */
  predicate ValidIndex(documents: map<DocId, Document>, docIds: map<seq<char>, DocId>,
                       names: map<U64, seq<DocId>>, contents: map<DocId, seq<char>>)
  {
    && contents.Keys <= documents.Keys
    && (forall k :: k in docIds ==> docIds[k] in documents)
    && (forall t :: t in names ==>
          && names[t] != []
          && NoDup(names[t])
          && forall i :: 0 <= i < |names[t]| ==> names[t][i] in documents)
  }

  /** `HashMap::retain(|_, v| v != id)` on the path-to-id map. */
  function WithoutIdValue(docIds: map<seq<char>, DocId>, id: DocId): (r: map<seq<char>, DocId>)
    ensures forall k :: k in r <==> k in docIds && docIds[k] != id
    ensures forall k :: k in r ==> r[k] == docIds[k]
  {
    map k | k in docIds && docIds[k] != id :: docIds[k]
  }

  /** Removing `id` everywhere leaves a valid index valid. */
  lemma RemovalKeepsValid(documents: map<DocId, Document>, docIds: map<seq<char>, DocId>,
                          names: map<U64, seq<DocId>>, contents: map<DocId, seq<char>>, id: DocId)
    requires ValidIndex(documents, docIds, names, contents)
    ensures ValidIndex(documents - {id}, WithoutIdValue(docIds, id), StripPostings(names, id), contents - {id})
  {
    var stripped := StripPostings(names, id);
    forall t | t in stripped
      ensures NoDup(stripped[t])
      ensures forall i :: 0 <= i < |stripped[t]| ==> stripped[t][i] in documents - {id}
    {
      WithoutKeepsNoDup(names[t], id);
      forall i | 0 <= i < |stripped[t]|
        ensures stripped[t][i] in documents - {id}
      {
        var x := stripped[t][i];
        assert x in Without(names[t], id);
        var j :| 0 <= j < |names[t]| && names[t][j] == x;
      }
    }
  }

  /** The first `retain` pass: `id` removed from every posting list. */
  function WithoutInAll(m: map<U64, seq<DocId>>, id: DocId): (r: map<U64, seq<DocId>>)
    ensures r.Keys == m.Keys
    ensures forall t :: t in r ==> r[t] == Without(m[t], id)
  {
    map t | t in m :: Without(m[t], id)
  }

  /** The second `retain` pass: the empty posting lists dropped. */
  function NonEmptyLists(m: map<U64, seq<DocId>>): (r: map<U64, seq<DocId>>)
    ensures forall t :: t in r <==> t in m && m[t] != []
    ensures forall t :: t in r ==> r[t] == m[t]
  {
    map t | t in m && m[t] != [] :: m[t]
  }

  /** The two `retain` passes of the source compute `StripPostings`. */
  lemma TwoPassStrip(m: map<U64, seq<DocId>>, id: DocId)
    ensures NonEmptyLists(WithoutInAll(m, id)) == StripPostings(m, id)
  {
  }

  /** Removing `id` from the posting lists touches nothing else: every other id keeps its
      number of occurrences in every list, each list keeps its order, and `id` is gone. */
  lemma StripPostingsOnlyRemovesId(m: map<U64, seq<DocId>>, id: DocId, t: U64, x: DocId)
    requires t in m
    ensures t in StripPostings(m, id) ==> id !in StripPostings(m, id)[t]
    ensures t in StripPostings(m, id) ==> IsSubsequence(StripPostings(m, id)[t], m[t])
    ensures x != id && x in m[t] ==> t in StripPostings(m, id) && Count(StripPostings(m, id)[t], x) == Count(m[t], x)
  {
    WithoutKeepsTheRest(m[t], id, x);
    if x != id && x in m[t] {
      CountPresent(m[t], x);
    }
  }

  /** The set of distinct tokens: what `into_iter().unique()` visits. */
  function TokenSet(tokens: seq<U64>): set<U64>
  {
    set t | t in tokens
  }

  lemma TokenSetStep(tokens: seq<U64>, i: nat)
    requires i < |tokens|
    ensures TokenSet(tokens[..i + 1]) == TokenSet(tokens[..i]) + {tokens[i]}
  {
    assert tokens[..i + 1] == tokens[..i] + [tokens[i]];
  }

  /** `id` appended to the posting list of every token of `ts`, a missing list counting as
      empty. */
  function WithPostings(m: map<U64, seq<DocId>>, ts: set<U64>, id: DocId): (r: map<U64, seq<DocId>>)
    ensures forall t :: t in r <==> t in m || t in ts
    ensures forall t :: t in r && t !in ts ==> r[t] == m[t]
  {
    map t | t in m.Keys + ts :: (if t in m then m[t] else []) + (if t in ts then [id] else [])
  }

  lemma WithPostingsStep(m: map<U64, seq<DocId>>, ts: set<U64>, t: U64, id: DocId)
    requires t !in ts
    ensures WithPostings(m, ts + {t}, id) == 
      var w := WithPostings(m, ts, id); w[t := (if t in w then w[t] else []) + [id]]
  {
  }

  /** The loop of `add_document` over the distinct tokens, each appending `id` to its list
      (`entry(t).or_insert_with(Vec::new).push(id)`). */
  method AddPostings(m: map<U64, seq<DocId>>, tokens: seq<U64>, id: DocId) returns (r: map<U64, seq<DocId>>)
    ensures r == WithPostings(m, TokenSet(tokens), id)
  {
    r := m;
    var seen: set<U64> := {};
    var i := 0;
    while i < |tokens|
      invariant 0 <= i <= |tokens|
      invariant seen == TokenSet(tokens[..i])
      invariant r == WithPostings(m, seen, id)
    {
      var t := tokens[i];
      TokenSetStep(tokens, i);
      if t !in seen {
        WithPostingsStep(m, seen, t, id);
        r := r[t := (if t in r then r[t] else []) + [id]];
      }
      seen := seen + {t};
      i := i + 1;
    }
    assert tokens[..i] == tokens;
  }

  /** For a fresh id, the posting list of each token of `ts` is the old list (or none) with
      `id` once at its end, and `id` is in no other list. */
  lemma WithPostingsAppendsOnce(m: map<U64, seq<DocId>>, ts: set<U64>, id: DocId, t: U64)
    requires forall u :: u in m ==> id !in m[u]
    ensures t in ts ==>
      && t in WithPostings(m, ts, id)
      && WithPostings(m, ts, id)[t] == (if t in m then m[t] else []) + [id]
      && Count(WithPostings(m, ts, id)[t], id) == 1
    ensures t !in ts && t in WithPostings(m, ts, id) ==> id !in WithPostings(m, ts, id)[t]
  {
    if t in ts {
      var l: seq<DocId> := if t in m then m[t] else [];
      CountConcat(l, [id], id);
      CountAbsent(l, id);
      assert Count([id], id) == 1;
    }
  }

  /** Adding a document under an id the index does not use keeps a valid index valid. */
  lemma AddingKeepsValid(documents: map<DocId, Document>, docIds: map<seq<char>, DocId>,
                         names: map<U64, seq<DocId>>, contents: map<DocId, seq<char>>,
                         id: DocId, doc: Document, path: seq<char>, ts: set<U64>,
                         contents2: map<DocId, seq<char>>)
    requires ValidIndex(documents, docIds, names, contents)
    requires id !in documents && contents2.Keys <= contents.Keys + {id}
    ensures ValidIndex(documents[id := doc], docIds[path := id], WithPostings(names, ts, id), contents2)
  {
    var w := WithPostings(names, ts, id);
    forall t | t in w
      ensures w[t] != [] && NoDup(w[t])
      ensures forall i :: 0 <= i < |w[t]| ==> w[t][i] in documents[id := doc]
    {
      var l: seq<DocId> := if t in names then names[t] else [];
      assert w[t] == l + (if t in ts then [id] else []);
      assert id !in l;
    }
  }

  /** Giving document `id` a new record and moving its path key keeps a valid index valid. */
  lemma MovingKeepsValid(documents: map<DocId, Document>, docIds: map<seq<char>, DocId>,
                         names: map<U64, seq<DocId>>, contents: map<DocId, seq<char>>,
                         id: DocId, doc: Document, oldPath: seq<char>, newPath: seq<char>)
    requires ValidIndex(documents, docIds, names, contents) && id in documents
    ensures ValidIndex(documents[id := doc], (docIds - {oldPath})[newPath := id], StripPostings(names, id), contents)
  {
    var stripped := StripPostings(names, id);
    forall t | t in stripped
      ensures NoDup(stripped[t])
      ensures forall i :: 0 <= i < |stripped[t]| ==> stripped[t][i] in documents
    {
      WithoutKeepsNoDup(names[t], id);
      forall i | 0 <= i < |stripped[t]|
        ensures stripped[t][i] in documents
      {
        assert stripped[t][i] in Without(names[t], id);
        var j :| 0 <= j < |names[t]| && names[t][j] == stripped[t][i];
      }
    }
  }

  /** What `handle_file_path_change` reports. */
  datatype PathChange = Moved(id: DocId) | NotFound | NoFileName

  class Index {
    var documents: map<DocId, Document>
    var docIds: map<seq<char>, DocId>
    /** For each n-gram of a path, the documents whose path has it. */
    var indexFileNames: map<U64, seq<DocId>>
    var indexFileContents: map<DocId, seq<char>>

    predicate Valid()
      reads this
    {
      ValidIndex(documents, docIds, indexFileNames, indexFileContents)
    }

    constructor()
      ensures Valid()
      ensures documents == map[] && docIds == map[] && indexFileNames == map[] && indexFileContents == map[]
    {
      documents := map[];
      docIds := map[];
      indexFileNames := map[];
      indexFileContents := map[];
    }

    /** `get_document`: the first document in iteration order whose path is `relPath`. */
    method GetDocument(relPath: seq<char>, order: seq<DocId>) returns (r: Option<DocId>)
      requires IsListing(order, documents.Keys)
      ensures r.None? <==> forall id :: id in documents ==> documents[id].path != relPath
      ensures r.Some? ==> r.value in documents && documents[r.value].path == relPath
      ensures r.Some? ==>
        exists j :: 0 <= j < |order| && order[j] == r.value
                    && forall j' :: 0 <= j' < j ==> documents[order[j']].path != relPath
    {
      var i := 0;
      while i < |order|
        invariant 0 <= i <= |order|
        invariant forall j :: 0 <= j < i ==> documents[order[j]].path != relPath
      {
        if documents[order[i]].path == relPath {
          return Some(order[i]);
        }
        i := i + 1;
      }
      forall id | id in documents
        ensures documents[id].path != relPath
      {
        var j :| 0 <= j < |order| && order[j] == id;
      }
      return None;
    }

    /** `unused_doc_id`: one more than the largest id; `None` where the source panics, on an
        empty index or when the largest id is the largest `u32`. */
    method UnusedDocId() returns (r: Option<DocId>)
      ensures r.None? <==> documents == map[] || MaxDocId in documents
      ensures r.Some? ==> r.value !in documents && r.value > 0 && r.value - 1 in documents
      ensures r.Some? ==> forall k :: k in documents ==> k < r.value
    {
      if documents == map[] {
        return None;
      }
      MaxExists(documents.Keys);
      var m :| m in documents && IsUpperBound(documents.Keys, m);
      if m == MaxDocId {
        return None;
      }
      return Some(m + 1);
    }

    /** `document_frequency`: the length of the token's posting list, 0 when it has none. */
    function DocumentFrequency(token: U64): (n: nat)
      reads this
      ensures token !in indexFileNames ==> n == 0
    {
      if token in indexFileNames then |indexFileNames[token]| else 0
    }

    /** In a valid index the document frequency of a token is the number of distinct documents
        whose path has it, and it is positive exactly for the tokens the index knows. */
    lemma DocumentFrequencyCountsDocuments(token: U64)
      requires Valid()
      ensures token in indexFileNames ==> DocumentFrequency(token) == |set x | x in indexFileNames[token]|
      ensures DocumentFrequency(token) > 0 <==> token in indexFileNames
    {
      if token in indexFileNames {
        NoDupCardinality(indexFileNames[token]);
      }
    }

    /** `remove_document`: every trace of `id` removed; the document is returned. */
    method RemoveDocument(id: DocId) returns (doc: Document)
      requires id in documents
      modifies this
      ensures doc == old(documents)[id]
      ensures documents == old(documents) - {id}
      ensures indexFileContents == old(indexFileContents) - {id}
      ensures docIds == WithoutIdValue(old(docIds), id)
      ensures indexFileNames == StripPostings(old(indexFileNames), id)
      ensures old(Valid()) ==> Valid()
    {
      if Valid() {
        RemovalKeepsValid(documents, docIds, indexFileNames, indexFileContents, id);
      }
      TwoPassStrip(indexFileNames, id);
      indexFileContents := indexFileContents - {id};
      indexFileNames := WithoutInAll(indexFileNames, id);
      indexFileNames := NonEmptyLists(indexFileNames);
      doc := documents[id];
      documents := documents - {id};
      docIds := WithoutIdValue(docIds, id);
    }

    /** `remove_document_if_existing`: removes the document stored under `relPath`, if any. */
    method RemoveDocumentIfExisting(relPath: seq<char>, order: seq<DocId>) returns (r: Option<Document>, ghost id: DocId)
      requires IsListing(order, documents.Keys)
      modifies this
      ensures r.None? <==> forall k :: k in old(documents) ==> old(documents)[k].path != relPath
      ensures r.None? ==> unchanged(this)
      ensures r.Some? ==>
        && id in old(documents) && r.value == old(documents)[id] && r.value.path == relPath
        && documents == old(documents) - {id}
        && indexFileContents == old(indexFileContents) - {id}
        && docIds == WithoutIdValue(old(docIds), id)
        && indexFileNames == StripPostings(old(indexFileNames), id)
      ensures old(Valid()) ==> Valid()
    {
      var found := GetDocument(relPath, order);
      if found.None? {
        return None, 0;
      }
      var docsId := found.value;
      id := docsId;
      var doc := RemoveDocument(docsId);
      return Some(doc), id;
    }
    /** `add_document`: the document for `relPath` stored under a fresh id, the path mapped to
        it, the id appended once to the posting list of each distinct n-gram of the path, and
        the content stored for a Lisp file. `None` where the source panics: no fresh id, or
        a path without a file name. */
    method AddDocument(p: Primitives, relPath: seq<char>, isLisp: bool, fileContent: seq<char>) returns (r: Option<DocId>)
      modifies this
      ensures r.None? <==> old(documents) == map[] || MaxDocId in old(documents) || p.fileName(relPath).None?
      ensures r.None? ==> unchanged(this)
      ensures r.Some? ==>
        && r.value !in old(documents) && (forall k :: k in old(documents) ==> k < r.value)
        && r.value in documents && IsDocumentFor(p, documents[r.value], relPath, Ngrams(p, relPath, NgramSize))
        && documents == old(documents)[r.value := documents[r.value]]
        && docIds == old(docIds)[relPath := r.value]
        && indexFileNames == WithPostings(old(indexFileNames), TokenSet(Ngrams(p, relPath, NgramSize)), r.value)
        && indexFileContents ==
             if isLisp && r.value !in old(indexFileContents) then old(indexFileContents)[r.value := fileContent]
             else old(indexFileContents)
      ensures old(Valid()) ==> Valid()
    {
      var unused := UnusedDocId();
      if unused.None? || p.fileName(relPath).None? {
        return None;
      }
      var id := unused.value;
      var tokens := NgramTokenizeLowercase(p, relPath, NgramSize);
      var contents := indexFileContents;
      if isLisp && id !in contents {
        contents := contents[id := fileContent];
      }
      var doc := NewDocument(p, relPath, tokens);
      var names := AddPostings(indexFileNames, tokens, id);
      if Valid() {
        AddingKeepsValid(documents, docIds, indexFileNames, indexFileContents, id, doc.value, relPath, TokenSet(tokens), contents);
      }
      indexFileContents := contents;
      documents := documents[id := doc.value];
      docIds := docIds[relPath := id];
      indexFileNames := names;
      return Some(id);
    }

    /** `handle_file_path_change`: the document stored for `relOld` keeps its id and gets the
        record for `relNew`, the path key moves, and the id is stripped from the posting lists
        without the n-grams of the new path being added. */
    method HandleFilePathChange(p: Primitives, relOld: seq<char>, relNew: seq<char>, order: seq<DocId>) returns (r: PathChange)
      requires IsListing(order, documents.Keys)
      modifies this
      ensures r.NotFound? <==> forall k :: k in old(documents) ==> old(documents)[k].path != relOld
      ensures r.NoFileName? ==> p.fileName(relNew).None?
      ensures !r.Moved? ==> unchanged(this)
      ensures r.Moved? ==>
        && r.id in old(documents) && old(documents)[r.id].path == relOld
        && r.id in documents && IsDocumentFor(p, documents[r.id], relNew, Ngrams(p, relNew, NgramSize))
        && documents == old(documents)[r.id := documents[r.id]]
        && docIds == (old(docIds) - {relOld})[relNew := r.id]
        && indexFileNames == StripPostings(old(indexFileNames), r.id)
        && indexFileContents == old(indexFileContents)
      ensures old(Valid()) ==> Valid()
    {
      var found := GetDocument(relOld, order);
      if found.None? {
        return NotFound;
      }
      if p.fileName(relNew).None? {
        return NoFileName;
      }
      var id := found.value;
      var tokens := NgramTokenizeLowercase(p, relNew, NgramSize);
      var doc := NewDocument(p, relNew, tokens);
      if Valid() {
        MovingKeepsValid(documents, docIds, indexFileNames, indexFileContents, id, doc.value, relOld, relNew);
      }
      TwoPassStrip(indexFileNames, id);
      indexFileNames := WithoutInAll(indexFileNames, id);
      indexFileNames := NonEmptyLists(indexFileNames);
      docIds := (docIds - {relOld})[relNew := id];
      documents := documents[id := doc.value];
      return Moved(id);
    }

    /** The plain-text branch of `search_source_files`: the stored contents in iteration
        order, each searched for the query (both lower-cased when the case is ignored), one
        group per file with an occurrence and one record per occurrence, stopping once `limit`
        records are collected. `None` where locating a line panics, or where a document with a
        hit has no folder name to show (one directly under the root). The ghost `ids` are the
        documents of the groups. */
    method SearchSourceFiles(p: Primitives, query: seq<char>, ignoreCase: bool, limit: nat, order: seq<DocId>)
      returns (r: Option<SearchResult>, ghost ids: seq<DocId>)
      requires Valid() && IsListing(order, indexFileContents.Keys)
      ensures !ignoreCase && query != [] && AllLabelled(p, order, documents, false) ==> r.Some?
      ensures !ignoreCase && query != [] ==>
        (r.None? <==> SearchAborts(p, Searched(p, ignoreCase, query), ignoreCase, false, limit, order,
                                   documents, indexFileContents))
      ensures r.Some? ==>
        && r.value.matchCount <= limit
        && r.value.tooManyResults == (r.value.matchCount >= limit)
        && r.value.fileMatchCount == |r.value.results|
        && r.value.matchCount == TotalMatches(r.value.results)
        && ids <= HitDocs(p, ignoreCase, Searched(p, ignoreCase, query), order, |order|, indexFileContents)
        && GroupsReport(r.value.results, ids, documents, indexFileContents, p, ignoreCase, Searched(p, ignoreCase, query))
        && (!r.value.tooManyResults ==>
              && ids == HitDocs(p, ignoreCase, Searched(p, ignoreCase, query), order, |order|, indexFileContents)
              && GroupsComplete(r.value.results, ids, indexFileContents, p, ignoreCase, Searched(p, ignoreCase, query)))
    {
      r, ids := SearchDocs(p, Searched(p, ignoreCase, query), ignoreCase, false, limit, order, documents,
                          indexFileContents);
    }
  }
}
