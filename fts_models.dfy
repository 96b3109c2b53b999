/**
  The documents of the full-text index: a relative path, its lower-cased file name, how often
  each path token occurs, and the n-grams of the file name.
 */
module FtsModels {
  import opened Wrappers
  import opened Strings
  import opened Foreign
  import opened Ngram

  /** The n-gram width of every token of the index. */
  const NgramSize: nat := 3

  type DocId = U32

  datatype Document = Document(
    path: seq<char>,
    nameLower: seq<char>,
    termFrequencies: map<U64, nat>,
    nameTokens: seq<U64>)

  /** `d` is the document `Document::new(path, tokens)` builds. */
  predicate IsDocumentFor(p: Primitives, d: Document, path: seq<char>, tokens: seq<U64>)
  {
    && p.fileName(path).Some?
    && d.path == path
    && d.nameLower == p.lower(p.fileName(path).value)
    && d.nameTokens == Ngrams(p, p.fileName(path).value, NgramSize)
    && (forall t :: t in d.termFrequencies <==> t in tokens)
    && (forall t :: t in d.termFrequencies ==> d.termFrequencies[t] == Count(tokens, t))
  }

  /** `Document::new`; `None` where taking the file name of `path` panics. */
  method NewDocument(p: Primitives, path: seq<char>, tokens: seq<U64>) returns (r: Option<Document>)
    ensures r.None? <==> p.fileName(path).None?
    ensures r.Some? ==> IsDocumentFor(p, r.value, path, tokens)
  {
    var tf: map<U64, nat> := map[];
    var name := p.fileName(path);
    if name.None? {
      return None;
    }
    var nameTokens := NgramTokenizeLowercase(p, name.value, NgramSize);
    var i := 0;
    while i < |tokens|
      invariant 0 <= i <= |tokens|
      invariant forall t :: t in tf <==> t in tokens[..i]
      invariant forall t :: t in tf ==> tf[t] == Count(tokens[..i], t)
    {
      var t := tokens[i];
      assert tokens[..i + 1] == tokens[..i] + [t];
      forall u
        ensures Count(tokens[..i + 1], u) == Count(tokens[..i], u) + (if t == u then 1 else 0)
      {
        CountPrefixStep(tokens, i, u);
      }
      if t in tf {
        tf := tf[t := tf[t] + 1];
      } else {
        CountAbsent(tokens[..i], t);
        tf := tf[t := 1];
      }
      i := i + 1;
    }
    assert tokens[..i] == tokens;
    return Some(Document(path, p.lower(name.value), tf, nameTokens));
  }

  /** `term_freq`: the stored count, 0 for a token the document does not have. */
  function TermFreq(d: Document, token: U64): (n: nat)
    ensures token !in d.termFrequencies ==> n == 0
  {
    if token in d.termFrequencies then d.termFrequencies[token] else 0
  }

  /** `token_is_in_name`. */
  predicate TokenIsInName(d: Document, token: U64)
  {
    token in d.nameTokens
  }

  /** The term frequency of a token is the number of times it occurs among the path tokens,
      and so is 0 for a token that does not occur. */
  lemma TermFreqCountsTokens(p: Primitives, d: Document, path: seq<char>, tokens: seq<U64>, t: U64)
    requires IsDocumentFor(p, d, path, tokens)
    ensures TermFreq(d, t) == Count(tokens, t)
    ensures t !in tokens ==> TermFreq(d, t) == 0
  {
    if t !in tokens {
      CountAbsent(tokens, t);
    }
  }

  /** A token is in the name exactly when it is one of the n-grams of the path's file name. */
  lemma TokenIsInNameOfFileName(p: Primitives, d: Document, path: seq<char>, tokens: seq<U64>, t: U64)
    requires IsDocumentFor(p, d, path, tokens)
    ensures TokenIsInName(d, t) <==> t in Ngrams(p, p.fileName(path).value, NgramSize)
  {
  }
}
