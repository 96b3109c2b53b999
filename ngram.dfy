/**
  The n-gram tokenizer the file-name index is built from: the lower-cased text is split at
  the separator characters, and every window of `n` consecutive characters of every piece is
  hashed. Pieces shorter than `n` contribute nothing.
 */
module Ngram {
  import opened Foreign

  /** The characters of the tokenizing expression: space and ``/ \ , _ $ ' " ; : . + * ` & ( ) ? ! < > -``. */
  predicate IsTokenSeparator(c: char)
  {
    c in {' ', '/', '\\', ',', '_', '$', '\'', '"', ';', ':', '.', '+', '*', '`', '&', '(', ')', '?', '!', '<', '>', '-'}
  }

  function CountSeparators(s: seq<char>): nat
  {
    if s == [] then 0 else (if IsTokenSeparator(s[0]) then 1 else 0) + CountSeparators(s[1..])
  }

  function TotalLength(ts: seq<seq<char>>): nat
  {
    if ts == [] then 0 else |ts[0]| + TotalLength(ts[1..])
  }

  /** `Regex::split` on the separator class: the pieces between separators, empty pieces
      included, so there is always one piece more than there are separators. */
  function Split(s: seq<char>): (ts: seq<seq<char>>)
    ensures ts != []
  {
    if s == [] then [[]]
    else
      var rest := Split(s[1..]);
      if IsTokenSeparator(s[0]) then [[]] + rest
      else [[s[0]] + rest[0]] + rest[1..]
  }

  /** There is one piece more than there are separators, the pieces hold every other
      character, and no piece holds a separator. */
  lemma {:induction false} SplitShape(s: seq<char>)
    ensures |Split(s)| == CountSeparators(s) + 1
    ensures TotalLength(Split(s)) + CountSeparators(s) == |s|
    ensures forall j, i :: 0 <= j < |Split(s)| && 0 <= i < |Split(s)[j]| ==> !IsTokenSeparator(Split(s)[j][i])
  {
    if s != [] {
      SplitShape(s[1..]);
      var rest := Split(s[1..]);
      if !IsTokenSeparator(s[0]) {
        var ts := [[s[0]] + rest[0]] + rest[1..];
        assert ts[1..] == rest[1..];
        assert TotalLength(rest) == |rest[0]| + TotalLength(rest[1..]);
        forall j, i | 0 <= j < |ts| && 0 <= i < |ts[j]|
          ensures !IsTokenSeparator(ts[j][i])
        {
          if j == 0 && i > 0 {
            assert ts[0][i] == rest[0][i - 1];
          } else if j > 0 {
            assert ts[j] == rest[j];
          }
        }
      } else {
        assert ([[]] + rest)[1..] == rest;
      }
    }
  }

  /** `char_windows`: the windows of `k` consecutive characters of `src`, left to right. */
  function CharWindows(src: seq<char>, k: nat): (ws: seq<seq<char>>)
    requires k >= 1
    ensures |ws| == if |src| >= k then |src| - k + 1 else 0
    ensures forall i :: 0 <= i < |ws| ==> ws[i] == src[i..i + k]
  {
    if |src| < k then [] else seq(|src| - k + 1, i requires 0 <= i <= |src| - k => src[i..i + k])
  }

  /** The windows of every piece long enough to have one, in order. */
  function TokenWindows(ts: seq<seq<char>>, n: nat): seq<seq<char>>
    requires n >= 1
  {
    if ts == [] then []
    else TokenWindows(ts[..|ts| - 1], n) + (if |ts[|ts| - 1]| >= n then CharWindows(ts[|ts| - 1], n) else [])
  }

  function HashAll(p: Primitives, ws: seq<seq<char>>): (hs: seq<U64>)
    ensures |hs| == |ws|
    ensures forall i :: 0 <= i < |ws| ==> hs[i] == p.hash(ws[i])
  {
    seq(|ws|, i requires 0 <= i < |ws| => p.hash(ws[i]))
  }

  /** What `ngram_tokenize_lowercase` returns. */
  function Ngrams(p: Primitives, text: seq<char>, n: nat): seq<U64>
    requires n >= 1
  {
    HashAll(p, TokenWindows(Split(p.lower(text)), n))
  }

  /** `ngram_tokenize_lowercase`, with `n >= 1` (a window size of zero underflows in `char_windows`). */
  method NgramTokenizeLowercase(p: Primitives, text: seq<char>, n: nat) returns (ngrams: seq<U64>)
    requires n >= 1
    ensures ngrams == Ngrams(p, text, n)
  {
    var tokens := Split(p.lower(text));
    ngrams := [];
    var i := 0;
    while i < |tokens|
      invariant 0 <= i <= |tokens|
      invariant ngrams == HashAll(p, TokenWindows(tokens[..i], n))
    {
      var t := tokens[i];
      TokenWindowsStep(tokens, i, n);
      if |t| >= n {
        var ws := CharWindows(t, n);
        ghost var done := TokenWindows(tokens[..i], n);
        var j := 0;
        while j < |ws|
          invariant 0 <= j <= |ws|
          invariant ngrams == HashAll(p, done + ws[..j])
        {
          HashAllStep(p, done, ws, j);
          ngrams := ngrams + [p.hash(ws[j])];
          j := j + 1;
        }
        assert ws[..j] == ws;
      }
      i := i + 1;
    }
    assert tokens[..i] == tokens;
  }

  /** One more piece adds its windows, if it has any. */
  lemma TokenWindowsStep(ts: seq<seq<char>>, i: nat, n: nat)
    requires n >= 1 && i < |ts|
    ensures TokenWindows(ts[..i + 1], n)
      == TokenWindows(ts[..i], n) + (if |ts[i]| >= n then CharWindows(ts[i], n) else [])
  {
    assert ts[..i + 1][..i] == ts[..i];
  }

  /** One more window adds its hash. */
  lemma HashAllStep(p: Primitives, done: seq<seq<char>>, ws: seq<seq<char>>, j: nat)
    requires j < |ws|
    ensures HashAll(p, done + ws[..j + 1]) == HashAll(p, done + ws[..j]) + [p.hash(ws[j])]
  {
    assert done + ws[..j + 1] == (done + ws[..j]) + [ws[j]];
  }

  /** Number of windows of size `n` over all pieces: `max(0, |t| - n + 1)` summed over the pieces. */
  function WindowCount(ts: seq<seq<char>>, n: nat): nat
  {
    if ts == [] then 0
    else WindowCount(ts[..|ts| - 1], n) + (if |ts[|ts| - 1]| >= n then |ts[|ts| - 1]| - n + 1 else 0)
  }

  lemma {:induction false} TokenWindowsCount(ts: seq<seq<char>>, n: nat)
    requires n >= 1
    ensures |TokenWindows(ts, n)| == WindowCount(ts, n)
  {
    if ts != [] {
      TokenWindowsCount(ts[..|ts| - 1], n);
    }
  }

  /** Where window `k` comes from: the piece `j` and the offset `i` in it, with the window being
      the `n` characters of piece `j` from `i`. */
  function WindowOrigin(ts: seq<seq<char>>, n: nat, k: nat): (ji: (nat, nat))
    requires n >= 1 && k < |TokenWindows(ts, n)|
    ensures ji.0 < |ts| && ji.1 + n <= |ts[ji.0]|
    ensures TokenWindows(ts, n)[k] == ts[ji.0][ji.1..ji.1 + n]
  {
    var front := TokenWindows(ts[..|ts| - 1], n);
    if k < |front| then
      var ji := WindowOrigin(ts[..|ts| - 1], n, k);
      assert ts[..|ts| - 1][ji.0] == ts[ji.0];
      ji
    else
      (|ts| - 1, k - |front|)
  }

  /** The length of the tokenizer's output. */
  lemma NgramsLength(p: Primitives, text: seq<char>, n: nat)
    requires n >= 1
    ensures |Ngrams(p, text, n)| == WindowCount(Split(p.lower(text)), n)
  {
    TokenWindowsCount(Split(p.lower(text)), n);
  }

  /** `h` is the hash of the `n` characters of `t` from `i`. */
  predicate HashesWindow(p: Primitives, h: U64, t: seq<char>, i: nat, n: nat)
  {
    i + n <= |t| && h == p.hash(t[i..i + n])
  }

  /** Each n-gram is the hash of `n` consecutive characters of one piece of the lower-cased text. */
  lemma NgramIsWindowHash(p: Primitives, text: seq<char>, n: nat, k: nat)
    requires n >= 1 && k < |Ngrams(p, text, n)|
    ensures exists j, i ::
              0 <= j < |Split(p.lower(text))| && HashesWindow(p, Ngrams(p, text, n)[k], Split(p.lower(text))[j], i, n)
  {
    var ts := Split(p.lower(text));
    var ji := WindowOrigin(ts, n, k);
    assert HashesWindow(p, Ngrams(p, text, n)[k], ts[ji.0], ji.1, n);
  }

  /** Splitting a text that starts with `c`: a separator starts a new piece, any other
      character joins the first piece of the rest. */
  lemma SplitStep(c: char, s: seq<char>)
    ensures Split([c] + s) ==
      if IsTokenSeparator(c) then [[]] + Split(s) else [[c] + Split(s)[0]] + Split(s)[1..]
  {
    assert ([c] + s)[1..] == s;
  }

  /** Every character is a digit or at least `a`; every separator is neither. */
  predicate LettersAndDigits(s: seq<char>)
  {
    s == [] || (('a' <= s[0] || '0' <= s[0] <= '9') && LettersAndDigits(s[1..]))
  }

  /** A text of lower-case letters, digits and other characters above the backquote is a
      single piece. */
  lemma {:induction false} SplitWithoutSeparator(s: seq<char>)
    requires LettersAndDigits(s)
    ensures Split(s) == [s]
  {
    if s != [] {
      SplitWithoutSeparator(s[1..]);
      assert [s[0]] + s[1..] == s;
    }
  }

  /** Splitting at a separator splits the pieces there. */
  lemma {:induction false} SplitAtSeparator(a: seq<char>, c: char, b: seq<char>)
    requires IsTokenSeparator(c)
    ensures Split(a + [c] + b) == Split(a) + Split(b)
  {
    if a == [] {
      assert a + [c] + b == [c] + b;
      SplitStep(c, b);
    } else {
      SplitAtSeparator(a[1..], c, b);
      SplitConsStep(a[0], a[1..], a[1..] + [c] + b, Split(b));
      assert a + [c] + b == [a[0]] + (a[1..] + [c] + b);
      assert a == [a[0]] + a[1..];
    }
  }

  /** One step of `SplitAtSeparator`: a character in front of both sides of the equation. */
  lemma SplitConsStep(h: char, a: seq<char>, x: seq<char>, r: seq<seq<char>>)
    requires Split(x) == Split(a) + r
    ensures Split([h] + x) == Split([h] + a) + r
  {
    if IsTokenSeparator(h) {
      SplitConsSeparator(h, a, x, r);
    } else {
      SplitConsJoined(h, a, x, r);
    }
  }

  /** A separator in front starts an empty piece on both sides. */
  lemma SplitConsSeparator(h: char, a: seq<char>, x: seq<char>, r: seq<seq<char>>)
    requires IsTokenSeparator(h) && Split(x) == Split(a) + r
    ensures Split([h] + x) == Split([h] + a) + r
  {
    SplitAfterSeparator(h, x);
    SplitAfterSeparator(h, a);
    PrependEmptyPiece(Split([h] + x), Split(x), Split([h] + a), Split(a), r);
  }

  /** A separator in front of a text adds an empty first piece. */
  lemma SplitAfterSeparator(c: char, s: seq<char>)
    requires IsTokenSeparator(c)
    ensures Split([c] + s) == [[]] + Split(s)
  {
    assert ([c] + s)[1..] == s;
  }

  lemma PrependEmptyPiece(hx: seq<seq<char>>, sx: seq<seq<char>>, ha: seq<seq<char>>, sa: seq<seq<char>>,
                          r: seq<seq<char>>)
    requires hx == [[]] + sx && ha == [[]] + sa && sx == sa + r
    ensures hx == ha + r
  {
    assert [[]] + (sa + r) == ([[]] + sa) + r;
  }

  /** Any other character in front joins the first piece on both sides. */
  lemma SplitConsJoined(h: char, a: seq<char>, x: seq<char>, r: seq<seq<char>>)
    requires !IsTokenSeparator(h) && Split(x) == Split(a) + r
    ensures Split([h] + x) == Split([h] + a) + r
  {
    SplitStep(h, x);
    SplitStep(h, a);
    JoinFirstPiece([h], Split(a), r);
  }

  lemma JoinFirstPiece(h: seq<char>, l: seq<seq<char>>, r: seq<seq<char>>)
    requires l != []
    ensures [h + (l + r)[0]] + (l + r)[1..] == ([h + l[0]] + l[1..]) + r
  {
    assert (l + r)[1..] == l[1..] + r;
  }

  /** "test" has three bigrams and two trigrams. */
  lemma NgramsOfTest(p: Primitives)
    requires p.lower("test") == "test"
    ensures |Ngrams(p, "test", 2)| == 3
    ensures |Ngrams(p, "test", 3)| == 2
  {
    SplitWithoutSeparator("test");
    assert WindowCount(["test"], 2) == 3;
    NgramsLength(p, "test", 2);
    NgramsLength(p, "test", 3);
  }

  /** "res es" splits at the space into "res" and "es": two bigrams and one. */
  lemma SplitOfResEs()
    ensures Split("res es") == ["res"] + ["es"]
  {
    var a: seq<char> := "res";
    var b: seq<char> := "es";
    assert "res es" == a + [' '] + b;
    SplitAtSeparator(a, ' ', b);
    SplitWithoutSeparator(a);
    SplitWithoutSeparator(b);
  }

  lemma NgramsOfResEs(p: Primitives)
    requires p.lower("res es") == "res es"
    ensures |Ngrams(p, "res es", 2)| == 3
  {
    SplitOfResEs();
    WindowCountConcat(["res"], ["es"], 2);
    NgramsLength(p, "res es", 2);
  }

  lemma {:induction false} WindowCountConcat(a: seq<seq<char>>, b: seq<seq<char>>, n: nat)
    ensures WindowCount(a + b, n) == WindowCount(a, n) + WindowCount(b, n)
  {
    if b != [] {
      assert (a + b)[..|a + b| - 1] == a + b[..|b| - 1];
      WindowCountConcat(a, b[..|b| - 1], n);
    } else {
      assert a + b == a;
    }
  }

  lemma SplitOfShortPieces()
    ensures Split(" 12 12 ") == [[]] + (["12"] + (["12"] + [[]]))
  {
    var t: seq<char> := "12";
    var tail := t + [' '] + [];
    var mid := t + [' '] + tail;
    assert " 12 12 " == [] + [' '] + mid;
    SplitAtSeparator(t, ' ', []);
    SplitAtSeparator(t, ' ', tail);
    SplitAtSeparator([], ' ', mid);
    SplitWithoutSeparator(t);
  }

  /** " 12 12 " has no piece of three characters. */
  lemma NgramsOfShortPieces(p: Primitives)
    requires p.lower(" 12 12 ") == " 12 12 "
    ensures |Ngrams(p, " 12 12 ", 3)| == 0
  {
    var t: seq<char> := "12";
    SplitOfShortPieces();
    WindowCountConcat([t], [[]], 3);
    WindowCountConcat([t], [t] + [[]], 3);
    WindowCountConcat([[]], [t] + ([t] + [[]]), 3);
    NgramsLength(p, " 12 12 ", 3);
  }

  /** Windows are counted in characters: "öäü" has three unigrams. */
  lemma NgramsOfUmlauts(p: Primitives)
    requires p.lower("öäü") == "öäü"
    ensures |Ngrams(p, "öäü", 1)| == 3
  {
    SplitWithoutSeparator("öäü");
    NgramsLength(p, "öäü", 1);
  }
}
