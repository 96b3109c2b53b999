/**
  The quoting helpers of the back end's text module: escaping `"` (and `\`) for embedding a
  form in a Lisp string, stripping one layer of delimiters, the quote operator, and wrapping a
  package path in separators. Rust's `str::replace` with a one-character pattern replaces
  every occurrence; with the two-character pattern `\"` it replaces the leftmost
  non-overlapping occurrences, which for that pattern are all of them.
 */
module TextEscape {
  import opened Strings

  predicate StartsWith(s: seq<char>, p: seq<char>)
  {
    |p| <= |s| && s[..|p|] == p
  }

  predicate EndsWith(s: seq<char>, p: seq<char>)
  {
    |p| <= |s| && s[|s| - |p|..] == p
  }

  // ---------------------------------------------------------------------------------------
  // escape_quotes / unescape_quotes / escape_form
  // ---------------------------------------------------------------------------------------

  /** `escape_quotes`: a `\` inserted before every `"`; every other character kept. */
  function EscapeQuotes(t: seq<char>): (r: seq<char>)
    ensures |r| == |t| + Count(t, '"')
    ensures r != [] ==> r[0] != '"'
    ensures '"' !in t ==> r == t
  {
    if t == [] then []
    else if t[0] == '"' then ['\\', '"'] + EscapeQuotes(t[1..])
    else [t[0]] + EscapeQuotes(t[1..])
  }

  /** `unescape_quotes`: every `\"` replaced by `"`, scanning left to right. */
  function UnescapeQuotes(t: seq<char>): (r: seq<char>)
    ensures |r| <= |t|
  {
    if t == [] then []
    else if |t| >= 2 && t[0] == '\\' && t[1] == '"' then ['"'] + UnescapeQuotes(t[2..])
    else [t[0]] + UnescapeQuotes(t[1..])
  }

  /** Unescaping undoes escaping, for every text: an original `\` is never directly followed
      by a `"` in the escaped text, so every `\"` found there is one the escape inserted. */
  lemma {:induction false} UnescapeEscapeQuotes(t: seq<char>)
    ensures UnescapeQuotes(EscapeQuotes(t)) == t
  {
    if t != [] {
      UnescapeEscapeQuotes(t[1..]);
      if t[0] == '"' {
        assert (['\\', '"'] + EscapeQuotes(t[1..]))[2..] == EscapeQuotes(t[1..]);
      } else {
        assert ([t[0]] + EscapeQuotes(t[1..]))[1..] == EscapeQuotes(t[1..]);
      }
    }
  }

  /** `escape_form`: a `\` inserted before every `"` and before every `\`. */
  function EscapeForm(t: seq<char>): (r: seq<char>)
    ensures |r| == |t| + Count(t, '"') + Count(t, '\\')
  {
    if t == [] then []
    else if t[0] == '"' || t[0] == '\\' then ['\\', t[0]] + EscapeForm(t[1..])
    else [t[0]] + EscapeForm(t[1..])
  }

  /** The reading a Lisp reader gives an escaped string body: `\` takes the next character
      literally. */
  function UnescapeForm(t: seq<char>): (r: seq<char>)
    ensures |r| <= |t|
  {
    if t == [] then []
    else if |t| >= 2 && t[0] == '\\' then [t[1]] + UnescapeForm(t[2..])
    else [t[0]] + UnescapeForm(t[1..])
  }

  lemma {:induction false} UnescapeEscapeForm(t: seq<char>)
    ensures UnescapeForm(EscapeForm(t)) == t
  {
    if t != [] {
      UnescapeEscapeForm(t[1..]);
      if t[0] == '"' || t[0] == '\\' {
        assert (['\\', t[0]] + EscapeForm(t[1..]))[2..] == EscapeForm(t[1..]);
      } else {
        assert ([t[0]] + EscapeForm(t[1..]))[1..] == EscapeForm(t[1..]);
      }
    }
  }

  /** On a text without backslashes the two escapes agree. */
  lemma {:induction false} EscapeFormWithoutBackslash(t: seq<char>)
    requires '\\' !in t
    ensures EscapeForm(t) == EscapeQuotes(t)
  {
    if t != [] {
      EscapeFormWithoutBackslash(t[1..]);
    }
  }

  // ---------------------------------------------------------------------------------------
  // trim_quotes / trim_escaped_quotes / trim_parens
  // ---------------------------------------------------------------------------------------

  /** `r` is `text` with `open` removed from its front when it starts with it, and then `close`
      removed from the back of what is left when that ends with it, and nothing else changed. */
  predicate StripsOnce(text: seq<char>, open: seq<char>, close: seq<char>, r: seq<char>)
  {
    var a := if StartsWith(text, open) then |open| else 0;
    && a + |r| <= |text|
    && r == text[a..a + |r|]
    && (if EndsWith(text[a..], close) then a + |r| + |close| == |text| else a + |r| == |text|)
  }

  /** The common shape of the three `trim_*` functions: `remove(0)` for each character of a
      leading `open`, then `pop()` for each character of a trailing `close`. */
  method StripDelimiters(text: seq<char>, open: seq<char>, close: seq<char>) returns (r: seq<char>)
    ensures StripsOnce(text, open, close, r)
    ensures forall inner :: text == open + inner + close ==> r == inner
  {
    r := text;
    if StartsWith(r, open) {
      r := r[|open|..];
    }
    if EndsWith(r, close) {
      r := r[..|r| - |close|];
    }
    forall inner | text == open + inner + close
      ensures r == inner
    {
      assert text[..|open|] == open;
      assert text[|open|..] == inner + close;
      assert (inner + close)[|inner|..] == close;
    }
  }

  /** `trim_quotes`: one leading and one trailing `"` removed, where present. */
  method TrimQuotes(text: seq<char>) returns (r: seq<char>)
    ensures StripsOnce(text, "\"", "\"", r)
    ensures |text| - 2 <= |r| <= |text|
    ensures forall inner :: text == "\"" + inner + "\"" ==> r == inner
  {
    r := StripDelimiters(text, "\"", "\"");
  }

  /** `trim_escaped_quotes`: one leading and one trailing `\"` removed, where present. */
  method TrimEscapedQuotes(text: seq<char>) returns (r: seq<char>)
    ensures StripsOnce(text, "\\\"", "\\\"", r)
    ensures |text| - 4 <= |r| <= |text|
    ensures forall inner :: text == "\\\"" + inner + "\\\"" ==> r == inner
  {
    r := StripDelimiters(text, "\\\"", "\\\"");
  }

  /** `trim_parens`: one leading `(` and one trailing `)` removed, where present. */
  method TrimParens(text: seq<char>) returns (r: seq<char>)
    ensures StripsOnce(text, "(", ")", r)
    ensures |text| - 2 <= |r| <= |text|
    ensures forall inner :: text == "(" + inner + ")" ==> r == inner
  {
    r := StripDelimiters(text, "(", ")");
  }

  // ---------------------------------------------------------------------------------------
  // quote / trim_quote_op
  // ---------------------------------------------------------------------------------------

  /** The text already carries a quote operator: `#'` (function) or `'`. */
  predicate IsQuoted(t: seq<char>)
  {
    StartsWith(t, "#'") || StartsWith(t, "'")
  }

  /** `quote`: the text itself when it is already quoted, otherwise `'` in front of it. */
  function Quote(t: seq<char>): (r: seq<char>)
    ensures IsQuoted(r)
    ensures IsQuoted(t) ==> r == t
    ensures !IsQuoted(t) ==> r[0] == '\'' && r[1..] == t
  {
    if StartsWith(t, "#'") then t
    else if StartsWith(t, "'") then t
    else "'" + t
  }

  lemma QuoteIdempotent(t: seq<char>)
    ensures Quote(Quote(t)) == Quote(t)
  {
  }

  /** `trim_quote_op` as written: the first two characters dropped after `#'` and also after a
      lone `'`; any other text unchanged. */
  function TrimQuoteOp(t: seq<char>): (r: seq<char>)
    ensures IsQuoted(t) ==> r == t[if |t| < 2 then |t| else 2..]
    ensures !IsQuoted(t) ==> r == t
  {
    if StartsWith(t, "#'") then t[2..]
    else if StartsWith(t, "'") then (if |t| < 2 then [] else t[2..])
    else t
  }

  /** As written, removing the quote that `quote` added also removes the first character of
      the quoted text. */
  lemma TrimQuoteOpDropsQuotedChar()
    ensures Quote("foo") == "'foo"
    ensures TrimQuoteOp(Quote("foo")) == "oo"
  {
    assert "foo"[..2][0] == 'f' && "foo"[..1][0] == 'f';
    assert "'foo"[2..] == "oo";
  }

  /** `trim_quote_op` as evidently intended: exactly the quote operator removed. */
  function TrimQuoteOpCorrected(t: seq<char>): (r: seq<char>)
    ensures StartsWith(t, "#'") ==> r == t[2..]
    ensures !StartsWith(t, "#'") && StartsWith(t, "'") ==> r == t[1..]
    ensures !IsQuoted(t) ==> r == t
  {
    if StartsWith(t, "#'") then t[2..]
    else if StartsWith(t, "'") then t[1..]
    else t
  }

  /** The corrected removal undoes `quote` on every text `quote` changes, and quoting its
      result again restores a `'`-quoted text. */
  lemma TrimQuoteOpCorrectedUndoesQuote(t: seq<char>)
    ensures !IsQuoted(t) ==> TrimQuoteOpCorrected(Quote(t)) == t
    ensures StartsWith(t, "'") && !IsQuoted(t[1..]) ==> Quote(TrimQuoteOpCorrected(t)) == t
  {
    if !IsQuoted(t) {
      var q := Quote(t);
      assert q == "'" + t;
      assert !StartsWith(q, "#'") by {
        assert q[0] == '\'';
      }
    }
    if StartsWith(t, "'") && !IsQuoted(t[1..]) {
      assert t == "'" + t[1..];
    }
  }

  // ---------------------------------------------------------------------------------------
  // add_leading_and_trailing_slash
  // ---------------------------------------------------------------------------------------

  predicate IsSep(c: char)
  {
    c == '/' || c == '\\'
  }

  /** The separator the function adds: `\` when the text holds one anywhere, else `/`. */
  function SepFor(text: seq<char>): (c: char)
    ensures IsSep(c)
    ensures c == '\\' <==> '\\' in text
  {
    if '\\' in text then '\\' else '/'
  }

  /** `add_leading_and_trailing_slash`: a separator inserted in front unless the text starts
      with one, then a separator pushed unless it now ends with one. */
  method AddLeadingAndTrailingSlash(text: seq<char>) returns (r: seq<char>)
    ensures |r| > 0 && IsSep(r[0]) && IsSep(r[|r| - 1])
    ensures ('\\' in r) <==> ('\\' in text)
    ensures var lead := if text != [] && IsSep(text[0]) then 0 else 1;
      && |r| == |text| + lead + (if text == [] || IsSep(text[|text| - 1]) then 0 else 1)
      && r[lead..lead + |text|] == text
      && (lead == 1 ==> r[0] == SepFor(text))
      && (|r| > |text| + lead ==> r[|r| - 1] == SepFor(text))
    ensures text != [] && IsSep(text[0]) && IsSep(text[|text| - 1]) ==> r == text
    ensures text == [] ==> r == "/"
  {
    var sep := SepFor(text);
    r := text;
    if !(r != [] && IsSep(r[0])) {
      r := [sep] + r;
      assert r[1..] == text;
    }
    if !IsSep(r[|r| - 1]) {
      r := r + [sep];
    }
  }
}
