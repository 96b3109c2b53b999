/**
  The string-aware lexing both slurp scans share, and the shapes that end a slurp target.
  A `"` opens or closes a string literal unless the character just left of it is a backslash;
  `(` and `)` move the depth only outside string literals.
 */
module ParenLexer {
  import opened Strings
  import opened Parens

  datatype LexState = LexState(insideString: bool, open: int)

  /** What both slurp scans return: the absolute offsets of the target and of the delimiter it
      is moved past. */
  datatype SlurpTarget = SlurpTarget(slurpTargetStart: int, slurpTargetEnd: int, slurpDest: int)

  /** A `"` at `i` that is not preceded by `\`. */
  predicate TogglesString(s: seq<char>, i: nat)
    requires i < |s|
  {
    s[i] == '"' && (i == 0 || s[i - 1] != '\\')
  }

  /** The lexer after it has also seen `s[i]`. */
  function Step(st: LexState, s: seq<char>, i: nat): (r: LexState)
    requires i < |s|
    ensures r.insideString == (st.insideString != TogglesString(s, i))
    ensures st.open - 1 <= r.open <= st.open + 1
    ensures r.open > st.open <==> s[i] == '(' && !r.insideString
    ensures r.open < st.open <==> s[i] == ')' && !r.insideString
  {
    var inside := if TogglesString(s, i) then !st.insideString else st.insideString;
    var open :=
      if s[i] == '(' && !inside then st.open + 1
      else if s[i] == ')' && !inside then st.open - 1
      else st.open;
    LexState(inside, open)
  }

  /** The lexer after a left-to-right pass over `s[..n]`. */
  function LexForward(s: seq<char>, n: nat): LexState
    requires n <= |s|
  {
    if n == 0 then LexState(false, 0) else Step(LexForward(s, n - 1), s, n - 1)
  }

  /** The lexer after a right-to-left pass over `s[i..]`. */
  function LexBackward(s: seq<char>, i: nat): LexState
    requires i <= |s|
    decreases |s| - i
  {
    if i == |s| then LexState(false, 0) else Step(LexBackward(s, i + 1), s, i)
  }

  /** No character a regular-expression `.` refuses. */
  predicate OneLine(t: seq<char>)
  {
    t == [] || (!IsLineTerminator(t[0]) && OneLine(t[1..]))
  }

  /** No character a regular-expression `.` refuses strictly between `lo` and `hi`. */
  predicate OneLineBetween(t: seq<char>, lo: nat, hi: nat)
    requires lo < hi <= |t|
  {
    OneLine(t[lo + 1..hi])
  }

  /** `/^".*(?<!\\)"$/`: a one-line string literal whose closing quote is not escaped. */
  predicate IsStringLiteral(t: seq<char>)
  {
    && |t| >= 2
    && t[0] == '"' && t[|t| - 1] == '"' && t[|t| - 2] != '\\'
    && OneLineBetween(t, 0, |t| - 1)
  }

  /** Width of the optional leading quote of `/^'?\(/`. */
  function QuotePrefix(t: seq<char>): (r: nat)
    ensures r <= 1 && r <= |t|
    ensures r == 1 <==> |t| > 0 && t[0] == '\''
  {
    if |t| > 0 && t[0] == '\'' then 1 else 0
  }

  /** `/^'?\(.*\)$/`: an optionally quoted one-line parenthesised form. */
  predicate HasListShape(t: seq<char>)
  {
    var p := QuotePrefix(t);
    && |t| >= p + 2
    && t[p] == '(' && t[|t| - 1] == ')'
    && OneLineBetween(t, p, |t| - 1)
  }

  /** The list completion test: the list shape and equal raw counts, strings included. */
  predicate IsListForm(t: seq<char>)
  {
    HasListShape(t) && Balanced(t)
  }

  /** A string literal and a list form never look alike. */
  lemma StringAndListExclusive(t: seq<char>)
    ensures !(IsStringLiteral(t) && HasListShape(t))
  {
  }
}
