/**
  The raw parenthesis tally of the editor scripts: every `(` and `)` is counted, including the
  ones inside string literals. "Balanced" means only that the two counts agree; nesting is not
  looked at.
 */
module Parens {
  import opened Strings

  datatype ParenCounts = ParenCounts(closedCount: nat, openedCount: nat)

  /** Equal numbers of `(` and `)`; the reference the scanners are specified against. */
  predicate Balanced(s: seq<char>)
  {
    Count(s, '(') == Count(s, ')')
  }

  /** Net depth of `s`: opening minus closing parentheses. */
  function Net(s: seq<char>): int
  {
    Count(s, '(') - Count(s, ')')
  }

  /** `countClosedAndOpenedParentheses`: one pass over the text, two counters. */
  method CountClosedAndOpenedParentheses(text: seq<char>) returns (counts: ParenCounts)
    ensures counts.closedCount == Count(text, ')')
    ensures counts.openedCount == Count(text, '(')
  {
    if text == [] {
      return ParenCounts(0, 0);
    }
    var opens := 0;
    var closes := 0;
    var i := 0;
    while i < |text|
      invariant 0 <= i <= |text|
      invariant closes == Count(text[..i], ')')
      invariant opens == Count(text[..i], '(')
    {
      CountPrefixStep(text, i, ')');
      CountPrefixStep(text, i, '(');
      var c := text[i];
      if c == ')' {
        closes := closes + 1;
      } else if c == '(' {
        opens := opens + 1;
      }
      i := i + 1;
    }
    assert text[..i] == text;
    return ParenCounts(closes, opens);
  }

  /** `hasBalancedNumberOfParentheses`: the two raw counts are equal. */
  method HasBalancedNumberOfParentheses(text: seq<char>) returns (b: bool)
    ensures b <==> Count(text, '(') == Count(text, ')')
  {
    var counts := CountClosedAndOpenedParentheses(text);
    b := counts.closedCount == counts.openedCount;
  }

  lemma {:induction false} NetConcat(a: seq<char>, b: seq<char>)
    ensures Net(a + b) == Net(a) + Net(b)
  {
    CountConcat(a, b, '(');
    CountConcat(a, b, ')');
  }

  /** The tally ignores order: `")("` counts as balanced although it closes before it opens. */
  lemma CloseThenOpenIsBalanced()
    ensures Balanced(")(")
  {
    assert ")("[1..] == "(";
    assert "("[1..] == [];
  }
}
