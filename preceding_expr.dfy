/**
  `getPrecedingExpr`: the expression that ends at the cursor, for "evaluate last expression".
  The scan runs right to left over the text before the cursor. When the first character that
  is neither blank nor `(` is a `)`, the result runs from the `(` where the raw paren count
  first balances; otherwise it is the atom after the last blank. The scan does not know about
  string literals.
 */
module PrecedingExpr {
  import opened Wrappers
  import opened Strings
  import opened Parens

  /** A character the backward skip stops at: neither blank nor `(`. */
  predicate Significant(c: char)
  {
    !IsBlank(c) && c != '('
  }

  /** Index of the last character of `s` that is neither blank nor `(`. */
  function LastSignificant(s: seq<char>): (r: Option<nat>)
    ensures r.None? <==> forall m :: 0 <= m < |s| ==> !Significant(s[m])
    ensures r.Some? ==> r.value < |s| && Significant(s[r.value])
    ensures r.Some? ==> forall m :: r.value < m < |s| ==> !Significant(s[m])
  {
    if s == [] then None
    else if Significant(s[|s| - 1]) then Some(|s| - 1)
    else LastSignificant(s[..|s| - 1])
  }

  /** The largest `k < j` where `s[k]` is `(` and the raw counts of `s[k..]` agree. */
  function LastBalancedOpen(s: seq<char>, j: nat): (r: Option<nat>)
    requires j <= |s|
    ensures r.None? <==> forall k :: 0 <= k < j && s[k] == '(' ==> !Balanced(s[k..])
    ensures r.Some? ==> r.value < j && s[r.value] == '(' && Balanced(s[r.value..])
    ensures r.Some? ==> forall k :: r.value < k < j && s[k] == '(' ==> !Balanced(s[k..])
  {
    if j == 0 then None
    else if s[j - 1] == '(' && Balanced(s[j - 1..]) then Some(j - 1)
    else LastBalancedOpen(s, j - 1)
  }

  /** Start of the atom that ends at `j`: the last blank before `j`, or 0 when there is none. */
  function AtomStart(s: seq<char>, j: nat): (r: nat)
    requires j <= |s|
    ensures r <= j
    ensures forall k :: r < k < j ==> !IsBlank(s[k])
    ensures r > 0 ==> r < j && IsBlank(s[r])
    ensures r == 0 && j > 0 && !IsBlank(s[0]) ==> forall k :: 0 <= k < j ==> !IsBlank(s[k])
  {
    if j == 0 then 0
    else if IsBlank(s[j - 1]) && j - 1 > 0 then j - 1
    else if j - 1 == 0 then 0
    else AtomStart(s, j - 1)
  }

  /** A form that opens at `k` and balances keeps both properties once trailing blanks are trimmed. */
  lemma TrimmedFormIsBalanced(s: seq<char>, k: nat)
    requires k < |s| && s[k] == '(' && Balanced(s[k..])
    ensures Trim(s[k..]) != [] && Trim(s[k..])[0] == '(' && Balanced(Trim(s[k..]))
  {
    var t := s[k..];
    var r := Trim(t);
    assert LeadingWs(t) == 0;
    assert t == r + t[|r|..];
    CountConcat(r, t[|r|..], '(');
    CountConcat(r, t[|r|..], ')');
    forall i | 0 <= i < |t[|r|..]|
      ensures IsJsWhitespace(t[|r|..][i])
    {
      assert t[|r|..][i] == t[|r| + i];
    }
    CountAbsent(t[|r|..], '(');
    CountAbsent(t[|r|..], ')');
  }

  /** The expression `getPrecedingExpr` returns, stated through the three searches above. */
  function PrecedingExprSpec(text: seq<char>): Option<seq<char>>
  {
    match LastSignificant(text)
    case None => None
    case Some(j) =>
      if text[j] == ')' then
        match LastBalancedOpen(text, j)
        case None => None
        case Some(k) => Some(Trim(text[k..]))
      else
        Some(Trim(text[AtomStart(text, j)..]))
  }

  /** No character after `j` is significant. */
  ghost predicate NothingSignificantAbove(text: seq<char>, j: int)
  {
    forall m :: j < m < |text| && 0 <= m ==> !Significant(text[m])
  }

  /** No `(` strictly between `i` and `j` opens a count-balanced suffix. */
  ghost predicate NoBalancedOpenBetween(text: seq<char>, i: int, j: int)
  {
    forall k :: i < k < j && 0 <= k < |text| && text[k] == '(' ==> !Balanced(text[k..])
  }

  /** No blank strictly between `i` and `j`. */
  ghost predicate NoBlankBetween(text: seq<char>, i: int, j: int)
  {
    forall k :: i < k < j && 0 <= k < |text| ==> !IsBlank(text[k])
  }

  lemma SpecAtLastSignificant(text: seq<char>, sig: nat)
    requires sig < |text| && Significant(text[sig])
    requires forall m :: sig < m < |text| ==> !Significant(text[m])
    ensures LastSignificant(text) == Some(sig)
  {
  }

  lemma SpecForm(text: seq<char>, sig: nat, k: nat)
    requires LastSignificant(text) == Some(sig) && text[sig] == ')'
    requires k < sig && text[k] == '(' && Balanced(text[k..])
    requires forall k' :: k < k' < sig && text[k'] == '(' ==> !Balanced(text[k'..])
    ensures PrecedingExprSpec(text) == Some(Trim(text[k..]))
  {
    assert LastBalancedOpen(text, sig) == Some(k);
  }

  lemma SpecAtom(text: seq<char>, sig: nat, k: nat)
    requires LastSignificant(text) == Some(sig) && text[sig] != ')'
    requires k <= sig
    requires forall k' :: k < k' < sig ==> !IsBlank(text[k'])
    requires k > 0 ==> IsBlank(text[k])
    requires k == 0 && !IsBlank(text[0]) ==> forall k' :: 0 <= k' < sig ==> !IsBlank(text[k'])
    ensures PrecedingExprSpec(text) == Some(Trim(text[k..]))
  {
    assert AtomStart(text, sig) == k;
  }

  /** The scan ends without a result: nothing significant, or a `)` no `(` balances. */
  lemma ScanFoundNothing(text: seq<char>, sig: int)
    requires -1 <= sig < |text|
    requires sig == -1 ==> NothingSignificantAbove(text, -1)
    requires sig >= 0 ==>
      && NothingSignificantAbove(text, sig) && Significant(text[sig]) && text[sig] == ')'
      && NoBalancedOpenBetween(text, -1, sig)
    ensures PrecedingExprSpec(text) == None
  {
    if sig >= 0 {
      SpecAtLastSignificant(text, sig);
      assert LastBalancedOpen(text, sig) == None;
    }
  }

  /** The scan stops at the `(` at `k` that balances the `)` at `sig`. */
  lemma ScanFoundForm(text: seq<char>, sig: int, k: int)
    requires 0 <= k < sig < |text|
    requires NothingSignificantAbove(text, sig) && Significant(text[sig]) && text[sig] == ')'
    requires text[k] == '(' && Balanced(text[k..]) && NoBalancedOpenBetween(text, k, sig)
    ensures PrecedingExprSpec(text) == Some(Trim(text[k..]))
  {
    SpecAtLastSignificant(text, sig);
    SpecForm(text, sig, k);
  }

  /** The scan stops at the blank at `lo`, or runs off the start (`lo == -1`), inside an atom. */
  lemma ScanFoundAtom(text: seq<char>, sig: int, lo: int)
    requires -1 <= lo < sig < |text|
    requires NothingSignificantAbove(text, sig) && Significant(text[sig]) && text[sig] != ')'
    requires NoBlankBetween(text, lo, sig) && (lo >= 0 ==> IsBlank(text[lo]))
    ensures PrecedingExprSpec(text) == Some(Trim(text[if lo == -1 then 0 else lo..]))
  {
    SpecAtLastSignificant(text, sig);
    SpecAtom(text, sig, if lo == -1 then 0 else lo);
  }

  /** `getPrecedingExpr`, with the `null` result as `None`. */
  method GetPrecedingExpr(text: seq<char>) returns (r: Option<seq<char>>)
    ensures r == PrecedingExprSpec(text)
  {
    var depth := 0;
    var insideBraces := false;
    var raw := false;
    var startIx := -1;
    ghost var sig := -1;
    var i := |text| - 1;
    while i >= 0
      invariant -1 <= i < |text|
      invariant startIx == -1
      invariant depth == Count(text[i + 1..], ')') - Count(text[i + 1..], '(')
      invariant -1 <= sig < |text| && (sig == -1 || i < sig)
      invariant NothingSignificantAbove(text, if sig == -1 then i else sig)
      invariant sig >= 0 ==> Significant(text[sig])
      invariant insideBraces <==> sig >= 0 && text[sig] == ')'
      invariant raw <==> sig >= 0 && text[sig] != ')'
      invariant insideBraces ==> NoBalancedOpenBetween(text, i, sig)
      invariant raw ==> NoBlankBetween(text, i, sig)
    {
      CountSuffixStep(text, i, ')');
      CountSuffixStep(text, i, '(');
      var c := text[i];
      if c == ')' {
        if !raw {
          insideBraces := true;
        }
        depth := depth + 1;
        if sig == -1 {
          sig := i;
        }
      } else if c == '(' {
        depth := depth - 1;
        if insideBraces && depth == 0 {
          startIx := i;
          break;
        }
      } else if !IsBlank(c) && !insideBraces {
        raw := true;
        if sig == -1 {
          sig := i;
        }
      } else if IsBlank(c) && raw {
        startIx := i;
        break;
      }
      i := i - 1;
    }
    if startIx == -1 && !raw {
      ScanFoundNothing(text, sig);
    } else if raw {
      ScanFoundAtom(text, sig, startIx);
    } else {
      ScanFoundForm(text, sig, startIx);
    }
    if raw && startIx == -1 {
      startIx := 0;
    }
    if startIx == -1 {
      return None;
    }
    r := Some(Trim(text[startIx..]));
  }

  /** When the expression before the cursor ends in `)`, the result is a form: it opens with `(`
      and its raw counts agree. */
  lemma PrecedingFormIsBalanced(text: seq<char>)
    requires LastSignificant(text).Some? && text[LastSignificant(text).value] == ')'
    requires PrecedingExprSpec(text).Some?
    ensures PrecedingExprSpec(text).value != []
    ensures PrecedingExprSpec(text).value[0] == '(' && Balanced(PrecedingExprSpec(text).value)
  {
    var k := LastBalancedOpen(text, LastSignificant(text).value).value;
    TrimmedFormIsBalanced(text, k);
  }

  /** Text made only of blanks has no preceding expression. */
  lemma BlankTextHasNoExpr(text: seq<char>)
    requires forall m :: 0 <= m < |text| ==> IsBlank(text[m])
    ensures PrecedingExprSpec(text) == None
  {
  }

  /** A preceding expression is a trimmed suffix of the text before the cursor. */
  lemma PrecedingExprIsTrimmedSuffix(text: seq<char>)
    requires PrecedingExprSpec(text).Some?
    ensures exists k :: 0 <= k <= |text| && PrecedingExprSpec(text).value == Trim(text[k..])
  {
    var j := LastSignificant(text).value;
    if text[j] == ')' {
      var k := LastBalancedOpen(text, j).value;
      assert PrecedingExprSpec(text).value == Trim(text[k..]);
    } else {
      var k := AtomStart(text, j);
      assert PrecedingExprSpec(text).value == Trim(text[k..]);
    }
  }
}
