/**
  `getSurroundingTopLevelExpr`: the top-level form around the cursor, for "compile form".
  Backwards, it looks for the nearest `(` that starts the text or whose prefix has equal raw
  paren counts; forwards, it looks for the `)` that brings the running count back to zero.
  Neither scan knows about string literals.
 */
module TopLevelForm {
  import opened Wrappers
  import opened Strings
  import opened Parens

  /** Where the form starts: absolute offset, line, and column (1-based). */
  datatype Position = Position(pos: int, line: int, col: int)

  datatype TopLevelExpr = TopLevelExpr(position: Position, text: seq<char>)

  /** A `(` at `k` that is the first character or whose prefix `s[..k]` is count-balanced. */
  predicate TopLevelOpenAt(s: seq<char>, k: nat)
  {
    k < |s| && s[k] == '(' && (k == 0 || Balanced(s[..k]))
  }

  /** The largest `k < j` at which a top-level `(` stands. */
  function LastTopLevelOpenBelow(s: seq<char>, j: nat): (r: Option<nat>)
    requires j <= |s|
    ensures r.None? <==> forall k :: 0 <= k < j ==> !TopLevelOpenAt(s, k)
    ensures r.Some? ==> r.value < j && TopLevelOpenAt(s, r.value)
    ensures r.Some? ==> forall k :: r.value < k < j ==> !TopLevelOpenAt(s, k)
  {
    if j == 0 then None
    else if TopLevelOpenAt(s, j - 1) then Some(j - 1)
    else LastTopLevelOpenBelow(s, j - 1)
  }

  /** The first `i` where `after[i]` is `)` and the depth `base + Net(after[..i+1])` is zero. */
  function FirstReturnToZero(after: seq<char>, base: int, from: nat): (r: Option<nat>)
    requires from <= |after|
    ensures r.None? <==> forall i :: from <= i < |after| && after[i] == ')' ==> base + Net(after[..i + 1]) != 0
    ensures r.Some? ==> from <= r.value < |after| && after[r.value] == ')' && base + Net(after[..r.value + 1]) == 0
    ensures r.Some? ==> forall i :: from <= i < r.value && after[i] == ')' ==> base + Net(after[..i + 1]) != 0
    decreases |after| - from
  {
    if from == |after| then None
    else if after[from] == ')' && base + Net(after[..from + 1]) == 0 then Some(from)
    else FirstReturnToZero(after, base, from + 1)
  }

  /** What `getSurroundingTopLevelExpr` returns, stated through the searches above. */
  function SurroundingTopLevelExprSpec(before: seq<char>, after: seq<char>, cursorPos: int, cursorLine: int)
    : Option<TopLevelExpr>
  {
    match LastTopLevelOpenBelow(before, |before|)
    case None => None
    case Some(k) =>
      if Net(before[k..]) == 0 then None
      else
        match FirstReturnToZero(after, Net(before[k..]), 0)
        case None => None
        case Some(i) =>
          Some(TopLevelExpr(
                 Position(cursorPos - (|before| - k), cursorLine - Count(before[k..], '\n'),
                          k - LastIndexOf(before[..k], '\n')),
                 before[k..] + after[..i + 1]))
  }

  /** The backward half of `getSurroundingTopLevelExpr`: walks left from the cursor, counting
      characters, newlines and raw paren depth, and stops at the first top-level `(`. */
  method ScanBackToTopLevelOpen(before: seq<char>)
    returns (startIx: int, depth: int, posDiff: nat, lineDiff: nat)
    ensures startIx == -1 <==> LastTopLevelOpenBelow(before, |before|).None?
    ensures startIx != -1 ==>
      && 0 <= startIx < |before|
      && LastTopLevelOpenBelow(before, |before|) == Some(startIx)
      && depth == Net(before[startIx..])
      && posDiff == |before| - startIx
      && lineDiff == Count(before[startIx..], '\n')
  {
    startIx := -1;
    depth := 0;
    posDiff := 0;
    lineDiff := 0;
    var i := |before| - 1;
    while i >= 0
      invariant -1 <= i < |before|
      invariant posDiff == |before| - 1 - i
      invariant lineDiff == Count(before[i + 1..], '\n')
      invariant depth == Net(before[i + 1..])
      invariant forall k :: i < k < |before| ==> !TopLevelOpenAt(before, k)
    {
      CountSuffixStep(before, i, '\n');
      CountSuffixStep(before, i, '(');
      CountSuffixStep(before, i, ')');
      var c := before[i];
      posDiff := posDiff + 1;
      if c == '\n' {
        lineDiff := lineDiff + 1;
      }
      if c == '(' {
        depth := depth + 1;
        var isTop := i == 0;
        if !isTop {
          isTop := HasBalancedNumberOfParentheses(before[..i]);
        }
        if isTop {
          startIx := i;
          assert TopLevelOpenAt(before, i);
          return;
        }
      } else if c == ')' {
        depth := depth - 1;
      }
      i := i - 1;
    }
  }

  /** The forward half: the first `)` after the cursor at which `base` plus the raw depth of
      the text so far is zero. */
  method ScanForwardToClose(after: seq<char>, base: int) returns (r: Option<nat>)
    ensures r == FirstReturnToZero(after, base, 0)
  {
    var depth := base;
    var j := 0;
    while j < |after|
      invariant 0 <= j <= |after|
      invariant depth == base + Net(after[..j])
      invariant forall m :: 0 <= m < j && after[m] == ')' ==> base + Net(after[..m + 1]) != 0
    {
      CountPrefixStep(after, j, '(');
      CountPrefixStep(after, j, ')');
      var c := after[j];
      if c == '(' {
        depth := depth + 1;
      } else if c == ')' {
        depth := depth - 1;
        if depth == 0 {
          return Some(j);
        }
      }
      j := j + 1;
    }
    assert after[..j] == after;
    return None;
  }

  /** `getSurroundingTopLevelExpr`; `cursorCol` is accepted and, as in the source, not used. */
  method GetSurroundingTopLevelExpr(before: seq<char>, after: seq<char>, cursorPos: int, cursorLine: int, cursorCol: int)
    returns (r: Option<TopLevelExpr>)
    ensures r == SurroundingTopLevelExprSpec(before, after, cursorPos, cursorLine)
  {
    var startIx, depth, posDiff, lineDiff := ScanBackToTopLevelOpen(before);
    if startIx == -1 || depth == 0 {
      return None;
    }
    // The source's `lastLineBegin === 0` is a comparison, not an assignment: with no newline
    // before the form the column is computed against -1.
    var lastLineBegin := LastIndexOf(before[..startIx], '\n');
    var col := startIx - lastLineBegin;
    var startingPos := Position(cursorPos - posDiff, cursorLine - lineDiff, col);
    var close := ScanForwardToClose(after, depth);
    if close.None? {
      return None;
    }
    return Some(TopLevelExpr(startingPos, before[startIx..] + after[..close.value + 1]));
  }

  /** A found form opens with `(`, closes with `)`, and has equal raw paren counts. */
  lemma FoundFormIsBalanced(before: seq<char>, after: seq<char>, cursorPos: int, cursorLine: int)
    requires SurroundingTopLevelExprSpec(before, after, cursorPos, cursorLine).Some?
    ensures var t := SurroundingTopLevelExprSpec(before, after, cursorPos, cursorLine).value.text;
      |t| >= 2 && t[0] == '(' && t[|t| - 1] == ')' && Balanced(t)
  {
    var k := LastTopLevelOpenBelow(before, |before|).value;
    var i := FirstReturnToZero(after, Net(before[k..]), 0).value;
    NetConcat(before[k..], after[..i + 1]);
  }
}
