/**
  `getSymbolUnderOrBeforeCursor`: the symbol that touches the cursor, for "find definition".
  The part before the cursor is taken from the trimmed text before it, back to the last
  delimiter; the part after the cursor is added only when the cursor sits inside a symbol.
 */
module SymbolScan {
  import opened Wrappers
  import opened Strings

  /** The characters that end a symbol: `"`, `(`, `)`, `#`, space, newline and tab. */
  predicate IsDelimiter(c: char)
  {
    c == '"' || c == '(' || c == ')' || c == '#' || c == ' ' || c == '\n' || c == '\t'
  }

  /** The decision not to extend into the text after the cursor. It is taken on the untrimmed text
      before the cursor: it ends in a blank or `"`, or the text after is empty or starts with one. */
  predicate IgnoreAfter(before: seq<char>, after: seq<char>)
  {
    || (|before| > 0 && (IsBlank(before[|before| - 1]) || before[|before| - 1] == '"'))
    || after == []
    || IsBlank(after[0]) || after[0] == '"'
  }

  /** Index just after the last delimiter of `t`, or 0 when `t` has none. */
  function SymbolStart(t: seq<char>): (r: nat)
    ensures r <= |t|
    ensures forall k :: r <= k < |t| ==> !IsDelimiter(t[k])
    ensures r > 0 ==> IsDelimiter(t[r - 1])
  {
    if t == [] then 0
    else if IsDelimiter(t[|t| - 1]) then |t|
    else SymbolStart(t[..|t| - 1])
  }

  /** Index of the first delimiter of `a`, or `|a|` when it has none. */
  function SymbolEnd(a: seq<char>): (r: nat)
    ensures r <= |a|
    ensures forall k :: 0 <= k < r ==> !IsDelimiter(a[k])
    ensures r < |a| ==> IsDelimiter(a[r])
  {
    if a == [] then 0
    else if IsDelimiter(a[0]) then 0
    else 1 + SymbolEnd(a[1..])
  }

  /** `getSymbolUnderOrBeforeCursor`, with the `null` result as `None`. */
  method GetSymbolUnderOrBeforeCursor(before: seq<char>, after: seq<char>) returns (r: Option<seq<char>>)
    ensures r.None? <==> Trim(before) == []
    ensures r.Some? ==>
      r.value == Trim(before)[SymbolStart(Trim(before))..]
                 + (if IgnoreAfter(before, after) then [] else after[..SymbolEnd(after)])
    ensures r.Some? ==> forall k :: 0 <= k < |r.value| ==> !IsDelimiter(r.value[k])
  {
    if before == [] && after == [] {
      return None;
    }
    var ignoreAfter := IgnoreAfter(before, after);
    var t := Trim(before);
    var startIx := -1;
    var i := |t| - 1;
    while i >= 0
      invariant -1 <= i < |t|
      invariant startIx == (if i == -1 && |t| > 0 then 0 else -1)
      invariant forall k :: i < k < |t| ==> !IsDelimiter(t[k])
    {
      var c := t[i];
      if IsDelimiter(c) {
        startIx := i + 1;
        break;
      }
      if i == 0 {
        startIx := 0;
      }
      i := i - 1;
    }
    if startIx == -1 {
      return None;
    }
    assert startIx == SymbolStart(t);
    var head := t[startIx..];
    if !ignoreAfter {
      var endIx := 0;
      var j := 0;
      while j < |after|
        invariant 0 <= j < |after|
        invariant endIx == 0
        invariant forall k :: 0 <= k < j ==> !IsDelimiter(after[k])
      {
        var c := after[j];
        if IsDelimiter(c) {
          endIx := j;
          break;
        }
        if j == |after| - 1 {
          endIx := j + 1;
          break;
        }
        j := j + 1;
      }
      assert endIx == SymbolEnd(after);
      return Some(head + after[..endIx]);
    }
    return Some(head);
  }
}
