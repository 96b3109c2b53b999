/**
  Locating a search hit for display: the `\n`-inclusive line that holds a byte offset, the hit's
  column in that line with tabs widened to four, and a window of context characters around
  the column. The model counts one byte per character throughout.
 */
module TextContext {
  import opened Wrappers
  import opened Strings

  function Min(a: int, b: int): int { if a <= b then a else b }
  function Max(a: int, b: int): int { if a >= b then a else b }

  // ---------------------------------------------------------------------------------------
  // get_surrounding_context
  // ---------------------------------------------------------------------------------------

  /** Where the window starts: the window of width `min(2w, n)` centred on `p`, moved right or
      left as little as needed to lie inside the text. */
  function ContextWindowStart(n: nat, p: nat, w: nat): (s: nat)
    ensures s <= p
    ensures s + Min(2 * w, n) <= n
  {
    Max(0, Min(p - w, n - 2 * w))
  }

  /** The window of `w` characters on either side of `p`, shifted inside the text. */
  datatype Context = Context(ctx: seq<char>, offset: nat)

  /** `get_surrounding_context`: `w` characters either side of `p`; characters the window loses
      at one end of the text are added at the other end. */
  method GetSurroundingContext(text: seq<char>, p: nat, w: nat) returns (r: Context)
    ensures r.offset == ContextWindowStart(|text|, p, w)
    ensures |r.ctx| == Min(2 * w, |text|)
    ensures r.offset + |r.ctx| <= |text| && r.ctx == text[r.offset..r.offset + |r.ctx|]
    ensures r.offset <= p
    ensures p <= |text| ==> p <= r.offset + |r.ctx|
    ensures w <= p && p + w <= |text| ==> r.offset == p - w && |r.ctx| == 2 * w
  {
    var n := |text|;
    var startIx := if p <= w then 0 else p - w;
    var endIx := if p + w >= n then n else p + w;
    // unused characters at the left and at the right end of the window
    var startOff := Max(w - p, 0);
    var endOff := Max(p + w - n, 0);
    if startOff > 0 && endOff == 0 {
      endIx := Min(endIx + startOff, n);
    } else if endOff > 0 && startOff == 0 {
      startIx := Max(startIx - endOff, 0);
    }
    r := Context(text[startIx..endIx], startIx);
  }

  // ---------------------------------------------------------------------------------------
  // get_line_from_byte_offset
  // ---------------------------------------------------------------------------------------

  /** Length of the first `\n`-inclusive line of `t`: through its first `\n`, or all of it. */
  function FirstLineLength(t: seq<char>): (k: nat)
    requires t != []
    ensures 1 <= k <= |t|
    ensures forall i :: 0 <= i < k - 1 ==> t[i] != '\n'
    ensures k < |t| ==> t[k - 1] == '\n'
  {
    if t[0] == '\n' || |t| == 1 then 1 else 1 + FirstLineLength(t[1..])
  }

  function Concat(ls: seq<seq<char>>): seq<char>
  {
    if ls == [] then [] else ls[0] + Concat(ls[1..])
  }

  /** `str::split_inclusive('\n')`: the lines of `t`, each keeping its `\n`; no empty piece, and
      none at all for the empty text. */
  function Lines(t: seq<char>): (ls: seq<seq<char>>)
    ensures Concat(ls) == t
    decreases |t|
  {
    if t == [] then []
    else
      var k := FirstLineLength(t);
      assert t == t[..k] + t[k..];
      [t[..k]] + Lines(t[k..])
  }

  /** Line `j` is non-empty, ends in `\n` unless it is the last, and has no `\n` before its
      end. */
  lemma {:induction false} LineShapeAt(t: seq<char>, j: nat)
    requires j < |Lines(t)|
    ensures Lines(t)[j] != []
    ensures j < |Lines(t)| - 1 ==> Lines(t)[j][|Lines(t)[j]| - 1] == '\n'
    ensures forall i :: 0 <= i < |Lines(t)[j]| - 1 ==> Lines(t)[j][i] != '\n'
    decreases |t|
  {
    var ls := Lines(t);
    var k := FirstLineLength(t);
    var rest := Lines(t[k..]);
    assert ls == [t[..k]] + rest;
    if j > 0 {
      LineShapeAt(t[k..], j - 1);
      assert ls[j] == rest[j - 1];
    } else {
      var line := t[..k];
      assert ls[0] == line;
      assert forall i :: 0 <= i < |line| - 1 ==> line[i] == t[i];
      if |ls| > 1 {
        assert rest != [];
        assert k < |t| && line[k - 1] == '\n';
      }
    }
  }

  /** Every line is non-empty, every line but the last ends in `\n`, and no line has a `\n`
      before its end. */
  lemma LinesShape(t: seq<char>)
    ensures forall j :: 0 <= j < |Lines(t)| ==> Lines(t)[j] != []
    ensures forall j :: 0 <= j < |Lines(t)| - 1 ==> Lines(t)[j][|Lines(t)[j]| - 1] == '\n'
    ensures forall j, i :: 0 <= j < |Lines(t)| && 0 <= i < |Lines(t)[j]| - 1 ==> Lines(t)[j][i] != '\n'
  {
    forall j | 0 <= j < |Lines(t)|
      ensures Lines(t)[j] != []
      ensures j < |Lines(t)| - 1 ==> Lines(t)[j][|Lines(t)[j]| - 1] == '\n'
      ensures forall i :: 0 <= i < |Lines(t)[j]| - 1 ==> Lines(t)[j][i] != '\n'
    {
      LineShapeAt(t, j);
    }
  }

  lemma {:induction false} ConcatSplit(ls: seq<seq<char>>, j: nat)
    requires j <= |ls|
    ensures Concat(ls) == Concat(ls[..j]) + Concat(ls[j..])
  {
    if j > 0 {
      assert ls[..j][1..] == ls[1..][..j - 1];
      assert ls[j..] == ls[1..][j - 1..];
      ConcatSplit(ls[1..], j - 1);
    } else {
      assert ls[j..] == ls;
    }
  }

  /** Offset at which line `j` begins. */
  function LineStart(ls: seq<seq<char>>, j: nat): nat
    requires j <= |ls|
  {
    |Concat(ls[..j])|
  }

  /** Line `j` sits in the text at `LineStart`, and the next line starts right after it. */
  lemma LineStartStep(ls: seq<seq<char>>, j: nat)
    requires j < |ls|
    ensures LineStart(ls, j + 1) == LineStart(ls, j) + |ls[j]|
    ensures LineStart(ls, j + 1) <= |Concat(ls)|
    ensures Concat(ls)[LineStart(ls, j)..LineStart(ls, j + 1)] == ls[j]
  {
    ConcatSplit(ls[..j + 1], j);
    assert ls[..j + 1][..j] == ls[..j];
    assert ls[..j + 1][j..] == [ls[j]];
    assert Concat([ls[j]]) == ls[j] + Concat([]);
    ConcatSplit(ls, j + 1);
  }

  /** `replace('\t', "    ")`. */
  function ExpandTabs(s: seq<char>): (r: seq<char>)
    ensures |r| == |s| + 3 * Count(s, '\t')
    ensures '\t' !in r
  {
    if s == [] then []
    else (if s[0] == '\t' then "    " else [s[0]]) + ExpandTabs(s[1..])
  }

  /** Line `ix` holds offset `o` as `get_line_from_byte_offset` looks for it: the first line
      whose end is at or after `o`. */
  predicate HoldsOffset(ls: seq<seq<char>>, ix: nat, o: nat)
  {
    && ix < |ls|
    && LineStart(ls, ix) <= o <= LineStart(ls, ix) + |ls[ix]|
    && (ix == 0 || LineStart(ls, ix) < o)
  }

  /** The column of offset `o` in line `ix`, tabs counted as four. */
  function ColumnOf(ls: seq<seq<char>>, ix: nat, o: nat): nat
    requires HoldsOffset(ls, ix, o)
  {
    |ExpandTabs(ls[ix][..o - LineStart(ls, ix)])|
  }

  /** Line index, column (tabs counted as four) and the line itself. */
  datatype LinePos = LinePos(ix: nat, col: nat, line: seq<char>)

  /** `get_line_from_byte_offset`; `None` where the source panics. The line returned is the
      first whose end is at or after `o`. */
  method GetLineFromByteOffset(text: seq<char>, o: nat) returns (r: Option<LinePos>)
    ensures r.None? <==> text == [] || o > |text|
    ensures r.Some? ==>
      && HoldsOffset(Lines(text), r.value.ix, o)
      && r.value.line == Lines(text)[r.value.ix]
      && r.value.col == ColumnOf(Lines(text), r.value.ix, o)
  {
    var ls := Lines(text);
    var offset := 0;
    var ix := 0;
    while ix < |ls|
      invariant 0 <= ix <= |ls|
      invariant offset == LineStart(ls, ix)
      invariant ix == 0 || offset < o
    {
      LineStartStep(ls, ix);
      var l := ls[ix];
      offset := offset + |l|;
      if offset >= o {
        var linePos := o - (offset - |l|);
        var col := |ExpandTabs(l[..linePos])|;
        return Some(LinePos(ix, col, l));
      }
      ix := ix + 1;
    }
    assert ls[..|ls|] == ls;
    r := None;
  }

  /** The column is the offset into the line, widened by three for each tab before it. */
  lemma ColumnCountsTabs(line: seq<char>, k: nat)
    requires k <= |line|
    ensures |ExpandTabs(line[..k])| == k + 3 * Count(line[..k], '\t')
    ensures '\t' !in line[..k] ==> |ExpandTabs(line[..k])| == k
  {
    if '\t' !in line[..k] {
      CountAbsent(line[..k], '\t');
    }
  }
}
