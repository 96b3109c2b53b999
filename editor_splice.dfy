/**
  How the editor applies a slurp target to the document `before + after`, the cursor sitting
  at `|before|`. Forward, it deletes the target together with the character just left of it
  and inserts a blank and the target at the destination `)`; backward, it deletes the target
  together with the character just right of it and inserts the target and a blank just right
  of the destination `(`. Both edits are given in the coordinates of the unedited document,
  the insertion lying outside the deleted range.
 */
module EditorSplice {
  import opened Wrappers
  import opened Strings
  import opened Parens
  import opened ParenLexer
  import SlurpForward
  import SlurpBackward

  /** The forward edit as written: `[start - 1, end)` deleted, `' ' + token` inserted at `dest`. */
  function SpliceForward(doc: seq<char>, t: SlurpTarget): seq<char>
    requires 0 <= t.slurpDest < t.slurpTargetStart <= t.slurpTargetEnd <= |doc|
  {
    var d, s, e := t.slurpDest, t.slurpTargetStart, t.slurpTargetEnd;
    doc[..d] + " " + doc[s..e] + doc[d..s - 1] + doc[e..]
  }

  /** The forward edit as intended: the character left of the target is deleted with it only
      when it is not the destination `)` itself. */
  function SpliceForwardCorrected(doc: seq<char>, t: SlurpTarget): seq<char>
    requires 0 <= t.slurpDest < t.slurpTargetStart <= t.slurpTargetEnd <= |doc|
  {
    var d, s, e := t.slurpDest, t.slurpTargetStart, t.slurpTargetEnd;
    var from := if s - 1 > d then s - 1 else s;
    doc[..d] + " " + doc[s..e] + doc[d..from] + doc[e..]
  }

  /** The backward edit as written: `[start, end + 1)` deleted, `token + ' '` inserted at `dest`. */
  function SpliceBackward(doc: seq<char>, t: SlurpTarget): seq<char>
    requires 0 <= t.slurpTargetStart <= t.slurpTargetEnd < t.slurpDest <= |doc|
  {
    var s, e, d := t.slurpTargetStart, t.slurpTargetEnd, t.slurpDest;
    doc[..s] + doc[e + 1..d] + doc[s..e] + " " + doc[d..]
  }

  /** The backward edit as intended: the character right of the target is deleted with it only
      when it is not the destination `(` itself. */
  function SpliceBackwardCorrected(doc: seq<char>, t: SlurpTarget): seq<char>
    requires 0 <= t.slurpTargetStart <= t.slurpTargetEnd < t.slurpDest <= |doc|
  {
    var s, e, d := t.slurpTargetStart, t.slurpTargetEnd, t.slurpDest;
    var to := if e + 1 < d then e + 1 else e;
    doc[..s] + doc[to..d] + doc[s..e] + " " + doc[d..]
  }

  /** Net depth of five consecutive pieces. */
  lemma NetConcat5(a: seq<char>, b: seq<char>, c: seq<char>, x: seq<char>, y: seq<char>)
    ensures Net(a + b + c + x + y) == Net(a) + Net(b) + Net(c) + Net(x) + Net(y)
  {
    NetConcat(a, b);
    NetConcat(a + b, c);
    NetConcat(a + b + c, x);
    NetConcat(a + b + c + x, y);
  }

  /** The net depth of a single character. */
  lemma NetOfChar(c: char)
    ensures Net([c]) == if c == '(' then 1 else if c == ')' then -1 else 0
  {
    assert [c][1..] == [];
    assert Count([c], '(') == (if c == '(' then 1 else 0) + Count([c][1..], '(');
    assert Count([c], ')') == (if c == ')' then 1 else 0) + Count([c][1..], ')');
  }

  /** A text without parens has net depth zero. */
  lemma NetOfParenFree(s: seq<char>)
    requires '(' !in s && ')' !in s
    ensures Net(s) == 0
  {
    CountAbsent(s, '(');
    CountAbsent(s, ')');
  }

  /** Net depth of a document cut into five consecutive ranges. */
  lemma NetOfCuts(doc: seq<char>, i: nat, j: nat, k: nat, l: nat)
    requires i <= j <= k <= l <= |doc|
    ensures Net(doc) == Net(doc[..i]) + Net(doc[i..j]) + Net(doc[j..k]) + Net(doc[k..l]) + Net(doc[l..])
  {
    assert doc == doc[..i] + doc[i..j] + doc[j..k] + doc[k..l] + doc[l..];
    NetConcat5(doc[..i], doc[i..j], doc[j..k], doc[k..l], doc[l..]);
  }

  /** The forward edit keeps the net depth when the character left of the target is not a
      paren, and raises it by one when the target follows the destination `)` directly: that
      `)` is then deleted. */
  lemma SpliceForwardNet(doc: seq<char>, t: SlurpTarget)
    requires 0 <= t.slurpDest < t.slurpTargetStart <= t.slurpTargetEnd <= |doc|
    requires doc[t.slurpDest] == ')'
    requires t.slurpTargetStart - 1 > t.slurpDest ==> IsBlank(doc[t.slurpTargetStart - 1])
    ensures Net(SpliceForward(doc, t)) == Net(doc) + (if t.slurpTargetStart - 1 == t.slurpDest then 1 else 0)
    ensures Net(SpliceForwardCorrected(doc, t)) == Net(doc)
  {
    var d, s, e := t.slurpDest, t.slurpTargetStart, t.slurpTargetEnd;
    NetOfCuts(doc, d, s - 1, s, e);
    assert doc[s - 1..s] == [doc[s - 1]];
    NetOfChar(doc[s - 1]);
    NetOfChar(' ');
    NetConcat5(doc[..d], " ", doc[s..e], doc[d..s - 1], doc[e..]);
    if s - 1 > d {
      assert SpliceForwardCorrected(doc, t) == SpliceForward(doc, t);
    } else {
      assert doc[d..s] == doc[d..s - 1] + doc[s - 1..s];
      NetConcat(doc[d..s - 1], doc[s - 1..s]);
      NetConcat5(doc[..d], " ", doc[s..e], doc[d..s], doc[e..]);
    }
  }

  /** The backward edit keeps the net depth when the character right of the target is not a
      paren, and lowers it by one when the target precedes the destination `(` directly: that
      `(` is then deleted. */
  lemma SpliceBackwardNet(doc: seq<char>, t: SlurpTarget)
    requires 0 <= t.slurpTargetStart <= t.slurpTargetEnd < t.slurpDest <= |doc|
    requires doc[t.slurpDest - 1] == '('
    requires t.slurpTargetEnd + 1 < t.slurpDest ==> IsBlank(doc[t.slurpTargetEnd])
    ensures Net(SpliceBackward(doc, t)) == Net(doc) - (if t.slurpTargetEnd + 1 == t.slurpDest then 1 else 0)
    ensures Net(SpliceBackwardCorrected(doc, t)) == Net(doc)
  {
    var s, e, d := t.slurpTargetStart, t.slurpTargetEnd, t.slurpDest;
    NetOfCuts(doc, s, e, e + 1, d);
    assert doc[e..e + 1] == [doc[e]];
    NetOfChar(doc[e]);
    NetOfChar(' ');
    NetConcat5(doc[..s], doc[e + 1..d], doc[s..e], " ", doc[d..]);
    if e + 1 < d {
      assert SpliceBackwardCorrected(doc, t) == SpliceBackward(doc, t);
    } else {
      assert doc[e..d] == doc[e..e + 1] + doc[e + 1..d];
      NetConcat(doc[e..e + 1], doc[e + 1..d]);
      NetConcat5(doc[..s], doc[e..d], doc[s..e], " ", doc[d..]);
    }
  }

  /** A forward target found in the text after the cursor, seen in the whole document: its
      offsets lie in the document, the destination is a `)`, and only blanks lie between it and
      the target. */
  lemma ForwardTargetInDocument(before: seq<char>, after: seq<char>, t: SlurpTarget)
    requires SlurpForward.SlurpForwardSpec(after, |before|) == Some(t)
    ensures var doc := before + after;
      && |before| <= t.slurpDest < t.slurpTargetStart < t.slurpTargetEnd <= |doc|
      && doc[t.slurpDest] == ')'
      && (forall j :: t.slurpDest < j < t.slurpTargetStart ==> IsBlank(doc[j]))
      && doc[t.slurpTargetStart..t.slurpTargetEnd] == after[t.slurpTargetStart - |before|..t.slurpTargetEnd - |before|]
  {
    SlurpForward.ForwardTargetShape(after, |before|, t);
    PlacedInDocument(before, after, t);
  }

  /** `ForwardTargetInDocument` for a target whose indices in the text after the cursor are
      `PlacedAt`. */
  lemma PlacedInDocument(before: seq<char>, after: seq<char>, t: SlurpTarget)
    requires SlurpForward.PlacedAt(after, t.slurpDest - |before|, t.slurpTargetStart - |before|,
                                   t.slurpTargetEnd - |before|)
    ensures var doc := before + after;
      && |before| <= t.slurpDest < t.slurpTargetStart < t.slurpTargetEnd <= |doc|
      && doc[t.slurpDest] == ')'
      && (forall j :: t.slurpDest < j < t.slurpTargetStart ==> IsBlank(doc[j]))
      && doc[t.slurpTargetStart..t.slurpTargetEnd] == after[t.slurpTargetStart - |before|..t.slurpTargetEnd - |before|]
  {
    var n := |before|;
    var doc := before + after;
    forall j | t.slurpDest < j < t.slurpTargetStart
      ensures IsBlank(doc[j])
    {
      assert doc[j] == after[j - n];
    }
    SliceOfRight(before, after, t.slurpTargetStart, t.slurpTargetEnd);
  }

  /** A slice that lies in the right part of a concatenation is a slice of that part. */
  lemma SliceOfRight(a: seq<char>, b: seq<char>, s: int, e: int)
    requires |a| <= s <= e <= |a| + |b|
    ensures (a + b)[s..e] == b[s - |a|..e - |a|]
  {
    assert (a + b)[|a|..] == b;
    assert (a + b)[s..e] == (a + b)[|a|..][s - |a|..e - |a|];
  }

  /** A slice that lies in the left part of a concatenation is a slice of that part. */
  lemma SliceOfLeft(a: seq<char>, b: seq<char>, s: int, e: int)
    requires 0 <= s <= e <= |a|
    ensures (a + b)[s..e] == a[s..e]
  {
    assert (a + b)[..|a|] == a;
    assert (a + b)[s..e] == (a + b)[..|a|][s..e];
  }

  /** A backward target found in the text before the cursor, seen in the whole document: its
      offsets lie in the text before the cursor, a `(` stands just left of the destination, and
      only blanks lie between the target and it. */
  lemma BackwardTargetInDocument(before: seq<char>, after: seq<char>, t: SlurpTarget)
    requires SlurpBackward.SlurpBackwardSpec(before, |before|) == Some(t)
    ensures var doc := before + after;
      && 0 <= t.slurpTargetStart < t.slurpTargetEnd < t.slurpDest <= |before|
      && doc[t.slurpDest - 1] == '('
      && (forall j :: t.slurpTargetEnd <= j < t.slurpDest - 1 ==> IsBlank(doc[j]))
      && doc[t.slurpTargetStart..t.slurpTargetEnd] == before[t.slurpTargetStart..t.slurpTargetEnd]
  {
    SlurpBackward.BackwardTargetShape(before, |before|, t);
    var doc := before + after;
    assert forall j :: 0 <= j < |before| ==> doc[j] == before[j];
    SliceOfLeft(before, after, t.slurpTargetStart, t.slurpTargetEnd);
  }

  /** Slurping forward with the corrected edit keeps the paren balance of the document, and the
      target ends up directly before the destination `)`. */
  lemma ForwardSlurpKeepsBalance(before: seq<char>, after: seq<char>, t: SlurpTarget)
    requires SlurpForward.SlurpForwardSpec(after, |before|) == Some(t)
    ensures var doc := before + after;
      var tok := doc[t.slurpTargetStart..t.slurpTargetEnd];
      && 0 <= t.slurpDest < t.slurpTargetStart < t.slurpTargetEnd <= |doc|
      && var r := SpliceForwardCorrected(doc, t);
      && Net(r) == Net(doc)
      && (Balanced(doc) ==> Balanced(r))
      && r[..t.slurpDest] == doc[..t.slurpDest]
      && r[t.slurpDest + 1..t.slurpDest + 1 + |tok|] == tok
      && r[t.slurpDest + 1 + |tok|] == ')'
  {
    ForwardTargetInDocument(before, after, t);
    CorrectedForwardSplice(before + after, t);
  }

  /** `ForwardSlurpKeepsBalance` for any document with a `)` at the destination and only blanks
      between it and the target. */
  lemma CorrectedForwardSplice(doc: seq<char>, t: SlurpTarget)
    requires 0 <= t.slurpDest < t.slurpTargetStart < t.slurpTargetEnd <= |doc|
    requires doc[t.slurpDest] == ')'
    requires forall j :: t.slurpDest < j < t.slurpTargetStart ==> IsBlank(doc[j])
    ensures var tok := doc[t.slurpTargetStart..t.slurpTargetEnd];
      var r := SpliceForwardCorrected(doc, t);
      && Net(r) == Net(doc)
      && (Balanced(doc) ==> Balanced(r))
      && r[..t.slurpDest] == doc[..t.slurpDest]
      && r[t.slurpDest + 1..t.slurpDest + 1 + |tok|] == tok
      && r[t.slurpDest + 1 + |tok|] == ')'
  {
    SpliceForwardNet(doc, t);
    var d, s, e := t.slurpDest, t.slurpTargetStart, t.slurpTargetEnd;
    var from := if s - 1 > d then s - 1 else s;
    var r := SpliceForwardCorrected(doc, t);
    assert r == doc[..d] + " " + doc[s..e] + (doc[d..from] + doc[e..]);
    assert (doc[d..from] + doc[e..])[0] == ')';
  }

  /** Slurping backward with the corrected edit keeps the paren balance of the document, and the
      target ends up directly after the destination `(`. */
  lemma BackwardSlurpKeepsBalance(before: seq<char>, after: seq<char>, t: SlurpTarget)
    requires SlurpBackward.SlurpBackwardSpec(before, |before|) == Some(t)
    ensures var doc := before + after;
      && 0 <= t.slurpTargetStart < t.slurpTargetEnd < t.slurpDest <= |doc|
      && var tok := doc[t.slurpTargetStart..t.slurpTargetEnd];
      var r := SpliceBackwardCorrected(doc, t);
      var at := |r| - |doc[t.slurpDest..]| - 1 - |tok|;
      && 1 <= at
      && Net(r) == Net(doc)
      && (Balanced(doc) ==> Balanced(r))
      && r[at - 1] == '('
      && r[at..at + |tok|] == tok
      && r[at + |tok|..] == " " + doc[t.slurpDest..]
  {
    BackwardTargetInDocument(before, after, t);
    CorrectedBackwardSplice(before + after, t);
  }

  /** `BackwardSlurpKeepsBalance` for any document with a `(` just left of the destination and
      only blanks between the target and it. */
  lemma CorrectedBackwardSplice(doc: seq<char>, t: SlurpTarget)
    requires 0 <= t.slurpTargetStart < t.slurpTargetEnd < t.slurpDest <= |doc|
    requires doc[t.slurpDest - 1] == '('
    requires forall j :: t.slurpTargetEnd <= j < t.slurpDest - 1 ==> IsBlank(doc[j])
    ensures var tok := doc[t.slurpTargetStart..t.slurpTargetEnd];
      var r := SpliceBackwardCorrected(doc, t);
      var at := |r| - |doc[t.slurpDest..]| - 1 - |tok|;
      && 1 <= at
      && Net(r) == Net(doc)
      && (Balanced(doc) ==> Balanced(r))
      && r[at - 1] == '('
      && r[at..at + |tok|] == tok
      && r[at + |tok|..] == " " + doc[t.slurpDest..]
  {
    SpliceBackwardNet(doc, t);
    var s, e, d := t.slurpTargetStart, t.slurpTargetEnd, t.slurpDest;
    var to := if e + 1 < d then e + 1 else e;
    var tok := doc[s..e];
    var r := SpliceBackwardCorrected(doc, t);
    var head := doc[..s] + doc[to..d];
    assert r == head + tok + (" " + doc[d..]);
    assert head[|head| - 1] == doc[d - 1];
  }

  /** The document `(foo bar)baz` is balanced. */
  lemma FooBarBazBalanced()
    ensures Balanced("(foo bar" + ")baz")
  {
    var doc := "(foo bar" + ")baz";
    NetOfCuts(doc, 1, 8, 9, 12);
    assert doc[..1] == "(" && doc[8..9] == ")";
    NetOfChar('(');
    NetOfChar(')');
    NetOfParenFree(doc[1..8]);
    NetOfParenFree(doc[9..12]);
    assert doc[12..] == [];
  }

  /** As written, slurping forward from `(foo bar|)baz` deletes the `)` it slurps past: the
      balanced document becomes `(foo bar baz`. */
  lemma ForwardSpliceDropsClose()
    ensures SlurpForward.SlurpForwardSpec(")baz", 8) == Some(SlurpTarget(9, 12, 8))
    ensures Balanced("(foo bar" + ")baz")
    ensures SpliceForward("(foo bar" + ")baz", SlurpTarget(9, 12, 8)) == "(foo bar baz"
    ensures !Balanced(SpliceForward("(foo bar" + ")baz", SlurpTarget(9, 12, 8)))
  {
    SlurpForward.SlurpForwardExample();
    FooBarBazBalanced();
    ForwardSpliceValue();
    SpliceForwardNet("(foo bar" + ")baz", SlurpTarget(9, 12, 8));
  }

  /** The edit as written applied to `(foo bar|)baz`. */
  lemma ForwardSpliceValue()
    ensures SpliceForward("(foo bar" + ")baz", SlurpTarget(9, 12, 8)) == "(foo bar baz"
  {
    var doc := "(foo bar" + ")baz";
    assert doc[..8] == "(foo bar" && doc[9..12] == "baz" && doc[8..8] == [] && doc[12..] == [];
  }

  /** The corrected forward edit turns `(foo bar|)baz` into `(foo bar baz)`. */
  lemma ForwardSpliceCorrectedExample()
    ensures SpliceForwardCorrected("(foo bar" + ")baz", SlurpTarget(9, 12, 8)) == "(foo bar baz)"
  {
    var doc := "(foo bar" + ")baz";
    assert doc[..8] == "(foo bar" && doc[9..12] == "baz" && doc[8..9] == ")" && doc[12..] == [];
  }

  /** The document `a(b)` is balanced. */
  lemma ABBalanced()
    ensures Balanced("a(" + "b)")
  {
    var doc := "a(" + "b)";
    NetOfCuts(doc, 1, 2, 3, 4);
    assert doc[..1] == "a" && doc[1..2] == "(" && doc[2..3] == "b" && doc[3..4] == ")" && doc[4..] == [];
    NetOfChar('a');
    NetOfChar('(');
    NetOfChar('b');
    NetOfChar(')');
  }

  /** The backward scan reports the target `a` of `a(|`, with the destination right of the `(`. */
  lemma BackwardTargetOfAOpen()
    ensures SlurpBackward.SlurpBackwardSpec("a(", 2) == Some(SlurpTarget(0, 1, 2))
  {
    var s := "a(";
    assert LexBackward(s, 1) == LexState(false, 1);
    assert SlurpBackward.IsArm(s, 1);
    assert SlurpBackward.ArmBelow(s, 2) == Some(1);
    assert SlurpBackward.TokenEndBelow(s, 1) == Some(0);
    assert s[0..1] == "a";
    assert SlurpBackward.DoneAt(s, 0, 0);
    assert SlurpBackward.CompletionBelow(s, 0, 1) == Some(0);
    assert SlurpBackward.FirstOpenFrom(s, 1) == 1;
    SlurpBackward.TargetAtFields(s, 2, 0, 0, "a", 1);
  }

  /** As written, slurping backward from `a(|b)` deletes the `(` it slurps past: the document
      `a(b)` becomes `a b)`. */
  lemma BackwardSpliceDropsOpen()
    ensures SlurpBackward.SlurpBackwardSpec("a(", 2) == Some(SlurpTarget(0, 1, 2))
    ensures Balanced("a(" + "b)")
    ensures SpliceBackward("a(" + "b)", SlurpTarget(0, 1, 2)) == "a b)"
    ensures !Balanced(SpliceBackward("a(" + "b)", SlurpTarget(0, 1, 2)))
  {
    BackwardTargetOfAOpen();
    ABBalanced();
    var doc := "a(" + "b)";
    var t := SlurpTarget(0, 1, 2);
    SpliceBackwardNet(doc, t);
    assert doc[..0] == [] && doc[2..2] == [] && doc[0..1] == "a" && doc[2..] == "b)";
  }

  /** The corrected backward edit turns `a(|b)` into `(a b)`. */
  lemma BackwardSpliceCorrectedExample()
    ensures SpliceBackwardCorrected("a(" + "b)", SlurpTarget(0, 1, 2)) == "(a b)"
  {
    var doc := "a(" + "b)";
    assert doc[..0] == [] && doc[1..2] == "(" && doc[0..1] == "a" && doc[2..] == "b)";
  }
}
