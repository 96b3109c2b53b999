/**
  `getSlurpForwardTarget`: for "slurp forward", the `)` that closes the list around the cursor
  and the token right after it. The scan reads only the text after the cursor.
 */
module SlurpForward {
  import opened Wrappers
  import opened Strings
  import opened Parens
  import opened ParenLexer

  /** A `)` read while the depth drops below zero: it arms the slurp. */
  predicate IsArm(s: seq<char>, i: nat)
    requires i < |s|
  {
    s[i] == ')' && LexForward(s, i + 1).open < 0
  }

  /** The first arming `)` at or after `from`. */
  function FirstArm(s: seq<char>, from: nat): (r: Option<nat>)
    requires from <= |s|
    ensures r.Some? ==> from <= r.value < |s|
    decreases |s| - from
  {
    if from == |s| then None
    else if IsArm(s, from) then Some(from)
    else FirstArm(s, from + 1)
  }

  lemma {:induction false} FirstArmIsFirst(s: seq<char>, from: nat)
    requires from <= |s|
    ensures FirstArm(s, from).None? <==> forall k :: from <= k < |s| ==> !IsArm(s, k)
    ensures FirstArm(s, from).Some? ==>
      IsArm(s, FirstArm(s, from).value) && forall k :: from <= k < FirstArm(s, from).value ==> !IsArm(s, k)
    decreases |s| - from
  {
    if from < |s| {
      FirstArmIsFirst(s, from + 1);
    }
  }

  /** Characters the scan passes over between the arming `)` and the target. */
  predicate Skipped(c: char)
  {
    IsBlank(c) || c == ')'
  }

  /** The first character at or after `from` that starts the target. */
  function TokenStart(s: seq<char>, from: nat): (r: Option<nat>)
    requires from <= |s|
    ensures r.Some? ==> from <= r.value < |s|
    decreases |s| - from
  {
    if from == |s| then None
    else if !Skipped(s[from]) then Some(from)
    else TokenStart(s, from + 1)
  }

  lemma {:induction false} TokenStartIsFirst(s: seq<char>, from: nat)
    requires from <= |s|
    ensures TokenStart(s, from).None? <==> forall k :: from <= k < |s| ==> Skipped(s[k])
    ensures TokenStart(s, from).Some? ==>
      !Skipped(s[TokenStart(s, from).value]) && forall k :: from <= k < TokenStart(s, from).value ==> Skipped(s[k])
    decreases |s| - from
  {
    if from < |s| {
      TokenStartIsFirst(s, from + 1);
    }
  }

  /** `/^("|'?\()/`: the accumulated target opens a string or a list. */
  predicate OpensStringOrList(t: seq<char>)
  {
    |t| > 0 && (t[0] == '"' || t[0] == '(' || (|t| >= 2 && t[0] == '\'' && t[1] == '('))
  }

  /** The bare-symbol completion: not a string or list, and the character just read is a blank,
      a `)`, or the last of the text. */
  predicate EndsBare(t: seq<char>, isEnd: bool)
  {
    |t| > 0 && !OpensStringOrList(t) && (Skipped(t[|t| - 1]) || isEnd)
  }

  /** One of the three completion tests holds for the accumulated target `t`. */
  predicate Done(t: seq<char>, isEnd: bool)
  {
    IsStringLiteral(t) || IsListForm(t) || EndsBare(t, isEnd)
  }

  /** The completed target: a bare symbol loses the terminator that ended it. */
  function Token(t: seq<char>, isEnd: bool): seq<char>
    requires |t| > 0
  {
    if EndsBare(t, isEnd) && Skipped(t[|t| - 1]) then t[..|t| - 1] else t
  }

  /** The target started at `ts` is complete once `s[e]` has been read. */
  predicate DoneAt(s: seq<char>, ts: nat, e: nat)
  {
    ts <= e < |s| && Done(s[ts..e + 1], e == |s| - 1)
  }

  /** The first index `e >= from` at which the target started at `ts` is complete. */
  function Completion(s: seq<char>, ts: nat, from: nat): (r: Option<nat>)
    requires ts <= from <= |s|
    ensures r.Some? ==> from <= r.value < |s|
    decreases |s| - from
  {
    if from == |s| then None
    else if DoneAt(s, ts, from) then Some(from)
    else Completion(s, ts, from + 1)
  }

  lemma {:induction false} CompletionIsFirst(s: seq<char>, ts: nat, from: nat)
    requires ts <= from <= |s|
    ensures Completion(s, ts, from).None? <==> forall e :: from <= e < |s| ==> !DoneAt(s, ts, e)
    ensures Completion(s, ts, from).Some? ==>
      DoneAt(s, ts, Completion(s, ts, from).value)
      && forall e :: from <= e < Completion(s, ts, from).value ==> !DoneAt(s, ts, e)
  {
    CompletionNoneIffNeverDone(s, ts, from);
    CompletionSomeIsFirstDone(s, ts, from);
  }

  lemma {:induction false} CompletionNoneIffNeverDone(s: seq<char>, ts: nat, from: nat)
    requires ts <= from <= |s|
    ensures Completion(s, ts, from).None? <==> forall e :: from <= e < |s| ==> !DoneAt(s, ts, e)
    decreases |s| - from
  {
    if from < |s| && !DoneAt(s, ts, from) {
      CompletionNoneIffNeverDone(s, ts, from + 1);
    }
  }

  lemma {:induction false} CompletionSomeIsFirstDone(s: seq<char>, ts: nat, from: nat)
    requires ts <= from <= |s|
    ensures Completion(s, ts, from).Some? ==>
      DoneAt(s, ts, Completion(s, ts, from).value)
      && forall e :: from <= e < Completion(s, ts, from).value ==> !DoneAt(s, ts, e)
    decreases |s| - from
  {
    if from < |s| && !DoneAt(s, ts, from) {
      CompletionSomeIsFirstDone(s, ts, from + 1);
    }
  }

  /** Where the completed target ends: at `e` when the character read there is the blank or
      `)` that ended a bare symbol, just past `e` otherwise. */
  function TokenEnd(s: seq<char>, ts: nat, e: nat): (f: nat)
    requires ts <= e < |s|
    ensures e <= f <= e + 1 && ts + 1 <= f
  {
    if EndsBare(s[ts..e + 1], e == |s| - 1) && Skipped(s[e]) && ts < e then e else e + 1
  }

  /** The completed target is the text from its first character to `TokenEnd`. */
  lemma TokenEndIsToken(s: seq<char>, ts: nat, e: nat)
    requires ts <= e < |s| && !Skipped(s[ts])
    ensures Token(s[ts..e + 1], e == |s| - 1) == s[ts..TokenEnd(s, ts, e)]
  {
    assert s[ts..e + 1][..e - ts] == s[ts..e];
  }

  /** The offsets reported for a target that starts at `ts` and completes at `e`. */
  function TargetAt(after: seq<char>, cursorPos: int, ts: nat, e: nat): SlurpTarget
    requires ts <= e < |after|
  {
    SlurpTarget(cursorPos + ts, cursorPos + TokenEnd(after, ts, e), cursorPos + LastIndexOf(after[..ts], ')'))
  }

  /** The offsets as the scan computes them from the target's first index, its text and the
      destination. */
  lemma TargetAtFields(after: seq<char>, cursorPos: int, ts: nat, e: nat, tok: seq<char>, d: int)
    requires ts <= e < |after| && !Skipped(after[ts])
    requires tok == Token(after[ts..e + 1], e == |after| - 1)
    requires d == LastIndexOf(after[..ts], ')')
    ensures TargetAt(after, cursorPos, ts, e) == SlurpTarget(cursorPos + ts, cursorPos + ts + |tok|, cursorPos + d)
  {
    TokenEndIsToken(after, ts, e);
  }

  /** The scan's outcome once the target's first character is known. */
  function TargetFrom(after: seq<char>, cursorPos: int, ts: nat): Option<SlurpTarget>
    requires ts < |after|
  {
    match Completion(after, ts, ts)
    case None => None
    case Some(e) => Some(TargetAt(after, cursorPos, ts, e))
  }

  /** What `getSlurpForwardTarget` returns, through the searches above. */
  function SlurpForwardSpec(after: seq<char>, cursorPos: int): Option<SlurpTarget>
  {
    match FirstArm(after, 0)
    case None => None
    case Some(a) =>
      match TokenStart(after, a + 1)
      case None => None
      case Some(ts) => TargetFrom(after, cursorPos, ts)
  }

  /** The outcome when the target started at `ts` completes at `e`. */
  lemma SpecAtCompletion(after: seq<char>, cursorPos: int, a: nat, ts: nat, e: nat)
    requires FirstArm(after, 0) == Some(a)
    requires TokenStart(after, a + 1) == Some(ts)
    requires Completion(after, ts, ts) == Some(e)
    ensures SlurpForwardSpec(after, cursorPos) == Some(TargetAt(after, cursorPos, ts, e))
  {
  }

  /** The outcomes when the scan reaches the end of the text without a complete target:
      nothing armed, nothing after the arming `)`, or a target that never completes. */
  lemma SpecWithoutArm(after: seq<char>, cursorPos: int)
    requires FirstArm(after, 0).None?
    ensures SlurpForwardSpec(after, cursorPos).None?
  {
  }

  lemma SpecWithoutToken(after: seq<char>, cursorPos: int, a: nat)
    requires FirstArm(after, 0) == Some(a)
    requires TokenStart(after, a + 1).None?
    ensures SlurpForwardSpec(after, cursorPos).None?
  {
  }

  lemma SpecWithoutCompletion(after: seq<char>, cursorPos: int, a: nat, ts: nat)
    requires FirstArm(after, 0) == Some(a)
    requires TokenStart(after, a + 1) == Some(ts)
    requires Completion(after, ts, ts).None?
    ensures SlurpForwardSpec(after, cursorPos).None?
  {
  }

  /** The string and depth bookkeeping the scan does for `s[i]`, whose left neighbour (or the
      empty string, at the start) it keeps in `cPrev`. */
  method LexStep(s: seq<char>, i: nat, cPrev: char, insideString: bool, open: int)
    returns (inside: bool, depth: int)
    requires i < |s|
    requires cPrev == if i == 0 then '\0' else s[i - 1]
    ensures LexState(inside, depth) == Step(LexState(insideString, open), s, i)
  {
    var c := s[i];
    inside, depth := insideString, open;
    if c == '"' && cPrev != '\\' {
      inside := !inside;
    }
    if c == '(' && !inside {
      depth := depth + 1;
    } else if c == ')' && !inside {
      depth := depth - 1;
    }
  }

  /** The three completion tests the scan applies to the accumulated target, and the target
      with a bare symbol's terminator dropped. */
  method CompletionTest(toSlurp: seq<char>, isEnd: bool) returns (finished: bool, token: seq<char>)
    requires |toSlurp| > 0
    ensures finished == Done(toSlurp, isEnd)
    ensures finished ==> token == Token(toSlurp, isEnd)
  {
    var c := toSlurp[|toSlurp| - 1];
    token := toSlurp;
    finished := false;
    // 1. string literal
    if IsStringLiteral(token) {
      finished := true;
    }
    // 2. form inside parentheses
    if HasListShape(token) {
      var balanced := HasBalancedNumberOfParentheses(token);
      if balanced {
        finished := true;
      }
    }
    // 3. symbol name, end reached
    if !OpensStringOrList(token) && (c == ' ' || c == '\n' || c == '\t' || c == ')' || isEnd) {
      if c == ')' || c == ' ' || c == '\t' || c == '\n' {
        token := token[..|token| - 1];
      }
      finished := true;
    }
  }

  /** The scan has armed at `armAt` and, at index `n`, is looking for the target's first
      character; `dest` is the last `)` seen so far. */
  ghost predicate Armed(after: seq<char>, n: nat, armAt: nat, dest: int)
    requires n <= |after|
  {
    && FirstArm(after, 0) == Some(armAt) && armAt < n
    && TokenStart(after, armAt + 1) == TokenStart(after, n)
    && dest == LastIndexOf(after[..n], ')')
  }

  /** The target starts at `ts`, and of the candidates the scan has tried before index `n`,
      none is complete. */
  ghost predicate Pending(after: seq<char>, n: nat, armAt: nat, ts: nat, dest: int)
    requires n <= |after|
  {
    && FirstArm(after, 0) == Some(armAt)
    && armAt < ts < |after| && ts <= n
    && TokenStart(after, armAt + 1) == Some(ts) && !Skipped(after[ts])
    && dest == LastIndexOf(after[..ts], ')')
    && Completion(after, ts, ts) == Completion(after, ts, n)
  }

  /** The scan is accumulating the target that starts at `ts`, at index `n`: it holds
      `after[ts..n]`, and none of its candidates was complete. */
  ghost predicate Slurping(after: seq<char>, n: nat, armAt: nat, ts: int, toSlurp: seq<char>, dest: int)
    requires n <= |after|
  {
    && 0 <= ts < n && Pending(after, n, armAt, ts, dest)
    && toSlurp == after[ts..n]
  }

  /** The first character the armed scan does not skip is the target's first. */
  lemma ArmedToPending(after: seq<char>, i: nat, armAt: nat, dest: int)
    requires i < |after|
    requires Armed(after, i, armAt, dest) && !Skipped(after[i])
    ensures Pending(after, i, armAt, i, dest)
  {
  }

  /** A candidate that is not complete leaves the target pending one character further right. */
  lemma PendingNotDone(after: seq<char>, i: nat, armAt: nat, ts: nat, dest: int)
    requires i < |after| && Pending(after, i, armAt, ts, dest)
    requires !DoneAt(after, ts, i)
    ensures Pending(after, i + 1, armAt, ts, dest)
  {
  }

  /** A candidate that is complete is the completion the scan reports. */
  lemma PendingDone(after: seq<char>, i: nat, armAt: nat, ts: nat, dest: int)
    requires i < |after| && Pending(after, i, armAt, ts, dest)
    requires DoneAt(after, ts, i)
    ensures Completion(after, ts, ts) == Some(i)
  {
  }

  /** The slurping step: `after[i]` joins the target (which starts at `i` when it is the first
      character read), and the completion tests run on the result. */
  method Accumulate(after: seq<char>, i: nat, toSlurp: seq<char>, startIx: int, isEnd: bool,
                    ghost armAt: nat, lastSlurpDest: int)
    returns (toSlurp': seq<char>, startIx': nat, finished: bool, token: seq<char>)
    requires i < |after| && isEnd == (i == |after| - 1)
    requires toSlurp == [] ==> Armed(after, i, armAt, lastSlurpDest) && !Skipped(after[i])
    requires toSlurp != [] ==> Slurping(after, i, armAt, startIx, toSlurp, lastSlurpDest)
    ensures !finished ==> Slurping(after, i + 1, armAt, startIx', toSlurp', lastSlurpDest)
    ensures finished ==>
      && TokenStart(after, armAt + 1) == Some(startIx') && startIx' <= i && !Skipped(after[startIx'])
      && Completion(after, startIx', startIx') == Some(i)
      && token == Token(after[startIx'..i + 1], i == |after| - 1)
      && lastSlurpDest == LastIndexOf(after[..startIx'], ')')
  {
    toSlurp' := toSlurp + [after[i]];
    if toSlurp == [] {
      startIx' := i;
      ArmedToPending(after, i, armAt, lastSlurpDest);
      assert toSlurp' == after[startIx'..i + 1];
    } else {
      startIx' := startIx;
      assert toSlurp' == after[startIx'..i + 1];
    }
    finished, token := CompletionTest(toSlurp', isEnd);
    if finished {
      PendingDone(after, i, armAt, startIx', lastSlurpDest);
    } else {
      PendingNotDone(after, i, armAt, startIx', lastSlurpDest);
    }
  }

  /** `getSlurpForwardTarget`. `textBeforeCursor` is accepted and, as in the source, never read. */
  method GetSlurpForwardTarget(textBeforeCursor: seq<char>, textAfterCursor: seq<char>, cursorPos: int)
    returns (r: Option<SlurpTarget>)
    ensures r == SlurpForwardSpec(textAfterCursor, cursorPos)
  {
    var after := textAfterCursor;
    var canSlurp := false;
    var toSlurp: seq<char> := [];
    var slurping := false;
    var startIx: int := -1;
    var lastSlurpDest := -1;
    var insideString := false;
    var open := 0;
    // The source starts from the empty string, which is no backslash either.
    var cPrev := '\0';
    ghost var armAt := 0;
    var i := 0;
    while i < |after|
      invariant 0 <= i <= |after|
      invariant LexForward(after, i) == LexState(insideString, open)
      invariant cPrev == if i == 0 then '\0' else after[i - 1]
      invariant slurping ==> canSlurp
      invariant !slurping ==> toSlurp == []
      invariant !canSlurp ==> FirstArm(after, 0) == FirstArm(after, i)
      invariant canSlurp ==> FirstArm(after, 0) == Some(armAt) && armAt < i
      invariant canSlurp && !slurping ==> open < 0 && Armed(after, i, armAt, lastSlurpDest)
      invariant slurping ==> Slurping(after, i, armAt, startIx, toSlurp, lastSlurpDest)
    {
      LastIndexOfStep(after, i, ')');
      var c := after[i];
      var isEnd := i == |after| - 1;
      insideString, open := LexStep(after, i, cPrev, insideString, open);
      if !slurping {
        if c == ' ' || c == '\n' || c == '\t' {
          cPrev := c;
          i := i + 1;
          continue;
        } else if c == ')' && open < 0 {
          if !canSlurp {
            assert IsArm(after, i);
            armAt := i;
          }
          lastSlurpDest := i;
          canSlurp := true;
          cPrev := c;
          i := i + 1;
          continue;
        }
      }
      if canSlurp {
        var finished, token;
        toSlurp, startIx, finished, token := Accumulate(after, i, toSlurp, startIx, isEnd, armAt, lastSlurpDest);
        slurping := true;
        if finished {
          SpecAtCompletion(after, cursorPos, armAt, startIx, i);
          TargetAtFields(after, cursorPos, startIx, i, token, lastSlurpDest);
          return Some(SlurpTarget(cursorPos + startIx, cursorPos + startIx + |token|, cursorPos + lastSlurpDest));
        }
      }
      cPrev := c;
      i := i + 1;
    }
    if !canSlurp {
      SpecWithoutArm(after, cursorPos);
    } else if !slurping {
      SpecWithoutToken(after, cursorPos, armAt);
    } else {
      SpecWithoutCompletion(after, cursorPos, armAt, startIx);
    }
    return None;
  }

  /** No character of `t` is a blank or `)`. */
  predicate NoSkips(t: seq<char>)
  {
    t == [] || (!Skipped(t[0]) && NoSkips(t[1..]))
  }

  /** A character that is not skipped extends a text without skipped characters. */
  lemma {:induction false} NoSkipsSnoc(t: seq<char>, c: char)
    requires NoSkips(t) && !Skipped(c)
    ensures NoSkips(t + [c])
  {
    if t != [] {
      assert (t + [c])[1..] == t[1..] + [c];
      NoSkipsSnoc(t[1..], c);
    }
  }

  /** A bare symbol: nonempty, not opening a string or list, and free of blanks and `)`. */
  predicate IsBareSymbol(t: seq<char>)
  {
    |t| > 0 && !OpensStringOrList(t) && NoSkips(t)
  }

  /** Dropping characters from the end keeps a text that opens nothing still opening nothing. */
  lemma OpensNothingPrefix(t: seq<char>, m: nat)
    requires 0 < m <= |t| && !OpensStringOrList(t)
    ensures !OpensStringOrList(t[..m])
  {
  }

  /** A character at `j` the scan read without completing a target that opens nothing is one a
      bare symbol may contain. */
  lemma NotDoneStep(s: seq<char>, ts: nat, e: nat, j: nat)
    requires ts <= j < e < |s|
    requires !OpensStringOrList(s[ts..e + 1])
    requires !DoneAt(s, ts, j)
    requires NoSkips(s[ts..j])
    ensures NoSkips(s[ts..j + 1])
  {
    assert s[ts..e + 1][..j - ts + 1] == s[ts..j + 1];
    OpensNothingPrefix(s[ts..e + 1], j - ts + 1);
    assert !EndsBare(s[ts..j + 1], j == |s| - 1);
    assert s[ts..j + 1] == s[ts..j] + [s[j]];
    NoSkipsSnoc(s[ts..j], s[j]);
  }

  /** Every character the scan accumulated before a completion at `e` that does not open a
      string or list is one a bare symbol may contain: each of them failed the bare test. */
  lemma {:induction false} NotDoneBeforeIsBare(s: seq<char>, ts: nat, from: nat, e: nat)
    requires ts <= from <= |s|
    requires Completion(s, ts, from) == Some(e)
    requires !OpensStringOrList(s[ts..e + 1])
    requires NoSkips(s[ts..from])
    ensures NoSkips(s[ts..e])
    decreases |s| - from
  {
    if !DoneAt(s, ts, from) {
      NotDoneStep(s, ts, e, from);
      NotDoneBeforeIsBare(s, ts, from + 1, e);
    }
  }

  /** `s[st..en]` is a string literal, a list form, or a bare symbol that ends the text or is
      followed by a blank or `)`. */
  predicate TokenAt(s: seq<char>, st: nat, en: nat)
    requires st <= en <= |s|
  {
    var tok := s[st..en];
    && (IsStringLiteral(tok) || IsListForm(tok) || IsBareSymbol(tok))
    && (IsBareSymbol(tok) ==> en == |s| || Skipped(s[en]))
  }

  /** A bare-symbol completion at `e`: the symbol ends at `TokenEnd` and ends the text or is
      followed by a blank or `)`. */
  lemma BareToken(s: seq<char>, ts: nat, e: nat)
    requires ts <= e < |s| && !Skipped(s[ts])
    requires EndsBare(s[ts..e + 1], e == |s| - 1)
    requires NoSkips(s[ts..e])
    ensures TokenAt(s, ts, TokenEnd(s, ts, e))
  {
    var t := s[ts..e + 1];
    assert t[..e - ts] == s[ts..e];
    if Skipped(s[e]) {
      OpensNothingPrefix(t, e - ts);
      assert IsBareSymbol(s[ts..e]);
    } else {
      assert t == s[ts..e] + [s[e]];
      NoSkipsSnoc(s[ts..e], s[e]);
      assert IsBareSymbol(t);
    }
  }

  /** A bare-symbol completion the scan finds at `e`. */
  lemma BareCompletion(s: seq<char>, ts: nat, e: nat)
    requires ts < |s| && !Skipped(s[ts])
    requires Completion(s, ts, ts) == Some(e)
    requires EndsBare(s[ts..e + 1], e == |s| - 1)
    ensures TokenAt(s, ts, TokenEnd(s, ts, e))
  {
    assert s[ts..ts] == [];
    NotDoneBeforeIsBare(s, ts, ts, e);
    BareToken(s, ts, e);
  }

  /** A string or list completion at `e`: the target is all of `s[ts..e + 1]`. */
  lemma ShapedToken(s: seq<char>, ts: nat, e: nat)
    requires ts < |s|
    requires Completion(s, ts, ts) == Some(e)
    requires !EndsBare(s[ts..e + 1], e == |s| - 1)
    ensures TokenAt(s, ts, TokenEnd(s, ts, e))
  {
    CompletionIsFirst(s, ts, ts);
    assert DoneAt(s, ts, e);
  }

  /** The target that completes at `e`, for one that starts at a non-skipped `ts`: a string
      literal, a list form, or a bare symbol that ends the text or is followed by a blank or
      `)`. */
  lemma CompletedToken(s: seq<char>, ts: nat, e: nat)
    requires ts < |s| && !Skipped(s[ts])
    requires Completion(s, ts, ts) == Some(e)
    ensures TokenAt(s, ts, TokenEnd(s, ts, e))
  {
    if EndsBare(s[ts..e + 1], e == |s| - 1) {
      BareCompletion(s, ts, e);
    } else {
      ShapedToken(s, ts, e);
    }
  }

  /** The last `)` before a target that only skipped characters separate from a `)` at `a`. */
  lemma LastCloseBeforeToken(s: seq<char>, a: nat, ts: nat)
    requires a < ts <= |s| && s[a] == ')'
    requires forall k :: a < k < ts ==> Skipped(s[k])
    ensures var d := LastIndexOf(s[..ts], ')');
      a <= d < ts && s[d] == ')' && forall k :: d < k < ts ==> IsBlank(s[k])
  {
    var d := LastIndexOf(s[..ts], ')');
    assert s[..ts][a] == ')';
    forall k | d < k < ts
      ensures IsBlank(s[k])
    {
      assert s[..ts][k] == s[k];
    }
  }

  /** Where a forward target lies and what it is, in indices of the text after the cursor: a
      `)` at the destination `d`, only blanks between it and the target `after[st..en]`, and a
      target that is a string literal, a list form, or a bare symbol that ends the text or is
      followed by a blank or `)`. */
  predicate PlacedAt(after: seq<char>, d: int, st: int, en: int)
  {
    && 0 <= d < st < en <= |after|
    && after[d] == ')'
    && (forall j :: d < j < st ==> IsBlank(after[j]))
    && TokenAt(after, st, en)
  }

  /** `PlacedAt` for a reported target, whose offsets are relative to the cursor. */
  predicate Placed(after: seq<char>, cursorPos: int, t: SlurpTarget)
  {
    PlacedAt(after, t.slurpDest - cursorPos, t.slurpTargetStart - cursorPos, t.slurpTargetEnd - cursorPos)
  }

  /** A target reported at the cursor offset of indices that are `PlacedAt` is `Placed`. */
  lemma PlacedAtOffset(after: seq<char>, cursorPos: int, t: SlurpTarget, d: int, st: int, en: int)
    requires t == SlurpTarget(cursorPos + st, cursorPos + en, cursorPos + d)
    requires PlacedAt(after, d, st, en)
    ensures Placed(after, cursorPos, t)
  {
    assert t.slurpDest - cursorPos == d && t.slurpTargetStart - cursorPos == st && t.slurpTargetEnd - cursorPos == en;
  }

  /** The target starting at `ts` and completing at `e`, which only skipped characters separate
      from the `)` at `a`, is placed as `TargetAt` reports it. */
  lemma CompletedTargetPlaced(after: seq<char>, a: nat, ts: nat, e: nat)
    requires a < ts < |after| && after[a] == ')'
    requires forall j :: a < j < ts ==> Skipped(after[j])
    requires !Skipped(after[ts])
    requires Completion(after, ts, ts) == Some(e)
    ensures PlacedAt(after, LastIndexOf(after[..ts], ')'), ts, TokenEnd(after, ts, e))
  {
    CompletedToken(after, ts, e);
    LastCloseBeforeToken(after, a, ts);
  }

  /** The offsets `TargetAt` reports, for a target that only skipped characters separate from
      the `)` at `a`. */
  lemma TargetAtShape(after: seq<char>, cursorPos: int, a: nat, ts: nat, e: nat)
    requires a < ts < |after| && after[a] == ')'
    requires forall j :: a < j < ts ==> Skipped(after[j])
    requires !Skipped(after[ts])
    requires Completion(after, ts, ts) == Some(e)
    ensures Placed(after, cursorPos, TargetAt(after, cursorPos, ts, e))
  {
    CompletedTargetPlaced(after, a, ts, e);
    PlacedAtOffset(after, cursorPos, TargetAt(after, cursorPos, ts, e),
                   LastIndexOf(after[..ts], ')'), ts, TokenEnd(after, ts, e));
  }

  /** `TargetAtShape` for the arming `)`, the target's start and the completion the scan finds. */
  lemma FoundTargetShape(after: seq<char>, cursorPos: int, a: nat, ts: nat, e: nat)
    requires FirstArm(after, 0) == Some(a)
    requires TokenStart(after, a + 1) == Some(ts)
    requires Completion(after, ts, ts) == Some(e)
    ensures Placed(after, cursorPos, TargetAt(after, cursorPos, ts, e))
  {
    FirstArmIsFirst(after, 0);
    TokenStartIsFirst(after, a + 1);
    TargetAtShape(after, cursorPos, a, ts, e);
  }

  /** Every target the forward scan reports is `Placed`. */
  lemma ForwardTargetShape(after: seq<char>, cursorPos: int, t: SlurpTarget)
    requires SlurpForwardSpec(after, cursorPos) == Some(t)
    ensures Placed(after, cursorPos, t)
  {
    var a := FirstArm(after, 0).value;
    var ts := TokenStart(after, a + 1).value;
    var e := Completion(after, ts, ts).value;
    SpecAtCompletion(after, cursorPos, a, ts, e);
    FoundTargetShape(after, cursorPos, a, ts, e);
  }

  /** After `)baz` the target `baz` runs to the end, and the `)` just left of it is the destination. */
  lemma SlurpForwardExample()
    ensures SlurpForwardSpec(")baz", 8) == Some(SlurpTarget(9, 12, 8))
    ensures SlurpForwardSpec("", 8) == None
  {
    BazArmAndStart();
    BazCompletion();
    SpecAtCompletion(")baz", 8, 0, 1, 3);
    BazTarget();
  }

  /** The completed `baz` ends at the text's end and the destination is the leading `)`. */
  lemma BazTarget()
    ensures TargetAt(")baz", 8, 1, 3) == SlurpTarget(9, 12, 8)
  {
    var s := ")baz";
    assert !Skipped(s[3]);
    assert s[..1] == ")";
  }

  /** In `)baz` the leading `)` arms the scan and the target starts right after it. */
  lemma BazArmAndStart()
    ensures FirstArm(")baz", 0) == Some(0) && TokenStart(")baz", 1) == Some(1)
  {
    assert IsArm(")baz", 0);
  }

  /** The target `baz` completes at the text's last character. */
  lemma BazCompletion()
    ensures Completion(")baz", 1, 1) == Some(3)
  {
    var s := ")baz";
    assert !DoneAt(s, 1, 1) && !DoneAt(s, 1, 2);
    assert DoneAt(s, 1, 3);
  }
}
