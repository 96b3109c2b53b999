/**
  `getSlurpBackwardTarget`: for "slurp backward", the `(` that opens the list around the cursor
  and the token just left of it. The scan reads the text before the cursor from right to left;
  the text after the cursor is never read.
 */
module SlurpBackward {
  import opened Wrappers
  import opened Strings
  import opened Parens
  import opened ParenLexer

  /** A `(` read while the right-to-left depth is above zero: it arms the slurp. */
  predicate IsArm(s: seq<char>, i: nat)
    requires i < |s|
  {
    s[i] == '(' && LexBackward(s, i).open > 0
  }

  /** The first arming `(` the scan meets below `to`: the largest such index. */
  function ArmBelow(s: seq<char>, to: nat): (r: Option<nat>)
    requires to <= |s|
    ensures r.Some? ==> r.value < to
  {
    if to == 0 then None
    else if IsArm(s, to - 1) then Some(to - 1)
    else ArmBelow(s, to - 1)
  }

  lemma {:induction false} ArmBelowIsNearest(s: seq<char>, to: nat)
    requires to <= |s|
    ensures ArmBelow(s, to).None? <==> forall k :: 0 <= k < to ==> !IsArm(s, k)
    ensures ArmBelow(s, to).Some? ==>
      IsArm(s, ArmBelow(s, to).value) && forall k :: ArmBelow(s, to).value < k < to ==> !IsArm(s, k)
  {
    if to > 0 {
      ArmBelowIsNearest(s, to - 1);
    }
  }

  /** Characters the scan passes over between the arming `(` and the target. */
  predicate Skipped(c: char)
  {
    IsBlank(c) || c == '('
  }

  /** The last character of the target: the largest index below `to` that is not skipped. */
  function TokenEndBelow(s: seq<char>, to: nat): (r: Option<nat>)
    requires to <= |s|
    ensures r.Some? ==> r.value < to
  {
    if to == 0 then None
    else if !Skipped(s[to - 1]) then Some(to - 1)
    else TokenEndBelow(s, to - 1)
  }

  lemma {:induction false} TokenEndBelowIsNearest(s: seq<char>, to: nat)
    requires to <= |s|
    ensures TokenEndBelow(s, to).None? <==> forall k :: 0 <= k < to ==> Skipped(s[k])
    ensures TokenEndBelow(s, to).Some? ==>
      !Skipped(s[TokenEndBelow(s, to).value]) && forall k :: TokenEndBelow(s, to).value < k < to ==> Skipped(s[k])
  {
    if to > 0 {
      TokenEndBelowIsNearest(s, to - 1);
    }
  }

  /** The first `(` at or after `from`, or `|s|` when there is none. */
  function FirstOpenFrom(s: seq<char>, from: nat): (r: nat)
    requires from <= |s|
    ensures from <= r <= |s|
    decreases |s| - from
  {
    if from == |s| then |s|
    else if s[from] == '(' then from
    else FirstOpenFrom(s, from + 1)
  }

  lemma {:induction false} FirstOpenFromIsFirst(s: seq<char>, from: nat)
    requires from <= |s|
    ensures var r := FirstOpenFrom(s, from);
      (r < |s| ==> s[r] == '(') && forall k :: from <= k < r ==> s[k] != '('
    decreases |s| - from
  {
    if from < |s| {
      FirstOpenFromIsFirst(s, from + 1);
    }
  }

  /** `/("|\)'?)$/`: the accumulated target ends like a string or a (quoted) list. */
  predicate ClosesStringOrList(t: seq<char>)
  {
    |t| > 0 && (t[|t| - 1] == '"' || t[|t| - 1] == ')' || (|t| >= 2 && t[|t| - 1] == '\'' && t[|t| - 2] == ')'))
  }

  /** The bare-symbol completion: not ending like a string or list, and the character just read
      is a blank, a `(`, or the first of the text. */
  predicate EndsBare(t: seq<char>, isEnd: bool)
  {
    |t| > 0 && !ClosesStringOrList(t) && (Skipped(t[0]) || isEnd)
  }

  /** One of the three completion tests holds for the accumulated target `t`. */
  predicate Done(t: seq<char>, isEnd: bool)
  {
    IsStringLiteral(t) || IsListForm(t) || EndsBare(t, isEnd)
  }

  /** The completed target: a bare symbol loses the terminator that ended it. */
  function Token(t: seq<char>, isEnd: bool): seq<char>
    requires |t| > 0
  {
    if EndsBare(t, isEnd) && Skipped(t[0]) then t[1..] else t
  }

  /** The target whose last character is at `te` is complete once `s[k]` has been read. */
  predicate DoneAt(s: seq<char>, k: nat, te: nat)
  {
    k <= te < |s| && Done(s[k..te + 1], k == 0)
  }

  /** The first index the scan meets below `to` at which the target ending at `te` is complete. */
  function CompletionBelow(s: seq<char>, te: nat, to: nat): (r: Option<nat>)
    requires to <= te + 1 <= |s|
    ensures r.Some? ==> r.value < to
  {
    if to == 0 then None
    else if DoneAt(s, to - 1, te) then Some(to - 1)
    else CompletionBelow(s, te, to - 1)
  }

  lemma {:induction false} CompletionBelowIsNearest(s: seq<char>, te: nat, to: nat)
    requires to <= te + 1 <= |s|
    ensures CompletionBelow(s, te, to).None? <==> forall k :: 0 <= k < to ==> !DoneAt(s, k, te)
    ensures CompletionBelow(s, te, to).Some? ==>
      DoneAt(s, CompletionBelow(s, te, to).value, te)
      && forall k :: CompletionBelow(s, te, to).value < k < to ==> !DoneAt(s, k, te)
  {
    CompletionBelowNoneIffNeverDone(s, te, to);
    CompletionBelowSomeIsNearestDone(s, te, to);
  }

  lemma {:induction false} CompletionBelowNoneIffNeverDone(s: seq<char>, te: nat, to: nat)
    requires to <= te + 1 <= |s|
    ensures CompletionBelow(s, te, to).None? <==> forall k :: 0 <= k < to ==> !DoneAt(s, k, te)
  {
    if to > 0 && !DoneAt(s, to - 1, te) {
      CompletionBelowNoneIffNeverDone(s, te, to - 1);
    }
  }

  lemma {:induction false} CompletionBelowSomeIsNearestDone(s: seq<char>, te: nat, to: nat)
    requires to <= te + 1 <= |s|
    ensures CompletionBelow(s, te, to).Some? ==>
      DoneAt(s, CompletionBelow(s, te, to).value, te)
      && forall k :: CompletionBelow(s, te, to).value < k < to ==> !DoneAt(s, k, te)
  {
    if to > 0 && !DoneAt(s, to - 1, te) {
      CompletionBelowSomeIsNearestDone(s, te, to - 1);
    }
  }

  /** Where the completed target starts: one past `k` when the character read there is the
      blank or `(` that ended a bare symbol, `k` itself otherwise. */
  function TokenFirst(s: seq<char>, te: nat, k: nat): (f: nat)
    requires k <= te < |s|
    ensures k <= f <= k + 1 && f <= te + 1
  {
    if EndsBare(s[k..te + 1], k == 0) && Skipped(s[k]) && k < te then k + 1 else k
  }

  /** The completed target is the text from `TokenFirst` to its last character. */
  lemma TokenFirstIsToken(s: seq<char>, te: nat, k: nat)
    requires k <= te < |s| && !Skipped(s[te])
    ensures Token(s[k..te + 1], k == 0) == s[TokenFirst(s, te, k)..te + 1]
  {
    assert s[k..te + 1][1..] == s[k + 1..te + 1];
  }

  /** The offsets reported for a target that ends at `te` and completes at `k`, relative to
      `off`, the cursor's offset from the end of the text before it. */
  function TargetAt(before: seq<char>, cursorPos: int, te: nat, k: nat): SlurpTarget
    requires k <= te < |before|
  {
    var off := cursorPos - |before|;
    SlurpTarget(off + TokenFirst(before, te, k), off + te + 1, off + FirstOpenFrom(before, te + 1) + 1)
  }

  /** The offsets as the scan computes them from the target's last index, its text and the
      destination. */
  lemma TargetAtFields(before: seq<char>, cursorPos: int, te: nat, k: nat, tok: seq<char>, d: int)
    requires k <= te < |before| && !Skipped(before[te])
    requires tok == Token(before[k..te + 1], k == 0)
    requires d == FirstOpenFrom(before, te + 1)
    ensures TargetAt(before, cursorPos, te, k) == SlurpTarget(
      cursorPos - (|before| - te) - |tok| + 1, cursorPos - (|before| - te) + 1, cursorPos - (|before| - d) + 1)
  {
    TokenFirstIsToken(before, te, k);
  }

  /** The scan's outcome once the target's last character is known. */
  function TargetFrom(before: seq<char>, cursorPos: int, te: nat): Option<SlurpTarget>
    requires te < |before|
  {
    match CompletionBelow(before, te, te + 1)
    case None => None
    case Some(k) => Some(TargetAt(before, cursorPos, te, k))
  }

  /** What `getSlurpBackwardTarget` returns, through the searches above. */
  function SlurpBackwardSpec(before: seq<char>, cursorPos: int): Option<SlurpTarget>
  {
    match ArmBelow(before, |before|)
    case None => None
    case Some(a) =>
      match TokenEndBelow(before, a)
      case None => None
      case Some(te) => TargetFrom(before, cursorPos, te)
  }

  /** The outcome when the target ending at `te` completes at `k`. */
  lemma SpecAtCompletion(before: seq<char>, cursorPos: int, a: nat, te: nat, k: nat)
    requires ArmBelow(before, |before|) == Some(a)
    requires TokenEndBelow(before, a) == Some(te)
    requires CompletionBelow(before, te, te + 1) == Some(k)
    ensures SlurpBackwardSpec(before, cursorPos) == Some(TargetAt(before, cursorPos, te, k))
  {
  }

  /** The outcomes when the scan reaches the start of the text without a complete target:
      nothing armed, nothing after the arming `(`, or a target that never completes. */
  lemma SpecWithoutArm(before: seq<char>, cursorPos: int)
    requires ArmBelow(before, |before|).None?
    ensures SlurpBackwardSpec(before, cursorPos).None?
  {
  }

  lemma SpecWithoutToken(before: seq<char>, cursorPos: int, a: nat)
    requires ArmBelow(before, |before|) == Some(a)
    requires TokenEndBelow(before, a).None?
    ensures SlurpBackwardSpec(before, cursorPos).None?
  {
  }

  lemma SpecWithoutCompletion(before: seq<char>, cursorPos: int, a: nat, te: nat)
    requires ArmBelow(before, |before|) == Some(a)
    requires TokenEndBelow(before, a) == Some(te)
    requires CompletionBelow(before, te, te + 1).None?
    ensures SlurpBackwardSpec(before, cursorPos).None?
  {
  }

  /** The string and depth bookkeeping the scan does for `s[i]`; it looks at `s[i - 1]` for the
      backslash that keeps a `"` from toggling. */
  method LexStep(s: seq<char>, i: nat, insideString: bool, open: int) returns (inside: bool, depth: int)
    requires i < |s|
    requires LexState(insideString, open) == LexBackward(s, i + 1)
    ensures LexState(inside, depth) == LexBackward(s, i)
  {
    var c := s[i];
    inside, depth := insideString, open;
    if c == '"' && (i == 0 || s[i - 1] != '\\') {
      inside := !inside;
    }
    if c == '(' && !inside {
      depth := depth + 1;
    } else if c == ')' && !inside {
      depth := depth - 1;
    }
  }

  /** The three completion tests the scan applies to the accumulated target, and the target
      with a bare symbol's terminator dropped. */
  method CompletionTest(toSlurp: seq<char>, isEnd: bool) returns (finished: bool, token: seq<char>)
    requires |toSlurp| > 0
    ensures finished == Done(toSlurp, isEnd)
    ensures finished ==> token == Token(toSlurp, isEnd)
  {
    var c := toSlurp[0];
    token := toSlurp;
    finished := false;
    // 1. string literal
    if IsStringLiteral(token) {
      finished := true;
    }
    // 2. form inside parentheses
    if HasListShape(token) {
      var balanced := HasBalancedNumberOfParentheses(token);
      if balanced {
        finished := true;
      }
    }
    // 3. symbol name, end reached
    if !ClosesStringOrList(token) && (c == ' ' || c == '\n' || c == '\t' || c == '(' || isEnd) {
      if c == '(' || c == ' ' || c == '\t' || c == '\n' {
        token := token[1..];
      }
      finished := true;
    }
  }

  /** The scan has armed at `armAt` and, with `n` characters still to read, is looking for the
      target's last character; `dest` is the nearest `(` seen so far. */
  ghost predicate Armed(before: seq<char>, n: nat, armAt: nat, dest: int)
    requires n <= |before|
  {
    && ArmBelow(before, |before|) == Some(armAt) && n <= armAt < |before|
    && TokenEndBelow(before, armAt) == TokenEndBelow(before, n)
    && dest == FirstOpenFrom(before, n)
  }

  /** The target ends at `te`, and of the candidates the scan has tried with `n` characters
      still to read, none is complete. */
  ghost predicate Pending(before: seq<char>, n: nat, armAt: nat, te: nat, dest: int)
    requires n <= |before|
  {
    && ArmBelow(before, |before|) == Some(armAt)
    && te < armAt < |before| && n <= te + 1
    && TokenEndBelow(before, armAt) == Some(te) && !Skipped(before[te])
    && dest == FirstOpenFrom(before, te + 1)
    && CompletionBelow(before, te, te + 1) == CompletionBelow(before, te, n)
  }

  /** The scan is accumulating the target that ends at `te`, with `n` characters still to read:
      it holds `before[n..te + 1]`, and none of its candidates was complete. */
  ghost predicate Slurping(before: seq<char>, n: nat, armAt: nat, te: int, toSlurp: seq<char>, dest: int)
    requires n <= |before|
  {
    && 0 <= te && n <= te && Pending(before, n, armAt, te, dest)
    && toSlurp == before[n..te + 1]
  }

  /** The first character the armed scan does not skip is the target's last. */
  lemma ArmedToPending(before: seq<char>, i: nat, armAt: nat, dest: int)
    requires i < |before|
    requires Armed(before, i + 1, armAt, dest) && !Skipped(before[i])
    ensures Pending(before, i + 1, armAt, i, dest)
  {
  }

  /** A candidate that is not complete leaves the target pending one character further left. */
  lemma PendingNotDone(before: seq<char>, i: nat, armAt: nat, te: nat, dest: int)
    requires i < |before| && Pending(before, i + 1, armAt, te, dest)
    requires !DoneAt(before, i, te)
    ensures Pending(before, i, armAt, te, dest)
  {
  }

  /** A candidate that is complete is the completion the scan reports. */
  lemma PendingDone(before: seq<char>, i: nat, armAt: nat, te: nat, dest: int)
    requires i < |before| && Pending(before, i + 1, armAt, te, dest)
    requires DoneAt(before, i, te)
    ensures CompletionBelow(before, te, te + 1) == Some(i)
  {
  }

  /** The slurping step: `before[i]` is put in front of the target (which ends at `i` when it is
      the first character read), and the completion tests run on the result. */
  method Accumulate(before: seq<char>, i: nat, toSlurp: seq<char>, startIx: int, isEnd: bool,
                    ghost armAt: nat, lastSlurpDest: int)
    returns (toSlurp': seq<char>, startIx': nat, finished: bool, token: seq<char>)
    requires i < |before| && isEnd == (i == 0)
    requires toSlurp == [] ==> Armed(before, i + 1, armAt, lastSlurpDest) && !Skipped(before[i])
    requires toSlurp != [] ==> Slurping(before, i + 1, armAt, startIx, toSlurp, lastSlurpDest)
    ensures !finished ==> Slurping(before, i, armAt, startIx', toSlurp', lastSlurpDest)
    ensures finished ==>
      && TokenEndBelow(before, armAt) == Some(startIx') && i <= startIx' < |before| && !Skipped(before[startIx'])
      && CompletionBelow(before, startIx', startIx' + 1) == Some(i)
      && token == Token(before[i..startIx' + 1], i == 0)
      && lastSlurpDest == FirstOpenFrom(before, startIx' + 1)
  {
    toSlurp' := [before[i]] + toSlurp;
    if toSlurp == [] {
      startIx' := i;
      ArmedToPending(before, i, armAt, lastSlurpDest);
      assert toSlurp' == before[i..startIx' + 1];
    } else {
      startIx' := startIx;
      assert toSlurp' == before[i..startIx' + 1];
    }
    finished, token := CompletionTest(toSlurp', isEnd);
    AccumulateOutcome(before, i, armAt, startIx', lastSlurpDest, toSlurp', finished, token);
  }

  /** What the completion test on the target `before[i..te + 1]` leaves: the scan goes on
      slurping, or the target is complete at `i`. */
  lemma AccumulateOutcome(before: seq<char>, i: nat, armAt: nat, te: nat, dest: int,
                          toSlurp: seq<char>, finished: bool, token: seq<char>)
    requires i < |before| && i <= te && Pending(before, i + 1, armAt, te, dest)
    requires toSlurp == before[i..te + 1]
    requires finished == Done(toSlurp, i == 0)
    requires finished ==> token == Token(toSlurp, i == 0)
    ensures !finished ==> Slurping(before, i, armAt, te, toSlurp, dest)
    ensures finished ==>
      && TokenEndBelow(before, armAt) == Some(te) && i <= te < |before| && !Skipped(before[te])
      && CompletionBelow(before, te, te + 1) == Some(i)
      && token == Token(before[i..te + 1], i == 0)
      && dest == FirstOpenFrom(before, te + 1)
  {
    if finished {
      PendingDone(before, i, armAt, te, dest);
    } else {
      PendingNotDone(before, i, armAt, te, dest);
    }
  }

  /** `getSlurpBackwardTarget`. `textAfterCursor` is accepted and, as in the source, never read. */
  method GetSlurpBackwardTarget(textBeforeCursor: seq<char>, textAfterCursor: seq<char>, cursorPos: int)
    returns (r: Option<SlurpTarget>)
    ensures r == SlurpBackwardSpec(textBeforeCursor, cursorPos)
  {
    var before := textBeforeCursor;
    var canSlurp := false;
    var toSlurp: seq<char> := [];
    var slurping := false;
    var startIx: int := -1;
    var lastSlurpDest := -1;
    var insideString := false;
    var open := 0;
    ghost var armAt := 0;
    var i := |before| - 1;
    while i >= 0
      invariant -1 <= i < |before|
      invariant LexBackward(before, i + 1) == LexState(insideString, open)
      invariant slurping ==> canSlurp
      invariant !slurping ==> toSlurp == []
      invariant !canSlurp ==> ArmBelow(before, |before|) == ArmBelow(before, i + 1)
      invariant canSlurp ==> ArmBelow(before, |before|) == Some(armAt) && i < armAt < |before|
      invariant canSlurp && !slurping ==> open > 0 && Armed(before, i + 1, armAt, lastSlurpDest)
      invariant slurping ==> Slurping(before, i + 1, armAt, startIx, toSlurp, lastSlurpDest)
    {
      var c := before[i];
      var isEnd := i == 0;
      insideString, open := LexStep(before, i, insideString, open);
      if !slurping {
        if c == ' ' || c == '\n' || c == '\t' {
          i := i - 1;
          continue;
        } else if c == '(' && open > 0 {
          if !canSlurp {
            assert IsArm(before, i);
            armAt := i;
          }
          lastSlurpDest := i;
          canSlurp := true;
          i := i - 1;
          continue;
        }
      }
      if canSlurp {
        var finished, token;
        toSlurp, startIx, finished, token := Accumulate(before, i, toSlurp, startIx, isEnd, armAt, lastSlurpDest);
        slurping := true;
        if finished {
          SpecAtCompletion(before, cursorPos, armAt, startIx, i);
          TargetAtFields(before, cursorPos, startIx, i, token, lastSlurpDest);
          return Some(SlurpTarget(
            cursorPos - (|before| - startIx) - |token| + 1,
            cursorPos - (|before| - startIx) + 1,
            cursorPos - (|before| - lastSlurpDest) + 1));
        }
      }
      i := i - 1;
    }
    if !canSlurp {
      SpecWithoutArm(before, cursorPos);
    } else if !slurping {
      SpecWithoutToken(before, cursorPos, armAt);
    } else {
      SpecWithoutCompletion(before, cursorPos, armAt, startIx);
    }
    return None;
  }

  /** No character of `t` is a blank or `(`. */
  predicate NoSkips(t: seq<char>)
  {
    t == [] || (!Skipped(t[0]) && NoSkips(t[1..]))
  }

  /** A character that is not skipped extends a text without skipped characters. */
  lemma {:induction false} NoSkipsSnoc(t: seq<char>, c: char)
    requires NoSkips(t) && !Skipped(c)
    ensures NoSkips(t + [c])
  {
    if t != [] {
      assert (t + [c])[1..] == t[1..] + [c];
      NoSkipsSnoc(t[1..], c);
    }
  }

  /** A bare symbol: nonempty, not ending like a string or list, and free of blanks and `(`. */
  predicate IsBareSymbol(t: seq<char>)
  {
    |t| > 0 && !ClosesStringOrList(t) && NoSkips(t)
  }

  /** Dropping characters from the front keeps a text that closes nothing still closing nothing. */
  lemma ClosesNothingSuffix(t: seq<char>, m: nat)
    requires m < |t| && !ClosesStringOrList(t)
    ensures !ClosesStringOrList(t[m..])
  {
  }

  /** A character at `j` the scan read without completing a target that closes nothing is one
      a bare symbol may contain. */
  lemma NotDoneStep(s: seq<char>, te: nat, k: nat, j: nat)
    requires k < j <= te < |s|
    requires !ClosesStringOrList(s[k..te + 1])
    requires !DoneAt(s, j, te)
    requires NoSkips(s[k + 1..j])
    ensures NoSkips(s[k + 1..j + 1])
  {
    assert s[k..te + 1][j - k..] == s[j..te + 1];
    ClosesNothingSuffix(s[k..te + 1], j - k);
    assert !EndsBare(s[j..te + 1], j == 0);
    assert s[k + 1..j + 1] == s[k + 1..j] + [s[j]];
    NoSkipsSnoc(s[k + 1..j], s[j]);
  }

  /** Every character the scan accumulated before a completion at `k` that does not close a
      string or list is one a bare symbol may contain: each of them failed the bare test. */
  lemma {:induction false} NotDoneAboveIsBare(s: seq<char>, te: nat, to: nat, k: nat)
    requires to <= te + 1 <= |s|
    requires CompletionBelow(s, te, to) == Some(k)
    requires !ClosesStringOrList(s[k..te + 1])
    ensures k + 1 <= to && NoSkips(s[k + 1..to])
  {
    if !DoneAt(s, to - 1, te) {
      NotDoneAboveIsBare(s, te, to - 1, k);
      NotDoneStep(s, te, k, to - 1);
    } else {
      assert s[k + 1..to] == [];
    }
  }

  /** `s[st..e]` is a string literal, a list form, or a bare symbol that starts the text or
      follows a blank or `(`. */
  predicate TokenAt(s: seq<char>, st: nat, e: nat)
    requires st <= e <= |s|
  {
    var tok := s[st..e];
    && (IsStringLiteral(tok) || IsListForm(tok) || IsBareSymbol(tok))
    && (IsBareSymbol(tok) ==> st == 0 || Skipped(s[st - 1]))
  }

  /** A bare-symbol completion at `k`: the symbol starts at `TokenFirst` and starts the text or
      follows a blank or `(`. */
  lemma BareToken(s: seq<char>, te: nat, k: nat)
    requires k <= te < |s| && !Skipped(s[te])
    requires EndsBare(s[k..te + 1], k == 0)
    requires NoSkips(s[k + 1..te + 1])
    ensures TokenFirst(s, te, k) <= te && TokenAt(s, TokenFirst(s, te, k), te + 1)
  {
    var t := s[k..te + 1];
    assert t[0] == s[k];
    assert t[1..] == s[k + 1..te + 1];
    if Skipped(s[k]) {
      assert k < te;
      ClosesNothingSuffix(t, 1);
      assert IsBareSymbol(s[k + 1..te + 1]);
    } else {
      assert IsBareSymbol(t);
    }
  }

  /** What the scan knows once the target ending at `te` completes at `k`: the candidate
      `s[k..te + 1]` passed a completion test, and a bare symbol holds no skipped character
      after its first. */
  lemma CompletionFacts(s: seq<char>, te: nat, k: nat)
    requires te < |s|
    requires CompletionBelow(s, te, te + 1) == Some(k)
    ensures k <= te && Done(s[k..te + 1], k == 0)
    ensures EndsBare(s[k..te + 1], k == 0) ==> NoSkips(s[k + 1..te + 1])
  {
    CompletionBelowIsNearest(s, te, te + 1);
    assert DoneAt(s, k, te);
    if EndsBare(s[k..te + 1], k == 0) {
      NotDoneAboveIsBare(s, te, te + 1, k);
    }
  }

  /** A candidate that passed a completion test is a target: a string literal, a list form, or
      a bare symbol that starts the text or follows a blank or `(`. */
  lemma TokenFromDone(s: seq<char>, te: nat, k: nat)
    requires k <= te < |s| && !Skipped(s[te])
    requires Done(s[k..te + 1], k == 0)
    requires EndsBare(s[k..te + 1], k == 0) ==> NoSkips(s[k + 1..te + 1])
    ensures TokenFirst(s, te, k) <= te && TokenAt(s, TokenFirst(s, te, k), te + 1)
  {
    if EndsBare(s[k..te + 1], k == 0) {
      BareToken(s, te, k);
    }
  }

  /** The target that completes at `k`, for one that ends at a non-skipped `te`: a string
      literal, a list form, or a bare symbol that starts the text or follows a blank or `(`. */
  lemma CompletedToken(s: seq<char>, te: nat, k: nat)
    requires te < |s| && !Skipped(s[te])
    requires CompletionBelow(s, te, te + 1) == Some(k)
    ensures TokenFirst(s, te, k) <= te && TokenAt(s, TokenFirst(s, te, k), te + 1)
  {
    CompletionFacts(s, te, k);
    TokenFromDone(s, te, k);
  }

  /** The nearest `(` after a target that only skipped characters separate from a `(` at `a`. */
  lemma FirstOpenAfterToken(s: seq<char>, te: nat, a: nat)
    requires te < a < |s| && s[a] == '('
    requires forall k :: te < k < a ==> Skipped(s[k])
    ensures var d := FirstOpenFrom(s, te + 1);
      te < d <= a && s[d] == '(' && forall k :: te < k < d ==> IsBlank(s[k])
  {
    FirstOpenFromIsFirst(s, te + 1);
  }

  /** Where a backward target lies and what it is, in indices of the text before the cursor:
      the `(` just left of the destination `d`, only blanks between the target's end `e` and
      it, and a target `before[st..e]` that is a string literal, a list form, or a bare symbol
      that starts the text or follows a blank or `(`. */
  predicate PlacedAt(before: seq<char>, st: int, e: int, d: int)
  {
    && 0 <= st < e < d <= |before|
    && before[d - 1] == '('
    && (forall j :: e <= j < d - 1 ==> IsBlank(before[j]))
    && TokenAt(before, st, e)
  }

  /** `PlacedAt` for a reported target, with `off` the cursor's offset from the end of the text
      before it. */
  predicate Placed(before: seq<char>, cursorPos: int, t: SlurpTarget)
  {
    var off := cursorPos - |before|;
    PlacedAt(before, t.slurpTargetStart - off, t.slurpTargetEnd - off, t.slurpDest - off)
  }

  /** A target reported at the cursor offset `off` of indices that are `PlacedAt` is `Placed`. */
  lemma PlacedAtOffset(before: seq<char>, cursorPos: int, t: SlurpTarget, st: int, e: int, d: int)
    requires var off := cursorPos - |before|; t == SlurpTarget(off + st, off + e, off + d)
    requires PlacedAt(before, st, e, d)
    ensures Placed(before, cursorPos, t)
  {
    var off := cursorPos - |before|;
    assert t.slurpTargetStart - off == st && t.slurpTargetEnd - off == e && t.slurpDest - off == d;
  }

  /** The target ending at `te` and completing at `k`, after which only skipped characters come
      before the `(` at `a`, is placed as `TargetAt` reports it. */
  lemma CompletedTargetPlaced(before: seq<char>, a: nat, te: nat, k: nat)
    requires te < a < |before| && before[a] == '('
    requires forall j :: te < j < a ==> Skipped(before[j])
    requires !Skipped(before[te])
    requires CompletionBelow(before, te, te + 1) == Some(k)
    ensures PlacedAt(before, TokenFirst(before, te, k), te + 1, FirstOpenFrom(before, te + 1) + 1)
  {
    CompletedToken(before, te, k);
    FirstOpenAfterToken(before, te, a);
  }

  /** The offsets `TargetAt` reports, relative to the text before the cursor, for a target
      after which only skipped characters come before the `(` at `a`. */
  lemma TargetAtShape(before: seq<char>, cursorPos: int, a: nat, te: nat, k: nat)
    requires te < a < |before| && before[a] == '('
    requires forall j :: te < j < a ==> Skipped(before[j])
    requires !Skipped(before[te])
    requires CompletionBelow(before, te, te + 1) == Some(k)
    ensures Placed(before, cursorPos, TargetAt(before, cursorPos, te, k))
  {
    CompletedTargetPlaced(before, a, te, k);
    TargetAtPlaced(before, cursorPos, te, k);
  }

  /** `TargetAt` reports the indices `CompletedTargetPlaced` places at the cursor's offset. */
  lemma TargetAtPlaced(before: seq<char>, cursorPos: int, te: nat, k: nat)
    requires k <= te < |before|
    requires PlacedAt(before, TokenFirst(before, te, k), te + 1, FirstOpenFrom(before, te + 1) + 1)
    ensures Placed(before, cursorPos, TargetAt(before, cursorPos, te, k))
  {
    PlacedAtOffset(before, cursorPos, TargetAt(before, cursorPos, te, k),
                   TokenFirst(before, te, k), te + 1, FirstOpenFrom(before, te + 1) + 1);
  }

  /** `TargetAtShape` for the arming `(`, the target's end and the completion the scan finds. */
  lemma FoundTargetShape(before: seq<char>, cursorPos: int, a: nat, te: nat, k: nat)
    requires ArmBelow(before, |before|) == Some(a)
    requires TokenEndBelow(before, a) == Some(te)
    requires CompletionBelow(before, te, te + 1) == Some(k)
    ensures Placed(before, cursorPos, TargetAt(before, cursorPos, te, k))
  {
    ArmBelowIsNearest(before, |before|);
    TokenEndBelowIsNearest(before, a);
    TargetAtShape(before, cursorPos, a, te, k);
  }

  /** Every target the backward scan reports is `Placed`. */
  lemma BackwardTargetShape(before: seq<char>, cursorPos: int, t: SlurpTarget)
    requires SlurpBackwardSpec(before, cursorPos) == Some(t)
    ensures Placed(before, cursorPos, t)
  {
    var a := ArmBelow(before, |before|).value;
    var te := TokenEndBelow(before, a).value;
    var k := CompletionBelow(before, te, te + 1).value;
    SpecAtCompletion(before, cursorPos, a, te, k);
    FoundTargetShape(before, cursorPos, a, te, k);
  }

  /** In `a (` with the cursor at the end, the target is `a` and the destination is just right
      of the `(`. */
  lemma SlurpBackwardExample()
    ensures SlurpBackwardSpec("a (", 3) == Some(SlurpTarget(0, 1, 3))
    ensures SlurpBackwardSpec("", 3) == None
  {
    var s := "a (";
    assert LexBackward(s, 2) == LexState(false, 1);
    assert IsArm(s, 2);
    assert ArmBelow(s, 3) == Some(2);
    assert TokenEndBelow(s, 2) == Some(0);
    assert s[0..1] == "a";
    assert DoneAt(s, 0, 0);
    assert CompletionBelow(s, 0, 1) == Some(0);
    assert FirstOpenFrom(s, 1) == 2;
    TargetAtFields(s, 3, 0, 0, "a", 2);
  }
}
