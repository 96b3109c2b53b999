/**
  Character classes and string primitives shared by the scanners: the three blank characters
  the editor scanners test for, the characters JavaScript's `trim` removes, the line
  terminators a regular-expression `.` refuses, occurrence counting, and `String.prototype.trim`.
 */
module Strings {

  /** The whitespace the cursor scanners test for explicitly: space, tab and newline. */
  predicate IsBlank(c: char)
  {
    c == ' ' || c == '\t' || c == '\n'
  }

  /** The characters a JavaScript regular expression's `.` does not match (ECMAScript LineTerminator). */
  predicate IsLineTerminator(c: char)
  {
    c == '\n' || c == '\r' || c == '\U{2028}' || c == '\U{2029}'
  }

  /** ECMAScript WhiteSpace and LineTerminator: what `String.prototype.trim` removes at both ends. */
  predicate IsJsWhitespace(c: char)
  {
    || c == '\t' || c == '\n' || c == '\U{000B}' || c == '\U{000C}' || c == '\r' || c == ' '
    || c == '\U{00A0}' || c == '\U{1680}' || ('\U{2000}' <= c <= '\U{200A}')
    || c == '\U{2028}' || c == '\U{2029}' || c == '\U{202F}' || c == '\U{205F}'
    || c == '\U{3000}' || c == '\U{FEFF}'
  }

  lemma BlankIsJsWhitespace(c: char)
    requires IsBlank(c)
    ensures IsJsWhitespace(c)
  {
  }

  /** Number of occurrences of `x` in `s`. */
  function Count<T(==)>(s: seq<T>, x: T): nat
  {
    if s == [] then 0 else (if s[0] == x then 1 else 0) + Count(s[1..], x)
  }

  lemma {:induction false} CountConcat<T>(a: seq<T>, b: seq<T>, x: T)
    ensures Count(a + b, x) == Count(a, x) + Count(b, x)
  {
    if a == [] {
      assert a + b == b;
    } else {
      assert (a + b)[1..] == a[1..] + b;
      CountConcat(a[1..], b, x);
    }
  }

  /** Counting over `s[..k+1]` adds the occurrence test of `s[k]` to the count over `s[..k]`. */
  lemma CountPrefixStep<T>(s: seq<T>, k: nat, x: T)
    requires k < |s|
    ensures Count(s[..k+1], x) == Count(s[..k], x) + (if s[k] == x then 1 else 0)
  {
    assert s[..k+1] == s[..k] + [s[k]];
    CountConcat(s[..k], [s[k]], x);
  }

  /** Counting over `s[k..]` adds the occurrence test of `s[k]` to the count over `s[k+1..]`. */
  lemma CountSuffixStep<T>(s: seq<T>, k: nat, x: T)
    requires k < |s|
    ensures Count(s[k..], x) == Count(s[k+1..], x) + (if s[k] == x then 1 else 0)
  {
    assert s[k..][1..] == s[k+1..];
  }

  lemma {:induction false} CountAbsent<T>(s: seq<T>, x: T)
    requires x !in s
    ensures Count(s, x) == 0
  {
    if s != [] {
      CountAbsent(s[1..], x);
    }
  }

  lemma {:induction false} CountPresent<T>(s: seq<T>, x: T)
    requires x in s
    ensures Count(s, x) > 0
  {
    if s[0] != x {
      CountPresent(s[1..], x);
    }
  }

  /** Number of leading characters `trim` removes. */
  function LeadingWs(s: seq<char>): (r: nat)
    ensures r <= |s|
    ensures forall i :: 0 <= i < r ==> IsJsWhitespace(s[i])
    ensures r < |s| ==> !IsJsWhitespace(s[r])
  {
    if s != [] && IsJsWhitespace(s[0]) then 1 + LeadingWs(s[1..]) else 0
  }

  /** Index where the trailing run of characters `trim` removes begins. */
  function TrailingWsStart(s: seq<char>): (r: nat)
    ensures r <= |s|
    ensures forall i :: r <= i < |s| ==> IsJsWhitespace(s[i])
    ensures r > 0 ==> !IsJsWhitespace(s[r - 1])
  {
    if s != [] && IsJsWhitespace(s[|s| - 1]) then TrailingWsStart(s[..|s| - 1]) else |s|
  }

  /** `String.prototype.trim`: `s` without its leading and trailing white space. */
  function Trim(s: seq<char>): (r: seq<char>)
    ensures LeadingWs(s) + |r| <= |s|
    ensures r == s[LeadingWs(s)..LeadingWs(s) + |r|]
    ensures forall i :: LeadingWs(s) + |r| <= i < |s| ==> IsJsWhitespace(s[i])
    ensures r != [] ==> !IsJsWhitespace(r[0]) && !IsJsWhitespace(r[|r| - 1])
    ensures r == [] <==> forall i :: 0 <= i < |s| ==> IsJsWhitespace(s[i])
  {
    var t := s[LeadingWs(s)..];
    t[..TrailingWsStart(t)]
  }

  /** `lastIndexOf`: the index of the last `c` in `s`, or -1 when `s` has none. */
  function LastIndexOf(s: seq<char>, c: char): (r: int)
    ensures -1 <= r < |s|
    ensures r >= 0 ==> s[r] == c
    ensures forall k :: r < k < |s| ==> s[k] != c
  {
    if s == [] then -1
    else if s[|s| - 1] == c then |s| - 1
    else LastIndexOf(s[..|s| - 1], c)
  }

  /** Extending the text by one character moves the last occurrence only if that character is `c`. */
  lemma LastIndexOfStep(s: seq<char>, i: nat, c: char)
    requires i < |s|
    ensures LastIndexOf(s[..i + 1], c) == if s[i] == c then i else LastIndexOf(s[..i], c)
  {
    assert s[..i + 1][..i] == s[..i];
  }
}
