/** `padStartEnd`: centres a text in a field of a given width, with the odd pad character in front. */
module Padding {

  function Repeat(c: char, n: nat): (r: seq<char>)
    ensures |r| == n
    ensures forall i :: 0 <= i < n ==> r[i] == c
  {
    seq(n, _ => c)
  }

  /** `String.prototype.padStart` with a one-character pad. */
  function PadStart(s: seq<char>, target: int, c: char): (r: seq<char>)
    ensures target <= |s| ==> r == s
    ensures target > |s| ==> |r| == target && r[target - |s|..] == s
    ensures forall i :: 0 <= i < |r| - |s| ==> r[i] == c
  {
    if target <= |s| then s else Repeat(c, target - |s|) + s
  }

  /** `String.prototype.padEnd` with a one-character pad. */
  function PadEnd(s: seq<char>, target: int, c: char): (r: seq<char>)
    ensures target <= |s| ==> r == s
    ensures target > |s| ==> |r| == target && r[..|s|] == s
    ensures forall i :: |s| <= i < |r| ==> r[i] == c
  {
    if target <= |s| then s else s + Repeat(c, target - |s|)
  }

  /** `padStartEnd` as written: half the missing width in front (plus one when it is odd), the
      rest behind. */
  function PadStartEnd(text: seq<char>, len: int, padChar: char): (r: seq<char>)
    ensures len <= |text| ==> r == text
    ensures len > |text| ==>
      r == Repeat(padChar, (len - |text| + 1) / 2) + text + Repeat(padChar, (len - |text|) / 2)
  {
    var remaining := len - |text|;
    if remaining <= 0 then text
    else if remaining % 2 == 0 then
      PadEnd(PadStart(text, |text| + remaining / 2, padChar), len, padChar)
    else
      PadEnd(PadStart(text, |text| + remaining / 2 + 1, padChar), len, padChar)
  }

  /** The result fills the field exactly, with the text in the middle: the pad in front is
      never shorter than the pad behind, and at most one longer. */
  lemma PadStartEndCentres(text: seq<char>, len: int, padChar: char)
    requires len > |text|
    ensures var r := PadStartEnd(text, len, padChar);
      var front := (len - |text| + 1) / 2;
      && |r| == len
      && r[front..front + |text|] == text
      && len - |text| - front <= front <= len - |text| - front + 1
  {
    var r := PadStartEnd(text, len, padChar);
    var front := (len - |text| + 1) / 2;
    assert r[front..front + |text|] == text;
  }
}
