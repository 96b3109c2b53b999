/**
  The path helpers of the editor front end. Paths are strings; `\` and `/` are both separators
  in the input, and every helper except `getLeafNameWithExtension` first turns `\` into `/`.
 */
module Paths {
  import opened Strings

  predicate IsSeparator(c: char)
  {
    c == '/' || c == '\\'
  }

  function SlashFor(c: char): char
  {
    if c == '\\' then '/' else c
  }

  /** `normalizePath`: every backslash replaced by a slash. */
  function NormalizePath(p: seq<char>): (r: seq<char>)
    ensures |r| == |p|
    ensures forall i :: 0 <= i < |p| ==> r[i] == SlashFor(p[i])
    ensures '\\' !in r
  {
    seq(|p|, i requires 0 <= i < |p| => SlashFor(p[i]))
  }

  lemma NormalizePathIdempotent(p: seq<char>)
    ensures NormalizePath(NormalizePath(p)) == NormalizePath(p)
  {
  }

  lemma NormalizePathConcat(a: seq<char>, b: seq<char>)
    ensures NormalizePath(a + b) == NormalizePath(a) + NormalizePath(b)
  {
    assert forall i :: 0 <= i < |a + b| ==> NormalizePath(a + b)[i] == (NormalizePath(a) + NormalizePath(b))[i];
  }

  /** A path without backslashes is already normal. */
  lemma NormalizePathOfSlashOnly(p: seq<char>)
    requires '\\' !in p
    ensures NormalizePath(p) == p
  {
    assert forall i :: 0 <= i < |p| ==> NormalizePath(p)[i] == p[i];
  }

  /** `i` is just past the last `/` of `s`, or 0 when there is none. */
  predicate CutAfterLastSlash(s: seq<char>, i: int)
  {
    0 <= i <= |s| && (i == 0 || s[i - 1] == '/') && forall k :: i <= k < |s| ==> s[k] != '/'
  }

  /** `i` is just past the last separator of `s`, or 0 when there is none. */
  predicate CutAfterLastSeparator(s: seq<char>, i: int)
  {
    0 <= i <= |s| && (i == 0 || IsSeparator(s[i - 1])) && forall k :: i <= k < |s| ==> !IsSeparator(s[k])
  }

  lemma CutAfterLastSlashUnique(s: seq<char>, i: int, j: int)
    requires CutAfterLastSlash(s, i) && CutAfterLastSlash(s, j)
    ensures i == j
  {
  }

  lemma CutAfterLastSeparatorUnique(s: seq<char>, i: int, j: int)
    requires CutAfterLastSeparator(s, i) && CutAfterLastSeparator(s, j)
    ensures i == j
  {
  }

  /** `s.split(c).pop()`: what follows the last `c`, or all of `s`. */
  function AfterLast(s: seq<char>, c: char): (r: seq<char>)
    ensures |r| <= |s| && r == s[|s| - |r|..]
    ensures forall k :: |s| - |r| <= k < |s| ==> s[k] != c
    ensures |r| < |s| ==> s[|s| - |r| - 1] == c
  {
    s[LastIndexOf(s, c) + 1..]
  }

  /** The tail after the last `/` of the tail after the last `\\` starts just past the last
      separator of all of `p`. */
  lemma TailOfTail(p: seq<char>, a: seq<char>, b: seq<char>)
    requires |a| <= |p| && a == p[|p| - |a|..]
    requires forall k :: |p| - |a| <= k < |p| ==> p[k] != '\\'
    requires |a| < |p| ==> p[|p| - |a| - 1] == '\\'
    requires |b| <= |a| && b == a[|a| - |b|..]
    requires forall k :: |a| - |b| <= k < |a| ==> a[k] != '/'
    requires |b| < |a| ==> a[|a| - |b| - 1] == '/'
    ensures |b| <= |p| && b == p[|p| - |b|..]
    ensures CutAfterLastSeparator(p, |p| - |b|)
  {
    var o := |p| - |a|;
    assert forall j :: 0 <= j < |a| ==> a[j] == p[o + j];
    forall k | |p| - |b| <= k < |p|
      ensures !IsSeparator(p[k])
    {
      assert p[k] == a[k - o];
    }
    if |b| < |a| {
      assert p[|p| - |b| - 1] == a[|a| - |b| - 1];
    }
  }

  /** `getLeafNameWithExtension`: the last component, with either separator. */
  function GetLeafNameWithExtension(fpath: seq<char>): (r: seq<char>)
    ensures |r| <= |fpath| && r == fpath[|fpath| - |r|..]
    ensures CutAfterLastSeparator(fpath, |fpath| - |r|)
  {
    var a := AfterLast(fpath, '\\');
    var b := AfterLast(a, '/');
    TailOfTail(fpath, a, b);
    b
  }

  /** `getFolderNameFromFile`: the normalised path up to and including its last `/`. */
  function GetFolderNameFromFile(path: seq<char>): (r: seq<char>)
    ensures |r| <= |path| && r == NormalizePath(path)[..|r|]
    ensures CutAfterLastSlash(NormalizePath(path), |r|)
  {
    var n := NormalizePath(path);
    n[..LastIndexOf(n, '/') + 1]
  }

  /** Past the last separator, normalising changes nothing and leaves no `/`. */
  lemma NormalTailAfterCut(path: seq<char>, s: int)
    requires CutAfterLastSeparator(path, s)
    ensures NormalizePath(path)[s..] == path[s..]
    ensures CutAfterLastSlash(NormalizePath(path), s)
  {
    var n := NormalizePath(path);
    assert forall k :: s <= k < |path| ==> n[k] == path[k];
  }

  /** A tail `l` that starts just past the last separator is also the tail of the normalised
      path, and that tail holds no `/`. */
  lemma NormalTailAt(path: seq<char>, l: seq<char>)
    requires |l| <= |path| && l == path[|path| - |l|..]
    requires CutAfterLastSeparator(path, |path| - |l|)
    ensures NormalizePath(path)[|path| - |l|..] == l
    ensures CutAfterLastSlash(NormalizePath(path), |path| - |l|)
  {
    NormalTailAfterCut(path, |path| - |l|);
  }

  /** The folder and the leaf name make up the whole (normalised) path. */
  lemma FolderThenLeafIsPath(path: seq<char>)
    ensures GetFolderNameFromFile(path) + GetLeafNameWithExtension(path) == NormalizePath(path)
  {
    NormalTailAt(path, GetLeafNameWithExtension(path));
    CutAfterLastSlashUnique(NormalizePath(path), |GetFolderNameFromFile(path)|,
                            |path| - |GetLeafNameWithExtension(path)|);
    SplitAt(NormalizePath(path), GetFolderNameFromFile(path), GetLeafNameWithExtension(path));
  }

  /** A sequence is its prefix up to a point followed by its suffix from there. */
  lemma SplitAt(n: seq<char>, f: seq<char>, l: seq<char>)
    requires |f| <= |n| && f == n[..|f|] && l == n[|f|..]
    ensures f + l == n
  {
  }

  /** `replaceFileNameInPath`: the folder of `path` followed by `newFileName`. */
  function ReplaceFileNameInPath(path: seq<char>, newFileName: seq<char>): (r: seq<char>)
    ensures |r| == |GetFolderNameFromFile(path)| + |newFileName|
    ensures r[..|r| - |newFileName|] == GetFolderNameFromFile(path)
    ensures r[|r| - |newFileName|..] == newFileName
  {
    GetFolderNameFromFile(path) + newFileName
  }

  /** The leaf name is what follows any cut after the last separator. */
  lemma LeafAtCut(q: seq<char>, i: int)
    requires CutAfterLastSeparator(q, i)
    ensures GetLeafNameWithExtension(q) == q[i..]
  {
    var l := GetLeafNameWithExtension(q);
    CutAfterLastSeparatorUnique(q, i, |q| - |l|);
  }

  /** For a path already free of backslashes, the folder is what precedes the cut after its last `/`. */
  lemma FolderAtCut(q: seq<char>, i: int)
    requires '\\' !in q
    requires CutAfterLastSlash(q, i)
    ensures GetFolderNameFromFile(q) == q[..i]
  {
    var f := GetFolderNameFromFile(q);
    NormalizePathOfSlashOnly(q);
    CutAfterLastSlashUnique(q, i, |f|);
  }

  /** A folder followed by a name without separators is cut just before the name. */
  lemma FolderNameCut(f: seq<char>, name: seq<char>)
    requires '\\' !in f && (f == [] || f[|f| - 1] == '/')
    requires forall k :: 0 <= k < |name| ==> !IsSeparator(name[k])
    ensures CutAfterLastSeparator(f + name, |f|) && CutAfterLastSlash(f + name, |f|)
    ensures '\\' !in f + name
    ensures (f + name)[|f|..] == name && (f + name)[..|f|] == f
  {
    var q := f + name;
    assert forall k :: |f| <= k < |q| ==> q[k] == name[k - |f|];
    assert forall k :: 0 <= k < |q| ==> q[k] != '\\' by {
      forall k | 0 <= k < |q|
        ensures q[k] != '\\'
      {
        if k < |f| {
          assert q[k] == f[k];
        } else {
          assert q[k] == name[k - |f|];
        }
      }
    }
  }

  /** A file name without separators becomes the leaf of the new path, and the folder stays. */
  lemma ReplaceFileNameKeepsFolder(path: seq<char>, name: seq<char>)
    requires forall k :: 0 <= k < |name| ==> !IsSeparator(name[k])
    ensures GetLeafNameWithExtension(ReplaceFileNameInPath(path, name)) == name
    ensures GetFolderNameFromFile(ReplaceFileNameInPath(path, name)) == GetFolderNameFromFile(path)
  {
    var f := GetFolderNameFromFile(path);
    var q := ReplaceFileNameInPath(path, name);
    assert q == f + name;
    assert '\\' !in f by {
      assert forall k :: 0 <= k < |f| ==> f[k] == NormalizePath(path)[k];
    }
    FolderNameCut(f, name);
    LeafAtCut(q, |f|);
    FolderAtCut(q, |f|);
  }

  /** `trimPrefix`: the normalised path without the normalised prefix, if it starts with it. */
  function TrimPrefix(path: seq<char>, prefix: seq<char>): (r: seq<char>)
    ensures |r| <= |path| && r == NormalizePath(path)[|path| - |r|..]
    ensures NormalizePath(prefix) <= NormalizePath(path) ==> |r| == |path| - |prefix|
    ensures !(NormalizePath(prefix) <= NormalizePath(path)) ==> r == NormalizePath(path)
  {
    var p := NormalizePath(path);
    var q := NormalizePath(prefix);
    if q <= p then p[|q|..] else p
  }

  /** Trimming a prefix off a path that starts with it leaves the rest, normalised. */
  lemma TrimPrefixOfJoin(prefix: seq<char>, rest: seq<char>)
    ensures TrimPrefix(prefix + rest, prefix) == NormalizePath(rest)
  {
    NormalizePathConcat(prefix, rest);
    assert NormalizePath(prefix + rest)[|prefix|..] == NormalizePath(rest);
  }

  /** `joinPaths` as written: a slash is put between the parts in every case; when both carry the
      slash, one is dropped from the first part first. */
  function JoinPaths(path1: seq<char>, path2: seq<char>): (r: seq<char>)
    ensures var a := NormalizePath(path1); var b := NormalizePath(path2);
      && |b| + 1 <= |r|
      && r[|r| - |b|..] == b
      && r[|r| - |b| - 1] == '/'
      && r[..|r| - |b| - 1] == (if |a| > 0 && a[|a| - 1] == '/' && |b| > 0 && b[0] == '/' then a[..|a| - 1] else a)
  {
    var a := NormalizePath(path1);
    var b := NormalizePath(path2);
    var aSlash := |a| > 0 && a[|a| - 1] == '/';
    var bSlash := |b| > 0 && b[0] == '/';
    if !aSlash && !bSlash then a + "/" + b
    else if aSlash && bSlash then a[..|a| - 1] + "/" + b
    else a + "/" + b
  }

  /** Whenever one side already carries the slash at the join, the result has two there. */
  lemma JoinPathsDoublesTheSlash()
    ensures JoinPaths("a/", "b") == "a//b"
    ensures JoinPaths("a", "/b") == "a//b"
    ensures JoinPaths("a/", "/b") == "a//b"
  {
    assert NormalizePath("a/") == "a/";
    assert NormalizePath("b") == "b";
    assert NormalizePath("a") == "a";
    assert NormalizePath("/b") == "/b";
  }

  /** Drops one trailing `/`, if there is one. */
  function WithoutTrailingSlash(a: seq<char>): (r: seq<char>)
    ensures r == a || (a != [] && a[|a| - 1] == '/' && r == a[..|a| - 1])
    ensures a != [] && a[|a| - 1] == '/' ==> |r| == |a| - 1
  {
    if a != [] && a[|a| - 1] == '/' then a[..|a| - 1] else a
  }

  /** Drops one leading `/`, if there is one. */
  function WithoutLeadingSlash(b: seq<char>): (r: seq<char>)
    ensures r == b || (b != [] && b[0] == '/' && r == b[1..])
    ensures b != [] && b[0] == '/' ==> |r| == |b| - 1
  {
    if b != [] && b[0] == '/' then b[1..] else b
  }

  /** `joinPaths` as its middle branch intends: exactly one slash at the join. */
  function JoinPathsSingleSlash(path1: seq<char>, path2: seq<char>): (r: seq<char>)
  {
    WithoutTrailingSlash(NormalizePath(path1)) + "/" + WithoutLeadingSlash(NormalizePath(path2))
  }

  /** The corrected join has exactly one slash at the seam unless a part itself ends or starts with
      two, and it agrees with `JoinPaths` where neither part carries a slash at the seam. */
  lemma JoinPathsSingleSlashJoinsOnce(path1: seq<char>, path2: seq<char>)
    requires var a := NormalizePath(path1); !(|a| >= 2 && a[|a| - 1] == '/' && a[|a| - 2] == '/')
    requires var b := NormalizePath(path2); !(|b| >= 2 && b[0] == '/' && b[1] == '/')
    ensures var x := WithoutTrailingSlash(NormalizePath(path1));
      var y := WithoutLeadingSlash(NormalizePath(path2));
      && JoinPathsSingleSlash(path1, path2) == x + "/" + y
      && !(|x| > 0 && x[|x| - 1] == '/')
      && !(|y| > 0 && y[0] == '/')
    ensures var a := NormalizePath(path1); var b := NormalizePath(path2);
      !(|a| > 0 && a[|a| - 1] == '/') && !(|b| > 0 && b[0] == '/') ==>
        JoinPathsSingleSlash(path1, path2) == JoinPaths(path1, path2)
  {
  }

  /** The characters `fileNameIsValid`'s first pattern refuses. */
  predicate IsForbiddenNameChar(c: char)
  {
    c == '/' || c == ':' || c == '*' || c == '?' || c == '"' || c == '<' || c == '>' || c == '|'
  }

  predicate IsAsciiDigit(c: char)
  {
    '0' <= c <= '9'
  }

  /** Case folding of the `i` flag, which in a non-Unicode pattern only pairs ASCII letters. */
  function AsciiLower(c: char): (r: char)
    ensures 'A' <= c <= 'Z' ==> r as int == c as int + 32
    ensures !('A' <= c <= 'Z') ==> r == c
  {
    if 'A' <= c <= 'Z' then (c as int + 32) as char else c
  }

  function AsciiLowerString(s: seq<char>): (r: seq<char>)
    ensures |r| == |s|
    ensures forall i :: 0 <= i < |s| ==> r[i] == AsciiLower(s[i])
  {
    seq(|s|, i requires 0 <= i < |s| => AsciiLower(s[i]))
  }

  /** `(\.|$)` at index `k`: the name ends there or goes on with a dot. */
  predicate EndsOrDotAt(f: seq<char>, k: nat)
  {
    k == |f| || (k < |f| && f[k] == '.')
  }

  /** `/^(nul|prn|con|lpt[0-9]|com[0-9])(\.|$)/i`: a reserved device name, alone or before a dot. */
  predicate IsReservedDeviceName(f: seq<char>)
  {
    || (|f| >= 3 && AsciiLowerString(f[..3]) in {"nul", "prn", "con"} && EndsOrDotAt(f, 3))
    || (|f| >= 4 && AsciiLowerString(f[..3]) in {"lpt", "com"} && IsAsciiDigit(f[3]) && EndsOrDotAt(f, 4))
  }

  /** `fileNameIsValid`: nonempty with no forbidden character, not starting with a dot, and not a
      reserved device name. */
  predicate FileNameIsValid(fname: seq<char>)
  {
    && (|fname| > 0 && forall i :: 0 <= i < |fname| ==> !IsForbiddenNameChar(fname[i]))
    && !(|fname| > 0 && fname[0] == '.')
    && !IsReservedDeviceName(fname)
  }

  lemma AsciiLowerIdempotent(s: seq<char>)
    ensures AsciiLowerString(AsciiLowerString(s)) == AsciiLowerString(s)
  {
    assert forall i :: 0 <= i < |s| ==> AsciiLowerString(AsciiLowerString(s))[i] == AsciiLowerString(s)[i];
  }

  /** Validity does not depend on the case of ASCII letters. */
  lemma {:induction false} FileNameIsValidIgnoresCase(fname: seq<char>)
    ensures FileNameIsValid(AsciiLowerString(fname)) == FileNameIsValid(fname)
  {
    var l := AsciiLowerString(fname);
    assert forall i :: 0 <= i < |fname| ==> (IsForbiddenNameChar(l[i]) <==> IsForbiddenNameChar(fname[i]));
    if |fname| >= 3 {
      assert l[..3] == AsciiLowerString(fname[..3]);
      AsciiLowerIdempotent(fname[..3]);
    }
  }

  /** A valid name without backslashes is a single path component. */
  lemma ValidFileNameIsItsOwnLeaf(fname: seq<char>)
    requires FileNameIsValid(fname)
    requires '\\' !in fname
    ensures GetLeafNameWithExtension(fname) == fname
  {
    assert CutAfterLastSeparator(fname, 0);
    LeafAtCut(fname, 0);
  }

  lemma ValidFileNameExamples()
    ensures FileNameIsValid("core.lisp")
    ensures FileNameIsValid("console.lisp")
    ensures FileNameIsValid("com10")
  {
    assert "core.lisp"[..3] == "cor";
    assert AsciiLowerString("cor") == "cor";
    assert "console.lisp"[..3] == "con";
    assert AsciiLowerString("con") == "con";
    assert "console.lisp"[3] == 's';
    assert "com10"[..3] == "com";
    assert AsciiLowerString("com") == "com";
    assert "com10"[4] == '0';
  }

  lemma InvalidFileNameExamples()
    ensures !FileNameIsValid("")
    ensures !FileNameIsValid(".hidden")
    ensures !FileNameIsValid("a:b")
    ensures !FileNameIsValid("CON")
    ensures !FileNameIsValid("Lpt1.txt")
  {
    assert "a:b"[1] == ':';
    assert "CON"[..3] == "CON";
    assert AsciiLowerString("CON") == "con";
    assert "Lpt1.txt"[..3] == "Lpt";
    assert AsciiLowerString("Lpt") == "lpt";
    assert "Lpt1.txt"[4] == '.';
  }
}
