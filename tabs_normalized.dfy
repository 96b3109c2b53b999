/**
  The tab bar of the editor panel: like the plain tab bar, but a file is opened only once the
  backend says it exists, under its path with every `\` turned into `/`, and a file already
  open under either spelling of the path is not opened again.
 */
module TabsNormalized {
  import opened Wrappers
  import opened Paths
  import opened TabsPlain

  /** `opened.some(f => f.replace(/\\/g, '/') === p)`. */
  predicate AnyNormalizesTo(s: seq<Path>, p: Path)
  {
    s != [] && (NormalizePath(s[0]) == p || AnyNormalizesTo(s[1..], p))
  }

  /** Some tab, normalised, is `p`. */
  lemma {:induction false} AnyNormalizesToMeans(s: seq<Path>, p: Path)
    ensures AnyNormalizesTo(s, p) <==> exists i :: 0 <= i < |s| && NormalizePath(s[i]) == p
  {
    if s != [] {
      AnyNormalizesToMeans(s[1..], p);
      if AnyNormalizesTo(s[1..], p) {
        var i :| 0 <= i < |s[1..]| && NormalizePath(s[1..][i]) == p;
        assert NormalizePath(s[i + 1]) == p;
      }
      if exists i :: 0 <= i < |s| && NormalizePath(s[i]) == p {
        var i :| 0 <= i < |s| && NormalizePath(s[i]) == p;
        if i > 0 {
          assert NormalizePath(s[1..][i - 1]) == p;
        }
      }
    }
  }

  /** `hasAlreadyOpened` replaces backslashes only in a path that has one; it searches for the
      normalised path all the same. */
  lemma QueryIsNormalized(fpath: Path)
    ensures (if '\\' in fpath then NormalizePath(fpath) else fpath) == NormalizePath(fpath)
  {
    if '\\' !in fpath {
      NormalizePathOfSlashOnly(fpath);
    }
  }

  /** What the normalising `open` does to the tabs: the normalised path is appended unless a
      tab already normalises to it. */
  function OpenedNormalized(s: seq<Path>, f: Path): seq<Path>
  {
    var pn := NormalizePath(f);
    if AnyNormalizesTo(s, pn) then s else s + [pn]
  }

  /** Every tab is a normalised path. */
  predicate AllNormal(s: seq<Path>)
  {
    forall i :: 0 <= i < |s| ==> '\\' !in s[i]
  }

  /** What this tab bar keeps besides the plain tab bar's invariant: every tab normalised. */
  predicate NormalTabsValid(tabs: seq<Path>, active: Option<Path>)
  {
    TabsValid(tabs, active) && AllNormal(tabs)
  }

  /** Among normalised tabs, a tab normalising to a normalised path is that path. */
  lemma NormalTabsMatchExactly(s: seq<Path>, pn: Path)
    requires AllNormal(s) && '\\' !in pn
    ensures AnyNormalizesTo(s, pn) <==> pn in s
  {
    AnyNormalizesToMeans(s, pn);
    forall i | 0 <= i < |s|
      ensures NormalizePath(s[i]) == s[i]
    {
      NormalizePathOfSlashOnly(s[i]);
    }
  }

  /** Opening keeps every tab normalised and open once, and makes the normalised path the
      active tab. */
  lemma OpenNormalizedKeepsValid(tabs: seq<Path>, active: Option<Path>, f: Path)
    requires NormalTabsValid(tabs, active)
    ensures NormalTabsValid(OpenedNormalized(tabs, f), Some(NormalizePath(f)))
    ensures NormalizePath(f) in OpenedNormalized(tabs, f)
  {
    var pn := NormalizePath(f);
    NormalTabsMatchExactly(tabs, pn);
    if pn !in tabs {
      OpenKeepsValid(tabs, active, pn);
      assert forall i :: 0 <= i < |tabs| ==> (tabs + [pn])[i] == tabs[i];
    }
  }

  /** On a valid tab bar, opening the same file under another spelling of its path, after it
      was opened once, adds no tab. */
  lemma OpenNormalizedOnce(tabs: seq<Path>, active: Option<Path>, f: Path, g: Path)
    requires NormalTabsValid(tabs, active)
    requires NormalizePath(f) == NormalizePath(g)
    ensures OpenedNormalized(OpenedNormalized(tabs, f), g) == OpenedNormalized(tabs, f)
  {
    OpenNormalizedKeepsValid(tabs, active, f);
    NormalTabsMatchExactly(OpenedNormalized(tabs, f), NormalizePath(g));
  }

  /** Closing a tab keeps every remaining tab normalised. */
  lemma RemoveKeepsNormal(tabs: seq<Path>, active: Option<Path>, f: Path)
    requires NormalTabsValid(tabs, active)
    ensures NormalTabsValid(RemoveFirst(tabs, f), ActiveAfterRemove(active, f, RemoveFirst(tabs, f)))
  {
    RemoveKeepsValid(tabs, active, f);
    RemoveFirstNoDup(tabs, f);
    forall i | 0 <= i < |RemoveFirst(tabs, f)|
      ensures '\\' !in RemoveFirst(tabs, f)[i]
    {
      assert RemoveFirst(tabs, f)[i] in tabs;
    }
  }

  /** The editor panel's tab bar: `tabs` (the state's `opened`) and `active`, updated in place;
      whether the backend finds a file is the `fileExists` parameter. */
  class EditorTabs {
    var tabs: seq<Path>
    var active: Option<Path>

    predicate Valid()
      reads this
    {
      NormalTabsValid(tabs, active)
    }

    constructor()
      ensures Valid()
      ensures tabs == [] && active == None
    {
      tabs := [];
      active := None;
    }

    /** `hasAlreadyOpened`: some tab names the same file as `fpath` once backslashes are turned
        into slashes on both sides. */
    function HasAlreadyOpened(fpath: Path): (b: bool)
      reads this
      ensures b <==> exists i :: 0 <= i < |tabs| && NormalizePath(tabs[i]) == NormalizePath(fpath)
    {
      var p := if '\\' in fpath then NormalizePath(fpath) else fpath;
      QueryIsNormalized(fpath);
      AnyNormalizesToMeans(tabs, p);
      AnyNormalizesTo(tabs, p)
    }

    /** The state update shared by the three ways of opening a file. */
    method OpenExisting(filePath: Path)
      modifies this
      ensures tabs == OpenedNormalized(old(tabs), filePath)
      ensures active == Some(NormalizePath(filePath))
      ensures old(Valid()) ==> Valid()
    {
      if Valid() {
        OpenNormalizedKeepsValid(tabs, active, filePath);
      }
      var pathNormalized := NormalizePath(filePath);
      NormalizePathIdempotent(filePath);
      if !HasAlreadyOpened(pathNormalized) {
        AnyNormalizesToMeans(tabs, pathNormalized);
        tabs := tabs + [pathNormalized];
      } else {
        AnyNormalizesToMeans(tabs, pathNormalized);
      }
      active := Some(pathNormalized);
    }

    /** `open`: nothing happens when the file does not exist; otherwise its normalised path
        becomes a tab unless it already is one, and the active tab. */
    method Open(filePath: Path, fileExists: bool)
      modifies this
      ensures !fileExists ==> tabs == old(tabs) && active == old(active)
      ensures fileExists ==> tabs == OpenedNormalized(old(tabs), filePath) && active == Some(NormalizePath(filePath))
      ensures old(Valid()) ==> Valid()
    {
      if !fileExists {
        return;
      }
      OpenExisting(filePath);
    }

    /** `openAtLineAndCol`: `open`, after which the editor moves its cursor to `line`, `col`. */
    method OpenAtLineAndCol(file: Path, line: nat, col: nat, fileExists: bool)
      modifies this
      ensures !fileExists ==> tabs == old(tabs) && active == old(active)
      ensures fileExists ==> tabs == OpenedNormalized(old(tabs), file) && active == Some(NormalizePath(file))
      ensures old(Valid()) ==> Valid()
    {
      if !fileExists {
        return;
      }
      OpenExisting(file);
    }

    /** `openAtPosition`: `open`, after which the editor moves its cursor to `pos`. */
    method OpenAtPosition(filePath: Path, pos: nat, fileExists: bool)
      modifies this
      ensures !fileExists ==> tabs == old(tabs) && active == old(active)
      ensures fileExists ==> tabs == OpenedNormalized(old(tabs), filePath) && active == Some(NormalizePath(filePath))
      ensures old(Valid()) ==> Valid()
    {
      if !fileExists {
        return;
      }
      OpenExisting(filePath);
    }

    /** `remove`: the first tab that is exactly `filePath` is closed; if it was active, the
        first remaining tab becomes active, or none. */
    method Remove(filePath: Path)
      modifies this
      ensures tabs == RemoveFirst(old(tabs), filePath)
      ensures active == ActiveAfterRemove(old(active), filePath, tabs)
      ensures old(Valid()) ==> Valid()
    {
      if filePath in tabs {
        RemoveFirstSplices(tabs, filePath);
      } else {
        RemoveFirstAbsent(tabs, filePath);
      }
      if Valid() {
        RemoveKeepsNormal(tabs, active, filePath);
      }
      if filePath in tabs {
        var i := IndexOf(tabs, filePath);
        tabs := tabs[..i] + tabs[i + 1..];
      }
      if active == Some(filePath) {
        if |tabs| > 0 {
          active := Some(tabs[0]);
        } else {
          active := None;
        }
      }
    }

    /** `closeActiveEditor`: nothing without an active tab, otherwise `remove` of it. */
    method CloseActiveEditor()
      modifies this
      ensures old(active).None? ==> tabs == old(tabs) && active == None
      ensures old(active).Some? ==>
        && tabs == RemoveFirst(old(tabs), old(active).value)
        && active == ActiveAfterRemove(old(active), old(active).value, tabs)
      ensures old(Valid()) ==> Valid()
      ensures old(Valid()) && old(active).Some? ==> old(active).value !in tabs
    {
      if active.Some? {
        if Valid() {
          RemoveFirstNoDup(tabs, active.value);
        }
        Remove(active.value);
      }
    }

    /** `setActive`: the file becomes the active tab; the tabs stay as they are. The tab bar
        stays valid when the file is one of its tabs, as it is for every tab clicked. */
    method SetActive(filePath: Path)
      modifies this
      ensures tabs == old(tabs)
      ensures active == Some(filePath)
      ensures old(Valid()) && filePath in tabs ==> Valid()
    {
      if active != Some(filePath) {
        active := Some(filePath);
      }
    }
  }
}
