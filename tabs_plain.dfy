/**
  The tab bar of the editor: the list of open files, in the order they were opened, and the
  active one (`None` for JavaScript's `null`, when no tab is active). Paths are compared
  exactly.
 */
module TabsPlain {
  import opened Wrappers

  type Path = seq<char>

  predicate NoDup(s: seq<Path>)
  {
    forall i, j :: 0 <= i < j < |s| ==> s[i] != s[j]
  }

  /** What the tab bar keeps: no file open twice, and the active file, if any, open. */
  predicate TabsValid(tabs: seq<Path>, active: Option<Path>)
  {
    NoDup(tabs) && (active.Some? ==> active.value in tabs)
  }

  /** `opened.includes(f)` then `opened.push(f)` when absent. */
  function Opened(s: seq<Path>, f: Path): (r: seq<Path>)
  {
    if f in s then s else s + [f]
  }

  /** After opening, `f` is open, every earlier tab keeps its place, and nothing else is new. */
  lemma OpenedShape(s: seq<Path>, f: Path)
    ensures f in Opened(s, f)
    ensures s <= Opened(s, f)
    ensures forall x :: x in Opened(s, f) <==> x in s || x == f
    ensures |Opened(s, f)| == |s| + (if f in s then 0 else 1)
  {
  }

  /** Opening a file twice is opening it once. */
  lemma OpenedIdempotent(s: seq<Path>, f: Path)
    ensures Opened(Opened(s, f), f) == Opened(s, f)
  {
  }

  /** `opened.indexOf(f)`: the first position of `f`. */
  function IndexOf(s: seq<Path>, f: Path): (i: nat)
    requires f in s
    ensures i < |s| && s[i] == f
    ensures f !in s[..i]
  {
    if s[0] == f then 0
    else
      var i := 1 + IndexOf(s[1..], f);
      assert s[..i] == [s[0]] + s[1..][..i - 1];
      i
  }

  /** `if (opened.includes(f)) opened.splice(opened.indexOf(f), 1)`: the first occurrence of `f`
      taken out, the rest in order. */
  function RemoveFirst(s: seq<Path>, f: Path): seq<Path>
  {
    if s == [] then []
    else if s[0] == f then s[1..]
    else [s[0]] + RemoveFirst(s[1..], f)
  }

  /** Removing a file that is not open changes nothing. */
  lemma {:induction false} RemoveFirstAbsent(s: seq<Path>, f: Path)
    requires f !in s
    ensures RemoveFirst(s, f) == s
  {
    if s != [] {
      RemoveFirstAbsent(s[1..], f);
      assert s == [s[0]] + s[1..];
    }
  }

  /** Removing an open file splices out exactly the element at its first index. */
  lemma {:induction false} RemoveFirstSplices(s: seq<Path>, f: Path)
    requires f in s
    ensures RemoveFirst(s, f) == s[..IndexOf(s, f)] + s[IndexOf(s, f) + 1..]
  {
    if s[0] != f {
      RemoveFirstSplices(s[1..], f);
      var i := IndexOf(s[1..], f);
      assert IndexOf(s, f) == i + 1;
      assert s[..i + 1] == [s[0]] + s[1..][..i];
      assert s[i + 2..] == s[1..][i + 1..];
    }
  }

  /** Exactly one copy of `f` goes, if there is one. */
  lemma {:induction false} RemoveFirstMultiset(s: seq<Path>, f: Path)
    ensures multiset(RemoveFirst(s, f)) == multiset(s) - multiset{f}
  {
    if s != [] {
      assert s == [s[0]] + s[1..];
      if s[0] != f {
        RemoveFirstMultiset(s[1..], f);
      }
    }
  }

  lemma NoDupTail(s: seq<Path>)
    requires s != [] && NoDup(s)
    ensures NoDup(s[1..]) && s[0] !in s[1..]
  {
  }

  lemma NoDupCons(x: Path, s: seq<Path>)
    requires x !in s && NoDup(s)
    ensures NoDup([x] + s)
  {
  }

  /** In a list without duplicates removal drops `f` altogether and keeps the list free of
      duplicates. */
  lemma {:induction false} RemoveFirstNoDup(s: seq<Path>, f: Path)
    requires NoDup(s)
    ensures NoDup(RemoveFirst(s, f))
    ensures forall x :: x in RemoveFirst(s, f) <==> x in s && x != f
  {
    if s != [] {
      NoDupTail(s);
      RemoveFirstNoDup(s[1..], f);
      if s[0] != f {
        NoDupCons(s[0], RemoveFirst(s[1..], f));
      }
    }
  }

  /** Closing a file that was just opened, when it was not open before, gives the old tabs. */
  lemma {:induction false} RemoveUndoesOpen(s: seq<Path>, f: Path)
    requires f !in s
    ensures RemoveFirst(Opened(s, f), f) == s
  {
    if s != [] {
      assert (s + [f])[1..] == s[1..] + [f];
      RemoveUndoesOpen(s[1..], f);
    }
  }

  /** The active tab after closing `f`, leaving the tabs `rest`: the first tab, or none, when `f`
      was active; otherwise unchanged. */
  function ActiveAfterRemove(active: Option<Path>, f: Path, rest: seq<Path>): Option<Path>
  {
    if active == Some(f) then (if |rest| > 0 then Some(rest[0]) else None) else active
  }

  /** Opening keeps the tab bar valid and makes `f` the active tab. */
  lemma OpenKeepsValid(tabs: seq<Path>, active: Option<Path>, f: Path)
    requires TabsValid(tabs, active)
    ensures TabsValid(Opened(tabs, f), Some(f))
  {
    if f !in tabs {
      assert forall i :: 0 <= i < |tabs| ==> (tabs + [f])[i] == tabs[i];
    }
  }

  /** Closing keeps the tab bar valid: the active tab, if any, is still open. */
  lemma RemoveKeepsValid(tabs: seq<Path>, active: Option<Path>, f: Path)
    requires TabsValid(tabs, active)
    ensures TabsValid(RemoveFirst(tabs, f), ActiveAfterRemove(active, f, RemoveFirst(tabs, f)))
    ensures ActiveAfterRemove(active, f, RemoveFirst(tabs, f)) != Some(f)
  {
    RemoveFirstNoDup(tabs, f);
  }

  /** The tab bar as the component's state: `tabs` (the state's `opened`) and `active`, updated in place. */
  class EditorTabs {
    var tabs: seq<Path>
    var active: Option<Path>

    predicate Valid()
      reads this
    {
      TabsValid(tabs, active)
    }

    constructor()
      ensures Valid()
      ensures tabs == [] && active == None
    {
      tabs := [];
      active := None;
    }

    /** `open`: the file becomes a tab at the end unless it is already one, and is made
        active. */
    method Open(filePath: Path)
      modifies this
      ensures tabs == Opened(old(tabs), filePath)
      ensures active == Some(filePath)
      ensures old(Valid()) ==> Valid()
    {
      if Valid() {
        OpenKeepsValid(tabs, active, filePath);
      }
      if filePath !in tabs {
        tabs := tabs + [filePath];
      }
      active := Some(filePath);
    }

    /** `openAtPosition`: the same update as `open`; moving the editor's cursor to `pos`
        afterwards is the editor's concern. */
    method OpenAtPosition(filePath: Path, pos: nat)
      modifies this
      ensures tabs == Opened(old(tabs), filePath)
      ensures active == Some(filePath)
      ensures old(Valid()) ==> Valid()
    {
      if Valid() {
        OpenKeepsValid(tabs, active, filePath);
      }
      if filePath !in tabs {
        tabs := tabs + [filePath];
      }
      active := Some(filePath);
    }

    /** `remove`: the first tab holding the file is closed; if it was active, the first
        remaining tab becomes active, or none. */
    method Remove(filePath: Path)
      modifies this
      ensures tabs == RemoveFirst(old(tabs), filePath)
      ensures active == ActiveAfterRemove(old(active), filePath, tabs)
      ensures old(Valid()) ==> Valid()
    {
      if filePath in tabs {
        RemoveFirstSplices(tabs, filePath);
      } else {
        RemoveFirstAbsent(tabs, filePath);
      }
      if old(Valid()) {
        RemoveKeepsValid(tabs, active, filePath);
      }
      if filePath in tabs {
        var i := IndexOf(tabs, filePath);
        tabs := tabs[..i] + tabs[i + 1..];
      }
      if active == Some(filePath) {
        if |tabs| > 0 {
          active := Some(tabs[0]);
        } else {
          active := None;
        }
      }
    }

    /** `setActive`: the file becomes the active tab; the tabs stay as they are. The tab bar
        stays valid when the file is one of its tabs, as it is for every tab clicked. */
    method SetActive(filePath: Path)
      modifies this
      ensures tabs == old(tabs)
      ensures active == Some(filePath)
      ensures old(Valid()) && filePath in tabs ==> Valid()
    {
      if active != Some(filePath) {
        active := Some(filePath);
      }
    }
  }
}
