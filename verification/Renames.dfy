/** What a rename or a new name does to every path, and exactly when the directories stay a tree. */
module Renames {
  import opened TinyFsModel
  import opened Paths

  // ---- rename ----

  /** The old name is dropped first, so the new one may be the same or may have been taken. */
  function Rename(dirs: map<nat, Names>, from: nat, name: string, to: nat, newName: string): map<nat, Names>
    requires name in Entries(dirs, from)
  {
    AddName(DropName(dirs, from, name), to, newName, Entries(dirs, from)[name])
  }

  /** What `rename` is called with: an entry a/name that exists and a directory b that exists. */
  ghost predicate Named(dirs: map<nat, Names>, a: seq<string>, name: string, b: seq<string>) {
    Tree(dirs) && Walk(dirs, ROOT, b) != 0 && Entry(dirs, Walk(dirs, ROOT, a), name)
  }

  /** A rename to a directory that is not inside what moves. The new name may be taken. */
  ghost predicate Movable(dirs: map<nat, Names>, a: seq<string>, name: string, b: seq<string>) {
    Named(dirs, a, name, b) && !(a + [name] <= b)
  }

  function Moved(dirs: map<nat, Names>, a: seq<string>, name: string, b: seq<string>, newName: string): map<nat, Names>
    requires name in Entries(dirs, Walk(dirs, ROOT, a))
  {
    Rename(dirs, Walk(dirs, ROOT, a), name, Walk(dirs, ROOT, b), newName)
  }

  lemma RenamedEntries(dirs: map<nat, Names>, from: nat, name: string, to: nat, newName: string)
    requires Entry(dirs, from, name)
    ensures var g := Rename(dirs, from, name, to, newName);
      && (forall d, n :: Entry(g, d, n) <==>
            (d == to && n == newName) || (Entry(dirs, d, n) && !(d == from && n == name)))
      && (forall d, n | Entry(g, d, n) :: Entries(g, d)[n]
            == if d == to && n == newName then Entries(dirs, from)[name] else Entries(dirs, d)[n])
      && (forall d, n | !(d == to && n == newName) && !(d == from && n == name) ::
            Lookup(g, d, n) == Lookup(dirs, d, n))
  {}

  /** A path that neither runs through the old name nor through the new one leads where it did. */
  lemma {:induction false} OthersStay(dirs: map<nat, Names>, a: seq<string>, name: string, b: seq<string>,
                                      newName: string, q: seq<string>)
    requires Named(dirs, a, name, b) && !(a + [name] <= q) && !(b + [newName] <= q)
    ensures Walk(Moved(dirs, a, name, b, newName), ROOT, q) == Walk(dirs, ROOT, q)
    decreases |q|
  {
    if q != [] {
      var g, r, c := Moved(dirs, a, name, b, newName), q[..|q| - 1], q[|q| - 1];
      var from, to := Walk(dirs, ROOT, a), Walk(dirs, ROOT, b);
      assert q == r + [c];
      RenamedEntries(dirs, from, name, to, newName);
      OthersStay(dirs, a, name, b, newName, r);
      WalkSnoc(dirs, ROOT, r, c);
      assert forall n :: !Entry(g, 0, n);
      WalkSnoc(g, ROOT, r, c);
      if Walk(dirs, ROOT, r) == from && c == name {
        OnePath(dirs, r, a);
        assert false;
      }
      if Walk(dirs, ROOT, r) == to && c == newName {
        OnePath(dirs, r, b);
        assert false;
      }
    }
  }

  /** Below the moved inode nothing changes. */
  lemma {:induction false} SubtreeStays(dirs: map<nat, Names>, a: seq<string>, name: string, b: seq<string>,
                                        newName: string, s: seq<string>)
    requires Movable(dirs, a, name, b)
    ensures var ino := Walk(dirs, ROOT, a + [name]);
      ino == Lookup(dirs, Walk(dirs, ROOT, a), name) != 0
      && Walk(Moved(dirs, a, name, b, newName), ino, s) == Walk(dirs, ino, s)
    decreases |s|
  {
    WalkSnoc(dirs, ROOT, a, name);
    var ino := Walk(dirs, ROOT, a + [name]);
    if s != [] {
      var g, r, c := Moved(dirs, a, name, b, newName), s[..|s| - 1], s[|s| - 1];
      var from, to := Walk(dirs, ROOT, a), Walk(dirs, ROOT, b);
      assert s == r + [c];
      RenamedEntries(dirs, from, name, to, newName);
      SubtreeStays(dirs, a, name, b, newName, r);
      WalkSnoc(dirs, ino, r, c);
      assert forall n :: !Entry(g, 0, n);
      WalkSnoc(g, ino, r, c);
      WalkAppend(dirs, ROOT, a + [name], r);
      if Walk(dirs, ino, r) == from && c == name {
        OnePath(dirs, a + [name] + r, a);
        assert false;
      }
      if Walk(dirs, ino, r) == to && c == newName {
        OnePath(dirs, a + [name] + r, b);
        assert false;
      }
    }
  }

  lemma SubtreeArrives(dirs: map<nat, Names>, a: seq<string>, name: string, b: seq<string>, newName: string,
                       s: seq<string>)
    requires Movable(dirs, a, name, b)
    ensures Walk(Moved(dirs, a, name, b, newName), ROOT, b + [newName] + s) == Walk(dirs, ROOT, a + [name] + s)
  {
    var g := Moved(dirs, a, name, b, newName);
    var from, to := Walk(dirs, ROOT, a), Walk(dirs, ROOT, b);
    RenamedEntries(dirs, from, name, to, newName);
    SubtreeStays(dirs, a, name, b, newName, s);
    WalkAppend(dirs, ROOT, a + [name], s);
    OthersStay(dirs, a, name, b, newName, b);
    assert forall n :: !Entry(g, 0, n);
    WalkSnoc(g, ROOT, b, newName);
    assert Entry(g, to, newName);
    WalkAppend(g, ROOT, b + [newName], s);
  }

  lemma OldLeadsNowhere(dirs: map<nat, Names>, a: seq<string>, name: string, b: seq<string>, newName: string,
                        s: seq<string>)
    requires Movable(dirs, a, name, b) && !(b + [newName] <= a + [name])
    ensures Walk(Moved(dirs, a, name, b, newName), ROOT, a + [name] + s) == 0
  {
    var g := Moved(dirs, a, name, b, newName);
    var from, to := Walk(dirs, ROOT, a), Walk(dirs, ROOT, b);
    RenamedEntries(dirs, from, name, to, newName);
    assert from != 0;
    if b + [newName] <= a {
      assert false;
    }
    OthersStay(dirs, a, name, b, newName, a);
    if from == to && name == newName {
      OnePath(dirs, a, b);
      assert false;
    }
    assert a + [name] + s == a + ([name] + s);
    NoSuchName(g, from, name, s);
    WalkAppend(g, ROOT, a, [name] + s);
  }

  /** Rename moves the whole subtree, and says of every path where it leads afterwards. For every suffix the
      new path leads where the old one led, also when the new name was taken. The old path leads nowhere,
      unless it runs through the new name. Every path through neither is unchanged. */
  lemma RenameMovesSubtree(dirs: map<nat, Names>, a: seq<string>, name: string, b: seq<string>, newName: string,
                           s: seq<string>)
    requires Movable(dirs, a, name, b)
    ensures var g := Moved(dirs, a, name, b, newName);
      && Walk(g, ROOT, b + [newName] + s) == Walk(dirs, ROOT, a + [name] + s)
      && (!(b + [newName] <= a + [name]) ==> Walk(g, ROOT, a + [name] + s) == 0)
      && (!(a + [name] <= s) && !(b + [newName] <= s) ==> Walk(g, ROOT, s) == Walk(dirs, ROOT, s))
  {
    SubtreeArrives(dirs, a, name, b, newName, s);
    if !(b + [newName] <= a + [name]) {
      OldLeadsNowhere(dirs, a, name, b, newName, s);
    }
    if !(a + [name] <= s) && !(b + [newName] <= s) {
      OthersStay(dirs, a, name, b, newName, s);
    }
  }

  // ---- exactly when the tree survives a rename ----

  /** The new name is free, or it is the old one, or the inode it led to has no entry but the one that moves. */
  ghost predicate Replaceable(dirs: map<nat, Names>, from: nat, name: string, to: nat, newName: string) {
    Entry(dirs, to, newName) && !(from == to && name == newName) ==>
      forall n | Entry(dirs, Entries(dirs, to)[newName], n) :: Entries(dirs, to)[newName] == from && n == name
  }

  lemma StillReached(dirs: map<nat, Names>, a: seq<string>, name: string, b: seq<string>, newName: string,
                     cs: seq<string>, n: string)
    requires Movable(dirs, a, name, b)
    requires Replaceable(dirs, Walk(dirs, ROOT, a), name, Walk(dirs, ROOT, b), newName)
    requires Entry(dirs, Walk(dirs, ROOT, cs), n) && !(Walk(dirs, ROOT, cs) == Walk(dirs, ROOT, a) && n == name)
    ensures Reached(Moved(dirs, a, name, b, newName), Walk(dirs, ROOT, cs))
  {
    var g := Moved(dirs, a, name, b, newName);
    if a + [name] <= cs {
      var s := cs[|a| + 1..];
      assert cs == a + [name] + s;
      SubtreeArrives(dirs, a, name, b, newName, s);
    } else {
      if b + [newName] <= cs {
        BelowReplaced(dirs, a, name, b, newName, cs, n);
      }
      OthersStay(dirs, a, name, b, newName, cs);
    }
  }

  /** Nothing lives below an entry that may be replaced, except on the way to what moves. */
  lemma BelowReplaced(dirs: map<nat, Names>, a: seq<string>, name: string, b: seq<string>, newName: string,
                      cs: seq<string>, n: string)
    requires Movable(dirs, a, name, b) && b + [newName] <= cs
    requires Replaceable(dirs, Walk(dirs, ROOT, a), name, Walk(dirs, ROOT, b), newName)
    requires Entry(dirs, Walk(dirs, ROOT, cs), n) && !(Walk(dirs, ROOT, cs) == Walk(dirs, ROOT, a) && n == name)
    ensures a + [name] <= cs
  {
    var to, r := Walk(dirs, ROOT, b), cs[|b| + 1..];
    assert cs == b + [newName] + r;
    WalkSnoc(dirs, ROOT, b, newName);
    if Walk(dirs, ROOT, b + [newName]) == 0 {
      WalkDead(dirs, ROOT, b + [newName], r);
      assert false;
    }
    var t := Entries(dirs, to)[newName];
    WalkAppend(dirs, ROOT, b + [newName], r);
    FirstEntry(dirs, t, r, n);
    if Walk(dirs, ROOT, a) == to && name == newName {
      OnePath(dirs, a, b);
    } else {
      OnePath(dirs, a, b + [newName]);
      assert cs[..|a| + 1] == a + [name];
    }
  }

  lemma RenameKeepsTree(dirs: map<nat, Names>, a: seq<string>, name: string, b: seq<string>, newName: string)
    requires Movable(dirs, a, name, b)
    requires Replaceable(dirs, Walk(dirs, ROOT, a), name, Walk(dirs, ROOT, b), newName)
    ensures Tree(Moved(dirs, a, name, b, newName))
  {
    var g := Moved(dirs, a, name, b, newName);
    var from, to := Walk(dirs, ROOT, a), Walk(dirs, ROOT, b);
    RenamedEntries(dirs, from, name, to, newName);
    forall d, n | Entry(g, d, n)
      ensures Reached(g, d)
    {
      if d == to {
        OthersStay(dirs, a, name, b, newName, b);
        assert Walk(g, ROOT, b) == d;
      } else {
        assert Entry(dirs, d, n);
        StillReached(dirs, a, name, b, newName, PathTo(dirs, d), n);
      }
    }
  }

  /** With the target inside what moves, only paths outside it still lead somewhere. */
  lemma {:induction false} OnlyOutsideRemains(dirs: map<nat, Names>, a: seq<string>, name: string, b: seq<string>,
                                              newName: string, cs: seq<string>)
    requires Named(dirs, a, name, b) && a + [name] <= b
    requires Walk(Moved(dirs, a, name, b, newName), ROOT, cs) != 0
    ensures Walk(Moved(dirs, a, name, b, newName), ROOT, cs) == Walk(dirs, ROOT, cs) && !(a + [name] <= cs)
    decreases |cs|
  {
    if cs != [] {
      var g, r, c := Moved(dirs, a, name, b, newName), cs[..|cs| - 1], cs[|cs| - 1];
      assert cs == r + [c];
      RenamedEntries(dirs, Walk(dirs, ROOT, a), name, Walk(dirs, ROOT, b), newName);
      assert forall n :: !Entry(g, 0, n);
      WalkSnoc(g, ROOT, r, c);
      WalkSnoc(dirs, ROOT, r, c);
      assert !Entry(g, 0, c);
      assert a + [name] <= cs ==> a + [name] <= r || (r == a && c == name);
      OnlyOutsideRemains(dirs, a, name, b, newName, r);
      if Walk(dirs, ROOT, r) == Walk(dirs, ROOT, b) {
        OnePath(dirs, r, b);
      }
    }
  }

  /** Renaming a directory into itself cuts it off. */
  lemma CutOff(dirs: map<nat, Names>, a: seq<string>, name: string, b: seq<string>, newName: string)
    requires Named(dirs, a, name, b) && a + [name] <= b
    ensures !Tree(Moved(dirs, a, name, b, newName))
  {
    var g, to := Moved(dirs, a, name, b, newName), Walk(dirs, ROOT, b);
    RenamedEntries(dirs, Walk(dirs, ROOT, a), name, to, newName);
    assert Entry(g, to, newName);
    if Tree(g) {
      OnlyOutsideRemains(dirs, a, name, b, newName, PathTo(g, to));
      OnePath(dirs, PathTo(g, to), b);
    }
  }

  /** Renaming over an inode with other entries orphans them. */
  lemma Orphaned(dirs: map<nat, Names>, a: seq<string>, name: string, b: seq<string>, newName: string)
    requires Movable(dirs, a, name, b)
    requires !Replaceable(dirs, Walk(dirs, ROOT, a), name, Walk(dirs, ROOT, b), newName)
    ensures !Tree(Moved(dirs, a, name, b, newName))
  {
    var g, to := Moved(dirs, a, name, b, newName), Walk(dirs, ROOT, b);
    var t := Entries(dirs, to)[newName];
    RenamedEntries(dirs, Walk(dirs, ROOT, a), name, to, newName);
    WalkSnoc(dirs, ROOT, b, newName);
    var n :| Entry(dirs, t, n) && !(t == Walk(dirs, ROOT, a) && n == name);
    assert Entry(g, t, n);
    LastApart(a, name, b, newName);
    if Tree(g) {
      NotReached(dirs, a, name, b, newName, PathTo(g, t));
    }
  }

  /** No path leads to the inode the new name led to. */
  lemma NotReached(dirs: map<nat, Names>, a: seq<string>, name: string, b: seq<string>, newName: string,
                   cs: seq<string>)
    requires Movable(dirs, a, name, b) && Walk(dirs, ROOT, b + [newName]) != 0 && a + [name] != b + [newName]
    ensures Walk(Moved(dirs, a, name, b, newName), ROOT, cs) != Walk(dirs, ROOT, b + [newName])
  {
    var g, t := Moved(dirs, a, name, b, newName), Walk(dirs, ROOT, b + [newName]);
    if Walk(g, ROOT, cs) == t {
      if b + [newName] <= cs {
        var s := cs[|b| + 1..];
        assert cs == b + [newName] + s;
        SubtreeArrives(dirs, a, name, b, newName, s);
        OnePath(dirs, a + [name] + s, b + [newName]);
        SamePrefix(a + [name], s, b, newName);
      } else if a + [name] <= cs {
        var s := cs[|a| + 1..];
        assert cs == a + [name] + s;
        if b + [newName] <= a + [name] {
          assert false;
        }
        OldLeadsNowhere(dirs, a, name, b, newName, s);
      } else {
        OthersStay(dirs, a, name, b, newName, cs);
        OnePath(dirs, cs, b + [newName]);
      }
    }
  }

  lemma LastApart(xs: seq<string>, x: string, ys: seq<string>, y: string)
    ensures xs + [x] == ys + [y] <==> xs == ys && x == y
  {
    if xs + [x] == ys + [y] {
      assert xs == (xs + [x])[..|xs + [x]| - 1] == ys;
      assert x == (xs + [x])[|xs|];
    }
  }

  lemma SamePrefix(xs: seq<string>, s: seq<string>, b: seq<string>, c: string)
    requires xs + s == b + [c]
    ensures xs == b + [c] || xs <= b
  {
    if s == [] {
      assert xs + s == xs;
    } else {
      assert |xs| <= |b| && (xs + s)[..|xs|] == xs && (b + [c])[..|xs|] == b[..|xs|];
    }
  }

  /** The tree survives exactly when the target directory is outside what moves and the new name may be
      replaced. */
  lemma TreeKeptExactly(dirs: map<nat, Names>, a: seq<string>, name: string, b: seq<string>, newName: string)
    requires Named(dirs, a, name, b)
    ensures Tree(Moved(dirs, a, name, b, newName)) <==>
      !(a + [name] <= b) && Replaceable(dirs, Walk(dirs, ROOT, a), name, Walk(dirs, ROOT, b), newName)
  {
    if a + [name] <= b {
      CutOff(dirs, a, name, b, newName);
    } else if !Replaceable(dirs, Walk(dirs, ROOT, a), name, Walk(dirs, ROOT, b), newName) {
      Orphaned(dirs, a, name, b, newName);
    } else {
      RenameKeepsTree(dirs, a, name, b, newName);
    }
  }

  /** A failing input: /b holds a file x, and /a is renamed to /b. */
  lemma RenameOverDirectory(dirs: map<nat, Names>)
    requires dirs == map[ROOT := map["a" := 11, "b" := 12], 12 := map["x" := 13]]
    ensures Tree(dirs) && !Tree(Rename(dirs, ROOT, "a", ROOT, "b"))
  {
    assert Walk(dirs, ROOT, []) == ROOT && Walk(dirs, 12, []) == 12;
    assert ["b"][1..] == [] && Walk(dirs, ROOT, ["b"]) == 12;
    assert Entry(dirs, 12, "x");
    TreeKeptExactly(dirs, [], "a", [], "b");
  }

  // ---- a new name ----

  lemma AddedEntries(dirs: map<nat, Names>, dir: nat, name: string, ino: nat)
    ensures var g := AddName(dirs, dir, name, ino);
      && (forall d, n :: Entry(g, d, n) <==> (d == dir && n == name) || Entry(dirs, d, n))
      && (forall d, n | Entry(g, d, n) ::
            Entries(g, d)[n] == if d == dir && n == name then ino else Entries(dirs, d)[n])
      && (forall d, n | !(d == dir && n == name) :: Lookup(g, d, n) == Lookup(dirs, d, n))
  {}

  /** `ino` is no inode of the tree. */
  ghost predicate Fresh(dirs: map<nat, Names>, ino: nat) {
    ino != 0 && ino != ROOT
    && forall d, n {:trigger Entry(dirs, d, n)} | Entry(dirs, d, n) :: Entries(dirs, d)[n] != ino
  }

  /** The name is free, or leads to an inode without entries. */
  ghost predicate Addable(dirs: map<nat, Names>, dir: nat, name: string) {
    Entry(dirs, dir, name) ==> forall n :: !Entry(dirs, Entries(dirs, dir)[name], n)
  }

  lemma FreshIsEmpty(dirs: map<nat, Names>, ino: nat, n: string)
    requires Tree(dirs) && Fresh(dirs, ino)
    ensures !Entry(dirs, ino, n)
  {
    if Entry(dirs, ino, n) {
      var cs := PathTo(dirs, ino);
      assert cs != [];
      WalkSnoc(dirs, ROOT, cs[..|cs| - 1], cs[|cs| - 1]);
      assert cs == cs[..|cs| - 1] + [cs[|cs| - 1]];
      assert Entry(dirs, Walk(dirs, ROOT, cs[..|cs| - 1]), cs[|cs| - 1]);
    }
  }

  /** A path that does not run through the name leads where it did. */
  lemma {:induction false} OthersKept(dirs: map<nat, Names>, cs: seq<string>, name: string, ino: nat, q: seq<string>)
    requires Tree(dirs) && Walk(dirs, ROOT, cs) != 0 && !(cs + [name] <= q)
    ensures Walk(AddName(dirs, Walk(dirs, ROOT, cs), name, ino), ROOT, q) == Walk(dirs, ROOT, q)
    decreases |q|
  {
    if q != [] {
      var g, r, c := AddName(dirs, Walk(dirs, ROOT, cs), name, ino), q[..|q| - 1], q[|q| - 1];
      assert q == r + [c];
      AddedEntries(dirs, Walk(dirs, ROOT, cs), name, ino);
      assert forall n :: !Entry(g, 0, n);
      WalkSnoc(dirs, ROOT, r, c);
      WalkSnoc(g, ROOT, r, c);
      OthersKept(dirs, cs, name, ino, r);
      if Walk(dirs, ROOT, r) == Walk(dirs, ROOT, cs) && c == name {
        OnePath(dirs, r, cs);
        assert false;
      }
    }
  }

  /** Through the name there is the new inode and nothing below it. */
  lemma NewIsLeaf(dirs: map<nat, Names>, cs: seq<string>, name: string, ino: nat, s: seq<string>)
    requires Tree(dirs) && Walk(dirs, ROOT, cs) != 0 && Fresh(dirs, ino)
    ensures Walk(AddName(dirs, Walk(dirs, ROOT, cs), name, ino), ROOT, cs + [name] + s) == if s == [] then ino else 0
  {
    var dir := Walk(dirs, ROOT, cs);
    var g := AddName(dirs, dir, name, ino);
    AddedEntries(dirs, dir, name, ino);
    OthersKept(dirs, cs, name, ino, cs);
    assert forall n :: !Entry(g, 0, n);
    WalkSnoc(g, ROOT, cs, name);
    assert Entry(g, dir, name);
    WalkAppend(g, ROOT, cs + [name], s);
    if s != [] {
      FreshIsEmpty(dirs, ino, s[0]);
      if dir == ino {
        NotFresh(dirs, cs);
      }
      assert !Entry(g, ino, s[0]);
    }
  }

  lemma NotFresh(dirs: map<nat, Names>, cs: seq<string>)
    requires Tree(dirs) && Walk(dirs, ROOT, cs) != 0
    ensures !Fresh(dirs, Walk(dirs, ROOT, cs))
  {
    if cs != [] {
      var r, c := cs[..|cs| - 1], cs[|cs| - 1];
      assert cs == r + [c];
      WalkSnoc(dirs, ROOT, r, c);
      assert Entry(dirs, Walk(dirs, ROOT, r), c);
    }
  }

  /** Giving a new inode a name in a reachable directory keeps the tree exactly when the name was free or led
      to an inode without entries. */
  lemma AddKeepsTree(dirs: map<nat, Names>, cs: seq<string>, name: string, ino: nat)
    requires Tree(dirs) && Walk(dirs, ROOT, cs) != 0 && Fresh(dirs, ino)
    ensures Tree(AddName(dirs, Walk(dirs, ROOT, cs), name, ino)) <==> Addable(dirs, Walk(dirs, ROOT, cs), name)
  {
    var dir := Walk(dirs, ROOT, cs);
    var g := AddName(dirs, dir, name, ino);
    AddedEntries(dirs, dir, name, ino);
    WalkSnoc(dirs, ROOT, cs, name);
    if Addable(dirs, dir, name) {
      forall d, n | Entry(g, d, n)
        ensures Reached(g, d)
      {
        AddedReached(dirs, cs, name, ino, if d == dir then cs else PathTo(dirs, d), n);
      }
    } else {
      var n :| Entry(dirs, Entries(dirs, dir)[name], n);
      assert Entry(g, Entries(dirs, dir)[name], n);
      if Tree(g) {
        OldNotReached(dirs, cs, name, ino, PathTo(g, Entries(dirs, dir)[name]));
      }
    }
  }

  lemma OldNotReached(dirs: map<nat, Names>, cs: seq<string>, name: string, ino: nat, q: seq<string>)
    requires Tree(dirs) && Walk(dirs, ROOT, cs) != 0 && Fresh(dirs, ino) && Entry(dirs, Walk(dirs, ROOT, cs), name)
    ensures Walk(AddName(dirs, Walk(dirs, ROOT, cs), name, ino), ROOT, q)
         != Entries(dirs, Walk(dirs, ROOT, cs))[name]
  {
    WalkSnoc(dirs, ROOT, cs, name);
    if cs + [name] <= q {
      assert q == cs + [name] + q[|cs| + 1..];
      NewIsLeaf(dirs, cs, name, ino, q[|cs| + 1..]);
    } else {
      OthersKept(dirs, cs, name, ino, q);
      if Walk(dirs, ROOT, q) == Walk(dirs, ROOT, cs + [name]) {
        OnePath(dirs, q, cs + [name]);
      }
    }
  }

  /** No entry lives below a name that may be given away. */
  lemma BelowAddable(dirs: map<nat, Names>, cs: seq<string>, name: string, q: seq<string>, n: string)
    requires Tree(dirs) && Addable(dirs, Walk(dirs, ROOT, cs), name) && Entry(dirs, Walk(dirs, ROOT, q), n)
    ensures !(cs + [name] <= q)
  {
    if cs + [name] <= q {
      var r := q[|cs| + 1..];
      assert q == cs + [name] + r;
      WalkSnoc(dirs, ROOT, cs, name);
      if Walk(dirs, ROOT, cs + [name]) == 0 {
        WalkDead(dirs, ROOT, cs + [name], r);
        assert false;
      }
      WalkAppend(dirs, ROOT, cs + [name], r);
      FirstEntry(dirs, Walk(dirs, ROOT, cs + [name]), r, n);
      assert false;
    }
  }

  lemma AddedReached(dirs: map<nat, Names>, cs: seq<string>, name: string, ino: nat, q: seq<string>, n: string)
    requires Tree(dirs) && Walk(dirs, ROOT, cs) != 0 && Addable(dirs, Walk(dirs, ROOT, cs), name)
    requires q == cs || Entry(dirs, Walk(dirs, ROOT, q), n)
    ensures Reached(AddName(dirs, Walk(dirs, ROOT, cs), name, ino), Walk(dirs, ROOT, q))
  {
    if q != cs {
      BelowAddable(dirs, cs, name, q, n);
    }
    OthersKept(dirs, cs, name, ino, q);
  }
}
