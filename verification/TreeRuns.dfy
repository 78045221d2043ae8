/** Every run of `create`, `make_dir` and `rename`: exactly when the directories stay a tree, so that a path
    keeps its one meaning; and what a rename does, said of path strings. */
module TreeRuns {
  import opened Extents
  import opened TinyFsModel
  import opened Paths
  import opened Renames

  /** The names form a tree, and no name leads to an inode that is still to be given out. */
  ghost predicate Grown(fs: Fs) {
    && Tree(fs.dirs) && FIRST_INODE <= fs.nextInode
    && forall d, n {:trigger Entry(fs.dirs, d, n)} | Entry(fs.dirs, d, n) :: Entries(fs.dirs, d)[n] < fs.nextInode
  }

  datatype Op =
    | CreateOp(dir: seq<string>, name: string, bytes: nat)
    | MakeDirOp(dir: seq<string>, name: string)
    | RenameOp(dir: seq<string>, name: string, to: seq<string>, newName: string)

  /** What the program asks of its caller: directories that exist, an entry to move, an inode and blocks left. */
  ghost predicate Callable(fs: Fs, op: Op) {
    match op
    case CreateOp(dir, name, bytes) => Room(fs, dir, bytes)
    case MakeDirOp(dir, name) => Room(fs, dir, 0)
    case RenameOp(dir, name, to, newName) =>
      Walk(fs.dirs, ROOT, to) != 0 && Entry(fs.dirs, Walk(fs.dirs, ROOT, dir), name)
  }

  ghost predicate Room(fs: Fs, dir: seq<string>, bytes: nat) {
    fs.nextInode < |fs.inodes| && BlocksFor(bytes) <= |FreeBlocks(fs.used)| && Walk(fs.dirs, ROOT, dir) != 0
  }

  /** What it does not ask, and the tree needs: no new name hides entries, nothing moves into itself. */
  ghost predicate Harmless(fs: Fs, op: Op) {
    match op
    case CreateOp(dir, name, bytes) => Addable(fs.dirs, Walk(fs.dirs, ROOT, dir), name)
    case MakeDirOp(dir, name) => Addable(fs.dirs, Walk(fs.dirs, ROOT, dir), name)
    case RenameOp(dir, name, to, newName) =>
      && !(dir + [name] <= to)
      && Replaceable(fs.dirs, Walk(fs.dirs, ROOT, dir), name, Walk(fs.dirs, ROOT, to), newName)
  }

  ghost function Apply(fs: Fs, op: Op): Fs
    requires Callable(fs, op)
  {
    match op
    case CreateOp(dir, name, bytes) => Create(fs, Walk(fs.dirs, ROOT, dir), name, bytes)
    case MakeDirOp(dir, name) => MakeDir(fs, Walk(fs.dirs, ROOT, dir), name)
    case RenameOp(dir, name, to, newName) => fs.(dirs := Moved(fs.dirs, dir, name, to, newName))
  }

  lemma CreateGrows(fs: Fs, dir: seq<string>, name: string, bytes: nat)
    requires Grown(fs) && Room(fs, dir, bytes)
    ensures Grown(Create(fs, Walk(fs.dirs, ROOT, dir), name, bytes))
       <==> Addable(fs.dirs, Walk(fs.dirs, ROOT, dir), name)
  {
    AddKeepsTree(fs.dirs, dir, name, fs.nextInode);
    AddedEntries(fs.dirs, Walk(fs.dirs, ROOT, dir), name, fs.nextInode);
  }

  /** An inode's own, empty, table adds no name. */
  lemma {:induction false} TableAddsNothing(dirs: map<nat, Names>, ino: nat, from: nat, cs: seq<string>)
    ensures Walk(dirs[ino := Entries(dirs, ino)], from, cs) == Walk(dirs, from, cs)
    decreases |cs|
  {
    if cs != [] && cs[0] in Entries(dirs, from) {
      TableAddsNothing(dirs, ino, Entries(dirs, from)[cs[0]], cs[1..]);
    }
  }

  lemma SameNames(dirs: map<nat, Names>, ino: nat)
    requires Tree(dirs)
    ensures Tree(dirs[ino := Entries(dirs, ino)])
  {
    var g := dirs[ino := Entries(dirs, ino)];
    assert forall d :: Entries(g, d) == Entries(dirs, d);
    assert forall d, n :: Entry(g, d, n) <==> Entry(dirs, d, n);
    forall d, n | Entry(g, d, n)
      ensures Reached(g, d)
    {
      assert Entry(dirs, d, n);
      TableAddsNothing(dirs, ino, ROOT, PathTo(dirs, d));
      assert Walk(g, ROOT, PathTo(dirs, d)) == d;
    }
  }

  lemma SameNamesBack(dirs: map<nat, Names>, ino: nat)
    requires Tree(dirs[ino := Entries(dirs, ino)])
    ensures Tree(dirs)
  {
    var g := dirs[ino := Entries(dirs, ino)];
    assert forall d :: Entries(g, d) == Entries(dirs, d);
    assert forall d, n :: Entry(g, d, n) <==> Entry(dirs, d, n);
    forall d, n | Entry(dirs, d, n)
      ensures Reached(dirs, d)
    {
      assert Entry(g, d, n);
      TableAddsNothing(dirs, ino, ROOT, PathTo(g, d));
      assert Walk(dirs, ROOT, PathTo(g, d)) == d;
    }
  }

  lemma MakeDirGrows(fs: Fs, dir: seq<string>, name: string)
    requires Grown(fs) && Room(fs, dir, 0)
    ensures Grown(MakeDir(fs, Walk(fs.dirs, ROOT, dir), name)) <==> Addable(fs.dirs, Walk(fs.dirs, ROOT, dir), name)
  {
    CreateGrows(fs, dir, name, 0);
    var c, ino := Create(fs, Walk(fs.dirs, ROOT, dir), name, 0), fs.nextInode;
    var g := c.dirs[ino := Entries(c.dirs, ino)];
    assert forall d :: Entries(g, d) == Entries(c.dirs, d);
    assert forall d, n :: Entry(g, d, n) <==> Entry(c.dirs, d, n);
    if Tree(c.dirs) {
      SameNames(c.dirs, ino);
    }
    if Tree(g) {
      SameNamesBack(c.dirs, ino);
    }
  }

  lemma RenameGrows(fs: Fs, a: seq<string>, name: string, b: seq<string>, newName: string)
    requires Grown(fs) && Callable(fs, RenameOp(a, name, b, newName))
    ensures Grown(fs.(dirs := Moved(fs.dirs, a, name, b, newName))) <==> Harmless(fs, RenameOp(a, name, b, newName))
  {
    TreeKeptExactly(fs.dirs, a, name, b, newName);
    RenamedEntries(fs.dirs, Walk(fs.dirs, ROOT, a), name, Walk(fs.dirs, ROOT, b), newName);
  }

  lemma StepGrows(fs: Fs, op: Op)
    requires Grown(fs) && Callable(fs, op)
    ensures Grown(Apply(fs, op)) <==> Harmless(fs, op)
  {
    match op
    case CreateOp(dir, name, bytes) => CreateGrows(fs, dir, name, bytes);
    case MakeDirOp(dir, name) => MakeDirGrows(fs, dir, name);
    case RenameOp(a, name, b, newName) => RenameGrows(fs, a, name, b, newName);
  }

  // ---- runs ----

  ghost predicate AllCallable(fs: Fs, ops: seq<Op>)
    decreases |ops|, 0
  {
    ops != [] ==>
      var before := ops[..|ops| - 1];
      AllCallable(fs, before) && Callable(Run(fs, before), ops[|ops| - 1])
  }

  ghost function Run(fs: Fs, ops: seq<Op>): Fs
    requires AllCallable(fs, ops)
    decreases |ops|, 1
  {
    if ops == [] then fs else Apply(Run(fs, ops[..|ops| - 1]), ops[|ops| - 1])
  }

  ghost predicate AllHarmless(fs: Fs, ops: seq<Op>)
    requires AllCallable(fs, ops)
    decreases |ops|
  {
    ops != [] ==>
      var before := ops[..|ops| - 1];
      AllHarmless(fs, before) && Harmless(Run(fs, before), ops[|ops| - 1])
  }

  /** The directories are a tree after every operation of the run. */
  ghost predicate GrownThroughout(fs: Fs, ops: seq<Op>)
    requires AllCallable(fs, ops)
    decreases |ops|
  {
    Grown(Run(fs, ops)) && (ops != [] ==> GrownThroughout(fs, ops[..|ops| - 1]))
  }

  lemma {:induction false} RunGrowsExactly(fs: Fs, ops: seq<Op>)
    requires Grown(fs) && AllCallable(fs, ops)
    ensures GrownThroughout(fs, ops) <==> AllHarmless(fs, ops)
    decreases |ops|
  {
    if ops != [] {
      var before := ops[..|ops| - 1];
      RunGrowsExactly(fs, before);
      if Grown(Run(fs, before)) {
        StepGrows(Run(fs, before), ops[|ops| - 1]);
      }
    }
  }

  lemma MakeGrown(inodes: nat, blocks: nat)
    requires inodes > ROOT
    ensures Grown(Make(inodes, blocks))
  {
    var dirs := Make(inodes, blocks).dirs;
    assert forall d, n :: !Entry(dirs, d, n);
  }

  /** Every run from a new filesystem keeps the directories a tree exactly when each operation was harmless.
      Then an inode that two paths lead to is reached through the same names, and no path leads back to the root. */
  lemma EveryRunIsTree(inodes: nat, blocks: nat, ops: seq<Op>, x: string, y: string)
    requires inodes > ROOT && AllCallable(Make(inodes, blocks), ops)
    ensures GrownThroughout(Make(inodes, blocks), ops) <==> AllHarmless(Make(inodes, blocks), ops)
    ensures AllHarmless(Make(inodes, blocks), ops) ==>
      var dirs := Run(Make(inodes, blocks), ops).dirs;
      && Tree(dirs)
      && (Resolve(dirs, x) == Resolve(dirs, y) != 0 ==> Parts(x) == Parts(y))
      && (Resolve(dirs, x) == ROOT <==> Parts(x) == [])
  {
    MakeGrown(inodes, blocks);
    RunGrowsExactly(Make(inodes, blocks), ops);
    if AllHarmless(Make(inodes, blocks), ops) {
      OneMeaning(Run(Make(inodes, blocks), ops).dirs, x, y);
    }
  }

  lemma OneMeaning(dirs: map<nat, Names>, x: string, y: string)
    requires Tree(dirs)
    ensures Resolve(dirs, x) == Resolve(dirs, y) != 0 ==> Parts(x) == Parts(y)
    ensures Resolve(dirs, x) == ROOT <==> Parts(x) == []
  {
    if Resolve(dirs, x) == Resolve(dirs, y) != 0 {
      OnePath(dirs, Parts(x), Parts(y));
    }
    if Resolve(dirs, x) == ROOT {
      OnePath(dirs, Parts(x), []);
    }
  }

  /** Rename as a user types it: whatever stood under a/name now stands under b/newName, nothing is left where
      it was unless that path runs through the new name, and a path through neither name is unchanged. */
  lemma RenameOnPaths(dirs: map<nat, Names>, a: string, name: string, b: string, newName: string,
                      s: string, p: string)
    requires ProperName(name) && ProperName(newName) && Movable(dirs, Parts(a), name, Parts(b))
    ensures var g := Moved(dirs, Parts(a), name, Parts(b), newName);
      && Resolve(g, b + "/" + newName + "/" + s) == Resolve(dirs, a + "/" + name + "/" + s)
      && (!(Parts(b + "/" + newName) <= Parts(a + "/" + name)) ==> Resolve(g, a + "/" + name + "/" + s) == 0)
      && (!(Parts(a + "/" + name) <= Parts(p)) && !(Parts(b + "/" + newName) <= Parts(p)) ==>
            Resolve(g, p) == Resolve(dirs, p))
  {
    RenameMovesSubtree(dirs, Parts(a), name, Parts(b), newName, Parts(s));
    RenameMovesSubtree(dirs, Parts(a), name, Parts(b), newName, Parts(p));
    PartsOfName(a, name, s);
    PartsOfName(b, newName, s);
  }

  lemma PartsOfName(a: string, name: string, s: string)
    requires ProperName(name)
    ensures Parts(a + "/" + name) == Parts(a) + [name]
    ensures Parts(a + "/" + name + "/" + s) == Parts(a) + [name] + Parts(s)
  {
    OneName(name);
    PartsJoin(a, name);
    PartsJoin(a + "/" + name, s);
  }
}
