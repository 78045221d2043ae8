/** Who owns which block, over every run of checked creations and unlinks in the root directory. */
module Ownership {
  import opened Extents
  import opened Sums
  import opened TinyFsModel

  predicate Owns(f: Inode, b: nat) { b in Listing(f.extents) }

  ghost predicate Ascending(s: seq<nat>) {
    forall i, j | 0 <= i < j < |s| :: s[i] < s[j]
  }

  /** The used bits are blocks 0 to 3 and the blocks of the inodes, no block has two owners, and an inode
      in use owns as many blocks as its size needs. */
  ghost predicate Accounted(inodes: seq<Inode>, used: seq<bool>) {
    && 4 <= |used|
    && (forall i, b: nat | 0 <= i < |inodes| && Owns(inodes[i], b) :: 4 <= b < |used|)
    && (forall b | 0 <= b < |used| :: used[b] <==> b < 4 || exists i :: 0 <= i < |inodes| && Owns(inodes[i], b))
    && (forall i, j, b: nat | 0 <= i < j < |inodes| && Owns(inodes[i], b) :: !Owns(inodes[j], b))
    && (forall i | 0 <= i < |inodes| :: Ascending(Listing(inodes[i].extents)))
    && (forall i | 0 <= i < |inodes| && inodes[i].links > 0 ::
          |Listing(inodes[i].extents)| == BlocksFor(inodes[i].size))
    && (forall i | 0 <= i < |inodes| && inodes[i].links == 0 :: inodes[i] == BLANK)
  }

  /** Every file has one link and one name; inode numbers are never used again. */
  ghost predicate Listed(root: Names, inodes: seq<Inode>, next: nat) {
    && FIRST_INODE <= next
    && (forall a | a in root :: FIRST_INODE <= root[a] < next && root[a] < |inodes| && inodes[root[a]].links == 1)
    && (forall a, b | a in root && b in root && a != b :: root[a] != root[b])
    && (forall i | FIRST_INODE <= i < |inodes| && inodes[i].links > 0 :: i in root.Values)
  }

  ghost predicate Named(fs: Fs) {
    ROOT in fs.dirs && Listed(fs.dirs[ROOT], fs.inodes, fs.nextInode)
  }

  ghost predicate Good(fs: Fs) { Accounted(fs.inodes, fs.used) && Named(fs) }

  lemma MakeGood(inodes: nat, blocks: nat)
    requires inodes > ROOT && 4 <= blocks
    ensures Good(Make(inodes, blocks))
  {
    var fs := Make(inodes, blocks);
    forall i, b | 0 <= i < |fs.inodes|
      ensures !Owns(fs.inodes[i], b)
    {}
  }

  /** Giving `blocks` that are free to an unused inode. */
  lemma Grant(inodes: seq<Inode>, used: seq<bool>, ino: nat, f: Inode, after: seq<bool>)
    requires Accounted(inodes, used) && ino < |inodes| && inodes[ino] == BLANK && f.links > 0
    requires |after| == |used| && Ascending(Listing(f.extents)) && |Listing(f.extents)| == BlocksFor(f.size)
    requires forall b: nat | Owns(f, b) :: b < |used| && !used[b]
    requires forall b | 0 <= b < |used| :: after[b] <==> used[b] || Owns(f, b)
    ensures Accounted(inodes[ino := f], after)
  {
    var g := inodes[ino := f];
    forall b: nat | Owns(f, b) ensures 4 <= b {}
    forall b | 0 <= b < |used|
      ensures after[b] <==> b < 4 || exists i :: 0 <= i < |g| && Owns(g[i], b)
    {
      if used[b] && b >= 4 {
        var i :| 0 <= i < |inodes| && Owns(inodes[i], b);
        assert Owns(g[i], b);
      }
      if Owns(f, b) {
        assert Owns(g[ino], b);
      }
      if i :| 0 <= i < |g| && Owns(g[i], b) {
        assert i != ino ==> Owns(inodes[i], b);
      }
    }
  }

  /** Taking its blocks back from an inode and clearing it. */
  lemma Revoke(inodes: seq<Inode>, used: seq<bool>, ino: nat)
    requires Accounted(inodes, used) && ino < |inodes|
    ensures Accounted(inodes[ino := BLANK], Release(used, Listing(inodes[ino].extents)))
  {
    var g := inodes[ino := BLANK];
    var after := Release(used, Listing(inodes[ino].extents));
    forall b: nat ensures !Owns(BLANK, b) {}
    forall b | 0 <= b < |used|
      ensures after[b] <==> b < 4 || exists i :: 0 <= i < |g| && Owns(g[i], b)
    {
      if after[b] && b >= 4 {
        var i :| 0 <= i < |inodes| && Owns(inodes[i], b);
        assert Owns(g[i], b);
      }
      if i :| 0 <= i < |g| && Owns(g[i], b) {
        assert Owns(inodes[i], b) && !Owns(inodes[ino], b);
      }
      if b < 4 {
        assert !Owns(inodes[ino], b);
      }
    }
  }

  lemma TakenBlocks(used: seq<bool>, need: nat)
    requires need <= |FreeBlocks(used)|
    ensures var blocks := Listing(Take(used, need));
      && |blocks| == need && Ascending(blocks)
      && (forall b | b in blocks :: b < |used| && !used[b])
      && forall b | 0 <= b < |used| :: TakeLeaves(used, need)[b] <==> used[b] || b in blocks
  {
    TakeIsLowest(used, need);
    TakeMarks(used, need);
    FreeIsFree(used, 0);
  }

  lemma ListedAfterCreate(root: Names, inodes: seq<Inode>, next: nat, name: string, f: Inode)
    requires Listed(root, inodes, next) && name !in root && next < |inodes| && f.links == 1
    ensures Listed(root[name := next], inodes[next := f], next + 1)
  {
    var r := root[name := next];
    assert r[name] == next;
    forall v | v in root.Values
      ensures v in r.Values
    {
      var a :| a in root && root[a] == v;
      assert r[a] == v;
    }
  }

  /** First fit, file by file: a new file gets exactly the lowest-numbered free blocks, in ascending order, and
      between two of its extents lies a block that was in use. */
  lemma CreateIsFirstFit(fs: Fs, name: string, n: nat)
    requires Good(fs) && name !in fs.dirs[ROOT] && CreateChecked(fs, name, n).1 != 0
    ensures var c, ino := CreateChecked(fs, name, n).0, CreateChecked(fs, name, n).1;
      && ino == fs.nextInode < |c.inodes| && c.dirs[ROOT] == fs.dirs[ROOT][name := ino]
      && BlocksFor(n) <= |FreeBlocks(fs.used)|
      && Listing(c.inodes[ino].extents) == FreeBlocks(fs.used)[..BlocksFor(n)]
      && FreeBlocks(c.used) == FreeBlocks(fs.used)[BlocksFor(n)..]
      && Gapped(fs.used, c.inodes[ino].extents)
  {
    UnusedInode(fs);
    CreatedState(fs, name, n);
    TakeIsLowest(fs.used, BlocksFor(n));
    TakeIsGapped(fs.used, BlocksFor(n));
  }

  /** The same said of each block: it was free, and lies below every block that stays free. */
  lemma CreatedAreLowest(fs: Fs, name: string, n: nat)
    requires Good(fs) && name !in fs.dirs[ROOT] && CreateChecked(fs, name, n).1 != 0
    ensures var c, ino := CreateChecked(fs, name, n).0, CreateChecked(fs, name, n).1;
      && ino < |c.inodes| && |Listing(c.inodes[ino].extents)| == BlocksFor(n)
      && LowestOf(fs.used, c.used, Listing(c.inodes[ino].extents))
  {
    UnusedInode(fs);
    CreatedState(fs, name, n);
    TakenAreLowest(fs.used, BlocksFor(n));
  }

  lemma ListedAfterUnlink(root: Names, inodes: seq<Inode>, next: nat, name: string)
    requires Listed(root, inodes, next) && name in root
    ensures Listed(root - {name}, inodes[root[name] := BLANK], next)
  {
    var r := root - {name};
    forall v | v in root.Values && v != root[name]
      ensures v in r.Values
    {
      var a :| a in root && root[a] == v;
      assert a in r && r[a] == v;
    }
  }

  lemma UnusedInode(fs: Fs)
    requires Good(fs) && fs.nextInode < |fs.inodes|
    ensures fs.inodes[fs.nextInode] == BLANK
  {}

  lemma CreatedState(fs: Fs, name: string, n: nat)
    requires fs.nextInode < |fs.inodes| && fs.inodes[fs.nextInode] == BLANK && BlocksFor(n) <= |FreeBlocks(fs.used)|
    ensures CreateChecked(fs, name, n).0
         == Fs(fs.inodes[fs.nextInode := Inode(IS_FILE, 1, n, Take(fs.used, BlocksFor(n)))],
               TakeLeaves(fs.used, BlocksFor(n)), AddName(fs.dirs, ROOT, name, fs.nextInode), fs.nextInode + 1)
  {
    assert BLANK.extents + Take(fs.used, BlocksFor(n)) == Take(fs.used, BlocksFor(n));
  }

  lemma CreateKeeps(fs: Fs, name: string, n: nat)
    requires Good(fs) && name !in fs.dirs[ROOT]
    ensures Good(CreateChecked(fs, name, n).0)
  {
    var r, ino := CreateChecked(fs, name, n).0, fs.nextInode;
    if BlocksFor(n) <= |FreeBlocks(fs.used)| && ino < |fs.inodes| {
      UnusedInode(fs);
      TakenBlocks(fs.used, BlocksFor(n));
      var f := Inode(IS_FILE, 1, n, Take(fs.used, BlocksFor(n)));
      CreatedState(fs, name, n);
      Grant(fs.inodes, fs.used, ino, f, r.used);
      ListedAfterCreate(fs.dirs[ROOT], fs.inodes, ino, name, f);
    }
  }

  /** Creating over a name that is taken leaves its old inode, and its blocks, without a name. */
  lemma TakenNameLeaks(fs: Fs, name: string, n: nat)
    requires Good(fs) && name in fs.dirs[ROOT] && CreateChecked(fs, name, n).1 != 0
    ensures !Good(CreateChecked(fs, name, n).0)
  {
    UnusedInode(fs);
    CreatedState(fs, name, n);
    var r, prior := CreateChecked(fs, name, n).0, fs.dirs[ROOT][name];
    assert r.inodes[prior].links == 1;
  }

  /** `create_checked` keeps names and blocks accounted for exactly when it refuses or the name is fresh. */
  lemma CreateKeepsExactly(fs: Fs, name: string, n: nat)
    requires Good(fs)
    ensures Good(CreateChecked(fs, name, n).0) <==> CreateChecked(fs, name, n).1 == 0 || name !in fs.dirs[ROOT]
  {
    if name !in fs.dirs[ROOT] {
      CreateKeeps(fs, name, n);
    } else if CreateChecked(fs, name, n).1 != 0 {
      TakenNameLeaks(fs, name, n);
    }
  }

  lemma UnlinkKeeps(fs: Fs, name: string)
    requires Good(fs) && name in fs.dirs[ROOT]
    ensures Good(Unlink(fs, ROOT, name))
  {
    Revoke(fs.inodes, fs.used, fs.dirs[ROOT][name]);
    ListedAfterUnlink(fs.dirs[ROOT], fs.inodes, fs.nextInode, name);
  }

  // ---- runs ----

  datatype Op = CreateOp(name: string, bytes: nat) | UnlinkOp(name: string)

  /** What the program asks of its caller: a fresh name to create, an existing one to unlink. */
  ghost predicate Proper(fs: Fs, op: Op) {
    if op.CreateOp? then op.name !in Entries(fs.dirs, ROOT) else op.name in Entries(fs.dirs, ROOT)
  }

  ghost function Step(fs: Fs, op: Op): (r: Fs)
    requires Good(fs) && Proper(fs, op)
    ensures Good(r) && |r.used| == |fs.used|
  {
    match op
    case CreateOp(name, bytes) =>
      CreateKeeps(fs, name, bytes);
      CreateChecked(fs, name, bytes).0
    case UnlinkOp(name) =>
      UnlinkKeeps(fs, name);
      Unlink(fs, ROOT, name)
  }

  ghost predicate AllProper(fs: Fs, ops: seq<Op>)
    requires Good(fs)
    decreases |ops|
  {
    ops != [] ==> Proper(fs, ops[0]) && AllProper(Step(fs, ops[0]), ops[1..])
  }

  ghost function Run(fs: Fs, ops: seq<Op>): (r: Fs)
    requires Good(fs) && AllProper(fs, ops)
    ensures Good(r) && |r.used| == |fs.used|
    decreases |ops|
  {
    if ops == [] then fs else Run(Step(fs, ops[0]), ops[1..])
  }

  // ---- conservation of blocks ----

  function OwnedBlocks(f: Inode): nat { |Listing(f.extents)| }

  /** No block leaks: metadata, owned blocks and free blocks add up to the device. */
  ghost predicate Conserved(fs: Fs) {
    4 + Sum(OwnedBlocks, fs.inodes) + |FreeBlocks(fs.used)| == |fs.used|
  }

  lemma {:induction false} OneMoreFree(used: seq<bool>, x: nat, b: nat)
    requires b <= x < |used| && used[x]
    ensures |FreeFrom(used[x := false], b)| == |FreeFrom(used, b)| + 1
    decreases x - b
  {
    if b < x {
      OneMoreFree(used, x, b + 1);
    } else {
      FreeAgrees(used, used[x := false], b + 1);
    }
  }

  lemma {:induction false} ReleaseFrees(used: seq<bool>, blocks: seq<nat>)
    requires Ascending(blocks) && forall b | b in blocks :: b < |used| && used[b]
    ensures |FreeBlocks(Release(used, blocks))| == |FreeBlocks(used)| + |blocks|
    decreases |blocks|
  {
    if blocks == [] {
      assert Release(used, blocks) == used;
    } else {
      var x, rest := blocks[0], blocks[1..];
      assert x in blocks;
      forall b | b in rest
        ensures b in blocks && b != x
      {
        var i :| 0 <= i < |rest| && rest[i] == b;
        assert blocks[i + 1] == b;
      }
      ReleaseFrees(used[x := false], rest);
      OneMoreFree(used, x, 0);
      assert blocks == [x] + rest;
      assert Release(used, blocks) == Release(used[x := false], rest);
    }
  }

  lemma CreateConserves(fs: Fs, name: string, n: nat)
    requires Good(fs) && Conserved(fs) && name !in fs.dirs[ROOT]
    ensures Conserved(CreateChecked(fs, name, n).0)
  {
    var need := BlocksFor(n);
    if need <= |FreeBlocks(fs.used)| && fs.nextInode < |fs.inodes| {
      UnusedInode(fs);
      CreatedState(fs, name, n);
      TakeIsLowest(fs.used, need);
      SumUpdate(OwnedBlocks, fs.inodes, fs.nextInode, Inode(IS_FILE, 1, n, Take(fs.used, need)));
    }
  }

  lemma UnlinkConserves(fs: Fs, name: string)
    requires Good(fs) && Conserved(fs) && name in fs.dirs[ROOT]
    ensures Conserved(Unlink(fs, ROOT, name))
  {
    var ino := fs.dirs[ROOT][name];
    var blocks := Listing(fs.inodes[ino].extents);
    forall b | b in blocks
      ensures b < |fs.used| && fs.used[b]
    {
      assert Owns(fs.inodes[ino], b);
    }
    ReleaseFrees(fs.used, blocks);
    SumUpdate(OwnedBlocks, fs.inodes, ino, BLANK);
  }

  lemma {:induction false} RunConserves(fs: Fs, ops: seq<Op>)
    requires Good(fs) && AllProper(fs, ops) && Conserved(fs)
    ensures Conserved(Run(fs, ops))
    decreases |ops|
  {
    if ops != [] {
      match ops[0] {
        case CreateOp(name, bytes) => CreateConserves(fs, name, bytes);
        case UnlinkOp(name) => UnlinkConserves(fs, name);
      }
      RunConserves(Step(fs, ops[0]), ops[1..]);
    }
  }

  lemma {:induction false} AllFree(used: seq<bool>, b: nat)
    requires b <= |used| && forall i | b <= i < |used| :: !used[i]
    ensures |FreeFrom(used, b)| == |used| - b
    decreases |used| - b
  {
    if b < |used| {
      AllFree(used, b + 1);
    }
  }

  lemma NewHasRoom(inodes: nat, blocks: nat)
    requires inodes > ROOT && 4 <= blocks
    ensures |FreeBlocks(Make(inodes, blocks).used)| == blocks - 4
  {
    var used := Make(inodes, blocks).used;
    FreeSkips(used, 0, 4);
    AllFree(used, 4);
  }

  lemma MakeConserved(inodes: nat, blocks: nat)
    requires inodes > ROOT && 4 <= blocks
    ensures Conserved(Make(inodes, blocks))
  {
    var fs := Make(inodes, blocks);
    SumZero(OwnedBlocks, fs.inodes);
    NewHasRoom(inodes, blocks);
  }

  lemma TooLarge(inodes: nat, blocks: nat, need: nat, k: nat)
    requires inodes > ROOT && 4 <= blocks < need + 4
    ensures Rounds(Make(inodes, blocks).used, need, k).1 >= 1
  {
    NewHasRoom(inodes, blocks);
    RoundsLeaveShortfall(Make(inodes, blocks).used, need, k);
  }

  /** A failing input: a new filesystem of 32 inodes and 64 blocks, of which 60 are free, asked for 61. */
  lemma CreateNeverEnds(inodes: nat, blocks: nat, bytes: nat, k: nat)
    requires inodes == 32 && blocks == 64 && bytes == 61 * 4096
    ensures Rounds(Make(inodes, blocks).used, BlocksFor(bytes), k).1 >= 1
  {
    assert BlocksFor(bytes) == 61;
    TooLarge(inodes, blocks, BlocksFor(bytes), k);
  }

  /** After every run from a new filesystem the bitmap is exactly the metadata and the blocks of live files,
      each block with one owner, and `free_blocks` counts all the others. */
  lemma EveryRunAccounted(inodes: nat, blocks: nat, ops: seq<Op>)
    requires inodes > ROOT && 4 <= blocks
    ensures Good(Make(inodes, blocks))
    ensures AllProper(Make(inodes, blocks), ops) ==>
      var r := Run(Make(inodes, blocks), ops);
      Accounted(r.inodes, r.used) && Conserved(r) && |r.used| == blocks
  {
    MakeGood(inodes, blocks);
    MakeConserved(inodes, blocks);
    if AllProper(Make(inodes, blocks), ops) {
      RunConserves(Make(inodes, blocks), ops);
    }
  }

  lemma RestoredBlocks(used: seq<bool>, need: nat)
    requires need <= |FreeBlocks(used)|
    ensures Release(TakeLeaves(used, need), Listing(Take(used, need))) == used
  {
    TakenBlocks(used, need);
  }

  lemma RestoredNames(dirs: map<nat, Names>, dir: nat, name: string, ino: nat)
    requires dir in dirs && name !in dirs[dir]
    ensures DropName(AddName(dirs, dir, name, ino), dir, name) == dirs
  {
    assert dirs[dir][name := ino] - {name} == dirs[dir];
  }

  /** Bit for bit: unlinking what was just created leaves the bitmap, the names and all inodes as before. */
  lemma CreateThenUnlink(fs: Fs, name: string, n: nat)
    requires Good(fs) && name !in fs.dirs[ROOT] && CreateChecked(fs, name, n).1 != 0
    ensures var c := CreateChecked(fs, name, n).0;
      && name in Entries(c.dirs, ROOT) && Entries(c.dirs, ROOT)[name] < |c.inodes|
      && c.inodes[Entries(c.dirs, ROOT)[name]].links >= 1
      && Unlink(c, ROOT, name) == fs.(nextInode := fs.nextInode + 1)
  {
    UnusedInode(fs);
    CreatedState(fs, name, n);
    RestoredBlocks(fs.used, BlocksFor(n));
    RestoredNames(fs.dirs, ROOT, name, fs.nextInode);
    RestoredInodes(fs.inodes, fs.nextInode, Inode(IS_FILE, 1, n, Take(fs.used, BlocksFor(n))));
  }

  lemma RestoredInodes(inodes: seq<Inode>, ino: nat, f: Inode)
    requires ino < |inodes| && inodes[ino] == BLANK
    ensures inodes[ino := f][ino := BLANK] == inodes
  {}
}
