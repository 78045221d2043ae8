/** The tiny filesystem as values: an inode table, a block bitmap, and one name table for each directory. */
module TinyFsModel {
  import opened Extents

  datatype Inode = Inode(mode: nat, links: nat, size: nat, extents: seq<Extent>)

  type Names = map<string, nat>

  datatype Fs = Fs(inodes: seq<Inode>, used: seq<bool>, dirs: map<nat, Names>, nextInode: nat)

  const ROOT := 2
  const FIRST_INODE := 11
  const IS_DIR := 16877   // 0040755
  const IS_FILE := 33188  // 0100644
  const BLANK := Inode(0, 0, 0, [])

  /** ceil(n / 4096) as the program computes it: a 64-bit sum, and a cast of the quotient to 32 bits. */
  function BlocksFor(n: nat): nat {
    ((n + 4095) % 0x1_0000_0000_0000_0000 / 4096) % 0x1_0000_0000
  }

  /** The casts lose nothing exactly up to 2^32 - 1 blocks. */
  lemma BlocksForIsCeiling(n: nat)
    requires n < 0x1_0000_0000_0000_0000
    ensures BlocksFor(n) == (n + 4095) / 4096 <==> n <= 4096 * 0xFFFF_FFFF
  {}

  function Make(inodes: nat, blocks: nat): Fs
    requires inodes > ROOT
  {
    Fs(seq(inodes, _ => BLANK)[ROOT := Inode(IS_DIR, 2, 0, [])],
       seq(blocks, i => i < 4), map[ROOT := map[]], FIRST_INODE)
  }

  function Entries(dirs: map<nat, Names>, dir: nat): Names {
    if dir in dirs then dirs[dir] else map[]
  }

  function AddName(dirs: map<nat, Names>, dir: nat, name: string, ino: nat): map<nat, Names> {
    dirs[dir := Entries(dirs, dir)[name := ino]]
  }

  function DropName(dirs: map<nat, Names>, dir: nat, name: string): map<nat, Names> {
    dirs[dir := Entries(dirs, dir) - {name}]
  }

  function Create(fs: Fs, dir: nat, name: string, n: nat): Fs
    requires fs.nextInode < |fs.inodes| && BlocksFor(n) <= |FreeBlocks(fs.used)|
  {
    var ino, need := fs.nextInode, BlocksFor(n);
    var f := fs.inodes[ino];
    Fs(fs.inodes[ino := Inode(f.mode, 1, n, f.extents + Take(fs.used, need))],
       TakeLeaves(fs.used, need), AddName(fs.dirs, dir, name, ino), ino + 1)
  }

  /** Refused with inode 0 when blocks or inodes are short. */
  function CreateChecked(fs: Fs, name: string, n: nat): (Fs, nat) {
    if |FreeBlocks(fs.used)| < BlocksFor(n) || fs.nextInode >= |fs.inodes| then (fs, 0)
    else
      var c, ino := Create(fs, ROOT, name, n), fs.nextInode;
      (c.(inodes := c.inodes[ino := c.inodes[ino].(mode := IS_FILE)]), ino)
  }

  function Release(used: seq<bool>, blocks: seq<nat>): seq<bool> {
    seq(|used|, i requires 0 <= i < |used| => used[i] && i !in blocks)
  }

  /** A file with other links keeps its blocks, otherwise exactly those are free afterwards. */
  function Unlink(fs: Fs, dir: nat, name: string): Fs
    requires name in Entries(fs.dirs, dir)
    requires Entries(fs.dirs, dir)[name] < |fs.inodes| && fs.inodes[Entries(fs.dirs, dir)[name]].links >= 1
  {
    var ino := Entries(fs.dirs, dir)[name];
    var f := fs.inodes[ino];
    var d := DropName(fs.dirs, dir, name);
    if f.links > 1 then fs.(dirs := d, inodes := fs.inodes[ino := f.(links := f.links - 1)])
    else fs.(dirs := d, inodes := fs.inodes[ino := BLANK], used := Release(fs.used, Listing(f.extents)))
  }

  /** A directory is an inode with its own, empty, name table. */
  function MakeDir(fs: Fs, dir: nat, name: string): Fs
    requires fs.nextInode < |fs.inodes| && BlocksFor(0) <= |FreeBlocks(fs.used)|
  {
    var c, ino := Create(fs, dir, name, 0), fs.nextInode;
    c.(inodes := c.inodes[ino := c.inodes[ino].(mode := IS_DIR, links := 2)],
       dirs := c.dirs[ino := Entries(c.dirs, ino)])
  }

  // ---- what each operation leaves, field by field ----

  /** A new filesystem: four blocks in use, a root directory that is empty, inode 11 to be given out first. */
  lemma MakeLeaves(inodes: nat, blocks: nat)
    requires inodes > 2
    ensures var fs := Make(inodes, blocks);
      && |fs.inodes| == inodes && |fs.used| == blocks && fs.nextInode == 11
      && (forall b | 0 <= b < blocks :: fs.used[b] <==> b < 4)
      && fs.dirs == map[2 := map[]]
      && fs.inodes[2] == Inode(mode := 16877, links := 2, size := 0, extents := [])
      && forall i | 0 <= i < inodes && i != 2 :: fs.inodes[i] == Inode(0, 0, 0, [])
  {}

  lemma CreateLeaves(fs: Fs, dir: nat, name: string, n: nat)
    requires fs.nextInode < |fs.inodes| && BlocksFor(n) <= |FreeBlocks(fs.used)|
    ensures var c, ino := Create(fs, dir, name, n), fs.nextInode;
      && c.nextInode == ino + 1 && |c.inodes| == |fs.inodes|
      && c.inodes[ino].links == 1 && c.inodes[ino].size == n && c.inodes[ino].mode == fs.inodes[ino].mode
      && (forall i | 0 <= i < |fs.inodes| && i != ino :: c.inodes[i] == fs.inodes[i])
      && dir in c.dirs && name in c.dirs[dir] && c.dirs[dir][name] == ino
      && (forall a | a != name :: (a in c.dirs[dir] <==> a in Entries(fs.dirs, dir))
                               && (a in c.dirs[dir] ==> c.dirs[dir][a] == Entries(fs.dirs, dir)[a]))
      && c.dirs - {dir} == fs.dirs - {dir}
  {}

  /** Checked creation gives out the next inode when blocks and inodes suffice, and otherwise returns 0 and
      changes nothing at all. */
  lemma CreateCheckedExactly(fs: Fs, name: string, n: nat)
    ensures var r := CreateChecked(fs, name, n);
      if BlocksFor(n) <= |FreeBlocks(fs.used)| && fs.nextInode < |fs.inodes|
      then r.1 == fs.nextInode && r.0.nextInode == fs.nextInode + 1 && r.1 < |r.0.inodes|
           && r.0.inodes[r.1].mode == 33188 && r.0.inodes[r.1].links == 1 && r.0.inodes[r.1].size == n
      else r == (fs, 0)
  {}

  /** A new directory is one inode with two links, its name in the parent and a table of its own; no block is
      used, and nothing else changes. */
  lemma MakeDirLeaves(fs: Fs, dir: nat, name: string)
    requires fs.nextInode < |fs.inodes| && dir != fs.nextInode
    ensures var c, ino := MakeDir(fs, dir, name), fs.nextInode;
      && c.nextInode == ino + 1 && c.used == fs.used && |c.inodes| == |fs.inodes|
      && c.inodes[ino] == Inode(mode := 16877, links := 2, size := 0, extents := fs.inodes[ino].extents)
      && (forall i | 0 <= i < |fs.inodes| && i != ino :: c.inodes[i] == fs.inodes[i])
      && dir in c.dirs && c.dirs[dir] == Entries(fs.dirs, dir)[name := ino]
      && ino in c.dirs && c.dirs[ino] == Entries(fs.dirs, ino)
      && c.dirs - {dir, ino} == fs.dirs - {dir, ino}
  {
    assert fs.inodes[fs.nextInode].extents + [] == fs.inodes[fs.nextInode].extents;
  }

  /** Unlinking drops the name. A file with other links loses one and keeps its blocks; with the last link
      exactly its blocks are free, and the inode is blank. */
  lemma UnlinkLeaves(fs: Fs, dir: nat, name: string)
    requires name in Entries(fs.dirs, dir)
    requires Entries(fs.dirs, dir)[name] < |fs.inodes| && fs.inodes[Entries(fs.dirs, dir)[name]].links >= 1
    ensures var u, ino := Unlink(fs, dir, name), Entries(fs.dirs, dir)[name];
      var f := fs.inodes[ino];
      && u.nextInode == fs.nextInode && |u.inodes| == |fs.inodes| && |u.used| == |fs.used|
      && (forall i | 0 <= i < |fs.inodes| && i != ino :: u.inodes[i] == fs.inodes[i])
      && u.dirs == fs.dirs[dir := fs.dirs[dir] - {name}]
      && (f.links > 1 ==> u.used == fs.used && u.inodes[ino] == Inode(f.mode, f.links - 1, f.size, f.extents))
      && (f.links == 1 ==> u.inodes[ino] == Inode(0, 0, 0, []))
      && (f.links == 1 ==> forall b | 0 <= b < |fs.used| :: u.used[b] <==> fs.used[b] && b !in Listing(f.extents))
  {}
}
