/** The tiny filesystem as the program runs it: bitmap and inode table updated in place, name tables in a map.
    Every method is proved against the value-level operation of the same name. */
module TinyFs {
  import opened Extents
  import M = TinyFsModel
  import P = Paths
  import R = Renames
  import opened Ownership

  class FileSystem {
    const inodes: array<M.Inode>
    const used: array<bool>
    var dirs: map<nat, M.Names>
    var nextInode: nat

    ghost function View(): M.Fs
      reads this, inodes, used
    {
      M.Fs(inodes[..], used[..], dirs, nextInode)
    }

    constructor (inodeCount: nat, blocks: nat)
      requires inodeCount > M.ROOT && 4 <= blocks
      ensures View() == M.Make(inodeCount, blocks) && Good(View()) && fresh(inodes) && fresh(used)
    {
      inodes := new M.Inode[inodeCount](_ => M.BLANK);
      used := new bool[blocks](i => i < 4);
      dirs, nextInode := map[M.ROOT := map[]], M.FIRST_INODE;
      new;
      inodes[M.ROOT] := M.Inode(M.IS_DIR, 2, 0, []);
      assert inodes[..] == M.Make(inodeCount, blocks).inodes;
      assert used[..] == M.Make(inodeCount, blocks).used;
      MakeGood(inodeCount, blocks);
    }

    method FreeCount() returns (n: nat)
      ensures n == |FreeBlocks(used[..])|
    {
      n := 0;
      for i := 0 to used.Length
        invariant n + |FreeFrom(used[..], i)| == |FreeBlocks(used[..])|
      {
        n := n + if used[i] then 0 else 1;
      }
    }

    /** First fit: the first free block and the run behind it, no longer than wanted. */
    method Alloc(want: nat) returns (e: Extent)
      modifies used
      ensures e == Pick(old(used[..]), want) && used[..] == Fill(old(used[..]), e)
    {
      ghost var was := used[..];
      var b := 0;
      while b < used.Length && used[b]
        invariant b <= used.Length && FirstFree(was, b) == FirstFree(was, 0)
      {
        b := b + 1;
      }
      var start, count := b, 0;
      while b < used.Length && !used[b] && count < want
        invariant start <= used.Length && b == start + count <= used.Length && count <= want
        invariant RunOf(was, start, want) == count + RunOf(was, b, want - count)
        invariant forall i | 0 <= i < used.Length :: used[i] == (was[i] || start <= i < b)
      {
        used[b] := true;
        b, count := b + 1, count + 1;
      }
      e := Extent(start, count);
      assert used[..] == Fill(was, e);
    }

    /** The loop of `create`: ask again until the need is covered. */
    method AllocAll(blocks: nat) returns (es: seq<Extent>)
      requires blocks <= |FreeBlocks(used[..])|
      modifies used
      ensures es == Take(old(used[..]), blocks) && used[..] == TakeLeaves(old(used[..]), blocks)
    {
      ghost var was, rest := used[..], used[..];
      var need: nat := blocks;
      es := [];
      assert es + Take(was, blocks) == Take(was, blocks);
      while need > 0
        invariant used[..] == rest && Covering(was, blocks, es, rest, need)
      {
        CoveringRound(was, blocks, es, rest, need);
        var e := Alloc(need);
        rest := Fill(rest, e);
        es := es + [e];
        need := need - e.count;
      }
      CoveringDone(was, blocks, es, rest);
    }

    /** The next inode gets the name, the size and as many blocks as that needs, which the caller has checked for. */
    method Create(dir: nat, name: string, n: nat) returns (ino: nat)
      requires nextInode < inodes.Length && M.BlocksFor(n) <= |FreeBlocks(used[..])|
      modifies this, inodes, used
      ensures View() == M.Create(old(View()), dir, name, n) && ino == old(nextInode)
    {
      ino := nextInode;
      nextInode := nextInode + 1;
      inodes[ino] := inodes[ino].(links := 1, size := n);
      var es := AllocAll(M.BlocksFor(n));
      inodes[ino] := inodes[ino].(extents := inodes[ino].extents + es);
      dirs := M.AddName(dirs, dir, name, ino);
    }

    /** Refuse with inode 0 when blocks or inodes are short. */
    method CreateChecked(name: string, bytes: nat) returns (ino: nat)
      modifies this, inodes, used
      ensures (View(), ino) == M.CreateChecked(old(View()), name, bytes)
      ensures if M.BlocksFor(bytes) <= |FreeBlocks(old(used[..]))| && old(nextInode) < inodes.Length
              then ino == old(nextInode) && nextInode == ino + 1
              else ino == 0 && View() == old(View())
      ensures old(Good(View()) && name !in dirs[M.ROOT]) ==> Good(View())
    {
      ghost var fs := View();
      if Good(fs) && name !in dirs[M.ROOT] {
        CreateKeeps(fs, name, bytes);
      }
      var free := FreeCount();
      if free < M.BlocksFor(bytes) || nextInode >= inodes.Length {
        return 0;
      }
      ino := Create(M.ROOT, name, bytes);
      inodes[ino] := inodes[ino].(mode := M.IS_FILE);
    }

    /** Afterwards the name is gone; a file without further links has given up its blocks and its inode is blank. */
    method Unlink(dir: nat, name: string)
      requires name in M.Entries(dirs, dir) && M.Entries(dirs, dir)[name] < inodes.Length
      requires inodes[M.Entries(dirs, dir)[name]].links >= 1
      requires forall b | b in Listing(inodes[M.Entries(dirs, dir)[name]].extents) :: b < used.Length
      modifies this, inodes, used
      ensures View() == M.Unlink(old(View()), dir, name)
    {
      var ino := M.Entries(dirs, dir)[name];
      dirs := M.DropName(dirs, dir, name);
      var f := inodes[ino];
      inodes[ino] := f.(links := f.links - 1);
      if f.links - 1 > 0 {
        return;
      }
      ghost var was := used[..];
      for k := 0 to |f.extents|
        modifies used
        invariant used[..] == M.Release(was, Listing(f.extents[..k]))
      {
        ghost var now := used[..];
        var e := f.extents[k];
        ListingTake(f.extents, k);
        InRange(e.start, e.count);
        for b := e.start to e.start + e.count
          modifies used
          invariant forall i | 0 <= i < used.Length :: used[i] == (now[i] && !(e.start <= i < b))
        {
          assert b in Listing(f.extents[..k + 1]);
          ListingPrefix(f.extents, k + 1, b);
          used[b] := false;
        }
        assert used[..] == M.Release(was, Listing(f.extents[..k + 1]));
      }
      assert f.extents[..|f.extents|] == f.extents;
      inodes[ino] := M.BLANK;
      assert inodes[..] == old(inodes[..])[ino := M.BLANK];
    }

    method MakeDir(dir: nat, name: string) returns (ino: nat)
      requires nextInode < inodes.Length
      modifies this, inodes, used
      ensures View() == M.MakeDir(old(View()), dir, name) && ino == old(nextInode)
    {
      ino := Create(dir, name, 0);
      inodes[ino] := inodes[ino].(mode := M.IS_DIR, links := 2);
      dirs := dirs[ino := M.Entries(dirs, ino)];
    }

    method Rename(from: nat, name: string, to: nat, newName: string)
      requires name in M.Entries(dirs, from)
      modifies this`dirs
      ensures dirs == R.Rename(old(dirs), from, name, to, newName)
    {
      var ino := M.Entries(dirs, from)[name];
      dirs := M.DropName(dirs, from, name);
      dirs := M.AddName(dirs, to, newName, ino);
    }

    /** The character scanner: one directory lookup for each component, 0 when a name is missing. */
    method Resolve(path: string) returns (ino: nat)
      ensures ino == P.Resolve(dirs, path)
    {
      ino := M.ROOT;
      var p := 0;
      while p < |path|
        invariant p <= |path| && P.Walk(dirs, ino, P.PartsFrom(path, p)) == P.Resolve(dirs, path)
      {
        var slash := P.SlashFrom(path, p);
        ghost var next := P.After(path, slash);
        NextComponent(dirs, ino, path, p);
        if slash > p {
          var word := path[p..slash];
          if word !in M.Entries(dirs, ino) {
            return 0;
          }
          ino := M.Entries(dirs, ino)[word];
        }
        p := slash;
        if p < |path| && path[p] == '/' {
          p := p + 1;
        }
        assert p == next;
      }
    }
  }

  /** What the scanner finds at `p`: one word to look up, if any, then the rest behind the slash. */
  lemma NextComponent(dirs: map<nat, M.Names>, ino: nat, path: string, p: nat)
    requires p < |path|
    ensures var j := P.SlashFrom(path, p);
      var rest := P.PartsFrom(path, P.After(path, j));
      P.Walk(dirs, ino, P.PartsFrom(path, p))
        == if j == p then P.Walk(dirs, ino, rest)
           else if path[p..j] in M.Entries(dirs, ino) then P.Walk(dirs, M.Entries(dirs, ino)[path[p..j]], rest)
           else 0
  {
    var j := P.SlashFrom(path, p);
    var rest := P.PartsFrom(path, P.After(path, j));
    if j == p {
      assert [] + rest == rest;
    } else {
      assert ([path[p..j]] + rest)[1..] == rest;
    }
  }

  lemma {:induction false} ListingAppend(xs: seq<Extent>, ys: seq<Extent>)
    ensures Listing(xs + ys) == Listing(xs) + Listing(ys)
  {
    if xs == [] {
      assert xs + ys == ys;
    } else {
      assert (xs + ys)[1..] == xs[1..] + ys;
      ListingAppend(xs[1..], ys);
    }
  }

  lemma ListingTake(es: seq<Extent>, k: nat)
    requires k < |es|
    ensures Listing(es[..k + 1]) == Listing(es[..k]) + Range(es[k].start, es[k].count)
  {
    assert es[..k + 1] == es[..k] + [es[k]];
    ListingAppend(es[..k], [es[k]]);
    assert Listing([es[k]]) == Range(es[k].start, es[k].count) + Listing([]);
  }

  lemma ListingPrefix(es: seq<Extent>, k: nat, b: nat)
    requires k <= |es| && b in Listing(es[..k])
    ensures b in Listing(es)
  {
    assert es == es[..k] + es[k..];
    ListingAppend(es[..k], es[k..]);
  }
}
