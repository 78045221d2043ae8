/** The flash translation layer as the C model runs it: arrays updated in place, page numbers in the map.
    Every method is proved against the routine of FtlModel and FtlRuns of the same name. */
module Ftl {
  import opened Arithmetic
  import opened Sums
  import opened FtlModel
  import opened FtlSteps
  import opened FtlSpace
  import opened FtlRuns

  /** A page number is block * pages + page; -1 marks an unmapped LBA. */
  function Decode(ppn: int, pages: int): Loc
    requires 1 <= pages
  {
    if ppn < 0 then Nowhere else At(ppn / pages, ppn % pages)
  }

  function Places(s: seq<int>, pages: int): (r: seq<Loc>)
    requires 1 <= pages
  {
    seq(|s|, i requires 0 <= i < |s| => Decode(s[i], pages))
  }

  lemma PageNumber(b: int, p: int, pages: int)
    requires 0 <= b && 0 <= p < pages
    ensures Decode(b * pages + p, pages) == At(b, p)
  {
    assert 0 <= b * pages;
    Divides(b * pages + p, b, p, pages);
  }

  class Device {
    const blocks: nat
    const pages: nat
    const lbas: nat
    const naive: bool
    const nand: array<Block>
    const table: array<int>
    var active: nat
    var hostWrites: int
    var nandWrites: int

    ghost predicate Valid()
      reads this, nand, table
    {
      1 <= pages && nand.Length == blocks && table.Length == lbas && active < blocks
    }

    ghost function View(): (d: Drive)
      requires Valid()
      reads this, nand, table
    {
      Drive(blocks, pages, lbas, naive, nand[..], Places(table[..], pages), active, hostWrites, nandWrites)
    }

    /** A factory fresh drive. */
    constructor (blocks: nat, pages: nat, lbas: nat, naive: bool)
      requires Geometry(blocks, pages, lbas)
      ensures Valid() && View() == Make(blocks, pages, lbas, naive) && Ready(View())
      ensures fresh(nand) && fresh(table)
    {
      AtLeastThree(blocks, pages, lbas);
      this.blocks, this.pages, this.lbas, this.naive := blocks, pages, lbas, naive;
      nand := new Block[blocks](_ => FreshBlock(pages, 0));
      table := new int[lbas](_ => -1);
      active, hostWrites, nandWrites := 0, 0, 0;
      new;
      assert nand[..] == Make(blocks, pages, lbas, naive).nand;
      assert Places(table[..], pages) == Make(blocks, pages, lbas, naive).table;
      MakeReady(blocks, pages, lbas, naive);
    }

    method CountErased() returns (n: nat)
      requires Valid()
      ensures n == ErasedBlocks(View())
    {
      n := 0;
      ghost var all := nand[..];
      for i := 0 to blocks
        invariant n == Sum(IsErased, if active < i then Without(all[..i], active) else all[..i])
      {
        if i == active {
          assert Without(all[..i + 1], active) == all[..i];
        } else if active < i {
          SumTake(IsErased, all, i);
          SumWithout(IsErased, all[..i], active);
          SumWithout(IsErased, all[..i + 1], active);
        } else {
          SumTake(IsErased, all, i);
        }
        if i != active && nand[i].next == 0 {
          n := n + 1;
        }
      }
      assert all[..blocks] == all;
    }

    method CountStale(i: nat) returns (stale: nat)
      requires Valid() && i < blocks && |nand[i].cells| == pages
      ensures stale == StaleIn(nand[i])
    {
      stale := 0;
      ghost var cells := nand[i].cells;
      for p := 0 to pages
        invariant stale == Sum(IsStale, cells[..p])
      {
        SumTake(IsStale, cells, p);
        if nand[i].cells[p].state.Stale? {
          stale := stale + 1;
        }
      }
      assert cells[..pages] == cells;
    }

    /** The block `Victim` names, found in one pass over the drive; -1 when nothing is stale. */
    method FindVictim() returns (best: int)
      requires Valid() && forall i | 0 <= i < blocks :: |nand[i].cells| == pages
      ensures VictimChoice(View(), blocks, best)
      ensures best == Victim(View())
    {
      best := -1;
      var most := 0;
      ghost var d := View();
      for i := 0 to blocks
        invariant VictimChoice(d, i, best)
        invariant most == if best == -1 then 0 else StaleIn(nand[best])
        invariant best == VictimUpTo(d, i)
      {
        if i == active {
          continue;
        }
        VictimStep(d, i + 1, best);
        var stale := CountStale(i);
        var tie := !naive && best >= 0 && stale == most && nand[i].erases < nand[best].erases;
        if stale > most || tie {
          most := stale;
          best := i;
        }
      }
    }

    /** The block `ErasedBlock` names, found in one pass that stops early when naive; -1 when none is spare. */
    method FindErased() returns (best: int)
      requires Valid()
      ensures best == ErasedBlock(View())
      ensures if best == -1 then NothingSpare(View()) else FirstChoice(View(), best)
    {
      best := -1;
      ghost var d := View();
      ErasedBlockIsFirstChoice(d);
      for i := 0 to blocks
        invariant ErasedChoice(d, i, best) && best == ErasedBlockUpTo(d, i)
      {
        if i == active || nand[i].next != 0 {
          continue;
        }
        if naive && best >= 0 {
          FirstStays(d, i, blocks);
          break;
        }
        if best < 0 || nand[i].erases < nand[best].erases {
          best := i;
        }
      }
    }

    /** Program the next free page. The caller leaves room, so `FindErased` is never -1 here. */
    method Program(lba: nat, data: int)
      requires Valid() && Framed(View()) && HasRoom(View()) && lba < lbas
      modifies this`active, this`nandWrites, nand, table
      ensures Valid() && View() == FtlModel.Program(old(View()), lba, data)
      ensures if old(nand[active].next) < pages then active == old(active) else FirstChoice(old(View()), active)
      ensures nand[active].next >= 1 && table[lba] == active * pages + nand[active].next - 1
    {
      ghost var d := View();
      OpenedFrame(d);
      ProgramPlaces(d, lba, data);
      if nand[active].next == pages {
        var b := FindErased();
        assert b == Opened(d).active;
        active := b;
      }
      assert View() == Opened(d);
      var b := nand[active];
      nand[active] := Block(b.cells[b.next := Cell(PageState.Valid, lba, data)], b.next + 1, b.erases);
      PageNumber(active, b.next, pages);
      table[lba] := active * pages + b.next;
      nandWrites := nandWrites + 1;
      assert View().nand == FtlModel.Program(d, lba, data).nand;
      assert View().table == FtlModel.Program(d, lba, data).table;
    }

    method MarkStale(ppn: nat)
      requires Valid() && ppn / pages < blocks && ppn % pages < |nand[ppn / pages].cells|
      modifies nand
      ensures Valid() && View() == FtlModel.MarkStale(old(View()), Decode(ppn, pages))
    {
      var b := nand[ppn / pages];
      nand[ppn / pages] := b.(cells := b.cells[ppn % pages := b.cells[ppn % pages].(state := Stale)]);
      assert View().nand == FtlModel.MarkStale(old(View()), Decode(ppn, pages)).nand;
    }

    /** Each valid page of the victim is programmed again elsewhere. */
    method SaveValid(v: nat)
      requires Valid() && Framed(View()) && v < blocks && CanCopy(View(), v, 0)
      modifies this`active, this`nandWrites, nand, table
      ensures Valid() && View() == CopyOut(old(View()), v, 0)
    {
      ghost var d := View();
      for p := 0 to pages
        invariant Valid() && Framed(View()) && View().blocks == d.blocks && View().pages == d.pages
        invariant CanCopy(View(), v, p) && CopyOut(View(), v, p) == CopyOut(d, v, 0)
      {
        CopyStep(View(), v, p);
        if nand[v].cells[p].state.Valid? {
          Program(nand[v].cells[p].lba, nand[v].cells[p].data);
        }
      }
    }

    /** Save the victim's valid pages, then erase it. */
    method GarbageCollect() returns (collected: bool)
      requires Valid() && Framed(View()) && (Victim(View()) != -1 ==> CanCollect(View()))
      modifies this`active, this`nandWrites, nand, table
      ensures Valid() && collected == (old(Victim(View())) != -1)
      ensures View() == if collected then Collect(old(View())) else old(View())
    {
      ghost var d := View();
      var v := FindVictim();
      if v < 0 {
        return false;
      }
      SaveValid(v);
      var worn := nand[v].erases + 1;
      nand[v] := FreshBlock(pages, worn);
      assert View().nand == Collect(d).nand;
      return true;
    }

    /** `write` up to its loop: the old page of `lba` goes stale, the new one is programmed. */
    method Rewrite(lba: nat, data: int)
      requires Valid() && Sound(View()) && HasRoom(View()) && lba < lbas
      modifies this`active, this`hostWrites, this`nandWrites, nand, table
      ensures Valid() && View() == WriteBody(old(View()), lba, data)
    {
      ghost var d := View();
      InvalidatedFrame(d, lba);
      hostWrites := hostWrites + 1;
      if table[lba] >= 0 {
        MarkStale(table[lba]);
      }
      assert View() == Invalidated(d, lba);
      Program(lba, data);
    }

    /** Afterwards `lba` reads as `data`, every other LBA as before, and the drive is ready for the next write. */
    method Write(lba: nat, data: int)
      requires Valid() && Ready(View()) && lba < lbas
      modifies this`active, this`hostWrites, this`nandWrites, nand, table
      ensures Valid() && View() == FtlRuns.Write(old(View()), lba, data)
      ensures Ready(View()) && Logical(View()) == old(Logical(View()))[lba := Data(data)]
    {
      ghost var d := View();
      Rewrite(lba, data);
      ghost var body := View();
      BodyTurns(d, lba, data);
      while true
        invariant Valid() && Turning(View()) && Reclaim(View()) == Reclaim(body)
        decreases StalePages(View())
      {
        var erased := CountErased();
        if erased >= 2 {
          break;
        }
        TurningCollects(View());
        var more := GarbageCollect();
        if !more {
          break;
        }
      }
      WriteKeeps(d, lba, data);
    }

    /** Afterwards `lba` reads as zeros and its page, if it had one, is stale. */
    method Trim(lba: nat)
      requires Valid() && lba < lbas && InRange(View(), View().table[lba])
      modifies nand, table
      ensures Valid() && View() == FtlModel.Trim(old(View()), lba)
    {
      ghost var d := View();
      if table[lba] < 0 {
        return;
      }
      MarkStale(table[lba]);
      table[lba] := -1;
      assert View().table == FtlModel.Trim(d, lba).table;
    }

    /** True exactly when the map is a bijection from the mapped LBAs onto the Valid pages. */
    method Consistent() returns (ok: bool)
      requires Valid() && (forall i | 0 <= i < blocks :: |nand[i].cells| == pages)
      requires forall l | 0 <= l < lbas :: InRange(View(), View().table[l])
      ensures ok <==> Mapped(View()) && Owned(View())
    {
      ghost var d := View();
      var valid := 0;
      for i := 0 to blocks
        invariant valid == Sum(ValidIn, d.nand[..i])
      {
        SumTake(ValidIn, d.nand, i);
        ghost var cells := d.nand[i].cells;
        for p := 0 to pages
          invariant valid == Sum(ValidIn, d.nand[..i]) + Sum(IsValid, cells[..p])
        {
          SumTake(IsValid, cells, p);
          if nand[i].cells[p].state.Valid? {
            valid := valid + 1;
          }
        }
        assert cells[..pages] == cells;
      }
      assert d.nand[..blocks] == d.nand;
      var mapped := 0;
      for l := 0 to lbas
        invariant mapped == Sum(IsMapped, d.table[..l])
        invariant forall k | 0 <= k < l && d.table[k].At? ::
          var c := d.nand[d.table[k].block].cells[d.table[k].page]; c.state.Valid? && c.lba == k
      {
        SumTake(IsMapped, d.table, l);
        if table[l] < 0 {
          continue;
        }
        mapped := mapped + 1;
        var b, p := nand[table[l] / pages], table[l] % pages;
        assert d.table[l] == At(table[l] / pages, p);
        if !b.cells[p].state.Valid? || b.cells[p].lba != l {
          return false;
        }
      }
      assert d.table[..lbas] == d.table;
      CountsDecide(d, lbas);
      return valid == mapped;
    }
  }

  lemma {:induction false} FirstStays(d: Drive, i: int, n: int)
    requires 0 <= i <= n <= |d.nand| && d.naive && ErasedBlockUpTo(d, i) != -1
    ensures ErasedBlockUpTo(d, n) == ErasedBlockUpTo(d, i)
  {
    if i < n {
      FirstStays(d, i, n - 1);
    }
  }
}
