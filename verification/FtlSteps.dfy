/** What one routine of the flash translation layer keeps and changes:
    the map invariant, the page ledger, and the value every LBA reads as. */
module FtlSteps {
  import opened Sums
  import opened FtlModel

  /** What the host reads: zeros for an unmapped LBA, otherwise the data of its page. */
  datatype Content = Zeros | Data(value: int)

  function Read(d: Drive, l: int): Content
    requires 0 <= l < |d.table| && InRange(d, d.table[l])
  {
    if d.table[l].Nowhere? then Zeros
    else Data(d.nand[d.table[l].block].cells[d.table[l].page].data)
  }

  ghost function Logical(d: Drive): (s: seq<Content>)
    requires Mapped(d)
    ensures |s| == |d.table| && forall l | 0 <= l < |s| :: InRange(d, d.table[l]) && s[l] == Read(d, l)
  {
    seq(|d.table|, l requires 0 <= l < |d.table| && Mapped(d) => Read(d, l))
  }

  /** Pages programmed since the drive was made, as the flash itself records it. */
  function Worn(d: Drive): int {
    Sum(NextOf, d.nand) + d.pages * Sum(ErasesOf, d.nand)
  }

  /** The drive with the pages of block `v` below `p` taken for stale: they have been saved elsewhere. */
  function Retired(b: Block, p: int): Block {
    b.(cells := seq(|b.cells|, q requires 0 <= q < |b.cells| =>
                      if q < p && b.cells[q].state.Valid? then b.cells[q].(state := Stale) else b.cells[q]))
  }

  function Masked(d: Drive, v: int, p: int): Drive
    requires 0 <= v < |d.nand|
  {
    d.(nand := d.nand[v := Retired(d.nand[v], p)])
  }

  // ---- TRIM ----

  lemma TrimFrame(d: Drive, l: int)
    requires Framed(d) && Mapped(d) && 0 <= l < d.lbas
    ensures Framed(Trim(d, l)) && ErasedBlocks(Trim(d, l)) == ErasedBlocks(d)
  {
    var e := Trim(d, l);
    if d.table[l].At? {
      var i := d.table[l].block;
      assert BlockOk(e.nand[i], d.pages);
      SumUpdate(IsErased, d.nand, i, e.nand[i]);
      SumWithout(IsErased, d.nand, d.active);
      SumWithout(IsErased, e.nand, d.active);
    }
  }

  lemma TrimMapped(d: Drive, l: int)
    requires Mapped(d) && 0 <= l < |d.table|
    ensures Mapped(Trim(d, l)) && Logical(Trim(d, l)) == Logical(d)[l := Zeros]
  {
    var e := Trim(d, l);
    forall k | 0 <= k < |d.table| && k != l && d.table[k].At?
      ensures d.table[k] != d.table[l]
      ensures e.nand[d.table[k].block].cells[d.table[k].page] == d.nand[d.table[k].block].cells[d.table[k].page]
    {}
  }

  lemma TrimKeeps(d: Drive, l: int)
    requires Framed(d) && Mapped(d) && 0 <= l < d.lbas
    ensures var e := Trim(d, l);
      && Framed(e) && Mapped(e)
      && (Owned(e) <==> Owned(d))
      && ErasedBlocks(e) == ErasedBlocks(d)
      && Logical(e) == Logical(d)[l := Zeros]
  {
    TrimFrame(d, l);
    TrimMapped(d, l);
    if d.table[l].At? {
      TrimOwned(d, l);
    }
  }

  lemma TrimOwned(d: Drive, l: int)
    requires Mapped(d) && 0 <= l < |d.table| && d.table[l].At?
    ensures Owned(Trim(d, l)) <==> Owned(d)
  {
    var e := Trim(d, l);
    forall i, p | 0 <= i < |d.nand| && 0 <= p < |d.nand[i].cells| && At(i, p) != d.table[l]
      ensures e.nand[i].cells[p] == d.nand[i].cells[p]
    {}
    if Owned(e) {
      forall i, p | 0 <= i < |d.nand| && 0 <= p < |d.nand[i].cells| && d.nand[i].cells[p].state.Valid?
        ensures 0 <= d.nand[i].cells[p].lba < |d.table| && d.table[d.nand[i].cells[p].lba] == At(i, p)
      {
        if At(i, p) != d.table[l] {
          assert e.nand[i].cells[p].state.Valid?;
        }
      }
    }
    if Owned(d) {
      forall i, p | 0 <= i < |e.nand| && 0 <= p < |e.nand[i].cells| && e.nand[i].cells[p].state.Valid?
        ensures 0 <= e.nand[i].cells[p].lba < |e.table| && e.table[e.nand[i].cells[p].lba] == At(i, p)
      {
        assert d.nand[i].cells[p].state.Valid?;
      }
    }
  }

  lemma TrimCounts(d: Drive, l: int)
    requires Mapped(d) && 0 <= l < |d.table|
    ensures var e := Trim(d, l);
      && ValidPages(e) + IsMapped(d.table[l]) == ValidPages(d)
      && StalePages(e) == StalePages(d) + IsMapped(d.table[l])
      && MappedLbas(e) + IsMapped(d.table[l]) == MappedLbas(d)
      && Worn(e) == Worn(d)
  {
    var e := Trim(d, l);
    if d.table[l].At? {
      var i, p := d.table[l].block, d.table[l].page;
      var b := d.nand[i];
      SumUpdate(IsValid, b.cells, p, b.cells[p].(state := Stale));
      SumUpdate(IsStale, b.cells, p, b.cells[p].(state := Stale));
      SumUpdate(ValidIn, d.nand, i, e.nand[i]);
      SumUpdate(StaleIn, d.nand, i, e.nand[i]);
      SumUpdate(NextOf, d.nand, i, e.nand[i]);
      SumUpdate(ErasesOf, d.nand, i, e.nand[i]);
      SumUpdate(IsMapped, d.table, l, Nowhere);
    }
  }

  // ---- program, for an LBA that is not mapped ----

  lemma FillMapped(d: Drive, l: int, x: int)
    requires Sound(d) && d.nand[d.active].next < d.pages && 0 <= l < d.lbas && d.table[l].Nowhere?
    ensures Mapped(Fill(d, l, x)) && Logical(Fill(d, l, x)) == Logical(d)[l := Data(x)]
  {
    var e := Fill(d, l, x);
    forall k | 0 <= k < d.lbas && k != l && d.table[k].At?
      ensures e.nand[d.table[k].block].cells[d.table[k].page] == d.nand[d.table[k].block].cells[d.table[k].page]
    {}
  }

  lemma FillOwned(d: Drive, l: int, x: int)
    requires Sound(d) && d.nand[d.active].next < d.pages && 0 <= l < d.lbas && d.table[l].Nowhere?
    ensures Owned(Fill(d, l, x))
  {
    var e := Fill(d, l, x);
    forall i, p | 0 <= i < |e.nand| && 0 <= p < |e.nand[i].cells| && e.nand[i].cells[p].state.Valid?
      ensures 0 <= e.nand[i].cells[p].lba < |e.table| && e.table[e.nand[i].cells[p].lba] == At(i, p)
    {
      if At(i, p) != At(d.active, d.nand[d.active].next) {
        assert e.nand[i].cells[p] == d.nand[i].cells[p];
      }
    }
  }

  lemma FillCounts(d: Drive, l: int, x: int)
    requires Framed(d) && d.nand[d.active].next < d.pages && 0 <= l < d.lbas && d.table[l].Nowhere?
    ensures var e := Fill(d, l, x);
      && ValidPages(e) == ValidPages(d) + 1
      && StalePages(e) == StalePages(d)
      && MappedLbas(e) == MappedLbas(d) + 1
      && Worn(e) == Worn(d) + 1
  {
    var e := Fill(d, l, x);
    var a := d.active;
    var b := d.nand[a];
    SumUpdate(IsValid, b.cells, b.next, Cell(Valid, l, x));
    SumUpdate(IsStale, b.cells, b.next, Cell(Valid, l, x));
    SumUpdate(ValidIn, d.nand, a, e.nand[a]);
    SumUpdate(StaleIn, d.nand, a, e.nand[a]);
    SumUpdate(NextOf, d.nand, a, e.nand[a]);
    SumUpdate(ErasesOf, d.nand, a, e.nand[a]);
    SumUpdate(IsMapped, d.table, l, At(a, b.next));
  }

  lemma ProgramKeeps(d: Drive, l: int, x: int)
    requires Sound(d) && HasRoom(d) && 0 <= l < d.lbas && d.table[l].Nowhere?
    ensures var e := Program(d, l, x);
      && Sound(e) && OpenHoldsValid(e)
      && Logical(e) == Logical(d)[l := Data(x)]
      && ValidPages(e) == ValidPages(d) + 1
      && StalePages(e) == StalePages(d)
      && MappedLbas(e) == MappedLbas(d) + 1
      && Worn(e) == Worn(d) + 1
  {
    OpenedFrame(d);
    var o := Opened(d);
    assert Sound(o);
    assert Logical(o) == Logical(d);
    FillFrame(o, l, x);
    FillMapped(o, l, x);
    FillOwned(o, l, x);
    FillCounts(o, l, x);
  }

  // ---- the rewrite of one LBA: invalidate its old page, program the new one ----

  /** `e` is `m` with LBA `l` rewritten to hold `x`. */
  ghost predicate Rewrote(m: Drive, e: Drive, l: int, x: int)
    requires Mapped(m) && 0 <= l < |m.table|
  {
    && Sound(e) && Logical(e) == Logical(m)[l := Data(x)]
    && ValidPages(e) == ValidPages(m) + 1 - IsMapped(m.table[l])
    && StalePages(e) == StalePages(m) + IsMapped(m.table[l])
    && MappedLbas(e) == MappedLbas(m) + 1 - IsMapped(m.table[l])
    && Worn(e) == Worn(m) + 1
    && e == m.(nand := e.nand, table := e.table, active := e.active, nandWrites := m.nandWrites + 1)
  }

  lemma RewriteFields(m: Drive, l: int, x: int)
    requires Framed(m) && 0 <= l < m.lbas && InRange(m, m.table[l]) && Framed(Trim(m, l)) && HasRoom(Trim(m, l))
    ensures var e := Program(Trim(m, l), l, x);
      e == m.(nand := e.nand, table := e.table, active := e.active, nandWrites := m.nandWrites + 1)
  {}

  lemma Overwrite<T>(s: seq<T>, l: int, x: T, y: T)
    requires 0 <= l < |s|
    ensures s[l := x][l := y] == s[l := y]
  {}

  lemma RewriteKeeps(m: Drive, l: int, x: int)
    requires Sound(m) && 0 <= l < m.lbas && Framed(Trim(m, l)) && HasRoom(Trim(m, l))
    ensures Rewrote(m, Program(Trim(m, l), l, x), l, x)
  {
    TrimKeeps(m, l);
    TrimCounts(m, l);
    ProgramKeeps(Trim(m, l), l, x);
    RewriteFields(m, l, x);
    Overwrite(Logical(m), l, Zeros, Data(x));
  }
}
