/** A collection. While it copies, the victim still holds Valid duplicates, so the map invariant is broken;
    it holds of the drive with the already copied pages taken for stale, and on that drive one copy is
    TRIM followed by program. Erasing the victim removes the difference. */
module FtlCollect {
  import opened Sums
  import opened FtlModel
  import opened FtlSteps

  lemma {:induction false} CellCounts(cells: seq<Cell>, next: int)
    requires 0 <= next <= |cells|
    requires forall p | 0 <= p < |cells| :: cells[p].state.Free? <==> next <= p
    ensures Sum(IsValid, cells) + Sum(IsStale, cells) == next
  {
    if cells != [] {
      assert forall p | 0 <= p < |cells| - 1 :: cells[1..][p] == cells[p + 1];
      CellCounts(cells[1..], if next == 0 then 0 else next - 1);
      assert cells[0].state.Free? <==> next == 0;
    }
  }

  /** A page that was programmed since the last erase is Valid or Stale. */
  lemma BlockCounts(b: Block, pages: int)
    requires BlockOk(b, pages)
    ensures ValidIn(b) + StaleIn(b) == b.next
  {
    CellCounts(b.cells, b.next);
  }

  lemma {:induction false} SameChoice(d: Drive, e: Drive, n: int)
    requires 0 <= n <= |d.nand| == |e.nand| && d.active == e.active && d.naive == e.naive
    requires forall i | 0 <= i < |d.nand| :: d.nand[i].next == e.nand[i].next && d.nand[i].erases == e.nand[i].erases
    ensures ErasedBlockUpTo(d, n) == ErasedBlockUpTo(e, n)
  {
    if n > 0 {
      SameChoice(d, e, n - 1);
    }
  }

  lemma MaskedFrame(d: Drive, v: int, p: int)
    requires Framed(d) && 0 <= v < d.blocks && v != d.active
    ensures Framed(Masked(d, v, p)) && ErasedBlocks(Masked(d, v, p)) == ErasedBlocks(d)
  {
    var m := Masked(d, v, p);
    assert BlockOk(m.nand[v], d.pages);
    SumUpdate(IsErased, d.nand, v, m.nand[v]);
    SumWithout(IsErased, d.nand, d.active);
    SumWithout(IsErased, m.nand, d.active);
  }

  lemma MaskedSkip(d: Drive, v: int, p: int)
    requires 0 <= v < |d.nand| && 0 <= p < |d.nand[v].cells| && !d.nand[v].cells[p].state.Valid?
    ensures Masked(d, v, p + 1) == Masked(d, v, p)
  {
    assert Retired(d.nand[v], p + 1).cells == Retired(d.nand[v], p).cells;
  }

  lemma MaskedTrim(d: Drive, v: int, p: int)
    requires Framed(d) && 0 <= v < d.blocks && 0 <= p < d.pages
    requires Sound(Masked(d, v, p)) && d.nand[v].cells[p].state.Valid?
    ensures var m, l := Masked(d, v, p), d.nand[v].cells[p].lba;
      && 0 <= l < d.lbas && m.table[l] == At(v, p)
      && Trim(m, l) == Masked(d, v, p + 1).(table := d.table[l := Nowhere])
  {
    var m, c := Masked(d, v, p), d.nand[v].cells[p];
    assert m.nand[v].cells[p] == c;
    assert Trim(m, c.lba).nand[v].cells == Retired(d.nand[v], p + 1).cells;
    assert Trim(m, c.lba).nand == Masked(d, v, p + 1).nand;
  }

  lemma MaskedProgram(d: Drive, t: Drive, v: int, q: int, l: int, x: int)
    requires Framed(d) && HasRoom(d) && 0 <= v < d.blocks && v != d.active && d.nand[v].next == d.pages
    requires 0 <= l < d.lbas && t == Masked(d, v, q).(table := d.table[l := Nowhere])
    ensures Framed(t) && HasRoom(t) && Masked(Program(d, l, x), v, q) == Program(t, l, x)
  {
    MaskedFrame(d, v, q);
    assert ErasedBlocks(t) == ErasedBlocks(Masked(d, v, q));
    SameChoice(d, t, |d.nand|);
    OpenedFrame(d);
    var o := Opened(d);
    assert Opened(t).active == o.active;
    assert o.active != v;
    assert Masked(Program(d, l, x), v, q).nand == Program(t, l, x).nand;
  }

  /** What copying pages keeps and costs, `n` pages copied; `m` and `w` are the masked drives. */
  ghost predicate Saved(m: Drive, w: Drive, n: int)
    requires Mapped(m)
  {
    && Sound(w) && Logical(w) == Logical(m)
    && ValidPages(w) == ValidPages(m) && StalePages(w) == StalePages(m) + n
    && MappedLbas(w) == MappedLbas(m) && Worn(w) == Worn(m) + n
  }

  /** Copying one valid page is TRIM then program on the masked drive. */
  lemma CopyOnce(d: Drive, v: int, p: int)
    requires Framed(d) && 0 <= v < d.blocks && 0 <= p < d.pages && CanCopy(d, v, p)
    requires Sound(Masked(d, v, p)) && d.nand[v].cells[p].state.Valid?
    ensures 0 <= d.nand[v].cells[p].lba < d.lbas && HasRoom(d)
    ensures var e := Program(d, d.nand[v].cells[p].lba, d.nand[v].cells[p].data);
      |e.nand| == d.blocks && Saved(Masked(d, v, p), Masked(e, v, p + 1), 1)
  {
    CopyStep(d, v, p);
    var c, m := d.nand[v].cells[p], Masked(d, v, p);
    MaskedTrim(d, v, p);
    MaskedProgram(d, Trim(m, c.lba), v, p + 1, c.lba, c.data);
    RewriteSaves(m, c.lba, c.data);
  }

  /** Rewriting a mapped LBA with the data it has. */
  lemma RewriteSaves(m: Drive, l: int, x: int)
    requires Sound(m) && 0 <= l < m.lbas && m.table[l].At? && Framed(Trim(m, l)) && HasRoom(Trim(m, l))
    requires m.nand[m.table[l].block].cells[m.table[l].page].data == x
    ensures Saved(m, Program(Trim(m, l), l, x), 1)
  {
    RewriteKeeps(m, l, x);
    RewriteSame(m, l, x);
  }

  lemma RewriteSame(m: Drive, l: int, x: int)
    requires Mapped(m) && 0 <= l < |m.table| && m.table[l].At?
    requires m.nand[m.table[l].block].cells[m.table[l].page].data == x
    ensures Logical(m)[l := Data(x)] == Logical(m)
  {}

  lemma {:induction false} CopyOutKeeps(d: Drive, v: int, p: int)
    requires Framed(d) && 0 <= v < d.blocks && 0 <= p <= d.pages && CanCopy(d, v, p)
    requires Sound(Masked(d, v, p))
    ensures var e := CopyOut(d, v, p);
      Saved(Masked(d, v, p), Masked(e, v, d.pages), Sum(IsValid, d.nand[v].cells[p..]))
    decreases d.pages - p
  {
    if p < d.pages {
      CopyStep(d, v, p);
      var c := d.nand[v].cells[p];
      assert Sum(IsValid, d.nand[v].cells[p..]) == IsValid(c) + Sum(IsValid, d.nand[v].cells[p + 1..]);
      if c.state.Valid? {
        CopyOnce(d, v, p);
        CopyOutKeeps(Program(d, c.lba, c.data), v, p + 1);
      } else {
        MaskedSkip(d, v, p);
        CopyOutKeeps(d, v, p + 1);
      }
    }
  }

  /** Only the open block, the map and the count of NAND writes change while the victim is copied,
      and only LBAs whose page is in the victim move. */
  ghost predicate Moved(d: Drive, e: Drive, v: int, n: int) {
    && e == d.(nand := e.nand, table := e.table, active := e.active, nandWrites := d.nandWrites + n)
    && |e.table| == |d.table|
    && forall k | 0 <= k < |d.table| && e.table[k] != d.table[k] ::
         && e.table[k].At? && e.table[k].block != v
         && d.table[k].At? && d.table[k].block == v
  }

  /** The map still leads to the pages of `v` that have not been copied. */
  ghost predicate PointedAt(d: Drive, v: int, p: int)
    requires 0 <= v < |d.nand| && 0 <= p
  {
    forall q | p <= q < |d.nand[v].cells| && d.nand[v].cells[q].state.Valid? ::
      0 <= d.nand[v].cells[q].lba < |d.table| && d.table[d.nand[v].cells[q].lba] == At(v, q)
  }

  lemma CopyMoves(d: Drive, v: int, p: int)
    requires Framed(d) && 0 <= v < d.blocks && 0 <= p < d.pages && CanCopy(d, v, p)
    requires PointedAt(d, v, p) && d.nand[v].cells[p].state.Valid? && HasRoom(d)
    ensures 0 <= d.nand[v].cells[p].lba < d.lbas
    ensures var e := Program(d, d.nand[v].cells[p].lba, d.nand[v].cells[p].data);
      Moved(d, e, v, 1) && |e.nand| == d.blocks && PointedAt(e, v, p + 1)
  {
    OpenedFrame(d);
  }

  lemma {:induction false} CopyOutMoves(d: Drive, v: int, p: int)
    requires Framed(d) && 0 <= v < d.blocks && 0 <= p <= d.pages && CanCopy(d, v, p)
    requires PointedAt(d, v, p)
    ensures Moved(d, CopyOut(d, v, p), v, Sum(IsValid, d.nand[v].cells[p..]))
    decreases d.pages - p
  {
    if p < d.pages {
      CopyStep(d, v, p);
      var c := d.nand[v].cells[p];
      assert Sum(IsValid, d.nand[v].cells[p..]) == IsValid(c) + Sum(IsValid, d.nand[v].cells[p + 1..]);
      if c.state.Valid? {
        CopyMoves(d, v, p);
        CopyOutMoves(Program(d, c.lba, c.data), v, p + 1);
      } else {
        CopyOutMoves(d, v, p + 1);
      }
    }
  }

  /** Copying opens at most one block, and none when the open block has room for everything. */
  lemma {:induction false} CopyOutRoom(d: Drive, v: int, p: int)
    requires Framed(d) && 0 <= v < d.blocks && 0 <= p <= d.pages && CanCopy(d, v, p)
    ensures var e := CopyOut(d, v, p);
      && ErasedBlocks(e) >= ErasedBlocks(d) - 1
      && (OpenHoldsValid(d) ==> OpenHoldsValid(e))
      && (Sum(IsValid, d.nand[v].cells[p..]) <= d.pages - d.nand[d.active].next ==>
            ErasedBlocks(e) == ErasedBlocks(d))
    decreases d.pages - p
  {
    if p < d.pages {
      CopyOutPage(d, v, p);
      CopyPageRoom(d, v, p);
      CopyOutRoom(CopyPage(d, v, p), v, p + 1);
    }
  }

  lemma CopyPageRoom(d: Drive, v: int, p: int)
    requires Framed(d) && 0 <= v < d.blocks && 0 <= p < d.pages && CanCopy(d, v, p)
    ensures var e, rest := CopyPage(d, v, p), Sum(IsValid, d.nand[v].cells[p + 1..]);
      && (OpenHoldsValid(d) ==> OpenHoldsValid(e))
      && (ErasedBlocks(e) == ErasedBlocks(d)
          || (ErasedBlocks(e) == ErasedBlocks(d) - 1 && rest <= d.pages - e.nand[e.active].next))
      && (Sum(IsValid, d.nand[v].cells[p..]) <= d.pages - d.nand[d.active].next ==>
            ErasedBlocks(e) == ErasedBlocks(d) && rest <= d.pages - e.nand[e.active].next)
  {
    ValidFrom(d.nand[v].cells, p);
    var c := d.nand[v].cells[p];
    if c.state.Valid? {
      CopyStep(d, v, p);
      ProgramFrame(d, c.lba, c.data);
      var rest := d.nand[v].cells[p + 1..];
      forall x | x in rest ensures IsValid(x) <= 1 {}
      SumBounded(IsValid, rest);
    }
  }

  // ---- the states inside the copy loop ----

  /** One round of the loop. */
  ghost function CopyPage(d: Drive, v: int, p: int): (e: Drive)
    requires Framed(d) && 0 <= v < d.blocks && 0 <= p < d.pages && CanCopy(d, v, p)
    ensures Framed(e) && e.blocks == d.blocks && e.pages == d.pages && e.nand[v] == d.nand[v] && CanCopy(e, v, p + 1)
  {
    CopyStep(d, v, p);
    var c := d.nand[v].cells[p];
    if c.state.Valid? then Program(d, c.lba, c.data) else d
  }

  /** The drive when the loop has looked at the first `p` pages of block `v`. */
  ghost function CopiedUpTo(d: Drive, v: int, p: int): (e: Drive)
    requires Framed(d) && 0 <= v < d.blocks && 0 <= p <= d.pages && CanCopy(d, v, 0)
    ensures Framed(e) && e.blocks == d.blocks && e.pages == d.pages && e.nand[v] == d.nand[v] && CanCopy(e, v, p)
    decreases p
  {
    if p == 0 then d else CopyPage(CopiedUpTo(d, v, p - 1), v, p - 1)
  }

  lemma CopyOutPage(d: Drive, v: int, p: int)
    requires Framed(d) && 0 <= v < d.blocks && 0 <= p < d.pages && CanCopy(d, v, p)
    ensures CopyOut(d, v, p) == CopyOut(CopyPage(d, v, p), v, p + 1)
  {}

  /** They are the states of the loop: copying the rest from there is the whole copy. */
  lemma {:induction false} CopiedThenOut(d: Drive, v: int, p: int)
    requires Framed(d) && 0 <= v < d.blocks && 0 <= p <= d.pages && CanCopy(d, v, 0)
    ensures CopyOut(CopiedUpTo(d, v, p), v, p) == CopyOut(d, v, 0)
    decreases p
  {
    if p > 0 {
      CopiedThenOut(d, v, p - 1);
      CopyOutPage(CopiedUpTo(d, v, p - 1), v, p - 1);
    }
  }

  lemma ValidFrom(cells: seq<Cell>, p: int)
    requires 0 <= p < |cells|
    ensures Sum(IsValid, cells[p..]) == IsValid(cells[p]) + Sum(IsValid, cells[p + 1..])
  {
    assert cells[p..][1..] == cells[p + 1..];
  }

  lemma CopyFits(d: Drive, v: int, p: int)
    requires Framed(d) && 0 <= v < d.blocks && 0 <= p < d.pages && CanCopy(d, v, p)
    requires Sum(IsValid, d.nand[v].cells[p..]) <= d.pages - d.nand[d.active].next
    ensures var e := CopyPage(d, v, p);
      e.active == d.active && Sum(IsValid, d.nand[v].cells[p + 1..]) <= d.pages - e.nand[e.active].next
  {
    ValidFrom(d.nand[v].cells, p);
    var c := d.nand[v].cells[p];
    if c.state.Valid? {
      CopyStep(d, v, p);
      ProgramFrame(d, c.lba, c.data);
    }
  }

  /** When the open block has room for the whole victim, no copy opens another. */
  lemma {:induction false} CopiesFit(d: Drive, v: int, p: int)
    requires Framed(d) && 0 <= v < d.blocks && 0 <= p <= d.pages && CanCopy(d, v, 0)
    requires ValidIn(d.nand[v]) <= d.pages - d.nand[d.active].next
    ensures var e := CopiedUpTo(d, v, p);
      e.active == d.active && Sum(IsValid, d.nand[v].cells[p..]) <= d.pages - e.nand[e.active].next
    decreases p
  {
    if p == 0 {
      assert d.nand[v].cells[0..] == d.nand[v].cells;
    } else {
      CopiesFit(d, v, p - 1);
      CopyFits(CopiedUpTo(d, v, p - 1), v, p - 1);
    }
  }

  // ---- erase ----

  lemma {:induction false} FreshCounts(n: nat)
    ensures var c := seq(n, _ => Cell(Free, 0, 0)); Sum(IsValid, c) == 0 && Sum(IsStale, c) == 0
  {
    SumZero(IsValid, seq(n, _ => Cell(Free, 0, 0)));
    SumZero(IsStale, seq(n, _ => Cell(Free, 0, 0)));
  }

  lemma EraseFrame(d: Drive, v: int)
    requires Framed(d) && 0 <= v < d.blocks && v != d.active && d.nand[v].next == d.pages
    ensures Framed(Erase(d, v)) && ErasedBlocks(Erase(d, v)) == ErasedBlocks(d) + 1
  {
    var e := Erase(d, v);
    assert BlockOk(e.nand[v], d.pages);
    SumUpdate(IsErased, d.nand, v, e.nand[v]);
    SumWithout(IsErased, d.nand, d.active);
    SumWithout(IsErased, e.nand, d.active);
  }

  lemma EraseKeeps(d: Drive, v: int)
    requires Sound(d) && 0 <= v < d.blocks && v != d.active && d.nand[v].next == d.pages
    requires ValidIn(d.nand[v]) == 0
    ensures var e := Erase(d, v);
      && Sound(e) && Logical(e) == Logical(d)
      && ErasedBlocks(e) == ErasedBlocks(d) + 1
  {
    var e := Erase(d, v);
    EraseFrame(d, v);
    SumZero(IsValid, d.nand[v].cells);
    forall k | 0 <= k < d.lbas && d.table[k].At?
      ensures d.table[k].block != v
    {
      assert IsValid(d.nand[d.table[k].block].cells[d.table[k].page]) == 1;
    }
    forall i, p | 0 <= i < d.blocks && 0 <= p < d.pages && e.nand[i].cells[p].state.Valid?
      ensures d.nand[i].cells[p] == e.nand[i].cells[p]
    {}
  }

  lemma EraseCounts(d: Drive, v: int)
    requires Framed(d) && 0 <= v < d.blocks && d.nand[v].next == d.pages
    ensures var e := Erase(d, v);
      && ValidPages(e) + ValidIn(d.nand[v]) == ValidPages(d)
      && StalePages(e) + StaleIn(d.nand[v]) == StalePages(d)
      && Worn(e) == Worn(d)
  {
    var e := Erase(d, v);
    FreshCounts(d.pages);
    SumUpdate(ValidIn, d.nand, v, e.nand[v]);
    SumUpdate(StaleIn, d.nand, v, e.nand[v]);
    SumUpdate(NextOf, d.nand, v, e.nand[v]);
    SumUpdate(ErasesOf, d.nand, v, e.nand[v]);
    assert d.pages * (Sum(ErasesOf, d.nand) + 1) == d.pages * Sum(ErasesOf, d.nand) + d.pages;
  }

  lemma RetiredCounts(b: Block, pages: int)
    requires BlockOk(b, pages)
    ensures ValidIn(Retired(b, pages)) == 0 && StaleIn(Retired(b, pages)) == b.next
  {
    var r := Retired(b, pages);
    SumZero(IsValid, r.cells);
    BlockCounts(r, pages);
  }

  // ---- the whole collection ----

  /** Erasing a fully copied victim: `w` is the drive with all its pages taken for stale. */
  lemma EraseRetired(c: Drive, v: int)
    requires Framed(c) && 0 <= v < c.blocks && v != c.active && c.nand[v].next == c.pages
    requires Sound(Masked(c, v, c.pages))
    ensures var w, e := Masked(c, v, c.pages), Erase(c, v);
      && Sound(e) && Logical(e) == Logical(w)
      && ErasedBlocks(e) == ErasedBlocks(c) + 1
      && ValidPages(e) == ValidPages(w) && StalePages(e) == StalePages(w) - c.pages && Worn(e) == Worn(w)
      && (OpenHoldsValid(c) ==> OpenHoldsValid(e))
  {
    var w := Masked(c, v, c.pages);
    MaskedFrame(c, v, c.pages);
    RetiredCounts(c.nand[v], c.pages);
    EraseKeeps(w, v);
    EraseCounts(w, v);
    assert Erase(w, v) == Erase(c, v);
  }

  lemma MaskedNothing(d: Drive, v: int)
    requires 0 <= v < |d.nand|
    ensures Masked(d, v, 0) == d
  {
    assert Retired(d.nand[v], 0).cells == d.nand[v].cells;
    assert Masked(d, v, 0).nand == d.nand;
  }

  /** A collection that reclaims `gain` stale pages changes no LBA's value and pays one NAND write
      for each other page of the victim. */
  ghost predicate Reclaims(d: Drive, e: Drive, gain: int)
    requires Mapped(d)
  {
    && Sound(e) && Logical(e) == Logical(d)
    && StalePages(e) == StalePages(d) - gain
    && ValidPages(e) == ValidPages(d) && MappedLbas(e) == MappedLbas(d)
    && Worn(e) == Worn(d) + d.pages - gain
  }

  lemma CollectKeeps(d: Drive)
    requires CanCollect(d) && Sound(d)
    ensures Reclaims(d, Collect(d), StaleIn(d.nand[Victim(d)]))
  {
    var v := Victim(d);
    MaskedNothing(d, v);
    assert d.nand[v].cells[0..] == d.nand[v].cells;
    BlockCounts(d.nand[v], d.pages);
    CopyOutKeeps(d, v, 0);
    EraseRetired(CopyOut(d, v, 0), v);
  }

  /** The victim is the only block whose LBAs move. */
  lemma CollectMoves(d: Drive)
    requires CanCollect(d) && Sound(d)
    ensures var gain := StaleIn(d.nand[Victim(d)]);
      1 <= gain <= d.pages && Moved(d, Collect(d), Victim(d), d.pages - gain)
  {
    var v := Victim(d);
    assert d.nand[v].cells[0..] == d.nand[v].cells;
    BlockCounts(d.nand[v], d.pages);
    CopyOutMoves(d, v, 0);
  }

  lemma CopyPageErases(d: Drive, v: int, p: int, i: int)
    requires Framed(d) && 0 <= v < d.blocks && 0 <= p < d.pages && CanCopy(d, v, p) && 0 <= i < d.blocks
    ensures CopyPage(d, v, p).nand[i].erases == d.nand[i].erases
  {
    var c := d.nand[v].cells[p];
    if c.state.Valid? {
      CopyStep(d, v, p);
      ProgramPlaces(d, c.lba, c.data);
    }
  }

  /** Copying wears no block out. */
  lemma {:induction false} CopyOutErases(d: Drive, v: int, p: int, i: int)
    requires Framed(d) && 0 <= v < d.blocks && 0 <= p <= d.pages && CanCopy(d, v, p) && 0 <= i < d.blocks
    ensures CopyOut(d, v, p).nand[i].erases == d.nand[i].erases
    decreases d.pages - p
  {
    if p < d.pages {
      CopyOutPage(d, v, p);
      CopyPageErases(d, v, p, i);
      CopyOutErases(CopyPage(d, v, p), v, p + 1, i);
    }
  }

  /** A collection erases the stalest block and no other. */
  lemma CollectErases(d: Drive)
    requires CanCollect(d)
    ensures var v, e := Victim(d), Collect(d);
      && StalestFirst(d, v) && |e.nand| == d.blocks
      && |e.nand[v].cells| == d.pages && (forall p | 0 <= p < d.pages :: e.nand[v].cells[p].state.Free?)
      && e.nand[v].next == 0 && e.nand[v].erases == d.nand[v].erases + 1
      && forall i | 0 <= i < d.blocks && i != v :: e.nand[i].erases == d.nand[i].erases
  {
    VictimIsStalestFirst(d);
    forall i | 0 <= i < d.blocks
      ensures CopyOut(d, Victim(d), 0).nand[i].erases == d.nand[i].erases
    {
      CopyOutErases(d, Victim(d), 0, i);
    }
  }

  lemma CollectRoom(d: Drive)
    requires CanCollect(d) && Sound(d)
    ensures Framed(Collect(d))
    ensures ErasedBlocks(Collect(d)) >= ErasedBlocks(d)
    ensures OpenHoldsValid(d) ==> OpenHoldsValid(Collect(d))
  {
    var v := Victim(d);
    MaskedNothing(d, v);
    CopyOutKeeps(d, v, 0);
    CopyOutRoom(d, v, 0);
    EraseRetired(CopyOut(d, v, 0), v);
  }
}
