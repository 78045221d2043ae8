/** Whole host operations and whole runs of the flash translation layer. */
module FtlRuns {
  import opened Sums
  import opened FtlModel
  import opened FtlSteps
  import opened FtlCollect
  import opened FtlSpace

  // ---- a factory fresh drive ----

  lemma MakeReady(blocks: nat, pages: nat, lbas: nat, naive: bool)
    requires Geometry(blocks, pages, lbas)
    ensures var d := Make(blocks, pages, lbas, naive);
      && Ready(d) && Logical(d) == seq(lbas, _ => Zeros)
      && StalePages(d) == 0 && Worn(d) == 0 && d.hostWrites == 0 && d.nandWrites == 0
  {
    AtLeastThree(blocks, pages, lbas);
    var d := Make(blocks, pages, lbas, naive);
    SumZero(StaleIn, d.nand);
    SumZero(NextOf, d.nand);
    SumZero(ErasesOf, d.nand);
    FreshCounts(pages);
    forall b | b in d.nand
      ensures b == FreshBlock(pages, 0)
    {}
    AllErased(Others(d));
  }

  lemma {:induction false} AllErased(bs: seq<Block>)
    requires forall b | b in bs :: b.next == 0
    ensures Sum(IsErased, bs) == |bs|
  {
    if bs != [] {
      AllErased(bs[1..]);
    }
  }

  // ---- write ----

  /** `write` up to its loop: count, invalidate the old page, program the new one. */
  function Invalidated(d: Drive, lba: int): Drive
    requires 0 <= lba < |d.table| && InRange(d, d.table[lba])
  {
    var c := d.(hostWrites := d.hostWrites + 1);
    if d.table[lba].At? then MarkStale(c, d.table[lba]) else c
  }

  lemma InvalidatedIsTrim(d: Drive, lba: int)
    requires 0 <= lba < |d.table| && InRange(d, d.table[lba])
    ensures Trim(d.(hostWrites := d.hostWrites + 1), lba)
         == Invalidated(d, lba).(table := d.table[lba := Nowhere])
  {
    if d.table[lba].Nowhere? {
      assert d.table == d.table[lba := Nowhere];
    }
  }

  lemma InvalidatedFrame(d: Drive, lba: int)
    requires Framed(d) && Mapped(d) && 0 <= lba < d.lbas
    ensures Framed(Invalidated(d, lba)) && ErasedBlocks(Invalidated(d, lba)) == ErasedBlocks(d)
  {
    TrimFrame(d, lba);
    var t := Trim(d, lba);
    assert Invalidated(d, lba) == t.(table := d.table, hostWrites := d.hostWrites + 1);
  }

  ghost function WriteBody(d: Drive, lba: int, data: int): Drive
    requires Sound(d) && 0 <= lba < d.lbas && HasRoom(d)
  {
    InvalidatedFrame(d, lba);
    Program(Invalidated(d, lba), lba, data)
  }

  /** `program` does not look at the map entry it overwrites. */
  lemma ProgramForgets(i: Drive, t: Drive, lba: int, data: int)
    requires Framed(i) && HasRoom(i) && 0 <= lba < i.lbas && t == i.(table := i.table[lba := Nowhere])
    ensures Framed(t) && HasRoom(t) && Program(t, lba, data) == Program(i, lba, data)
  {
    SameChoice(t, i, |t.nand|);
    OpenedFrame(i);
    assert Opened(t) == Opened(i).(table := t.table);
    assert t.table[lba := At(Opened(i).active, i.nand[Opened(i).active].next)]
        == i.table[lba := At(Opened(i).active, i.nand[Opened(i).active].next)];
  }

  /** The body of `write` is TRIM then program. */
  lemma BodyIsRewrite(d: Drive, lba: int, data: int)
    requires Sound(d) && 0 <= lba < d.lbas && HasRoom(d)
    ensures var t := Trim(d.(hostWrites := d.hostWrites + 1), lba);
      Framed(t) && HasRoom(t) && WriteBody(d, lba, data) == Program(t, lba, data)
  {
    InvalidatedFrame(d, lba);
    InvalidatedIsTrim(d, lba);
    ProgramForgets(Invalidated(d, lba), Trim(d.(hostWrites := d.hostWrites + 1), lba), lba, data);
  }

  lemma WriteBodyKeeps(d: Drive, lba: int, data: int)
    requires Sound(d) && 0 <= lba < d.lbas && HasRoom(d)
    ensures Rewrote(d.(hostWrites := d.hostWrites + 1), WriteBody(d, lba, data), lba, data)
  {
    var c := d.(hostWrites := d.hostWrites + 1);
    assert Sound(c);
    BodyIsRewrite(d, lba, data);
    RewriteKeeps(c, lba, data);
  }

  lemma WriteBodyRoom(d: Drive, lba: int, data: int)
    requires Sound(d) && 0 <= lba < d.lbas && HasRoom(d)
    ensures var e := WriteBody(d, lba, data);
      Framed(e) && OpenHoldsValid(e) && ErasedBlocks(e) >= ErasedBlocks(d) - 1
  {
    InvalidatedFrame(d, lba);
    ProgramFrame(Invalidated(d, lba), lba, data);
  }

  lemma TurningCollects(d: Drive)
    requires Turning(d) && ErasedBlocks(d) < 2
    ensures Victim(d) != -1 && CanCollect(d)
    ensures Turning(Collect(d)) && StalePages(Collect(d)) < StalePages(d)
    ensures Collect(d) == d.(nand := Collect(d).nand, table := Collect(d).table, active := Collect(d).active,
                             nandWrites := Collect(d).nandWrites)
  {
    VictimIsStale(d, MappedLbas(d));
    VictimCollectable(d);
    CollectKeeps(d);
    CollectMoves(d);
    CollectRoom(d);
  }

  /** The loop of `write`. It is only ever entered with one erased block, and it ends. */
  ghost function Reclaim(d: Drive): (e: Drive)
    requires Turning(d)
    ensures Turning(e)
    ensures e == d.(nand := e.nand, table := e.table, active := e.active, nandWrites := e.nandWrites)
    decreases StalePages(d)
  {
    if ErasedBlocks(d) < 2 && Victim(d) != -1 then
      TurningCollects(d);
      Reclaim(Collect(d))
    else d
  }

  lemma BodyTurns(d: Drive, lba: int, data: int)
    requires Ready(d) && 0 <= lba < d.lbas
    ensures Turning(WriteBody(d, lba, data))
  {
    WriteBodyKeeps(d, lba, data);
    WriteBodyRoom(d, lba, data);
  }

  ghost function Write(d: Drive, lba: int, data: int): Drive
    requires Ready(d) && 0 <= lba < d.lbas
  {
    BodyTurns(d, lba, data);
    Reclaim(WriteBody(d, lba, data))
  }

  /** What the loop keeps; it always leaves by its first condition. */
  lemma {:induction false} ReclaimKeeps(d: Drive)
    requires Turning(d)
    ensures var e := Reclaim(d);
      && ErasedBlocks(e) >= 2
      && Logical(e) == Logical(d)
      && MappedLbas(e) == MappedLbas(d)
      && e.nandWrites >= d.nandWrites
      && e.nandWrites - d.nandWrites == Worn(e) - Worn(d)
    decreases StalePages(d)
  {
    if ErasedBlocks(d) < 2 {
      TurningCollects(d);
      CollectKeeps(d);
      CollectMoves(d);
      ReclaimKeeps(Collect(d));
    }
  }

  /** One host write on a drive that is ready: the drive is ready again, exactly one LBA reads differently. */
  lemma WriteKeeps(d: Drive, lba: int, data: int)
    requires Ready(d) && 0 <= lba < d.lbas
    ensures var e := Write(d, lba, data);
      && Ready(e)
      && Logical(e) == Logical(d)[lba := Data(data)]
      && e.hostWrites == d.hostWrites + 1
      && e.nandWrites >= d.nandWrites + 1
      && e.nandWrites - d.nandWrites == Worn(e) - Worn(d)
      && e == d.(nand := e.nand, table := e.table, active := e.active, hostWrites := e.hostWrites,
                 nandWrites := e.nandWrites)
  {
    WriteBodyKeeps(d, lba, data);
    BodyTurns(d, lba, data);
    ReclaimKeeps(WriteBody(d, lba, data));
  }

  /** The body of `write` leaves fewer than two erased blocks only by opening one, which then holds one page. */
  lemma BodyOpens(d: Drive, lba: int, data: int)
    requires Ready(d) && 0 <= lba < d.lbas
    ensures var b := WriteBody(d, lba, data);
      Turning(b) && (ErasedBlocks(b) < 2 ==> ErasedBlocks(b) == 1 && b.nand[b.active].next == 1)
  {
    BodyTurns(d, lba, data);
    InvalidatedFrame(d, lba);
    ProgramFrame(Invalidated(d, lba), lba, data);
  }

  /** A victim has a stale page, so its Valid pages fit into a block that holds one page. */
  lemma VictimFits(b: Drive)
    requires Turning(b) && ErasedBlocks(b) == 1 && b.nand[b.active].next == 1
    ensures CanCollect(b) && ValidIn(b.nand[Victim(b)]) <= b.pages - b.nand[b.active].next
  {
    TurningCollects(b);
    BlockCounts(b.nand[Victim(b)], b.pages);
  }

  lemma CollectOnce(b: Drive)
    requires Turning(b) && ErasedBlocks(b) == 1 && b.nand[b.active].next == 1
    ensures CanCollect(b) && Reclaim(b) == Collect(b)
  {
    VictimFits(b);
    TurningCollects(b);
    var v := Victim(b);
    assert b.nand[v].cells[0..] == b.nand[v].cells;
    CopyOutRoom(b, v, 0);
    EraseFrame(CopyOut(b, v, 0), v);
    assert ErasedBlocks(Collect(b)) == 2;
  }

  /** `write` collects at most once. */
  lemma WriteCollectsOnce(d: Drive, lba: int, data: int)
    requires Ready(d) && 0 <= lba < d.lbas
    ensures var b := WriteBody(d, lba, data);
      if ErasedBlocks(b) >= 2 then Write(d, lba, data) == b
      else CanCollect(b) && Write(d, lba, data) == Collect(b)
  {
    BodyOpens(d, lba, data);
    var b := WriteBody(d, lba, data);
    if ErasedBlocks(b) < 2 {
      CollectOnce(b);
    }
  }

  /** And then no copy opens a block: every `program` inside the collection finds a free page in the open one. */
  lemma CopiesFindRoom(d: Drive, lba: int, data: int, p: int)
    requires Ready(d) && 0 <= lba < d.lbas && 0 <= p < d.pages && ErasedBlocks(WriteBody(d, lba, data)) < 2
    ensures var b := WriteBody(d, lba, data);
      && CanCollect(b)
      && var c := CopiedUpTo(b, Victim(b), p);
         c.nand[Victim(b)].cells[p].state.Valid? ==> c.nand[c.active].next < c.pages
  {
    BodyOpens(d, lba, data);
    var b := WriteBody(d, lba, data);
    VictimFits(b);
    CopiesFit(b, Victim(b), p);
    ValidFrom(b.nand[Victim(b)].cells, p);
  }

  /** A collection now would reclaim `gain` pages at least. */
  ghost predicate Yields(b: Drive, gain: int)
    requires Framed(b)
  {
    gain <= b.pages
    && (ErasedBlocks(b) < 2 ==> 0 <= Victim(b) < b.blocks && gain <= StaleIn(b.nand[Victim(b)]))
  }

  lemma YieldsOne(b: Drive)
    requires Turning(b)
    ensures Yields(b, 1)
  {
    if ErasedBlocks(b) < 2 {
      TurningCollects(b);
    }
  }

  lemma ReclaimCosts(b: Drive, gain: int)
    requires Turning(b) && Yields(b, gain)
    requires ErasedBlocks(b) < 2 ==> ErasedBlocks(b) == 1 && b.nand[b.active].next == 1
    ensures Reclaim(b).nandWrites <= b.nandWrites + b.pages - gain
  {
    if ErasedBlocks(b) < 2 {
      CollectOnce(b);
      CollectMoves(b);
    }
  }

  lemma BodyCosts(d: Drive, lba: int, data: int)
    requires Ready(d) && 0 <= lba < d.lbas
    ensures WriteBody(d, lba, data).nandWrites == d.nandWrites + 1 && WriteBody(d, lba, data).pages == d.pages
  {
    WriteBodyKeeps(d, lba, data);
  }

  /** One host write programs at most as many pages as a block has: one for the data, and what the only
      collection could not reclaim. */
  lemma WriteCosts(d: Drive, lba: int, data: int)
    requires Ready(d) && 0 <= lba < d.lbas
    ensures Write(d, lba, data).nandWrites <= d.nandWrites + d.pages
  {
    BodyOpens(d, lba, data);
    BodyCosts(d, lba, data);
    YieldsOne(WriteBody(d, lba, data));
    ReclaimCosts(WriteBody(d, lba, data), 1);
  }

  lemma TrimReady(d: Drive, lba: int)
    requires Ready(d) && 0 <= lba < d.lbas
    ensures var e := Trim(d, lba);
      && Ready(e) && Logical(e) == Logical(d)[lba := Zeros] && Worn(e) == Worn(d)
      && e == d.(nand := e.nand, table := e.table)
  {
    TrimKeeps(d, lba);
    TrimCounts(d, lba);
  }

  // ---- the potential that pays for the copies ----

  /** NAND writes at `s` each, plus what the stale pages still owe, minus `pages` for each host write. */
  function Balance(s: int, pages: int, nandWrites: int, stale: int, hostWrites: int): int {
    s * nandWrites + (pages - s) * stale - pages * hostWrites
  }

  function Potential(d: Drive, s: int): int {
    Balance(s, d.pages, d.nandWrites, StalePages(d), d.hostWrites)
  }

  /** Getting from `d` to `e` cost the potential `cost` at most. */
  ghost predicate Paid(d: Drive, e: Drive, s: int, cost: int) {
    Potential(e, s) <= Potential(d, s) + cost
  }

  lemma PaidThen(d: Drive, e: Drive, f: Drive, s: int, cost: int, more: int, both: int)
    requires Paid(d, e, s, cost) && Paid(e, f, s, more) && both == cost + more
    ensures Paid(d, f, s, both)
  {}

  /** A collection that reclaims `x >= s` of `p` pages. */
  lemma Trade(s: int, p: int, w: int, t: int, h: int, x: int)
    requires s <= x && 0 <= p
    ensures Balance(s, p, w + p - x, t - x, h) <= Balance(s, p, w, t, h)
  {
    assert s * (w + p - x) == s * w + s * p - s * x;
    assert (p - s) * (t - x) == (p - s) * t - (p - s) * x;
    assert (p - s) * x == p * x - s * x;
    assert p * s <= p * x;
  }

  /** A host write, `m` is 1 when it makes a page stale. */
  lemma Charge(s: int, p: int, w: int, t: int, h: int, m: int)
    requires 0 <= m <= 1 && s <= p
    ensures Balance(s, p, w + 1, t + m, h + 1) <= Balance(s, p, w, t, h)
  {
    assert s * (w + 1) == s * w + s;
    assert p * (h + 1) == p * h + p;
    assert (p - s) * (t + m) == (p - s) * t + (p - s) * m;
    assert (p - s) * m <= p - s;
  }

  lemma Discard(s: int, p: int, w: int, t: int, h: int, m: int)
    ensures Balance(s, p, w, t + m, h) == Balance(s, p, w, t, h) + (p - s) * m
  {
    assert (p - s) * (t + m) == (p - s) * t + (p - s) * m;
  }

  lemma CollectPays(d: Drive, s: int)
    requires CanCollect(d) && Sound(d) && StaleIn(d.nand[Victim(d)]) >= s
    ensures Paid(d, Collect(d), s, 0)
  {
    CollectKeeps(d);
    CollectMoves(d);
    Trade(s, d.pages, d.nandWrites, StalePages(d), d.hostWrites, StaleIn(d.nand[Victim(d)]));
  }

  /** Every collection inside `write` reclaims at least `s` pages while at most `u` LBAs are mapped. */
  ghost predicate Reclaimable(blocks: int, pages: int, u: int, s: int) {
    && s <= pages
    && forall d: Drive {:trigger Turning(d)} | d.blocks == blocks && d.pages == pages && Turning(d)
         && ErasedBlocks(d) < 2 && MappedLbas(d) <= u :: Victim(d) != -1 && s <= StaleIn(d.nand[Victim(d)])
  }

  lemma YieldIsReclaimable(blocks: int, pages: int, u: int)
    requires blocks > 2 && 1 <= u
    ensures Reclaimable(blocks, pages, u, Yield(blocks, pages, u))
  {
    forall d: Drive | d.blocks == blocks && d.pages == pages && Turning(d)
      && ErasedBlocks(d) < 2 && MappedLbas(d) <= u
      ensures Victim(d) != -1 && Yield(blocks, pages, u) <= StaleIn(d.nand[Victim(d)])
    {
      VictimIsStale(d, u);
    }
  }

  lemma {:induction false} ReclaimPays(d: Drive, u: int, s: int)
    requires Turning(d) && MappedLbas(d) <= u && Reclaimable(d.blocks, d.pages, u, s)
    ensures Paid(d, Reclaim(d), s, 0)
    decreases StalePages(d)
  {
    if ErasedBlocks(d) < 2 {
      TurningCollects(d);
      CollectPays(d, s);
      CollectKeeps(d);
      ReclaimPays(Collect(d), u, s);
      PaidThen(d, Collect(d), Reclaim(d), s, 0, 0, 0);
    }
  }

  lemma ChargeDrive(d: Drive, e: Drive, s: int, m: int)
    requires 0 <= m <= 1 && s <= d.pages == e.pages
    requires e.nandWrites == d.nandWrites + 1 && e.hostWrites == d.hostWrites + 1 && StalePages(e) == StalePages(d) + m
    ensures Paid(d, e, s, 0)
  {
    Charge(s, d.pages, d.nandWrites, StalePages(d), d.hostWrites, m);
  }

  lemma BodyPays(d: Drive, lba: int, data: int, s: int)
    requires Ready(d) && 0 <= lba < d.lbas && s <= d.pages
    ensures Paid(d, WriteBody(d, lba, data), s, 0)
  {
    WriteBodyKeeps(d, lba, data);
    ChargeDrive(d, WriteBody(d, lba, data), s, IsMapped(d.table[lba]));
  }

  lemma WritePays(d: Drive, lba: int, data: int, u: int, s: int)
    requires Ready(d) && 0 <= lba < d.lbas && Reclaimable(d.blocks, d.pages, u, s)
    requires MappedLbas(Write(d, lba, data)) <= u
    ensures Paid(d, Write(d, lba, data), s, 0)
  {
    BodyTurns(d, lba, data);
    BodyFields(d, lba, data);
    ReclaimMapped(WriteBody(d, lba, data));
    ReclaimPays(WriteBody(d, lba, data), u, s);
    BodyPays(d, lba, data, s);
    PaidThen(d, WriteBody(d, lba, data), Write(d, lba, data), s, 0, 0, 0);
  }

  lemma ReclaimMapped(d: Drive)
    requires Turning(d)
    ensures MappedLbas(Reclaim(d)) == MappedLbas(d)
  {
    ReclaimKeeps(d);
  }

  lemma BodyYields(b: Drive, u: int, s: int)
    requires Turning(b) && MappedLbas(b) <= u && Reclaimable(b.blocks, b.pages, u, s)
    ensures Yields(b, s)
  {}

  /** With at most `u` LBAs mapped the write costs 1 + pages - s. */
  lemma WriteCostsLess(d: Drive, lba: int, data: int, u: int, s: int)
    requires Ready(d) && 0 <= lba < d.lbas && Reclaimable(d.blocks, d.pages, u, s)
    requires MappedLbas(Write(d, lba, data)) <= u
    ensures Write(d, lba, data).nandWrites <= d.nandWrites + 1 + d.pages - s
  {
    BodyOpens(d, lba, data);
    BodyCosts(d, lba, data);
    BodyFields(d, lba, data);
    ReclaimMapped(WriteBody(d, lba, data));
    BodyYields(WriteBody(d, lba, data), u, s);
    ReclaimCosts(WriteBody(d, lba, data), s);
  }

  lemma BodyFields(d: Drive, lba: int, data: int)
    requires Ready(d) && 0 <= lba < d.lbas
    ensures WriteBody(d, lba, data).blocks == d.blocks && WriteBody(d, lba, data).pages == d.pages
  {}

  lemma TrimPays(d: Drive, lba: int, s: int)
    requires Ready(d) && 0 <= lba < d.lbas
    ensures Paid(d, Trim(d, lba), s, if d.table[lba].At? then d.pages - s else 0)
  {
    TrimCounts(d, lba);
    TrimReady(d, lba);
    Discard(s, d.pages, d.nandWrites, StalePages(d), d.hostWrites, IsMapped(d.table[lba]));
  }
}
