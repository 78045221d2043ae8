/** Theorems about every run of host writes and TRIMs, from a factory fresh drive or from any ready one. */
module FtlTheorems {
  import opened Arithmetic
  import opened Sums
  import opened FtlModel
  import opened FtlSteps
  import opened FtlCollect
  import opened FtlSpace
  import opened FtlRuns

  datatype HostOp = WriteOp(lba: int, data: int) | TrimOp(lba: int)

  ghost predicate OpsFit(ops: seq<HostOp>, lbas: int) {
    forall i | 0 <= i < |ops| :: 0 <= ops[i].lba < lbas
  }

  // ---- the reference: a plain map from LBA to content, and counts over the operations ----

  function PlainStep(s: seq<Content>, op: HostOp): seq<Content>
    requires 0 <= op.lba < |s|
  {
    match op
    case WriteOp(lba, data) => s[lba := Data(data)]
    case TrimOp(lba) => s[lba := Zeros]
  }

  ghost function PlainRun(s: seq<Content>, ops: seq<HostOp>): (r: seq<Content>)
    requires OpsFit(ops, |s|)
    ensures |r| == |s|
  {
    if ops == [] then s
    else PlainStep(PlainRun(s, ops[..|ops| - 1]), ops[|ops| - 1])
  }

  function HoldsData(c: Content): nat { if c.Data? then 1 else 0 }

  /** LBAs that hold data never exceed `u` along the run. */
  ghost predicate Within(s: seq<Content>, ops: seq<HostOp>, u: int)
    requires OpsFit(ops, |s|)
  {
    Sum(HoldsData, PlainRun(s, ops)) <= u && (ops != [] ==> Within(s, ops[..|ops| - 1], u))
  }

  ghost function Writes(ops: seq<HostOp>): nat {
    if ops == [] then 0
    else Writes(ops[..|ops| - 1]) + if ops[|ops| - 1].WriteOp? then 1 else 0
  }

  /** TRIMs that discard data; TRIM of an LBA that holds none returns at once. */
  ghost function EffectiveTrims(s: seq<Content>, ops: seq<HostOp>): nat
    requires OpsFit(ops, |s|)
  {
    if ops == [] then 0
    else
      var before, op := ops[..|ops| - 1], ops[|ops| - 1];
      EffectiveTrims(s, before) + if op.TrimOp? then HoldsData(PlainRun(s, before)[op.lba]) else 0
  }

  // ---- runs of the drive ----

  ghost predicate SameGeometry(d: Drive, e: Drive) {
    d.blocks == e.blocks && d.pages == e.pages && d.lbas == e.lbas && d.naive == e.naive
  }

  ghost function Step(d: Drive, op: HostOp): (e: Drive)
    requires Ready(d) && 0 <= op.lba < d.lbas
    ensures Ready(e) && SameGeometry(d, e)
  {
    match op
    case WriteOp(lba, data) =>
      WriteKeeps(d, lba, data);
      Write(d, lba, data)
    case TrimOp(lba) =>
      TrimReady(d, lba);
      Trim(d, lba)
  }

  /** Every operation of every run finds the drive ready and leaves it ready: two spare erased blocks,
      `write` leaving its loop by the first condition, and `program` always given a block. */
  ghost function Run(d: Drive, ops: seq<HostOp>): (e: Drive)
    requires Ready(d) && OpsFit(ops, d.lbas)
    ensures Ready(e) && SameGeometry(d, e)
  {
    if ops == [] then d
    else
      Step(Run(d, ops[..|ops| - 1]), ops[|ops| - 1])
  }

  /** The drive refines a plain map: after any run every LBA reads as its latest write left it, and as
      zeros when it was never written or was trimmed since. */
  lemma {:induction false} RunRefines(d: Drive, ops: seq<HostOp>)
    requires Ready(d) && OpsFit(ops, d.lbas)
    ensures Logical(Run(d, ops)) == PlainRun(Logical(d), ops)
    decreases |ops|
  {
    if ops != [] {
      var before, op := ops[..|ops| - 1], ops[|ops| - 1];
      RunRefines(d, before);
      match op
      case WriteOp(lba, data) => WriteKeeps(Run(d, before), lba, data);
      case TrimOp(lba) => TrimReady(Run(d, before), lba);
    }
  }

  /** Every WriteOp is one host write and at least one NAND write. */
  lemma {:induction false} RunCounts(d: Drive, ops: seq<HostOp>)
    requires Ready(d) && OpsFit(ops, d.lbas)
    ensures Run(d, ops).hostWrites == d.hostWrites + Writes(ops)
    ensures Run(d, ops).nandWrites >= d.nandWrites + Writes(ops)
    decreases |ops|
  {
    if ops != [] {
      var before, op := ops[..|ops| - 1], ops[|ops| - 1];
      RunCounts(d, before);
      match op
      case WriteOp(lba, data) => WriteKeeps(Run(d, before), lba, data);
      case TrimOp(lba) => TrimReady(Run(d, before), lba);
    }
  }

  /** Conservation: the pages programmed are the pages in use plus those that were erased. */
  lemma {:induction false} RunConserves(d: Drive, ops: seq<HostOp>)
    requires Ready(d) && OpsFit(ops, d.lbas)
    ensures Run(d, ops).nandWrites - d.nandWrites == Worn(Run(d, ops)) - Worn(d)
    decreases |ops|
  {
    if ops != [] {
      var before, op := ops[..|ops| - 1], ops[|ops| - 1];
      RunConserves(d, before);
      match op
      case WriteOp(lba, data) => WriteKeeps(Run(d, before), lba, data);
      case TrimOp(lba) => TrimReady(Run(d, before), lba);
    }
  }

  lemma MappedIsData(d: Drive)
    requires Mapped(d)
    ensures MappedLbas(d) == Sum(HoldsData, Logical(d))
  {
    SumSame(IsMapped, d.table, HoldsData, Logical(d));
  }

  /** What the effective TRIMs of a run cost at `c` each. */
  ghost function TrimCost(s: seq<Content>, ops: seq<HostOp>, c: int): int
    requires OpsFit(ops, |s|)
  {
    if ops == [] then 0
    else
      var before, op := ops[..|ops| - 1], ops[|ops| - 1];
      TrimCost(s, before, c) + if op.TrimOp? && PlainRun(s, before)[op.lba].Data? then c else 0
  }

  lemma {:induction false} TrimCostIsProduct(s: seq<Content>, ops: seq<HostOp>, c: int)
    requires OpsFit(ops, |s|)
    ensures TrimCost(s, ops, c) == c * EffectiveTrims(s, ops)
    decreases |ops|
  {
    if ops != [] {
      TrimCostIsProduct(s, ops[..|ops| - 1], c);
    }
  }

  lemma StepPays(d: Drive, op: HostOp, u: int, s: int)
    requires Ready(d) && 0 <= op.lba < d.lbas && Reclaimable(d.blocks, d.pages, u, s)
    requires Sum(HoldsData, Logical(Step(d, op))) <= u
    ensures Paid(d, Step(d, op), s, if op.TrimOp? && Logical(d)[op.lba].Data? then d.pages - s else 0)
  {
    MappedIsData(Step(d, op));
    match op
    case WriteOp(lba, data) => WritePays(d, lba, data, u, s);
    case TrimOp(lba) => TrimPays(d, lba, s);
  }

  lemma {:induction false} RunPays(d: Drive, ops: seq<HostOp>, u: int, s: int, c: int)
    requires Ready(d) && OpsFit(ops, d.lbas) && Within(Logical(d), ops, u)
    requires Reclaimable(d.blocks, d.pages, u, s) && c == d.pages - s
    ensures Paid(d, Run(d, ops), s, TrimCost(Logical(d), ops, c))
    decreases |ops|
  {
    if ops != [] {
      var before, op := ops[..|ops| - 1], ops[|ops| - 1];
      RunPays(d, before, u, s, c);
      RunRefines(d, before);
      RunRefines(d, ops);
      StepPays(Run(d, before), op, u, s);
      PaidThen(d, Run(d, before), Run(d, ops), s, TrimCost(Logical(d), before, c),
               if op.TrimOp? && PlainRun(Logical(d), before)[op.lba].Data? then c else 0,
               TrimCost(Logical(d), ops, c));
    }
  }

  /** From `d` to `e`, `host` host writes and `trims` effective TRIMs pay for the NAND writes:
      s * NAND <= pages * host + (pages - s) * (trims + the stale pages `d` began with). */
  ghost predicate Amplified(s: int, d: Drive, e: Drive, host: int, trims: int) {
    s * (e.nandWrites - d.nandWrites) <= d.pages * host + (d.pages - s) * (StalePages(d) + trims)
  }

  lemma Settle(s: int, p: int, w: int, w': int, t: int, t': int, h: int, h': int, n: int, trims: int, cost: int)
    requires Balance(s, p, w', t', h') <= Balance(s, p, w, t, h) + cost
    requires s <= p && 0 <= t' && h' == h + n && cost == (p - s) * trims
    ensures s * (w' - w) <= p * n + (p - s) * (t + trims)
  {
    Distribute(s, w, w' - w);
    Distribute(p, h, n);
    Distribute(p - s, t, trims);
    assert 0 <= (p - s) * t';
  }

  lemma SettleRun(d: Drive, e: Drive, s: int, n: int, c: seq<Content>, ops: seq<HostOp>, each: int)
    requires OpsFit(ops, |c|) && Paid(d, e, s, TrimCost(c, ops, each)) && each == d.pages - s
    requires e.pages == d.pages && 0 <= each && e.hostWrites == d.hostWrites + n
    ensures Amplified(s, d, e, n, EffectiveTrims(c, ops))
  {
    var cost := TrimCost(c, ops, each);
    TrimCostIsProduct(c, ops, each);
    Settle(s, d.pages, d.nandWrites, e.nandWrites, StalePages(d), StalePages(e), d.hostWrites, e.hostWrites, n,
           EffectiveTrims(c, ops), cost);
  }

  /** Write amplification of a drive with counters at any value: over-provisioning pays for the copies. */
  lemma WriteAmplificationFrom(d: Drive, ops: seq<HostOp>, u: int, s: int)
    requires Ready(d) && OpsFit(ops, d.lbas) && Within(Logical(d), ops, u) && Reclaimable(d.blocks, d.pages, u, s)
    ensures Amplified(s, d, Run(d, ops), Writes(ops), EffectiveTrims(Logical(d), ops))
  {
    var each := d.pages - s;
    RunPays(d, ops, u, s, each);
    RunCounts(d, ops);
    SettleRun(d, Run(d, ops), s, Writes(ops), Logical(d), ops, each);
  }

  /** From a factory fresh drive, with at most `u` LBAs in use. As long as there are no more LBAs in use
      than blocks to spare, every NAND write is a host write. */
  lemma WriteAmplification(blocks: nat, pages: nat, lbas: nat, naive: bool, ops: seq<HostOp>, u: int)
    requires Geometry(blocks, pages, lbas) && OpsFit(ops, lbas) && 1 <= u
    requires Within(seq(lbas, _ => Zeros), ops, u)
    ensures blocks > 2 && Ready(Make(blocks, pages, lbas, naive))
    ensures var d := Make(blocks, pages, lbas, naive);
      && StalePages(d) == 0 && d.nandWrites == 0
      && Run(d, ops).hostWrites == Writes(ops) <= Run(d, ops).nandWrites
      && Amplified(Yield(blocks, pages, u), d, Run(d, ops), Writes(ops), EffectiveTrims(Logical(d), ops))
      && (u <= blocks - 2 ==> Run(d, ops).nandWrites == Writes(ops))
  {
    AtLeastThree(blocks, pages, lbas);
    MakeReady(blocks, pages, lbas, naive);
    var d := Make(blocks, pages, lbas, naive);
    YieldIsReclaimable(blocks, pages, u);
    WriteAmplificationFrom(d, ops, u, Yield(blocks, pages, u));
    RunCounts(d, ops);
    NoCopies(d, Run(d, ops), u, Writes(ops), EffectiveTrims(Logical(d), ops));
  }

  lemma NoCopies(d: Drive, e: Drive, u: int, host: int, trims: int)
    requires d.blocks > 2 && 1 <= d.pages && 1 <= u && host <= e.nandWrites && d.nandWrites == 0
    requires Amplified(Yield(d.blocks, d.pages, u), d, e, host, trims)
    ensures u <= d.blocks - 2 ==> e.nandWrites == host
  {
    if u <= d.blocks - 2 {
      assert Yield(d.blocks, d.pages, u) == d.pages;
      assert d.pages * (e.nandWrites - host) <= 0;
    }
  }

  /** Every reachable state passes `consistent`, and the flash accounts for every page ever programmed. */
  lemma ReachableState(blocks: nat, pages: nat, lbas: nat, naive: bool, ops: seq<HostOp>)
    requires Geometry(blocks, pages, lbas) && OpsFit(ops, lbas)
    ensures Ready(Make(blocks, pages, lbas, naive))
    ensures var e := Run(Make(blocks, pages, lbas, naive), ops);
      && Sound(e) && ErasedBlocks(e) >= 2 && ValidPages(e) == MappedLbas(e)
      && Logical(e) == PlainRun(seq(lbas, _ => Zeros), ops)
      && e.nandWrites == Sum(NextOf, e.nand) + pages * Sum(ErasesOf, e.nand)
  {
    MakeReady(blocks, pages, lbas, naive);
    var d := Make(blocks, pages, lbas, naive);
    RunRefines(d, ops);
    RunConserves(d, ops);
    ValidIsMapped(Run(d, ops));
  }

  /** The geometry is tight: two spare erased blocks leave room for (blocks - 2) * pages mapped LBAs and no more. */
  lemma GeometryIsTight(d: Drive)
    requires Sound(d) && ErasedBlocks(d) >= 2
    ensures MappedLbas(d) <= (d.blocks - 2) * d.pages
  {
    forall i | 0 <= i < d.blocks && i != d.active
      ensures StaleIn(d.nand[i]) <= d.pages
    {
      BlockCounts(d.nand[i], d.pages);
    }
    OthersSealed(d, d.pages);
    Crowd(Others(d), d.pages, d.pages);
    SumWithout(ValidIn, d.nand, d.active);
    BlockCounts(d.nand[d.active], d.pages);
    ValidIsMapped(d);
    FillOf(d.pages, d.blocks - 1 - ErasedBlocks(d), d.blocks - 2);
  }

  lemma FillOf(pages: int, sealed: int, most: int)
    requires 0 <= pages && sealed + 1 <= most
    ensures pages * sealed + pages <= most * pages
  {
    Distribute(pages, sealed, 1);
    assert pages * (sealed + 1) <= pages * most;
  }

  /** What never running out of space means for one write on drive `d`: `program` is given a block when the open
      one is full; the write collects at most once; every copy of that collection finds a free page in the
      open block; two blocks are erased at the end. */
  ghost predicate NeverStuck(d: Drive, lba: int, data: int)
    requires Ready(d) && 0 <= lba < d.lbas
  {
    var i, b, e := Invalidated(d, lba), WriteBody(d, lba, data), Write(d, lba, data);
    && 0 <= i.active < |i.nand| && (i.nand[i.active].next == d.pages ==> 0 <= ErasedBlock(i) < d.blocks)
    && Ready(e) && (e == b || (CanCollect(b) && e == Collect(b) && AllCopiesFit(b)))
  }

  /** Before each copy out of the victim, the open block has a free page. */
  ghost predicate AllCopiesFit(b: Drive)
    requires CanCollect(b)
  {
    forall p | 0 <= p < b.pages && b.nand[Victim(b)].cells[p].state.Valid? ::
      var c := CopiedUpTo(b, Victim(b), p);
      && CopyOut(c, Victim(b), p) == CopyOut(b, Victim(b), 0)
      && 0 <= c.active < c.blocks && c.nand[c.active].next < b.pages
  }

  lemma CopiesAllFit(d: Drive, lba: int, data: int)
    requires Ready(d) && 0 <= lba < d.lbas && ErasedBlocks(WriteBody(d, lba, data)) < 2
    ensures CanCollect(WriteBody(d, lba, data)) && AllCopiesFit(WriteBody(d, lba, data))
  {
    WriteCollectsOnce(d, lba, data);
    var b := WriteBody(d, lba, data);
    forall p | 0 <= p < b.pages && b.nand[Victim(b)].cells[p].state.Valid?
      ensures CopyOut(CopiedUpTo(b, Victim(b), p), Victim(b), p) == CopyOut(b, Victim(b), 0)
      ensures var c := CopiedUpTo(b, Victim(b), p); 0 <= c.active < c.blocks && c.nand[c.active].next < b.pages
    {
      CopiesFindRoom(d, lba, data, p);
      CopiedThenOut(b, Victim(b), p);
    }
  }

  lemma WriteNeverStuck(d: Drive, lba: int, data: int)
    requires Ready(d) && 0 <= lba < d.lbas
    ensures NeverStuck(d, lba, data)
  {
    InvalidatedFrame(d, lba);
    ErasedBlockFound(Invalidated(d, lba));
    WriteKeeps(d, lba, data);
    WriteCollectsOnce(d, lba, data);
    if ErasedBlocks(WriteBody(d, lba, data)) < 2 {
      CopiesAllFit(d, lba, data);
    }
  }

  /** The drive never runs out of space, after any run on any geometry. */
  lemma NeverOutOfSpace(blocks: nat, pages: nat, lbas: nat, naive: bool, ops: seq<HostOp>, lba: int, data: int)
    requires Geometry(blocks, pages, lbas) && OpsFit(ops, lbas) && 0 <= lba < lbas
    ensures Ready(Make(blocks, pages, lbas, naive))
    ensures NeverStuck(Run(Make(blocks, pages, lbas, naive), ops), lba, data)
  {
    MakeReady(blocks, pages, lbas, naive);
    WriteNeverStuck(Run(Make(blocks, pages, lbas, naive), ops), lba, data);
  }

  // ---- the price of the worst write ----

  lemma StepCosts(d: Drive, op: HostOp, u: int, s: int)
    requires Ready(d) && 0 <= op.lba < d.lbas && Reclaimable(d.blocks, d.pages, u, s)
    requires Sum(HoldsData, Logical(Step(d, op))) <= u
    ensures Step(d, op).nandWrites <= d.nandWrites + if op.WriteOp? then 1 + d.pages - s else 0
  {
    MappedIsData(Step(d, op));
    match op
    case WriteOp(lba, data) => WriteCostsLess(d, lba, data, u, s);
    case TrimOp(lba) => TrimReady(d, lba);
  }

  /** From `d` to `e`, `writes` host writes cost `each` NAND writes at most. */
  ghost predicate Priced(d: Drive, e: Drive, each: int, writes: int) {
    e.nandWrites <= d.nandWrites + each * writes
  }

  lemma PricedThen(d: Drive, e: Drive, f: Drive, each: int, writes: int, isWrite: bool, total: int)
    requires Priced(d, e, each, writes) && f.nandWrites <= e.nandWrites + if isWrite then each else 0
    requires total == writes + if isWrite then 1 else 0
    ensures Priced(d, f, each, total)
  {
    Distribute(each, writes, 1);
  }

  lemma {:induction false} RunPriced(d: Drive, ops: seq<HostOp>, u: int, s: int, each: int)
    requires Ready(d) && OpsFit(ops, d.lbas) && Within(Logical(d), ops, u)
    requires Reclaimable(d.blocks, d.pages, u, s) && each == 1 + d.pages - s
    ensures Priced(d, Run(d, ops), each, Writes(ops))
    decreases |ops|
  {
    if ops != [] {
      var before, op := ops[..|ops| - 1], ops[|ops| - 1];
      RunPriced(d, before, u, s, each);
      RunRefines(d, ops);
      StepCosts(Run(d, before), op, u, s);
      PricedThen(d, Run(d, before), Run(d, ops), each, Writes(before), op.WriteOp?, Writes(ops));
    }
  }

  /** No TRIM makes a write dearer: each costs 1 + pages - s NAND writes at most, from any ready drive. */
  lemma EachWriteCosts(d: Drive, ops: seq<HostOp>, u: int, s: int)
    requires Ready(d) && OpsFit(ops, d.lbas) && Within(Logical(d), ops, u) && Reclaimable(d.blocks, d.pages, u, s)
    ensures Run(d, ops).nandWrites <= d.nandWrites + (1 + d.pages - s) * Writes(ops)
  {
    RunPriced(d, ops, u, s, 1 + d.pages - s);
  }

  /** From a factory fresh drive: the worst case with TRIM, beside WriteAmplification. */
  lemma WorstAmplification(blocks: nat, pages: nat, lbas: nat, naive: bool, ops: seq<HostOp>, u: int)
    requires Geometry(blocks, pages, lbas) && OpsFit(ops, lbas) && 1 <= u
    requires Within(seq(lbas, _ => Zeros), ops, u)
    ensures blocks > 2 && Ready(Make(blocks, pages, lbas, naive))
    ensures Run(Make(blocks, pages, lbas, naive), ops).nandWrites <= (1 + pages - Yield(blocks, pages, u)) * Writes(ops)
  {
    AtLeastThree(blocks, pages, lbas);
    MakeReady(blocks, pages, lbas, naive);
    YieldIsReclaimable(blocks, pages, u);
    EachWriteCosts(Make(blocks, pages, lbas, naive), ops, u, Yield(blocks, pages, u));
  }

  /** No other filled block would have cost the collection fewer copies, and the choice is the only one
      that meets the rule. */
  lemma GreedyIsOptimal(d: Drive, v: int, i: int)
    requires Framed(d) && VictimChoice(d, d.blocks, v) && v != -1
    requires 0 <= i < d.blocks && i != d.active && d.nand[i].next == d.pages
    ensures ValidIn(d.nand[v]) <= ValidIn(d.nand[i])
    ensures v == Victim(d)
  {
    BlockCounts(d.nand[v], d.pages);
    BlockCounts(d.nand[i], d.pages);
    assert v != i ==> Richer(d, v, i);
    var w := Victim(d);
    assert w != -1 && w != v ==> Richer(d, v, w) && Richer(d, w, v);
  }
}
