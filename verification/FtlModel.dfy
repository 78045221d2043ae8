/** The flash translation layer as values: what each routine of the C model does to the drive.
    The map holds a location instead of a page number, the class in Ftl.dfy does that arithmetic.
    A page carries its user data, which the C model leaves implicit. */
module FtlModel {
  import opened Sums

  datatype PageState = Free | Valid | Stale

  datatype Cell = Cell(state: PageState, lba: int, data: int)

  datatype Block = Block(cells: seq<Cell>, next: int, erases: int)

  /** Where the map sends an LBA: the C value -1, or page `page` of block `block`. */
  datatype Loc = Nowhere | At(block: int, page: int)

  datatype Drive = Drive(
    blocks: int, pages: int, lbas: int, naive: bool,
    nand: seq<Block>, table: seq<Loc>, active: int,
    hostWrites: int, nandWrites: int)

  // ---- counting pages and blocks ----

  function IsValid(c: Cell): nat { if c.state.Valid? then 1 else 0 }

  function IsStale(c: Cell): nat { if c.state.Stale? then 1 else 0 }

  function ValidIn(b: Block): nat { Sum(IsValid, b.cells) }

  function StaleIn(b: Block): nat { Sum(IsStale, b.cells) }

  function IsErased(b: Block): nat { if b.next == 0 then 1 else 0 }

  function NextOf(b: Block): nat { if b.next < 0 then 0 else b.next }

  function ErasesOf(b: Block): nat { if b.erases < 0 then 0 else b.erases }

  function IsMapped(l: Loc): nat { if l.At? then 1 else 0 }

  function ValidPages(d: Drive): nat { Sum(ValidIn, d.nand) }

  function StalePages(d: Drive): nat { Sum(StaleIn, d.nand) }

  function MappedLbas(d: Drive): nat { Sum(IsMapped, d.table) }

  /** The blocks other than the open one. */
  function Others(d: Drive): seq<Block>
    requires 0 <= d.active < |d.nand|
  {
    Without(d.nand, d.active)
  }

  function ErasedBlocks(d: Drive): nat
    requires 0 <= d.active < |d.nand|
  {
    Sum(IsErased, Others(d))
  }

  // ---- what every state keeps ----

  ghost predicate BlockOk(b: Block, pages: int) {
    && |b.cells| == pages
    && 0 <= b.next <= pages
    && 0 <= b.erases
    && forall p | 0 <= p < pages :: b.cells[p].state.Free? <==> b.next <= p
  }

  /** Pages are programmed in order, and only the open block may be partly programmed. */
  ghost predicate Framed(d: Drive) {
    && 1 <= d.pages && 1 <= d.lbas
    && |d.nand| == d.blocks && |d.table| == d.lbas
    && 0 <= d.active < d.blocks
    && (forall i | 0 <= i < d.blocks :: BlockOk(d.nand[i], d.pages))
    && (forall i | 0 <= i < d.blocks && i != d.active :: d.nand[i].next == 0 || d.nand[i].next == d.pages)
  }

  ghost predicate InRange(d: Drive, l: Loc) {
    l.At? ==> 0 <= l.block < |d.nand| && 0 <= l.page < |d.nand[l.block].cells|
  }

  /** The map leads only to Valid pages whose reverse entry agrees. */
  ghost predicate Mapped(d: Drive) {
    forall l | 0 <= l < |d.table| && d.table[l].At? ::
      && InRange(d, d.table[l])
      && d.nand[d.table[l].block].cells[d.table[l].page].state.Valid?
      && d.nand[d.table[l].block].cells[d.table[l].page].lba == l
  }

  /** Every Valid page is the page its LBA is mapped to. */
  ghost predicate Owned(d: Drive) {
    forall i, p | 0 <= i < |d.nand| && 0 <= p < |d.nand[i].cells| && d.nand[i].cells[p].state.Valid? ::
      && 0 <= d.nand[i].cells[p].lba < |d.table|
      && d.table[d.nand[i].cells[p].lba] == At(i, p)
  }

  ghost predicate Sound(d: Drive) {
    Framed(d) && Mapped(d) && Owned(d)
  }

  ghost predicate OpenHoldsValid(d: Drive)
    requires Framed(d)
  {
    ValidIn(d.nand[d.active]) >= 1
  }

  /** The geometry the drive is built for: two blocks' worth of pages are never offered to the host. */
  ghost predicate Geometry(blocks: int, pages: int, lbas: int) {
    1 <= pages && 1 <= lbas <= (blocks - 2) * pages
  }

  /** Between two host operations. */
  ghost predicate Ready(d: Drive) {
    Geometry(d.blocks, d.pages, d.lbas) && Sound(d) && ErasedBlocks(d) >= 2
  }

  /** Inside `write`, each time the loop condition is evaluated. */
  ghost predicate Turning(d: Drive) {
    Geometry(d.blocks, d.pages, d.lbas) && Sound(d) && ErasedBlocks(d) >= 1 && OpenHoldsValid(d)
  }

  // ---- choosing a block ----

  ghost predicate Better(naive: bool, d: Drive, v: int, i: int)
    requires 0 <= v < |d.nand| && 0 <= i < |d.nand|
  {
    if naive then v < i
    else d.nand[v].erases < d.nand[i].erases || (d.nand[v].erases == d.nand[i].erases && v < i)
  }

  ghost predicate Spare(d: Drive, i: int)
    requires 0 <= i < |d.nand|
  {
    i != d.active && d.nand[i].next == 0
  }

  /** `v` is what `erased_block` holds after looking at the first `n` blocks. */
  ghost predicate ErasedChoice(d: Drive, n: int, v: int)
    requires n <= |d.nand|
  {
    if v == -1 then
      forall i | 0 <= i < n :: !Spare(d, i)
    else
      && 0 <= v < n && Spare(d, v)
      && forall i | 0 <= i < n && i != v && Spare(d, i) :: Better(d.naive, d, v, i)
  }

  ghost function ErasedBlockUpTo(d: Drive, n: int): (v: int)
    requires 0 <= n <= |d.nand|
    ensures ErasedChoice(d, n, v)
  {
    if n == 0 then -1
    else
      var v := ErasedBlockUpTo(d, n - 1);
      if Spare(d, n - 1) && (v == -1 || Better(d.naive, d, n - 1, v)) then n - 1 else v
  }

  ghost function ErasedBlock(d: Drive): int { ErasedBlockUpTo(d, |d.nand|) }

  ghost predicate Richer(d: Drive, v: int, i: int)
    requires 0 <= v < |d.nand| && 0 <= i < |d.nand|
  {
    StaleIn(d.nand[i]) < StaleIn(d.nand[v])
    || (StaleIn(d.nand[i]) == StaleIn(d.nand[v]) && Better(d.naive, d, v, i))
  }

  /** `v` is what `victim` holds after looking at the first `n` blocks. */
  ghost predicate VictimChoice(d: Drive, n: int, v: int)
    requires n <= |d.nand|
  {
    if v == -1 then
      forall i | 0 <= i < n && i != d.active :: StaleIn(d.nand[i]) == 0
    else
      && 0 <= v < n && v != d.active && StaleIn(d.nand[v]) > 0
      && forall i | 0 <= i < n && i != d.active && i != v :: Richer(d, v, i)
  }

  ghost function NextVictim(d: Drive, n: int, v: int): int
    requires 1 <= n <= |d.nand| && VictimChoice(d, n - 1, v)
  {
    if n - 1 != d.active && StaleIn(d.nand[n - 1]) > 0 && (v == -1 || Richer(d, n - 1, v)) then n - 1 else v
  }

  lemma VictimStep(d: Drive, n: int, v: int)
    requires 1 <= n <= |d.nand| && VictimChoice(d, n - 1, v)
    ensures VictimChoice(d, n, NextVictim(d, n, v))
  {
    var w := NextVictim(d, n, v);
    if w != -1 {
      forall i | 0 <= i < n && i != d.active && i != w
        ensures Richer(d, w, i)
      {
        assert i < n - 1 && v != -1 && i != v ==> Richer(d, v, i);
      }
    }
  }

  ghost function VictimUpTo(d: Drive, n: int): (v: int)
    requires 0 <= n <= |d.nand|
    ensures VictimChoice(d, n, v)
  {
    if n == 0 then -1
    else
      var v := VictimUpTo(d, n - 1);
      VictimStep(d, n, v);
      NextVictim(d, n, v)
  }

  ghost function Victim(d: Drive): int { VictimUpTo(d, |d.nand|) }

  /** Block `v` is not the open one, has stale pages, and no other filled block comes before it: most stale
      pages, then fewest erases, then lowest index; erases do not matter when naive. */
  ghost predicate StalestFirst(d: Drive, v: int) {
    && 0 <= v < |d.nand| && v != d.active && StaleIn(d.nand[v]) > 0
    && forall i | 0 <= i < |d.nand| && i != v && i != d.active ::
         StaleIn(d.nand[i]) < StaleIn(d.nand[v])
         || (StaleIn(d.nand[i]) == StaleIn(d.nand[v])
             && if d.naive then v < i
                else d.nand[v].erases < d.nand[i].erases || (d.nand[v].erases == d.nand[i].erases && v < i))
  }

  /** Outside the open block no page is stale. */
  ghost predicate NothingStale(d: Drive) {
    forall i | 0 <= i < |d.nand| && i != d.active :: StaleIn(d.nand[i]) == 0
  }

  lemma VictimIsStalestFirst(d: Drive)
    ensures if Victim(d) == -1 then NothingStale(d) else StalestFirst(d, Victim(d))
  {
    var v := Victim(d);
    if v != -1 {
      forall i | 0 <= i < |d.nand| && i != v && i != d.active
        ensures StaleIn(d.nand[i]) < StaleIn(d.nand[v])
          || (StaleIn(d.nand[i]) == StaleIn(d.nand[v])
              && if d.naive then v < i
                 else d.nand[v].erases < d.nand[i].erases || (d.nand[v].erases == d.nand[i].erases && v < i))
      {
        assert Richer(d, v, i);
      }
    }
  }

  // ---- the routines ----

  function FreshBlock(pages: nat, erases: int): Block {
    Block(seq(pages, _ => Cell(Free, 0, 0)), 0, erases)
  }

  function Make(blocks: nat, pages: nat, lbas: nat, naive: bool): Drive {
    Drive(blocks, pages, lbas, naive,
          seq(blocks, _ => FreshBlock(pages, 0)), seq(lbas, _ => Nowhere), 0, 0, 0)
  }

  function SetState(b: Block, p: int, st: PageState): Block
    requires 0 <= p < |b.cells|
  {
    b.(cells := b.cells[p := b.cells[p].(state := st)])
  }

  function MarkStale(d: Drive, l: Loc): Drive
    requires l.At? && 0 <= l.block < |d.nand| && 0 <= l.page < |d.nand[l.block].cells|
  {
    d.(nand := d.nand[l.block := SetState(d.nand[l.block], l.page, Stale)])
  }

  ghost predicate HasRoom(d: Drive)
    requires Framed(d)
  {
    d.nand[d.active].next < d.pages || ErasedBlocks(d) >= 1
  }

  /** The first line of `program`: open another block when the open one is full. */
  ghost function Opened(d: Drive): (e: Drive)
    requires Framed(d) && HasRoom(d)
    ensures 0 <= e.active < |e.nand| && e.nand == d.nand && e.nand[e.active].next < d.pages
  {
    ErasedBlockFound(d);
    if d.nand[d.active].next == d.pages then d.(active := ErasedBlock(d)) else d
  }

  function Append(b: Block, lba: int, data: int): Block
    requires 0 <= b.next < |b.cells|
  {
    Block(b.cells[b.next := Cell(Valid, lba, data)], b.next + 1, b.erases)
  }

  /** The rest of `program`: fill the next page of the open block and point the map at it. */
  function Fill(d: Drive, lba: int, data: int): Drive
    requires 0 <= d.active < |d.nand| && 0 <= lba < |d.table|
    requires 0 <= d.nand[d.active].next < |d.nand[d.active].cells|
  {
    d.(nand := d.nand[d.active := Append(d.nand[d.active], lba, data)],
       table := d.table[lba := At(d.active, d.nand[d.active].next)],
       nandWrites := d.nandWrites + 1)
  }

  ghost function Program(d: Drive, lba: int, data: int): Drive
    requires Framed(d) && HasRoom(d) && 0 <= lba < d.lbas
  {
    Fill(Opened(d), lba, data)
  }

  function Trim(d: Drive, lba: int): Drive
    requires 0 <= lba < |d.table| && InRange(d, d.table[lba])
  {
    if d.table[lba].Nowhere? then d
    else MarkStale(d, d.table[lba]).(table := d.table[lba := Nowhere])
  }

  /** Enough free pages to save what the pages of block `v` from `p` on still hold. */
  ghost predicate CanCopy(d: Drive, v: int, p: int)
    requires Framed(d) && 0 <= v < d.blocks && 0 <= p <= d.pages
  {
    && v != d.active && d.nand[v].next == d.pages
    && (ErasedBlocks(d) >= 1 || Sum(IsValid, d.nand[v].cells[p..]) <= d.pages - d.nand[d.active].next)
    && forall q | 0 <= q < d.pages && d.nand[v].cells[q].state.Valid? :: 0 <= d.nand[v].cells[q].lba < d.lbas
  }

  ghost function CopyOut(d: Drive, v: int, p: int): (e: Drive)
    requires Framed(d) && 0 <= v < d.blocks && 0 <= p <= d.pages && CanCopy(d, v, p)
    ensures Framed(e) && e.blocks == d.blocks && v != e.active && e.nand[v] == d.nand[v]
    decreases d.pages - p
  {
    if p == d.pages then d
    else
      CopyStep(d, v, p);
      var c := d.nand[v].cells[p];
      CopyOut(if c.state.Valid? then Program(d, c.lba, c.data) else d, v, p + 1)
  }

  function Erase(d: Drive, v: int): Drive
    requires 0 <= v < |d.nand| && 0 <= d.pages
  {
    d.(nand := d.nand[v := FreshBlock(d.pages, d.nand[v].erases + 1)])
  }

  ghost predicate CanCollect(d: Drive) {
    && Framed(d) && Victim(d) != -1 && CanCopy(d, Victim(d), 0)
  }

  ghost function Collect(d: Drive): Drive
    requires CanCollect(d)
  {
    Erase(CopyOut(d, Victim(d), 0), Victim(d))
  }

  // ---- facts the definitions above rest on ----

  lemma ErasedBlockFound(d: Drive)
    requires Framed(d)
    ensures ErasedBlock(d) != -1 <==> ErasedBlocks(d) >= 1
  {
    SumZero(IsErased, Others(d));
    var others := Others(d);
    var v := ErasedBlock(d);
    if v != -1 {
      assert others[if v < d.active then v else v - 1] == d.nand[v];
      assert d.nand[v] in others && IsErased(d.nand[v]) == 1;
    } else {
      forall b | b in others
        ensures IsErased(b) == 0
      {
        var k :| 0 <= k < |others| && others[k] == b;
        var i := if k < d.active then k else k + 1;
        assert d.nand[i] == b && !Spare(d, i);
      }
    }
  }

  lemma OpenedFrame(d: Drive)
    requires Framed(d) && HasRoom(d)
    ensures var e := Opened(d);
      && Framed(e)
      && if d.nand[d.active].next < d.pages then e == d
         else
           && e.active != d.active && e.nand[e.active].next == 0
           && ErasedBlocks(e) == ErasedBlocks(d) - 1
  {
    ErasedBlockFound(d);
    SumWithout(IsErased, d.nand, d.active);
    SumWithout(IsErased, d.nand, Opened(d).active);
  }

  lemma FillFrame(d: Drive, lba: int, data: int)
    requires Framed(d) && d.nand[d.active].next < d.pages && 0 <= lba < d.lbas
    ensures var e := Fill(d, lba, data);
      Framed(e) && OpenHoldsValid(e) && ErasedBlocks(e) == ErasedBlocks(d)
  {
    var e := Fill(d, lba, data);
    var b := d.nand[d.active];
    assert Others(e) == Others(d);
    assert BlockOk(e.nand[e.active], d.pages);
    SumUpdate(IsValid, b.cells, b.next, Cell(Valid, lba, data));
  }

  /** Block `v` is erased and no other spare block comes before it: fewest erases, ties to the lowest index,
      or the lowest index whatever its erases when naive. */
  ghost predicate FirstChoice(d: Drive, v: int) {
    && 0 <= v < |d.nand| && v != d.active && d.nand[v].next == 0
    && forall i | 0 <= i < |d.nand| && i != v && i != d.active && d.nand[i].next == 0 ::
         if d.naive then v < i
         else d.nand[v].erases < d.nand[i].erases || (d.nand[v].erases == d.nand[i].erases && v < i)
  }

  /** Outside the open block no block is erased. */
  ghost predicate NothingSpare(d: Drive) {
    forall i | 0 <= i < |d.nand| && i != d.active :: d.nand[i].next != 0
  }

  lemma ErasedBlockIsFirstChoice(d: Drive)
    ensures if ErasedBlock(d) == -1 then NothingSpare(d) else FirstChoice(d, ErasedBlock(d))
  {
    var v := ErasedBlock(d);
    if v == -1 {
      forall i | 0 <= i < |d.nand| && i != d.active
        ensures d.nand[i].next != 0
      {
        assert !Spare(d, i);
      }
    } else {
      forall i | 0 <= i < |d.nand| && i != v && i != d.active && d.nand[i].next == 0
        ensures if d.naive then v < i
                else d.nand[v].erases < d.nand[i].erases || (d.nand[v].erases == d.nand[i].erases && v < i)
      {
        assert Spare(d, i) && Better(d.naive, d, v, i);
      }
    }
  }

  /** Where `program` puts the page: the next one of the open block, or the first one of the block of first
      choice when the open block is full; nothing else of the flash or the map changes. */
  lemma ProgramPlaces(d: Drive, lba: int, data: int)
    requires Framed(d) && HasRoom(d) && 0 <= lba < d.lbas
    ensures var e := Program(d, lba, data);
      && (if d.nand[d.active].next < d.pages then e.active == d.active else FirstChoice(d, e.active))
      && 0 <= e.active < d.blocks
      && var b := d.nand[e.active];
         && 0 <= b.next < |b.cells|
         && e == d.(nand := d.nand[e.active := Block(b.cells[b.next := Cell(Valid, lba, data)], b.next + 1, b.erases)],
                    table := d.table[lba := At(e.active, b.next)],
                    active := e.active, nandWrites := d.nandWrites + 1)
  {
    OpenedFrame(d);
    if d.nand[d.active].next == d.pages {
      ErasedBlockFound(d);
      ErasedBlockIsFirstChoice(d);
    }
  }

  /** What `program` does to the frame: the count of spare blocks and the room in the open block. */
  lemma ProgramFrame(d: Drive, lba: int, data: int)
    requires Framed(d) && HasRoom(d) && 0 <= lba < d.lbas
    ensures var e := Program(d, lba, data);
      && Framed(e)
      && OpenHoldsValid(e)
      && (forall i | 0 <= i < d.blocks && i != d.active && d.nand[i].next == d.pages ::
            i != e.active && e.nand[i] == d.nand[i])
      && if d.nand[d.active].next < d.pages then
           ErasedBlocks(e) == ErasedBlocks(d) && e.active == d.active
           && e.nand[e.active].next == d.nand[d.active].next + 1
         else
           ErasedBlocks(e) == ErasedBlocks(d) - 1 && e.nand[e.active].next == 1
  {
    OpenedFrame(d);
    FillFrame(Opened(d), lba, data);
  }

  lemma CopyStep(d: Drive, v: int, p: int)
    requires Framed(d) && 0 <= v < d.blocks && 0 <= p < d.pages && CanCopy(d, v, p)
    ensures var c := d.nand[v].cells[p];
      if c.state.Valid? then
        && HasRoom(d) && 0 <= c.lba < d.lbas
        && var e := Program(d, c.lba, c.data);
           Framed(e) && e.nand[v] == d.nand[v] && CanCopy(e, v, p + 1)
      else CanCopy(d, v, p + 1)
  {
    var cells := d.nand[v].cells;
    var c := cells[p];
    assert Sum(IsValid, cells[p..]) == IsValid(c) + Sum(IsValid, cells[p + 1..]);
    if c.state.Valid? {
      ProgramFrame(d, c.lba, c.data);
      forall x | x in cells[p + 1..] ensures IsValid(x) <= 1 {}
      SumBounded(IsValid, cells[p + 1..]);
    }
  }
}
