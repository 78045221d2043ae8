/** Why the drive never runs out of space: counting Valid pages against mapped LBAs,
    and the pigeonhole that finds stale pages in the fullest block. */
module FtlSpace {
  import opened Arithmetic
  import opened Sums
  import opened FtlModel
  import opened FtlSteps
  import opened FtlCollect

  /** The count test of `consistent`: given that every mapped LBA finds its page, the two counts are
      equal exactly when every Valid page is the page of its LBA. */
  lemma {:induction false} CountsDecide(d: Drive, n: int)
    requires Mapped(d) && 0 <= n <= |d.table|
    requires forall l | n <= l < |d.table| :: d.table[l].Nowhere?
    ensures MappedLbas(d) <= ValidPages(d)
    ensures ValidPages(d) == MappedLbas(d) <==> Owned(d)
    decreases n
  {
    if n == 0 {
      SumZero(IsMapped, d.table);
      NoneValid(d);
    } else {
      TrimMapped(d, n - 1);
      if d.table[n - 1].At? {
        TrimOwned(d, n - 1);
      }
      TrimCounts(d, n - 1);
      CountsDecide(Trim(d, n - 1), n - 1);
    }
  }

  lemma NoneValid(d: Drive)
    requires forall l | 0 <= l < |d.table| :: d.table[l].Nowhere?
    ensures ValidPages(d) == 0 <==> Owned(d)
  {
    SumZero(ValidIn, d.nand);
    if Owned(d) {
      forall b | b in d.nand
        ensures ValidIn(b) == 0
      {
        var i :| 0 <= i < |d.nand| && d.nand[i] == b;
        SumZero(IsValid, b.cells);
        forall c | c in b.cells ensures IsValid(c) == 0 {
          var p :| 0 <= p < |b.cells| && b.cells[p] == c;
          assert d.nand[i].cells[p] == c;
        }
      }
    } else {
      var i, p :| 0 <= i < |d.nand| && 0 <= p < |d.nand[i].cells| && d.nand[i].cells[p].state.Valid?;
      SumZero(IsValid, d.nand[i].cells);
      assert d.nand[i].cells[p] in d.nand[i].cells && IsValid(d.nand[i].cells[p]) == 1;
      assert d.nand[i] in d.nand && ValidIn(d.nand[i]) != 0;
    }
  }

  /** Sealed blocks share their pages between Valid and Stale; none is staler than `m`. */
  lemma {:induction false} Crowd(bs: seq<Block>, pages: int, m: int)
    requires 1 <= pages
    requires forall b | b in bs :: BlockOk(b, pages) && (b.next == 0 || b.next == pages) && StaleIn(b) <= m
    ensures Sum(IsErased, bs) <= |bs|
    ensures Sum(ValidIn, bs) + Sum(StaleIn, bs) == pages * (|bs| - Sum(IsErased, bs))
    ensures Sum(StaleIn, bs) <= m * (|bs| - Sum(IsErased, bs))
  {
    if bs != [] {
      Crowd(bs[1..], pages, m);
      BlockCounts(bs[0], pages);
      var full := |bs| - 1 - Sum(IsErased, bs[1..]);
      assert pages * (full + 1) == pages * full + pages;
      assert m * (full + 1) == m * full + m;
      assert bs[0] in bs;
    }
  }

  /** What a collection inside `write` is sure to reclaim when at most `u` LBAs are mapped:
      the ceiling of ((blocks - 2) * pages - (u - 1)) / (blocks - 2). */
  function Yield(blocks: int, pages: int, u: int): int
    requires blocks > 2
  {
    pages - (u - 1) / (blocks - 2)
  }

  lemma OthersSealed(d: Drive, m: int)
    requires Framed(d) && forall i | 0 <= i < d.blocks && i != d.active :: StaleIn(d.nand[i]) <= m
    ensures forall b | b in Others(d) ::
      BlockOk(b, d.pages) && (b.next == 0 || b.next == d.pages) && StaleIn(b) <= m
  {
    var others := Others(d);
    forall b | b in others
      ensures BlockOk(b, d.pages) && (b.next == 0 || b.next == d.pages) && StaleIn(b) <= m
    {
      var k :| 0 <= k < |others| && others[k] == b;
      assert b == d.nand[if k < d.active then k else k + 1];
    }
  }

  lemma ValidIsMapped(d: Drive)
    requires Sound(d)
    ensures ValidPages(d) == MappedLbas(d) <= d.lbas
  {
    CountsDecide(d, d.lbas);
    SumBounded(IsMapped, d.table);
  }

  /** With one erased block left, the sealed blocks hold all but one of the Valid pages at most. */
  lemma OthersCrowded(d: Drive, m: int)
    requires Sound(d) && OpenHoldsValid(d) && ErasedBlocks(d) == 1
    requires forall i | 0 <= i < d.blocks && i != d.active :: StaleIn(d.nand[i]) <= m
    ensures d.pages * (d.blocks - 2) - (MappedLbas(d) - 1) <= m * (d.blocks - 2)
  {
    OthersSealed(d, m);
    Crowd(Others(d), d.pages, m);
    SumWithout(ValidIn, d.nand, d.active);
    ValidIsMapped(d);
  }

  lemma StalestOf(d: Drive)
    requires Framed(d)
    ensures forall i | 0 <= i < d.blocks && i != d.active ::
      StaleIn(d.nand[i]) <= if Victim(d) == -1 then 0 else StaleIn(d.nand[Victim(d)])
  {
    var v := Victim(d);
    forall i | 0 <= i < d.blocks && i != d.active
      ensures StaleIn(d.nand[i]) <= if v == -1 then 0 else StaleIn(d.nand[v])
    {
      assert v != -1 && v != i ==> Richer(d, v, i);
    }
  }

  lemma PigeonArithmetic(pages: int, k: int, m: int, mapped: int, u: int)
    requires k > 0 && pages * k - (mapped - 1) <= m * k && mapped <= u
    ensures m >= pages - (u - 1) / k
    ensures mapped <= k * pages ==> m > 0
  {
    assert (pages - m) * k == pages * k - m * k;
    QuotientBound(pages - m, k, u - 1);
    assert k * pages == pages * k;
  }

  /** With one erased block left, some sealed block holds enough stale pages. */
  lemma VictimIsStale(d: Drive, u: int)
    requires Geometry(d.blocks, d.pages, d.lbas) && Sound(d) && OpenHoldsValid(d) && ErasedBlocks(d) == 1
    requires MappedLbas(d) <= u
    ensures Victim(d) != -1 && d.blocks > 2
    ensures StaleIn(d.nand[Victim(d)]) >= Yield(d.blocks, d.pages, u)
  {
    var m := if Victim(d) == -1 then 0 else StaleIn(d.nand[Victim(d)]);
    StalestOf(d);
    OthersCrowded(d, m);
    AtLeastThree(d.blocks, d.pages, d.lbas);
    ValidIsMapped(d);
    PigeonArithmetic(d.pages, d.blocks - 2, m, MappedLbas(d), u);
  }

  lemma AtLeastThree(blocks: int, pages: int, lbas: int)
    requires Geometry(blocks, pages, lbas)
    ensures blocks > 2
  {}

  /** A block with a stale page has been filled, so it can be collected as soon as one block is erased. */
  lemma VictimCollectable(d: Drive)
    requires Sound(d) && Victim(d) != -1
    requires ErasedBlocks(d) >= 1 || ValidIn(d.nand[Victim(d)]) <= d.pages - d.nand[d.active].next
    ensures CanCollect(d)
  {
    var v := Victim(d);
    BlockCounts(d.nand[v], d.pages);
    assert d.nand[v].cells[0..] == d.nand[v].cells;
  }
}
