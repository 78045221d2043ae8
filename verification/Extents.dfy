/** First-fit allocation: which blocks one allocation takes, and which a whole file gets. */
module Extents {

  datatype Extent = Extent(start: nat, count: nat)

  function Range(start: nat, count: nat): (r: seq<nat>)
    ensures |r| == count
  {
    seq(count, i requires 0 <= i => start + i)
  }

  /** The blocks of a list of extents, in order. */
  function Listing(es: seq<Extent>): seq<nat> {
    if es == [] then [] else Range(es[0].start, es[0].count) + Listing(es[1..])
  }

  /** The free blocks from `b` on, lowest first. */
  function FreeFrom(used: seq<bool>, b: nat): seq<nat>
    requires b <= |used|
    decreases |used| - b
  {
    if b == |used| then []
    else (if used[b] then [] else [b]) + FreeFrom(used, b + 1)
  }

  function FreeBlocks(used: seq<bool>): seq<nat> { FreeFrom(used, 0) }

  function FirstFree(used: seq<bool>, b: nat): (f: nat)
    requires b <= |used|
    ensures b <= f <= |used|
    decreases |used| - b
  {
    if b == |used| || !used[b] then b else FirstFree(used, b + 1)
  }

  lemma {:induction false} FirstFreeIsFirst(used: seq<bool>, b: nat)
    requires b <= |used|
    ensures var f := FirstFree(used, b); (f < |used| ==> !used[f]) && forall i | b <= i < f :: used[i]
    decreases |used| - b
  {
    if b < |used| && used[b] {
      FirstFreeIsFirst(used, b + 1);
    }
  }

  /** Length of the run of free blocks from `b`, no longer than `want`. */
  function RunOf(used: seq<bool>, b: nat, want: nat): (c: nat)
    requires b <= |used|
    ensures c <= want && b + c <= |used|
    decreases want
  {
    if want == 0 || b == |used| || used[b] then 0 else 1 + RunOf(used, b + 1, want - 1)
  }

  lemma {:induction false} RunOfIsLongest(used: seq<bool>, b: nat, want: nat)
    requires b <= |used|
    ensures var c := RunOf(used, b, want);
      && (forall i | b <= i < b + c :: !used[i])
      && (c < want ==> b + c == |used| || used[b + c])
    decreases want
  {
    if want > 0 && b < |used| && !used[b] {
      RunOfIsLongest(used, b + 1, want - 1);
    }
  }

  function Fill(used: seq<bool>, e: Extent): seq<bool> {
    seq(|used|, i requires 0 <= i < |used| => used[i] || e.start <= i < e.start + e.count)
  }

  function Pick(used: seq<bool>, want: nat): Extent {
    var b := FirstFree(used, 0); Extent(b, RunOf(used, b, want))
  }

  // ---- one allocation ----

  lemma {:induction false} FreeSkips(used: seq<bool>, a: nat, b: nat)
    requires a <= b <= |used| && forall i | a <= i < b :: used[i]
    ensures FreeFrom(used, a) == FreeFrom(used, b)
    decreases b - a
  {
    if a < b {
      FreeSkips(used, a + 1, b);
    }
  }

  lemma {:induction false} FreeRuns(used: seq<bool>, s: nat, c: nat)
    requires s + c <= |used| && forall i | s <= i < s + c :: !used[i]
    ensures FreeFrom(used, s) == Range(s, c) + FreeFrom(used, s + c)
    decreases c
  {
    if c == 0 {
      assert Range(s, 0) == [];
    } else {
      FreeRuns(used, s + 1, c - 1);
      RangeCons(s, c);
      assert [s] + (Range(s + 1, c - 1) + FreeFrom(used, s + c)) == Range(s, c) + FreeFrom(used, s + c);
    }
  }

  lemma RangeCons(s: nat, c: nat)
    requires c > 0
    ensures Range(s, c) == [s] + Range(s + 1, c - 1)
  {}

  lemma {:induction false} FreeAgrees(used: seq<bool>, other: seq<bool>, b: nat)
    requires b <= |used| == |other| && forall i | b <= i < |used| :: used[i] == other[i]
    ensures FreeFrom(used, b) == FreeFrom(other, b)
    decreases |used| - b
  {
    if b < |used| {
      FreeAgrees(used, other, b + 1);
    }
  }

  /** One allocation takes the lowest free blocks, up to the first used block or the wish. */
  lemma PickTakesLowest(used: seq<bool>, want: nat)
    ensures var e, rest := Pick(used, want), Fill(used, Pick(used, want));
      && FreeBlocks(used) == Range(e.start, e.count) + FreeBlocks(rest)
      && (want > 0 && FreeBlocks(used) != [] ==> e.count > 0)
  {
    var e, rest := Pick(used, want), Fill(used, Pick(used, want));
    FirstFreeIsFirst(used, 0);
    RunOfIsLongest(used, e.start, want);
    FreeSkips(used, 0, e.start);
    FreeRuns(used, e.start, e.count);
    FreeSkips(rest, 0, e.start + e.count);
    FreeAgrees(used, rest, e.start + e.count);
    if e.start == |used| {
      assert FreeFrom(used, e.start) == [];
    }
  }

  /** With no free block left an allocation yields nothing and changes nothing: a loop that still needs
      blocks would ask for ever, which is why the caller checks first. */
  lemma PickOnFullDisk(used: seq<bool>, want: nat)
    requires FreeBlocks(used) == []
    ensures Pick(used, want).count == 0 && Fill(used, Pick(used, want)) == used
  {
    PickTakesLowest(used, want);
  }

  // ---- a whole file ----

  /** The loop of `create`: allocate until the need is covered. */
  function Take(used: seq<bool>, need: nat): seq<Extent>
    requires need <= |FreeBlocks(used)|
    decreases need
  {
    if need == 0 then []
    else
      PickTakesLowest(used, need);
      var e := Pick(used, need);
      [e] + Take(Fill(used, e), need - e.count)
  }

  function TakeLeaves(used: seq<bool>, need: nat): (rest: seq<bool>)
    requires need <= |FreeBlocks(used)|
    ensures |rest| == |used|
    decreases need
  {
    if need == 0 then used
    else
      PickTakesLowest(used, need);
      var e := Pick(used, need);
      TakeLeaves(Fill(used, e), need - e.count)
  }

  lemma TakeFirst(used: seq<bool>, need: nat)
    requires 0 < need <= |FreeBlocks(used)|
    ensures var e := Pick(used, need);
      && 0 < e.count <= need && need - e.count <= |FreeBlocks(Fill(used, e))|
      && Take(used, need) == [e] + Take(Fill(used, e), need - e.count)
      && TakeLeaves(used, need) == TakeLeaves(Fill(used, e), need - e.count)
  {
    PickTakesLowest(used, need);
  }

  /** What the loop of `create` keeps: the extents so far, and those still to come, are those of the whole file. */
  ghost predicate Covering(was: seq<bool>, blocks: nat, es: seq<Extent>, used: seq<bool>, need: nat) {
    && blocks <= |FreeBlocks(was)| && need <= |FreeBlocks(used)|
    && es + Take(used, need) == Take(was, blocks)
    && TakeLeaves(used, need) == TakeLeaves(was, blocks)
  }

  lemma CoveringRound(was: seq<bool>, blocks: nat, es: seq<Extent>, used: seq<bool>, need: nat)
    requires need > 0 && Covering(was, blocks, es, used, need)
    ensures var e := Pick(used, need);
      0 < e.count <= need && Covering(was, blocks, es + [e], Fill(used, e), need - e.count)
  {
    TakeFirst(used, need);
    var e := Pick(used, need);
    assert es + ([e] + Take(Fill(used, e), need - e.count)) == es + [e] + Take(Fill(used, e), need - e.count);
  }

  lemma CoveringDone(was: seq<bool>, blocks: nat, es: seq<Extent>, used: seq<bool>)
    requires Covering(was, blocks, es, used, 0)
    ensures es == Take(was, blocks) && used == TakeLeaves(was, blocks)
  {
    assert es + [] == es;
  }

  // ---- when that loop ends ----

  /** The first `k` rounds of the loop of `create`, with no check beforehand: the bitmap and the blocks still needed. */
  function Rounds(used: seq<bool>, need: nat, k: nat): (seq<bool>, nat)
    decreases k
  {
    if k == 0 || need == 0 then (used, need)
    else
      var e := Pick(used, need);
      Rounds(Fill(used, e), need - e.count, k - 1)
  }

  /** A round covers at most the blocks that are free. */
  lemma {:induction false} RoundsLeaveShortfall(used: seq<bool>, need: nat, k: nat)
    requires |FreeBlocks(used)| < need
    ensures Rounds(used, need, k).1 >= need - |FreeBlocks(used)|
    decreases k
  {
    if k > 0 {
      PickTakesLowest(used, need);
      var e := Pick(used, need);
      RoundsLeaveShortfall(Fill(used, e), need - e.count, k - 1);
    }
  }

  /** Each round covers a block at least, as long as there is one. */
  lemma {:induction false} RoundsCover(used: seq<bool>, need: nat, k: nat)
    requires need <= |FreeBlocks(used)| && need <= k
    ensures Rounds(used, need, k) == (TakeLeaves(used, need), 0)
    decreases k
  {
    if need > 0 {
      TakeFirst(used, need);
      var e := Pick(used, need);
      RoundsCover(Fill(used, e), need - e.count, k - 1);
    }
  }

  /** The loop of `create` ends exactly when enough blocks are free. */
  lemma LoopEndsExactly(used: seq<bool>, need: nat)
    ensures (exists k: nat :: Rounds(used, need, k).1 == 0) <==> need <= |FreeBlocks(used)|
  {
    if need <= |FreeBlocks(used)| {
      RoundsCover(used, need, need);
    } else {
      forall k: nat
        ensures Rounds(used, need, k).1 != 0
      {
        RoundsLeaveShortfall(used, need, k);
      }
    }
  }

  /** First fit gives a file exactly the lowest-numbered free blocks, in ascending order. */
  lemma {:induction false} TakeIsLowest(used: seq<bool>, need: nat)
    requires need <= |FreeBlocks(used)|
    ensures Listing(Take(used, need)) == FreeBlocks(used)[..need]
    ensures FreeBlocks(TakeLeaves(used, need)) == FreeBlocks(used)[need..]
    decreases need
  {
    if need > 0 {
      PickTakesLowest(used, need);
      TakeFirst(used, need);
      var e := Pick(used, need);
      var rest := Fill(used, e);
      TakeIsLowest(rest, need - e.count);
      ListingCons(e, Take(rest, need - e.count));
      var range := Range(e.start, e.count);
      assert (range + FreeBlocks(rest))[..need] == range + FreeBlocks(rest)[..need - e.count];
      assert (range + FreeBlocks(rest))[need..] == FreeBlocks(rest)[need - e.count..];
    }
  }

  /** The bitmap afterwards: what was used and what the file got. */
  lemma {:induction false} TakeMarks(used: seq<bool>, need: nat)
    requires need <= |FreeBlocks(used)|
    ensures forall i | 0 <= i < |used| ::
      TakeLeaves(used, need)[i] <==> used[i] || i in Listing(Take(used, need))
    decreases need
  {
    if need > 0 {
      TakeFirst(used, need);
      var e := Pick(used, need);
      var rest, tail := Fill(used, e), Take(Fill(used, e), need - e.count);
      TakeMarks(rest, need - e.count);
      ListingCons(e, tail);
      InRange(e.start, e.count);
      forall i | 0 <= i < |used|
        ensures TakeLeaves(used, need)[i] <==> used[i] || i in Listing(Take(used, need))
      {
        assert rest[i] <==> used[i] || i in Range(e.start, e.count);
        assert i in Listing([e] + tail) <==> i in Range(e.start, e.count) || i in Listing(tail);
      }
    }
  }

  lemma ListingCons(e: Extent, es: seq<Extent>)
    ensures Listing([e] + es) == Range(e.start, e.count) + Listing(es)
  {
    assert ([e] + es)[1..] == es;
  }

  lemma InRange(start: nat, count: nat)
    ensures forall i: nat :: i in Range(start, count) <==> start <= i < start + count
  {
    forall i: nat | start <= i < start + count
      ensures i in Range(start, count)
    {
      assert Range(start, count)[i - start] == i;
    }
  }

  /** The block after an allocation that fell short is in use, and the next allocation starts beyond it. */
  lemma PickStopsAtUsed(used: seq<bool>, want: nat)
    requires Pick(used, want).count < want && FreeBlocks(Fill(used, Pick(used, want))) != []
    ensures var e, rest := Pick(used, want), Fill(used, Pick(used, want));
      e.start + e.count < FirstFree(rest, 0) < |used| && used[e.start + e.count]
  {
    var e, rest := Pick(used, want), Fill(used, Pick(used, want));
    FirstFreeIsFirst(used, 0);
    FirstFreeIsFirst(rest, 0);
    RunOfIsLongest(used, e.start, want);
    FreeSkips(rest, 0, FirstFree(rest, 0));
  }

  ghost predicate Gapped(used: seq<bool>, es: seq<Extent>) {
    && (forall i | 0 <= i < |es| :: es[i].count > 0)
    && forall i | 0 <= i < |es| - 1 ::
         && es[i].start + es[i].count < es[i + 1].start
         && es[i].start + es[i].count < |used| && used[es[i].start + es[i].count]
  }

  lemma GappedCons(used: seq<bool>, e: Extent, tail: seq<Extent>)
    requires e.count > 0 && e.start + e.count < |used| && used[e.start + e.count]
    requires Gapped(Fill(used, e), tail) && forall i | 0 <= i < |tail| :: e.start + e.count < tail[i].start
    ensures Gapped(used, [e] + tail)
  {
    var es := [e] + tail;
    forall i | 0 <= i < |es| - 1
      ensures es[i].start + es[i].count < es[i + 1].start && es[i].start + es[i].count < |used|
           && used[es[i].start + es[i].count]
    {
      if i > 0 {
        assert es[i] == tail[i - 1] && es[i + 1] == tail[i];
      }
    }
  }

  /** Between two consecutive extents of a file lies a block that was in use. */
  lemma {:induction false} TakeIsGapped(used: seq<bool>, need: nat)
    requires need <= |FreeBlocks(used)|
    ensures Gapped(used, Take(used, need))
    ensures forall e | e in Take(used, need) :: FirstFree(used, 0) <= e.start
    decreases need
  {
    if need > 0 {
      TakeFirst(used, need);
      var e := Pick(used, need);
      var tail := Take(Fill(used, e), need - e.count);
      TakeIsGapped(Fill(used, e), need - e.count);
      if tail == [] {
        assert Take(used, need) == [e];
      } else {
        PickStopsAtUsed(used, need);
        GappedCons(used, e, tail);
        forall x | x in Take(used, need) ensures FirstFree(used, 0) <= x.start {
          assert x == e || x in tail;
        }
      }
    }
  }

  // ---- properties of the list of free blocks ----

  lemma {:induction false} FreeIsFree(used: seq<bool>, b: nat)
    requires b <= |used|
    ensures forall i | 0 <= i < |FreeFrom(used, b)| :: b <= FreeFrom(used, b)[i] < |used| && !used[FreeFrom(used, b)[i]]
    ensures forall i, j | 0 <= i < j < |FreeFrom(used, b)| :: FreeFrom(used, b)[i] < FreeFrom(used, b)[j]
    decreases |used| - b
  {
    if b < |used| {
      FreeIsFree(used, b + 1);
    }
  }

  /** The list holds the free blocks and nothing else. */
  lemma {:induction false} FreeIsListed(used: seq<bool>, b: nat, x: nat)
    requires b <= |used|
    ensures x in FreeFrom(used, b) <==> b <= x < |used| && !used[x]
    decreases |used| - b
  {
    if b < |used| {
      FreeIsListed(used, b + 1, x);
      assert FreeFrom(used, b) == (if used[b] then [] else [b]) + FreeFrom(used, b + 1);
    }
  }

  /** Every one of `blocks` was free, is in use now, and lies below every block that stays free. */
  ghost predicate LowestOf(was: seq<bool>, used: seq<bool>, blocks: seq<nat>) {
    && |used| == |was|
    && (forall x | x in blocks :: x < |was| && !was[x] && used[x])
    && forall x, y | x in blocks && 0 <= y < |used| && !used[y] :: x < y
  }

  lemma TakenAreLowest(used: seq<bool>, need: nat)
    requires need <= |FreeBlocks(used)|
    ensures LowestOf(used, TakeLeaves(used, need), Listing(Take(used, need)))
    ensures |Listing(Take(used, need))| == need
  {
    TakeIsLowest(used, need);
    TakeMarks(used, need);
    FreeIsFree(used, 0);
    var free, blocks, after := FreeBlocks(used), Listing(Take(used, need)), TakeLeaves(used, need);
    forall x, y | x in blocks && 0 <= y < |after| && !after[y]
      ensures x < y
    {
      FreeIsListed(after, 0, y);
      assert y in free[need..];
    }
  }
}
