/** Block arithmetic, and the device that can only read and write whole blocks of 4096 bytes. */
module BlockDevice {
  import opened Arithmetic

  const WORD := 0x1_0000_0000_0000_0000

  function AlignDown(x: nat, a: nat): nat
    requires a > 0
  {
    x / a * a
  }

  function AlignUp(x: nat, a: nat): nat
    requires a > 0
  {
    (x + a - 1) / a * a
  }

  /** The multiples of `a` on either side of `x`, less than `a` away, and `x` itself when it is one. */
  lemma AlignedIsNearest(x: nat, a: nat)
    requires a > 0
    ensures AlignDown(x, a) % a == 0 && AlignDown(x, a) <= x < AlignDown(x, a) + a
    ensures AlignUp(x, a) % a == 0 && x <= AlignUp(x, a) < x + a
  {
    var q, r := x / a, x % a;
    Divides(q * a, q, 0, a);
    assert x == q * a + r;
    var u := (x + a - 1) / a;
    Divides(u * a, u, 0, a);
    assert x + a - 1 == u * a + (x + a - 1) % a;
  }

  /** First and last block of a byte range, in 64-bit arithmetic: nothing written at offset 0 wraps around. */
  function LastBlock(offset: nat, len: nat): nat {
    (if offset + len == 0 then WORD - 1 else offset + len - 1) / 4096
  }

  function BlocksTouched(offset: nat, len: nat): int {
    LastBlock(offset, len) - offset / 4096 + 1
  }

  /** The count of touched blocks is the aligned range in blocks, for every range but the empty one at 0. */
  lemma TouchedIsAligned(offset: nat, len: nat)
    requires offset + len + 4095 < WORD
    ensures BlocksTouched(offset, len) == (AlignUp(offset + len, 4096) - AlignDown(offset, 4096)) / 4096
      <==> !(offset == 0 && len == 0)
  {}

  /** The media after a plain byte copy. */
  function Overlay(media: seq<int>, offset: nat, src: seq<int>): (r: seq<int>)
    requires offset + |src| <= |media|
    ensures |r| == |media|
  {
    media[..offset] + src + media[offset + |src|..]
  }

  lemma OverlayBytes(media: seq<int>, offset: nat, src: seq<int>, i: nat)
    requires offset + |src| <= |media| && i < |media|
    ensures Overlay(media, offset, src)[i] == if offset <= i < offset + |src| then src[i - offset] else media[i]
  {}

  /** Every byte of block `b` is overwritten. */
  predicate Covered(offset: nat, len: nat, b: nat) {
    offset <= b * 4096 && (b + 1) * 4096 <= offset + len
  }

  /** Blocks from `a` up to, not including, `b` that are only partly overwritten. */
  function PartlyCovered(offset: nat, len: nat, a: nat, b: nat): nat {
    if b <= a then 0
    else PartlyCovered(offset, len, a, b - 1) + if Covered(offset, len, b - 1) then 0 else 1
  }

  lemma {:induction false} InnerBlocksCovered(offset: nat, len: nat, a: nat, b: nat)
    requires a <= b && offset <= a * 4096 && b * 4096 <= offset + len
    ensures PartlyCovered(offset, len, a, b) == 0
  {
    if a < b {
      InnerBlocksCovered(offset, len, a, b - 1);
    }
  }

  /** Reads happen only for the first and the last block of a range. */
  lemma ReadsOnlyAtTheEnds(offset: nat, len: nat)
    requires offset + len > 0 && offset + len < WORD
    ensures var first, last := offset / 4096, LastBlock(offset, len);
      PartlyCovered(offset, len, first, last + 1)
        == (if first <= last && !Covered(offset, len, first) then 1 else 0)
         + (if first < last && !Covered(offset, len, last) then 1 else 0)
  {
    var first, last := offset / 4096, LastBlock(offset, len);
    if first < last {
      PartlySplit(offset, len, first, last);
      InnerBlocksCovered(offset, len, first + 1, last);
    } else if first == last {
      assert PartlyCovered(offset, len, first, first) == 0;
    }
  }

  lemma {:induction false} PartlySplit(offset: nat, len: nat, a: nat, b: nat)
    requires a < b
    ensures PartlyCovered(offset, len, a, b)
         == PartlyCovered(offset, len, a + 1, b) + if Covered(offset, len, a) then 0 else 1
  {
    if a + 1 < b {
      PartlySplit(offset, len, a, b - 1);
    } else {
      assert PartlyCovered(offset, len, a, a) == 0;
    }
  }

  class ModelDevice {
    const media: array<int>
    var blockReads: nat
    var blockWrites: nat

    constructor (blocks: nat)
      ensures media.Length == blocks * 4096 && fresh(media)
      ensures (forall i | 0 <= i < media.Length :: media[i] == 0) && blockReads == blockWrites == 0
    {
      media := new int[blocks * 4096](_ => 0);
      blockReads, blockWrites := 0, 0;
    }

    /** Read the block if it is only partly overwritten, modify, write it back. */
    method WriteBlock(b: nat, offset: nat, src: seq<int>)
      requires (b + 1) * 4096 <= media.Length && offset / 4096 <= b <= LastBlock(offset, |src|)
      requires 0 < offset + |src| <= media.Length
      modifies this, media
      ensures blockWrites == old(blockWrites) + 1
      ensures blockReads == old(blockReads) + if Covered(offset, |src|, b) then 0 else 1
      ensures forall i | 0 <= i < media.Length ::
        media[i] == (if b * 4096 <= i < (b + 1) * 4096 && offset <= i < offset + |src| then src[i - offset]
                     else old(media[i]))
    {
      var begin := b * 4096;
      var lo := if offset > begin then offset else begin;
      var hi := if offset + |src| < begin + 4096 then offset + |src| else begin + 4096;
      var staging := new int[4096](_ => 0);
      if hi - lo != 4096 {
        forall i | 0 <= i < 4096 {
          staging[i] := media[begin + i];
        }
        blockReads := blockReads + 1;
      }
      forall i | lo - begin <= i < hi - begin {
        staging[i] := src[begin + i - offset];
      }
      forall i | 0 <= i < 4096 {
        media[begin + i] := staging[i];
      }
      blockWrites := blockWrites + 1;
    }

    /** The block-at-a-time write equals the plain copy, writes each touched block once, and reads exactly
        the blocks that are partly covered. The empty write at offset 0 is left to the caller to avoid. */
    method Write(offset: nat, src: seq<int>)
      requires 0 < offset + |src| <= media.Length < WORD && media.Length % 4096 == 0
      modifies this, media
      ensures media[..] == Overlay(old(media[..]), offset, src)
      ensures forall i | 0 <= i < media.Length ::
        media[i] == if offset <= i < offset + |src| then src[i - offset] else old(media[i])
      ensures blockWrites == old(blockWrites) + BlocksTouched(offset, |src|)
      ensures blockReads == old(blockReads) + PartlyCovered(offset, |src|, offset / 4096, LastBlock(offset, |src|) + 1)
      ensures blockReads <= old(blockReads) + 2
    {
      var first, last := offset / 4096, LastBlock(offset, |src|);
      var b := first;
      while b <= last
        invariant first <= b && (b <= last + 1)
        invariant blockWrites == old(blockWrites) + (b - first)
        invariant blockReads == old(blockReads) + PartlyCovered(offset, |src|, first, b)
        invariant forall i | 0 <= i < media.Length ::
          media[i] == (if offset <= i < offset + |src| && i < b * 4096 then src[i - offset] else old(media[i]))
        decreases last + 1 - b
      {
        WriteBlock(b, offset, src);
        b := b + 1;
      }
      ReadsOnlyAtTheEnds(offset, |src|);
      assert media[..] == Overlay(old(media[..]), offset, src);
    }
  }
}
