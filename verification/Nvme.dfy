/** The queue pair as the C model runs it: rings and host RAM are arrays updated in place.
    Each method is proved against the steps of NvmeModel that it performs. */
module Nvme {
  import opened Arithmetic
  import opened NvmeModel

  class QueuePair {
    const size: nat
    const sq: array<Sqe>
    const cq: array<Cqe>
    const hostRam: array<nat>
    var sqTail: nat
    var cqHead: nat
    var sqHead: nat
    var cqTail: nat
    var sqDoorbell: nat
    var cqDoorbell: nat
    var nextId: nat
    var doorbellWrites: nat
    var woken: seq<nat>
    var errors: nat

    ghost function View(): Pair
      reads this, sq, cq, hostRam
    {
      Pair(size, sq[..], cq[..], sqTail, cqHead, sqHead, cqTail, sqDoorbell, cqDoorbell,
           nextId, doorbellWrites, hostRam[..], woken, errors)
    }

    ghost predicate Valid()
      reads this, sq, cq, hostRam
    {
      Indexed(View())
    }

    /** Every command the controller has been rung for transfers into host RAM. */
    ghost predicate BuffersFit()
      requires Valid()
      reads this, sq, cq, hostRam
    {
      forall k | 0 <= k < Distance(sqHead, sqDoorbell, size) ::
        Around(View(), k).prp1 + PAGE_BYTES <= hostRam.Length
    }

    constructor (size: nat, ram: array<nat>)
      requires 2 <= size <= 0x1_0000
      ensures Valid() && View() == Make(size, ram[..]) && hostRam == ram && fresh(sq) && fresh(cq)
    {
      this.size := size;
      sq := new Sqe[size](_ => EMPTY_SQE);
      cq := new Cqe[size](_ => EMPTY_CQE);
      hostRam := ram;
      sqTail, cqHead, sqHead, cqTail, sqDoorbell, cqDoorbell := 0, 0, 0, 0, 0, 0;
      nextId, doorbellWrites, woken, errors := 0, 0, [], 0;
      new;
      assert sq[..] == Make(size, ram[..]).sq;
      assert cq[..] == Make(size, ram[..]).cq;
    }

    /** The C expression (i + 1) % kSize stored in 16 bits. */
    method Advance(i: nat) returns (j: nat)
      requires 2 <= size <= 0x1_0000 && i < size
      ensures j == Next(i, size)
    {
      NextIsMod(i, size);
      j := (i + 1) % size;
      j := j % 0x1_0000;
    }

    method Submit(lba: nat, buffer: nat) returns (accepted: bool)
      requires Valid()
      modifies this`sqTail, this`nextId, sq
      ensures Valid() && View() == Step(old(View()), NvmeModel.Submit(lba, buffer))
      ensures accepted == !Full(old(View()))
      ensures accepted ==> nextId == (old(nextId) + 1) % 0x1_0000 && sq[..] == old(sq[..])[old(sqTail) :=
        Sqe(opcode := 2, commandId := old(nextId), nsid := 1, prp1 := buffer, slba := lba)]
    {
      var tail := Advance(sqTail);
      if tail == sqHead {
        return false;
      }
      sq[sqTail] := Sqe(2, nextId, 1, buffer, lba);
      nextId := (nextId + 1) % 0x1_0000;
      sqTail := tail;
      return true;
    }

    method RingSqDoorbell()
      requires Valid()
      modifies this`sqDoorbell, this`doorbellWrites
      ensures Valid() && View() == Step(old(View()), Ring)
    {
      sqDoorbell := sqTail;
      doorbellWrites := doorbellWrites + 1;
    }

    method DmaWrite(e: Sqe)
      requires e.prp1 + PAGE_BYTES <= hostRam.Length
      modifies hostRam
      ensures hostRam[..] == Dma(old(hostRam[..]), e)
      ensures forall i | 0 <= i < hostRam.Length ::
        hostRam[i] == if e.prp1 <= i < e.prp1 + 4096 then e.slba % 256 else old(hostRam[i])
    {
      forall i | e.prp1 <= i < e.prp1 + PAGE_BYTES {
        hostRam[i] := e.slba % 256;
      }
    }

    /** The device side: fetch every command up to the doorbell, transfer, complete. */
    method ControllerRun()
      requires Valid() && BuffersFit()
      modifies this`sqHead, this`cqTail, cq, hostRam
      ensures Valid() && sqHead == sqDoorbell
      ensures View() == Run(old(View()), Times(Fetch, Distance(old(sqHead), sqDoorbell, size)))
    {
      ghost var q := View();
      ghost var n := 0;
      while sqHead != sqDoorbell
        invariant Valid() && BuffersFit() && View() == Run(q, Times(Fetch, n))
        invariant n + Distance(sqHead, sqDoorbell, size) == Distance(q.sqHead, sqDoorbell, size)
        decreases Distance(sqHead, sqDoorbell, size)
      {
        TimesAgain(q, Fetch, n);
        ghost var now := View();
        assert Around(now, 0) == sq[sqHead];
        var e := sq[sqHead];
        sqHead := Advance(sqHead);
        DmaWrite(e);
        cq[cqTail] := Cqe(sqHead, 1, e.commandId, 1);
        cqTail := Advance(cqTail);
        AroundMoves(now, View());
        n := n + 1;
      }
    }

    /** One round of the completion loop. */
    method TakeCompletion()
      requires Valid() && cqHead != cqTail
      modifies this`cqHead, this`woken, this`errors
      ensures Valid() && View() == Step(old(View()), NvmeModel.Reap)
      ensures woken == old(woken) + [cq[old(cqHead)].commandId]
      ensures errors == old(errors) + if cq[old(cqHead)].status <= 1 then 0 else 1
    {
      var c := cq[cqHead];
      if c.status / 2 != 0 {
        errors := errors + 1;
      }
      woken := woken + [c.commandId];
      cqHead := Advance(cqHead);
    }

    method RingCqDoorbell()
      requires Valid()
      modifies this`cqDoorbell, this`doorbellWrites
      ensures Valid() && View() == Step(old(View()), RingBack)
    {
      cqDoorbell := cqHead;
      doorbellWrites := doorbellWrites + 1;
    }

    /** Interrupt handler or poll: take every completion, then ring back once. */
    method Reap() returns (done: nat)
      requires Valid()
      modifies this`cqHead, this`cqDoorbell, this`doorbellWrites, this`woken, this`errors
      ensures Valid() && cqHead == cqTail
      ensures done == Visible(old(View()))
      ensures View() == Step(Run(old(View()), Times(NvmeModel.Reap, done)), RingBack)
    {
      ghost var q := View();
      done := 0;
      while cqHead != cqTail
        invariant Valid() && View() == Run(q, Times(NvmeModel.Reap, done))
        invariant done + Distance(cqHead, cqTail, size) == Visible(q)
        decreases Distance(cqHead, cqTail, size)
      {
        TimesAgain(q, NvmeModel.Reap, done);
        TakeCompletion();
        done := done + 1;
      }
      RingCqDoorbell();
    }
  }

  lemma AroundMoves(q: Pair, r: Pair)
    requires Indexed(q) && Indexed(r) && r.size == q.size && r.sq == q.sq && r.sqHead == Next(q.sqHead, q.size)
    requires q.sqHead != q.sqDoorbell == r.sqDoorbell
    ensures Distance(r.sqHead, r.sqDoorbell, r.size) == Distance(q.sqHead, q.sqDoorbell, q.size) - 1
    ensures forall k: nat | k + 1 < q.size :: Around(r, k) == Around(q, k + 1)
  {}

  lemma NextIsMod(i: nat, size: nat)
    requires i < size
    ensures (i + 1) % size == Next(i, size)
  {
    if i + 1 == size {
      Divides(i + 1, 1, 0, size);
    } else {
      Divides(i + 1, 0, i + 1, size);
    }
  }

  lemma TimesAgain(q: Pair, ev: Event, n: nat)
    requires Indexed(q)
    ensures Run(q, Times(ev, n + 1)) == Step(Run(q, Times(ev, n)), ev)
  {
    assert Times(ev, n + 1)[..n] == Times(ev, n);
  }
}
