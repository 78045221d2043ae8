/** One NVMe queue pair as values: two rings, four indexes, two doorbells, and one step for each thing the
    host or the controller does. Entry fields that `submit` and `controller_run` always leave zero are omitted. */
module NvmeModel {

  const PAGE_BYTES := 4096

  datatype Sqe = Sqe(opcode: nat, commandId: nat, nsid: nat, prp1: nat, slba: nat)

  datatype Cqe = Cqe(sqHead: nat, sqId: nat, commandId: nat, status: nat)

  datatype Pair = Pair(
    size: nat, sq: seq<Sqe>, cq: seq<Cqe>,
    sqTail: nat, cqHead: nat, sqHead: nat, cqTail: nat,
    sqDoorbell: nat, cqDoorbell: nat,
    nextId: nat, doorbellWrites: nat,
    ram: seq<nat>, woken: seq<nat>, errors: nat)

  /** One action: the host submits, rings, takes one completion or rings back; the controller fetches one. */
  datatype Event = Submit(lba: nat, buffer: nat) | Ring | Fetch | Reap | RingBack

  const EMPTY_SQE := Sqe(0, 0, 0, 0, 0)
  const EMPTY_CQE := Cqe(0, 0, 0, 0)

  function Make(size: nat, ram: seq<nat>): Pair {
    Pair(size, seq(size, _ => EMPTY_SQE), seq(size, _ => EMPTY_CQE), 0, 0, 0, 0, 0, 0, 0, 0, ram, [], 0)
  }

  predicate Indexed(q: Pair) {
    && 2 <= q.size <= 0x1_0000 && |q.sq| == q.size && |q.cq| == q.size
    && q.sqTail < q.size && q.cqHead < q.size && q.sqHead < q.size && q.cqTail < q.size
    && q.sqDoorbell < q.size && q.cqDoorbell < q.size && q.nextId < 0x1_0000
  }

  /** (i + 1) % size, for an index of the ring. */
  function Next(i: nat, size: nat): nat {
    if i + 1 == size then 0 else i + 1
  }

  /** How many steps lead from index `a` to index `b` around the ring. */
  function Distance(a: nat, b: nat, size: nat): int {
    if a <= b then b - a else b + size - a
  }

  /** Advancing the tail would make the ring look empty. */
  predicate Full(q: Pair)
    requires Indexed(q)
  {
    Next(q.sqTail, q.size) == q.sqHead
  }

  function DoSubmit(q: Pair, lba: nat, buffer: nat): Pair
    requires Indexed(q)
  {
    if Full(q) then q
    else q.(sq := q.sq[q.sqTail := Sqe(2, q.nextId, 1, buffer, lba)],
            nextId := Next(q.nextId, 0x1_0000),
            sqTail := Next(q.sqTail, q.size))
  }

  function DoRing(q: Pair): Pair {
    q.(sqDoorbell := q.sqTail, doorbellWrites := q.doorbellWrites + 1)
  }

  /** The page at `prp1` becomes the block at `slba`, whose bytes all equal that address modulo 256. */
  function Dma(ram: seq<nat>, e: Sqe): seq<nat> {
    seq(|ram|, i requires 0 <= i < |ram| => if e.prp1 <= i < e.prp1 + PAGE_BYTES then e.slba % 256 else ram[i])
  }

  /** One round of the controller's loop, which it runs while the head has not met the doorbell. */
  function DoFetch(q: Pair): Pair
    requires Indexed(q)
  {
    if q.sqHead == q.sqDoorbell then q
    else
      var e := q.sq[q.sqHead];
      var head := Next(q.sqHead, q.size);
      q.(sqHead := head, ram := Dma(q.ram, e),
         cq := q.cq[q.cqTail := Cqe(head, 1, e.commandId, 1)],
         cqTail := Next(q.cqTail, q.size))
  }

  /** One round of the host's completion loop. */
  function DoReap(q: Pair): Pair
    requires Indexed(q)
  {
    if q.cqHead == q.cqTail then q
    else
      var c := q.cq[q.cqHead];
      q.(cqHead := Next(q.cqHead, q.size), woken := q.woken + [c.commandId],
         errors := if c.status / 2 != 0 then q.errors + 1 else q.errors)
  }

  function DoRingBack(q: Pair): Pair {
    q.(cqDoorbell := q.cqHead, doorbellWrites := q.doorbellWrites + 1)
  }

  function Step(q: Pair, ev: Event): (r: Pair)
    requires Indexed(q)
    ensures Indexed(r) && r.size == q.size && |r.ram| == |q.ram|
  {
    match ev
    case Submit(lba, buffer) => DoSubmit(q, lba, buffer)
    case Ring => DoRing(q)
    case Fetch => DoFetch(q)
    case Reap => DoReap(q)
    case RingBack => DoRingBack(q)
  }

  function Run(q: Pair, evs: seq<Event>): (r: Pair)
    requires Indexed(q)
    ensures Indexed(r) && r.size == q.size
  {
    if evs == [] then q else Step(Run(q, evs[..|evs| - 1]), evs[|evs| - 1])
  }

  function Times(ev: Event, n: nat): seq<Event> { seq(n, _ => ev) }

  /** Completions the host can see. */
  function Visible(q: Pair): int { Distance(q.cqHead, q.cqTail, q.size) }

  /** The controller does not test for a full completion ring: a fetch adds one visible completion exactly
      when fewer than size - 1 are visible, and otherwise hides all of them. */
  lemma FetchShowsUnlessFull(q: Pair)
    requires Indexed(q) && q.sqHead != q.sqDoorbell
    ensures Visible(DoFetch(q)) == Visible(q) + 1 <==> Visible(q) < q.size - 1
    ensures Visible(q) == q.size - 1 ==> Visible(DoFetch(q)) == 0
  {}

  /** The submission slot `k` places after the head. */
  function Around(q: Pair, k: nat): Sqe
    requires Indexed(q) && k < q.size
  {
    q.sq[if q.sqHead + k < q.size then q.sqHead + k else q.sqHead + k - q.size]
  }
}
