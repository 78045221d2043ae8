/** The two rings of the io_uring model: free-running 32-bit counters, slot = counter % N. */
module IoRing {
  import opened Arithmetic

  const WRAP := 0x1_0000_0000

  /** counter % n. */
  function Slot(c: nat, n: nat): (k: nat)
    requires n > 0
    ensures k < n
  {
    if c < n then c else Slot(c - n, n)
  }

  lemma {:induction false} SlotIsMod(c: nat, n: nat)
    requires n > 0
    ensures Slot(c, n) == c % n
  {
    if c < n {
      Divides(c, 0, c, n);
    } else {
      SlotIsMod(c - n, n);
      ModAdd(c - n, n, n);
    }
  }

  /** The counter `i` steps after `head`, in 32 bits. */
  function Ahead(head: nat, i: nat): nat
    requires head < WRAP && i < WRAP
  {
    if head + i < WRAP then head + i else head + i - WRAP
  }

  function Place(head: nat, i: nat, n: nat): (k: nat)
    requires n > 0 && head < WRAP && i < WRAP
    ensures k < n
  {
    Slot(Ahead(head, i), n)
  }

  /** Entries between two counters, in 32-bit arithmetic. */
  function Between(head: nat, tail: nat): (c: nat)
    requires head < WRAP && tail < WRAP
    ensures c < WRAP && Ahead(head, c) == tail
  {
    if head <= tail then tail - head else tail + WRAP - head
  }

  /** Stepping a 32-bit counter steps the slot around the ring, for every counter, exactly when the ring
      size divides 2^32. */
  lemma WrapNeedsDivisor(n: nat)
    requires 0 < n
    ensures (forall c: nat | c < WRAP :: Place(c, 1, n) == (c % n + 1) % n) <==> WRAP % n == 0
  {
    if WRAP % n == 0 {
      forall c: nat | c < WRAP
        ensures Place(c, 1, n) == (c % n + 1) % n
      {
        PlaceIsMod(c, 1, n);
        ModStep(c, n);
      }
    } else {
      var c: nat := WRAP - 1;
      ModStep(c, n);
      assert Place(c, 1, n) == 0;
    }
  }

  lemma ModStep(c: nat, n: nat)
    requires n > 0
    ensures (c % n + 1) % n == (c + 1) % n
  {
    ModAdd(c, 1, n);
    if c % n + 1 < n {
      Divides(c % n + 1, 0, c % n + 1, n);
    } else {
      Divides(c % n + 1, 1, 0, n);
    }
  }

  lemma PlaceIsMod(head: nat, i: nat, n: nat)
    requires 0 < n && WRAP % n == 0 && head < WRAP && i < WRAP
    ensures Place(head, i, n) == (head + i) % n
  {
    SlotIsMod(Ahead(head, i), n);
    ModMod(head + i, WRAP, n);
    Divides(head + i, if head + i < WRAP then 0 else 1, Ahead(head, i), WRAP);
  }

  /** Entries less than a ring apart lie in different slots, across the wrap-around too. */
  lemma PlacesApart(head: nat, i: nat, j: nat, n: nat)
    requires 0 < n && WRAP % n == 0 && head < WRAP && i < j < i + n && j < WRAP
    ensures Place(head, i, n) != Place(head, j, n)
  {
    PlaceIsMod(head, i, n);
    PlaceIsMod(head, j, n);
    ModApart(head + i, head + j, n);
  }

  /** The test for a full ring sees one exactly when the ring is smaller than the range of the counters. */
  lemma FullIsSeen(head: nat, n: nat)
    requires head < WRAP && 0 < n && WRAP % n == 0
    ensures Between(head, (head + n) % WRAP) == n <==> n < WRAP
  {
    assert n <= WRAP by {
      if n > WRAP {
        Divides(WRAP, 0, WRAP, n);
      }
    }
  }

  /** `n` divides 2^32. */
  predicate Divisor(n: nat) { 0 < n < WRAP && Slot(WRAP, n) == 0 }

  // ---- the queue that slots and counters stand for ----

  function Queue<T>(slots: seq<T>, head: nat, count: nat): (q: seq<T>)
    requires 0 < |slots| < WRAP && head < WRAP && count <= |slots|
    ensures |q| == count
  {
    seq(count, i requires 0 <= i < count => slots[Place(head, i, |slots|)])
  }

  /** Storing behind the last entry appends it. */
  lemma QueuePush<T>(slots: seq<T>, head: nat, count: nat, x: T)
    requires Divisor(|slots|) && head < WRAP && count < |slots|
    ensures Queue(slots[Place(head, count, |slots|) := x], head, count + 1) == Queue(slots, head, count) + [x]
  {
    SlotIsMod(WRAP, |slots|);
    forall i: nat | i < count
      ensures Place(head, i, |slots|) != Place(head, count, |slots|)
    {
      PlacesApart(head, i, count, |slots|);
    }
  }

  /** Moving the head on takes the first entry. */
  lemma QueuePop<T>(slots: seq<T>, head: nat, count: nat)
    requires 0 < |slots| < WRAP && head < WRAP && 0 < count <= |slots|
    ensures Queue(slots, head, count) == [slots[Slot(head, |slots|)]] + Queue(slots, Ahead(head, 1), count - 1)
  {
    forall i: nat | 0 < i < count
      ensures Ahead(Ahead(head, 1), i - 1) == Ahead(head, i)
    {}
  }

  lemma NextCounter(head: nat, tail: nat)
    requires head < WRAP && tail < WRAP && head != tail
    ensures (head + 1) % 0x1_0000_0000 == Ahead(head, 1)
    ensures Between(Ahead(head, 1), tail) == Between(head, tail) - 1
  {}

  class Ring<T(0)> {
    const n: nat
    const slots: array<T>
    var head: nat
    var tail: nat

    ghost predicate Valid()
      reads this
    {
      && Divisor(n) && slots.Length == n
      && head < WRAP && tail < WRAP && Between(head, tail) <= n
    }

    /** The queue the ring stands for. */
    ghost function Contents(): (s: seq<T>)
      requires Valid()
      reads this, slots
      ensures |s| == Between(head, tail)
    {
      Queue(slots[..], head, Between(head, tail))
    }

    constructor (n: nat)
      requires Divisor(n)
      ensures Valid() && Contents() == [] && this.n == n && fresh(slots)
    {
      this.n := n;
      slots := new T[n];
      head, tail := 0, 0;
    }

    method Index(c: nat) returns (k: nat)
      requires n > 0
      ensures k == Slot(c, n)
    {
      SlotIsMod(c, n);
      k := c % n;
    }

    /** Refused, and nothing changed, exactly when n entries wait. */
    method Push(x: T) returns (accepted: bool)
      requires Valid()
      modifies this`tail, slots
      ensures Valid() && accepted == (|old(Contents())| < n)
      ensures Contents() == if accepted then old(Contents()) + [x] else old(Contents())
    {
      if Between(head, tail) == n {
        return false;
      }
      QueuePush(slots[..], head, Between(head, tail), x);
      var k := Index(tail);
      slots[k] := x;
      tail := (tail + 1) % 0x1_0000_0000;
      return true;
    }

    method Pop() returns (found: bool, x: T)
      requires Valid()
      modifies this`head
      ensures Valid() && found == (old(Contents()) != [])
      ensures if found then old(Contents()) == [x] + Contents() else Contents() == old(Contents())
    {
      if head == tail {
        x := *;
        return false, x;
      }
      ghost var next, count := Ahead(head, 1), Between(head, tail);
      QueuePop(slots[..], head, count);
      NextCounter(head, tail);
      var k := Index(head);
      x := slots[k];
      head := (head + 1) % 0x1_0000_0000;
      assert head == next && Between(head, tail) == count - 1;
      return true, x;
    }
  }

  // ---- io_uring_enter ----

  datatype Sqe = Sqe(opcode: int, fd: int, off: nat, userData: nat)

  datatype Cqe = Cqe(userData: nat, res: int)

  const READ := 22
  const FILE_SIZE := 65536
  const OFFSETS := 0x1_0000_0000_0000_0000

  /** 4096 for a read the model accepts, -EINVAL otherwise; the bound is computed in 64 bits. */
  function Result(s: Sqe): Cqe {
    Cqe(s.userData, if s.opcode == READ && (s.off + 4096) % 0x1_0000_0000_0000_0000 <= FILE_SIZE then 4096 else -22)
  }

  /** A read succeeds exactly when it lies inside the file, for every offset whose end does not overflow
      and for no other. */
  lemma ResultIsRange(s: Sqe)
    requires s.opcode == READ && s.off < OFFSETS
    ensures (Result(s).res == 4096 <==> s.off + 4096 <= FILE_SIZE) <==> s.off + 4096 < OFFSETS
  {}

  /** What the caller of the ring sees for submission `s`. */
  ghost predicate Completes(s: Sqe, c: Cqe) {
    && c.userData == s.userData && (c.res == 4096 || c.res == -22)
    && (s.off < 0x1_0000_0000_0000_0000 ==>
          (c.res == 4096 <==> s.opcode == 22 && (s.off + 4096 <= 65536 || 0x1_0000_0000_0000_0000 <= s.off + 4096)))
  }

  lemma ResultCompletes(s: Sqe)
    ensures Completes(s, Result(s))
  {}

  /** `after` is `before` and then one completion for each of `subs`, in order. */
  ghost predicate Answered(before: seq<Cqe>, subs: seq<Sqe>, after: seq<Cqe>) {
    && |after| == |before| + |subs| && after[..|before|] == before
    && forall i | 0 <= i < |subs| :: Completes(subs[i], after[|before| + i])
  }

  lemma ResultsAnswer(before: seq<Cqe>, subs: seq<Sqe>)
    ensures Answered(before, subs, before + Results(subs))
  {
    forall i | 0 <= i < |subs|
      ensures Completes(subs[i], (before + Results(subs))[|before| + i])
    {
      ResultCompletes(subs[i]);
    }
  }

  function Results(ss: seq<Sqe>): (r: seq<Cqe>)
    ensures |r| == |ss|
  {
    seq(|ss|, i requires 0 <= i < |ss| => Result(ss[i]))
  }

  /** Completions offered one by one to a ring of `n` entries that already holds `pending`. */
  function Offered(pending: seq<Cqe>, posted: seq<Cqe>, n: nat): seq<Cqe> {
    if posted == [] then pending
    else
      var before := Offered(pending, posted[..|posted| - 1], n);
      if |before| < n then before + [posted[|posted| - 1]] else before
  }

  /** The first ones that fit are kept, in order, and the rest is dropped. */
  lemma {:induction false} OfferedIsPrefix(pending: seq<Cqe>, posted: seq<Cqe>, n: nat)
    requires |pending| <= n
    ensures var room := n - |pending|;
      Offered(pending, posted, n) == pending + if |posted| <= room then posted else posted[..room]
    decreases |posted|
  {
    if posted != [] {
      var before := posted[..|posted| - 1];
      OfferedIsPrefix(pending, before, n);
      assert posted == before + [posted[|posted| - 1]];
    }
  }

  /** What the loop of `enter` keeps: after `k` rounds the rings hold `subs` without its first `k` entries,
      and their completions behind the pending ones. */
  ghost predicate Posting(subs: seq<Sqe>, pending: seq<Cqe>, n: nat, k: nat, sq: seq<Sqe>, cq: seq<Cqe>) {
    k <= |subs| && sq == subs[k..] && cq == Offered(pending, Results(subs[..k]), n)
  }

  lemma PostingStarts(subs: seq<Sqe>, pending: seq<Cqe>, n: nat)
    ensures Posting(subs, pending, n, 0, subs, pending)
  {}

  lemma PostingRound(subs: seq<Sqe>, pending: seq<Cqe>, n: nat, k: nat, s: Sqe, rest: seq<Sqe>, cq: seq<Cqe>)
    requires Posting(subs, pending, n, k, [s] + rest, cq)
    ensures k < |subs| && Posting(subs, pending, n, k + 1, rest, if |cq| < n then cq + [Result(s)] else cq)
  {
    assert subs[k..] == [s] + rest;
    assert subs[k] == subs[k..][0];
    assert subs[k + 1..] == subs[k..][1..];
    assert Results(subs[..k + 1])[..k] == Results(subs[..k]);
  }

  lemma PostingEnds(subs: seq<Sqe>, pending: seq<Cqe>, n: nat, k: nat, cq: seq<Cqe>)
    requires Posting(subs, pending, n, k, [], cq) && |pending| <= n
    ensures k == |subs| && cq == Offered(pending, Results(subs), n)
    ensures |pending| + |subs| <= n <==> cq == pending + Results(subs)
  {
    assert subs[..k] == subs;
    OfferedIsPrefix(pending, Results(subs), n);
  }

  /** 4096 or -EINVAL: a read of 4096 bytes succeeds when it lies inside the file, and also when its end
      overflows 64 bits. */
  method Serve(s: Sqe) returns (res: int)
    ensures Cqe(s.userData, res) == Result(s)
    ensures res == 4096 || res == -22
    ensures s.off < OFFSETS ==>
      (res == 4096 <==> s.opcode == READ && (s.off + 4096 <= FILE_SIZE || OFFSETS <= s.off + 4096))
  {
    res := -22;
    if s.opcode == READ && (s.off + 4096) % 0x1_0000_0000_0000_0000 <= FILE_SIZE {
      res := 4096;
    }
  }

  /** Consume every submission and post one completion for each, in order; what no longer fits is dropped,
      and nothing is exactly when pending completions and submissions fit together. */
  method Enter(sq: Ring<Sqe>, cq: Ring<Cqe>) returns (submitted: nat)
    requires sq.Valid() && cq.Valid()
    modifies sq`head, cq`tail, cq.slots
    ensures sq.Valid() && cq.Valid() && sq.Contents() == []
    ensures submitted == |old(sq.Contents())|
    ensures cq.Contents() == Offered(old(cq.Contents()), Results(old(sq.Contents())), cq.n)
    ensures |old(cq.Contents())| + submitted <= cq.n <==>
      cq.Contents() == old(cq.Contents()) + Results(old(sq.Contents()))
    ensures |old(cq.Contents())| + submitted <= cq.n ==>
      Answered(old(cq.Contents()), old(sq.Contents()), cq.Contents())
  {
    ghost var subs, pending := sq.Contents(), cq.Contents();
    PostingStarts(subs, pending, cq.n);
    submitted := 0;
    while true
      invariant sq.Valid() && cq.Valid()
      invariant Posting(subs, pending, cq.n, submitted, sq.Contents(), cq.Contents())
      decreases |subs| - submitted
    {
      var found, s := sq.Pop();
      if !found {
        break;
      }
      var res := Serve(s);
      PostingRound(subs, pending, cq.n, submitted, s, sq.Contents(), cq.Contents());
      var accepted := cq.Push(Cqe(s.userData, res));
      submitted := submitted + 1;
    }
    PostingEnds(subs, pending, cq.n, submitted, cq.Contents());
    ResultsAnswer(pending, subs);
  }
}
