/** Every interleaving of host and controller against an unbounded first-in first-out reference. */
module NvmeRuns {
  import opened NvmeModel

  /** The reference: all commands ever accepted, in order, and how far each party has got. */
  datatype Fifo = Fifo(accepted: seq<Sqe>, rung: nat, fetched: nat, reaped: nat, rungBack: nat)

  const START := Fifo([], 0, 0, 0, 0)

  /** The slot reached by `k` advances from slot 0. */
  function Slot(k: nat, size: nat): (i: nat)
    requires size > 0
    ensures i < size
  {
    if k == 0 then 0 else Next(Slot(k - 1, size), size)
  }

  lemma {:induction false} SlotDistance(a: nat, b: nat, size: nat)
    requires a <= b < a + size
    ensures Distance(Slot(a, size), Slot(b, size), size) == b - a
    decreases b
  {
    if a < b {
      SlotDistance(a, b - 1, size);
    }
  }

  lemma {:induction false} SlotStart(k: nat, size: nat)
    requires k < size
    ensures Slot(k, size) == k
  {
    if k > 0 {
      SlotStart(k - 1, size);
    }
  }

  /** The 16-bit id of the command accepted `k`-th. */
  function Id(k: nat): nat { Slot(k, 0x1_0000) }

  function Ids(cs: seq<Sqe>): seq<nat> { seq(|cs|, i requires 0 <= i < |cs| => cs[i].commandId) }

  ghost function SpecStep(h: Fifo, size: nat, ev: Event): Fifo {
    match ev
    case Submit(lba, buffer) =>
      if |h.accepted| - h.fetched == size - 1 then h
      else h.(accepted := h.accepted + [
        Sqe(opcode := 2, commandId := Id(|h.accepted|), nsid := 1, prp1 := buffer, slba := lba)])
    case Ring => h.(rung := |h.accepted|)
    case Fetch => if h.fetched < h.rung then h.(fetched := h.fetched + 1) else h
    case Reap => if h.reaped < h.fetched then h.(reaped := h.reaped + 1) else h
    case RingBack => h.(rungBack := h.reaped)
  }

  ghost function SpecRun(h: Fifo, size: nat, evs: seq<Event>): Fifo {
    if evs == [] then h else SpecStep(SpecRun(h, size, evs[..|evs| - 1]), size, evs[|evs| - 1])
  }

  /** The condition on a schedule: the controller starts a command only while fewer than size - 1 completions
      wait to be reaped. */
  ghost predicate Allowed(h: Fifo, size: nat, ev: Event) {
    ev.Fetch? && h.fetched < h.rung ==> h.fetched - h.reaped < size - 1
  }

  ghost predicate Disciplined(h: Fifo, size: nat, evs: seq<Event>) {
    evs != [] ==>
      var before := evs[..|evs| - 1];
      Disciplined(h, size, before) && Allowed(SpecRun(h, size, before), size, evs[|evs| - 1])
  }

  ghost function DmaAll(ram: seq<nat>, cs: seq<Sqe>): seq<nat> {
    if cs == [] then ram else Dma(DmaAll(ram, cs[..|cs| - 1]), cs[|cs| - 1])
  }

  // ---- what every step keeps ----

  /** Of the reference, on any schedule. */
  ghost predicate Ordered(h: Fifo, size: nat) {
    h.rungBack <= h.reaped <= h.fetched <= h.rung <= |h.accepted| < h.fetched + size
  }

  /** Each submission slot holds the latest entry written there, or nothing yet. */
  ghost predicate SqSlots(sq: seq<Sqe>, accepted: seq<Sqe>, size: nat)
    requires |sq| == size > 0
  {
    && (forall k {:trigger sq[Slot(k, size)]} {:trigger accepted[k]} | 0 <= k < |accepted| <= k + size ::
          sq[Slot(k, size)] == accepted[k])
    && (forall j | |accepted| <= j < size :: sq[j] == EMPTY_SQE)
  }

  /** The completion of the command accepted `k`-th. */
  function Posted(k: nat, size: nat): Cqe
    requires size > 0
  {
    Cqe(Slot(k + 1, size), 1, Id(k), 1)
  }

  ghost predicate CqSlots(cq: seq<Cqe>, fetched: nat, size: nat)
    requires |cq| == size > 0
  {
    && (forall k {:trigger cq[Slot(k, size)]} | 0 <= k < fetched <= k + size ::
          cq[Slot(k, size)] == Posted(k, size))
    && (forall j | fetched <= j < size :: cq[j] == EMPTY_CQE)
  }

  ghost predicate Numbered(accepted: seq<Sqe>) {
    forall k | 0 <= k < |accepted| :: accepted[k].commandId == Id(k)
  }

  function FirstIds(n: nat): seq<nat> { seq(n, k requires 0 <= k => Id(k)) }

  ghost predicate FrontIndexes(q: Pair, h: Fifo)
    requires Indexed(q)
  {
    && q.sqTail == Slot(|h.accepted|, q.size) && q.sqDoorbell == Slot(h.rung, q.size)
    && q.sqHead == Slot(h.fetched, q.size) && q.nextId == Id(|h.accepted|)
  }

  /** The submission ring and host RAM: kept by every step of every schedule. */
  ghost predicate Front(q: Pair, h: Fifo, ram: seq<nat>) {
    && Indexed(q) && Ordered(h, q.size) && FrontIndexes(q, h)
    && Numbered(h.accepted) && SqSlots(q.sq, h.accepted, q.size)
    && q.ram == DmaAll(ram, h.accepted[..h.fetched])
  }

  ghost predicate BackIndexes(q: Pair, h: Fifo)
    requires Indexed(q)
  {
    && q.cqTail == Slot(h.fetched, q.size) && q.cqHead == Slot(h.reaped, q.size)
    && q.cqDoorbell == Slot(h.rungBack, q.size)
  }

  /** The completion ring: kept by every allowed step. */
  ghost predicate Back(q: Pair, h: Fifo) {
    && Indexed(q) && h.reaped <= h.fetched < h.reaped + q.size && BackIndexes(q, h)
    && CqSlots(q.cq, h.fetched, q.size)
    && q.woken == FirstIds(h.reaped) && q.errors == 0
  }

  ghost predicate Refines(q: Pair, h: Fifo, ram: seq<nat>) {
    Front(q, h, ram) && Back(q, h)
  }

  lemma SubmitRefuses(q: Pair, h: Fifo, ram: seq<nat>)
    requires Front(q, h, ram)
    ensures Full(q) <==> |h.accepted| - h.fetched == q.size - 1
  {
    SlotDistance(h.fetched, |h.accepted|, q.size);
  }

  lemma WriteSq(sq: seq<Sqe>, accepted: seq<Sqe>, size: nat, e: Sqe)
    requires |sq| == size > 0 && SqSlots(sq, accepted, size)
    ensures SqSlots(sq[Slot(|accepted|, size) := e], accepted + [e], size)
  {
    var n := |accepted|;
    forall k | 0 <= k < n && n < k + size
      ensures Slot(k, size) != Slot(n, size)
    {
      SlotDistance(k, n, size);
    }
    if n < size {
      SlotStart(n, size);
    }
  }

  lemma WriteCq(cq: seq<Cqe>, n: nat, size: nat)
    requires |cq| == size > 0 && CqSlots(cq, n, size)
    ensures CqSlots(cq[Slot(n, size) := Posted(n, size)], n + 1, size)
  {
    forall k | 0 <= k < n && n < k + size
      ensures Slot(k, size) != Slot(n, size)
    {
      SlotDistance(k, n, size);
    }
    if n < size {
      SlotStart(n, size);
    }
  }

  lemma SubmitFront(q: Pair, h: Fifo, ram: seq<nat>, lba: nat, buffer: nat)
    requires Front(q, h, ram)
    ensures Front(DoSubmit(q, lba, buffer), SpecStep(h, q.size, Submit(lba, buffer)), ram)
  {
    SubmitRefuses(q, h, ram);
    if !Full(q) {
      var e := Sqe(2, q.nextId, 1, buffer, lba);
      WriteSq(q.sq, h.accepted, q.size, e);
      assert (h.accepted + [e])[..h.fetched] == h.accepted[..h.fetched];
    }
  }

  /** A command is fetched exactly when one has been rung for. */
  lemma FetchesNext(q: Pair, h: Fifo, ram: seq<nat>)
    requires Front(q, h, ram)
    ensures q.sqHead != q.sqDoorbell <==> h.fetched < h.rung
    ensures h.fetched < h.rung ==> q.sq[q.sqHead] == h.accepted[h.fetched]
  {
    SlotDistance(h.fetched, h.rung, q.size);
    if h.fetched < h.rung {
      assert q.sq[Slot(h.fetched, q.size)] == h.accepted[h.fetched];
    }
  }

  lemma FetchFront(q: Pair, h: Fifo, ram: seq<nat>)
    requires Front(q, h, ram)
    ensures Front(DoFetch(q), SpecStep(h, q.size, Fetch), ram)
  {
    FetchesNext(q, h, ram);
    if h.fetched < h.rung {
      assert h.accepted[..h.fetched + 1][..h.fetched] == h.accepted[..h.fetched];
    }
  }

  lemma StepFront(q: Pair, h: Fifo, ram: seq<nat>, ev: Event)
    requires Front(q, h, ram)
    ensures Front(Step(q, ev), SpecStep(h, q.size, ev), ram)
  {
    match ev
    case Submit(lba, buffer) => SubmitFront(q, h, ram, lba, buffer);
    case Ring =>
    case Fetch => FetchFront(q, h, ram);
    case Reap =>
    case RingBack =>
  }

  lemma FetchBack(q: Pair, h: Fifo, ram: seq<nat>)
    requires Refines(q, h, ram) && Allowed(h, q.size, Fetch)
    ensures Back(DoFetch(q), SpecStep(h, q.size, Fetch))
  {
    FetchesNext(q, h, ram);
    if h.fetched < h.rung {
      WriteCq(q.cq, h.fetched, q.size);
    }
  }

  /** The other half of the guard: with size - 1 completions waiting, one more fetch hides them all, and itself. */
  lemma FetchHides(q: Pair, h: Fifo, ram: seq<nat>)
    requires Refines(q, h, ram) && !Allowed(h, q.size, Fetch)
    ensures DoFetch(q).cqHead == DoFetch(q).cqTail
  {
    FetchesNext(q, h, ram);
    SlotDistance(h.reaped, h.fetched, q.size);
  }

  lemma ReapsNext(q: Pair, h: Fifo)
    requires Back(q, h)
    ensures DoReap(q) == if h.reaped < h.fetched
                         then q.(cqHead := Slot(h.reaped + 1, q.size), woken := q.woken + [Id(h.reaped)])
                         else q
  {
    SlotDistance(h.reaped, h.fetched, q.size);
    if h.reaped < h.fetched {
      assert q.cq[Slot(h.reaped, q.size)] == Posted(h.reaped, q.size);
    }
  }

  lemma ReapBack(q: Pair, h: Fifo)
    requires Back(q, h)
    ensures Back(DoReap(q), SpecStep(h, q.size, Reap))
  {
    ReapsNext(q, h);
    assert FirstIds(h.reaped + 1) == FirstIds(h.reaped) + [Id(h.reaped)];
  }

  lemma StepRefines(q: Pair, h: Fifo, ram: seq<nat>, ev: Event)
    requires Refines(q, h, ram) && Allowed(h, q.size, ev)
    ensures Refines(Step(q, ev), SpecStep(h, q.size, ev), ram)
  {
    StepFront(q, h, ram, ev);
    match ev
    case Submit(lba, buffer) =>
    case Ring =>
    case Fetch => FetchBack(q, h, ram);
    case Reap => ReapBack(q, h);
    case RingBack =>
  }

  // ---- whole runs ----

  lemma {:induction false} RunFront(q: Pair, h: Fifo, ram: seq<nat>, evs: seq<Event>)
    requires Front(q, h, ram)
    ensures Front(Run(q, evs), SpecRun(h, q.size, evs), ram)
    decreases |evs|
  {
    if evs != [] {
      var before := evs[..|evs| - 1];
      RunFront(q, h, ram, before);
      StepFront(Run(q, before), SpecRun(h, q.size, before), ram, evs[|evs| - 1]);
    }
  }

  lemma {:induction false} RunRefines(q: Pair, h: Fifo, ram: seq<nat>, evs: seq<Event>)
    requires Refines(q, h, ram) && Disciplined(h, q.size, evs)
    ensures Refines(Run(q, evs), SpecRun(h, q.size, evs), ram)
    decreases |evs|
  {
    if evs != [] {
      var before := evs[..|evs| - 1];
      RunRefines(q, h, ram, before);
      StepRefines(Run(q, before), SpecRun(h, q.size, before), ram, evs[|evs| - 1]);
    }
  }

  lemma MakeRefines(size: nat, ram: seq<nat>)
    requires 2 <= size <= 0x1_0000
    ensures Refines(Make(size, ram), START, ram)
  {
    SlotStart(0, size);
  }

  /** Exactly once, in order: the completed ids are those of the first `reaped` accepted commands, each once
      and in submit order; their transfers are in host RAM and no error is reported. The ids in flight are
      distinct although they wrap at 16 bits, exactly as long as no more than 65536 are. */
  ghost predicate OnceInOrder(q: Pair, h: Fifo, ram: seq<nat>) {
    && h.reaped <= h.fetched <= h.rung <= |h.accepted| < h.fetched + q.size
    && h.fetched < h.reaped + q.size
    && q.woken == Ids(h.accepted)[..h.reaped]
    && q.ram == DmaAll(ram, h.accepted[..h.fetched])
    && q.errors == 0
    && (DistinctFrom(h.accepted, h.reaped) <==> |h.accepted| <= h.reaped + 0x1_0000)
  }

  ghost predicate DistinctFrom(cs: seq<Sqe>, n: nat) {
    forall i, j | n <= i < j < |cs| :: cs[i].commandId != cs[j].commandId
  }

  lemma {:induction false} SlotAround(k: nat, size: nat)
    requires size > 0
    ensures Slot(k + size, size) == Slot(k, size)
  {
    if k == 0 {
      SlotStart(size - 1, size);
    } else {
      SlotAround(k - 1, size);
    }
  }

  lemma DistinctExactly(cs: seq<Sqe>, n: nat)
    requires Numbered(cs)
    ensures DistinctFrom(cs, n) <==> |cs| <= n + 0x1_0000
  {
    if |cs| <= n + 0x1_0000 {
      forall i, j | n <= i < j < |cs|
        ensures cs[i].commandId != cs[j].commandId
      {
        SlotDistance(i, j, 0x1_0000);
      }
    } else {
      SlotAround(n, 0x1_0000);
      assert cs[n].commandId == cs[n + 0x1_0000].commandId;
    }
  }

  lemma RefinesOnceInOrder(q: Pair, h: Fifo, ram: seq<nat>)
    requires Refines(q, h, ram)
    ensures OnceInOrder(q, h, ram)
  {
    IdsOf(h.accepted, h.reaped);
    DistinctExactly(h.accepted, h.reaped);
  }

  lemma IdsOf(cs: seq<Sqe>, n: nat)
    requires Numbered(cs) && n <= |cs|
    ensures Ids(cs)[..n] == FirstIds(n)
  {}

  lemma ExactlyOnceInOrder(size: nat, ram: seq<nat>, evs: seq<Event>)
    requires 2 <= size <= 0x1_0000 && Disciplined(START, size, evs)
    ensures OnceInOrder(Run(Make(size, ram), evs), SpecRun(START, size, evs), ram)
  {
    MakeRefines(size, ram);
    RunRefines(Make(size, ram), START, ram, evs);
    RefinesOnceInOrder(Run(Make(size, ram), evs), SpecRun(START, size, evs), ram);
  }

  // ---- what a command does, byte by byte ----

  /** One read on an idle ring: the page at `buffer` fills with the LBA modulo 256, nothing else in RAM changes,
      and the completion names the command. */
  lemma ReadArrives(q: Pair, lba: nat, buffer: nat)
    requires Indexed(q) && !Full(q) && q.sqHead == q.sqTail
    ensures var r := Step(Step(Step(q, Submit(lba, buffer)), Ring), Fetch);
      && |r.ram| == |q.ram|
      && (forall i | 0 <= i < |q.ram| ::
            r.ram[i] == if buffer <= i < buffer + 4096 then lba % 256 else q.ram[i])
      && r.sq == q.sq[q.sqTail := Sqe(opcode := 2, commandId := q.nextId, nsid := 1, prp1 := buffer, slba := lba)]
      && r.cq == q.cq[q.cqTail := Cqe(sqHead := r.sqHead, sqId := 1, commandId := q.nextId, status := 1)]
  {}

  /** The last of the commands `cs` whose page covers byte `i`, -1 when there is none. */
  ghost predicate LastOver(cs: seq<Sqe>, i: nat, k: int) {
    && -1 <= k < |cs|
    && (k >= 0 ==> cs[k].prp1 <= i < cs[k].prp1 + 4096)
    && forall j | k < j < |cs| :: !(cs[j].prp1 <= i < cs[j].prp1 + 4096)
  }

  /** Every byte of RAM belongs to the last fetched command whose page covers it. */
  lemma {:induction false} BytesOf(ram: seq<nat>, cs: seq<Sqe>, i: nat, k: int)
    requires i < |ram| && LastOver(cs, i, k)
    ensures |DmaAll(ram, cs)| == |ram|
    ensures DmaAll(ram, cs)[i] == if k < 0 then ram[i] else cs[k].slba % 256
    decreases |cs|
  {
    if cs != [] {
      var before := cs[..|cs| - 1];
      if k == |cs| - 1 {
        DmaAllLength(ram, before);
      } else {
        BytesOf(ram, before, i, k);
      }
    }
  }

  lemma {:induction false} DmaAllLength(ram: seq<nat>, cs: seq<Sqe>)
    ensures |DmaAll(ram, cs)| == |ram|
    decreases |cs|
  {
    if cs != [] {
      DmaAllLength(ram, cs[..|cs| - 1]);
    }
  }

  /** In every reachable state of every schedule. */
  lemma RamIsLastRead(size: nat, ram: seq<nat>, evs: seq<Event>, i: nat, k: int)
    requires 2 <= size <= 0x1_0000 && i < |ram|
    requires var h := SpecRun(START, size, evs); h.fetched <= |h.accepted| ==> LastOver(h.accepted[..h.fetched], i, k)
    ensures var q, h := Run(Make(size, ram), evs), SpecRun(START, size, evs);
      && h.fetched <= |h.accepted| && |q.ram| == |ram| && k < h.fetched
      && q.ram[i] == if k < 0 then ram[i] else h.accepted[k].slba % 256
  {
    MakeRefines(size, ram);
    RunFront(Make(size, ram), START, ram, evs);
    var h := SpecRun(START, size, evs);
    BytesOf(ram, h.accepted[..h.fetched], i, k);
  }

  /** A completion with a status other than success is reported, and every completion wakes its command. */
  lemma ReapReports(q: Pair)
    requires Indexed(q) && q.cqHead != q.cqTail
    ensures var c, r := q.cq[q.cqHead], Step(q, Reap);
      && r.woken == q.woken + [c.commandId]
      && r.errors == q.errors + (if c.status <= 1 then 0 else 1)
  {}

  ghost function Rings(evs: seq<Event>): nat {
    if evs == [] then 0
    else Rings(evs[..|evs| - 1]) + if evs[|evs| - 1].Ring? || evs[|evs| - 1].RingBack? then 1 else 0
  }

  /** One doorbell write for each Ring and RingBack, and for nothing else. */
  lemma {:induction false} DoorbellsCounted(q: Pair, evs: seq<Event>)
    requires Indexed(q)
    ensures Run(q, evs).doorbellWrites == q.doorbellWrites + Rings(evs)
    decreases |evs|
  {
    if evs != [] {
      DoorbellsCounted(q, evs[..|evs| - 1]);
    }
  }

  // ---- the condition is exact ----

  /** If the host now reaped all it can see, it would have been told of exactly the fetched commands, in order. */
  ghost predicate Delivers(q: Pair, h: Fifo) {
    && Indexed(q) && h.fetched <= |h.accepted|
    && Run(q, Times(Reap, q.size)).woken == Ids(h.accepted)[..h.fetched]
  }

  /** So it was at every point of the run. */
  ghost predicate DeliversThroughout(q: Pair, h: Fifo, evs: seq<Event>)
    requires Indexed(q)
  {
    && Delivers(Run(q, evs), SpecRun(h, q.size, evs))
    && (evs != [] ==> DeliversThroughout(q, h, evs[..|evs| - 1]))
  }

  lemma RefinesDelivers(q: Pair, h: Fifo, ram: seq<nat>)
    requires Refines(q, h, ram)
    ensures Delivers(q, h)
  {
    ReapsAll(h, q.size, q.size);
    RunRefines(q, h, ram, Times(Reap, q.size));
    IdsOf(h.accepted, h.fetched);
  }

  lemma {:induction false} NothingToReap(q: Pair, n: nat)
    requires Indexed(q) && q.cqHead == q.cqTail
    ensures Run(q, Times(Reap, n)) == q
  {
    if n > 0 {
      assert Times(Reap, n)[..n - 1] == Times(Reap, n - 1);
      NothingToReap(q, n - 1);
    }
  }

  lemma HiddenIsLost(q: Pair, h: Fifo, ram: seq<nat>)
    requires Refines(q, h, ram) && !Allowed(h, q.size, Fetch)
    ensures !Delivers(DoFetch(q), SpecStep(h, q.size, Fetch))
  {
    FetchHides(q, h, ram);
    NothingToReap(DoFetch(q), q.size);
    assert |DoFetch(q).woken| == h.reaped;
  }

  lemma {:induction false} DeliversExactly(q: Pair, h: Fifo, ram: seq<nat>, evs: seq<Event>)
    requires Refines(q, h, ram)
    ensures DeliversThroughout(q, h, evs) <==> Disciplined(h, q.size, evs)
    decreases |evs|
  {
    if evs == [] {
      RefinesDelivers(q, h, ram);
    } else {
      var before := evs[..|evs| - 1];
      DeliversExactly(q, h, ram, before);
      if Disciplined(h, q.size, before) {
        RunRefines(q, h, ram, before);
        DeliversStep(Run(q, before), SpecRun(h, q.size, before), ram, evs[|evs| - 1]);
      }
    }
  }

  lemma DeliversStep(q: Pair, h: Fifo, ram: seq<nat>, ev: Event)
    requires Refines(q, h, ram)
    ensures Delivers(Step(q, ev), SpecStep(h, q.size, ev)) <==> Allowed(h, q.size, ev)
  {
    if Allowed(h, q.size, ev) {
      StepRefines(q, h, ram, ev);
      RefinesDelivers(Step(q, ev), SpecStep(h, q.size, ev), ram);
    } else {
      HiddenIsLost(q, h, ram);
    }
  }

  /** For every ring size and every schedule: no completion is lost, repeated or out of order at any point of
      the run if and only if the controller never fetches with size - 1 completions waiting. */
  lemma CompletionsSafeExactly(size: nat, ram: seq<nat>, evs: seq<Event>)
    requires 2 <= size <= 0x1_0000
    ensures DeliversThroughout(Make(size, ram), START, evs) <==> Disciplined(START, size, evs)
  {
    MakeRefines(size, ram);
    DeliversExactly(Make(size, ram), START, ram, evs);
  }

  // ---- what the host can do about it ----

  /** The host's own rule: a submit that will be accepted keeps accepted but unreaped commands below `size`. */
  ghost predicate HostAllowed(h: Fifo, size: nat, ev: Event) {
    ev.Submit? ==> |h.accepted| - h.reaped < size - 1 || |h.accepted| - h.fetched == size - 1
  }

  ghost predicate HostDisciplined(h: Fifo, size: nat, evs: seq<Event>) {
    evs != [] ==>
      var before := evs[..|evs| - 1];
      HostDisciplined(h, size, before) && HostAllowed(SpecRun(h, size, before), size, evs[|evs| - 1])
  }

  /** Room for the completions of everything accepted. */
  ghost predicate Roomy(h: Fifo, size: nat) { |h.accepted| < h.reaped + size }

  /** The host's rule is enough, whatever the controller does and when. */
  lemma {:induction false} HostRuleSuffices(h: Fifo, size: nat, evs: seq<Event>)
    requires Ordered(h, size) && Roomy(h, size) && HostDisciplined(h, size, evs)
    ensures var r := SpecRun(h, size, evs); Disciplined(h, size, evs) && Ordered(r, size) && Roomy(r, size)
    decreases |evs|
  {
    if evs != [] {
      HostRuleSuffices(h, size, evs[..|evs| - 1]);
    }
  }

  /** And it is needed: unless there is room for everything accepted, the controller breaks its guard as soon as
      the host rings and does not reap. */
  lemma HostRuleNeeded(h: Fifo, size: nat)
    requires Ordered(h, size) && h.fetched < h.reaped + size
    ensures Disciplined(h, size, [Ring] + Times(Fetch, size)) <==> Roomy(h, size)
  {
    SpecOne(h, size, Ring);
    FetchesAll(h.(rung := |h.accepted|), size, size);
    SpecAppend(h, size, [Ring], Times(Fetch, size));
  }

  /** Submit, ring, fetch, `n` times over, reaping nothing. */
  function Laps(n: nat): seq<Event> {
    if n == 0 then [] else Laps(n - 1) + [Submit(0, 0), Ring] + [Fetch]
  }

  lemma LapsOpen(h: Fifo, size: nat)
    requires 2 <= size && |h.accepted| == h.fetched
    ensures Disciplined(h, size, [Submit(0, 0), Ring])
    ensures var r := SpecRun(h, size, [Submit(0, 0), Ring]);
      |r.accepted| == r.rung == h.fetched + 1 && r.fetched == h.fetched && r.reaped == h.reaped
  {
    var evs := [Submit(0, 0), Ring];
    assert evs[..1] == [Submit(0, 0)] && evs[..1][..0] == [];
    assert SpecRun(h, size, evs[..1]) == SpecStep(SpecRun(h, size, evs[..1][..0]), size, Submit(0, 0));
  }

  lemma {:induction false} LapsRun(size: nat, n: nat)
    requires 2 <= size && n < size
    ensures Disciplined(START, size, Laps(n))
    ensures var r := SpecRun(START, size, Laps(n)); |r.accepted| == r.rung == r.fetched == n && r.reaped == 0
  {
    if n > 0 {
      var before, open := Laps(n - 1), [Submit(0, 0), Ring];
      LapsRun(size, n - 1);
      LapsOpen(SpecRun(START, size, before), size);
      SpecAppend(START, size, before, open);
      SpecOne(SpecRun(START, size, before + open), size, Fetch);
      SpecAppend(START, size, before + open, [Fetch]);
    }
  }

  /** One fetch too many, after any schedule without: the host sees no completion at all. */
  lemma OneTooMany(size: nat, ram: seq<nat>, evs: seq<Event>)
    requires 2 <= size <= 0x1_0000 && Disciplined(START, size, evs) && !Allowed(SpecRun(START, size, evs), size, Fetch)
    ensures var q, h := Run(Make(size, ram), evs + [Fetch]), SpecRun(START, size, evs + [Fetch]);
      Visible(q) == 0 && h.fetched == h.reaped + size && !Delivers(q, h)
  {
    MakeRefines(size, ram);
    RunRefines(Make(size, ram), START, ram, evs);
    LastEvent(Make(size, ram), size, evs, Fetch);
    FetchHides(Run(Make(size, ram), evs), SpecRun(START, size, evs), ram);
    HiddenIsLost(Run(Make(size, ram), evs), SpecRun(START, size, evs), ram);
  }

  lemma LapsLast(size: nat, evs: seq<Event>)
    requires 2 <= size && evs == Laps(size - 1) + [Submit(0, 0), Ring]
    ensures Laps(size) == evs + [Fetch]
    ensures Disciplined(START, size, evs) && !Allowed(SpecRun(START, size, evs), size, Fetch)
  {
    LapsRun(size, size - 1);
    LapsOpen(SpecRun(START, size, Laps(size - 1)), size);
    SpecAppend(START, size, Laps(size - 1), [Submit(0, 0), Ring]);
  }

  /** A failing schedule on a ring of any size. */
  lemma OverrunOnEverySize(size: nat, ram: seq<nat>)
    requires 2 <= size <= 0x1_0000
    ensures var q, h := Run(Make(size, ram), Laps(size)), SpecRun(START, size, Laps(size));
      Visible(q) == 0 && h.fetched == h.reaped + size && !Delivers(q, h)
  {
    var evs := Laps(size - 1) + [Submit(0, 0), Ring];
    LapsLast(size, evs);
    OneTooMany(size, ram, evs);
  }

  lemma LastEvent(q: Pair, size: nat, evs: seq<Event>, ev: Event)
    requires Indexed(q)
    ensures Run(q, evs + [ev]) == Step(Run(q, evs), ev)
    ensures SpecRun(START, size, evs + [ev]) == SpecStep(SpecRun(START, size, evs), size, ev)
  {
    assert (evs + [ev])[..|evs + [ev]| - 1] == evs;
  }

  // ---- the submission ring, on any schedule ----

  /** The submission ring: the doorbell lies between head and tail, the slots from head to tail are the
      unfetched commands in order, and `submit` refuses exactly when size - 1 are unfetched. */
  ghost predicate CyclicOrder(q: Pair, h: Fifo) {
    && Indexed(q) && h.fetched <= |h.accepted| < h.fetched + q.size
    && Distance(q.sqHead, q.sqTail, q.size) == |h.accepted| - h.fetched
    && 0 <= Distance(q.sqHead, q.sqDoorbell, q.size) <= Distance(q.sqHead, q.sqTail, q.size)
    && (forall k | h.fetched <= k < |h.accepted| :: Around(q, k - h.fetched) == h.accepted[k])
    && (Full(q) <==> |h.accepted| - h.fetched == q.size - 1)
  }

  lemma AroundIsNext(q: Pair, h: Fifo, k: nat)
    requires Indexed(q) && h.fetched <= k < |h.accepted| < h.fetched + q.size
    requires SqSlots(q.sq, h.accepted, q.size) && q.sqHead == Slot(h.fetched, q.size)
    ensures Around(q, k - h.fetched) == h.accepted[k]
  {
    SlotDistance(h.fetched, k, q.size);
    assert q.sq[Slot(k, q.size)] == h.accepted[k];
  }

  lemma FrontInCyclicOrder(q: Pair, h: Fifo, ram: seq<nat>)
    requires Front(q, h, ram)
    ensures CyclicOrder(q, h)
  {
    SubmitRefuses(q, h, ram);
    SlotDistance(h.fetched, |h.accepted|, q.size);
    SlotDistance(h.fetched, h.rung, q.size);
    forall k | h.fetched <= k < |h.accepted|
      ensures Around(q, k - h.fetched) == h.accepted[k]
    {
      AroundIsNext(q, h, k);
    }
  }

  /** In every reachable state, whatever becomes of the completions. */
  lemma RingInCyclicOrder(size: nat, ram: seq<nat>, evs: seq<Event>)
    requires 2 <= size <= 0x1_0000
    ensures CyclicOrder(Run(Make(size, ram), evs), SpecRun(START, size, evs))
  {
    MakeRefines(size, ram);
    RunFront(Make(size, ram), START, ram, evs);
    FrontInCyclicOrder(Run(Make(size, ram), evs), SpecRun(START, size, evs), ram);
  }

  // ---- doorbell batching ----

  /** Ring once, let the controller run, reap everything, ring back. */
  function Flush(size: nat): seq<Event> {
    [Ring] + Times(Fetch, size) + Times(Reap, size) + [RingBack]
  }

  lemma {:induction false} SpecAppend(h: Fifo, size: nat, xs: seq<Event>, ys: seq<Event>)
    ensures SpecRun(h, size, xs + ys) == SpecRun(SpecRun(h, size, xs), size, ys)
    ensures Disciplined(h, size, xs + ys) <==> Disciplined(h, size, xs) && Disciplined(SpecRun(h, size, xs), size, ys)
    decreases |ys|
  {
    if ys == [] {
      assert xs + ys == xs;
    } else {
      var yb := ys[..|ys| - 1];
      assert (xs + ys)[..|xs + ys| - 1] == xs + yb;
      SpecAppend(h, size, xs, yb);
    }
  }

  lemma {:induction false} FetchesAll(h: Fifo, size: nat, n: nat)
    requires Ordered(h, size) && h.fetched < h.reaped + size
    ensures var fetched := if h.fetched + n < h.rung then h.fetched + n else h.rung;
      && SpecRun(h, size, Times(Fetch, n)) == h.(fetched := fetched)
      && (Disciplined(h, size, Times(Fetch, n)) <==> fetched < h.reaped + size)
  {
    if n > 0 {
      assert Times(Fetch, n)[..n - 1] == Times(Fetch, n - 1);
      FetchesAll(h, size, n - 1);
    }
  }

  lemma {:induction false} ReapsAll(h: Fifo, size: nat, n: nat)
    requires h.reaped <= h.fetched
    ensures Disciplined(h, size, Times(Reap, n))
    ensures SpecRun(h, size, Times(Reap, n))
         == h.(reaped := if h.reaped + n < h.fetched then h.reaped + n else h.fetched)
  {
    if n > 0 {
      assert Times(Reap, n)[..n - 1] == Times(Reap, n - 1);
      ReapsAll(h, size, n - 1);
    }
  }

  lemma SpecFlush(h: Fifo, size: nat)
    requires Ordered(h, size) && Roomy(h, size)
    ensures Disciplined(h, size, Flush(size))
    ensures SpecRun(h, size, Flush(size)) == Drained(h.accepted)
  {
    var a, b, c := [Ring], Times(Fetch, size), Times(Reap, size);
    SpecOne(h, size, Ring);
    var h1 := h.(rung := |h.accepted|);
    FetchesAll(h1, size, size);
    SpecAppend(h, size, a, b);
    var h2 := h1.(fetched := |h.accepted|);
    ReapsAll(h2, size, size);
    SpecAppend(h, size, a + b, c);
    SpecOne(h2.(reaped := |h.accepted|), size, RingBack);
    SpecAppend(h, size, a + b + c, [RingBack]);
  }

  function Drained(cs: seq<Sqe>): Fifo { Fifo(cs, |cs|, |cs|, |cs|, |cs|) }

  lemma SpecOne(h: Fifo, size: nat, ev: Event)
    ensures Disciplined(h, size, [ev]) <==> Allowed(h, size, ev)
    ensures SpecRun(h, size, [ev]) == SpecStep(h, size, ev)
  {
    assert [ev][..0] == [] && SpecRun(h, size, [ev][..0]) == h;
  }

  lemma {:induction false} LatestInSlot(j: nat, n: nat, size: nat) returns (k: nat)
    requires j < size && j < n
    ensures k < n <= k + size && Slot(k, size) == j
  {
    if n <= size {
      SlotStart(j, size);
      k := j;
    } else {
      var m := LatestInSlot(j, n - 1, size);
      if m + size == n - 1 {
        SlotDistance(m + 1, n - 1, size);
        k := n - 1;
      } else {
        k := m;
      }
    }
  }

  /** The reference state determines the queue pair, doorbell count apart. */
  lemma Determined(q: Pair, r: Pair, h: Fifo, ram: seq<nat>)
    requires Refines(q, h, ram) && Refines(r, h, ram) && q.size == r.size
    ensures r == q.(doorbellWrites := r.doorbellWrites)
  {
    forall j | 0 <= j < q.size
      ensures q.sq[j] == r.sq[j] && q.cq[j] == r.cq[j]
    {
      if j < |h.accepted| {
        var k := LatestInSlot(j, |h.accepted|, q.size);
      }
      if j < h.fetched {
        var k := LatestInSlot(j, h.fetched, q.size);
      }
    }
    assert q.sq == r.sq && q.cq == r.cq;
  }

  /** Batching is transparent: two schedules that lose nothing, with the same accepted commands and room for
      their completions, flushed, complete them all in submit order, leave in host RAM their transfers in
      submit order, and differ in nothing but the number of doorbell writes. */
  lemma BatchingIsTransparent(size: nat, ram: seq<nat>, xs: seq<Event>, ys: seq<Event>)
    requires 2 <= size <= 0x1_0000 && Disciplined(START, size, xs) && Disciplined(START, size, ys)
    requires Roomy(SpecRun(START, size, xs), size) && Roomy(SpecRun(START, size, ys), size)
    requires SpecRun(START, size, xs).accepted == SpecRun(START, size, ys).accepted
    ensures var cs := SpecRun(START, size, xs).accepted;
      var q, r := Run(Make(size, ram), xs + Flush(size)), Run(Make(size, ram), ys + Flush(size));
      && q.woken == Ids(cs) && q.ram == DmaAll(ram, cs)
      && r == q.(doorbellWrites := r.doorbellWrites)
  {
    FlushRefines(size, ram, xs);
    FlushRefines(size, ram, ys);
    var cs := SpecRun(START, size, xs).accepted;
    var h := SpecRun(START, size, xs + Flush(size));
    Determined(Run(Make(size, ram), xs + Flush(size)), Run(Make(size, ram), ys + Flush(size)), h, ram);
    assert cs[..|cs|] == cs;
    IdsOf(cs, |cs|);
    assert Ids(cs)[..|cs|] == Ids(cs);
  }

  lemma FlushRefines(size: nat, ram: seq<nat>, xs: seq<Event>)
    requires 2 <= size <= 0x1_0000 && Disciplined(START, size, xs) && Roomy(SpecRun(START, size, xs), size)
    ensures var cs := SpecRun(START, size, xs).accepted;
      var h := Drained(cs);
      && SpecRun(START, size, xs + Flush(size)) == h
      && Run(Make(size, ram), xs + Flush(size)).size == size
      && Refines(Run(Make(size, ram), xs + Flush(size)), h, ram)
  {
    MakeRefines(size, ram);
    RunRefines(Make(size, ram), START, ram, xs);
    SpecFlush(SpecRun(START, size, xs), size);
    SpecAppend(START, size, xs, Flush(size));
    RunRefines(Make(size, ram), START, ram, xs + Flush(size));
  }
}
