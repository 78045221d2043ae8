/** Exactly which outcomes of the system calls make a save succeed, fail, or stop short, said of the list of
    outcomes alone. */
module DurableOutcomes {
  import opened KernelModel
  import opened DurableSaves

  // ---- the calls of write ----

  ghost predicate NoFailure(ws: seq<Outcome>) {
    forall i | 0 <= i < |ws| :: !ws[i].Fails?
  }

  /** Bytes the kernel was ready to take, interrupted calls counting nothing. */
  function Total(ws: seq<Outcome>): nat {
    if ws == [] then 0 else (if ws[0].Succeeds? then ws[0].count else 0) + Total(ws[1..])
  }

  /** `n` bytes need more calls than these. */
  ghost predicate Pending(ws: seq<Outcome>, n: nat) {
    NoFailure(ws) && Total(ws) < n
  }

  /** These calls, any mix of interrupted, short and full ones, cover `n` bytes, and the last one was needed. */
  ghost predicate Covers(ws: seq<Outcome>, n: nat) {
    NoFailure(ws) && Total(ws) >= n && (ws != [] ==> Total(ws[..|ws| - 1]) < n)
  }

  lemma {:induction false} TotalAppend(ws: seq<Outcome>, x: Outcome)
    ensures Total(ws + [x]) == Total(ws) + if x.Succeeds? then x.count else 0
  {
    if ws == [] {
      assert ws + [x] == [x] && [x][1..] == [];
    } else {
      assert (ws + [x])[1..] == ws[1..] + [x];
      TotalAppend(ws[1..], x);
    }
  }

  /** Every list begins with calls that cover the data, or with calls up to a failure, or ends before either. */
  lemma {:induction false} ThreeWays(fate: seq<Outcome>, n: nat) returns (w: nat)
    ensures w <= |fate|
    ensures Covers(fate[..w], n) || (w < |fate| && Pending(fate[..w], n) && fate[w].Fails?)
         || (w == |fate| && Pending(fate, n))
    decreases |fate|
  {
    if fate == [] {
      w := 0;
    } else {
      var before, x := fate[..|fate| - 1], fate[|fate| - 1];
      w := ThreeWays(before, n);
      assert before[..w] == fate[..w];
      if w == |before| && Pending(before, n) && !x.Fails? {
        TotalAppend(before, x);
        assert before + [x] == fate == fate[..|fate|] && fate[..|fate|][..|fate| - 1] == before;
        w := |fate|;
      }
    }
  }

  /** What the first outcome means for the rest of the calls. */
  lemma FirstCall(ws: seq<Outcome>, n: nat)
    requires ws != [] && n > 0
    ensures var m := if ws[0].Succeeds? then n - Min(ws[0].count, n) else n;
      && (Pending(ws, n) ==> m > 0 && Pending(ws[1..], m))
      && (Covers(ws, n) ==> Covers(ws[1..], m))
  {
    if Covers(ws, n) && |ws| > 1 {
      assert ws[..|ws| - 1][1..] == ws[1..][..|ws[1..]| - 1];
    }
  }

  lemma {:induction false} WritesCover(k: Kernel, ino: nat, data: Bytes, done: nat, fate: seq<Outcome>, w: nat)
    requires ino < |k.files| && done <= |data| && w <= |fate| && Covers(fate[..w], |data| - done)
    ensures var e := WriteAll(k, ino, data, done, fate); e.Returned? && e.ok && e.rest == fate[w..]
    decreases |fate|
  {
    if done == |data| {
      assert w == 0;
    } else {
      assert fate[..w] != [] && fate[..w][0] == fate[0];
      FirstCall(fate[..w], |data| - done);
      assert fate[..w][1..] == fate[1..][..w - 1] && fate[w..] == fate[1..][w - 1..];
      match fate[0]
      case Interrupted => WritesCover(k, ino, data, done, fate[1..], w - 1);
      case Succeeds(count) =>
        var n := Min(count, |data| - done);
        WritesCover(Append(k, ino, data[done..done + n]), ino, data, done + n, fate[1..], w - 1);
    }
  }

  lemma {:induction false} WritesBreak(k: Kernel, ino: nat, data: Bytes, done: nat, fate: seq<Outcome>, w: nat)
    requires ino < |k.files| && done <= |data| && w < |fate|
    requires Pending(fate[..w], |data| - done) && fate[w].Fails?
    ensures var e := WriteAll(k, ino, data, done, fate); e.Returned? && !e.ok && e.rest == fate[w + 1..]
    decreases |fate|
  {
    if w > 0 {
      assert fate[..w][0] == fate[0];
      FirstCall(fate[..w], |data| - done);
      assert fate[..w][1..] == fate[1..][..w - 1] && fate[w + 1..] == fate[1..][w..];
      match fate[0]
      case Interrupted => WritesBreak(k, ino, data, done, fate[1..], w - 1);
      case Succeeds(count) =>
        var n := Min(count, |data| - done);
        WritesBreak(Append(k, ino, data[done..done + n]), ino, data, done + n, fate[1..], w - 1);
    }
  }

  lemma {:induction false} WritesStop(k: Kernel, ino: nat, data: Bytes, done: nat, fate: seq<Outcome>)
    requires ino < |k.files| && done <= |data| && Pending(fate, |data| - done)
    ensures WriteAll(k, ino, data, done, fate).Stopped?
    decreases |fate|
  {
    if fate != [] {
      FirstCall(fate, |data| - done);
      match fate[0]
      case Interrupted => WritesStop(k, ino, data, done, fate[1..]);
      case Succeeds(count) =>
        var n := Min(count, |data| - done);
        WritesStop(Append(k, ino, data[done..done + n]), ino, data, done + n, fate[1..]);
    }
  }

  // ---- the whole save ----

  /** Open succeeds, `w` writes cover the data, then fsync, rename, open of the directory and its fsync succeed. */
  ghost predicate AllWell(fate: seq<Outcome>, n: nat, w: nat) {
    && w + 5 <= |fate| && fate[0].Succeeds? && Covers(fate[1..w + 1], n)
    && fate[w + 1].Succeeds? && fate[w + 2].Succeeds? && fate[w + 3].Succeeds? && fate[w + 4].Succeeds?
  }

  // In each of the following the last outcome needed is that of the open of the directory, which is called even
  // after a failure.

  ghost predicate OpenFailed(fate: seq<Outcome>) { |fate| >= 2 && !fate[0].Succeeds? }

  ghost predicate WriteFailed(fate: seq<Outcome>, n: nat, w: nat) {
    w + 3 <= |fate| && fate[0].Succeeds? && Pending(fate[1..w + 1], n) && fate[w + 1].Fails?
  }

  /** The writes went well and fsync, rename, the open of the directory or its fsync did not. */
  ghost predicate LaterFailed(fate: seq<Outcome>, n: nat, w: nat) {
    && w + 3 <= |fate| && fate[0].Succeeds? && Covers(fate[1..w + 1], n)
    && (!fate[w + 1].Succeeds?
        || (w + 4 <= |fate| && !(fate[w + 2].Succeeds? && fate[w + 3].Succeeds?))
        || (w + 5 <= |fate| && !fate[w + 4].Succeeds?))
  }

  ghost predicate Acknowledged(fate: seq<Outcome>, n: nat) { exists w: nat :: AllWell(fate, n, w) }

  ghost predicate Refused(fate: seq<Outcome>, n: nat) {
    OpenFailed(fate) || exists w: nat :: WriteFailed(fate, n, w) || LaterFailed(fate, n, w)
  }

  lemma SwitchExactly(k: Kernel, tmp: string, dst: string, ok: bool, fate: seq<Outcome>)
    ensures var e := Publish(k, tmp, dst, ok, fate);
      && (e.Returned? && e.ok <==>
            ok && |fate| >= 3 && fate[0].Succeeds? && fate[1].Succeeds? && fate[2].Succeeds?)
      && (e.Returned? && !e.ok <==>
            if !ok then |fate| >= 1
            else || (|fate| >= 2 && !(fate[0].Succeeds? && fate[1].Succeeds?))
                 || (|fate| >= 3 && !fate[2].Succeeds?))
  {}

  lemma SaveAfterCover(k: Kernel, tmp: string, dst: string, data: Bytes, fate: seq<Outcome>, w: nat)
    requires InodesExist(k) && w + 1 <= |fate| && fate[0].Succeeds? && Covers(fate[1..w + 1], |data|)
    ensures var e := Save(k, tmp, dst, data, fate);
      && (e.Returned? && e.ok <==> AllWell(fate, |data|, w))
      && (e.Returned? && !e.ok <==> LaterFailed(fate, |data|, w))
  {
    OpenNames(k, tmp);
    var o, p := Open(k, tmp), Prepare(k, tmp, data, fate);
    assert fate[1..w + 1] == fate[1..][..w];
    WritesCover(o, Names(o)[tmp], data, 0, fate[1..], w);
    assert fate[1..][w..] == fate[w + 1..];
    if w + 1 < |fate| {
      assert p.Returned? && p.rest == fate[w + 2..] && (p.ok <==> fate[w + 1].Succeeds?);
      SwitchExactly(p.kernel, tmp, dst, p.ok, p.rest);
    }
  }

  lemma SaveAfterBreak(k: Kernel, tmp: string, dst: string, data: Bytes, fate: seq<Outcome>, w: nat)
    requires InodesExist(k) && w + 2 <= |fate| && fate[0].Succeeds?
    requires Pending(fate[1..w + 1], |data|) && fate[w + 1].Fails?
    ensures var e := Save(k, tmp, dst, data, fate);
      !(e.Returned? && e.ok) && (e.Returned? <==> w + 3 <= |fate|)
  {
    OpenNames(k, tmp);
    var o, p := Open(k, tmp), Prepare(k, tmp, data, fate);
    assert fate[1..w + 1] == fate[1..][..w];
    WritesBreak(o, Names(o)[tmp], data, 0, fate[1..], w);
    assert fate[1..][w + 1..] == fate[w + 2..];
    SwitchExactly(p.kernel, tmp, dst, false, p.rest);
  }

  lemma SaveWithoutEnd(k: Kernel, tmp: string, dst: string, data: Bytes, fate: seq<Outcome>)
    requires InodesExist(k) && fate != [] && fate[0].Succeeds? && Pending(fate[1..], |data|)
    ensures Save(k, tmp, dst, data, fate).Stopped?
  {
    OpenNames(k, tmp);
    var o := Open(k, tmp);
    WritesStop(o, Names(o)[tmp], data, 0, fate[1..]);
  }

  /** A save returns true exactly when all calls succeed, with any mix of interrupted and short writes, and false
      exactly when one of them fails; otherwise the list has ended first. */
  lemma SaveReturnsExactly(k: Kernel, tmp: string, dst: string, data: Bytes, fate: seq<Outcome>)
    requires InodesExist(k)
    ensures var e := Save(k, tmp, dst, data, fate);
      && (e.Returned? && e.ok <==> Acknowledged(fate, |data|))
      && (e.Returned? && !e.ok <==> Refused(fate, |data|))
  {
    if fate != [] && fate[0].Succeeds? {
      forall w: nat | AllWell(fate, |data|, w) || LaterFailed(fate, |data|, w)
        ensures var e := Save(k, tmp, dst, data, fate); e.Returned? && (e.ok <==> AllWell(fate, |data|, w))
      {
        SaveAfterCover(k, tmp, dst, data, fate, w);
      }
      forall w: nat | WriteFailed(fate, |data|, w)
        ensures var e := Save(k, tmp, dst, data, fate); e.Returned? && !e.ok
      {
        SaveAfterBreak(k, tmp, dst, data, fate, w);
      }
      OneWay(k, tmp, dst, data, fate);
    } else if fate != [] {
      SwitchExactly(k, tmp, dst, false, fate[1..]);
    }
  }

  lemma OneWay(k: Kernel, tmp: string, dst: string, data: Bytes, fate: seq<Outcome>)
    requires InodesExist(k) && fate != [] && fate[0].Succeeds?
    ensures var e := Save(k, tmp, dst, data, fate);
      && (e.Returned? && e.ok ==> Acknowledged(fate, |data|))
      && (e.Returned? && !e.ok ==> Refused(fate, |data|))
  {
    var w := ThreeWays(fate[1..], |data|);
    assert fate[1..][..w] == fate[1..w + 1];
    if Covers(fate[1..w + 1], |data|) {
      SaveAfterCover(k, tmp, dst, data, fate, w);
    } else if w < |fate| - 1 && Pending(fate[1..w + 1], |data|) && fate[1..][w].Fails? {
      SaveAfterBreak(k, tmp, dst, data, fate, w);
      assert |fate| >= w + 3 ==> WriteFailed(fate, |data|, w);
    } else {
      SaveWithoutEnd(k, tmp, dst, data, fate);
    }
  }

  /** And a save that returns true has put its data under the destination, safe from every crash. */
  lemma AcknowledgedHolds(k: Kernel, tmp: string, dst: string, data: Bytes, fate: seq<Outcome>,
                          versions: seq<Option<Bytes>>, acked: nat)
    requires Safe(k, tmp, dst, versions, acked) && acked < |versions| && Acknowledged(fate, |data|)
    ensures var e := Save(k, tmp, dst, data, fate);
      && e.Returned? && e.ok
      && Found(e.kernel, dst) == Some(data)
      && Safe(e.kernel, tmp, dst, versions + [Some(data)], |versions|)
  {
    SaveReturnsExactly(k, tmp, dst, data, fate);
    SaveKeeps(k, tmp, dst, data, fate, versions, acked);
  }

  // ---- whole histories, judged by the outcomes alone ----

  lemma {:induction false} LiveAcks(h: History, tmp: string, dst: string, attempts: seq<Attempt>, i: nat)
    requires Safe(h.kernel, tmp, dst, h.versions, h.acked) && h.acked < |h.versions|
    requires i < |attempts| && Acknowledged(attempts[i].fate, |attempts[i].data|)
    ensures Live(h, tmp, dst, attempts).acked >= |h.versions| + i
    decreases |attempts|
  {
    var a := attempts[0];
    SaveKeeps(h.kernel, tmp, dst, a.data, a.fate, h.versions, h.acked);
    SaveReturnsExactly(h.kernel, tmp, dst, a.data, a.fate);
    var e := Save(h.kernel, tmp, dst, a.data, a.fate);
    var all := h.versions + [Some(a.data)];
    if i > 0 {
      if e.Stopped? {
        CrashKeeps(e.kernel, if e.kernel.durable <= a.kept <= |e.kernel.log| then a.kept else |e.kernel.log|,
                   a.junk, tmp, dst, all, h.acked);
        LiveAcks(History(Restart(e.kernel, a.kept, a.junk), all, h.acked), tmp, dst, attempts[1..], i - 1);
      } else {
        LiveAcks(History(e.kernel, all, if e.ok then |h.versions| else h.acked), tmp, dst, attempts[1..], i - 1);
      }
    }
  }

  /** Whatever happened before and after: once a save has had all its calls succeed, no crash brings back anything
      older, and the destination is whole. */
  lemma AcknowledgedNeverLost(k: Kernel, tmp: string, dst: string, attempts: seq<Attempt>, i: nat,
                              n: nat, junk: seq<Bytes>)
    requires Clean(k, tmp, dst) && i < |attempts| && Acknowledged(attempts[i].fate, |attempts[i].data|)
    ensures InodesExist(k) && Safe(k, tmp, dst, [Held(k, dst, 0)], 0)
    ensures var h := Live(History(k, [Held(k, dst, 0)], 0), tmp, dst, attempts);
      h.kernel.durable <= n <= |h.kernel.log| ==>
        && InodesExist(Crash(h.kernel, n, junk))
        && exists j :: i <= j < |attempts|
             && Held(Crash(h.kernel, n, junk), dst, 0) == Some(attempts[j].data)
  {
    NeverLostNeverMixed(k, tmp, dst, attempts, n, junk);
    var h0 := History(k, [Held(k, dst, 0)], 0);
    LiveAcks(h0, tmp, dst, attempts, i);
    var h := Live(h0, tmp, dst, attempts);
    if h.kernel.durable <= n <= |h.kernel.log| {
      var j :| h.acked <= j <= |attempts|
        && Held(Crash(h.kernel, n, junk), dst, 0) == Version(Held(k, dst, 0), attempts, j);
      assert i <= j - 1 && Held(Crash(h.kernel, n, junk), dst, 0) == Some(attempts[j - 1].data);
    }
  }
}
