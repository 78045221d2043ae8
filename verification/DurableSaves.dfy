/** Crash safety of `durable_replace` over whole histories of saves, crashes and restarts. */
module DurableSaves {
  import opened KernelModel

  /** What the destination holds when `n` directory operations survive. */
  function Held(k: Kernel, dst: string, n: nat): Option<Bytes>
    requires n <= |k.log| && InodesExist(k)
  {
    if dst in DirAt(k, n) then Some(k.files[DirAt(k, n)[dst]].cache) else None
  }

  ghost predicate Among(versions: seq<Option<Bytes>>, acked: nat, v: Option<Bytes>) {
    exists j :: acked <= j < |versions| && versions[j] == v
  }

  /** Whatever prefix survives, the destination is a synced file holding one of the versions from the last
      acknowledged one on. */
  ghost predicate Holds(k: Kernel, dst: string, versions: seq<Option<Bytes>>, acked: nat)
    requires InodesExist(k)
  {
    forall n | k.durable <= n <= |k.log| ::
      && (dst in DirAt(k, n) ==> k.files[DirAt(k, n)[dst]].synced)
      && Among(versions, acked, Held(k, dst, n))
  }

  /** The temporary name never leads to a file the destination leads to now or may fall back to. */
  ghost predicate Apart(k: Kernel, tmp: string, dst: string) {
    forall m, n | k.durable <= m <= n <= |k.log| && dst in DirAt(k, m) && tmp in DirAt(k, n) ::
      DirAt(k, m)[dst] != DirAt(k, n)[tmp]
  }

  ghost predicate Safe(k: Kernel, tmp: string, dst: string, versions: seq<Option<Bytes>>, acked: nat) {
    && k.durable <= |k.log| && tmp != dst
    && InodesExist(k) && Apart(k, tmp, dst) && Holds(k, dst, versions, acked)
  }

  // ---- one call ----

  /** A new operation leaves every earlier prefix as it was. */
  lemma LogGrows(k: Kernel, g: Kernel, op: DirOp)
    requires g.log == k.log + [op] && g.base == k.base
    ensures forall n | 0 <= n <= |k.log| :: DirAt(g, n) == DirAt(k, n)
    ensures DirAt(g, |k.log| + 1) == Apply(Names(k), op)
  {
    forall n | 0 <= n <= |k.log|
      ensures DirAt(g, n) == DirAt(k, n)
    {
      assert g.log[..n] == k.log[..n];
    }
    assert g.log[..|k.log| + 1] == g.log;
    assert g.log[..|k.log|] == k.log == k.log[..|k.log|];
  }

  /** Changing a file the destination does not lead to changes nothing that matters. */
  lemma TouchKeeps(k: Kernel, g: Kernel, tmp: string, dst: string, versions: seq<Option<Bytes>>, acked: nat)
    requires Safe(k, tmp, dst, versions, acked) && tmp in Names(k) && Names(k)[tmp] < |k.files|
    requires |g.files| == |k.files| && g == k.(files := k.files[Names(k)[tmp] := g.files[Names(k)[tmp]]])
    ensures Safe(g, tmp, dst, versions, acked) && Names(g) == Names(k)
  {
    forall n | 0 <= n <= |k.log|
      ensures DirAt(g, n) == DirAt(k, n)
    {}
    forall n | k.durable <= n <= |k.log| && dst in DirAt(k, n)
      ensures DirAt(k, n)[dst] != Names(k)[tmp]
      ensures g.files[DirAt(k, n)[dst]] == k.files[DirAt(k, n)[dst]]
    {}
    forall n | k.durable <= n <= |k.log|
      ensures Held(g, dst, n) == Held(k, dst, n)
    {}
  }

  /** One more operation in the log: only the newest prefix needs looking at. */
  lemma GrowKeeps(k: Kernel, g: Kernel, op: DirOp, tmp: string, dst: string,
                  versions: seq<Option<Bytes>>, acked: nat)
    requires Safe(k, tmp, dst, versions, acked)
    requires g.log == k.log + [op] && g.base == k.base && g.durable == k.durable && k.files <= g.files
    requires var d := Apply(Names(k), op);
      && (forall name | name in d :: d[name] < |g.files|)
      && (dst in d ==> g.files[d[dst]].synced)
      && Among(versions, acked, if dst in d then Some(g.files[d[dst]].cache) else None)
      && (tmp in d ==> forall m | k.durable <= m <= |k.log| && dst in DirAt(k, m) :: DirAt(k, m)[dst] != d[tmp])
      && (tmp in d && dst in d ==> d[dst] != d[tmp])
    ensures Safe(g, tmp, dst, versions, acked)
    ensures Names(g) == Apply(Names(k), op)
  {
    LogGrows(k, g, op);
    var top := |k.log| + 1;
    forall n | 0 <= n <= |g.log| ensures n == top || DirAt(g, n) == DirAt(k, n) {}
    assert InodesExist(g);
    assert Apart(g, tmp, dst);
    forall n | k.durable <= n <= |k.log|
      ensures (dst in DirAt(g, n) ==> g.files[DirAt(g, n)[dst]].synced)
      ensures Among(versions, acked, Held(g, dst, n))
    {
      assert Held(g, dst, n) == Held(k, dst, n);
    }
  }

  lemma OpenKeeps(k: Kernel, tmp: string, dst: string, versions: seq<Option<Bytes>>, acked: nat)
    requires Safe(k, tmp, dst, versions, acked)
    ensures tmp in Names(k) ==> Names(k)[tmp] < |k.files|
    ensures Safe(Open(k, tmp), tmp, dst, versions, acked)
  {
    OpenNames(k, tmp);
    var g := Open(k, tmp);
    if tmp in Names(k) {
      TouchKeeps(k, g, tmp, dst, versions, acked);
    } else {
      assert Among(versions, acked, Held(k, dst, |k.log|));
      GrowKeeps(k, g, Link(tmp, |k.files|), tmp, dst, versions, acked);
    }
  }

  lemma {:induction false} WriteAllKeeps(k: Kernel, tmp: string, dst: string, data: Bytes, done: nat,
                                         fate: seq<Outcome>, versions: seq<Option<Bytes>>, acked: nat)
    requires Safe(k, tmp, dst, versions, acked) && tmp in Names(k) && Names(k)[tmp] < |k.files|
    requires done <= |data| && k.files[Names(k)[tmp]].cache == data[..done]
    ensures var ino, e := Names(k)[tmp], WriteAll(k, Names(k)[tmp], data, done, fate);
      && Safe(e.kernel, tmp, dst, versions, acked)
      && tmp in Names(e.kernel) && Names(e.kernel)[tmp] == ino
      && (e.Returned? && e.ok ==> e.kernel.files[ino].cache == data)
    decreases |fate|
  {
    var ino := Names(k)[tmp];
    if done == |data| {
      assert data[..done] == data;
    } else if fate != [] && fate[0].Interrupted? {
      WriteAllKeeps(k, tmp, dst, data, done, fate[1..], versions, acked);
    } else if fate != [] && fate[0].Succeeds? {
      var n := Min(fate[0].count, |data| - done);
      var g := Append(k, ino, data[done..done + n]);
      TouchKeeps(k, g, tmp, dst, versions, acked);
      assert data[..done] + data[done..done + n] == data[..done + n];
      WriteAllKeeps(g, tmp, dst, data, done + n, fate[1..], versions, acked);
    }
  }

  lemma PrepareKeeps(k: Kernel, tmp: string, dst: string, data: Bytes, fate: seq<Outcome>,
                     versions: seq<Option<Bytes>>, acked: nat)
    requires Safe(k, tmp, dst, versions, acked)
    ensures var e := Prepare(k, tmp, data, fate);
      && Safe(e.kernel, tmp, dst, versions, acked)
      && (e.Returned? && e.ok ==>
            tmp in Names(e.kernel) && e.kernel.files[Names(e.kernel)[tmp]] == File(data, true))
  {
    if fate != [] && fate[0].Succeeds? {
      OpenNames(k, tmp);
      OpenKeeps(k, tmp, dst, versions, acked);
      var o := Open(k, tmp);
      var ino := Names(o)[tmp];
      var w := WriteAll(o, ino, data, 0, fate[1..]);
      WriteAllKeeps(o, tmp, dst, data, 0, fate[1..], versions, acked);
      if w.Returned? && w.ok && w.rest != [] && w.rest[0].Succeeds? {
        TouchKeeps(w.kernel, Fsync(w.kernel, ino), tmp, dst, versions, acked);
      }
    }
  }

  lemma RenameKeeps(k: Kernel, tmp: string, dst: string, data: Bytes, versions: seq<Option<Bytes>>, acked: nat)
    requires Safe(k, tmp, dst, versions, acked) && tmp in Names(k) && k.files[Names(k)[tmp]] == File(data, true)
    requires acked < |versions| && versions[|versions| - 1] == Some(data)
    ensures var g := Rename(k, tmp, dst);
      Safe(g, tmp, dst, versions, acked) && Held(g, dst, |g.log|) == Some(data)
  {
    var g := Rename(k, tmp, dst);
    assert versions[|versions| - 1] == Some(data);
    GrowKeeps(k, g, Move(tmp, dst), tmp, dst, versions, acked);
  }

  lemma SyncDirKeeps(k: Kernel, tmp: string, dst: string, versions: seq<Option<Bytes>>, acked: nat)
    requires Safe(k, tmp, dst, versions, acked) && versions != []
    requires Held(k, dst, |k.log|) == versions[|versions| - 1]
    ensures Safe(FsyncDir(k), tmp, dst, versions, |versions| - 1)
  {
    var g := FsyncDir(k);
    forall n | 0 <= n <= |k.log| ensures DirAt(g, n) == DirAt(k, n) {}
    assert Held(g, dst, |g.log|) == versions[|versions| - 1];
  }

  lemma MoreVersions(k: Kernel, tmp: string, dst: string, versions: seq<Option<Bytes>>, acked: nat, v: Option<Bytes>)
    requires Safe(k, tmp, dst, versions, acked)
    ensures Safe(k, tmp, dst, versions + [v], acked)
  {
    forall n | k.durable <= n <= |k.log|
      ensures Among(versions + [v], acked, Held(k, dst, n))
    {
      var j :| acked <= j < |versions| && versions[j] == Held(k, dst, n);
      assert (versions + [v])[j] == Held(k, dst, n);
    }
  }

  /** At every stopping point of a call the destination is safe; a call that returns true has made its data
      the only version a crash can leave. */
  lemma SaveKeeps(k: Kernel, tmp: string, dst: string, data: Bytes, fate: seq<Outcome>,
                  versions: seq<Option<Bytes>>, acked: nat)
    requires Safe(k, tmp, dst, versions, acked) && acked < |versions|
    ensures var e := Save(k, tmp, dst, data, fate);
      && Safe(e.kernel, tmp, dst, versions + [Some(data)], if e.Returned? && e.ok then |versions| else acked)
      && (e.Returned? && e.ok ==> Held(e.kernel, dst, |e.kernel.log|) == Some(data))
  {
    var all := versions + [Some(data)];
    MoreVersions(k, tmp, dst, versions, acked, Some(data));
    PrepareKeeps(k, tmp, dst, data, fate, all, acked);
    var p := Prepare(k, tmp, data, fate);
    if p.Returned? && p.ok && p.rest != [] && p.rest[0].Succeeds? {
      RenameKeeps(p.kernel, tmp, dst, data, all, acked);
      SyncDirKeeps(Rename(p.kernel, tmp, dst), tmp, dst, all, acked);
    }
  }

  // ---- crashes and whole histories ----

  lemma CrashKeeps(k: Kernel, n: nat, junk: seq<Bytes>, tmp: string, dst: string,
                   versions: seq<Option<Bytes>>, acked: nat)
    requires Safe(k, tmp, dst, versions, acked) && k.durable <= n <= |k.log|
    ensures var g := Crash(k, n, junk);
      && Safe(g, tmp, dst, versions, acked)
      && Held(g, dst, 0) == Held(k, dst, n) && Among(versions, acked, Held(g, dst, 0))
  {
    var g := Crash(k, n, junk);
    assert DirAt(g, 0) == DirAt(k, n);
    assert Held(g, dst, 0) == Held(k, dst, n);
  }

  /** One save of a history. When the machine stops, `kept` directory operations and `junk` survive. */
  datatype Attempt = Attempt(data: Bytes, fate: seq<Outcome>, kept: nat, junk: seq<Bytes>)

  datatype History = History(kernel: Kernel, versions: seq<Option<Bytes>>, acked: nat)

  function Restart(k: Kernel, kept: nat, junk: seq<Bytes>): Kernel {
    Crash(k, if k.durable <= kept <= |k.log| then kept else |k.log|, junk)
  }

  /** Save after save, with a restart wherever the machine stops; `acked` is the version of the last save
      that returned true. */
  ghost function Live(h: History, tmp: string, dst: string, attempts: seq<Attempt>): (r: History)
    requires Safe(h.kernel, tmp, dst, h.versions, h.acked) && h.acked < |h.versions|
    ensures Safe(r.kernel, tmp, dst, r.versions, r.acked) && h.acked <= r.acked < |r.versions|
    decreases |attempts|
  {
    if attempts == [] then h
    else
      var a := attempts[0];
      SaveKeeps(h.kernel, tmp, dst, a.data, a.fate, h.versions, h.acked);
      var e := Save(h.kernel, tmp, dst, a.data, a.fate);
      var all := h.versions + [Some(a.data)];
      if e.Stopped? then
        CrashKeeps(e.kernel, if e.kernel.durable <= a.kept <= |e.kernel.log| then a.kept else |e.kernel.log|,
                   a.junk, tmp, dst, all, h.acked);
        Live(History(Restart(e.kernel, a.kept, a.junk), all, h.acked), tmp, dst, attempts[1..])
      else
        Live(History(e.kernel, all, if e.ok then |h.versions| else h.acked), tmp, dst, attempts[1..])
  }

  lemma {:induction false} LiveVersions(h: History, tmp: string, dst: string, attempts: seq<Attempt>)
    requires Safe(h.kernel, tmp, dst, h.versions, h.acked) && h.acked < |h.versions|
    ensures Live(h, tmp, dst, attempts).versions
         == h.versions + seq(|attempts|, i requires 0 <= i < |attempts| => Some(attempts[i].data))
    decreases |attempts|
  {
    if attempts != [] {
      var a := attempts[0];
      SaveKeeps(h.kernel, tmp, dst, a.data, a.fate, h.versions, h.acked);
      var e := Save(h.kernel, tmp, dst, a.data, a.fate);
      var all := h.versions + [Some(a.data)];
      if e.Stopped? {
        CrashKeeps(e.kernel, if e.kernel.durable <= a.kept <= |e.kernel.log| then a.kept else |e.kernel.log|,
                   a.junk, tmp, dst, all, h.acked);
        LiveVersions(History(Restart(e.kernel, a.kept, a.junk), all, h.acked), tmp, dst, attempts[1..]);
      } else {
        LiveVersions(History(e.kernel, all, if e.ok then |h.versions| else h.acked), tmp, dst, attempts[1..]);
      }
    }
  }

  /** A clean directory: everything synced, no operation pending, two names for two files. */
  ghost predicate Clean(k: Kernel, tmp: string, dst: string) {
    && k.log == [] && k.durable == 0 && tmp != dst
    && (forall name | name in k.base :: k.base[name] < |k.files|)
    && (dst in k.base ==> k.files[k.base[dst]].synced)
    && (dst in k.base && tmp in k.base ==> k.base[dst] != k.base[tmp])
  }

  lemma CleanIsSafe(k: Kernel, tmp: string, dst: string)
    requires Clean(k, tmp, dst)
    ensures InodesExist(k) && Safe(k, tmp, dst, [Held(k, dst, 0)], 0)
  {
    assert DirAt(k, 0) == k.base;
    assert [Held(k, dst, 0)][0] == Held(k, dst, 0);
  }

  /** Version 0 is what the destination held at the start, version `j` what the `j`-th save writes. */
  function Version(start: Option<Bytes>, attempts: seq<Attempt>, j: nat): Option<Bytes>
    requires j <= |attempts|
  {
    if j == 0 then start else Some(attempts[j - 1].data)
  }

  /** After any history of saves, failures, crashes and restarts, whatever a further crash keeps: the
      destination holds, whole, what the last acknowledged save wrote or what a later one tried to write. */
  lemma NeverLostNeverMixed(k: Kernel, tmp: string, dst: string, attempts: seq<Attempt>, n: nat, junk: seq<Bytes>)
    requires Clean(k, tmp, dst)
    ensures InodesExist(k) && Safe(k, tmp, dst, [Held(k, dst, 0)], 0)
    ensures var h := Live(History(k, [Held(k, dst, 0)], 0), tmp, dst, attempts);
      h.kernel.durable <= n <= |h.kernel.log| ==>
        && InodesExist(Crash(h.kernel, n, junk))
        && exists j :: h.acked <= j <= |attempts|
             && Held(Crash(h.kernel, n, junk), dst, 0) == Version(Held(k, dst, 0), attempts, j)
  {
    CleanIsSafe(k, tmp, dst);
    var h0 := History(k, [Held(k, dst, 0)], 0);
    var h := Live(h0, tmp, dst, attempts);
    LiveVersions(h0, tmp, dst, attempts);
    if h.kernel.durable <= n <= |h.kernel.log| {
      CrashKeeps(h.kernel, n, junk, tmp, dst, h.versions, h.acked);
      var j :| h.acked <= j < |h.versions| && h.versions[j] == Held(Crash(h.kernel, n, junk), dst, 0);
      assert h.versions[j] == Version(Held(k, dst, 0), attempts, j);
    }
  }

  // ---- why two flushes ----

  /** What a reader finds under a name. */
  function Found(k: Kernel, name: string): Option<Bytes> {
    if name in Names(k) && Names(k)[name] < |k.files| then Some(k.files[Names(k)[name]].cache) else None
  }

  lemma WrittenAndRenamed(k: Kernel, o: Kernel, tmp: string, dst: string)
    requires Clean(k, tmp, dst) && tmp !in k.base
    requires o.base == k.base && o.log == [Link(tmp, |k.files|)]
    ensures Names(Rename(o, tmp, dst)) == k.base[dst := |k.files|]
  {
    assert DirAt(k, 0) == k.base;
    LogGrows(k, o, Link(tmp, |k.files|));
    LogGrows(o, Rename(o, tmp, dst), Move(tmp, dst));
    assert k.base[tmp := |k.files|] - {tmp} == k.base;
  }

  /** Renaming a file that was written but not synced: a crash may leave any bytes under the destination name. */
  lemma DataFlushNeeded(k: Kernel, tmp: string, dst: string, data: Bytes, any: Bytes)
    requires Clean(k, tmp, dst) && tmp !in k.base
    ensures var ino := |k.files|;
      var g := Rename(Append(Open(k, tmp), ino, data), tmp, dst);
      && Found(g, dst) == Some(data)
      && Found(Crash(g, |g.log|, seq(ino + 1, _ => any)), dst) == Some(any)
  {
    var ino := |k.files|;
    var o := Append(Open(k, tmp), ino, data);
    assert [] + data == data;
    WrittenAndRenamed(k, o, tmp, dst);
    var c := Crash(Rename(o, tmp, dst), 2, seq(ino + 1, _ => any));
    assert Names(c) == Names(Rename(o, tmp, dst));
  }

  /** Without the directory flush a completed rename can still be undone by a crash. */
  lemma DirectoryFlushNeeded(k: Kernel, tmp: string, dst: string, data: Bytes, junk: seq<Bytes>)
    requires Clean(k, tmp, dst) && tmp !in k.base
    ensures var ino := |k.files|;
      var g := Rename(Fsync(Append(Open(k, tmp), ino, data), ino), tmp, dst);
      && Found(g, dst) == Some(data)
      && Found(Crash(g, 0, junk), dst) == Found(k, dst)
  {
    var ino := |k.files|;
    var o := Fsync(Append(Open(k, tmp), ino, data), ino);
    assert [] + data == data;
    WrittenAndRenamed(k, o, tmp, dst);
    var c := Crash(Rename(o, tmp, dst), 0, junk);
    assert Names(c) == k.base == Names(k);
  }
}
