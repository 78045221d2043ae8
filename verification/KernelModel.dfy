/** What the kernel promises a program that replaces a file, and what a crash may leave.
    A file holds its cached bytes, which are certain to be on the device only when it is synced.
    A directory is its last known durable state plus an ordered log of later operations, of which a crash
    keeps some prefix; rename is one operation. A crash leaves any bytes in a file that is not synced. */
module KernelModel {

  type Bytes = seq<int>

  datatype Option<T> = None | Some(value: T)

  datatype File = File(cache: Bytes, synced: bool)

  datatype DirOp = Link(name: string, ino: nat) | Move(from: string, to: string)

  type Directory = map<string, nat>

  datatype Kernel = Kernel(files: seq<File>, base: Directory, log: seq<DirOp>, durable: nat)

  function Apply(dir: Directory, op: DirOp): Directory {
    match op
    case Link(name, ino) => dir[name := ino]
    case Move(from, to) => if from in dir then (dir - {from})[to := dir[from]] else dir
  }

  function Replay(dir: Directory, ops: seq<DirOp>): Directory {
    if ops == [] then dir else Apply(Replay(dir, ops[..|ops| - 1]), ops[|ops| - 1])
  }

  /** The directory when the first `n` logged operations survive. */
  function DirAt(k: Kernel, n: nat): Directory
    requires n <= |k.log|
  {
    Replay(k.base, k.log[..n])
  }

  /** The directory every running program sees. */
  function Names(k: Kernel): Directory { DirAt(k, |k.log|) }

  // ---- system calls that succeed; one that fails changes nothing ----

  /** open with O_CREAT and O_TRUNC. */
  function Open(k: Kernel, name: string): Kernel
    requires name in Names(k) ==> Names(k)[name] < |k.files|
  {
    if name in Names(k) then k.(files := k.files[Names(k)[name] := File([], false)])
    else k.(files := k.files + [File([], false)], log := k.log + [Link(name, |k.files|)])
  }

  function Append(k: Kernel, ino: nat, bytes: Bytes): Kernel
    requires ino < |k.files|
  {
    k.(files := k.files[ino := File(k.files[ino].cache + bytes, false)])
  }

  function Fsync(k: Kernel, ino: nat): Kernel
    requires ino < |k.files|
  {
    k.(files := k.files[ino := k.files[ino].(synced := true)])
  }

  function Rename(k: Kernel, from: string, to: string): Kernel {
    k.(log := k.log + [Move(from, to)])
  }

  function FsyncDir(k: Kernel): Kernel { k.(durable := |k.log|) }

  /** The machine after a crash that kept `n` directory operations; `junk` is what unsynced files hold. */
  function Crash(k: Kernel, n: nat, junk: seq<Bytes>): Kernel
    requires n <= |k.log|
  {
    Kernel(seq(|k.files|, i requires 0 <= i < |k.files| =>
             if k.files[i].synced then k.files[i] else File(if i < |junk| then junk[i] else [], true)),
           DirAt(k, n), [], 0)
  }

  // ---- programs ----

  /** How a call ends. `write` may be interrupted, fail, or accept any part of what it is given. */
  datatype Outcome = Fails | Interrupted | Succeeds(count: nat)

  /** A program run against a list of outcomes: it returns, or the list ends first and the machine stops there. */
  datatype Exec = Stopped(kernel: Kernel) | Returned(kernel: Kernel, rest: seq<Outcome>, ok: bool)

  function Min(a: nat, b: nat): nat { if a < b then a else b }

  function WriteAll(k: Kernel, ino: nat, data: Bytes, done: nat, fate: seq<Outcome>): (e: Exec)
    requires ino < |k.files| && done <= |data|
    ensures |e.kernel.files| == |k.files| && e.kernel == k.(files := e.kernel.files)
    decreases |fate|
  {
    if done == |data| then Returned(k, fate, true)
    else if fate == [] then Stopped(k)
    else match fate[0]
      case Interrupted => WriteAll(k, ino, data, done, fate[1..])
      case Fails => Returned(k, fate[1..], false)
      case Succeeds(count) =>
        var n := Min(count, |data| - done);
        WriteAll(Append(k, ino, data[done..done + n]), ino, data, done + n, fate[1..])
  }

  ghost predicate InodesExist(k: Kernel) {
    forall n, name | 0 <= n <= |k.log| && name in DirAt(k, n) :: DirAt(k, n)[name] < |k.files|
  }

  lemma OpenNames(k: Kernel, name: string)
    requires InodesExist(k)
    ensures name in Names(k) ==> Names(k)[name] < |k.files|
    ensures var o := Open(k, name);
      name in Names(o) && Names(o)[name] < |o.files| && o.files[Names(o)[name]] == File([], false)
  {
    var o := Open(k, name);
    if name !in Names(k) {
      assert o.log[..|o.log|] == o.log && o.log[..|o.log| - 1] == k.log == k.log[..|k.log|];
    }
  }

  /** Open the temporary file, write everything, fsync it: the conjuncts of `ok` up to rename. */
  function Prepare(k: Kernel, tmp: string, data: Bytes, fate: seq<Outcome>): Exec
    requires InodesExist(k)
  {
    if fate == [] then Stopped(k)
    else if !fate[0].Succeeds? then Returned(k, fate[1..], false)
    else
      OpenNames(k, tmp);
      var o := Open(k, tmp);
      var ino := Names(o)[tmp];
      var w := WriteAll(o, ino, data, 0, fate[1..]);
      if w.Stopped? || !w.ok then w
      else if w.rest == [] then Stopped(w.kernel)
      else if w.rest[0].Succeeds? then Returned(Fsync(w.kernel, ino), w.rest[1..], true)
      else Returned(w.kernel, w.rest[1..], false)
  }

  /** Rename when all went well so far, open the directory in any case, fsync it when all went well. */
  function Publish(k: Kernel, tmp: string, dst: string, ok: bool, fate: seq<Outcome>): Exec {
    if ok && fate == [] then Stopped(k)
    else
      var renamed := ok && fate[0].Succeeds?;
      var r := if renamed then Rename(k, tmp, dst) else k;
      var f := if ok then fate[1..] else fate;
      if f == [] then Stopped(r)
      else if !renamed || !f[0].Succeeds? then Returned(r, f[1..], false)
      else if f[1..] == [] then Stopped(r)
      else if f[1].Succeeds? then Returned(FsyncDir(r), f[2..], true)
      else Returned(r, f[2..], false)
  }

  function Save(k: Kernel, tmp: string, dst: string, data: Bytes, fate: seq<Outcome>): Exec
    requires InodesExist(k)
  {
    var p := Prepare(k, tmp, data, fate);
    if p.Stopped? then p else Publish(p.kernel, tmp, dst, p.ok, p.rest)
  }
}
