/** `write_all` and `durable_replace` as the C program runs them, one system call after another, against a
    kernel whose answers are a list of outcomes. When the list ends the machine has stopped: `alive` is false. */
module DurableReplace {
  import opened KernelModel
  import opened DurableSaves
  import opened DurableOutcomes

  class Process {
    var kernel: Kernel
    var fate: seq<Outcome>

    constructor (k: Kernel, fate: seq<Outcome>)
      ensures kernel == k && this.fate == fate
    {
      kernel, this.fate := k, fate;
    }

    /** How the method's results read as a run of the model. */
    ghost function Ran(alive: bool, ok: bool): Exec
      reads this
    {
      if alive then Returned(kernel, fate, ok) else Stopped(kernel)
    }

    /** The answer of the next system call; none once the machine has stopped. */
    method Answer() returns (alive: bool, o: Outcome)
      modifies this`fate
      ensures alive == (old(fate) != [])
      ensures alive ==> o == old(fate)[0] && fate == old(fate)[1..]
      ensures !alive ==> fate == old(fate)
    {
      if fate == [] {
        return false, Fails;
      }
      alive, o := true, fate[0];
      fate := fate[1..];
    }

    /** Retries interrupted writes and continues after short ones. */
    method WriteAll(ino: nat, data: Bytes) returns (alive: bool, ok: bool)
      requires ino < |kernel.files|
      modifies this
      ensures Ran(alive, ok) == KernelModel.WriteAll(old(kernel), ino, data, 0, old(fate))
    {
      var done: nat := 0;
      while done < |data|
        invariant done <= |data| && ino < |kernel.files|
        invariant KernelModel.WriteAll(kernel, ino, data, done, fate)
               == KernelModel.WriteAll(old(kernel), ino, data, 0, old(fate))
        decreases |fate|
      {
        var live, o := Answer();
        if !live {
          return false, false;
        }
        match o
        case Interrupted =>
        case Fails =>
          return true, false;
        case Succeeds(count) =>
          var n := if count < |data| - done then count else |data| - done;
          kernel := Append(kernel, ino, data[done..done + n]);
          done := done + n;
      }
      return true, true;
    }

    /** Open the temporary file, write everything, fsync. */
    method WriteDurably(tmp: string, data: Bytes) returns (alive: bool, ok: bool)
      requires InodesExist(kernel)
      modifies this
      ensures Ran(alive, ok) == Prepare(old(kernel), tmp, data, old(fate))
    {
      OpenNames(kernel, tmp);
      var o;
      alive, o := Answer();
      if !alive {
        return false, false;
      }
      if !o.Succeeds? {
        return true, false;
      }
      kernel := Open(kernel, tmp);
      var fd := Names(kernel)[tmp];
      alive, ok := WriteAll(fd, data);
      if !alive || !ok {
        return;
      }
      alive, o := Answer();
      if !alive {
        return false, false;
      }
      ok := o.Succeeds?;
      if ok {
        kernel := Fsync(kernel, fd);
      }
    }

    /** Rename if all went well so far, open the directory in any case, fsync it if all went well. */
    method SwitchName(tmp: string, dst: string, written: bool) returns (alive: bool, ok: bool)
      modifies this
      ensures Ran(alive, ok) == Publish(old(kernel), tmp, dst, written, old(fate))
      ensures alive && ok <==> var f := old(fate);
        written && |f| >= 3 && f[0].Succeeds? && f[1].Succeeds? && f[2].Succeeds?
    {
      SwitchExactly(kernel, tmp, dst, written, fate);
      ok := written;
      var o;
      if ok {
        alive, o := Answer();
        if !alive {
          return false, false;
        }
        ok := o.Succeeds?;
        if ok {
          kernel := Rename(kernel, tmp, dst);
        }
      }
      var dfd;
      alive, dfd := Answer();
      if !alive {
        return false, false;
      }
      ok := ok && dfd.Succeeds?;
      if ok {
        alive, o := Answer();
        if !alive {
          return false, false;
        }
        ok := o.Succeeds?;
        if ok {
          kernel := FsyncDir(kernel);
        }
      }
      return true, ok;
    }

    /** Write a temporary file, fsync it, rename it over the destination, fsync the directory. */
    method Replace(tmp: string, dst: string, data: Bytes, ghost versions: seq<Option<Bytes>>, ghost acked: nat)
      returns (alive: bool, ok: bool)
      requires Safe(kernel, tmp, dst, versions, acked) && acked < |versions|
      modifies this
      ensures Ran(alive, ok) == Save(old(kernel), tmp, dst, data, old(fate))
      ensures Safe(kernel, tmp, dst, versions + [Some(data)], if alive && ok then |versions| else acked)
      ensures alive && ok <==> Acknowledged(old(fate), |data|)
      ensures alive && !ok <==> Refused(old(fate), |data|)
      ensures alive && ok ==> Found(kernel, dst) == Some(data)
    {
      SaveReturnsExactly(kernel, tmp, dst, data, fate);
      SaveKeeps(kernel, tmp, dst, data, fate, versions, acked);
      alive, ok := WriteDurably(tmp, data);
      if !alive {
        return;
      }
      alive, ok := SwitchName(tmp, dst, ok);
    }
  }
}
