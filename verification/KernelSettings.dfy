/** The objects behind the undo log: the host's settings files and a KernelSettings. */
module KernelSettings {
  import opened Settings
  import opened Wrappers

  // With signals ignored, what would have been an interrupted access goes through.
  function Masked(script: Script): Script {
    (path: Path, tick: nat) => if script(path, tick).Interrupts? then Smooth else script(path, tick)
  }

  class Kernel {
    const script: Script          // fates of the accesses while signals are handled
    const cleanup: Script         // and once they are ignored
    var host: Host
    var masked: bool              // SIGINT and SIGTERM are ignored

    constructor (script: Script, cleanup: Script, values: map<Path, int>)
      ensures this.script == script && this.cleanup == cleanup && host == Host(values, 0) && !masked
    {
      this.script, this.cleanup, host, masked := script, cleanup, Host(values, 0), false;
    }

    function Fates(): Script
      reads this`masked
    {
      if masked then Masked(cleanup) else script
    }

    method ReadFile(path: Path) returns (end: End<int>)
      modifies this`host
      ensures Io(host, end) == Read(Fates(), old(host), path)
    {
      var fate := Fates()(path, host.tick);
      host := host.(tick := host.tick + 1);
      if fate.Interrupts? {
        end := Interrupted;
      } else if fate.Fails? || path !in host.values {
        end := Raised;
      } else {
        end := Done(host.values[path]);
      }
    }

    method WriteFile(privileged: bool, path: Path, value: int) returns (end: End<()>)
      modifies this`host
      ensures Io(host, end) == Write(Fates(), privileged, old(host), path, value)
    {
      if !privileged || path !in host.values {
        return Raised;
      }
      var fate := Fates()(path, host.tick);
      host := host.(tick := host.tick + 1);
      match fate {
        case Smooth =>
          host := host.(values := host.values[path := value]);
          end := Done(());
        case Clamped(stored) =>
          host := host.(values := host.values[path := stored]);
          end := Done(());
        case Fails(effect) =>
          host := host.Store(path, effect);
          end := Raised;
        case Interrupts(effect) =>
          host := host.Store(path, effect);
          end := Interrupted;
      }
    }

    method PauseAt(path: Path) returns (end: End<()>)
      modifies this`host
      ensures Io(host, end) == Pause(Fates(), old(host), path)
    {
      end := if Fates()(path, host.tick).Interrupts? then Interrupted else Done(());
      host := host.(tick := host.tick + 1);
    }
  }

  class KernelSettings {
    const kernel: Kernel
    const privileged: bool
    var log: Log

    constructor (kernel: Kernel, privileged: bool)
      ensures this.kernel == kernel && this.privileged == privileged && log == EMPTY
    {
      this.kernel, this.privileged, log := kernel, privileged, EMPTY;
    }

    method SetValue(path: Path, value: int) returns (end: End<()>)
      modifies this, kernel`host
      ensures Tx(kernel.host, log, end)
        == Set(kernel.Fates(), privileged, old(kernel.host), old(log), path, value)
    {
      var previous := kernel.ReadFile(path);
      if !previous.Done? {
        return Lift(previous);
      }
      if previous.value == value {
        return Done(());
      }
      log := log.SetDefault(path, previous.value);
      end := kernel.WriteFile(privileged, path, value);
      if !end.Done? {
        return;
      }
      var readback := kernel.ReadFile(path);
      end := if readback.Done? && readback.value != value then Raised else Lift(readback);
    }

    // One entry of the restoring loop.
    method RestoreOne(path: Path) returns (end: End<()>)
      requires path in log.original
      modifies this, kernel`host
      ensures Tx(kernel.host, log, end)
        == RestoreEntry(kernel.Fates(), privileged, old(kernel.host), old(log), path)
    {
      var value := log.original[path];
      var current := kernel.ReadFile(path);
      if !current.Done? {
        return Lift(current);
      }
      if current.value != value {
        end := kernel.WriteFile(privileged, path, value);
        if !end.Done? {
          return;
        }
        var readback := kernel.ReadFile(path);
        if !readback.Done? {
          return Lift(readback);
        }
        if readback.value != value {
          return Raised;
        }
      }
      end := kernel.PauseAt(path);
      if end.Done? {
        log := log.Delete(path);
      }
    }

    method RestoreAll() returns (end: End<()>)
      requires Sound(kernel.host, log)
      modifies this, kernel`host
      ensures Tx(kernel.host, log, end)
        == Restore(kernel.Fates(), privileged, old(kernel.host), old(log))
    {
      AllPending(log);
      var snapshot := Reversed(log.order);
      var errors, i := 0, 0;
      ghost var whole := Restore(kernel.Fates(), privileged, kernel.host, log);
      while i < |snapshot|
        invariant 0 <= i <= |snapshot| && Sound(kernel.host, log) && Pending(log, snapshot[i..])
        invariant RestoreLoop(kernel.Fates(), privileged, kernel.host, log, snapshot[i..], errors) == whole
      {
        var path := snapshot[i];
        ghost var h, was := kernel.host, log;
        EntryKeepsOthers(kernel.Fates(), privileged, h, was, path);
        RestoreEntryConserves(kernel.Fates(), privileged, h, was, path);
        end := RestoreOne(path);
        PendingTail(was, snapshot[i..], log);
        assert snapshot[i..][1..] == snapshot[i + 1..];
        if end.Interrupted? {
          return;
        }
        if end.Raised? {
          errors := errors + 1;
        }
        i := i + 1;
      }
      end := if errors > 0 then Raised else Done(());
    }
  }

  lemma {:induction false} MaskedLoopNeverInterrupted(script: Script, privileged: bool, h: Host,
        log: Log, todo: seq<Path>, errors: nat)
    requires Sound(h, log) && Pending(log, todo)
    ensures !RestoreLoop(Masked(script), privileged, h, log, todo, errors).end.Interrupted?
    decreases |todo|
  {
    if todo != [] {
      var e := RestoreEntry(Masked(script), privileged, h, log, todo[0]);
      EntryKeepsOthers(Masked(script), privileged, h, log, todo[0]);
      RestoreEntryConserves(Masked(script), privileged, h, log, todo[0]);
      PendingTail(log, todo, e.log);
      MaskedLoopNeverInterrupted(script, privileged, e.host, e.log, todo[1..], errors + if e.end.Raised? then 1 else 0);
    }
  }

  // With signals ignored a restore runs to its end.
  lemma MaskedNeverInterrupted(script: Script, privileged: bool, h: Host, log: Log)
    requires Sound(h, log)
    ensures !Restore(Masked(script), privileged, h, log).end.Interrupted?
  {
    AllPending(log);
    MaskedLoopNeverInterrupted(script, privileged, h, log, Reversed(log.order), 0);
  }
}
