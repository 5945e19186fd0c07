/**
 The suite runner: NUMA balancing and huge pages are set up in two transactions, the
 benchmarks run, and whatever happened the transactions are unwound last-in first-out.
 */
module Runner {
  import opened Settings
  import opened Wrappers
  import opened KernelSettings
  import opened HugePages

  const AUTONUMA: Path := "/proc/sys/kernel/numa_balancing"

  // ---- Unwinding two logs

  // From the host at entry (h0) the first transaction led to h1 and log1, then the second,
  // starting empty, to h2 and log2. Unwinding the second and then the first puts a setting
  // back to its value at entry unless it is left in one of the logs, even when both logs
  // name it; when both restores end normally every setting is back.
  lemma UnwindLifo(h0: Host, h1: Host, log1: Log, h2: Host, log2: Log, huge: Tx, numa: Tx)
    requires Keeps(h0, EMPTY, h1, log1) && Keeps(h1, EMPTY, h2, log2)
    requires RestoreSpec(h2, log2, huge)
    ensures Sound(huge.host, log1)
    ensures RestoreSpec(huge.host, log1, numa) ==>
      && (forall p :: p in h0.values && p !in huge.log.original && p !in numa.log.original ==>
            p in numa.host.values && numa.host.values[p] == h0.values[p])
      && (huge.end.Done? && numa.end.Done? ==> numa.host.values == h0.values)
  {
    KeepsSettings(h0, EMPTY, h1, log1);
    KeepsSettings(h1, EMPTY, h2, log2);
    KeepsSettings(h2, log2, huge.host, huge.log);
    forall p
      ensures Known(huge.host, log1, p)
    {
      assert Known(h1, log1, p);
    }
    if RestoreSpec(huge.host, log1, numa) {
      forall p | p in h0.values && p !in huge.log.original && p !in numa.log.original
        ensures p in numa.host.values && numa.host.values[p] == h0.values[p]
      {
        assert huge.host.values[p] == Undone(h2, log2)[p] == h1.values[p];
        assert numa.host.values[p] == Undone(huge.host, log1)[p];
        assert Undone(h1, log1)[p] == h0.values[p];
      }
      if huge.end.Done? && numa.end.Done? {
        KeepsSettings(huge.host, log1, numa.host, numa.log);
      }
    }
  }

  // The order matters. With nothing going wrong, unwinding the first transaction before the
  // second gives the settings at entry exactly when the two logs agree on every path that
  // both of them name.
  lemma UnwindFifoIff(script: Script, h0: Host, h1: Host, log1: Log, h2: Host, log2: Log)
    requires Keeps(h0, EMPTY, h1, log1) && Keeps(h1, EMPTY, h2, log2)
    requires forall p :: p in log1.original || p in log2.original ==> SmoothFor(script, p)
    ensures Sound(h2, log1)
    ensures var numa := Restore(script, true, h2, log1);
            && Sound(numa.host, log2)
            && var huge := Restore(script, true, numa.host, log2);
               && numa.end.Done? && huge.end.Done?
               && (huge.host.values == h0.values
                   <==> forall p :: p in log1.original && p in log2.original ==>
                          log1.original[p] == log2.original[p])
  {
    KeepsSettings(h0, EMPTY, h1, log1);
    KeepsSettings(h1, EMPTY, h2, log2);
    forall p
      ensures Known(h2, log1, p)
    {
      assert Known(h1, log1, p);
    }
    RestoreSmooth(script, h2, log1);
    RestoreConserves(script, true, h2, log1);
    var numa := Restore(script, true, h2, log1);
    KeepsSettings(h2, log1, numa.host, numa.log);
    forall p
      ensures Known(numa.host, log2, p) && Known(h1, log1, p) && Known(h2, log2, p)
    {
      assert Known(h2, log2, p) && Known(h1, log1, p);
    }
    RestoreSmooth(script, numa.host, log2);
    var final := (h2.values + log1.original) + log2.original;
    assert Restore(script, true, numa.host, log2).host.values == final;
    assert final.Keys == h0.values.Keys;
    forall p | p in h0.values
      ensures final[p] == h0.values[p]
        <==> (p in log1.original && p in log2.original ==> log1.original[p] == log2.original[p])
    {
      assert Undone(h1, log1)[p] == h0.values[p];
      assert Undone(h2, log2)[p] == h1.values[p];
    }
    if final == h0.values {
    } else {
      var p :| p in h0.values && final[p] != h0.values[p];
    }
  }

  // A concrete pair of transactions on one setting that the wrong order does not restore.
  lemma FifoFails(script: Script, path: Path)
    requires SmoothFor(script, path)
    ensures var h0 := Host(map[path := 1], 0);
            var first := Set(script, true, h0, EMPTY, path, 2);
            var second := Set(script, true, first.host, EMPTY, path, 3);
            && first.log.Valid() && second.log.Valid()
            && var numa := Restore(script, true, second.host, first.log);
               Restore(script, true, numa.host, second.log).host.values == map[path := 2]
  {
    var h0 := Host(map[path := 1], 0);
    SetSmooth(script, h0, EMPTY, path, 2);
    var first := Set(script, true, h0, EMPTY, path, 2);
    SetSmooth(script, first.host, EMPTY, path, 3);
    var second := Set(script, true, first.host, EMPTY, path, 3);
    assert first.log == OneEntry(path, 1) && second.log == OneEntry(path, 2);
    RestoreOneEntry(script, second.host, path, 1);
    var numa := Restore(script, true, second.host, first.log);
    RestoreOneEntry(script, numa.host, path, 2);
  }

  function OneEntry(path: Path, value: int): Log {
    Log(map[path := value], [path])
  }

  // Restoring a log of one entry puts that value back.
  lemma RestoreOneEntry(script: Script, h: Host, path: Path, value: int)
    requires SmoothFor(script, path) && path in h.values
    ensures OneEntry(path, value).Valid()
    ensures Restore(script, true, h, OneEntry(path, value)).host.values == h.values[path := value]
  {
    OneEntrySound(h, path, value);
    RestoreSmooth(script, h, OneEntry(path, value));
    assert Undone(h, OneEntry(path, value)) == h.values[path := value];
  }

  lemma SetSmooth(script: Script, h: Host, log: Log, path: Path, value: int)
    requires SmoothFor(script, path) && path in h.values && h.values[path] != value
    ensures Set(script, true, h, log, path, value)
            == Tx(Host(h.values[path := value], h.tick + 3), log.SetDefault(path, h.values[path]), Done(()))
  {
    assert script(path, h.tick) == Smooth && script(path, h.tick + 1) == Smooth && script(path, h.tick + 2) == Smooth;
  }

  lemma OneEntrySound(h: Host, path: Path, value: int)
    requires path in h.values
    ensures Sound(h, OneEntry(path, value))
  {
    var log := OneEntry(path, value);
    forall p
      ensures log.Listed(p) && Known(h, log, p)
    {
    }
  }

  // ---- The runner

  datatype HugePageMode = Auto | Off | Existing

  datatype Args = Args(dryRun: bool, noSystemConfig: bool, latencyRequested: bool, hugepages: HugePageMode)

  // What the run finds and cannot decide: administrative access, the reading of NUMA
  // balancing, the nodes and pools, whether an error in setting NUMA balancing is of a kind
  // its handler does not name, and how the benchmarks end.
  datatype Circumstances = Circumstances(
    access: bool, autonuma: Option<int>, memory: seq<Node>, pools: Pools, unnamedError: bool, tests: End<()>)

  class SuiteRunner {
    const kernel: Kernel
    const settings: KernelSettings
    const hugeSettings: KernelSettings

    ghost predicate Valid()
      reads this, settings, hugeSettings
    {
      settings != hugeSettings && settings.kernel == hugeSettings.kernel == kernel
      && settings.privileged == hugeSettings.privileged
    }

    constructor (kernel: Kernel, privileged: bool)
      ensures Valid() && this.kernel == kernel && settings.privileged == privileged
      ensures fresh(settings) && fresh(hugeSettings) && settings.log == EMPTY && hugeSettings.log == EMPTY
    {
      this.kernel := kernel;
      settings := new KernelSettings(kernel, privileged);
      hugeSettings := new KernelSettings(kernel, privileged);
    }

    // A transaction that has been taken back: nothing is left changed, or in its log.
    ghost predicate TakenBack(h: Host, log: Log, transaction: KernelSettings)
      reads kernel, transaction
    {
      kernel.host.values == Undone(h, log) && transaction.log.original == map[]
    }

    // Disabling NUMA balancing; a named error is taken back and only warned about.
    method DisableAutonuma(c: Circumstances) returns (end: End<()>, warned: bool)
      requires Valid() && Sound(kernel.host, settings.log)
      modifies settings, kernel`host
      ensures Keeps(old(kernel.host), old(settings.log), kernel.host, settings.log)
      ensures warned ==> end.Done? && TakenBack(old(kernel.host), old(settings.log), settings)
      ensures end.Done? && !warned ==> AUTONUMA in kernel.host.values && kernel.host.values[AUTONUMA] == 0
      ensures (settings.privileged && AUTONUMA in old(kernel.host).values && SmoothFor(kernel.Fates(), AUTONUMA)) ==>
        end.Done? && !warned && kernel.host.values == old(kernel.host).values[AUTONUMA := 0]
    {
      ghost var h, log, fates := kernel.host, settings.log, kernel.Fates();
      SetConserves(fates, settings.privileged, h, log, AUTONUMA, 0);
      if AUTONUMA in h.values && SmoothFor(fates, AUTONUMA) {
        SetProgress(fates, h, log, AUTONUMA, 0);
      }
      end := settings.SetValue(AUTONUMA, 0);
      warned := false;
      if end.Raised? && !c.unnamedError {
        ghost var h1, log1 := kernel.host, settings.log;
        KeepsSettings(h, log, h1, log1);
        RestoreConserves(fates, settings.privileged, h1, log1);
        end := settings.RestoreAll();
        KeepsTransitive(h, log, h1, log1, kernel.host, settings.log);
        warned := end.Done?;
      }
    }

    // Provisioning huge pages; an error is taken back and only warned about, with size 0.
    method ProvisionHugePages(c: Circumstances) returns (size: nat, end: End<()>)
      requires Valid() && Sound(kernel.host, hugeSettings.log)
      modifies hugeSettings, kernel`host
      ensures Keeps(old(kernel.host), old(hugeSettings.log), kernel.host, hugeSettings.log)
      ensures size != 0 ==> end.Done? && size == PickHugePageSize(c.memory, c.pools) && Usable(c.memory, c.pools, size)
      ensures size != 0 ==>
        Tx(kernel.host, hugeSettings.log, end)
        == ReserveAll(kernel.Fates(), hugeSettings.privileged, old(kernel.host), old(hugeSettings.log),
                      Targets(c.memory, c.pools, size))
      ensures size != 0 ==> Reserved(c.memory, c.pools, size, old(kernel.host), kernel.host)
      ensures end.Done? && size == 0 ==> TakenBack(old(kernel.host), old(hugeSettings.log), hugeSettings)
      ensures (hugeSettings.privileged && old(hugeSettings.log) == EMPTY
               && PoolsSmooth(kernel.Fates(), old(kernel.host), c.pools)) ==>
        end.Done? && size == PickHugePageSize(c.memory, c.pools)
    {
      ghost var h, log, fates := kernel.host, hugeSettings.log, kernel.Fates();
      size, end := SetupHugePages(hugeSettings, c.memory, c.pools);
      if end.Raised? {
        ghost var h1, log1 := kernel.host, hugeSettings.log;
        KeepsSettings(h, log, h1, log1);
        RestoreConserves(fates, hugeSettings.privileged, h1, log1);
        if log1 == EMPTY && hugeSettings.privileged {
          RestoreSmooth(fates, h1, log1);
        }
        end := hugeSettings.RestoreAll();
        KeepsTransitive(h, log, h1, log1, kernel.host, hugeSettings.log);
      }
    }

    // What the guarded body has set up when it starts the benchmarks: from the host at entry
    // (h0), over the host between the two transactions, to the host now.
    ghost predicate SetUp(args: Args, c: Circumstances, h0: Host, between: Host, warned: bool, size: nat)
      reads kernel, settings, hugeSettings
    {
      && (if settings.privileged && c.autonuma.Some? && c.autonuma.value != 0 then
            if warned then between.values == h0.values && settings.log.original == map[]
            else AUTONUMA in between.values && between.values[AUTONUMA] == 0
          else !warned && between == h0 && settings.log == EMPTY)
      && (if settings.privileged && args.latencyRequested && args.hugepages == Auto then
            if size == 0 then kernel.host.values == between.values && hugeSettings.log.original == map[]
            else size == PickHugePageSize(c.memory, c.pools) && Reserved(c.memory, c.pools, size, between, kernel.host)
          else
            && kernel.host == between && hugeSettings.log == EMPTY
            && size == if args.latencyRequested
                          && (args.hugepages == Existing || (args.dryRun && args.hugepages == Auto))
                       then PickHugePageSize(c.memory, c.pools) else 0)
    }

    // What the setting up needs is on the host, and no access goes wrong.
    ghost predicate Smoothly(c: Circumstances)
      reads kernel
    {
      AUTONUMA in kernel.host.values && SmoothFor(kernel.Fates(), AUTONUMA)
      && PoolsSmooth(kernel.Fates(), kernel.host, c.pools)
    }

    // The guarded body. The first transaction is over before the second begins. `ran` says
    // that the benchmarks were started, `size` is the huge-page size they got, and `admin`
    // whether the huge-page ones got the caller's administrative access.
    method Body(args: Args, c: Circumstances)
      returns (end: End<()>, ran: bool, warned: bool, size: nat, admin: bool, ghost between: Host)
      requires Valid() && settings.log == EMPTY && hugeSettings.log == EMPTY
      requires settings.privileged == (!args.noSystemConfig && !args.dryRun && c.access)
      modifies settings, hugeSettings, kernel`host
      ensures Keeps(old(kernel.host), EMPTY, between, settings.log)
      ensures Keeps(between, EMPTY, kernel.host, hugeSettings.log)
      ensures !settings.privileged ==>
        kernel.host == old(kernel.host) && settings.log == EMPTY && hugeSettings.log == EMPTY
      ensures if ran then end == c.tests && SetUp(args, c, old(kernel.host), between, warned, size)
              else !end.Done? && !args.dryRun
      ensures ran ==> (admin <==> settings.privileged && !(args.latencyRequested && args.hugepages == Existing))
      ensures ran && !args.dryRun && args.latencyRequested && args.hugepages == Existing ==> size != 0
      ensures end.Done? ==> c.tests.Done?
      ensures old(Smoothly(c)) ==>
        && !warned
        && (ran <==> args.dryRun || !args.latencyRequested || args.hugepages != Existing
                     || PickHugePageSize(c.memory, c.pools) != 0)
        && (settings.privileged && args.latencyRequested && args.hugepages == Auto ==>
              size == PickHugePageSize(c.memory, c.pools))
    {
      SoundEmpty(kernel.host);
      between := kernel.host;
      end, ran, warned, size, admin := Done(()), false, false, 0, settings.privileged;
      if args.dryRun {
        if args.latencyRequested && args.hugepages != Off {
          size := PickHugePageSize(c.memory, c.pools);
        }
      } else {
        if settings.privileged && c.autonuma.Some? && c.autonuma.value != 0 {
          end, warned := DisableAutonuma(c);
          between := kernel.host;
          SoundEmpty(between);
          if !end.Done? {
            return;
          }
        }
        if args.latencyRequested && args.hugepages == Auto && settings.privileged {
          size, end := ProvisionHugePages(c);
          if !end.Done? {
            return;
          }
        } else if args.latencyRequested && args.hugepages == Existing {
          admin := false;
          size := PickHugePageSize(c.memory, c.pools);
          if size == 0 {
            end := Raised;
            return;
          }
        }
      }
      end, ran := c.tests, true;
    }

    // One restore of the `finally`, from the state the guarded body left.
    method Unwind(transaction: KernelSettings) returns (end: End<()>)
      requires Valid() && transaction in {settings, hugeSettings} && Sound(kernel.host, transaction.log)
      requires kernel.masked || transaction.log == EMPTY
      modifies transaction, kernel`host
      ensures RestoreSpec(old(kernel.host), old(transaction.log), Tx(kernel.host, transaction.log, end))
      ensures !end.Interrupted?
      ensures kernel.masked && transaction.privileged ==>
        forall p :: SmoothFor(Masked(kernel.cleanup), p) ==> p !in transaction.log.original
    {
      ghost var h, log, fates := kernel.host, transaction.log, kernel.Fates();
      RestoreConserves(fates, transaction.privileged, h, log);
      if kernel.masked {
        MaskedNeverInterrupted(kernel.cleanup, transaction.privileged, h, log);
      }
      forall p | p in log.original && transaction.privileged && SmoothFor(fates, p)
        ensures var tx := Restore(fates, true, h, log); !tx.end.Interrupted? ==> p !in tx.log.original
      {
        RestoreProgress(fates, h, log, p);
      }
      end := transaction.RestoreAll();
    }

    // The `finally`: signals are ignored while both transactions are unwound, the last first.
    // The two transactions led from h0 over h1 to the host now.
    method UnwindBoth(masked: bool, ghost h0: Host, ghost h1: Host) returns (failed: bool)
      requires Valid() && Keeps(h0, EMPTY, h1, settings.log) && Keeps(h1, EMPTY, kernel.host, hugeSettings.log)
      requires (masked && settings.privileged) || (settings.log == EMPTY && hugeSettings.log == EMPTY)
      modifies settings, hugeSettings, kernel
      ensures forall p :: p in h0.values && p !in settings.log.original && p !in hugeSettings.log.original ==>
                p in kernel.host.values && kernel.host.values[p] == h0.values[p]
      ensures forall p :: SmoothFor(Masked(kernel.cleanup), p) ==>
                p !in settings.log.original && p !in hugeSettings.log.original
      ensures failed <==> settings.log.original != map[] || hugeSettings.log.original != map[]
      ensures !failed ==> kernel.host.values == h0.values
      ensures !kernel.masked
      ensures old(settings.log) == EMPTY && old(hugeSettings.log) == EMPTY ==> !failed
    {
      ghost var h2, log1, log2 := kernel.host, settings.log, hugeSettings.log;
      kernel.masked := masked;
      KeepsSettings(h0, EMPTY, h1, log1);
      KeepsSettings(h1, EMPTY, h2, log2);
      var hugeEnd := Unwind(hugeSettings);
      ghost var huge := Tx(kernel.host, hugeSettings.log, hugeEnd);
      UnwindLifo(h0, h1, log1, h2, log2, huge, huge);
      var numaEnd := Unwind(settings);
      ghost var numa := Tx(kernel.host, settings.log, numaEnd);
      UnwindLifo(h0, h1, log1, h2, log2, huge, numa);
      kernel.masked := false;
      failed := !hugeEnd.Done? || !numaEnd.Done?;
    }

    // The whole run. However the body ends, when the run is over every setting has its value
    // at entry unless it is still in one of the two logs, and a setting whose accesses
    // succeed once signals are ignored is not. If no log has entries left all settings are
    // back; otherwise the run fails and says so. A run without administrative access, or a
    // dry run, never changes a setting. `during` is the host the benchmarks ran on, if they
    // did: NUMA balancing is off there, unless that was warned about, and the pages are
    // reserved.
    method Run(args: Args, c: Circumstances)
      returns (end: End<()>, failed: bool, ran: bool, warned: bool, size: nat, ghost during: Host)
      requires Valid() && settings.log == EMPTY && hugeSettings.log == EMPTY && !kernel.masked
      requires settings.privileged == (!args.noSystemConfig && !args.dryRun && c.access)
      modifies settings, hugeSettings, kernel
      ensures forall p :: p in old(kernel.host).values
                          && p !in settings.log.original && p !in hugeSettings.log.original ==>
                p in kernel.host.values && kernel.host.values[p] == old(kernel.host).values[p]
      ensures forall p :: SmoothFor(Masked(kernel.cleanup), p) ==>
                p !in settings.log.original && p !in hugeSettings.log.original
      ensures failed <==> settings.log.original != map[] || hugeSettings.log.original != map[]
      ensures !failed ==> kernel.host.values == old(kernel.host).values
      ensures failed ==> end.Raised?
      ensures !kernel.masked
      ensures !failed && ran ==> end == c.tests
      ensures !ran ==> !end.Done?
      ensures end.Done? ==> c.tests.Done?
      ensures !settings.privileged ==> kernel.host.values == old(kernel.host).values
      ensures ran && settings.privileged && c.autonuma.Some? && c.autonuma.value != 0 && !warned
              && (forall key :: key in c.pools ==> c.pools[key] != AUTONUMA) ==>
        AUTONUMA in during.values && during.values[AUTONUMA] == 0
      ensures ran && size != 0 && settings.privileged && args.latencyRequested && args.hugepages == Auto ==>
        exists between: Host :: Reserved(c.memory, c.pools, size, between, during)
      ensures (old(Smoothly(c)) && args.hugepages != Existing && c.tests.Done?) ==> ran && !warned
    {
      ghost var h0 := kernel.host;
      ghost var h1;
      var admin;
      end, ran, warned, size, admin, h1 := Body(args, c);
      during := kernel.host;
      if ran && AUTONUMA in h1.values && forall key :: key in c.pools ==> c.pools[key] != AUTONUMA {
        BalancingStaysOff(args, c, h0, h1, warned, size);
      }
      failed := UnwindBoth(!args.dryRun, h0, h1);
      if failed {
        end := Raised;
      }
    }

    // Provisioning leaves NUMA balancing alone.
    lemma BalancingStaysOff(args: Args, c: Circumstances, h0: Host, between: Host, warned: bool, size: nat)
      requires SetUp(args, c, h0, between, warned, size)
      requires forall key :: key in c.pools ==> c.pools[key] != AUTONUMA
      requires AUTONUMA in between.values
      ensures AUTONUMA in kernel.host.values && kernel.host.values[AUTONUMA] == between.values[AUTONUMA]
    {
      if settings.privileged && args.latencyRequested && args.hugepages == Auto && size != 0 {
        assert GrownOnly(c.memory, c.pools, size, |c.memory|, between, kernel.host, AUTONUMA);
      }
    }
  }

  lemma SoundEmpty(h: Host)
    ensures Sound(h, EMPTY) && Keeps(h, EMPTY, h, EMPTY)
  {
  }
}
