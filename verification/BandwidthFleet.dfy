/**
 Bandwidth workers forked and joined: each runs the loops of the bandwidth worker on its own
 region, by its own clock. However they interleave, each reports what it would report alone.
 */
module BandwidthFleet {
  import opened Arith
  import opened Wrappers
  import opened Checkpoints
  import opened KernelLanguage
  import opened BandwidthKernels
  import opened BandwidthWorker
  import opened WorkerThreads
  import L = RunLoops

  // A worker's packet: what its run is given, where its loops are, and its machine.
  datatype Packet = Packet(run: L.Run, kernel: Program, loops: L.LoopState, machine: State)

  // One step: a kernel call with the test after it, or the start of the next pass.
  function Next(p: Packet): Option<Packet> {
    if p.loops.over then None
    else
      var loops := L.Step(p.run, p.loops);
      var machine := if p.loops.i == p.run.loopCount then Rewind(p.machine) else Exec(p.kernel, p.machine);
      Some(p.(loops := loops, machine := machine))
  }

  function BwRoutine<S>(): Routine<Packet, S> {
    (p: Packet, shared: S) => match Next(p) case None => None case Some(q) => Some((q, shared))
  }

  lemma BwRoutineIsLocal<S(!new)>()
    ensures Local(Some(BwRoutine<S>()))
  {
    forall p: Packet, s: S, s': S
      ensures SameStep(BwRoutine<S>(), p, s, s')
    {
    }
  }

  // A worker about to start.
  predicate Fresh(p: Packet) {
    0 < p.run.batch && p.loops == L.START && p.machine == Rewind(p.machine)
  }

  // Kernel calls made in the pass the worker is in.
  function Calls(p: Packet): nat {
    if p.loops.over then p.loops.i + 1 else p.loops.i
  }

  // Started from p0, the worker has made `passes` full passes and the calls of the one it is
  // in, and its loops and machine are where those take them.
  ghost predicate OnRun(p0: Packet, p: Packet, passes: nat) {
    && p.run == p0.run && p.kernel == p0.kernel
    && L.Inv(p.run, p.loops)
    && Calls(p) <= p.run.loopCount
    && p.loops.batches == passes * p.run.loopCount + Calls(p)
    && p.machine == ExecTimes(Calls(p), p.kernel, PassStart(p.kernel, p.run.loopCount, passes, p0.machine))
  }

  lemma NextOnRun(p0: Packet, p: Packet, passes: nat) returns (passes': nat)
    requires 0 < p0.run.batch && OnRun(p0, p, passes) && !p.loops.over
    ensures OnRun(p0, Next(p).value, passes')
  {
    L.StepKeeps(p.run, p.loops);
    if p.loops.i == p.run.loopCount {
      passes' := passes + 1;
      NextMultiple(passes, p.run.loopCount);
    } else {
      passes' := passes;
    }
  }

  lemma {:induction false} AloneOnRun<S>(p0: Packet, shared: S, n: nat) returns (passes: nat)
    requires Fresh(p0)
    ensures OnRun(p0, Alone(Some(BwRoutine<S>()), p0, shared, n), passes)
  {
    passes := 0;
    if n > 0 {
      passes := AloneOnRun(p0, shared, n - 1);
      var p := Alone(Some(BwRoutine<S>()), p0, shared, n - 1);
      if !p.loops.over {
        passes := NextOnRun(p0, p, passes);
      }
    }
  }

  function Fleet<S>(n: nat): seq<Option<Routine<Packet, S>>> {
    seq(n, _ => Some(BwRoutine<S>()))
  }

  // What a worker that has returned reports: the run of the bandwidth worker, ended at the
  // first checkpoint of its own clock that finds the target reached.
  ghost predicate Reports(p0: Packet, p: Packet, passes: nat) {
    && OnRun(p0, p, passes)
    && p.loops.over && 0 < Calls(p)
    && FirstReach(p0.run.clock, p0.run.target, p.loops.chkpts)
    && p.loops.batches == Batches(p0.run.chkpt, p0.run.batch, p.loops.chkpts)
  }

  // Fork any number of bandwidth workers and join them, in any interleaving that lets all of
  // them return: each has made exactly the run it makes alone, and running them one after
  // the other gives the same packets.
  lemma FleetReports<S(!new)>(packets: seq<Packet>, shared: S, schedule: seq<nat>, w: nat) returns (passes: nat)
    requires w < |packets| && forall k :: 0 <= k < |packets| ==> Fresh(packets[k])
    requires Complete(Fleet<S>(|packets|), Memory(packets, shared), schedule)
    ensures var end := Interleave(Fleet<S>(|packets|), Memory(packets, shared), schedule);
            var lengths := seq(|packets|, (i: nat) => StepsOf(schedule, i));
            && Reports(packets[w], end.packets[w], passes)
            && Interleave(Fleet<S>(|packets|), Memory(packets, shared), OneByOne(lengths)).packets == end.packets
  {
    var routines, m := Fleet<S>(|packets|), Memory(packets, shared);
    BwRoutineIsLocal<S>();
    Independent(routines, m, schedule, w);
    passes := AloneOnRun(packets[w], shared, StepsOf(schedule, w));
    var end := Interleave(routines, m, schedule);
    assert Returned(routines[w], end.packets[w], end.shared);
    assert end.packets[w].loops.over;
    JoinEqualsOneByOne(routines, m, schedule);
  }
}
