/**
 The worker threads: pinning, starting and joining. When each worker's steps depend on its
 own packet only, the packets after the join do not depend on how the steps interleave. The
 workers that share the stream behind rand() are the subject of SharedStream.
 */
module WorkerThreads {
  import opened Arith
  import opened Wrappers

  // ---- Pinning

  // Position in the CPU list of the CPU that worker i of n is pinned to.
  function PinIndex(n: nat, cpus: nat, i: nat): (k: nat)
    requires 0 < cpus
    ensures k < cpus
  {
    (if n == 1 then cpus / 4 else i) % cpus
  }

  function Pinned(n: nat, cpuList: seq<nat>, doBinding: bool): seq<Option<nat>> {
    seq(n, i requires 0 <= i < n =>
      if doBinding && cpuList != [] then Some(cpuList[PinIndex(n, |cpuList|, i)]) else None)
  }

  // Number of the first m workers pinned to the given CPU.
  function Load(bound: seq<Option<nat>>, cpu: nat): nat {
    if bound == [] then 0
    else Load(bound[..|bound| - 1], cpu) + if bound[|bound| - 1] == Some(cpu) then 1 else 0
  }

  // Two or more workers over distinct CPUs are dealt to them in turn, to the c-th of them
  // n div s workers, and one more when c is below n mod s.
  lemma {:induction false} RoundRobin(n: nat, cpuList: seq<nat>, m: nat, c: nat)
    requires 2 <= n && m <= n && c < |cpuList|
    requires forall j, k :: 0 <= j < k < |cpuList| ==> cpuList[j] != cpuList[k]
    ensures Load(Pinned(n, cpuList, true)[..m], cpuList[c])
            == m / |cpuList| + if c < m % |cpuList| then 1 else 0
  {
    var s, bound := |cpuList|, Pinned(n, cpuList, true);
    if m == 0 {
      DivModUnique(0, 0, 0, s);
    } else {
      RoundRobin(n, cpuList, m - 1, c);
      assert bound[..m][..m - 1] == bound[..m - 1];
      NextShare(m, s, c);
      var r := (m - 1) % s;
      assert bound[m - 1] == Some(cpuList[r]);
      assert cpuList[r] == cpuList[c] <==> r == c;
    }
  }

  // The c-th share of m things dealt to s in turn grows exactly when the m-th goes to c.
  lemma NextShare(m: nat, s: nat, c: nat)
    requires 1 <= m && c < s
    ensures m / s + (if c < m % s then 1 else 0)
            == (m - 1) / s + (if c < (m - 1) % s then 1 else 0) + if (m - 1) % s == c then 1 else 0
  {
    var q, r := (m - 1) / s, (m - 1) % s;
    assert m - 1 == s * q + r;
    if r + 1 == s {
      assert m == s * (q + 1) + 0;
      DivModUnique(q + 1, 0, m, s);
    } else {
      DivModUnique(q, r + 1, m, s);
    }
  }

  lemma PinnedBalanced(n: nat, cpuList: seq<nat>, c: nat)
    requires 2 <= n && c < |cpuList|
    requires forall j, k :: 0 <= j < k < |cpuList| ==> cpuList[j] != cpuList[k]
    ensures var bound := Pinned(n, cpuList, true);
            && (forall i :: 0 <= i < n ==> bound[i] == Some(cpuList[i % |cpuList|]))
            && Load(bound, cpuList[c]) == n / |cpuList| + if c < n % |cpuList| then 1 else 0
  {
    RoundRobin(n, cpuList, n, c);
    assert Pinned(n, cpuList, true)[..n] == Pinned(n, cpuList, true);
  }

  // A single worker is pinned to the CPU a quarter into the list; without binding, or without
  // CPUs to bind to, none is pinned.
  lemma PinnedAlone(n: nat, cpuList: seq<nat>, doBinding: bool)
    ensures cpuList != [] ==> Pinned(1, cpuList, true) == [Some(cpuList[|cpuList| / 4])]
    ensures !doBinding || cpuList == [] ==> Pinned(n, cpuList, doBinding) == seq(n, _ => None)
  {
    if cpuList != [] {
      DivModUnique(0, |cpuList| / 4, |cpuList| / 4, |cpuList|);
    }
  }

  // ---- Fork and join

  // A routine advances its packet one step at a time, and may use and change what all the
  // workers share; None says that it has returned.
  type Routine<!P, !S> = (P, S) -> Option<(P, S)>

  datatype Memory<+P, +S> = Memory(packets: seq<P>, shared: S)

  // One step of worker i; a worker without a routine is never started.
  function Advance<P, S>(routines: seq<Option<Routine<P, S>>>, m: Memory<P, S>, i: nat): (r: Memory<P, S>)
    requires |routines| == |m.packets|
    ensures |r.packets| == |m.packets|
  {
    if i < |m.packets| && !Returned(routines[i], m.packets[i], m.shared)
    then
      var (packet, shared) := routines[i].value(m.packets[i], m.shared).value;
      Memory(m.packets[i := packet], shared)
    else m
  }

  // The workers' steps interleaved as in the schedule.
  function Interleave<P, S>(routines: seq<Option<Routine<P, S>>>, m: Memory<P, S>,
        schedule: seq<nat>): (r: Memory<P, S>)
    requires |routines| == |m.packets|
    ensures |r.packets| == |m.packets|
  {
    if schedule == [] then m
    else Advance(routines, Interleave(routines, m, schedule[..|schedule| - 1]), schedule[|schedule| - 1])
  }

  predicate Returned<P, S>(routine: Option<Routine<P, S>>, packet: P, shared: S) {
    routine.None? || routine.value(packet, shared).None?
  }

  // The join returns once every worker has.
  predicate Complete<P, S>(routines: seq<Option<Routine<P, S>>>, m: Memory<P, S>, schedule: seq<nat>)
    requires |routines| == |m.packets|
  {
    var end := Interleave(routines, m, schedule);
    forall i :: 0 <= i < |m.packets| ==> Returned(routines[i], end.packets[i], end.shared)
  }

  // What the routine does to its packet, and when it returns, does not depend on what the
  // workers share.
  ghost predicate Local<P(!new), S(!new)>(routine: Option<Routine<P, S>>) {
    routine.Some? ==> forall p: P, s: S, s': S :: SameStep(routine.value, p, s, s')
  }

  ghost predicate SameStep<P, S>(routine: Routine<P, S>, p: P, s: S, s': S) {
    match (routine(p, s), routine(p, s'))
    case (None, None) => true
    case (Some(a), Some(b)) => a.0 == b.0
    case _ => false
  }

  ghost predicate AllLocal<P(!new), S(!new)>(routines: seq<Option<Routine<P, S>>>) {
    forall i :: 0 <= i < |routines| ==> Local(routines[i])
  }

  // A worker run alone for n steps.
  function Alone<P, S>(routine: Option<Routine<P, S>>, packet: P, shared: S, n: nat): P {
    if n == 0 then packet
    else
      var p := Alone(routine, packet, shared, n - 1);
      if Returned(routine, p, shared) then p else routine.value(p, shared).value.0
  }

  function StepsOf(schedule: seq<nat>, i: nat): nat {
    if schedule == [] then 0
    else StepsOf(schedule[..|schedule| - 1], i) + if schedule[|schedule| - 1] == i then 1 else 0
  }

  // In any interleaving the packet of a worker that only looks at it is as if the worker had
  // run alone.
  lemma {:induction false} Independent<P(!new), S(!new)>(routines: seq<Option<Routine<P, S>>>,
        m: Memory<P, S>, schedule: seq<nat>, i: nat)
    requires |routines| == |m.packets| && i < |m.packets| && Local(routines[i])
    ensures Interleave(routines, m, schedule).packets[i]
            == Alone(routines[i], m.packets[i], m.shared, StepsOf(schedule, i))
  {
    if schedule != [] {
      var front := schedule[..|schedule| - 1];
      Independent(routines, m, front, i);
      var before := Interleave(routines, m, front);
      if routines[i].Some? {
        assert SameStep(routines[i].value, before.packets[i], before.shared, m.shared);
      }
    }
  }

  lemma {:induction false} AloneSettles<P, S>(routine: Option<Routine<P, S>>, packet: P, shared: S, k: nat, n: nat)
    requires k <= n && Returned(routine, Alone(routine, packet, shared, k), shared)
    ensures Alone(routine, packet, shared, n) == Alone(routine, packet, shared, k)
    decreases n - k
  {
    if k < n {
      AloneSettles(routine, packet, shared, k, n - 1);
    }
  }

  // Having returned after an interleaving is having returned alone.
  lemma ReturnedAlone<P(!new), S(!new)>(routines: seq<Option<Routine<P, S>>>, m: Memory<P, S>,
        schedule: seq<nat>, i: nat)
    requires |routines| == |m.packets| && i < |m.packets| && Local(routines[i])
    ensures var end := Interleave(routines, m, schedule);
            Returned(routines[i], end.packets[i], end.shared)
            <==> Returned(routines[i], Alone(routines[i], m.packets[i], m.shared, StepsOf(schedule, i)), m.shared)
  {
    Independent(routines, m, schedule, i);
    var end := Interleave(routines, m, schedule);
    if routines[i].Some? {
      assert SameStep(routines[i].value, end.packets[i], end.shared, m.shared);
    }
  }

  // Any two complete interleavings leave the same packets.
  lemma JoinDeterministic<P(!new), S(!new)>(routines: seq<Option<Routine<P, S>>>, m: Memory<P, S>,
        a: seq<nat>, b: seq<nat>)
    requires |routines| == |m.packets| && AllLocal(routines)
    requires Complete(routines, m, a) && Complete(routines, m, b)
    ensures Interleave(routines, m, a).packets == Interleave(routines, m, b).packets
  {
    forall i | 0 <= i < |m.packets|
      ensures Interleave(routines, m, a).packets[i] == Interleave(routines, m, b).packets[i]
    {
      Independent(routines, m, a, i);
      Independent(routines, m, b, i);
      ReturnedAlone(routines, m, a, i);
      ReturnedAlone(routines, m, b, i);
      var k, n := StepsOf(a, i), StepsOf(b, i);
      if k <= n {
        AloneSettles(routines[i], m.packets[i], m.shared, k, n);
      } else {
        AloneSettles(routines[i], m.packets[i], m.shared, n, k);
      }
    }
  }

  // In particular, those of the workers run to their end one at a time, worker i for as many
  // steps as given.
  function OneByOne(lengths: seq<nat>): seq<nat> {
    if lengths == [] then []
    else OneByOne(lengths[..|lengths| - 1]) + seq(lengths[|lengths| - 1], _ => |lengths| - 1)
  }

  lemma {:induction false} StepsAppend(a: seq<nat>, b: seq<nat>, i: nat)
    ensures StepsOf(a + b, i) == StepsOf(a, i) + StepsOf(b, i)
  {
    if b == [] {
      assert a + b == a;
    } else {
      StepsAppend(a, b[..|b| - 1], i);
      assert (a + b)[..|a + b| - 1] == a + b[..|b| - 1];
    }
  }

  lemma {:induction false} StepsConstant(n: nat, worker: nat, i: nat)
    ensures StepsOf(seq(n, _ => worker), i) == if worker == i then n else 0
  {
    if n > 0 {
      StepsConstant(n - 1, worker, i);
      assert seq(n, _ => worker)[..n - 1] == seq(n - 1, _ => worker);
    }
  }

  lemma {:induction false} OneByOneSteps(lengths: seq<nat>, i: nat)
    ensures StepsOf(OneByOne(lengths), i) == if i < |lengths| then lengths[i] else 0
  {
    if lengths != [] {
      var n := |lengths| - 1;
      OneByOneSteps(lengths[..n], i);
      StepsAppend(OneByOne(lengths[..n]), seq(lengths[n], _ => n), i);
      StepsConstant(lengths[n], n, i);
    }
  }

  lemma JoinEqualsOneByOne<P(!new), S(!new)>(routines: seq<Option<Routine<P, S>>>, m: Memory<P, S>, schedule: seq<nat>)
    requires |routines| == |m.packets| && AllLocal(routines) && Complete(routines, m, schedule)
    ensures var lengths := seq(|m.packets|, (i: nat) => StepsOf(schedule, i));
            && Complete(routines, m, OneByOne(lengths))
            && Interleave(routines, m, OneByOne(lengths)).packets == Interleave(routines, m, schedule).packets
  {
    var lengths := seq(|m.packets|, (i: nat) => StepsOf(schedule, i));
    var a, b := Interleave(routines, m, OneByOne(lengths)), Interleave(routines, m, schedule);
    forall i | 0 <= i < |m.packets|
      ensures a.packets[i] == b.packets[i] && Returned(routines[i], a.packets[i], a.shared)
    {
      OneByOneSteps(lengths, i);
      Independent(routines, m, schedule, i);
      Independent(routines, m, OneByOne(lengths), i);
      ReturnedAlone(routines, m, schedule, i);
      ReturnedAlone(routines, m, OneByOne(lengths), i);
    }
  }

  // ---- The manager

  class WorkerThreadManager<P, S> {
    const numThreads: nat
    const boundCpu: seq<Option<nat>>
    var routines: seq<Option<Routine<P, S>>>
    var packets: seq<P>
    var created: seq<bool>

    ghost predicate Valid()
      reads this
    {
      |routines| == |packets| == |created| == |boundCpu| == numThreads
    }

    // packet(i) is a default packet that has been told it is the i-th of numThreads.
    constructor (numThreads: nat, cpuList: seq<nat>, doBinding: bool, packet: nat -> P)
      ensures Valid() && this.numThreads == numThreads
      ensures boundCpu == Pinned(numThreads, cpuList, doBinding)
      ensures routines == seq(numThreads, _ => None) && packets == seq(numThreads, packet)
      ensures created == seq(numThreads, _ => false)
    {
      this.numThreads := numThreads;
      boundCpu := Pinned(numThreads, cpuList, doBinding);
      routines, packets := seq(numThreads, _ => None), seq(numThreads, packet);
      created := seq(numThreads, _ => false);
    }

    method SetRoutine(routine: Routine<P, S>, pred: nat -> bool)
      requires Valid()
      modifies this`routines
      ensures Valid()
      ensures forall i :: 0 <= i < numThreads ==>
        routines[i] == if pred(i) then Some(routine) else old(routines)[i]
    {
      var i := 0;
      while i < numThreads
        invariant 0 <= i <= numThreads == |routines|
        invariant forall k :: 0 <= k < numThreads ==>
          routines[k] == if k < i && pred(k) then Some(routine) else old(routines)[k]
      {
        if pred(i) {
          routines := routines[i := Some(routine)];
        }
        i := i + 1;
      }
    }

    // Starts every worker that has a routine; `starts` says which starts succeed. A failure
    // ends the program once all have been tried.
    method Create(starts: nat -> bool) returns (ok: bool)
      requires Valid()
      modifies this`created
      ensures Valid()
      ensures forall i :: 0 <= i < numThreads ==> (created[i] <==> routines[i].Some? && starts(i))
      ensures ok <==> forall i :: 0 <= i < numThreads && routines[i].Some? ==> created[i]
    {
      var failed, i := 0, 0;
      while i < numThreads
        invariant 0 <= i <= numThreads == |created| && 0 <= failed
        invariant forall k :: 0 <= k < i ==> (created[k] <==> routines[k].Some? && starts(k))
        invariant failed == 0 <==> forall k :: 0 <= k < i && routines[k].Some? ==> created[k]
      {
        created := created[i := false];
        if routines[i].Some? {
          if !starts(i) {
            failed := failed + 1;
          } else {
            created := created[i := true];
          }
        }
        i := i + 1;
      }
      ok := failed == 0;
    }

    // What the workers do between create and the end of the joins: their steps, in the order
    // of the schedule. A join that times out or fails leaves its worker out of account, and
    // ends the program once all have been tried; only the others have surely returned.
    method Join(schedule: seq<nat>, stuck: nat -> bool, shared: S) returns (ok: bool, shared': S)
      requires Valid() && forall i :: 0 <= i < numThreads && routines[i].Some? ==> created[i]
      requires var end := Interleave(routines, Memory(packets, shared), schedule);
               forall i :: 0 <= i < numThreads && created[i] && !stuck(i) ==>
                 Returned(routines[i], end.packets[i], end.shared)
      modifies this`packets
      ensures Valid() && Memory(packets, shared') == Interleave(routines, Memory(old(packets), shared), schedule)
      ensures ok <==> forall i :: 0 <= i < numThreads && created[i] ==> !stuck(i)
      ensures ok ==> Complete(routines, Memory(old(packets), shared), schedule)
    {
      var m := Memory(packets, shared);
      ghost var before := m;
      var t := 0;
      while t < |schedule|
        invariant 0 <= t <= |schedule| && |m.packets| == |routines|
        invariant m == Interleave(routines, before, schedule[..t])
      {
        assert schedule[..t + 1][..t] == schedule[..t];
        m := Advance(routines, m, schedule[t]);
        t := t + 1;
      }
      assert schedule[..t] == schedule;
      packets, shared' := m.packets, m.shared;
      var count, i := 0, 0;
      while i < numThreads
        invariant 0 <= i <= numThreads && 0 <= count
        invariant count == 0 <==> forall k :: 0 <= k < i && created[k] ==> !stuck(k)
      {
        if created[i] && stuck(i) {
          count := count + 1;
        }
        i := i + 1;
      }
      ok := count == 0;
    }
  }
}
