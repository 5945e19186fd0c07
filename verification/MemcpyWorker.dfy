/** The memcpy worker: fragment after fragment of the source region to the destination. */
module MemcpyWorker {
  import opened Arith
  import opened Checkpoints
  import opened RunLoops

  newtype Byte = b: int | 0 <= b < 256

  method Memcpy(dst: array<Byte>, dstAt: nat, src: array<Byte>, srcAt: nat, count: nat)
    requires dst != src && dstAt + count <= dst.Length && srcAt + count <= src.Length
    modifies dst
    ensures forall k :: 0 <= k < dst.Length ==>
      dst[k] == if dstAt <= k < dstAt + count then src[srcAt + (k - dstAt)] else old(dst[k])
  {
    forall k | dstAt <= k < dstAt + count {
      dst[k] := src[srcAt + (k - dstAt)];
    }
  }

  // Fragments of the destination that `calls` calls have written.
  function Written(calls: nat, loopCount: nat): nat {
    if calls < loopCount then calls else loopCount
  }

  lemma NextFragment(i: nat, calls: nat, loopCount: nat, f: nat)
    requires i < loopCount && i <= calls && (calls < loopCount ==> i == calls)
    ensures var at, n := i * f, Written(calls, loopCount) * f;
            && (at == n || at + f <= n) && at + f <= loopCount * f
            && Written(calls + 1, loopCount) * f == if at == n then n + f else n
  {
    RowsApart(f, i, loopCount);
    if calls < loopCount {
      assert (i + 1) * f == i * f + f;
    }
  }

  class MemcpyPacket {
    const dst: array<Byte>
    const src: array<Byte>
    const activeSize: nat
    var targetDuration: nat       // seconds
    var fragmentSize: nat
    var refOneExecTimeNs: nat
    var finishedBytes: nat
    var execTimeNs: int

    constructor (dst: array<Byte>, src: array<Byte>, activeSize: nat)
      ensures this.dst == dst && this.src == src && this.activeSize == activeSize
      ensures targetDuration == fragmentSize == refOneExecTimeNs == finishedBytes == execTimeNs == 0
    {
      this.dst, this.src, this.activeSize := dst, src, activeSize;
      targetDuration, fragmentSize, refOneExecTimeNs, finishedBytes, execTimeNs := 0, 0, 0, 0, 0;
    }

    // Calls between checkpoints: the most that take up to 5 ms, and at least one.
    function ChkptCalls(): (calls: nat)
      reads this
      ensures 1 <= calls && (refOneExecTimeNs == 0 ==> calls == 1)
      ensures 0 < refOneExecTimeNs ==>
        && (calls * refOneExecTimeNs <= 5_000_000 || calls == 1)
        && 5_000_000 < calls * refOneExecTimeNs + refOneExecTimeNs
    {
      if refOneExecTimeNs > 0 && 5 * 1000000 / refOneExecTimeNs > 1 then 5 * 1000000 / refOneExecTimeNs
      else 1
    }

    // The first n bytes of the destination are the source's, the rest are as at `start`.
    ghost predicate Copied(start: seq<Byte>, n: nat)
      reads this, dst, src
    {
      && n <= dst.Length == src.Length == |start|
      && forall k :: 0 <= k < |start| ==> dst[k] == if k < n then src[k] else start[k]
    }

    ghost predicate CopiedAfter(start: seq<Byte>, calls: nat, loopCount: nat)
      reads this, dst, src
    {
      Copied(start, Written(calls, loopCount) * fragmentSize)
    }

    // Call i of a pass, `calls` calls having been made before.
    method CopyOne(i: nat, ghost start: seq<Byte>, ghost calls: nat, ghost loopCount: nat)
      requires dst != src && dst.Length == src.Length == |start|
      requires i < loopCount && loopCount * fragmentSize <= |start|
      requires i <= calls && (calls < loopCount ==> i == calls)
      requires CopiedAfter(start, calls, loopCount)
      modifies dst
      ensures CopiedAfter(start, calls + 1, loopCount)
    {
      var at := i * fragmentSize;
      NextFragment(i, calls, loopCount, fragmentSize);
      Memcpy(dst, at, src, at, fragmentSize);
    }

    method CopyPass(pacer: Pacer, loopCount: nat, calls0: nat, ghost start: seq<Byte>) returns (i: nat, calls: nat)
      requires dst != src && dst.Length == src.Length == |start|
      requires 1 <= loopCount && loopCount * fragmentSize <= |start|
      requires pacer.Running() && pacer.batch == 1 && calls0 == pacer.batches
      requires calls0 == 0 || loopCount <= calls0
      requires CopiedAfter(start, calls0, loopCount)
      modifies pacer, pacer.timer, dst
      ensures calls == pacer.batches && i <= loopCount && CopiedAfter(start, calls, loopCount)
      ensures i == loopCount ==> loopCount <= calls
      ensures if i < loopCount then pacer.Done()
              else pacer.Running() && pacer.Past(old(pacer.numChkpts), old(pacer.ToNext()))
    {
      i, calls := 0, calls0;
      while i < loopCount
        invariant 0 <= i <= loopCount && calls == calls0 + i == pacer.batches
        invariant CopiedAfter(start, calls, loopCount) && pacer.Running()
        invariant pacer.Moved(0 < i, old(pacer.numChkpts), old(pacer.ToNext()))
      {
        CopyOne(i, start, calls, loopCount);
        calls := calls + 1;
        var stop := pacer.BatchDone(calls);
        if stop {
          break;
        }
        i := i + 1;
      }
    }

    // The outer loop: passes until a checkpoint ends the run.
    method CopyPasses(pacer: Pacer, loopCount: nat, ghost start: seq<Byte>) returns (calls: nat)
      requires dst != src && dst.Length == src.Length == |start|
      requires 1 <= loopCount && loopCount * fragmentSize <= |start|
      requires pacer.Running() && pacer.batch == 1 && pacer.batches == 0
      requires CopiedAfter(start, 0, loopCount)
      modifies pacer, pacer.timer, dst
      ensures pacer.Done() && calls == pacer.batches && CopiedAfter(start, calls, loopCount)
    {
      calls := 0;
      while true
        invariant pacer.Running() && calls == pacer.batches && (calls == 0 || loopCount <= calls)
        invariant CopiedAfter(start, calls, loopCount)
        decreases pacer.horizon - pacer.numChkpts, pacer.ToNext()
      {
        var i;
        i, calls := CopyPass(pacer, loopCount, calls, start);
        if i != loopCount {
          break;
        }
      }
    }

    // Copies until the first checkpoint that finds the target duration reached. A run of at
    // least one pass leaves (active div fragment) * fragment bytes of the source in the
    // destination; a shorter one as many whole fragments as it made calls. The tail of the
    // destination, and the source, are untouched.
    method CopyFragments(clock: Clock, ghost horizon: nat) returns (numChkpts: nat)
      requires dst != src && dst.Length == src.Length == activeSize
      requires 1 <= fragmentSize <= activeSize
      requires 1 <= horizon && Elapsed(clock, horizon) >= targetDuration * NS_PER_SEC
      modifies this`finishedBytes, this`execTimeNs, dst
      ensures FirstReach(clock, targetDuration * 1_000_000_000, numChkpts)
      ensures execTimeNs == clock(numChkpts) - clock(0) >= targetDuration * 1_000_000_000
      ensures finishedBytes == (numChkpts * ChkptCalls() + 1) * fragmentSize
      ensures CopiedAfter(old(dst[..]), numChkpts * ChkptCalls() + 1, activeSize / fragmentSize)
      ensures src[..] == old(src[..])
    {
      var chkpt := ChkptCalls();
      var loopCount := activeSize / fragmentSize;
      ghost var start := dst[..];
      var pacer := new Pacer(clock, targetDuration * NS_PER_SEC, chkpt, 1, horizon);
      var calls := CopyPasses(pacer, loopCount, start);
      numChkpts := pacer.numChkpts;
      UnitBatches(chkpt, numChkpts);
      finishedBytes := calls * fragmentSize;
      execTimeNs := pacer.timer.watch.elapsed;
    }
  }

  // A batch being a single call, k checkpoints of c calls take one call more than k * c.
  lemma UnitBatches(c: nat, k: nat)
    requires 1 <= c
    ensures Batches(c, 1, k) == k * c + 1
  {
  }

  // A copying run ends exactly when the fragment fits the active size and the clock comes to
  // the target.
  lemma CopyRunEndsIff(clock: Clock, target: int, chkpt: nat, active: nat, fragment: nat)
    requires 0 < fragment
    ensures var r := Run(clock, target, chkpt, 1, active / fragment);
            (exists t: nat :: EndsAfter(r, t))
            <==> fragment <= active && exists k: nat :: 1 <= k && clock(k) - clock(0) >= target
  {
    ReachableIff(Run(clock, target, chkpt, 1, active / fragment));
    RunEndsIff(Run(clock, target, chkpt, 1, active / fragment));
    MulMono(fragment, 1, active / fragment);
  }
}
