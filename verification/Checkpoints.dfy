/**
 The bookkeeping shared by the three timed workers. A worker finishes work in batches of
 `batch` units; a checkpoint is due when more than `next` units are finished, and each
 checkpoint reads the clock and moves `next` on by `chkpt`.
 */
module Checkpoints {
  import opened Arith
  import opened Timing

  const NS_PER_SEC: nat := 1_000_000_000

  // clock(0) is the reading at the start and clock(k) the one at the k-th checkpoint.
  type Clock = nat -> int

  function Elapsed(clock: Clock, k: nat): int {
    clock(k) - clock(0)
  }

  // The k-th checkpoint is the first to find the target duration reached.
  ghost predicate FirstReach(clock: Clock, target: int, k: nat) {
    && 1 <= k && Elapsed(clock, k) >= target
    && forall j :: 1 <= j < k ==> Elapsed(clock, j) < target
  }

  lemma FirstReachIff(clock: Clock, target: int, k: nat)
    ensures FirstReach(clock, target, k)
            <==> 1 <= k && clock(k) - clock(0) >= target && forall j :: 1 <= j < k ==> clock(j) - clock(0) < target
  {
    forall j: nat
      ensures Elapsed(clock, j) == clock(j) - clock(0)
    {
    }
  }

  lemma FirstReachUnique(clock: Clock, target: int, j: nat, k: nat)
    requires FirstReach(clock, target, j) && FirstReach(clock, target, k)
    ensures j == k
  {
  }

  // Batches finished when the k-th checkpoint is taken. A checkpoint interval shorter than
  // a batch means one checkpoint a batch, not several.
  function Batches(chkpt: nat, batch: nat, k: nat): nat
    requires 0 < batch
  {
    if chkpt < batch then k
    else
      MulMono(chkpt, 0, k);
      k * chkpt / batch + 1
  }

  // m batches are finished and n checkpoints taken, none being due.
  ghost predicate Pace(chkpt: nat, batch: nat, m: nat, n: nat) {
    if chkpt < batch then m == n
    else m * batch <= (n + 1) * chkpt && (n > 0 ==> n * chkpt < m * batch)
  }

  // The distance to the next checkpoint, part of the loops' termination measure.
  ghost function Distance(chkpt: nat, batch: nat, m: nat, n: nat): int {
    if chkpt < batch then 0 else (n + 1) * chkpt - m * batch
  }

  // One more batch: it takes a checkpoint exactly when the code's test says so, and the
  // number of batches at that checkpoint is the closed form.
  lemma PaceStep(chkpt: nat, batch: nat, m: nat, n: nat)
    requires 0 < batch && Pace(chkpt, batch, m, n)
    ensures (m + 1) * batch == m * batch + batch
    ensures (n + 1 + 1) * chkpt == (n + 1) * chkpt + chkpt
    ensures if m * batch + batch > (n + 1) * chkpt
            then m + 1 == Batches(chkpt, batch, n + 1) && Pace(chkpt, batch, m + 1, n + 1)
            else Pace(chkpt, batch, m + 1, n)
                 && 0 <= Distance(chkpt, batch, m + 1, n) < Distance(chkpt, batch, m, n)
  {
    assert (m + 1) * batch == m * batch + batch;
    assert (n + 1) * chkpt == n * chkpt + chkpt;
    assert (n + 2) * chkpt == (n + 1) * chkpt + chkpt;
    if chkpt < batch {
      StrictMono(n + 1, chkpt, batch);
    } else if m * batch + batch > (n + 1) * chkpt {
      var d := (n + 1) * chkpt - m * batch;
      DivModUnique(m, d, (n + 1) * chkpt, batch);
    }
  }

  lemma StrictMono(n: nat, a: nat, b: nat)
    requires 0 < n && a < b
    ensures n * a < n * b
  {
    MulMono(n, a + 1, b);
  }

  // Between one checkpoint and the next the finished work stays within one interval, when
  // the interval is at least a batch.
  lemma PaceBounds(chkpt: nat, batch: nat, m: nat, n: nat)
    requires 0 < batch <= chkpt && Pace(chkpt, batch, m, n)
    ensures n * chkpt <= m * batch <= (n + 1) * chkpt
  {
    MulMono(batch, 0, m);
  }

  // Work finished at the k-th checkpoint, interval at least a batch: past k intervals, by
  // no more than one batch.
  lemma BatchesBounds(chkpt: nat, batch: nat, k: nat)
    requires 0 < batch <= chkpt
    ensures k * chkpt < Batches(chkpt, batch, k) * batch <= k * chkpt + batch
  {
    var q := k * chkpt / batch;
    assert k * chkpt == batch * q + k * chkpt % batch;
    assert (q + 1) * batch == batch * q + batch;
  }

  // The checkpoint block of the workers' loops: their timer, next checkpoint and count.
  class Pacer {
    const clock: Clock
    const target: int
    const chkpt: nat
    const batch: nat
    const timer: Timer
    var next: nat
    var numChkpts: nat
    ghost var batches: nat
    ghost const horizon: nat      // a reading by which the clock has advanced far enough

    // Between two batches: clock, counters and checkpoint agree, and no checkpoint so far
    // has found the target reached.
    ghost predicate Running()
      reads this, timer
    {
      && 0 < batch
      && numChkpts < horizon && Elapsed(clock, horizon) >= target
      && timer.watch.begin == clock(numChkpts) && timer.watch.elapsed == Elapsed(clock, numChkpts)
      && next == (numChkpts + 1) * chkpt
      && Pace(chkpt, batch, batches, numChkpts)
      && forall j :: 1 <= j <= numChkpts ==> Elapsed(clock, j) < target
    }

    ghost function ToNext(): int
      reads this
    {
      Distance(chkpt, batch, batches, numChkpts)
    }

    // A checkpoint has just found the target reached.
    ghost predicate Done()
      reads this, timer
    {
      && 0 < batch
      && FirstReach(clock, target, numChkpts)
      && timer.watch.elapsed == Elapsed(clock, numChkpts)
      && batches == Batches(chkpt, batch, numChkpts)
    }

    // Progress since a state with n checkpoints and t to the next one.
    ghost predicate Past(n: nat, t: int)
      reads this
    {
      n < numChkpts || (n == numChkpts && 0 <= ToNext() < t)
    }

    // Such progress if any batch has been finished since, or that same state.
    ghost predicate Moved(any: bool, n: nat, t: int)
      reads this
    {
      if any then Past(n, t) else numChkpts == n && ToNext() == t
    }

    constructor (clock: Clock, target: int, chkpt: nat, batch: nat, ghost horizon: nat)
      requires 0 < batch && 1 <= horizon && Elapsed(clock, horizon) >= target
      ensures this.clock == clock && this.target == target && this.chkpt == chkpt && this.batch == batch
      ensures this.horizon == horizon
      ensures fresh(timer) && Running() && batches == 0
    {
      this.clock, this.target, this.chkpt, this.batch, this.horizon := clock, target, chkpt, batch, horizon;
      timer := new Timer();
      next, numChkpts, batches := chkpt, 0, 0;
      new;
      timer.StartTimer(clock(0));
    }

    // Called after each batch with the work finished so far; `stop` ends the run.
    method BatchDone(finished: nat) returns (stop: bool)
      requires Running() && finished == batches * batch + batch
      modifies this, timer
      ensures batches == old(batches) + 1 && batches * batch == finished
      ensures if stop then Done() else Running() && Past(old(numChkpts), old(ToNext()))
    {
      PaceStep(chkpt, batch, batches, numChkpts);
      batches := batches + 1;
      if finished > next {
        timer.EndTimer(clock(numChkpts + 1));
        next := next + chkpt;
        numChkpts := numChkpts + 1;
        if timer.watch.elapsed >= target {
          return true;
        }
        timer.ResumeTimer();
      }
      return false;
    }
  }
}
