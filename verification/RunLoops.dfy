/**
 The nested loops of a timed worker as a machine, and exactly when a run ends. The workers'
 methods are proved under that condition; here the machine takes its steps without it.
 */
module RunLoops {
  import opened Arith
  import opened Checkpoints

  // What a run is given: its clock and target, and the sizes of its loops.
  datatype Run = Run(clock: Clock, target: int, chkpt: nat, batch: nat, loopCount: nat)

  // The index of the inner loop, the batches finished and the checkpoints taken.
  datatype LoopState = LoopState(i: nat, batches: nat, chkpts: nat, over: bool)

  const START: LoopState := LoopState(0, 0, 0, false)

  // A step is a batch with the test after it or, with the inner loop run out, the start of
  // the next pass.
  function Step(r: Run, s: LoopState): LoopState {
    if s.over then s
    else if s.i == r.loopCount then s.(i := 0)
    else
      var m := s.batches + 1;
      if m * r.batch <= (s.chkpts + 1) * r.chkpt then LoopState(s.i + 1, m, s.chkpts, false)
      else if Elapsed(r.clock, s.chkpts + 1) >= r.target then LoopState(s.i, m, s.chkpts + 1, true)
      else LoopState(s.i + 1, m, s.chkpts + 1, false)
  }

  function Steps(r: Run, s: LoopState, t: nat): LoopState
    decreases t
  {
    if t == 0 then s else Steps(r, Step(r, s), t - 1)
  }

  ghost predicate EndsAfter(r: Run, t: nat) {
    Steps(r, START, t).over
  }

  // Some checkpoint can find the target reached.
  ghost predicate Reachable(r: Run) {
    exists k: nat :: FirstReach(r.clock, r.target, k)
  }

  // Which is so exactly when the clock at some checkpoint stands at least the target after
  // its start.
  lemma ReachableIff(r: Run)
    ensures Reachable(r) <==> exists k: nat :: 1 <= k && r.clock(k) - r.clock(0) >= r.target
  {
    if k: nat :| 1 <= k && r.clock(k) - r.clock(0) >= r.target {
      var first := FirstUpTo(r, k);
      assert FirstReach(r.clock, r.target, first);
    }
    if k: nat :| FirstReach(r.clock, r.target, k) {
      FirstReachIff(r.clock, r.target, k);
    }
  }

  lemma FirstUpTo(r: Run, k: nat) returns (first: nat)
    requires 1 <= k && r.clock(k) - r.clock(0) >= r.target
    ensures FirstReach(r.clock, r.target, first)
  {
    first := k;
    while !FirstReach(r.clock, r.target, first)
      invariant 1 <= first && Elapsed(r.clock, first) >= r.target
      decreases first
    {
      var j :| 1 <= j < first && Elapsed(r.clock, j) >= r.target;
      first := j;
    }
  }

  ghost predicate Inv(r: Run, s: LoopState) {
    && s.i <= r.loopCount
    && if s.over then
         && FirstReach(r.clock, r.target, s.chkpts)
         && 0 < r.batch && s.batches == Batches(r.chkpt, r.batch, s.chkpts)
       else
         && Pace(r.chkpt, r.batch, s.batches, s.chkpts)
         && forall j :: 1 <= j <= s.chkpts ==> Elapsed(r.clock, j) < r.target
  }

  lemma StepKeeps(r: Run, s: LoopState)
    requires 0 < r.batch && Inv(r, s)
    ensures Inv(r, Step(r, s))
  {
    if !s.over && s.i < r.loopCount {
      PaceStep(r.chkpt, r.batch, s.batches, s.chkpts);
    }
  }

  lemma {:induction false} StepsKeep(r: Run, s: LoopState, t: nat)
    requires 0 < r.batch && Inv(r, s)
    ensures Inv(r, Steps(r, s, t))
    decreases t
  {
    if t > 0 {
      StepKeeps(r, s);
      StepsKeep(r, Step(r, s), t - 1);
    }
  }

  // Without a batch a pass the loops turn for ever without finishing anything.
  lemma {:induction false} EmptyPasses(r: Run, t: nat)
    requires r.loopCount == 0
    ensures Steps(r, START, t) == START
    decreases t
  {
    if t > 0 {
      EmptyPasses(r, t - 1);
    }
  }

  // With one, the checkpoint numbered k comes, and it or an earlier one ends the run.
  lemma {:induction false} ComesTo(r: Run, s: LoopState, k: nat) returns (t: nat)
    requires 0 < r.batch && 0 < r.loopCount && Inv(r, s) && FirstReach(r.clock, r.target, k)
    ensures Steps(r, s, t).over
    decreases !s.over, k - s.chkpts, Distance(r.chkpt, r.batch, s.batches, s.chkpts), s.i == r.loopCount
  {
    if s.over {
      t := 0;
    } else {
      if s.i < r.loopCount {
        PaceStep(r.chkpt, r.batch, s.batches, s.chkpts);
      }
      StepKeeps(r, s);
      t := ComesTo(r, Step(r, s), k);
      t := t + 1;
    }
  }

  // A run ends exactly when a pass has at least one batch and some checkpoint can find the
  // target reached.
  lemma RunEndsIff(r: Run)
    requires 0 < r.batch
    ensures (exists t: nat :: EndsAfter(r, t)) <==> 0 < r.loopCount && Reachable(r)
  {
    if r.loopCount == 0 {
      forall t: nat
        ensures !EndsAfter(r, t)
      {
        EmptyPasses(r, t);
      }
    } else if Reachable(r) {
      var k: nat :| FirstReach(r.clock, r.target, k);
      var t := ComesTo(r, START, k);
      assert EndsAfter(r, t);
    } else {
      forall t: nat
        ensures !EndsAfter(r, t)
      {
        StepsKeep(r, START, t);
      }
    }
  }

  // And it ends at the first checkpoint that does, with the batches of the closed form.
  lemma RunEndsAt(r: Run, t: nat)
    requires 0 < r.batch && EndsAfter(r, t)
    ensures var s := Steps(r, START, t);
            FirstReach(r.clock, r.target, s.chkpts) && s.batches == Batches(r.chkpt, r.batch, s.chkpts)
  {
    StepsKeep(r, START, t);
  }
}
