/**
 The branch-chain kernel as a small machine: its code for any number of forward branches
 and any padding between them, and the number of branches it takes.
 */
module BranchChain {
  import opened Arith
  import opened Timing

  // Test sets the zero flag from the counter (x86-64 conditional chains only). A forward
  // branch jumps over the padding that follows it; a conditional one looks at the flag on
  // x86-64 and at the counter itself on AArch64. Dec decrements the counter and sets the
  // flag; Back jumps to the loop start while the counter is not zero.
  datatype Instr = Test | Forward(target: nat) | Pad | Dec | Back

  datatype Isa = X86 | Arm

  datatype Machine = At(pc: nat, rounds: nat, zero: bool, taken: nat) | Halted(taken: nat) | Trap

  // A step. Executing padding, leaving the code and wrapping the counter trap.
  function Step(isa: Isa, conditional: bool, code: seq<Instr>, s: Machine): Machine {
    if !s.At? then s
    else if s.pc >= |code| then Trap
    else
      match code[s.pc]
      case Test => s.(pc := s.pc + 1, zero := s.rounds == 0)
      case Forward(target) =>
        if !conditional || (if isa.X86? then !s.zero else s.rounds != 0)
        then s.(pc := target, taken := s.taken + 1)
        else s.(pc := s.pc + 1)
      case Pad => Trap
      case Dec => if s.rounds == 0 then Trap else s.(pc := s.pc + 1, rounds := s.rounds - 1, zero := s.rounds == 1)
      case Back =>
        if (if isa.X86? then !s.zero else s.rounds != 0) then s.(pc := 0, taken := s.taken + 1)
        else Halted(s.taken)
  }

  function Steps(isa: Isa, conditional: bool, code: seq<Instr>, s: Machine, n: nat): Machine {
    if n == 0 then s else Step(isa, conditional, code, Steps(isa, conditional, code, s, n - 1))
  }

  lemma {:induction false} StepsAdd(isa: Isa, conditional: bool, code: seq<Instr>, s: Machine, m: nat, n: nat)
    ensures Steps(isa, conditional, code, s, m + n)
            == Steps(isa, conditional, code, Steps(isa, conditional, code, s, m), n)
  {
    if n > 0 {
      StepsAdd(isa, conditional, code, s, m, n - 1);
      assert m + n - 1 == m + (n - 1);
    }
  }

  function Pads(n: nat): seq<Instr> {
    seq(n, _ => Pad)
  }

  // Size of the chain: each branch and the padding after it.
  function Size(pads: seq<nat>): nat {
    if pads == [] then 0 else Size(pads[..|pads| - 1]) + 1 + pads[|pads| - 1]
  }

  function Chain(start: nat, pads: seq<nat>): (code: seq<Instr>)
    ensures |code| == Size(pads)
  {
    if pads == [] then []
    else
      Chain(start, pads[..|pads| - 1]) + [Forward(start + Size(pads))] + Pads(pads[|pads| - 1])
  }

  // Where the chain starts: after the test, if there is one.
  function Start(isa: Isa, conditional: bool): nat {
    if isa.X86? && conditional then 1 else 0
  }

  // The loop: the test, one forward branch for each padding length, the loop branch.
  function Code(isa: Isa, conditional: bool, pads: seq<nat>): seq<Instr> {
    var start := Start(isa, conditional);
    (if start == 1 then [Test] else []) + Chain(start, pads) + [Dec, Back]
  }

  // The code begins with a test exactly for the conditional chains of x86-64, and holds
  // nothing but that, the chain, the decrement and the loop branch.
  lemma CodeShape(isa: Isa, conditional: bool, pads: seq<nat>)
    ensures var code := Code(isa, conditional, pads);
            && (code[0] == Test <==> isa.X86? && conditional)
            && |code| == Size(pads) + (if isa.X86? && conditional then 3 else 2)
            && code[|code| - 2..] == [Dec, Back]
  {
    if pads != [] {
      assert pads[..0] == [];
      ChainAt(Start(isa, conditional), pads, 0);
    }
  }

  // The k-th forward branch stands after the first k pieces and jumps to after k + 1.
  lemma {:induction false} ChainAt(start: nat, pads: seq<nat>, k: nat)
    requires k < |pads|
    ensures Size(pads[..k]) < Size(pads)
    ensures Chain(start, pads)[Size(pads[..k])] == Forward(start + Size(pads[..k + 1]))
  {
    var n := |pads| - 1;
    if k < n {
      ChainAt(start, pads[..n], k);
      assert pads[..n][..k] == pads[..k] && pads[..n][..k + 1] == pads[..k + 1];
    } else {
      assert pads[..n + 1] == pads;
    }
  }

  // The forward branches of one trip are all taken, and only they are executed.
  lemma {:induction false} TripBranches(isa: Isa, conditional: bool, pads: seq<nat>, rounds: nat,
        zero: bool, taken: nat, k: nat)
    requires 0 < rounds && k <= |pads| && (isa.X86? && conditional ==> !zero)
    ensures var start := Start(isa, conditional);
            Steps(isa, conditional, Code(isa, conditional, pads), At(start, rounds, zero, taken), k)
            == At(start + Size(pads[..k]), rounds, zero, taken + k)
  {
    var start, code := Start(isa, conditional), Code(isa, conditional, pads);
    if k > 0 {
      TripBranches(isa, conditional, pads, rounds, zero, taken, k - 1);
      ChainAt(start, pads, k - 1);
      assert code[start + Size(pads[..k - 1])] == Chain(start, pads)[Size(pads[..k - 1])];
    }
  }

  // One trip round the loop: the test, N taken branches, the decrement, the loop branch.
  lemma Trip(isa: Isa, conditional: bool, pads: seq<nat>, rounds: nat, zero: bool, taken: nat)
    requires 0 < rounds
    ensures var n := Start(isa, conditional) + |pads| + 2;
            var after := Steps(isa, conditional, Code(isa, conditional, pads), At(0, rounds, zero, taken), n);
            if rounds == 1 then after == Halted(taken + |pads|)
            else after == At(0, rounds - 1, false, taken + |pads| + 1)
  {
    var start, code := Start(isa, conditional), Code(isa, conditional, pads);
    var s0 := At(0, rounds, zero, taken);
    var s1 := At(start, rounds, if start == 1 then false else zero, taken);
    assert Steps(isa, conditional, code, s0, start) == s1 by {
      assert start == 1 ==> Steps(isa, conditional, code, s0, 0) == s0;
    }
    StepsAdd(isa, conditional, code, s0, start, |pads|);
    TripBranches(isa, conditional, pads, rounds, s1.zero, taken, |pads|);
    assert pads[..|pads|] == pads;
    var end := start + Size(pads);
    var s2 := At(end, rounds, s1.zero, taken + |pads|);
    assert Steps(isa, conditional, code, s0, start + |pads|) == s2;
    assert code[end] == Dec && code[end + 1] == Back;
    var s3 := At(end + 1, rounds - 1, rounds == 1, taken + |pads|);
    assert Steps(isa, conditional, code, s0, start + |pads| + 1) == s3;
    assert Steps(isa, conditional, code, s0, start + |pads| + 2) == Step(isa, conditional, code, s3);
  }

  // Number of branches a run takes: N forward and one loop branch a trip, but for the final
  // loop branch.
  function Taken(branches: nat, rounds: nat): nat {
    if rounds == 0 then 0
    else
      MulMono(branches + 1, 1, rounds);
      rounds * (branches + 1) - 1
  }

  // The machine halts after a known number of steps with exactly that count, for any chain,
  // padding and number of rounds; it never executes padding.
  lemma {:induction false} RunTakes(isa: Isa, conditional: bool, pads: seq<nat>, rounds: nat, zero: bool, taken: nat)
    requires 0 < rounds
    ensures Steps(isa, conditional, Code(isa, conditional, pads), At(0, rounds, zero, taken),
                  rounds * (Start(isa, conditional) + |pads| + 2))
            == Halted(taken + Taken(|pads|, rounds))
  {
    var n, code := Start(isa, conditional) + |pads| + 2, Code(isa, conditional, pads);
    Trip(isa, conditional, pads, rounds, zero, taken);
    if rounds > 1 {
      RunTakes(isa, conditional, pads, rounds - 1, false, taken + |pads| + 1);
      StepsAdd(isa, conditional, code, At(0, rounds, zero, taken), n, (rounds - 1) * n);
      NextMultiple(rounds - 1, n);
      NextMultiple(rounds - 1, |pads| + 1);
    } else {
      assert 1 * n == n;
    }
  }

  lemma {:induction false} Stays(isa: Isa, conditional: bool, code: seq<Instr>, s: Machine, n: nat)
    requires !s.At?
    ensures Steps(isa, conditional, code, s, n) == s
  {
    if n > 0 {
      Stays(isa, conditional, code, s, n - 1);
    }
  }

  // branch_chain: executes the code instruction by instruction, whatever the flag holds when
  // it is entered.
  method RunChain(isa: Isa, conditional: bool, pads: seq<nat>, rounds: nat, zero: bool) returns (end: Machine)
    ensures end == Halted(Taken(|pads|, rounds))
    ensures 0 < rounds ==> end.taken == rounds * |pads| + rounds - 1
  {
    if rounds == 0 {
      return Halted(0);
    }
    var code, start := Code(isa, conditional, pads), At(0, rounds, zero, 0);
    ghost var total := rounds * (Start(isa, conditional) + |pads| + 2);
    RunTakes(isa, conditional, pads, rounds, zero, 0);
    end := start;
    ghost var t := 0;
    while end.At?
      invariant 0 <= t <= total && end == Steps(isa, conditional, code, start, t)
      decreases total - t
    {
      end := Step(isa, conditional, code, end);
      t := t + 1;
    }
    StepsAdd(isa, conditional, code, start, t, total - t);
    Stays(isa, conditional, code, end, total - t);
  }

  // taken_branches(branches, rounds) as computed: branches + 1 in 32 bits, the rest in 64.
  function TakenBranches(branches: nat, rounds: nat): nat {
    if rounds == 0 then 0
    else (rounds * ((branches + 1) % 0x1_0000_0000) - 1) % 0x1_0000_0000_0000_0000
  }

  // It is the true count exactly when that fits 64 bits and branches + 1 fits 32 (or the
  // count is the largest 64-bit number, which is what the overflow then happens to give).
  lemma TakenBranchesIff(branches: nat, rounds: nat)
    requires branches < 0x1_0000_0000
    ensures TakenBranches(branches, rounds) == Taken(branches, rounds)
            <==> Taken(branches, rounds) < 0x1_0000_0000_0000_0000
                 && (rounds == 0 || branches < 0xFFFF_FFFF || Taken(branches, rounds) == 0xFFFF_FFFF_FFFF_FFFF)
  {
    if rounds > 0 {
      MulMono(branches + 1, 1, rounds);
      if branches < 0xFFFF_FFFF {
        assert (branches + 1) % 0x1_0000_0000 == branches + 1;
      } else {
        assert (branches + 1) % 0x1_0000_0000 == 0;
        assert rounds * 0 - 1 == -1;
      }
    }
  }

  datatype BranchCase = BranchCase(branches: nat, conditional: bool)

  // The twelve cases, but for the spacing of the branches, which is the padding a chain gets.
  const CASES: seq<BranchCase> := [
    BranchCase(8, false), BranchCase(32, false), BranchCase(128, false),
    BranchCase(8, false), BranchCase(32, false), BranchCase(128, false),
    BranchCase(8, true), BranchCase(32, true), BranchCase(128, true),
    BranchCase(8, true), BranchCase(32, true), BranchCase(128, true)
  ]

  const BATCH_ROUNDS: nat := 65536

  // The sample duration, in seconds, has passed at the k-th reading of the clock.
  predicate Reached(clock: nat -> int, k: nat, duration: real) {
    (clock(k) - clock(0)) as real / 1e9 >= duration
  }

  lemma ReachedIff(clock: nat -> int, k: nat, duration: real)
    ensures Reached(clock, k, duration) <==> (clock(k) - clock(0)) as real >= duration * 1_000_000_000.0
  {
  }

  class BranchPacket {
    var caseIndex: nat
    var sampleDuration: real      // seconds
    var finishedBranches: nat
    var execTimeNs: int

    constructor (caseIndex: nat, sampleDuration: real)
      ensures this.caseIndex == caseIndex && this.sampleDuration == sampleDuration
      ensures finishedBranches == execTimeNs == 0
    {
      this.caseIndex, this.sampleDuration, finishedBranches, execTimeNs := caseIndex, sampleDuration, 0, 0;
    }

    // Runs batches until the first end of a batch by which the sample duration has passed:
    // the branches reported are those that exactly these batches have taken, over exactly
    // the time they span. The batch that warms up is not among them.
    method BranchTp(isa: Isa, pads: seq<nat>, zero: bool, clock: nat -> int, ghost horizon: nat)
      returns (batches: nat, ghost executed: nat)
      requires caseIndex < |CASES| && |pads| == CASES[caseIndex].branches
      requires 1 <= horizon && Reached(clock, horizon, sampleDuration)
      modifies this`finishedBranches, this`execTimeNs
      ensures 1 <= batches && execTimeNs == clock(batches) - clock(0)
      ensures Reached(clock, batches, sampleDuration)
      ensures forall k :: 1 <= k < batches ==> !Reached(clock, k, sampleDuration)
      ensures finishedBranches == executed == batches * (65536 * |pads| + 65535)
      ensures |pads| == if caseIndex % 3 == 0 then 8 else if caseIndex % 3 == 1 then 32 else 128
    {
      var kernel := CASES[caseIndex];
      var batchBranches := TakenBranches(kernel.branches, BATCH_ROUNDS);
      BatchFits(caseIndex);
      var end := RunChain(isa, kernel.conditional, pads, BATCH_ROUNDS, zero);
      var timer := new Timer();
      finishedBranches, batches, executed := 0, 0, 0;
      timer.StartTimer(clock(0));
      while true
        invariant batches < horizon && timer.watch.begin == clock(batches)
        invariant timer.watch.elapsed == clock(batches) - clock(0)
        invariant forall k :: 1 <= k <= batches ==> !Reached(clock, k, sampleDuration)
        invariant finishedBranches == executed == batches * batchBranches
        decreases horizon - batches
      {
        end := RunChain(isa, kernel.conditional, pads, BATCH_ROUNDS, zero);
        executed := executed + end.taken;
        finishedBranches := finishedBranches + batchBranches;
        NextMultiple(batches, batchBranches);
        batches := batches + 1;
        timer.EndTimer(clock(batches));
        if timer.watch.elapsed as real / 1e9 >= sampleDuration {
          break;
        }
        timer.ResumeTimer();
      }
      execTimeNs := timer.watch.elapsed;
    }
  }

  lemma BatchFits(k: nat)
    requires k < |CASES|
    ensures CASES[k].branches == (if k % 3 == 0 then 8 else if k % 3 == 1 then 32 else 128)
    ensures CASES[k].conditional <==> 6 <= k
    ensures TakenBranches(CASES[k].branches, BATCH_ROUNDS) == Taken(CASES[k].branches, BATCH_ROUNDS)
  {
    TakenBranchesIff(CASES[k].branches, BATCH_ROUNDS);
  }
}
