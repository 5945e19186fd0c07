/**
 The macro language of the bandwidth kernels. A macro expands to a list of statements:
 RD32 adds the word at p to ret, WR32 stores ret at p, both then move p on by four words
 (32 bytes), and a nop does nothing. Memory is a sequence of 64-bit words, p a word index.
 */
module KernelLanguage {
  import opened Arith

  datatype Op = Read | Write | Nop

  type Program = seq<Op>

  // A value of a 64-bit register.
  function Word64(x: nat): (w: nat)
    ensures w < 0x1_0000_0000_0000_0000
  {
    x % 0x1_0000_0000_0000_0000
  }

  const RD32: Program := [Read]
  const WR32: Program := [Write]

  function LP1(x: Program): Program { x }
  function LP2(x: Program): Program { x + x }
  function LP3(x: Program): Program { x + x + x }
  function LP4(x: Program): Program { LP2(x) + LP2(x) }
  function LP5(x: Program): Program { LP3(x) + LP2(x) }
  function LP6(x: Program): Program { LP4(x) + LP2(x) }
  function LP8(x: Program): Program { LP4(x) + LP4(x) }
  function LP16(x: Program): Program { LP8(x) + LP8(x) }
  function LP32(x: Program): Program { LP16(x) + LP16(x) }
  function LP42(x: Program): Program { LP32(x) + LP8(x) + LP2(x) }
  function LP64(x: Program): Program { LP32(x) + LP32(x) }
  function LP128(x: Program): Program { LP64(x) + LP64(x) }
  function LP256(x: Program): Program { LP128(x) + LP128(x) }

  function Repeat(n: nat, x: Program): Program {
    if n == 0 then [] else Repeat(n - 1, x) + x
  }

  lemma {:induction false} RepeatLength(n: nat, x: Program)
    ensures |Repeat(n, x)| == n * |x|
  {
    if n > 0 {
      RepeatLength(n - 1, x);
      NextMultiple(n - 1, |x|);
    }
  }

  lemma {:induction false} RepeatAdd(a: nat, b: nat, x: Program)
    ensures Repeat(a + b, x) == Repeat(a, x) + Repeat(b, x)
  {
    if b > 0 {
      RepeatAdd(a, b - 1, x);
    }
  }

  // Each LPn macro repeats its argument exactly n times.
  lemma MacrosRepeat(x: Program)
    ensures LP1(x) == Repeat(1, x) && LP2(x) == Repeat(2, x) && LP3(x) == Repeat(3, x)
    ensures LP4(x) == Repeat(4, x) && LP5(x) == Repeat(5, x) && LP6(x) == Repeat(6, x)
    ensures LP8(x) == Repeat(8, x) && LP16(x) == Repeat(16, x) && LP32(x) == Repeat(32, x)
    ensures LP42(x) == Repeat(42, x) && LP64(x) == Repeat(64, x)
    ensures LP128(x) == Repeat(128, x) && LP256(x) == Repeat(256, x)
  {
    assert Repeat(1, x) == x;
    RepeatAdd(1, 1, x);
    RepeatAdd(2, 1, x);
    RepeatAdd(2, 2, x);
    RepeatAdd(3, 2, x);
    RepeatAdd(4, 2, x);
    RepeatAdd(4, 4, x);
    RepeatAdd(8, 8, x);
    RepeatAdd(16, 16, x);
    RepeatAdd(32, 8, x);
    RepeatAdd(40, 2, x);
    RepeatAdd(32, 32, x);
    RepeatAdd(64, 64, x);
    RepeatAdd(128, 128, x);
  }

  // The machine: memory, accumulator and pointer, or a fault once p has left the memory.
  datatype State = Running(mem: seq<nat>, ret: nat, p: nat) | Fault

  function Step(op: Op, s: State): State {
    match s
    case Fault => Fault
    case Running(mem, ret, p) =>
      if op == Nop then s
      else if p >= |mem| then Fault
      else if op == Read then Running(mem, Word64(ret + mem[p]), p + 4)
      else Running(mem[p := ret], ret, p + 4)
  }

  function Exec(prog: Program, s: State): State {
    if prog == [] then s else Step(prog[|prog| - 1], Exec(prog[..|prog| - 1], s))
  }

  lemma {:induction false} ExecAppend(a: Program, b: Program, s: State)
    ensures Exec(a + b, s) == Exec(b, Exec(a, s))
  {
    if b == [] {
      assert a + b == a;
    } else {
      ExecAppend(a, b[..|b| - 1], s);
      assert (a + b)[..|a + b| - 1] == a + b[..|b| - 1];
    }
  }

  function Erase(prog: Program): Program {
    if prog == [] then []
    else
      var last := prog[|prog| - 1];
      Erase(prog[..|prog| - 1]) + if last == Nop then [] else [last]
  }

  // Erasing the nops changes nothing about what a program does, from any state.
  lemma {:induction false} EraseSameMeaning(prog: Program, s: State)
    ensures Exec(Erase(prog), s) == Exec(prog, s)
  {
    if prog != [] {
      var front, last := prog[..|prog| - 1], prog[|prog| - 1];
      EraseSameMeaning(front, s);
      if last != Nop {
        ExecAppend(Erase(front), [last], s);
        assert Exec([last], Exec(front, s)) == Step(last, Exec([], Exec(front, s)));
      } else {
        assert Erase(prog) == Erase(front);
      }
    }
  }

  lemma {:induction false} EraseAppend(a: Program, b: Program)
    ensures Erase(a + b) == Erase(a) + Erase(b)
  {
    if b == [] {
      assert a + b == a;
    } else {
      EraseAppend(a, b[..|b| - 1]);
      assert (a + b)[..|a + b| - 1] == a + b[..|b| - 1];
    }
  }

  lemma {:induction false} EraseRepeat(n: nat, x: Program)
    ensures Erase(Repeat(n, x)) == Repeat(n, Erase(x))
  {
    if n > 0 {
      EraseRepeat(n - 1, x);
      EraseAppend(Repeat(n - 1, x), x);
    }
  }

  predicate AllNops(prog: Program) {
    forall k :: 0 <= k < |prog| ==> prog[k] == Nop
  }

  predicate NoNops(prog: Program) {
    forall k :: 0 <= k < |prog| ==> prog[k] != Nop
  }

  lemma {:induction false} EraseNops(prog: Program)
    requires AllNops(prog)
    ensures Erase(prog) == []
  {
    if prog != [] {
      EraseNops(prog[..|prog| - 1]);
    }
  }

  lemma {:induction false} EraseNothing(prog: Program)
    requires NoNops(prog)
    ensures Erase(prog) == prog
  {
    if prog != [] {
      EraseNothing(prog[..|prog| - 1]);
    }
  }

  // The last of the program's slots, 4 words each, starts inside the memory.
  predicate Fits(prog: Program, mem: seq<nat>, p: nat) {
    prog == [] || p + 4 * (|prog| - 1) < |mem|
  }

  // Sum of the words in the read slots of a program that starts at word p.
  function ReadSum(prog: Program, mem: seq<nat>, p: nat): nat
    requires Fits(prog, mem, p)
  {
    if prog == [] then 0
    else
      var n := |prog| - 1;
      ReadSum(prog[..n], mem, p) + if prog[n] == Read then mem[p + 4 * n] else 0
  }

  // Word w is the word of a write slot.
  ghost predicate IsWriteSlot(prog: Program, p: nat, w: nat) {
    exists t :: 0 <= t < |prog| && prog[t] == Write && w == p + 4 * t
  }

  // Slot t, if it is a write slot, holds what was in ret when it was written.
  ghost predicate SlotWritten(prog: Program, mem: seq<nat>, ret: nat, p: nat, after: seq<nat>, t: nat)
    requires Fits(prog, mem, p) && |after| == |mem| && t < |prog|
  {
    prog[t] == Write ==> after[p + 4 * t] == Word64(ret + ReadSum(prog[..t], mem, p))
  }

  // The memory effect of a nop-free program: p sweeps its slots, ret collects the initial
  // words of the read slots, each write slot gets the entry value of ret plus the initial
  // words of the read slots before it, and no other word changes.
  ghost predicate Sweeps(prog: Program, mem: seq<nat>, ret: nat, p: nat, after: State)
    requires Fits(prog, mem, p)
  {
    && after.Running? && |after.mem| == |mem|
    && after.p == p + 4 * |prog|
    && after.ret == Word64(ret + ReadSum(prog, mem, p))
    && (forall t: nat :: t < |prog| ==> SlotWritten(prog, mem, ret, p, after.mem, t))
    && (forall w: nat {:trigger IsWriteSlot(prog, p, w)} ::
          w < |mem| && !IsWriteSlot(prog, p, w) ==> after.mem[w] == mem[w])
  }

  lemma {:induction false} ExecSweeps(prog: Program, mem: seq<nat>, ret: nat, p: nat)
    requires NoNops(prog) && ret == Word64(ret) && Fits(prog, mem, p)
    ensures Sweeps(prog, mem, ret, p, Exec(prog, Running(mem, ret, p)))
  {
    if prog != [] {
      ExecSweeps(prog[..|prog| - 1], mem, ret, p);
      SweepsStep(prog, mem, ret, p, Exec(prog[..|prog| - 1], Running(mem, ret, p)));
    }
  }

  lemma SweepsStep(prog: Program, mem: seq<nat>, ret: nat, p: nat, before: State)
    requires NoNops(prog) && prog != [] && Fits(prog, mem, p)
    requires Sweeps(prog[..|prog| - 1], mem, ret, p, before)
    ensures Sweeps(prog, mem, ret, p, Step(prog[|prog| - 1], before))
  {
    var n := |prog| - 1;
    var front, after, at := prog[..n], Step(prog[n], before), p + 4 * n;
    assert !IsWriteSlot(front, p, at);
    assert before.mem[at] == mem[at];
    AddMod(ret + ReadSum(front, mem, p), mem[at]);
    forall t: nat | t < |prog|
      ensures SlotWritten(prog, mem, ret, p, after.mem, t)
    {
      if t < n {
        assert front[..t] == prog[..t];
        assert SlotWritten(front, mem, ret, p, before.mem, t);
      }
    }
    forall w: nat | IsWriteSlot(front, p, w)
      ensures IsWriteSlot(prog, p, w)
    {
      var t :| 0 <= t < n && front[t] == Write && w == p + 4 * t;
      assert prog[t] == Write;
    }
  }

  lemma AddMod(a: nat, b: nat)
    ensures Word64(Word64(a) + b) == Word64(a + b)
  {
  }

  lemma ExecEnds(prog: Program, mem: seq<nat>, ret: nat, p: nat)
    requires NoNops(prog) && ret == Word64(ret) && Fits(prog, mem, p)
    ensures var after := Exec(prog, Running(mem, ret, p));
            && after.Running? && after.p == p + 4 * |prog| && |after.mem| == |mem|
            && after.ret == Word64(after.ret)
  {
    ExecSweeps(prog, mem, ret, p);
  }

  // A nop-free program runs without a fault exactly when its last slot is in the memory.
  lemma {:induction false} FaultIff(prog: Program, mem: seq<nat>, ret: nat, p: nat)
    requires NoNops(prog) && ret == Word64(ret)
    ensures Exec(prog, Running(mem, ret, p)).Running? <==> Fits(prog, mem, p)
  {
    if prog != [] {
      var front := prog[..|prog| - 1];
      if Fits(prog, mem, p) {
        ExecSweeps(prog, mem, ret, p);
      } else if Fits(front, mem, p) {
        ExecSweeps(front, mem, ret, p);
      } else {
        FaultIff(front, mem, ret, p);
      }
    }
  }

  // The 64-byte line (8 words) that slot t of a program started at word p lies in.
  function Line(p: nat, t: nat): nat {
    (p + 4 * t) / 8
  }

  // The 64-byte lines in which a program starting at word p has a slot of the given kind.
  function Lines(prog: Program, p: nat, kind: Op): set<nat> {
    set t: nat | t < |prog| && prog[t] == kind :: Line(p, t)
  }

  // Their number, counted slot pair by slot pair.
  function LineCount(prog: Program, kind: Op): nat
    requires |prog| % 2 == 0
  {
    if prog == [] then 0
    else
      var n := |prog| - 2;
      LineCount(prog[..n], kind) + if prog[n] == kind || prog[n + 1] == kind then 1 else 0
  }

  lemma LastLine(prog: Program, p: nat, kind: Op)
    requires |prog| % 2 == 0 && p % 8 == 0 && prog != []
    ensures var n := |prog| - 2;
            && Line(p, n) == Line(p, n + 1) == p / 8 + n / 2
            && Lines(prog, p, kind) == Lines(prog[..n], p, kind)
                 + if prog[n] == kind || prog[n + 1] == kind then {p / 8 + n / 2} else {}
  {
    var n := |prog| - 2;
    var front, line := prog[..n], p / 8 + n / 2;
    assert Line(p, n) == line && Line(p, n + 1) == line;
    forall l | l in Lines(prog, p, kind)
      ensures l in Lines(front, p, kind) || (l == line && (prog[n] == kind || prog[n + 1] == kind))
    {
      var t: nat :| t < |prog| && prog[t] == kind && Line(p, t) == l;
      if t < n {
        assert front[t] == kind;
      }
    }
    forall l | l in Lines(front, p, kind)
      ensures l in Lines(prog, p, kind)
    {
      var t: nat :| t < n && front[t] == kind && Line(p, t) == l;
      assert prog[t] == kind;
    }
  }

  // From a line-aligned start the pair count is the number of distinct lines.
  lemma {:induction false} LineCountCounts(prog: Program, p: nat, kind: Op)
    requires |prog| % 2 == 0 && p % 8 == 0
    ensures |Lines(prog, p, kind)| == LineCount(prog, kind)
    ensures forall l :: l in Lines(prog, p, kind) ==> l < p / 8 + |prog| / 2
  {
    if prog != [] {
      LineCountCounts(prog[..|prog| - 2], p, kind);
      LastLine(prog, p, kind);
    }
  }

  lemma {:induction false} LineCountAppend(a: Program, b: Program, kind: Op)
    requires |a| % 2 == 0 && |b| % 2 == 0
    ensures LineCount(a + b, kind) == LineCount(a, kind) + LineCount(b, kind)
  {
    if b == [] {
      assert a + b == a;
    } else {
      var n := |b| - 2;
      LineCountAppend(a, b[..n], kind);
      assert (a + b)[..|a + b| - 2] == a + b[..n];
    }
  }

  lemma {:induction false} EvenRepeat(n: nat, x: Program)
    requires |x| % 2 == 0
    ensures |Repeat(n, x)| % 2 == 0
  {
    if n > 0 {
      EvenRepeat(n - 1, x);
    }
  }

  lemma {:induction false} LineCountRepeat(n: nat, x: Program, kind: Op)
    requires |x| % 2 == 0
    ensures |Repeat(n, x)| % 2 == 0
    ensures LineCount(Repeat(n, x), kind) == n * LineCount(x, kind)
  {
    EvenRepeat(n, x);
    if n > 0 {
      LineCountRepeat(n - 1, x, kind);
      LineCountAppend(Repeat(n - 1, x), x, kind);
      NextMultiple(n - 1, LineCount(x, kind));
    }
  }
}
