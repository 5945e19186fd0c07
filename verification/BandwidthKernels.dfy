/**
 The bandwidth kernels written in the macro language, the delayed variants of them, and
 what a pass over a region does to memory and to how many lines.
 */
module BandwidthKernels {
  import opened Arith
  import opened KernelLanguage

  const R1W0: Program := LP256(RD32)
  const R1W1: Program := LP128(RD32 + WR32)
  const R2W1: Program := LP32(LP4(RD32) + LP2(RD32 + WR32))
  const R3W1: Program := LP42(LP5(RD32) + WR32) + (LP3(RD32) + LP1(WR32))

  // The peak-bandwidth kernel of a read/write mix; an unknown mix gets the read-only one.
  function PeakKernel(mix: nat): Program {
    if mix == 1 then R1W1 else if mix == 2 then R2W1 else if mix == 3 then R3W1 else R1W0
  }

  // The kernels run for a requested mix: that of the mix, or for 100 a sweep over all of
  // them; each comes with the mix its accounting uses.
  function KernelList(mix: nat): seq<(nat, Program)> {
    if mix == 100 then [(0, R1W0), (3, R3W1), (2, R2W1), (1, R1W1)]
    else if mix <= 3 then [(mix, PeakKernel(mix))]
    else [(0, R1W0)]
  }

  // From an aligned start, any number of calls of the kernel read all 128 lines a call and
  // write so many.
  ghost predicate WritesLines(kernel: Program, perCall: nat) {
    forall batches: nat, p: nat {:trigger Lines(Repeat(batches, kernel), p, Write)} :: p % 8 == 0 ==>
      && |Lines(Repeat(batches, kernel), p, Write)| == batches * perCall
      && |Lines(Repeat(batches, kernel), p, Read)| == batches * 128
  }

  // An entry accounted under a mix, with a kernel that writes so many lines a call.
  ghost predicate Accounts(entry: (nat, Program), mix: nat, perCall: nat) {
    entry.0 == mix && WritesLines(entry.1, perCall)
  }

  lemma PeakWrites(mix: nat)
    ensures WritesLines(PeakKernel(mix), if mix == 1 then 128 else if mix == 2 then 64 else if mix == 3 then 43 else 0)
  {
    forall batches: nat, p: nat | p % 8 == 0
      ensures |Lines(Repeat(batches, PeakKernel(mix)), p, Write)| == batches * DirtyPerBatch(mix)
      ensures |Lines(Repeat(batches, PeakKernel(mix)), p, Read)| == batches * 128
    {
      BatchLines(mix, batches, p);
    }
  }

  // What is appended: the kernel of a mix up to 3, accounted under it; all four for 100; for
  // any other mix the read-only one.
  method GetKernelsWithWrmix(list: seq<(nat, Program)>, mix: nat) returns (r: seq<(nat, Program)>)
    ensures r == list + KernelList(mix)
    ensures list <= r && var added := r[|list|..];
            if mix == 100 then
              && |added| == 4 && Accounts(added[0], 0, 0) && Accounts(added[1], 3, 43)
              && Accounts(added[2], 2, 64) && Accounts(added[3], 1, 128)
            else
              && |added| == 1
              && (mix == 0 ==> Accounts(added[0], 0, 0)) && (mix == 1 ==> Accounts(added[0], 1, 128))
              && (mix == 2 ==> Accounts(added[0], 2, 64)) && (mix == 3 ==> Accounts(added[0], 3, 43))
              && (mix > 3 ==> Accounts(added[0], 0, 0))
  {
    PeakWrites(0);
    PeakWrites(1);
    PeakWrites(2);
    PeakWrites(3);
    r := list;
    if mix == 0 {
      r := r + [(0, R1W0)];
    } else if mix == 1 {
      r := r + [(1, R1W1)];
    } else if mix == 2 {
      r := r + [(2, R2W1)];
    } else if mix == 3 {
      r := r + [(3, R3W1)];
    } else if mix == 100 {
      r := r + [(0, R1W0)];
      r := r + [(3, R3W1)];
      r := r + [(2, R2W1)];
      r := r + [(1, R1W1)];
    } else {
      r := r + [(0, R1W0)];
    }
  }

  // Whatever mix is asked for, each kernel is paired with the mix whose lines it writes.
  lemma KernelsMatchAccounting(mix: nat, k: nat, batches: nat, p: nat)
    requires k < |KernelList(mix)| && p % 8 == 0
    ensures var (accounted, kernel) := KernelList(mix)[k];
            accounted <= 3 && |Lines(Repeat(batches, kernel), p, Write)| == batches * DirtyPerBatch(accounted)
  {
    BatchLines(KernelList(mix)[k].0, batches, p);
  }

  // The same kernel with a delay after each group of accesses.
  function DelayKernel(mix: nat, delay: Program): Program {
    if mix == 1 then LP128(RD32 + WR32 + LP4(delay))
    else if mix == 2 then LP32(LP4(RD32) + LP2(RD32 + WR32) + LP3(delay))
    else if mix == 3 then
      LP42(LP5(RD32) + WR32 + LP8(delay)) + (LP3(RD32) + LP1(WR32)) + LP4(delay)
    else LP256(RD32 + delay)
  }

  // The nop macros, by their expansion.
  const MN1: Program := [Nop]
  const MN2: Program := MN1 + MN1
  const MN4: Program := MN2 + MN2
  const MN8: Program := MN4 + MN4
  const MN16: Program := MN8 + MN8
  const MN32: Program := MN16 + MN16
  const MN48: Program := MN16 + MN32
  const MN64: Program := MN32 + MN32
  const MN80: Program := MN32 + MN48
  const MN88: Program := MN32 + MN48 + MN8
  const MN96: Program := MN32 + MN64
  const MN104: Program := MN64 + MN48 + MN8
  const MN112: Program := MN64 + MN48
  const MN128: Program := MN64 + MN64
  const MN160: Program := MN64 + MN96
  const MN192: Program := MN64 + MN128
  const MN224: Program := MN64 + MN160
  const MN256: Program := MN128 + MN128
  const MN320: Program := MN128 + MN192
  const MN384: Program := MN128 + MN256
  const MN448: Program := MN256 + MN192
  const MN512: Program := MN256 + MN256
  const MN640: Program := MN256 + MN384
  const MN768: Program := MN256 + MN512
  const MN1024: Program := MN512 + MN512
  const MN1536: Program := MN512 + MN1024
  const MN2048: Program := MN1024 + MN1024

  // The macro MNn; [] where no such macro is defined.
  function NopMacro(n: nat): Program {
    if n == 1 then MN1 else if n == 2 then MN2 else if n == 4 then MN4
    else if n == 8 then MN8 else if n == 16 then MN16 else if n == 32 then MN32
    else if n == 48 then MN48 else if n == 64 then MN64 else if n == 80 then MN80
    else if n == 88 then MN88 else if n == 96 then MN96 else if n == 104 then MN104
    else if n == 112 then MN112 else if n == 128 then MN128 else if n == 160 then MN160
    else if n == 192 then MN192 else if n == 224 then MN224 else if n == 256 then MN256
    else if n == 320 then MN320 else if n == 384 then MN384 else if n == 448 then MN448
    else if n == 512 then MN512 else if n == 640 then MN640 else if n == 768 then MN768
    else if n == 1024 then MN1024 else if n == 1536 then MN1536 else if n == 2048 then MN2048
    else []
  }

  predicate IsDelay(n: nat, delay: Program) {
    AllNops(delay) && |delay| == if n == 104 then 120 else n
  }

  lemma AddDelays(m: nat, a: Program, n: nat, b: Program)
    requires IsDelay(m, a) && IsDelay(n, b) && m != 104 && n != 104 && m + n != 104
    ensures IsDelay(m + n, a + b)
  {
  }

  // Every nop macro MNn expands to n nops, but for MN104, which expands to 120.
  lemma NopCount(n: nat)
    requires NopMacro(n) != []
    ensures IsDelay(n, NopMacro(n))
  {
    assert IsDelay(1, MN1);
    AddDelays(1, MN1, 1, MN1);
    AddDelays(2, MN2, 2, MN2);
    AddDelays(4, MN4, 4, MN4);
    AddDelays(8, MN8, 8, MN8);
    AddDelays(16, MN16, 16, MN16);
    AddDelays(16, MN16, 32, MN32);
    AddDelays(32, MN32, 32, MN32);
    AddDelays(32, MN32, 48, MN48);
    AddDelays(32, MN32, 48, MN48);
    AddDelays(80, MN32 + MN48, 8, MN8);
    AddDelays(32, MN32, 64, MN64);
    assert |MN104| == |MN64 + MN48| + |MN8| && AllNops(MN104);
    AddDelays(64, MN64, 48, MN48);
    AddDelays(64, MN64, 64, MN64);
    AddDelays(64, MN64, 96, MN96);
    AddDelays(64, MN64, 128, MN128);
    AddDelays(64, MN64, 160, MN160);
    AddDelays(128, MN128, 128, MN128);
    AddDelays(128, MN128, 192, MN192);
    AddDelays(128, MN128, 256, MN256);
    AddDelays(256, MN256, 192, MN192);
    AddDelays(256, MN256, 256, MN256);
    AddDelays(256, MN256, 384, MN384);
    AddDelays(256, MN256, 512, MN512);
    AddDelays(512, MN512, 512, MN512);
    AddDelays(512, MN512, 1024, MN1024);
    AddDelays(1024, MN1024, 1024, MN1024);
  }

  lemma PeakForms()
    ensures R1W0 == Repeat(256, RD32)
    ensures R1W1 == Repeat(128, RD32 + WR32)
    ensures R2W1 == Repeat(32, LP4(RD32) + LP2(RD32 + WR32))
    ensures R3W1 == Repeat(42, LP5(RD32) + WR32) + (LP3(RD32) + LP1(WR32))
  {
    MacrosRepeat(RD32);
    MacrosRepeat(RD32 + WR32);
    MacrosRepeat(LP4(RD32) + LP2(RD32 + WR32));
    MacrosRepeat(LP5(RD32) + WR32);
  }

  lemma EraseTail(delay: Program)
    requires AllNops(delay)
    ensures Erase(LP3(delay)) == [] && Erase(LP4(delay)) == [] && Erase(LP8(delay)) == []
  {
    EraseNops(LP3(delay));
    EraseNops(LP4(delay));
    EraseNops(LP8(delay));
  }

  // Removing the nops of a delayed kernel leaves the peak-bandwidth kernel of its mix.
  lemma EraseDelay(mix: nat, delay: Program)
    requires AllNops(delay)
    ensures Erase(DelayKernel(mix, delay)) == PeakKernel(mix)
  {
    EraseNops(delay);
    EraseTail(delay);
    PeakForms();
    if mix == 1 {
      MacrosRepeat(RD32 + WR32 + LP4(delay));
      EraseLoop(128, RD32 + WR32, LP4(delay));
    } else if mix == 2 {
      MacrosRepeat(LP4(RD32) + LP2(RD32 + WR32) + LP3(delay));
      EraseLoop(32, LP4(RD32) + LP2(RD32 + WR32), LP3(delay));
    } else if mix == 3 {
      MacrosRepeat(LP5(RD32) + WR32 + LP8(delay));
      EraseLoopTail(42, LP5(RD32) + WR32, LP8(delay), LP3(RD32) + LP1(WR32), LP4(delay));
    } else {
      MacrosRepeat(RD32 + delay);
      EraseLoop(256, RD32, delay);
    }
  }

  lemma EraseLoopTail(n: nat, work: Program, delay: Program, tail: Program, tailDelay: Program)
    requires NoNops(work) && NoNops(tail) && Erase(delay) == [] && Erase(tailDelay) == []
    ensures Erase(Repeat(n, work + delay) + tail + tailDelay) == Repeat(n, work) + tail
  {
    var loop := Repeat(n, work + delay);
    EraseLoop(n, work, delay);
    EraseNothing(tail);
    EraseAppend(loop, tail);
    EraseAppend(loop + tail, tailDelay);
    assert Repeat(n, work) + tail + [] == Repeat(n, work) + tail;
  }

  lemma EraseLoop(n: nat, work: Program, delay: Program)
    requires NoNops(work) && Erase(delay) == []
    ensures Erase(Repeat(n, work + delay)) == Repeat(n, work)
  {
    EraseRepeat(n, work + delay);
    EraseAppend(work, delay);
    EraseNothing(work);
    assert work + [] == work;
  }

  // Whatever the nops, a delayed kernel leaves the same memory, accumulator and pointer as
  // the peak-bandwidth kernel of its mix, from any state.
  lemma DelayKeepsMeaning(mix: nat, delay: Program, s: State)
    requires AllNops(delay)
    ensures Exec(DelayKernel(mix, delay), s) == Exec(PeakKernel(mix), s)
  {
    EraseDelay(mix, delay);
    EraseSameMeaning(DelayKernel(mix, delay), s);
  }

  lemma {:induction false} RepeatNoNops(n: nat, x: Program)
    requires NoNops(x)
    ensures NoNops(Repeat(n, x))
  {
    if n > 0 {
      RepeatNoNops(n - 1, x);
    }
  }

  // Each kernel call makes 256 accesses and no nop.
  lemma PeakKernelShape(mix: nat)
    ensures NoNops(PeakKernel(mix)) && |PeakKernel(mix)| == 256
  {
    PeakForms();
    var (n, body) := if mix == 1 then (128, RD32 + WR32) else if mix == 2 then (32, LP4(RD32) + LP2(RD32 + WR32))
                     else if mix == 3 then (42, LP5(RD32) + WR32) else (256, RD32);
    RepeatNoNops(n, body);
    RepeatLength(n, body);
  }

  // loop_count kernel calls one after the other.
  function ExecTimes(n: nat, prog: Program, s: State): State {
    if n == 0 then s else Exec(prog, ExecTimes(n - 1, prog, s))
  }

  lemma {:induction false} ExecTimesRepeat(n: nat, prog: Program, s: State)
    ensures ExecTimes(n, prog, s) == Exec(Repeat(n, prog), s)
  {
    if n > 0 {
      ExecTimesRepeat(n - 1, prog, s);
      ExecAppend(Repeat(n - 1, prog), prog, s);
    }
  }

  // A full pass of loopCount kernel calls over a region of at least 8 KiB a call, from its
  // first word: it stays inside, every write slot ends up with the entry value of ret plus
  // the pass-initial words of all read slots before it, and no other word changes.
  lemma PassEffect(mix: nat, loopCount: nat, mem: seq<nat>, ret: nat)
    requires ret == Word64(ret) && 1024 * loopCount <= |mem|
    ensures var pass := Repeat(loopCount, PeakKernel(mix));
            && Fits(pass, mem, 0)
            && Sweeps(pass, mem, ret, 0, ExecTimes(loopCount, PeakKernel(mix), Running(mem, ret, 0)))
  {
    var kernel := PeakKernel(mix);
    PeakKernelShape(mix);
    RepeatNoNops(loopCount, kernel);
    RepeatLength(loopCount, kernel);
    ExecTimesRepeat(loopCount, kernel, Running(mem, ret, 0));
    ExecSweeps(Repeat(loopCount, kernel), mem, ret, 0);
  }

  // Lines written by a kernel call, out of 128.
  function DirtyPerBatch(mix: nat): nat {
    if mix == 1 then 128 else if mix == 2 then 64 else if mix == 3 then 43 else 0
  }

  lemma RepeatLines(n: nat, x: Program, rd: nat, wr: nat)
    requires |x| % 2 == 0 && LineCount(x, Read) == rd && LineCount(x, Write) == wr
    ensures |Repeat(n, x)| % 2 == 0
    ensures LineCount(Repeat(n, x), Read) == n * rd && LineCount(Repeat(n, x), Write) == n * wr
  {
    LineCountRepeat(n, x, Read);
    LineCountRepeat(n, x, Write);
  }

  lemma PairLines(a: Op, b: Op, kind: Op)
    ensures LineCount([a, b], kind) == if a == kind || b == kind then 1 else 0
  {
    assert [a, b][..0] == [];
  }

  lemma BodyLines()
    ensures LineCount(RD32 + RD32, Read) == 1 && LineCount(RD32 + RD32, Write) == 0
    ensures LineCount(RD32 + WR32, Read) == 1 && LineCount(RD32 + WR32, Write) == 1
    ensures LineCount(LP4(RD32) + LP2(RD32 + WR32), Read) == 4
    ensures LineCount(LP4(RD32) + LP2(RD32 + WR32), Write) == 2
    ensures LineCount(LP5(RD32) + WR32, Read) == 3 && LineCount(LP5(RD32) + WR32, Write) == 1
    ensures LineCount(LP3(RD32) + LP1(WR32), Read) == 2 && LineCount(LP3(RD32) + LP1(WR32), Write) == 1
  {
    var rr, rw := RD32 + RD32, RD32 + WR32;
    assert LP4(RD32) + LP2(rw) == (rr + rr) + (rw + rw);
    assert LP5(RD32) + WR32 == (rr + rr) + rw;
    assert LP3(RD32) + LP1(WR32) == rr + rw;
    forall kind | kind == Read || kind == Write
      ensures LineCount(rr, kind) == (if kind == Read then 1 else 0) && LineCount(rw, kind) == 1
      ensures LineCount((rr + rr) + (rw + rw), kind) == if kind == Read then 4 else 2
      ensures LineCount((rr + rr) + rw, kind) == if kind == Read then 3 else 1
      ensures LineCount(rr + rw, kind) == if kind == Read then 2 else 1
    {
      PairLines(Read, Read, kind);
      PairLines(Read, Write, kind);
      LineCountAppend(rr, rr, kind);
      LineCountAppend(rw, rw, kind);
      LineCountAppend(rr, rw, kind);
      LineCountAppend(rr + rr, rw, kind);
      LineCountAppend(rr + rr, rw + rw, kind);
    }
  }

  lemma KernelLines(mix: nat)
    ensures |PeakKernel(mix)| == 256
    ensures LineCount(PeakKernel(mix), Read) == 128
    ensures LineCount(PeakKernel(mix), Write) == DirtyPerBatch(mix)
  {
    PeakKernelShape(mix);
    PeakForms();
    BodyLines();
    if mix == 1 {
      RepeatLines(128, RD32 + WR32, 1, 1);
    } else if mix == 2 {
      RepeatLines(32, LP4(RD32) + LP2(RD32 + WR32), 4, 2);
    } else if mix == 3 {
      var loop, tail := Repeat(42, LP5(RD32) + WR32), LP3(RD32) + LP1(WR32);
      RepeatLines(42, LP5(RD32) + WR32, 3, 1);
      LineCountAppend(loop, tail, Read);
      LineCountAppend(loop, tail, Write);
    } else {
      MacrosRepeat(RD32 + RD32);
      assert LP256(RD32) == LP128(RD32 + RD32);
      RepeatLines(128, RD32 + RD32, 1, 0);
    }
  }

  // Over any number of batches from a line-aligned start, every one of the 128 lines a batch
  // is read, and the distinct lines written are 0, 128, 64 or 43 a batch.
  lemma BatchLines(mix: nat, batches: nat, p: nat)
    requires p % 8 == 0
    ensures |Lines(Repeat(batches, PeakKernel(mix)), p, Read)| == batches * 128
    ensures |Lines(Repeat(batches, PeakKernel(mix)), p, Write)| == batches * DirtyPerBatch(mix)
  {
    KernelLines(mix);
    RepeatLines(batches, PeakKernel(mix), 128, DirtyPerBatch(mix));
    LineCountCounts(Repeat(batches, PeakKernel(mix)), p, Read);
    LineCountCounts(Repeat(batches, PeakKernel(mix)), p, Write);
  }

  // get_write_fraction, a single-precision number: what the worker adds to the bytes read
  // for the bytes written back.
  function WriteFraction(mix: nat): real {
    if mix == 1 then 1.0 else if mix == 2 then 0.5 else if mix == 3 then 11183692.0 / 33554432.0 else 0.0
  }

  // The unit of its last bit, 1/2^25, and the fraction in that unit.
  const UNIT: nat := 33554432

  function WriteUnits(mix: nat): nat {
    if mix == 1 then UNIT else if mix == 2 then UNIT / 2 else if mix == 3 then 11183692 else 0
  }

  // Both are the same number, for mix 3 the one nearest to 0.3333.
  lemma FractionUnits(mix: nat)
    ensures WriteFraction(mix) * UNIT as real == WriteUnits(mix) as real
    ensures mix == 3 ==> 0.3333 - 0.5 / 33554432.0 < WriteFraction(mix) < 0.3333 + 0.5 / 33554432.0
  {
  }

  lemma ShareOf(f: real, low: real, high: real, b: real)
    requires low < f < high && 0.0 < b
    ensures low * b < f * b < high * b
  {
    assert (f - low) * b > 0.0 && (high - f) * b > 0.0;
  }

  lemma FractionOf(mix: nat, batches: nat)
    requires mix <= 3 && 0 < batches
    ensures var written, read := (batches * DirtyPerBatch(mix)) as real, (batches * 128) as real;
            && (mix < 3 <==> written == WriteFraction(mix) * read)
            && -0.003 * read < written - WriteFraction(mix) * read < 0.003 * read
  {
    var b := batches as real;
    assert (batches * 128) as real == 128.0 * b;
    if mix == 2 {
      assert (batches * 64) as real == 64.0 * b;
    } else if mix == 3 {
      assert (batches * 43) as real == 43.0 * b;
      ShareOf(WriteFraction(3), 0.3332, 0.3334, 128.0 * b);
    }
  }

  // The accounting constant is the fraction of lines written, exactly for mixes 0, 1 and 2,
  // and within 0.003 for the 3:1 mix, where it is not exact.
  lemma WriteFractionJustified(mix: nat, batches: nat, p: nat)
    requires p % 8 == 0 && mix <= 3 && 0 < batches
    ensures var pass := Repeat(batches, PeakKernel(mix));
            var written, read := |Lines(pass, p, Write)| as real, |Lines(pass, p, Read)| as real;
            && (mix < 3 <==> written == WriteFraction(mix) * read)
            && -0.003 * read < written - WriteFraction(mix) * read < 0.003 * read
  {
    BatchLines(mix, batches, p);
    FractionOf(mix, batches);
  }
}
