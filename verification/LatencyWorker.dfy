/** The latency worker: laying out its region, the 256-hop kernel, and the timed chase. */
module LatencyWorker {
  import opened Arith
  import opened Ring
  import opened Shuffle
  import opened Wrappers
  import opened Layouts
  import opened MemRegions
  import opened Timing
  import opened Checkpoints
  import opened RunLoops

  const HOPS: nat := 256

  // chunk_size_kb * 1024 is computed in 32 bits, region_size_kb * 1024 in 64.
  function ChunkBytes(chunkKb: nat): nat {
    (chunkKb * 1024) % UINT32
  }

  function RegionBytes(regionKb: nat): nat {
    (regionKb * 1024) % UINT64
  }

  // The chunk keeps its size exactly below 4 GiB, and becomes zero, a division by zero in
  // the region's constructor, exactly at the multiples of 4 GiB.
  lemma ChunkBytesIff(chunkKb: nat)
    ensures ChunkBytes(chunkKb) == chunkKb * 1024 <==> chunkKb < 0x40_0000
    ensures ChunkBytes(chunkKb) == 0 <==> chunkKb % 0x40_0000 == 0
  {
    var q, r := chunkKb / 0x40_0000, chunkKb % 0x40_0000;
    assert chunkKb * 1024 == UINT32 * q + r * 1024;
    DivModUnique(q, r * 1024, chunkKb * 1024, UINT32);
  }

  // The region keeps its size exactly below 2^54 KiB.
  lemma RegionBytesIff(regionKb: nat)
    ensures RegionBytes(regionKb) == regionKb * 1024 <==> regionKb < 0x40_0000_0000_0000
    ensures RegionBytes(regionKb) == 0 <==> regionKb % 0x40_0000_0000_0000 == 0
  {
    var q, r := regionKb / 0x40_0000_0000_0000, regionKb % 0x40_0000_0000_0000;
    assert regionKb * 1024 == UINT64 * q + r * 1024;
    DivModUnique(q, r * 1024, regionKb * 1024, UINT64);
  }

  // The page size in force after the constructor's correction.
  function PageInForce(page: nat, active: nat): nat {
    if page > active then DEFAULT_PAGE else page
  }

  // The region is laid out as the access pattern says: its memory is the linking of that
  // pattern's order, which is a ring exactly when the words linked share no byte and there
  // is one.
  method AllocLat(regionKb: nat, chunkKb: nat, strideB: nat, pattern: nat, rand: Stream)
    returns (region: MemRegion)
    requires 0 < ChunkBytes(chunkKb)
    requires var size := RegionBytes(regionKb); var page := PageInForce(ChunkBytes(chunkKb), size);
             LayoutFits(pattern, size, size, page, strideB) && DrawsFit(pattern, size, page, strideB, rand)
    ensures fresh(region) && fresh(region.mem) && region.Valid()
    ensures region.size == region.activeSize == RegionBytes(regionKb) && region.lineSize == strideB
    ensures region.pageSize == if ChunkBytes(chunkKb) > region.activeSize then 4096 else ChunkBytes(chunkKb)
    ensures var order := LayoutOrder(pattern, region.activeSize, region.pageSize, strideB, rand);
            && Inside(order, region.size)
            && region.mem[..] == Link(seq(region.size, _ => Null), order, |order|)
            && (IsRing(region.mem[..], order) <==> RingFits(pattern, region.activeSize, region.pageSize, strideB))
  {
    region := new MemRegion(RegionBytes(regionKb), RegionBytes(regionKb), ChunkBytes(chunkKb), strideB);
    assert region.mem[..] == seq(region.size, _ => Null);
    LayoutIsRingIff(region.mem[..], pattern, region.activeSize, region.pageSize, strideB, rand);
    if pattern == 0 {
      region.StrideInit();
    } else if pattern == 1 {
      region.PageRandomInit(rand);
    } else if pattern == 2 {
      region.AllRandomInit(rand);
    } else {
      region.PageRandomInit(rand);
    }
  }

  // The address of a region offset as a 64-bit value.
  function Address(base: nat, offset: nat): nat {
    (base + offset) % UINT64
  }

  function AddWord(ret: nat, word: nat): nat {
    (ret + word) % UINT64
  }

  // 256 dependent hops from p, then the word at the place reached is added to ret. Every
  // load along the way must find a pointer of the region.
  method KernelLat(mem: array<Cell>, base: nat, ret: nat, p: nat) returns (ret': nat, p': nat)
    requires Chase(mem[..], p, HOPS + 1).Some?
    ensures Chase(mem[..], p, HOPS) == Some(p')
    ensures ret' == AddWord(ret, Address(base, Chase(mem[..], p, HOPS + 1).value))
  {
    p' := p;
    var hop := 0;
    while hop < HOPS
      invariant 0 <= hop <= HOPS && Chase(mem[..], p, hop) == Some(p')
    {
      ChaseDefined(mem[..], p, hop + 1, HOPS + 1);
      p' := mem[p'].offset;
      hop := hop + 1;
    }
    ret' := AddWord(ret, Address(base, mem[p'].offset));
  }

  lemma {:induction false} ChaseDefined(m: seq<Cell>, p: nat, j: nat, k: nat)
    requires j <= k && Chase(m, p, k).Some?
    ensures Chase(m, p, j).Some?
    decreases k - j
  {
    if j < k {
      ChaseDefined(m, p, j + 1, k);
    }
  }

  // ret after some kernel calls of a pass that began with ret0: each adds the address its
  // 256 hops led to.
  function PassRet(m: seq<Cell>, base: nat, ret0: nat, calls: nat): nat {
    if calls == 0 then ret0
    else
      var word := Chase(m, 0, HOPS * (calls - 1) + HOPS + 1);
      AddWord(PassRet(m, base, ret0, calls - 1), if word.Some? then Address(base, word.value) else 0)
  }

  // ret at the start of pass q.
  function RunRet(m: seq<Cell>, base: nat, loopCount: nat, q: nat): nat {
    if q == 0 then 0 else PassRet(m, base, RunRet(m, base, loopCount, q - 1), loopCount)
  }

  // The sum of the offsets that the calls of a pass load last, going round a ring.
  function OffsetSum(order: seq<nat>, calls: nat): nat
    requires order != []
  {
    if calls == 0 then 0 else OffsetSum(order, calls - 1) + order[(256 * calls + 1) % |order|]
  }

  lemma {:induction false} PassRetOnRing(m: seq<Cell>, order: seq<nat>, base: nat, ret0: nat, calls: nat)
    requires IsRing(m, order) && ret0 < UINT64
    ensures PassRet(m, base, ret0, calls) == (ret0 + calls * base + OffsetSum(order, calls)) % UINT64
  {
    if calls > 0 {
      PassRetOnRing(m, order, base, ret0, calls - 1);
      ChaseAround(m, order, 0, 256 * calls + 1);
      assert HOPS * (calls - 1) + HOPS + 1 == 256 * calls + 1;
      NextWord(ret0, calls - 1, base, OffsetSum(order, calls - 1), order[(256 * calls + 1) % |order|]);
    }
  }

  lemma NextWord(ret0: nat, calls: nat, base: nat, sum: nat, word: nat)
    ensures AddWord((ret0 + calls * base + sum) % UINT64, Address(base, word))
            == (ret0 + (calls + 1) * base + (sum + word)) % UINT64
  {
    NextMultiple(calls, base);
    AddMod(ret0 + calls * base + sum, base + word);
  }

  lemma AddMod(a: nat, b: nat)
    ensures (a % UINT64 + b % UINT64) % UINT64 == (a + b) % UINT64
    ensures (a % UINT64 + b) % UINT64 == (a + b) % UINT64
  {
  }

  lemma {:induction false} RunRetOnRing(m: seq<Cell>, order: seq<nat>, base: nat, loopCount: nat, q: nat)
    requires IsRing(m, order)
    ensures RunRet(m, base, loopCount, q) == q * (loopCount * base + OffsetSum(order, loopCount)) % UINT64
  {
    if q > 0 {
      var before := RunRet(m, base, loopCount, q - 1);
      RunRetOnRing(m, order, base, loopCount, q - 1);
      PassRetOnRing(m, order, base, before, loopCount);
      FullPass(before, q - 1, loopCount * base, OffsetSum(order, loopCount));
    }
  }

  lemma FullPass(start: nat, q: nat, bases: nat, offsets: nat)
    requires start == q * (bases + offsets) % UINT64
    ensures (start + bases + offsets) % UINT64 == (q + 1) * (bases + offsets) % UINT64
  {
    NextMultiple(q, bases + offsets);
    AddMod(q * (bases + offsets), bases + offsets);
  }

  // On a ring, ret at the end of a run is the sum, in 64 bits, of the addresses that its calls
  // load last, each pass adding the same ones.
  lemma RetIsSum(m: seq<Cell>, order: seq<nat>, base: nat, loopCount: nat, passes: nat, calls: nat)
    requires IsRing(m, order)
    ensures PassRet(m, base, RunRet(m, base, loopCount, passes), calls)
            == ((passes * loopCount + calls) * base + passes * OffsetSum(order, loopCount) + OffsetSum(order, calls))
               % 0x1_0000_0000_0000_0000
  {
    RunRetOnRing(m, order, base, loopCount, passes);
    PassRetOnRing(m, order, base, RunRet(m, base, loopCount, passes), calls);
    var full, rest := OffsetSum(order, loopCount), OffsetSum(order, calls);
    LastPass(RunRet(m, base, loopCount, passes), passes, loopCount, calls, base, full, rest);
  }

  lemma LastPass(start: nat, passes: nat, loopCount: nat, calls: nat, base: nat, full: nat, rest: nat)
    requires start == passes * (loopCount * base + full) % UINT64
    ensures (start + calls * base + rest) % UINT64
            == ((passes * loopCount + calls) * base + passes * full + rest) % UINT64
  {
    AddMod(passes * (loopCount * base + full), calls * base + rest);
    Spread(passes, loopCount, calls, base, full);
  }

  lemma Spread(passes: nat, loopCount: nat, calls: nat, base: nat, full: nat)
    ensures passes * (loopCount * base + full) + calls * base == (passes * loopCount + calls) * base + passes * full
  {
    assert passes * (loopCount * base) == (passes * loopCount) * base;
  }

  // Chases between checkpoints, from the reference latency or the size of the region.
  function ChkptChases(refLatencyPs: nat, active: nat): nat {
    var chkpt := 0x40_0000;
    if refLatencyPs > 0 then chkpt / refLatencyPs * 1000
    else if active > 32768 * 1024 then chkpt / 128
    else if active > 2048 * 1024 then chkpt / 32
    else if active > 32 * 1024 then chkpt / 8
    else chkpt / 2
  }

  // With a reference latency the interval is 1000 chases for each of the q times that it
  // goes into 2^22, and without one a share of 2^22 that depends on the size of the region.
  lemma IntervalIs(refLatencyPs: nat, active: nat) returns (q: nat)
    ensures 0 < refLatencyPs ==>
      ChkptChases(refLatencyPs, active) == 1000 * q && q * refLatencyPs <= 4194304 < q * refLatencyPs + refLatencyPs
    ensures refLatencyPs == 0 ==>
      ChkptChases(refLatencyPs, active) == if active > 33554432 then 32768 else if active > 2097152 then 131072
                                           else if active > 32768 then 524288 else 2097152
  {
    q := if refLatencyPs == 0 then 0 else 4194304 / refLatencyPs;
  }

  // The chases reported at the k-th checkpoint of a run without a reference, in figures.
  lemma ChasesInFigures(active: nat, k: nat)
    ensures Batches(ChkptChases(0, active), HOPS, k) * HOPS
            == (if active > 33554432 then 32768 * k else if active > 2097152 then 131072 * k
                else if active > 32768 then 524288 * k else 2097152 * k) + 256
  {
    var c := ChkptChases(0, active);
    var n := c / HOPS;
    assert c == n * HOPS;
    assert k * c == HOPS * (k * n) + 0;
    DivModUnique(k * n, 0, k * c, HOPS);
  }

  function LoopCount(active: nat, line: nat): nat
    requires 0 < line
  {
    active / (HOPS * line)
  }

  // One pass of the inner loop chases 256 * loop_count hops from the start. Their nodes are
  // pairwise distinct exactly when they do not outnumber the ring, and when they are as
  // many the pass is a full lap.
  lemma PassDistinctIff(m: seq<Cell>, order: seq<nat>, hops: nat)
    requires IsRing(m, order)
    ensures (forall j, k :: 0 <= j < k < hops ==> Chase(m, 0, j) != Chase(m, 0, k)) <==> hops <= |order|
    ensures hops == |order| ==> Chase(m, 0, hops) == Some(0)
  {
    FirstReturn(m, order);
    if hops <= |order| {
      forall j, k | 0 <= j < k < hops
        ensures Chase(m, 0, j) != Chase(m, 0, k)
      {
        HopsDistinct(m, order, j, k);
      }
    } else {
      assert Chase(m, 0, 0) == Chase(m, 0, |order|);
    }
  }

  // With sizes that divide one another, a pass never revisits a node, whatever the layout,
  // and it is a full lap exactly when the active size is a multiple of 256 lines.
  lemma PassFitsRing(pattern: nat, active: nat, page: nat, line: nat, rand: Stream)
    requires WORD <= line <= page <= active && page % line == 0 && active % page == 0
    ensures var order := LayoutOrder(pattern, active, page, line, rand);
            && HOPS * LoopCount(active, line) <= |order|
            && (HOPS * LoopCount(active, line) == |order| <==> active % (HOPS * line) == 0)
  {
    SameRing(seq(active, _ => Null), active, page, line, rand, pattern);
    ActiveLinesFit(active, page, line);
    LoopCountFits(active, line);
  }

  lemma LoopCountFits(active: nat, line: nat)
    requires 0 < line && active / line * line == active
    ensures HOPS * LoopCount(active, line) <= active / line
    ensures HOPS * LoopCount(active, line) == active / line <==> active % (HOPS * line) == 0
  {
    var c, left := LoopCount(active, line), active % (HOPS * line);
    assert active == (HOPS * line) * c + left;
    assert (HOPS * line) * c == (HOPS * c) * line;
    var d := active / line - HOPS * c;
    assert d * line == left;
    MulMono(line, d, -1);
    MulMono(line, 1, d);
  }

  // So in whatever layout, with such sizes, a pass loads from whole words of the ring's
  // nodes only, never twice from the same one, and comes back to the start exactly when it
  // is a full lap (or has no kernel call).
  lemma PassVisits(m: seq<Cell>, pattern: nat, active: nat, page: nat, line: nat, rand: Stream)
    requires WORD <= line <= page <= active <= |m| && page % line == 0 && active % page == 0
    ensures var order, hops := LayoutOrder(pattern, active, page, line, rand), HOPS * LoopCount(active, line);
            && Inside(order, |m|)
            && var ring := Link(m, order, |order|);
               && (forall k: nat :: k <= hops ==>
                     Chase(ring, 0, k).Some? && Chase(ring, 0, k).value in Nodes(Sequential(active / line, line)))
               && (forall j, k :: 0 <= j < k < hops ==> Chase(ring, 0, j) != Chase(ring, 0, k))
               && (Chase(ring, 0, hops) == Some(0) <==> hops == 0 || active % (HOPS * line) == 0)
  {
    var order, hops := LayoutOrder(pattern, active, page, line, rand), HOPS * LoopCount(active, line);
    SameRing(m, active, page, line, rand, pattern);
    PassFitsRing(pattern, active, page, line, rand);
    var ring := Link(m, order, |order|);
    PassDistinctIff(ring, order, hops);
    forall k: nat | k <= hops
      ensures Chase(ring, 0, k).Some? && Chase(ring, 0, k).value in Nodes(Sequential(active / line, line))
    {
      ChaseAround(ring, order, 0, k);
      assert order[k % |order|] in Nodes(order);
    }
  }

  // The sequential stride needs no divisibility for that.
  lemma StridePassFits(active: nat, line: nat)
    requires WORD <= line
    ensures HOPS * LoopCount(active, line) <= |StrideOrder(active, line)|
  {
    var c := LoopCount(active, line);
    assert active == (HOPS * line) * c + active % (HOPS * line);
    assert (HOPS * line) * c == HOPS * c * line;
    if c > 0 {
      StrideBound(active, line, HOPS * c - 1);
      assert (HOPS * c - 1) * line == HOPS * c * line - line;
    }
  }

  lemma LoopCountIff(active: nat, line: nat)
    requires 0 < line
    ensures 1 <= LoopCount(active, line) <==> HOPS * line <= active
  {
    var c, unit := LoopCount(active, line), HOPS * line;
    assert active == unit * c + active % unit;
    MulMono(unit, 1, c);
  }

  // The run of lat_ptr.
  function LatRun(clock: Clock, targetDuration: nat, refLatencyPs: nat, active: nat, line: nat): Run
    requires 0 < line
  {
    Run(clock, targetDuration * NS_PER_SEC, ChkptChases(refLatencyPs, active), HOPS, LoopCount(active, line))
  }

  // A latency run ends exactly when the active size holds 256 lines and the clock comes to
  // the target.
  lemma LatRunEndsIff(clock: Clock, targetDuration: nat, refLatencyPs: nat, active: nat, line: nat)
    requires 0 < line
    ensures var r := LatRun(clock, targetDuration, refLatencyPs, active, line);
            (exists t: nat :: EndsAfter(r, t))
            <==> 256 * line <= active
                 && exists k: nat :: 1 <= k && clock(k) - clock(0) >= targetDuration * 1_000_000_000
  {
    ReachableIff(LatRun(clock, targetDuration, refLatencyPs, active, line));
    RunEndsIff(LatRun(clock, targetDuration, refLatencyPs, active, line));
    LoopCountIff(active, line);
  }

  // 16 KiB with lines of 128 bytes, sizes nothing checks, give no kernel call a pass: on no
  // clock does the run end.
  lemma ShortRegionNeverEnds(clock: Clock, targetDuration: nat, refLatencyPs: nat, t: nat)
    ensures LoopCount(RegionBytes(16), 128) == 0
    ensures !EndsAfter(LatRun(clock, targetDuration, refLatencyPs, RegionBytes(16), 128), t)
  {
    EmptyPasses(LatRun(clock, targetDuration, refLatencyPs, RegionBytes(16), 128), t);
  }

  class LatencyPacket {
    const region: MemRegion
    const base: nat               // address of the region's first byte
    var targetDuration: nat       // seconds
    var refLatencyPs: nat
    var finishedChases: nat
    var execTimeNs: int

    constructor (region: MemRegion, base: nat)
      ensures this.region == region && this.base == base
      ensures targetDuration == refLatencyPs == finishedChases == execTimeNs == 0
    {
      this.region, this.base := region, base;
      targetDuration, refLatencyPs, finishedChases, execTimeNs := 0, 0, 0, 0;
    }

    // The inner loop: one pass from the start of the ring, cut short when a checkpoint ends
    // the run.
    method ChasePass(pacer: Pacer, loopCount: nat, ret0: nat, ghost order: seq<nat>)
      returns (i: nat, ret: nat, p: nat)
      requires IsRing(region.mem[..], order) && 1 <= loopCount
      requires pacer.Running() && pacer.batch == HOPS && finishedChases == pacer.batches * pacer.batch
      modifies this`finishedChases, pacer, pacer.timer
      ensures finishedChases == pacer.batches * pacer.batch && i <= loopCount
      ensures var calls := if i < loopCount then i + 1 else i;
              && pacer.batches == old(pacer.batches) + calls
              && Chase(region.mem[..], 0, HOPS * calls) == Some(p)
              && ret == PassRet(region.mem[..], base, ret0, calls)
      ensures if i < loopCount then pacer.Done()
              else pacer.Running() && pacer.Past(old(pacer.numChkpts), old(pacer.ToNext()))
    {
      p := 0;
      i, ret := 0, ret0;
      ghost var m := region.mem[..];
      while i < loopCount
        invariant 0 <= i <= loopCount && region.mem[..] == m
        invariant Chase(m, 0, HOPS * i) == Some(p) && ret == PassRet(m, base, ret0, i)
        invariant pacer.batches == old(pacer.batches) + i
        invariant pacer.Running() && finishedChases == pacer.batches * pacer.batch
        invariant pacer.Moved(0 < i, old(pacer.numChkpts), old(pacer.ToNext()))
      {
        var stop;
        ret, p, stop := ChaseBatch(pacer, i, ret, ret0, p, order);
        if stop {
          break;
        }
        i := i + 1;
      }
    }

    // A kernel call and the checkpoint after it.
    method ChaseBatch(pacer: Pacer, ghost i: nat, ret: nat, ghost ret0: nat, p: nat, ghost order: seq<nat>)
      returns (ret': nat, p': nat, stop: bool)
      requires IsRing(region.mem[..], order)
      requires Chase(region.mem[..], 0, HOPS * i) == Some(p) && ret == PassRet(region.mem[..], base, ret0, i)
      requires pacer.Running() && pacer.batch == HOPS && finishedChases == pacer.batches * pacer.batch
      modifies this`finishedChases, pacer, pacer.timer
      ensures Chase(region.mem[..], 0, HOPS * (i + 1)) == Some(p')
      ensures ret' == PassRet(region.mem[..], base, ret0, i + 1)
      ensures pacer.batches == old(pacer.batches) + 1 && finishedChases == pacer.batches * pacer.batch
      ensures if stop then pacer.Done() else pacer.Running() && pacer.Past(old(pacer.numChkpts), old(pacer.ToNext()))
    {
      ret', p' := NextCall(i, ret, ret0, p, order);
      finishedChases := finishedChases + HOPS;
      stop := pacer.BatchDone(finishedChases);
    }

    // The kernel call after i others of a pass.
    method NextCall(ghost i: nat, ret: nat, ghost ret0: nat, p: nat, ghost order: seq<nat>)
      returns (ret': nat, p': nat)
      requires IsRing(region.mem[..], order)
      requires Chase(region.mem[..], 0, HOPS * i) == Some(p) && ret == PassRet(region.mem[..], base, ret0, i)
      ensures Chase(region.mem[..], 0, HOPS * (i + 1)) == Some(p')
      ensures ret' == PassRet(region.mem[..], base, ret0, i + 1)
    {
      NextHops(region.mem[..], order, HOPS * i, p);
      ret', p' := KernelLat(region.mem, base, ret, p);
      assert HOPS * (i + 1) == HOPS * i + HOPS;
    }

    // The outer loop: passes until a checkpoint ends the run, `passes` of them full and the
    // last one of `calls` kernel calls.
    method ChasePasses(pacer: Pacer, loopCount: nat, ghost order: seq<nat>)
      returns (ret: nat, ghost passes: nat, ghost calls: nat)
      requires IsRing(region.mem[..], order) && 1 <= loopCount
      requires pacer.Running() && pacer.batch == HOPS && pacer.batches == 0 && finishedChases == 0
      modifies this`finishedChases, pacer, pacer.timer
      ensures pacer.Done() && finishedChases == pacer.batches * pacer.batch
      ensures 0 < calls <= loopCount && pacer.batches == passes * loopCount + calls
      ensures ret == PassRet(region.mem[..], base, RunRet(region.mem[..], base, loopCount, passes), calls)
    {
      ret, passes := 0, 0;
      while true
        invariant pacer.Running() && finishedChases == pacer.batches * pacer.batch
        invariant pacer.batches == passes * loopCount
        invariant ret == RunRet(region.mem[..], base, loopCount, passes)
        decreases pacer.horizon - pacer.numChkpts, pacer.ToNext()
      {
        var i, p;
        i, ret, p := ChasePass(pacer, loopCount, ret, order);
        if i != loopCount {
          calls := i + 1;
          break;
        }
        RowStep(loopCount, passes, passes + 1, passes * loopCount);
        passes := passes + 1;
      }
    }

    // Chases until the first checkpoint that finds the target duration reached, and reports
    // the chases up to that checkpoint with exactly the time up to it. It needs at least
    // one kernel call a pass, and a clock that at some reading (`horizon`) has advanced far
    // enough; the number of kernel calls a pass has no influence on the report.
    method LatPtr(clock: Clock, ghost horizon: nat, ghost order: seq<nat>)
      returns (numChkpts: nat, ret: nat, ghost passes: nat, ghost calls: nat)
      requires region.Valid() && 1 <= LoopCount(region.activeSize, region.lineSize)
      requires IsRing(region.mem[..], order)
      requires 1 <= horizon && Elapsed(clock, horizon) >= targetDuration * NS_PER_SEC
      modifies this`finishedChases, this`execTimeNs
      ensures FirstReach(clock, targetDuration * 1_000_000_000, numChkpts)
      ensures execTimeNs == clock(numChkpts) - clock(0) >= targetDuration * 1_000_000_000
      ensures var loopCount := LoopCount(region.activeSize, region.lineSize);
              var allCalls := Batches(ChkptChases(refLatencyPs, region.activeSize), HOPS, numChkpts);
              && finishedChases == allCalls * HOPS
              && (refLatencyPs == 0 ==>
                    finishedChases == (if region.activeSize > 33554432 then 32768 * numChkpts
                                       else if region.activeSize > 2097152 then 131072 * numChkpts
                                       else if region.activeSize > 32768 then 524288 * numChkpts
                                       else 2097152 * numChkpts) + 256)
              && 0 < calls <= loopCount && allCalls == passes * loopCount + calls
              && ret == PassRet(region.mem[..], base, RunRet(region.mem[..], base, loopCount, passes), calls)
    {
      var loopCount := LoopCount(region.activeSize, region.lineSize);
      var chkpt := ChkptChases(refLatencyPs, region.activeSize);
      var pacer := new Pacer(clock, targetDuration * NS_PER_SEC, chkpt, HOPS, horizon);
      finishedChases := 0;
      ret, passes, calls := ChasePasses(pacer, loopCount, order);
      numChkpts := pacer.numChkpts;
      execTimeNs := pacer.timer.watch.elapsed;
      ChasesInFigures(region.activeSize, numChkpts);
    }
  }

  // From any node of the ring the next 257 loads find pointers of the region.
  lemma NextHops(m: seq<Cell>, order: seq<nat>, done: nat, p: nat)
    requires IsRing(m, order) && Chase(m, 0, done) == Some(p)
    ensures Chase(m, p, HOPS + 1).Some?
    ensures Chase(m, 0, done + HOPS) == Chase(m, p, HOPS)
    ensures Chase(m, 0, done + HOPS + 1) == Chase(m, p, HOPS + 1)
  {
    ChaseAround(m, order, 0, done + HOPS + 1);
    ChaseSplit(m, 0, done, HOPS + 1);
    ChaseSplit(m, 0, done, HOPS);
  }
}
