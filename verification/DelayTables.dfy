/**
 The delayed kernels that a loaded-latency run goes through for a requested mix, the choice
 of one by its delay, and whether they write what the accounting adds for that mix.
 */
module DelayTables {
  import opened Arith
  import opened KernelLanguage
  import opened BandwidthKernels
  import opened BandwidthWorker
  import opened SinglePrecision

  type Item = (int, Program)

  // The delays listed for a mix; any mix above 3 has one, called 0.
  const DELAYS: seq<nat> :=
    [1, 8, 32, 48, 64, 80, 88, 96, 104, 112, 128, 160, 192, 224, 256, 384, 512, 768, 1024, 1536, 2048]
  const DELAYS_2: seq<nat> :=
    [1, 8, 32, 48, 64, 80, 88, 96, 104, 112, 128, 160, 192, 224, 256, 320, 384, 448, 512, 640, 768, 1024, 1536, 2048]

  function Delays(mix: nat): seq<nat> {
    if mix == 2 then DELAYS_2 else if mix <= 3 then DELAYS else [0]
  }

  // The mix whose kernel is listed: above 3 it is the 2:1 kernel.
  function ListedMix(mix: nat): nat {
    if mix <= 3 then mix else 2
  }

  // The kernel listed with a delay; the one for a mix above 3 has 256 nops all the same.
  function Listed(mix: nat, delay: nat): Program {
    DelayKernel(ListedMix(mix), NopMacro(if mix <= 3 then delay else 256))
  }

  function DelayList(mix: nat): (list: seq<Item>)
    ensures |list| == |Delays(mix)|
  {
    seq(|Delays(mix)|, k requires 0 <= k < |Delays(mix)| => (Delays(mix)[k], Listed(mix, Delays(mix)[k])))
  }

  lemma MacroIsNops(n: nat)
    ensures AllNops(NopMacro(n))
  {
    if NopMacro(n) != [] {
      NopCount(n);
    }
  }

  // Every delay listed is that of a nop macro.
  lemma DelaysAreMacros(mix: nat, k: nat)
    requires mix <= 3 && k < |Delays(mix)|
    ensures NopMacro(Delays(mix)[k]) != []
  {
  }

  lemma ListedAreMacros(mix: nat, n: nat)
    requires mix <= 3 && n in Delays(mix)
    ensures NopMacro(n) != [] && n !in {2, 4, 16} && (mix == 2 || n !in {320, 448, 640})
  {
    var k :| 0 <= k < |Delays(mix)| && Delays(mix)[k] == n;
    DelaysAreMacros(mix, k);
  }

  lemma MacrosAreListed(mix: nat, n: nat)
    requires mix <= 3 && NopMacro(n) != [] && n !in {2, 4, 16} && (mix == 2 || n !in {320, 448, 640})
    ensures n in Delays(mix)
  {
  }

  // The delays listed are those of all the nop macros but three small ones and, for a mix
  // other than 2, three large ones.
  lemma DelaysListed(mix: nat, n: nat)
    requires mix <= 3
    ensures n in Delays(mix)
            <==> NopMacro(n) != [] && n !in {2, 4, 16} && (mix == 2 || n !in {320, 448, 640})
  {
    if n in Delays(mix) {
      ListedAreMacros(mix, n);
    } else if NopMacro(n) != [] && n !in {2, 4, 16} && (mix == 2 || n !in {320, 448, 640}) {
      MacrosAreListed(mix, n);
    }
  }

  // And they go up.
  lemma DelaysGoUp(mix: nat)
    ensures forall j, k :: 0 <= j < k < |Delays(mix)| ==> Delays(mix)[j] < Delays(mix)[k]
  {
  }

  // A listed kernel does what the peak kernel of its mix does, that of a mix above 3 what
  // the 2:1 one does, from any state.
  lemma ListedKeepsMeaning(mix: nat, delay: nat, s: State)
    ensures Exec(Listed(mix, delay), s) == Exec(PeakKernel(ListedMix(mix)), s)
  {
    var n := if mix <= 3 then delay else 256;
    MacroIsNops(n);
    DelayKeepsMeaning(ListedMix(mix), NopMacro(n), s);
  }

  // The accesses of so many calls of a listed kernel, without the nops between them.
  function Accesses(mix: nat, delay: nat, batches: nat): Program {
    Erase(Repeat(batches, Listed(mix, delay)))
  }

  lemma AccessesArePeak(mix: nat, delay: nat, batches: nat)
    ensures Accesses(mix, delay, batches) == Repeat(batches, PeakKernel(ListedMix(mix)))
  {
    var n := if mix <= 3 then delay else 256;
    MacroIsNops(n);
    EraseDelay(ListedMix(mix), NopMacro(n));
    EraseRepeat(batches, Listed(mix, delay));
  }

  // The lines that so many calls of a listed kernel write, in figures: none, all, half, or 43
  // of 128 for the four mixes, half for any other.
  lemma ListedWrites(mix: nat, delay: nat, batches: nat, p: nat)
    requires p % 8 == 0
    ensures |Lines(Accesses(mix, delay, batches), p, Write)|
            == if mix == 0 then 0 else if mix == 1 then batches * 128 else if mix == 3 then batches * 43
               else batches * 64
    ensures |Lines(Accesses(mix, delay, batches), p, Read)| == batches * 128
  {
    ListedLines(mix, delay, batches, p);
    LinesInFigures(mix, batches);
  }

  lemma ListedLines(mix: nat, delay: nat, batches: nat, p: nat)
    requires p % 8 == 0
    ensures |Lines(Accesses(mix, delay, batches), p, Write)| == batches * DirtyPerBatch(ListedMix(mix))
    ensures |Lines(Accesses(mix, delay, batches), p, Read)| == batches * 128
  {
    AccessesArePeak(mix, delay, batches);
    BatchLines(ListedMix(mix), batches, p);
  }

  lemma LinesInFigures(mix: nat, batches: nat)
    ensures batches * DirtyPerBatch(ListedMix(mix))
            == if mix == 0 then 0 else if mix == 1 then batches * 128 else if mix == 3 then batches * 43
               else batches * 64
  {
  }

  lemma ShareIff(mix: nat, batches: nat)
    requires 0 < batches
    ensures var written, read := (batches * DirtyPerBatch(ListedMix(mix))) as real, (batches * 128) as real;
            written == WriteFraction(mix) * read <==> mix < 3
  {
    if mix <= 3 {
      FractionOf(mix, batches);
    } else {
      assert (batches * DirtyPerBatch(2)) as real > 0.0;
    }
  }

  // Whatever mix is asked for, the lines its listed kernels write are the share of the lines
  // read that the accounting adds for it, if and only if the mix is below 3.
  lemma ListedMatchesAccountingIff(mix: nat, delay: nat, batches: nat, p: nat)
    requires p % 8 == 0 && 0 < batches
    ensures var pass := Accesses(mix, delay, batches);
            var written, read := |Lines(pass, p, Write)| as real, |Lines(pass, p, Read)| as real;
            written == WriteFraction(mix) * read <==> mix < 3
  {
    ListedLines(mix, delay, batches, p);
    ShareIff(mix, batches);
  }

  // A mix above 3, which nothing refuses: 64 of the 128 lines of a call are written, and a
  // run reports the bytes it has read, rounded, and none of these.
  lemma UnknownMixReportsNoWrites(mix: nat, delay: nat, calls: nat, p: nat)
    requires 3 < mix && p % 8 == 0
    ensures |Lines(Accesses(mix, delay, calls), p, Write)| == calls * 64
    ensures TrafficBytes(LOOP_BYTES * calls, mix) == Single(LOOP_BYTES * calls)
  {
    ListedLines(mix, delay, calls, p);
    NothingAdded(LOOP_BYTES * calls, mix);
  }

  // ---- Choosing a delay

  function Gap(item: Item, delay: int): nat {
    if item.0 >= delay then item.0 - delay else delay - item.0
  }

  // Item k is the first of those nearest to the delay, and nearer than 0 is.
  predicate IsChosen(raw: seq<Item>, delay: int, k: nat) {
    && k < |raw| && Gap(raw[k], delay) < delay
    && (forall j :: 0 <= j < |raw| ==> Gap(raw[k], delay) <= Gap(raw[j], delay))
    && (forall j :: 0 <= j < k ==> Gap(raw[k], delay) < Gap(raw[j], delay))
  }

  // The loop of build_delays_and_kernels: at most one item is left.
  method ChooseDelay(raw: seq<Item>, delay: int) returns (list: seq<Item>, ghost k: nat)
    requires 0 < delay
    ensures list == if k < |raw| then [raw[k]] else []
    ensures k < |raw| ==> IsChosen(raw, delay, k)
    ensures |raw| <= k ==> forall j :: 0 <= j < |raw| ==> Gap(raw[j], delay) >= delay
  {
    list, k := [], |raw|;
    var gap := delay;
    var i := 0;
    while i < |raw|
      invariant 0 <= i <= |raw| && gap <= delay
      invariant forall j :: 0 <= j < i ==> gap <= Gap(raw[j], delay)
      invariant if k < |raw| then k < i && gap == Gap(raw[k], delay) < delay && list == [raw[k]]
                else gap == delay && list == []
      invariant k < |raw| ==> forall j :: 0 <= j < k ==> gap < Gap(raw[j], delay)
    {
      var currGap := Gap(raw[i], delay);
      if currGap < gap {
        gap := currGap;
        list := [];
        list := list + [raw[i]];
        k := i;
      }
      i := i + 1;
    }
  }

  // The list a run goes through, its first item twice, the first time to warm up. Taking the
  // first item needs one.
  method BuildDelays(mix: nat, delay: int) returns (list: seq<Item>, ghost k: nat)
    requires 0 < delay ==> mix <= 3
    ensures delay <= 0 ==> list == [DelayList(mix)[0]] + DelayList(mix)
    ensures 0 < delay ==> IsChosen(DelayList(mix), delay, k) && list == [DelayList(mix)[k], DelayList(mix)[k]]
  {
    var raw := DelayList(mix);
    k := 0;
    if delay > 0 {
      assert Gap(raw[0], delay) < delay;
      list, k := ChooseDelay(raw, delay);
    } else {
      list := raw;
    }
    list := [list[0]] + list;
  }

  // And there is one exactly when no delay is asked for or the mix is one of the first four.
  lemma SomeDelayIff(mix: nat, delay: int)
    ensures delay <= 0 || (exists k :: 0 <= k < |DelayList(mix)| && Gap(DelayList(mix)[k], delay) < delay)
            <==> delay <= 0 || mix <= 3
  {
    if 0 < delay && mix <= 3 {
      assert Gap(DelayList(mix)[0], delay) < delay;
    }
  }
}
