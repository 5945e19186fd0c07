/**
 Several workers laying out their regions at once. They all draw from the one stream behind
 rand(), so which draws a worker gets depends on how the workers interleave. Whichever they
 are, its region is a ring.
 */
module SharedStream {
  import opened Wrappers
  import opened Ring
  import opened Shuffle
  import opened Reachability
  import opened Layouts

  // A worker in the middle of its shuffle: what it has drawn so far, the mixed value, and
  // its sequence of n entries.
  datatype Worker = Worker(n: nat, unit: nat, draws: seq<nat>, r: nat, s: seq<nat>)

  function Begin(n: nat, unit: nat): Worker {
    Worker(n, unit, [], 0, Sequential(n, unit))
  }

  // Two draws seed the mixed value and each of the n - 1 swaps takes one more.
  predicate Finished(w: Worker) {
    |w.draws| == w.n + 1
  }

  predicate Valid(w: Worker) {
    0 < w.n == |w.s| && |w.draws| <= w.n + 1
  }

  // The code from one draw to the next.
  function Draw(w: Worker, draw: nat): (w': Worker)
    requires Valid(w) && !Finished(w)
    ensures Valid(w') && w'.draws == w.draws + [draw] && w'.n == w.n && w'.unit == w.unit
  {
    var k, draws := |w.draws|, w.draws + [draw];
    if k == 0 then w.(draws := draws, r := draw)
    else if k == 1 then w.(draws := draws, r := Xor(w.r, ShiftLeft(draw, 1024)))
    else
      var i, r := w.n + 1 - k, Mix(w.r, draw);
      w.(draws := draws, r := r, s := Swap(w.s, i, Pick(r, i + 1)))
  }

  // The stream has given so many draws, to any of the workers.
  datatype State = State(tick: nat, workers: seq<Worker>) {
    predicate Ok() {
      forall k :: 0 <= k < |workers| ==> Valid(workers[k])
    }
  }

  function Step(rand: Stream, st: State, w: nat): (st': State)
    requires st.Ok()
    ensures st'.Ok() && |st'.workers| == |st.workers|
  {
    if w < |st.workers| && !Finished(st.workers[w])
    then State(st.tick + 1, st.workers[w := Draw(st.workers[w], rand(st.tick))])
    else st
  }

  // The draws in the order of the schedule.
  function Run(rand: Stream, st: State, schedule: seq<nat>): (st': State)
    requires st.Ok()
    ensures st'.Ok() && |st'.workers| == |st.workers|
  {
    if schedule == [] then st
    else Step(rand, Run(rand, st, schedule[..|schedule| - 1]), schedule[|schedule| - 1])
  }

  // A stream that gives the draws of one worker, as if it had the stream to itself.
  function Own(draws: seq<nat>): Stream {
    (k: nat) => if k < |draws| then draws[k] else 0
  }

  // On any stream that gives these draws first, the worker is where it would be alone.
  ghost predicate OnTrack(w: Worker) {
    && Valid(w)
    && (|w.draws| < 2 ==> w.s == Sequential(w.n, w.unit))
    && forall rand: Stream {:trigger Gives(rand, 0, w.draws)} :: Gives(rand, 0, w.draws) ==> Agrees(w, rand)
  }

  ghost predicate Agrees(w: Worker, rand: Stream)
    requires Valid(w)
  {
    && (|w.draws| == 1 ==> w.r == rand(0))
    && (|w.draws| >= 2 ==>
          SwapDown(w.s, w.n + 1 - |w.draws|, w.r, rand, |w.draws|) == Shuffled(w.n, w.unit, rand))
  }

  lemma DrawKeepsTrack(w: Worker, draw: nat)
    requires OnTrack(w) && !Finished(w)
    ensures OnTrack(Draw(w, draw))
  {
    var w' := Draw(w, draw);
    forall rand: Stream | Gives(rand, 0, w'.draws)
      ensures Agrees(w', rand)
    {
      GivesFront(rand, w.draws, draw);
      DrawAgrees(w, draw, rand);
    }
  }

  lemma DrawAgrees(w: Worker, draw: nat, rand: Stream)
    requires Valid(w) && !Finished(w) && Agrees(w, rand) && rand(|w.draws|) == draw
    requires |w.draws| < 2 ==> w.s == Sequential(w.n, w.unit)
    ensures Agrees(Draw(w, draw), rand)
  {
    var k := |w.draws|;
    if k == 1 {
      assert Xor(w.r, ShiftLeft(draw, 1024)) == Seed(rand);
    } else if k > 1 {
      var i, r := w.n + 1 - k, Mix(w.r, draw);
      assert SwapDown(w.s, i, w.r, rand, k) == SwapDown(Swap(w.s, i, Pick(r, i + 1)), i - 1, r, rand, k + 1);
    }
  }

  lemma GivesFront(rand: Stream, draws: seq<nat>, draw: nat)
    requires Gives(rand, 0, draws + [draw])
    ensures Gives(rand, 0, draws) && rand(|draws|) == draw
  {
    var longer := draws + [draw];
    assert rand(0 + |draws|) == longer[|draws|];
    forall k | 0 <= k < |draws|
      ensures rand(0 + k) == draws[k]
    {
      assert rand(0 + k) == longer[k];
    }
  }

  ghost predicate AllOnTrack(st: State) {
    forall k :: 0 <= k < |st.workers| ==> OnTrack(st.workers[k])
  }

  // No interleaving takes a worker off its track.
  lemma {:induction false} RunKeepsTrack(rand: Stream, st: State, schedule: seq<nat>)
    requires st.Ok() && AllOnTrack(st)
    ensures AllOnTrack(Run(rand, st, schedule))
  {
    if schedule != [] {
      var front, w := schedule[..|schedule| - 1], schedule[|schedule| - 1];
      RunKeepsTrack(rand, st, front);
      var before := Run(rand, st, front);
      if w < |before.workers| && !Finished(before.workers[w]) {
        DrawKeepsTrack(before.workers[w], rand(before.tick));
      }
    }
  }

  lemma BeginOnTrack(n: nat, unit: nat)
    requires 0 < n
    ensures OnTrack(Begin(n, unit))
  {
  }

  // A worker that has finished has the order its own draws give.
  lemma FinishedOrder(w: Worker)
    requires OnTrack(w) && Finished(w)
    ensures StartFirst(w.s) == RandomOrder(w.n, w.unit, Own(w.draws))
  {
    assert Gives(Own(w.draws), 0, w.draws);
  }

  // ---- Where the draws go

  function DrawsOf(workers: seq<Worker>): multiset<nat> {
    if workers == [] then multiset{}
    else DrawsOf(workers[..|workers| - 1]) + multiset(workers[|workers| - 1].draws)
  }

  function Given(rand: Stream, ticks: nat): multiset<nat> {
    if ticks == 0 then multiset{} else Given(rand, ticks - 1) + multiset{rand(ticks - 1)}
  }

  lemma {:induction false} DrawsUpdated(workers: seq<Worker>, w: nat, next: Worker, draw: nat)
    requires w < |workers| && next.draws == workers[w].draws + [draw]
    ensures DrawsOf(workers[w := next]) == DrawsOf(workers) + multiset{draw}
  {
    var n := |workers| - 1;
    if w < n {
      DrawsUpdated(workers[..n], w, next, draw);
      assert workers[w := next][..n] == workers[..n][w := next];
    } else {
      assert workers[w := next][..n] == workers[..n];
    }
  }

  ghost predicate Accounted(rand: Stream, st: State) {
    DrawsOf(st.workers) == Given(rand, st.tick)
  }

  lemma DrawAccounted(rand: Stream, workers: seq<Worker>, tick: nat, w: nat, next: Worker)
    requires DrawsOf(workers) == Given(rand, tick)
    requires w < |workers| && next.draws == workers[w].draws + [rand(tick)]
    ensures DrawsOf(workers[w := next]) == Given(rand, tick + 1)
  {
    DrawsUpdated(workers, w, next, rand(tick));
  }

  lemma StepAccounts(rand: Stream, st: State, w: nat)
    requires st.Ok() && Accounted(rand, st)
    ensures Accounted(rand, Step(rand, st, w))
  {
    if w < |st.workers| && !Finished(st.workers[w]) {
      DrawAccounted(rand, st.workers, st.tick, w, Draw(st.workers[w], rand(st.tick)));
    }
  }

  // Every draw of the stream goes to exactly one worker.
  lemma {:induction false} DrawsConserved(rand: Stream, st: State, schedule: seq<nat>)
    requires st.Ok() && Accounted(rand, st)
    ensures Accounted(rand, Run(rand, st, schedule))
  {
    if schedule != [] {
      var n := |schedule| - 1;
      DrawsConserved(rand, st, schedule[..n]);
      StepAccounts(rand, Run(rand, st, schedule[..n]), schedule[n]);
    }
  }

  // ---- Their regions

  // A region to be laid out at random, in pages or (pattern 2) as a whole.
  datatype Job = Job(pattern: nat, active: nat, page: nat, line: nat)

  predicate Fits(job: Job, size: nat) {
    job.pattern != 0 && LayoutFits(job.pattern, size, job.active, job.page, job.line)
  }

  function Lines(job: Job): (n: nat)
    requires 0 < job.line <= job.page && (job.pattern == 2 ==> job.page <= job.active)
    ensures 0 < n
  {
    LinesPositive(job.page, job.line);
    if job.pattern == 2 then
      ActiveLinesPositive(job.active, job.page, job.line);
      ActiveLines(job.active, job.page, job.line)
    else LinesInPage(job.page, job.line)
  }

  // The order the job links, from the sequence its worker has shuffled.
  function Laid(job: Job, s: seq<nat>): seq<nat>
    requires 0 < job.page && 0 < |s|
  {
    if job.pattern == 2 then StartFirst(s) else PageOrder(StartFirst(s), PageCount(job.active, job.page), job.page)
  }

  function Start(jobs: seq<Job>, size: nat): (st: State)
    requires forall k :: 0 <= k < |jobs| ==> Fits(jobs[k], size)
    ensures st.Ok() && |st.workers| == |jobs|
  {
    State(0, seq(|jobs|, k requires 0 <= k < |jobs| && Fits(jobs[k], size) => Begin(Lines(jobs[k]), jobs[k].line)))
  }

  lemma {:induction false} SizesStay(rand: Stream, st: State, schedule: seq<nat>, w: nat)
    requires st.Ok() && w < |st.workers|
    ensures var w' := Run(rand, st, schedule).workers[w]; w'.n == st.workers[w].n && w'.unit == st.workers[w].unit
  {
    if schedule != [] {
      SizesStay(rand, st, schedule[..|schedule| - 1], w);
    }
  }

  // However the workers interleave on the one stream, the region of each that has finished
  // its shuffle is laid out as its own draws say, and is a ring exactly when the sizes make
  // it one. The draws handed out are the stream's, each to one worker.
  lemma SharedStreamRings(rand: Stream, jobs: seq<Job>, schedule: seq<nat>, w: nat, m: seq<Cell>)
    requires (forall k :: 0 <= k < |jobs| ==> Fits(jobs[k], |m|)) && w < |jobs|
    ensures var end := Run(rand, Start(jobs, |m|), schedule);
            && Accounted(rand, end)
            && (Finished(end.workers[w]) ==>
                  var job, order := jobs[w], Laid(jobs[w], end.workers[w].s);
                  && order == LayoutOrder(job.pattern, job.active, job.page, job.line, Own(end.workers[w].draws))
                  && Inside(order, |m|)
                  && (IsRing(Link(m, order, |order|), order)
                      <==> RingFits(job.pattern, job.active, job.page, job.line)))
  {
    var start := Start(jobs, |m|);
    NothingDrawn(start.workers);
    DrawsConserved(rand, start, schedule);
    forall k | 0 <= k < |jobs|
      ensures OnTrack(start.workers[k])
    {
      BeginOnTrack(Lines(jobs[k]), jobs[k].line);
    }
    RunKeepsTrack(rand, start, schedule);
    SizesStay(rand, start, schedule, w);
    var worker, job := Run(rand, start, schedule).workers[w], jobs[w];
    if Finished(worker) {
      FinishedOrder(worker);
      LayoutIsRingIff(m, job.pattern, job.active, job.page, job.line, Own(worker.draws));
    }
  }

  lemma {:induction false} NothingDrawn(workers: seq<Worker>)
    requires forall k :: 0 <= k < |workers| ==> workers[k].draws == []
    ensures DrawsOf(workers) == multiset{}
  {
    if workers != [] {
      NothingDrawn(workers[..|workers| - 1]);
    }
  }
}
