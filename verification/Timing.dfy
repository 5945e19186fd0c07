/** The stopwatch of the workers: start, end and resume, in nanoseconds of a given clock. */
module Timing {

  datatype Watch = Watch(begin: int, end: int, elapsed: int)

  // Readings of the clock taken by each call; resuming reads no clock.
  datatype Event = Start(now: int) | End(now: int) | Resume

  function Step(w: Watch, e: Event): Watch {
    match e
    case Start(now) => w.(begin := now)
    case End(now) => w.(end := now, elapsed := w.elapsed + (now - w.begin))
    case Resume => w.(begin := w.end)
  }

  function Play(w: Watch, events: seq<Event>): Watch {
    if events == [] then w else Step(Play(w, events[..|events| - 1]), events[|events| - 1])
  }

  // start at `first`, then end/resume at each of the readings, the last without a resume.
  function Laps(first: int, readings: seq<int>): seq<Event> {
    if readings == [] then [Start(first)]
    else if |readings| == 1 then [Start(first), End(readings[0])]
    else Laps(first, readings[..|readings| - 1]) + [Resume, End(readings[|readings| - 1])]
  }

  lemma PlayLast(w: Watch, events: seq<Event>, e: Event)
    ensures Play(w, events + [e]) == Step(Play(w, events), e)
  {
    assert (events + [e])[..|events|] == events;
  }

  // Time conservation: the laps add up to the last reading minus the first, whatever the
  // readings in between, with no gap and nothing counted twice.
  lemma {:induction false} LapsTelescope(w: Watch, first: int, readings: seq<int>)
    requires readings != []
    ensures Play(w, Laps(first, readings)).elapsed == w.elapsed + readings[|readings| - 1] - first
    ensures Play(w, Laps(first, readings)).end == readings[|readings| - 1]
  {
    var n := |readings|;
    if n == 1 {
      PlayLast(w, [Start(first)], End(readings[0]));
      PlayLast(w, [], Start(first));
      assert Laps(first, readings) == [Start(first)] + [End(readings[0])];
      assert [Start(first)] == [] + [Start(first)];
    } else {
      var before := Laps(first, readings[..n - 1]);
      LapsTelescope(w, first, readings[..n - 1]);
      PlayLast(w, before, Resume);
      PlayLast(w, before + [Resume], End(readings[n - 1]));
      assert Laps(first, readings) == before + [Resume] + [End(readings[n - 1])];
    }
  }

  class Timer {
    var watch: Watch

    constructor ()
      ensures watch == Watch(0, 0, 0)
    {
      watch := Watch(0, 0, 0);
    }

    method StartTimer(now: int)
      modifies this
      ensures watch == Step(old(watch), Start(now))
    {
      watch := watch.(begin := now);
    }

    method EndTimer(now: int)
      modifies this
      ensures watch == Step(old(watch), End(now))
    {
      watch := watch.(end := now);
      var diff := watch.end - watch.begin;
      watch := watch.(elapsed := watch.elapsed + diff);
    }

    method ResumeTimer()
      modifies this
      ensures watch == Step(old(watch), Resume)
    {
      watch := watch.(begin := watch.end);
    }
  }
}
