/** The Stopwatch tab (Clock25/Clock.py:58-101) as a pure state machine.
    Every clock reading `time.time()` is an explicit parameter `now`, a
    real number of seconds. */
module StopwatchTab {
  import opened Wrappers
  import opened Display

  /** `sw_running`, `sw_start_time`, `sw_elapsed` and the text of `sw_display`. */
  datatype Stopwatch = Stopwatch(running: bool, startTime: real, elapsed: real, display: string)

  /** The state `init_stopwatch` builds: stopped, valid at any time,
      reading 0 at every time, and showing the display of 0 seconds. */
  function Init(): (sw: Stopwatch)
    ensures !sw.running
    ensures forall now: real :: Valid(sw, now) && Reading(sw, now) == 0.0
    ensures Parse(sw.display) == Some(0)
  {
    FormatOfZero();
    FormatRoundTrip(0);
    Stopwatch(false, 0.0, 0.0, Zero)
  }

  /** The state is sensible at time `now`: the banked time is not negative,
      and a running segment did not start in the future. */
  predicate Valid(sw: Stopwatch, now: real) {
    sw.elapsed >= 0.0 && (sw.running ==> sw.startTime <= now)
  }

  /** The elapsed time at `now`: `now - sw_start_time + sw_elapsed` while
      running, and the banked `sw_elapsed` once paused. */
  function Reading(sw: Stopwatch, now: real): (r: real)
    ensures Valid(sw, now) ==> r >= sw.elapsed >= 0.0
    ensures !sw.running ==> r == sw.elapsed
  {
    if sw.running then now - sw.startTime + sw.elapsed else sw.elapsed
  }

  /** `start_stopwatch`: nothing when already running; otherwise a new
      segment begins at `now` and the banked time is kept. */
  function Start(sw: Stopwatch, now: real): (r: Stopwatch)
    ensures r.running
    ensures sw.running ==> r == sw
    ensures !sw.running ==> r.startTime == now
    ensures r.elapsed == sw.elapsed && r.display == sw.display
    ensures Reading(r, now) == Reading(sw, now)
  {
    if sw.running then sw else sw.(running := true, startTime := now)
  }

  /** `pause_stopwatch`: when running, the segment `now - sw_start_time`
      is banked and the watch stops; otherwise nothing changes. */
  function Pause(sw: Stopwatch, now: real): (r: Stopwatch)
    ensures !r.running
    ensures !sw.running ==> r == sw
    ensures sw.running ==> r.elapsed == sw.elapsed + (now - sw.startTime)
    ensures r.startTime == sw.startTime && r.display == sw.display
    ensures forall later :: Reading(r, later) == Reading(sw, now)
  {
    if sw.running then sw.(elapsed := sw.elapsed + (now - sw.startTime), running := false) else sw
  }

  /** `reset_stopwatch`: from any state the watch is stopped, the banked
      time is zero and the display shows "00:00:00"; `sw_start_time` is
      left as it was. */
  function Reset(sw: Stopwatch): (r: Stopwatch)
    ensures !r.running && r.elapsed == 0.0 && r.display == Zero
    ensures r.startTime == sw.startTime
    ensures forall now :: Reading(r, now) == 0.0
    ensures Parse(r.display) == Some(0)
  {
    FormatOfZero();
    FormatRoundTrip(0);
    sw.(running := false, elapsed := 0.0, display := Zero)
  }

  /** Python's `int()` on a float: truncation toward zero. */
  function Trunc(x: real): (n: int)
    ensures x >= 0.0 ==> 0 <= n && n as real <= x < n as real + 1.0
    ensures x < 0.0 ==> n <= 0 && n as real - 1.0 < x <= n as real
  {
    if x >= 0.0 then x.Floor else -((-x).Floor)
  }

  /** One pass of the `update_stopwatch` loop: while running, the display
      shows the whole seconds of the reading; a stopped watch's loop has
      exited and changes nothing. */
  function Refresh(sw: Stopwatch, now: real): (r: Stopwatch)
    ensures r.running == sw.running && r.startTime == sw.startTime && r.elapsed == sw.elapsed
    ensures !sw.running ==> r == sw
    ensures sw.running && Valid(sw, now) ==>
      exists n: nat :: Parse(r.display) == Some(n) && n as real <= Reading(sw, now) < n as real + 1.0
  {
    if sw.running then
      var n := Trunc(now - sw.startTime + sw.elapsed);
      if n >= 0 then FormatRoundTrip(n); sw.(display := Format(n))
      else sw.(display := Format(n))
    else sw
  }

  // ---------------------------------------------------------------------
  // Sequences of button presses

  /** A press of Start or Pause at a clock reading. */
  datatype Event = StartAt(at: real) | PauseAt(at: real)

  function Apply(sw: Stopwatch, e: Event): Stopwatch {
    match e
    case StartAt(t) => Start(sw, t)
    case PauseAt(t) => Pause(sw, t)
  }

  /** The state after the presses `es`, in order. */
  function Run(sw: Stopwatch, es: seq<Event>): Stopwatch
    decreases |es|
  {
    if |es| == 0 then sw else Run(Apply(sw, es[0]), es[1..])
  }

  /** The presses happen at non-decreasing clock readings. */
  predicate Chronological(es: seq<Event>) {
    forall i, j :: 0 <= i <= j < |es| ==> es[i].at <= es[j].at
  }

  /** Reference definition of the time spent running: between two
      consecutive presses the watch runs exactly when the earlier one was
      Start (Start and Pause are both idempotent, so the last press alone
      decides). */
  function RunningTime(es: seq<Event>): real
    decreases |es|
  {
    if |es| < 2 then 0.0
    else (if es[0].StartAt? then es[1].at - es[0].at else 0.0) + RunningTime(es[1..])
  }

  /** After a non-empty run of presses the watch runs iff the last was Start. */
  lemma {:induction false} RunRunning(sw: Stopwatch, es: seq<Event>)
    requires |es| > 0
    ensures Run(sw, es).running <==> es[|es| - 1].StartAt?
    decreases |es|
  {
    if |es| > 1 {
      RunRunning(Apply(sw, es[0]), es[1..]);
      assert es[1..][|es[1..]| - 1] == es[|es| - 1];
    }
  }

  /** Segment accumulation: the reading at the last press equals the
      reading at the first plus the total running time in between, however
      often Start and Pause alternate. */
  lemma {:induction false} Accumulation(sw: Stopwatch, es: seq<Event>)
    requires |es| > 0
    ensures Reading(Run(sw, es), es[|es| - 1].at) == Reading(sw, es[0].at) + RunningTime(es)
    decreases |es|
  {
    var s1 := Apply(sw, es[0]);
    if |es| == 1 {
      assert Run(sw, es) == Run(s1, []);
    } else {
      Accumulation(s1, es[1..]);
      assert es[1..][|es[1..]| - 1] == es[|es| - 1];
      assert s1.running <==> es[0].StartAt?;
      assert Reading(s1, es[1].at) == Reading(sw, es[0].at) + (if es[0].StartAt? then es[1].at - es[0].at else 0.0);
    }
  }

  /** A stopped watch that goes through presses ending in Pause has banked
      exactly its old total plus the lengths of all running segments. */
  lemma SegmentsBanked(sw: Stopwatch, es: seq<Event>)
    requires !sw.running && |es| > 0 && es[|es| - 1].PauseAt?
    ensures !Run(sw, es).running
    ensures Run(sw, es).elapsed == sw.elapsed + RunningTime(es)
  {
    RunRunning(sw, es);
    Accumulation(sw, es);
  }

  /** With chronological presses the state stays valid, and the banked
      time never decreases. */
  lemma {:induction false} RunMonotone(sw: Stopwatch, es: seq<Event>)
    requires Chronological(es)
    requires |es| > 0 ==> Valid(sw, es[0].at)
    ensures |es| > 0 ==> Valid(Run(sw, es), es[|es| - 1].at)
    ensures Run(sw, es).elapsed >= sw.elapsed
    decreases |es|
  {
    if |es| > 0 {
      var s1 := Apply(sw, es[0]);
      assert Valid(s1, es[0].at) && s1.elapsed >= sw.elapsed;
      if |es| > 1 {
        assert Valid(s1, es[1].at);
        RunMonotone(s1, es[1..]);
        assert es[1..][|es[1..]| - 1] == es[|es| - 1];
      }
    }
  }

  lemma {:induction false} RunAppend(sw: Stopwatch, a: seq<Event>, b: seq<Event>)
    ensures Run(sw, a + b) == Run(Run(sw, a), b)
    decreases |a|
  {
    if |a| > 0 {
      assert (a + b)[1..] == a[1..] + b;
      RunAppend(Apply(sw, a[0]), a[1..], b);
    } else {
      assert a + b == b;
    }
  }

  lemma ChronologicalSlice(es: seq<Event>, i: nat, j: nat)
    requires Chronological(es) && i <= j <= |es|
    ensures Chronological(es[i..j])
  {
    forall k, l | 0 <= k <= l < j - i
      ensures es[i..j][k].at <= es[i..j][l].at
    {
      assert es[i..j][k] == es[i + k] && es[i..j][l] == es[i + l];
    }
  }

  /** The banked time never decreases along a chronological run: it is no
      smaller after any longer prefix of the presses. */
  lemma ElapsedNeverDecreases(sw: Stopwatch, es: seq<Event>, i: nat, j: nat)
    requires Chronological(es) && i <= j <= |es|
    requires |es| > 0 && Valid(sw, es[0].at)
    ensures 0.0 <= Run(sw, es[..i]).elapsed <= Run(sw, es[..j]).elapsed
  {
    assert es[..j] == es[..i] + es[i..j];
    RunAppend(sw, es[..i], es[i..j]);
    ChronologicalSlice(es, 0, i);
    ChronologicalSlice(es, i, j);
    assert es[0..i] == es[..i];
    RunMonotone(sw, es[..i]);
    var mid := Run(sw, es[..i]);
    if i < j {
      if i > 0 {
        assert es[..i][i - 1] == es[i - 1];
      }
      assert Valid(mid, es[i].at);
    }
    RunMonotone(mid, es[i..j]);
  }

  /** Starting twice in a row is starting once. */
  lemma StartIdempotent(sw: Stopwatch, t1: real, t2: real)
    ensures Start(Start(sw, t1), t2) == Start(sw, t1)
  {
  }

  /** Reset forgets everything but `sw_start_time`. */
  lemma ResetForgets(a: Stopwatch, b: Stopwatch)
    requires a.startTime == b.startTime
    ensures Reset(a) == Reset(b)
  {
  }

  /** Start at 0, pause at 5, start at 10, pause at 13: 8 seconds are banked. */
  lemma TwoSegments()
    ensures Run(Init(), [StartAt(0.0), PauseAt(5.0), StartAt(10.0), PauseAt(13.0)]).elapsed == 8.0
  {
    var es := [StartAt(0.0), PauseAt(5.0), StartAt(10.0), PauseAt(13.0)];
    SegmentsBanked(Init(), es);
    assert RunningTime(es) == 8.0 by {
      assert es[1..][1..][1..] == [PauseAt(13.0)];
    }
  }
}
