/** The Timer tab (Clock25/Clock.py:103-152) as a pure state machine. The
    entry field's text reaches the model already parsed: `Some(n)` when
    `int()` accepts it, `None` when it raises `ValueError`. */
module TimerTab {
  import opened Wrappers
  import opened Display

  /** `timer_running`, `timer_seconds` and the text of `timer_display`. */
  datatype Timer = Timer(running: bool, seconds: int, display: string)

  /** The state `init_timer` builds: stopped at a count of 0, outside the
      countdown loop, showing a display that reads back as the count. */
  function Init(): (r: Timer)
    ensures !r.running && r.seconds == 0 && r.display == Zero && !Counting(r)
    ensures Parse(r.display) == Some(r.seconds)
  {
    FormatOfZero();
    FormatRoundTrip(0);
    Timer(false, 0, Zero)
  }

  /** `start_timer`: nothing when already running; otherwise the entry is
      read again, and either becomes the count and the timer runs, or the
      display says "Invalid Input" and nothing else changes. */
  function Start(t: Timer, entry: Option<int>): (r: Timer)
    ensures t.running ==> r == t
    ensures !t.running && entry.Some? ==> r.running && r.seconds == entry.value && r.display == t.display
    ensures !t.running && entry.None? ==> !r.running && r.seconds == t.seconds && r.display == InvalidInput
  {
    if t.running then t
    else
      match entry
      case Some(n) => t.(seconds := n, running := true)
      case None => t.(display := InvalidInput)
  }

  /** `pause_timer`: stop, keeping the count and the display; the
      countdown loop's guard fails from then on. */
  function Pause(t: Timer): (r: Timer)
    ensures !r.running && r.seconds == t.seconds && r.display == t.display
    ensures !Counting(r)
  {
    t.(running := false)
  }

  /** `reset_timer`: stop, count zero, display "00:00:00", which reads as
      zero seconds. */
  function Reset(t: Timer): (r: Timer)
    ensures !r.running && r.seconds == 0 && r.display == Zero
    ensures Parse(r.display) == Some(r.seconds)
  {
    FormatOfZero();
    FormatRoundTrip(0);
    Timer(false, 0, Zero)
  }

  /** The guard of the `update_timer` loop. While it holds the timer runs,
      and the text the loop body shows is never the finished "00:00:00". */
  predicate Counting(t: Timer): (b: bool)
    ensures b ==> t.running && Format(t.seconds) != Zero
  {
    FormatZero(t.seconds);
    t.running && t.seconds > 0
  }

  /** One pass of the `update_timer` loop body: show the remaining seconds,
      then count down by one. */
  function Tick(t: Timer): (r: Timer)
    requires Counting(t)
    ensures r.running && 0 <= r.seconds == t.seconds - 1
    ensures Parse(r.display) == Some(t.seconds)
  {
    FormatRoundTrip(t.seconds);
    t.(display := Format(t.seconds), seconds := t.seconds - 1)
  }

  /** `k` passes of the loop body in a row. Countdown termination: from a
      running count `n >= 0` the loop guard still holds after fewer than `n`
      ticks and fails after exactly `n`, when the count is 0; it never goes
      below 0. */
  function Ticks(t: Timer, k: nat): (r: Timer)
    requires t.running && k <= t.seconds
    ensures r.running && r.seconds == t.seconds - k >= 0
    ensures Counting(r) <==> k < t.seconds
    decreases k
  {
    if k == 0 then t else Ticks(Tick(t), k - 1)
  }

  /** The code after the `update_timer` loop: a count of zero shows
      "00:00:00" and stops the timer; any other count (a pause left it
      positive, or the entry was negative) is left alone. */
  function Expire(t: Timer): (r: Timer)
    ensures t.seconds == 0 ==> !r.running && r.seconds == 0 && r.display == Zero
    ensures t.seconds != 0 ==> r == t
  {
    if t.seconds == 0 then t.(display := Zero, running := false) else t
  }

  /** `update_timer` run to its end with no user action in between;
      `shown` lists the texts the loop writes to the display, one per pass.
      A running timer with a non-negative count passes through the loop
      exactly that many times, displaying every count from the start value
      down to 1, and ends stopped at "00:00:00". A negative count never
      enters the loop and the timer stays running. */
  method UpdateTimer(t: Timer) returns (r: Timer, shown: seq<string>)
    ensures |shown| == (if Counting(t) then t.seconds else 0)
    ensures forall i :: 0 <= i < |shown| ==> shown[i] == Format(t.seconds - i)
    ensures t.running && t.seconds >= 0 ==> !r.running && r.seconds == 0 && r.display == Zero
    ensures t.seconds < 0 ==> r == t
    ensures !t.running && t.seconds > 0 ==> r == t
    ensures !t.running && t.seconds == 0 ==> !r.running && r.seconds == 0 && r.display == Zero
  {
    r := t;
    shown := [];
    while Counting(r)
      invariant r.running == t.running
      invariant Counting(t) ==> 0 <= r.seconds == t.seconds - |shown|
      invariant !Counting(t) ==> r == t && shown == []
      invariant forall i :: 0 <= i < |shown| ==> shown[i] == Format(t.seconds - i)
      decreases r.seconds
    {
      var before := shown;
      assert r.seconds == t.seconds - |before|;
      r := Tick(r);
      shown := before + [r.display];
      forall i | 0 <= i < |shown|
        ensures shown[i] == Format(t.seconds - i)
      {
        if i < |before| {
          assert shown[i] == before[i];
        } else {
          assert i == |before| && shown[i] == r.display;
        }
      }
    }
    r := Expire(r);
  }

  /** Reset returns the timer to its start-up state from any state. */
  lemma ResetIsInit(t: Timer)
    ensures Reset(t) == Init()
  {
  }

  /** Pressing Start twice with the same entry is pressing it once, for a
      valid entry (the second press is ignored) and an invalid one (the
      second press fails the same way). */
  lemma StartTwice(t: Timer, entry: Option<int>)
    ensures Start(Start(t, entry), entry) == Start(t, entry)
  {
  }

  /** A pause ends the countdown loop without expiry: the count is kept. */
  lemma PauseStopsCountdown(t: Timer)
    ensures !Counting(Pause(t))
    ensures t.seconds != 0 ==> Expire(Pause(t)) == Pause(t)
  {
  }

  /** Resuming after a pause starts again from the entry, not from the
      count the pause kept. */
  lemma ResumeRereadsEntry(t: Timer, n: int)
    ensures Start(Pause(t), Some(n)) == Timer(true, n, t.display)
  {
  }

  /** A negative entry starts the timer, but the loop never runs and the
      count is not zero, so the timer stays running and further Start
      presses are ignored until Pause or Reset. */
  lemma NegativeEntryStaysRunning(t: Timer, n: int, later: Option<int>)
    requires !t.running && n < 0
    ensures Start(t, Some(n)).running && !Counting(Start(t, Some(n)))
    ensures Expire(Start(t, Some(n))) == Start(t, Some(n))
    ensures Start(Start(t, Some(n)), later) == Start(t, Some(n))
  {
  }
}
