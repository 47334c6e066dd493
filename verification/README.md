# Clock25 stopwatch and timer, modelled in Dafny

Clock25 is a desktop clock with four tabs: local time, world clocks, a
stopwatch and a countdown timer. This project models the logic behind the
Stopwatch and Timer tabs (`Clock25/Clock.py`). It treats each tab as an
immutable state record with pure transition functions. The clock reading
`time.time()` becomes an explicit parameter `now`.

- `wrappers.dfy` (`Wrappers`): the `Option` type.
- `display.dfy` (`Display`): the `HH:MM:SS` text both tabs show. It covers
  the two `divmod(…, 60)` calls (`Decompose`) and Python's `{n:02d}`
  rendering (`Pad2`, `Format`). `Parse` reads a display back into seconds.
  It accepts only `HH:MM:SS` texts whose minutes and seconds lie in 00..59
  and whose hours have no leading zero beyond the padding. The round-trip
  lemmas are stated with it: a count's display reads back as the count, and
  it is the only text that does.
- `stopwatch.dfy` (`StopwatchTab`): the state `sw_running`, `sw_start_time`,
  `sw_elapsed` and the display text. It has `Start`, `Pause`, `Reset`, the
  reading `now - sw_start_time + sw_elapsed`, and one pass of the
  `update_stopwatch` loop (`Refresh`). Sequences of Start/Pause presses
  (`Run`) are proved to agree with an independent reference total of
  running time (`RunningTime`). That total is the sum, over consecutive presses, of
  the gap after each Start.
- `timer.dfy` (`TimerTab`): the state `timer_running`, `timer_seconds` and
  the display text. It has `Start` (given the entry already parsed), `Pause`
  and `Reset`. The `update_timer` loop is split into its body `Tick`, its
  after-loop code `Expire`, and the whole loop `UpdateTimer`, which also
  returns the texts the loop writes to the display.

Timestamps are real numbers of seconds. Python's `int(elapsed)` is
truncation toward zero (`Trunc`). Python's `divmod` by 60 floors, and for
the positive divisor 60 it agrees with Dafny's Euclidean `/` and `%`, also
for negative arguments.

The model keeps these behaviours of the code:
- The timer counts down by decrementing `timer_seconds` once per pass of
  its loop (Clock.py:132).
- Start with an entry of 0 starts the timer. The loop does not run, and the
  after-loop code stops it at "00:00:00" (Clock.py:133-135).
- Start with a negative entry starts the timer. The loop never runs and
  `timer_running` stays true, because the count is not 0 at Clock.py:133.
- An unparsable entry leaves `timer_seconds` unchanged and only shows
  "Invalid Input" (Clock.py:140-144).
- Each Start press reads the entry again (Clock.py:140). So resuming after
  a pause restarts from the entry value.
- `reset_stopwatch` keeps `sw_start_time` (Clock.py:98-101).

## Model

| member | source | states |
|---|---|---|
| `Display.Decompose` | Clock25/Clock.py:82-83 | the hours, minutes and seconds put back together give the input; minutes and seconds lie in 0..59; hours are non-negative exactly when the input is |
| `Display.DecomposeUnique` | Clock25/Clock.py:82-83 | any decomposition with minutes and seconds in 0..59 is the one `divmod` produces for its total |
| `Display.Pad2` | Clock25/Clock.py:84 | `{n:02d}` is at least two characters; a non-negative part is all digits that read back as the part, a padding zero and one digit below 10, two digits up to 99, and no leading zero from 10 on, so exactly Python's digits; a negative part is a minus sign followed by the digits of its magnitude |
| `Display.Format` | Clock25/Clock.py:82-84 | the text shown for a count (by the stopwatch here and by the timer at line 130) is an hours field, a colon, two characters, a colon and two characters; it starts with a digit for a non-negative count and with a minus sign for a negative one; for a non-negative count it is pinned exactly by `FormatExact` |
| `Display.FormatRoundTrip` | Clock25/Clock.py:82-84 | the `HH:MM:SS` text of any non-negative count of seconds reads back as that count |
| `Display.ParseExact` | Clock25/Clock.py:82-84 | any text that reads back as a count is that count's `HH:MM:SS` display, with minutes and seconds in 00..59 and no extra leading zeros |
| `Display.FormatExact` | Clock25/Clock.py:82-84 | for a non-negative count, a text reads back as the count exactly when it is the count's display |
| `Display.ParseRejectsNonDisplays` | Clock25/Clock.py:82-84 | the reader rejects "00:00:65", "00:65:00" and "000:01:05": minutes or seconds of 60 and more and extra leading zeros on the hours never read back as a count |
| `Display.FormatInjective` | Clock25/Clock.py:82-84 | two non-negative counts give the same text exactly when they are equal |
| `Display.FormatZero` | Clock25/Clock.py:98-101 | "00:00:00" is the display of 0 seconds and of no other integer, negative ones included |
| `Display.FormatNotInvalid` | Clock25/Clock.py:143-144 | "Invalid Input" is never the display of a count |
| `StopwatchTab.Init` | Clock25/Clock.py:59-64 | the start-up stopwatch is stopped, valid and reading 0 at every time, and shows a display that reads as 0 |
| `StopwatchTab.Reading` | Clock25/Clock.py:79-81 | in a valid state the reading is at least the banked `sw_elapsed`, which is non-negative; a stopped watch reads exactly its banked time |
| `StopwatchTab.Start` | Clock25/Clock.py:87-91 | afterwards the watch runs; a running watch is unchanged; otherwise the segment starts at `now`; banked time and display are kept; the reading at `now` is unchanged |
| `StopwatchTab.Pause` | Clock25/Clock.py:93-96 | afterwards the watch is stopped; a running watch banks `now - sw_start_time`; a stopped one is unchanged; the reading is frozen at its value at `now` for every later time |
| `StopwatchTab.Reset` | Clock25/Clock.py:98-101 | from any state: stopped, banked time 0, reading 0 at every time, display "00:00:00" that reads as 0; `sw_start_time` kept |
| `StopwatchTab.Trunc` | Clock25/Clock.py:82 | `int()` truncates toward zero: for x >= 0 the result n satisfies n <= x < n + 1, and for x < 0 it satisfies n - 1 < x <= n <= 0 |
| `StopwatchTab.Refresh` | Clock25/Clock.py:79-85 | a pass of the display loop changes only the display, and only while running; in a valid running state the display reads as the whole seconds of the reading, which by `FormatExact` makes it exactly their `HH:MM:SS` text |
| `StopwatchTab.RunRunning` | Clock25/Clock.py:87-96 | after any non-empty sequence of Start/Pause presses the watch runs exactly when the last press was Start |
| `StopwatchTab.Accumulation` | Clock25/Clock.py:81-96 | the reading at the last press equals the reading at the first plus the reference running time, for any alternation of presses |
| `StopwatchTab.SegmentsBanked` | Clock25/Clock.py:93-96 | a stopped watch put through presses ending with Pause is stopped and has banked its old total plus the sum of the running segments |
| `StopwatchTab.RunMonotone` | Clock25/Clock.py:93-96 | with chronological presses from a valid state the state stays valid and the banked time does not decrease |
| `StopwatchTab.ElapsedNeverDecreases` | Clock25/Clock.py:93-96 | along chronological presses the banked time after any prefix is non-negative and no larger than after any longer prefix |
| `StopwatchTab.StartIdempotent` | Clock25/Clock.py:87-91 | pressing Start twice in a row has the effect of pressing it once |
| `StopwatchTab.ResetForgets` | Clock25/Clock.py:98-101 | reset forgets every part of the state except `sw_start_time` |
| `StopwatchTab.TwoSegments` | Clock25/Clock.py:87-96 | start at 0, pause at 5, start at 10, pause at 13 banks 8 seconds |
| `TimerTab.Init` | Clock25/Clock.py:104-111 | the start-up timer is stopped at a count of 0 with display "00:00:00", which reads back as the count, and the countdown loop's guard fails |
| `TimerTab.Start` | Clock25/Clock.py:137-144 | a running timer is unchanged; otherwise a parsed entry becomes the count and the timer runs, and a failed parse leaves it stopped with its count and shows "Invalid Input" |
| `TimerTab.Pause` | Clock25/Clock.py:146-147 | the timer stops with its count and display kept, and the countdown loop's guard fails |
| `TimerTab.Reset` | Clock25/Clock.py:149-152 | from any state: stopped, count 0, display "00:00:00", and the display reads back as the count |
| `TimerTab.Counting` | Clock25/Clock.py:127-130 | while the countdown loop's guard holds the timer is running, and the text the loop body shows is never the finished "00:00:00" |
| `TimerTab.Tick` | Clock25/Clock.py:127-132 | a pass of the loop body lowers a positive count by exactly 1, never below 0, keeps the timer running, and shows text that reads as the count before the decrement, which by `FormatExact` is exactly that count's `HH:MM:SS` text |
| `TimerTab.Ticks` | Clock25/Clock.py:126-132 | after k passes from a running count n >= k the count is n - k >= 0 and the loop guard still holds exactly when k < n, so the loop stops after exactly n passes |
| `TimerTab.Expire` | Clock25/Clock.py:133-135 | after the loop a count of 0 stops the timer and shows "00:00:00"; any other count leaves the state alone |
| `TimerTab.UpdateTimer` | Clock25/Clock.py:126-135 | a running non-negative count passes through the loop exactly that many times, writing on pass i the text of the start count minus i, so every count from the start down to 1 in order, then stops at 0 with "00:00:00"; a negative count leaves the timer untouched (a running one stays running); a stopped timer does not tick, and one stopped at 0 shows "00:00:00" |
| `TimerTab.ResetIsInit` | Clock25/Clock.py:104-106 | reset from any state gives exactly the start-up state |
| `TimerTab.StartTwice` | Clock25/Clock.py:137-144 | two Start presses with the same entry have the effect of one, for valid and invalid entries alike |
| `TimerTab.PauseStopsCountdown` | Clock25/Clock.py:127-135 | after a pause the loop guard fails, and a non-zero count is not expired |
| `TimerTab.ResumeRereadsEntry` | Clock25/Clock.py:137-147 | Start after Pause runs from the entry value, discarding the paused count |
| `TimerTab.NegativeEntryStaysRunning` | Clock25/Clock.py:126-141 | a negative entry starts the timer, the loop guard fails, expiry does not fire, and later Start presses are ignored |

## Left out

- Local time and world clocks (Clock.py:31-56): these only format `datetime.now` and `pytz` time-zone lookups, so there is nothing to verify.
- Widget construction and layout (Clock.py:12-28, 64-77, 108-124): GUI only. The only `after` rescheduling (Clock.py:39, 56) belongs to the clocks on the line above.
- Daemon threads and `time.sleep` (Clock.py:85, 91, 131, 142): every transition is one atomic step. A pause that lands while the timer thread sleeps is covered: `Tick` shows the count and then decrements it, so `Tick`, then `Pause`, then the failed guard and `Expire` is what Clock.py:127-135 does, including expiry to "00:00:00" when the pause lands on the last second. Two cases are not modelled: a reset that lands while the thread sleeps (see `ResetIsInit` below), and a second timer thread started while an old one sleeps.
- `ResetIsInit`: holds for reset as one atomic step, not for the running program. After `reset_timer` during a countdown, the sleeping thread wakes and takes `timer_seconds` from 0 to -1 (Clock.py:132), and the `timer_seconds == 0` branch at Clock.py:133 then does not fire.
- `UpdateTimer`: runs the loop with no user action in between. Pauses that land between ticks are covered only by `Tick`, `Ticks`, `Pause` and `PauseStopsCountdown` on their own.
- Floating point: `time.time()` values are exact reals, so rounding in `now - sw_start_time + sw_elapsed` is not modelled.
- Python's `int()` on the entry text (Clock.py:140): the entry arrives as `Option<int>` (`None` for `ValueError`), because `int()` accepts whitespace, signs, underscores and non-ASCII digits.
- `Refresh`: states what the display reads as only for valid states. If the clock ran backwards the reading would be negative; the display text for that case is modelled (`Pad2` puts a minus sign on the hours), but `Parse` does not read it back.
- The 0.5-second and 1-second refresh cadence: only the order of the steps is modelled, not their timing.
