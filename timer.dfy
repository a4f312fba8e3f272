/**
 * The countdown timer of the presentation server: its state record and the
 * once-a-second recomputation of the time left from the wall clock.
 * Times are integers: `startTime` and `now` in milliseconds (as returned by
 * `Date.now()`), `timeLeft` and `totalTime` in seconds.
 */
module Timer {
  import opened Wrappers

  /** The `timerState` object. `startTime` is absent in every state except the
      one `host:startTimer` creates (and what stop/tick leave of it). */
  datatype TimerState = TimerState(running: bool, timeLeft: int, totalTime: int, startTime: Option<int>)

  /** The state the server starts with, and the one `host:resetTimer` installs. */
  const Zeroed := TimerState(false, 0, 0, None)

  /** The state a slide change installs for a slide lasting `duration` seconds. */
  function ForSlide(duration: int): TimerState {
    TimerState(false, duration, duration, None)
  }

  /** The state `host:startTimer(seconds)` installs at time `now`. */
  function Started(seconds: int, now: int): TimerState {
    TimerState(true, seconds, seconds, Some(now))
  }

  /** Only a running timer needs a start time to count from; every handler
      keeps this true. */
  predicate WellFormed(t: TimerState) {
    t.running ==> t.startTime.Some?
  }

  /** The tick only acts on a running timer with time left. */
  predicate Counting(t: TimerState) {
    t.running && t.timeLeft > 0
  }

  /** Whole seconds elapsed since `start`, rounded down (`Math.floor(ms / 1000)`;
      Dafny's `/` by a positive divisor rounds down as well). */
  function ElapsedSeconds(start: int, now: int): int {
    (now - start) / 1000
  }

  /** `Math.max(0, totalTime - elapsed)`: the time left, recomputed from the
      clock rather than counted down. */
  function Remaining(totalTime: int, start: int, now: int): (r: int)
    ensures r >= 0
    ensures start <= now && totalTime >= 0 ==> r <= totalTime
    ensures r > 0 ==> now - start < 1000 * totalTime
  {
    var left := totalTime - ElapsedSeconds(start, now);
    if left > 0 then left else 0
  }

  /** One run of the 1 Hz interval body. */
  function Ticked(t: TimerState, now: int): (r: TimerState)
    requires WellFormed(t)
    ensures WellFormed(r) && r.totalTime == t.totalTime && r.startTime == t.startTime
    ensures !Counting(t) ==> r == t
    ensures Counting(t) ==> r.timeLeft == Remaining(t.totalTime, t.startTime.value, now) && (r.running <==> r.timeLeft > 0)
  {
    if Counting(t) then
      var left := Remaining(t.totalTime, t.startTime.value, now);
      t.(timeLeft := left, running := left != 0)
    else
      t
  }

  /** The states after each of a sequence of ticks at the times `nows`. */
  function TickRun(t: TimerState, nows: seq<int>): (r: seq<TimerState>)
    requires WellFormed(t)
    ensures |r| == |nows|
    ensures forall i :: 0 <= i < |r| ==> WellFormed(r[i])
    decreases |nows|
  {
    if nows == [] then []
    else
      var next := Ticked(t, nows[0]);
      [next] + TickRun(next, nows[1..])
  }

  predicate NonDecreasing(nows: seq<int>) {
    forall i, j :: 0 <= i < j < |nows| ==> nows[i] <= nows[j]
  }

  /** The recomputed time left never grows as the clock advances. */
  lemma RemainingNonIncreasing(totalTime: int, start: int, earlier: int, later: int)
    requires earlier <= later
    ensures Remaining(totalTime, start, later) <= Remaining(totalTime, start, earlier)
  {
  }

  /** The time left depends only on the whole seconds elapsed on the clock:
      at `k` seconds and `ms` milliseconds after the start it is `max(0, total - k)`. */
  lemma RemainingAfter(totalTime: int, start: int, k: nat, ms: int)
    requires 0 <= ms < 1000
    ensures Remaining(totalTime, start, start + 1000 * k + ms) == if totalTime - k > 0 then totalTime - k else 0
  {
  }

  /** The state of a timer started at `start` with `seconds`, after a tick at
      `clock`: the time left is what the clock says, and it stops running
      exactly when that reaches 0 (a timer started with 0 is never ticked and
      stays running). */
  ghost predicate Tracks(t: TimerState, seconds: int, start: int, clock: int) {
    && t.totalTime == seconds
    && t.startTime == Some(start)
    && start <= clock
    && t.timeLeft == Remaining(seconds, start, clock)
    && t.running == (seconds == 0 || t.timeLeft != 0)
  }

  /** A freshly started timer (with a non-negative count) tracks the clock. */
  lemma StartedTracks(seconds: int, now: int)
    requires seconds >= 0
    ensures Tracks(Started(seconds, now), seconds, now, now)
  {
  }

  /** One tick at a later time keeps the timer in step with the clock, never
      raises the time left, and is silent once the count has reached 0. */
  lemma TickTracks(t: TimerState, seconds: int, start: int, clock: int, now: int)
    requires Tracks(t, seconds, start, clock) && clock <= now
    ensures Tracks(Ticked(t, now), seconds, start, now)
    ensures Ticked(t, now).timeLeft <= t.timeLeft
    ensures Counting(t) <==> t.timeLeft > 0
    ensures t.timeLeft == 0 ==> Ticked(t, now) == t
  {
  }

  /** Two states that track the same start at two clock readings: the later
      one has no more time left, and once the earlier one reached 0 the later
      one is the same state. */
  lemma TracksOrdered(a: TimerState, b: TimerState, seconds: int, start: int, ca: int, cb: int)
    requires Tracks(a, seconds, start, ca) && Tracks(b, seconds, start, cb) && ca <= cb
    ensures b.timeLeft <= a.timeLeft
    ensures a.timeLeft == 0 ==> b == a
  {
    RemainingNonIncreasing(seconds, start, ca, cb);
  }

  /** Every state of a run of ticks at non-decreasing clock readings tracks
      the clock at its reading. */
  lemma {:induction false} TicksTrack(t: TimerState, seconds: int, start: int, clock: int, nows: seq<int>)
    requires Tracks(t, seconds, start, clock)
    requires NonDecreasing(nows) && (nows != [] ==> clock <= nows[0])
    decreases |nows|
    ensures WellFormed(t)
    ensures var r := TickRun(t, nows);
      forall i :: 0 <= i < |r| ==> Tracks(r[i], seconds, start, nows[i])
  {
    if nows != [] {
      var next := Ticked(t, nows[0]);
      TickTracks(t, seconds, start, clock, nows[0]);
      var rest := nows[1..];
      assert NonDecreasing(rest);
      assert rest != [] ==> nows[0] <= rest[0];
      TicksTrack(next, seconds, start, nows[0], rest);
      var r := TickRun(t, nows);
      var tail := TickRun(next, rest);
      assert r == [next] + tail;
      forall i | 0 <= i < |r|
        ensures Tracks(r[i], seconds, start, nows[i])
      {
        if i > 0 { assert r[i] == tail[i - 1] && nows[i] == rest[i - 1]; }
      }
    }
  }

  /** Drift-freedom of the countdown: for any non-decreasing tick schedule of
      a timer that tracks its start (no reading before the last one), each tick
      leaves exactly the time the clock gives for that instant, the values
      never increase, and after the tick that reaches 0 every later tick
      changes nothing (and, not counting, emits nothing). */
  lemma {:induction false} TicksFollowClock(t: TimerState, seconds: int, start: int, clock: int, nows: seq<int>)
    requires Tracks(t, seconds, start, clock)
    requires NonDecreasing(nows) && (nows != [] ==> clock <= nows[0])
    ensures WellFormed(t)
    ensures var r := TickRun(t, nows);
      && (forall i :: 0 <= i < |r| ==> Tracks(r[i], seconds, start, nows[i]))
      && (forall i :: 0 <= i < |r| ==> r[i].timeLeft <= t.timeLeft)
      && (forall i, j :: 0 <= i < j < |r| ==> r[j].timeLeft <= r[i].timeLeft)
      && (forall i, j :: 0 <= i < j < |r| && r[i].timeLeft == 0 ==> r[j] == r[i])
  {
    TicksTrack(t, seconds, start, clock, nows);
    var r := TickRun(t, nows);
    forall i | 0 <= i < |r|
      ensures r[i].timeLeft <= t.timeLeft
    {
      if i > 0 { assert nows[0] <= nows[i]; }
      TracksOrdered(t, r[i], seconds, start, clock, nows[i]);
    }
    forall i, j | 0 <= i < j < |r|
      ensures r[j].timeLeft <= r[i].timeLeft
      ensures r[i].timeLeft == 0 ==> r[j] == r[i]
    {
      TracksOrdered(r[i], r[j], seconds, start, nows[i], nows[j]);
    }
  }

}
