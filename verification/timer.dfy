/** One timer of Common/Timer.cs as a value with total operations.

    The C# reads the world clock itself (`Time.time`, or
    `Time.realtimeSinceStartup` for a real-time timer); here the caller passes
    that reading as `now`. Seconds are `real`, so float rounding is not
    modelled. The completion and update callbacks are not run: `Update`
    reports them as events instead. */
module Timers {

  import opened Wrappers

  /** The optional auto-destroy owner; the host marks it destroyed. */
  datatype Owner = NoOwner | OwnerAlive | OwnerDestroyed

  datatype Timer = Timer(
    duration: real,
    isLooped: bool,
    usesRealTime: bool,
    isCompleted: bool,
    startTime: real,
    lastUpdateTime: real,
    elapsedBeforeCancel: Option<real>,
    elapsedBeforePause: Option<real>,
    owner: Owner)
  {
    predicate IsPaused() { elapsedBeforePause.Some? }

    predicate IsCancelled() { elapsedBeforeCancel.Some? }

    predicate IsOwnerDestroyed() { owner == OwnerDestroyed }

    predicate IsDone() { isCompleted || IsCancelled() || IsOwnerDestroyed() }

    /** The world time at which the current cycle ends. */
    function FireTime(): real { startTime + duration }
  }

  /** The two clocks of the engine at one frame. */
  datatype Clock = Clock(gameTime: real, realTime: real)

  /** `GetWorldTime`: the clock the timer was registered against. */
  function WorldTime(t: Timer, c: Clock): real {
    if t.usesRealTime then c.realTime else c.gameTime
  }

  /** Snapshots and durations a timer can hold once it has run for a while:
      a non-negative duration, snapshots taken within it, and a start no later
      than the last update. */
  ghost predicate WellFormed(t: Timer) {
    && 0.0 <= t.duration
    && t.startTime <= t.lastUpdateTime
    && (t.elapsedBeforeCancel.Some? ==> 0.0 <= t.elapsedBeforeCancel.value <= t.duration)
    && (t.elapsedBeforePause.Some? ==> 0.0 <= t.elapsedBeforePause.value <= t.duration)
  }

  /** The private constructor: the timer starts, and was last updated, at the
      current world time; it is neither paused, cancelled nor completed. */
  function NewTimer(duration: real, isLooped: bool, usesRealTime: bool, hasOwner: bool, c: Clock): (t: Timer)
    ensures !t.IsDone() && !t.IsPaused()
    ensures (t.owner != NoOwner) == hasOwner
    ensures t.duration == duration && t.isLooped == isLooped && t.usesRealTime == usesRealTime
    ensures t.startTime == t.lastUpdateTime == WorldTime(t, c)
    ensures t.FireTime() == WorldTime(t, c) + duration
    ensures 0.0 <= duration ==> WellFormed(t)
  {
    var now := if usesRealTime then c.realTime else c.gameTime;
    Timer(duration, isLooped, usesRealTime, false, now, now, None, None,
          if hasOwner then OwnerAlive else NoOwner)
  }

  /** The host destroyed the timer's owner: the timer is done from now on if
      it had one. */
  function DestroyOwner(t: Timer): (r: Timer)
    ensures t.owner != NoOwner ==> r.IsDone()
    ensures t.owner == NoOwner ==> r == t
    ensures r == t.(owner := r.owner)
  {
    if t.owner == OwnerAlive then t.(owner := OwnerDestroyed) else t
  }

  /** `GetTimeElapsed`: the full duration once the timer has completed or its
      fire time has come; before that the cancel snapshot, else the pause
      snapshot, else the time since the cycle started. */
  function Elapsed(t: Timer, now: real): (r: real)
    ensures t.isCompleted || now >= t.FireTime() ==> r == t.duration
    ensures !t.isCompleted && now < t.FireTime() && !t.IsCancelled() && !t.IsPaused() ==>
      r == now - t.startTime
    ensures !t.isCompleted && now < t.FireTime() && t.IsCancelled() ==> r == t.elapsedBeforeCancel.value
    ensures !t.isCompleted && now < t.FireTime() && !t.IsCancelled() && t.IsPaused() ==>
      r == t.elapsedBeforePause.value
    ensures WellFormed(t) && t.startTime <= now ==> 0.0 <= r <= t.duration
  {
    if t.isCompleted || now >= t.FireTime() then t.duration
    else t.elapsedBeforeCancel.GetOr(t.elapsedBeforePause.GetOr(now - t.startTime))
  }

  /** `GetTimeRemaining`: nothing is left once the timer completed or its fire
      time passed; a running timer has exactly the time until it fires. */
  function Remaining(t: Timer, now: real): (r: real)
    ensures t.isCompleted || now >= t.FireTime() ==> r == 0.0
    ensures !t.isCompleted && now < t.FireTime() && !t.IsCancelled() && !t.IsPaused() ==>
      r == t.FireTime() - now
    ensures !t.isCompleted && now < t.FireTime() && t.IsCancelled() ==>
      r == t.duration - t.elapsedBeforeCancel.value
    ensures !t.isCompleted && now < t.FireTime() && !t.IsCancelled() && t.IsPaused() ==>
      r == t.duration - t.elapsedBeforePause.value
    ensures WellFormed(t) && t.startTime <= now ==> 0.0 <= r <= t.duration
  {
    t.duration - Elapsed(t, now)
  }

  /** `Pause`: a paused or done timer is left alone; otherwise the current
      elapsed time is kept as the pause snapshot and nothing else changes. */
  function Pause(t: Timer, now: real): (r: Timer)
    ensures t.IsPaused() || t.IsDone() ==> r == t
    ensures !t.IsPaused() && !t.IsDone() ==>
      && r.IsPaused() && !r.IsDone()
      && r.elapsedBeforePause.value == Elapsed(t, now)
      && r == t.(elapsedBeforePause := r.elapsedBeforePause)
  {
    if t.IsPaused() || t.IsDone() then t
    else t.(elapsedBeforePause := Some(Elapsed(t, now)))
  }

  /** `Resume`: a timer that is not paused, or is done, is left alone;
      otherwise the pause snapshot is dropped and nothing else changes. The
      elapsed time then counts again from the start as the last paused
      update left it; `ResumeAt` is the resume that continues from the
      snapshot. */
  function Resume(t: Timer): (r: Timer)
    ensures !t.IsPaused() || t.IsDone() ==> r == t
    ensures t.IsPaused() && !t.IsDone() ==>
      !r.IsPaused() && !r.IsDone() && r == t.(elapsedBeforePause := None)
  {
    if !t.IsPaused() || t.IsDone() then t
    else t.(elapsedBeforePause := None)
  }

  /** A `Resume` that continues from the pause snapshot whenever it is
      called: the start is placed exactly the snapshot before `now`, so the
      elapsed time reads the snapshot and the timer fires after the time
      that was left at the pause. */
  function ResumeAt(t: Timer, now: real): (r: Timer)
    ensures !t.IsPaused() || t.IsDone() ==> r == t
    ensures t.IsPaused() && !t.IsDone() ==>
      && !r.IsPaused() && !r.IsDone()
      && r == t.(startTime := r.startTime, elapsedBeforePause := None)
      && r.FireTime() == now + (t.duration - t.elapsedBeforePause.value)
      && (t.elapsedBeforePause.value <= t.duration ==> Elapsed(r, now) == t.elapsedBeforePause.value)
  {
    if !t.IsPaused() || t.IsDone() then t
    else t.(startTime := now - t.elapsedBeforePause.value, elapsedBeforePause := None)
  }

  /** `Cancel`: a done timer is left alone; otherwise the elapsed time is
      kept as the cancel snapshot, any pause is dropped, and the timer is
      done. */
  function Cancel(t: Timer, now: real): (r: Timer)
    ensures t.IsDone() ==> r == t
    ensures !t.IsDone() ==>
      && r.IsDone() && r.IsCancelled() && !r.IsPaused() && !r.isCompleted
      && r.elapsedBeforeCancel.value == Elapsed(t, now)
      && r == t.(elapsedBeforeCancel := r.elapsedBeforeCancel, elapsedBeforePause := None)
  {
    if t.IsDone() then t
    else t.(elapsedBeforeCancel := Some(Elapsed(t, now)), elapsedBeforePause := None)
  }

  /** The outcome of one `Update`: the new timer, the value the update
      callback would receive (None when the branch does not reach it), and
      whether the completion callback's branch was taken. */
  datatype Step = Step(timer: Timer, reported: Option<real>, fired: bool)

  /** The private `Update`, run once per frame by the manager.
      A done timer is left alone. A paused timer has its start (and so its
      fire time) pushed forward by the time since the last update. Otherwise
      the update callback sees the elapsed time and, once the fire time has
      come, the completion callback fires and a looped timer restarts at
      `now` while any other timer completes. */
  function Update(t: Timer, now: real): (r: Step)
    ensures t.IsDone() ==> r == Step(t, None, false)
    ensures !t.IsDone() && t.IsPaused() ==>
      && r.timer == t.(startTime := r.timer.startTime, lastUpdateTime := now)
      && r.timer.FireTime() == t.FireTime() + (now - t.lastUpdateTime)
      && r.reported == None
    ensures r.fired <==> !t.IsDone() && !t.IsPaused() && now >= t.FireTime()
    ensures !t.IsDone() && !t.IsPaused() ==>
      && r.reported == Some(Elapsed(t, now))
      && r.timer.lastUpdateTime == now
    ensures !t.IsDone() && !t.IsPaused() && !(r.fired && t.isLooped) ==>
      r.timer.startTime == t.startTime
    ensures r.fired && !t.isLooped ==> r.timer.isCompleted && Remaining(r.timer, now) == 0.0
    ensures r.fired && t.isLooped ==> r.timer.startTime == now && !r.timer.isCompleted
    ensures t.isLooped ==> r.timer.isCompleted == t.isCompleted
    ensures !r.fired ==> r.timer.isCompleted == t.isCompleted
    ensures r.timer.duration == t.duration && r.timer.isLooped == t.isLooped
    ensures r.timer.usesRealTime == t.usesRealTime && r.timer.owner == t.owner
    ensures r.timer.elapsedBeforeCancel == t.elapsedBeforeCancel
    ensures r.timer.elapsedBeforePause == t.elapsedBeforePause
  {
    if t.IsDone() then Step(t, None, false)
    else if t.IsPaused() then
      Step(t.(startTime := t.startTime + (now - t.lastUpdateTime), lastUpdateTime := now), None, false)
    else
      var t1 := t.(lastUpdateTime := now);
      var reported := Elapsed(t1, now);
      if now >= t1.FireTime() then
        if t.isLooped then Step(t1.(startTime := now), Some(reported), true)
        else Step(t1.(isCompleted := true), Some(reported), true)
      else Step(t1, Some(reported), false)
  }

  // ---------------------------------------------------------------------
  // Properties

  /** Every operation keeps a timer well formed while the clock does not run
      backwards. */
  lemma OperationsKeepWellFormed(t: Timer, now: real)
    requires WellFormed(t) && t.lastUpdateTime <= now
    ensures WellFormed(Pause(t, now))
    ensures WellFormed(Resume(t))
    ensures WellFormed(Cancel(t, now))
    ensures WellFormed(Update(t, now).timer)
    ensures WellFormed(DestroyOwner(t))
  {
  }

  /** A done timer stays done and is left alone by every operation: only
      completion, a cancel or the owner's destruction make a timer done, and
      none of them is undone. */
  lemma DoneIsFinal(t: Timer, now: real)
    requires t.IsDone()
    ensures Pause(t, now) == t && Resume(t) == t && Cancel(t, now) == t
    ensures Update(t, now) == Step(t, None, false) && DestroyOwner(t).IsDone()
  {
  }

  /** Pausing and resuming within one frame gives back the same timer. */
  lemma PauseResumeRoundTrip(t: Timer, now: real)
    requires !t.IsPaused() && !t.IsDone()
    ensures Resume(Pause(t, now)) == t
  {
  }

  /** Cancelling twice is cancelling once. */
  lemma CancelIdempotent(t: Timer, now: real, later: real)
    ensures Cancel(Cancel(t, now), later) == Cancel(t, now)
  {
  }

  /** A running timer's elapsed time never goes down as the clock advances. */
  lemma ElapsedMonotonic(t: Timer, now1: real, now2: real)
    requires WellFormed(t) && !t.IsPaused() && !t.IsCancelled()
    requires t.startTime <= now1 <= now2
    ensures Elapsed(t, now1) <= Elapsed(t, now2)
  {
  }

  /** The manager's updates of one timer, frame by frame. */
  function UpdateMany(t: Timer, times: seq<real>): Timer
    decreases |times|
  {
    if times == [] then t
    else UpdateMany(Update(t, times[0]).timer, times[1..])
  }

  /** While a timer stays paused, every update pushes its start forward by
      the frame's delta, so after a run of updates the start has moved by
      exactly the time that passed since the last update before them, and
      nothing else but the last-update time has changed. */
  lemma {:induction false} PausedUpdatesShiftStart(t: Timer, times: seq<real>)
    requires t.IsPaused() && !t.IsDone() && times != []
    ensures var r := UpdateMany(t, times);
      && r.startTime == t.startTime + (times[|times| - 1] - t.lastUpdateTime)
      && r.lastUpdateTime == times[|times| - 1]
      && r == t.(startTime := r.startTime, lastUpdateTime := r.lastUpdateTime)
    decreases |times|
  {
    var t1 := Update(t, times[0]).timer;
    if |times| > 1 {
      PausedUpdatesShiftStart(t1, times[1..]);
      assert times[1..][|times[1..]| - 1] == times[|times| - 1];
    }
  }

  /** As the C# is written, the elapsed time after a resume is the pause
      snapshot minus the time between the last update and the `Pause`, plus
      the time between the paused update and the `Resume` (capped at the
      duration): it reads the snapshot only when those two stretches are
      equal. */
  lemma PauseDriftAsWritten(t: Timer, pausedAt: real, updatedAt: real, resumedAt: real)
    requires !t.IsDone() && !t.IsPaused() && pausedAt < t.FireTime()
    ensures var r := Resume(Update(Pause(t, pausedAt), updatedAt).timer);
      var e := Elapsed(t, pausedAt) - (pausedAt - t.lastUpdateTime) + (resumedAt - updatedAt);
      && !r.IsPaused() && !r.IsDone()
      && Elapsed(r, resumedAt) == (if e < t.duration then e else t.duration)
  {
  }

  /** Pausing with the intended resume freezes the elapsed time: a running
      timer paused at any time, updated while paused for any number of
      frames and resumed at any time reads the same elapsed time as when it
      was paused, and fires after exactly the time that remained then. */
  lemma PauseFreezesElapsed(t: Timer, pausedAt: real, times: seq<real>, resumedAt: real)
    requires !t.IsDone() && !t.IsPaused()
    ensures var r := ResumeAt(UpdateMany(Pause(t, pausedAt), times), resumedAt);
      && !r.IsPaused() && !r.IsDone()
      && Elapsed(r, resumedAt) == Elapsed(t, pausedAt)
      && r.FireTime() == resumedAt + Remaining(t, pausedAt)
  {
    if times != [] {
      PausedUpdatesShiftStart(Pause(t, pausedAt), times);
    }
  }

  /** Duration 10, started at 0, last updated at 1, paused at 2 (snapshot 2)
      and updated at 3: resumed at 3 it reads 1 as written, resumed at 4 it
      reads 2, and with the intended resume it reads 2 at either time. */
  lemma PauseDriftExample(t: Timer, pausedAt: real, updatedAt: real, later: real)
    requires t == Timer(10.0, false, false, false, 0.0, 1.0, None, None, NoOwner)
    requires pausedAt == 2.0 && updatedAt == 3.0 && later == 4.0
    ensures Pause(t, pausedAt).elapsedBeforePause == Some(2.0)
    ensures Elapsed(Resume(Update(Pause(t, pausedAt), updatedAt).timer), updatedAt) == 1.0
    ensures Elapsed(Resume(Update(Pause(t, pausedAt), updatedAt).timer), later) == 2.0
    ensures Elapsed(ResumeAt(Update(Pause(t, pausedAt), updatedAt).timer, updatedAt), updatedAt) == 2.0
    ensures Elapsed(ResumeAt(Update(Pause(t, pausedAt), updatedAt).timer, later), later) == 2.0
  {
    assert Elapsed(t, pausedAt) == 2.0;
    PauseDriftAsWritten(t, pausedAt, updatedAt, updatedAt);
    PauseDriftAsWritten(t, pausedAt, updatedAt, later);
  }

  /** A running timer's remaining time never goes up as the clock advances. */
  lemma RemainingAntitone(t: Timer, now1: real, now2: real)
    requires WellFormed(t) && !t.IsPaused() && !t.IsCancelled()
    requires t.startTime <= now1 <= now2
    ensures Remaining(t, now2) <= Remaining(t, now1)
  {
    ElapsedMonotonic(t, now1, now2);
  }

  /** The cancel snapshot is reported only until the original fire time:
      from then on `GetTimeElapsed` answers the full duration for a cancelled
      timer too, because it tests the fire time before the snapshot. */
  lemma CancelledTimerReportsDurationAfterFireTime(t: Timer, cancelledAt: real, later: real)
    requires !t.IsDone() && cancelledAt < t.FireTime() <= later
    ensures Cancel(t, cancelledAt).IsCancelled()
    ensures Elapsed(Cancel(t, cancelledAt), cancelledAt) == Elapsed(t, cancelledAt)
    ensures Elapsed(Cancel(t, cancelledAt), later) == t.duration
  {
  }

  /** A looped timer that is not done keeps running forever: no update
      completes it, and when it fires its next fire time is one duration
      after `now`. */
  lemma LoopedTimerNeverCompletes(t: Timer, now: real)
    requires t.isLooped && !t.IsDone()
    ensures !Update(t, now).timer.IsDone()
    ensures Update(t, now).fired ==> Update(t, now).timer.FireTime() == now + t.duration
  {
  }
}
