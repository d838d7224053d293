/** The countdown timer of src/bonus/timer.cpp. Time is integer
    milliseconds of the steady clock; every operation that reads the clock
    takes the reading as `now`. The observer notifications the timer sends
    (started, paused, resumed, expired, stopped) are not modelled. */
module Timer {

  datatype Timer = Timer(startTime: int, duration: int, remaining: int, running: bool, paused: bool)

  /** `a > b ? a - b : 0` on durations. */
  function Left(duration: int, elapsed: int): (r: int)
    ensures r >= 0 && (r == 0 <==> elapsed >= duration) && (r > 0 ==> r == duration - elapsed)
  {
    if duration > elapsed then duration - elapsed else 0
  }

  /** The constructor: stopped, unpaused, zero duration and time left; the
      start time is the clock's epoch. */
  function New(): (r: Timer)
    ensures !r.running && !r.paused && r.duration == 0 && r.remaining == 0
    ensures GetRemainingTime(r, 0) == 0
  {
    Timer(0, 0, 0, false, false)
  }

  /** `setDuration`: both the duration and the time left. */
  function SetDuration(t: Timer, d: int): (r: Timer)
    ensures r.duration == d && r.remaining == d
    ensures r.running == t.running && r.paused == t.paused && r.startTime == t.startTime
  {
    t.(duration := d, remaining := d)
  }

  /** `start`: counting from `now`, running, unpaused, the whole duration left. */
  function Start(t: Timer, now: int): (r: Timer)
    ensures r.running && !r.paused && r.startTime == now && r.remaining == t.duration
    ensures r.duration == t.duration
  {
    t.(startTime := now, running := true, paused := false, remaining := t.duration)
  }

  /** `pause`: only while running and not paused; freezes the time left. */
  function Pause(t: Timer, now: int): (r: Timer)
    ensures t.running && !t.paused ==>
              r == t.(remaining := Left(t.duration, now - t.startTime), paused := true)
    ensures !(t.running && !t.paused) ==> r == t
  {
    if t.running && !t.paused then
      t.(remaining := Left(t.duration, now - t.startTime), paused := true)
    else t
  }

  /** `resume` as the source has it: only while running and paused; it
      restarts the count at `now` against the whole duration, so the time
      left that `pause` saved is not used. */
  function ResumeAsWritten(t: Timer, now: int): (r: Timer)
    ensures t.running && t.paused ==> r == t.(startTime := now, paused := false)
    ensures !(t.running && t.paused) ==> r == t
  {
    if t.running && t.paused then t.(startTime := now, paused := false) else t
  }

  /** `resume` as the pause logic implies it: the count restarts so that
      the time already run before the pause still counts. */
  function Resume(t: Timer, now: int): (r: Timer)
    ensures t.running && t.paused ==>
              && r.running && !r.paused && r.duration == t.duration && r.remaining == t.remaining
              && GetRemainingTime(r, now) == Left(t.remaining, 0)
    ensures !(t.running && t.paused) ==> r == t
  {
    if t.running && t.paused then t.(startTime := now - (t.duration - t.remaining), paused := false)
    else t
  }

  /** `stop`: neither running nor paused. */
  function Stop(t: Timer): (r: Timer)
    ensures !r.running && !r.paused
    ensures r.duration == t.duration && r.remaining == t.remaining && r.startTime == t.startTime
  {
    t.(running := false, paused := false)
  }

  /** `hasExpired`: false while stopped or paused; otherwise whether the
      duration has run out, and once it has the timer stops running. */
  function HasExpired(t: Timer, now: int): (r: (bool, Timer))
    ensures !t.running || t.paused ==> r == (false, t)
    ensures t.running && !t.paused ==>
              && (r.0 <==> now - t.startTime >= t.duration)
              && r.1 == (if r.0 then t.(running := false) else t)
  {
    if !t.running || t.paused then (false, t)
    else
      var expired := now - t.startTime >= t.duration;
      (expired, if expired then t.(running := false) else t)
  }

  /** `getRemainingTime`: the stored time left while stopped or paused;
      otherwise what remains of the duration, never below zero. */
  function GetRemainingTime(t: Timer, now: int): (r: int)
    ensures !t.running || t.paused ==> r == t.remaining
    ensures t.running && !t.paused ==>
              && r >= 0
              && (r == 0 <==> now - t.startTime >= t.duration)
              && (r > 0 ==> r + (now - t.startTime) == t.duration)
  {
    if !t.running || t.paused then t.remaining else Left(t.duration, now - t.startTime)
  }

  function IsRunning(t: Timer): bool { t.running }
  function IsPaused(t: Timer): bool { t.paused }

  /** The flags the queries report follow the calls: `start` runs the
      timer unpaused, `pause` of a running timer pauses it, `resume` of a
      paused one unpauses it, `stop` clears both, and an expiry found by
      `hasExpired` stops the timer. */
  lemma FlagsFollowCalls(t: Timer, now: int)
    ensures !IsRunning(New()) && !IsPaused(New())
    ensures IsRunning(Start(t, now)) && !IsPaused(Start(t, now))
    ensures IsRunning(t) && !IsPaused(t) ==> IsRunning(Pause(t, now)) && IsPaused(Pause(t, now))
    ensures IsRunning(t) && IsPaused(t) ==>
              && IsRunning(Resume(t, now)) && !IsPaused(Resume(t, now))
              && IsRunning(ResumeAsWritten(t, now)) && !IsPaused(ResumeAsWritten(t, now))
    ensures !IsRunning(Stop(t)) && !IsPaused(Stop(t))
    ensures HasExpired(t, now).0 ==> !IsRunning(HasExpired(t, now).1)
  {
  }

  /** A running timer has expired exactly when no time is left. */
  lemma ExpiredIffNothingLeft(t: Timer, now: int)
    requires t.running && !t.paused
    ensures HasExpired(t, now).0 <==> GetRemainingTime(t, now) == 0
  {
  }

  /** While paused the time left does not move, and it is what it was at
      the moment of pausing. */
  lemma PauseFreezes(t: Timer, now: int, later: int)
    requires t.running && !t.paused
    ensures GetRemainingTime(Pause(t, now), later) == GetRemainingTime(t, now)
    ensures !HasExpired(Pause(t, now), later).0
  {
  }

  /** A started timer with a non-negative duration never reports time left
      above the duration or below zero, and expires once the duration has
      passed since the start. */
  lemma StartedCountsDown(t: Timer, now: int, later: int)
    requires t.duration >= 0 && later >= now
    ensures 0 <= GetRemainingTime(Start(t, now), later) <= t.duration
    ensures HasExpired(Start(t, now), later).0 <==> later - now >= t.duration
  {
  }

  /** With the corrected resume the time left after resuming continues from
      the time left at the pause: a pause takes no running time. */
  lemma ResumeContinues(t: Timer, paused: int, resumed: int, later: int)
    requires t.running && !t.paused && t.duration >= 0
    requires t.startTime <= paused <= resumed <= later
    ensures var r := Resume(Pause(t, paused), resumed);
            GetRemainingTime(r, later)
              == Left(GetRemainingTime(t, paused), later - resumed)
  {
  }

  /** As written, resuming restores the whole duration, whatever time the
      pause had saved. */
  lemma ResumeAsWrittenForgetsPause(t: Timer, paused: int, resumed: int)
    requires t.running && !t.paused
    ensures GetRemainingTime(ResumeAsWritten(Pause(t, paused), resumed), resumed)
              == Left(t.duration, 0)
  {
  }

  /** examples/test_timer.cpp, test 2: a 3000 ms timer started at 0, paused
      at 1000 and resumed at 2000. At 2500 the source reports 2500 ms left
      and expires at 5000; with the corrected resume 1500 ms are left and it
      expires at 4000, 3000 ms of running after the start. */
  lemma PauseTest()
    ensures var t := Pause(Start(SetDuration(New(), 3000), 0), 1000);
            && GetRemainingTime(t, 1500) == 2000
            && GetRemainingTime(ResumeAsWritten(t, 2000), 2500) == 2500
            && !HasExpired(ResumeAsWritten(t, 2000), 4999).0
            && HasExpired(ResumeAsWritten(t, 2000), 5000).0
            && GetRemainingTime(Resume(t, 2000), 2500) == 1500
            && !HasExpired(Resume(t, 2000), 3999).0
            && HasExpired(Resume(t, 2000), 4000).0
  {
  }
}
