/**
 * The countdown held by TimerApp in main.py: the fields time_left,
 * timer_running and start_time, and the handlers that change them
 * (start_timer, update_timer, timer_finished, stop_timer, reset_timer).
 *
 * Each handler is specified by a pure step on TimerState; the class Timer
 * performs the same step on its fields, and the lemmas about whole runs
 * (start, then one tick per second) are stated on the pure steps.
 */
module TimerEngine {
  import opened Wrappers
  import opened Text

  /** A wall-clock instant as datetime.now() gives it, already rendered as "YYYY-MM-DD HH:MM:SS". */
  type Timestamp = string

  /** The three fields of TimerApp that make up the countdown. */
  datatype TimerState = TimerState(timeLeft: int, running: bool, startTime: Option<Timestamp>)

  /** The fields as build() sets them. */
  const Initial := TimerState(0, false, None)

  /**
   * What every reachable state satisfies: the time left is never negative,
   * and a running timer always has time left (reaching 0 stops it in the
   * same tick).
   */
  predicate Inv(s: TimerState) {
    s.timeLeft >= 0 && (s.running ==> s.timeLeft > 0)
  }

  datatype StartError = NotAnInteger | NotPositive

  /** What start_timer reports on its status line. */
  datatype StartOutcome = Started(minutes: int) | Rejected(error: StartError)

  datatype StartResult = StartResult(next: TimerState, outcome: StartOutcome)

  /**
   * start_timer: the minutes field is read with int(); a ValueError or a
   * value <= 0 leaves every field as it was. Otherwise the countdown starts
   * afresh from minutes * 60, whatever the old state was (there is no guard
   * on the state, and no resume).
   */
  function StartStep(s: TimerState, minutesText: string, now: Timestamp): (r: StartResult)
    ensures r.outcome.Started? <==> ParseInt(minutesText).Some? && ParseInt(minutesText).value > 0
    ensures ParseInt(minutesText).None? ==> r.outcome == Rejected(NotAnInteger)
    ensures ParseInt(minutesText).Some? && ParseInt(minutesText).value <= 0 ==> r.outcome == Rejected(NotPositive)
    ensures r.outcome.Rejected? ==> r.next == s
    ensures r.outcome.Started? ==>
      ParseInt(minutesText) == Some(r.outcome.minutes) &&
      r.next == TimerState(r.outcome.minutes * 60, true, Some(now))
    ensures Inv(s) ==> Inv(r.next)
  {
    match ParseInt(minutesText)
    case None => StartResult(s, Rejected(NotAnInteger))
    case Some(minutes) =>
      if minutes <= 0 then StartResult(s, Rejected(NotPositive))
      else StartResult(TimerState(minutes * 60, true, Some(now)), Started(minutes))
  }

  datatype TickResult = TickResult(next: TimerState, keepTicking: bool)

  /**
   * update_timer, called by the clock once a second: while running with time
   * left it takes exactly one second off, and if that reaches 0 it finishes
   * in the same call. Otherwise nothing changes. The result tells the clock
   * whether to keep calling.
   */
  function TickStep(s: TimerState): (r: TickResult)
    ensures r.keepTicking == r.next.running
    ensures r.next.startTime == s.startTime
    ensures s.running && s.timeLeft > 0 ==>
      r.next.timeLeft == s.timeLeft - 1 && (r.next.running <==> r.next.timeLeft > 0)
    ensures !(s.running && s.timeLeft > 0) ==> r.next == s
    ensures Inv(s) ==> Inv(r.next)
  {
    if s.running && s.timeLeft > 0 then
      var t := s.(timeLeft := s.timeLeft - 1);
      var t' := if t.timeLeft <= 0 then StopStep(t) else t;
      TickResult(t', t'.running)
    else
      TickResult(s, s.running)
  }

  /**
   * stop_timer, and timer_finished, which makes the same change: the countdown
   * stops where it is; the time left is kept.
   */
  function StopStep(s: TimerState): (r: TimerState)
    ensures !r.running && r.timeLeft == s.timeLeft && r.startTime == s.startTime
    ensures Inv(s) ==> Inv(r)
  {
    s.(running := false)
  }

  /**
   * reset_timer: stopped, with no time left. start_time is not touched by
   * the handler, so it keeps the instant of the last start.
   */
  function ResetStep(s: TimerState): (r: TimerState)
    ensures !r.running && r.timeLeft == 0 && r.startTime == s.startTime
    ensures Inv(r)
  {
    s.(running := false, timeLeft := 0)
  }

  /** The state after n calls of update_timer. */
  function Ticks(s: TimerState, n: nat): TimerState
    decreases n
  {
    if n == 0 then s else Ticks(TickStep(s).next, n - 1)
  }

  // ---------------------------------------------------------------------------
  // Properties of whole runs

  /** While running, k ticks (k at most the time left) take exactly k seconds off; it stops exactly at 0. */
  lemma {:induction false} TicksWhileRunning(s: TimerState, k: nat)
    requires Inv(s) && s.running && k <= s.timeLeft
    ensures Ticks(s, k) == s.(timeLeft := s.timeLeft - k, running := s.timeLeft - k > 0)
    decreases k
  {
    if k > 0 {
      var t := TickStep(s).next;
      if t.running {
        TicksWhileRunning(t, k - 1);
      } else {
        assert k == 1;
      }
    }
  }

  /** A timer that is not running (stopped, finished, reset) stays exactly as it is, however often it is ticked. */
  lemma {:induction false} TicksWhileStopped(s: TimerState, k: nat)
    requires !s.running
    ensures Ticks(s, k) == s
    decreases k
  {
    if k > 0 {
      TicksWhileStopped(TickStep(s).next, k - 1);
    }
  }

  /** Ticks never make the time left grow, take at most one second per tick, and keep the invariant. */
  lemma {:induction false} TicksBounded(s: TimerState, k: nat)
    requires Inv(s)
    ensures Inv(Ticks(s, k))
    ensures s.timeLeft - k <= Ticks(s, k).timeLeft <= s.timeLeft
    ensures Ticks(s, k).startTime == s.startTime
    ensures Ticks(s, k).running ==> s.running
    decreases k
  {
    if k > 0 {
      TicksBounded(TickStep(s).next, k - 1);
    }
  }

  /**
   * A successful start for m minutes, followed by m * 60 ticks, ends finished
   * at 0 with the start instant kept; one more tick changes nothing and tells
   * the clock to stop.
   */
  lemma StartThenCountDown(s: TimerState, minutesText: string, now: Timestamp, m: int)
    requires ParseInt(minutesText) == Some(m) && m > 0
    ensures var started := StartStep(s, minutesText, now).next;
            var finished := Ticks(started, m * 60);
            finished == TimerState(0, false, Some(now)) &&
            TickStep(finished) == TickResult(finished, false)
  {
    var started := StartStep(s, minutesText, now).next;
    TicksWhileRunning(started, m * 60);
  }

  /** Between that start and the end, the time left stays within 0 .. m * 60 and the timer runs until the last tick. */
  lemma StartThenWithinBounds(s: TimerState, minutesText: string, now: Timestamp, m: int, k: nat)
    requires ParseInt(minutesText) == Some(m) && m > 0
    ensures var t := Ticks(StartStep(s, minutesText, now).next, k);
            0 <= t.timeLeft <= m * 60 && (t.running <==> k < m * 60)
  {
    var started := StartStep(s, minutesText, now).next;
    TicksFromRunning(started, k);
  }

  /** From a running timer, after any number of ticks the time left is between 0 and where it started, and it runs exactly while fewer ticks than that have passed. */
  lemma {:induction false} TicksFromRunning(s: TimerState, k: nat)
    requires Inv(s) && s.running
    ensures 0 <= Ticks(s, k).timeLeft <= s.timeLeft
    ensures Ticks(s, k).running <==> k < s.timeLeft
    decreases k
  {
    if k > 0 {
      var t := TickStep(s).next;
      if t.running {
        TicksFromRunning(t, k - 1);
      } else {
        TicksWhileStopped(t, k - 1);
      }
    }
  }

  /** Ticking k and then j times is ticking k + j times. */
  lemma {:induction false} TicksSplit(s: TimerState, k: nat, j: nat)
    ensures Ticks(Ticks(s, k), j) == Ticks(s, k + j)
    decreases k
  {
    if k > 0 {
      TicksSplit(TickStep(s).next, k - 1, j);
    }
  }

  /** A stopped timer loses no time, however often the clock fires. */
  lemma StopFreezes(s: TimerState, k: nat)
    ensures Ticks(StopStep(s), k).timeLeft == s.timeLeft
  {
    TicksWhileStopped(StopStep(s), k);
  }

  /** Resetting twice is resetting once. */
  lemma ResetIdempotent(s: TimerState)
    ensures ResetStep(ResetStep(s)) == ResetStep(s)
  {
  }

  /** Starting after a stop (or a reset) begins a fresh m * 60 countdown: a stopped timer is never resumed. */
  lemma RestartIsFresh(s: TimerState, minutesText: string, now: Timestamp, m: int)
    requires ParseInt(minutesText) == Some(m) && m > 0
    ensures StartStep(StopStep(s), minutesText, now).next.timeLeft == m * 60
    ensures StartStep(ResetStep(s), minutesText, now).next.timeLeft == m * 60
  {
  }

  /** Typing "25" and pressing start runs for 1500 ticks and then finishes at 0. */
  lemma TwentyFiveMinutes(s: TimerState, now: Timestamp)
    ensures Ticks(StartStep(s, "25", now).next, 1500) == TimerState(0, false, Some(now))
  {
    assert ShowInt(25) == "25" by {
      assert ShowNat(25) == ShowNat(2) + [DigitChar(5)];
    }
    ParseShowInt(25);
    StartThenCountDown(s, "25", now, 25);
  }

  /** Typing "0" is refused and changes nothing. */
  lemma ZeroMinutesRefused(s: TimerState, now: Timestamp)
    ensures StartStep(s, "0", now) == StartResult(s, Rejected(NotPositive))
  {
    assert ShowInt(0) == "0";
    ParseShowInt(0);
  }

  // ---------------------------------------------------------------------------
  // The fields on the application object

  /** time_left, timer_running and start_time, updated in place by the button and clock handlers. */
  class Timer {
    var timeLeft: int
    var running: bool
    var startTime: Option<Timestamp>

    function State(): TimerState
      reads this
    {
      TimerState(timeLeft, running, startTime)
    }

    ghost predicate Valid()
      reads this
    {
      Inv(State())
    }

    /** build(): nothing is running and no time is left. */
    constructor ()
      ensures State() == Initial && Valid()
    {
      timeLeft := 0;
      running := false;
      startTime := None;
    }

    /** start_timer(instance), with the minutes field's text and the current instant. */
    method Start(minutesText: string, now: Timestamp) returns (outcome: StartOutcome)
      modifies this
      ensures StartStep(old(State()), minutesText, now) == StartResult(State(), outcome)
      ensures old(Valid()) ==> Valid()
    {
      var parsed := ParseInt(minutesText);
      if parsed.None? {
        return Rejected(NotAnInteger);
      }
      var minutes := parsed.value;
      if minutes <= 0 {
        return Rejected(NotPositive);
      }
      timeLeft := minutes * 60;
      running := true;
      startTime := Some(now);
      outcome := Started(minutes);
    }

    /** update_timer(dt): the clock callback; the result keeps the callback scheduled. */
    method Tick() returns (keepTicking: bool)
      modifies this
      ensures TickStep(old(State())) == TickResult(State(), keepTicking)
      ensures old(Valid()) ==> Valid()
    {
      if running && timeLeft > 0 {
        timeLeft := timeLeft - 1;
        if timeLeft <= 0 {
          Finish();
        }
      }
      keepTicking := running;
    }

    /** timer_finished(): the countdown stops. */
    method Finish()
      modifies this
      ensures State() == StopStep(old(State()))
    {
      running := false;
    }

    /** stop_timer(instance). */
    method Stop()
      modifies this
      ensures State() == StopStep(old(State()))
    {
      running := false;
    }

    /** reset_timer(instance). */
    method Reset()
      modifies this
      ensures State() == ResetStep(old(State()))
      ensures Valid()
    {
      running := false;
      timeLeft := 0;
    }
  }

  /**
   * Clock.schedule_interval(update_timer, 1) with no button pressed meanwhile:
   * the callback runs once a second until it returns False. From a running
   * timer that takes exactly as many calls as there were seconds left and
   * ends finished at 0; otherwise the first call returns False.
   */
  method RunClock(timer: Timer) returns (calls: nat)
    requires timer.Valid()
    modifies timer
    ensures timer.State() == Ticks(old(timer.State()), calls)
    ensures old(timer.running) ==> calls == old(timer.timeLeft) && timer.timeLeft == 0
    ensures !old(timer.running) ==> calls == 1 && timer.State() == old(timer.State())
    ensures !timer.running && timer.startTime == old(timer.startTime) && timer.Valid()
  {
    ghost var s0 := timer.State();
    var keepTicking := timer.Tick();
    calls := 1;
    while keepTicking
      invariant timer.Valid()
      invariant keepTicking == timer.running
      invariant timer.State() == Ticks(s0, calls)
      invariant 0 < calls
      invariant s0.running ==> calls <= s0.timeLeft && timer.timeLeft == s0.timeLeft - calls
      invariant s0.running ==> (timer.running <==> timer.timeLeft > 0)
      invariant !s0.running ==> calls == 1 && timer.State() == s0
      invariant timer.startTime == s0.startTime
      decreases timer.timeLeft
    {
      keepTicking := timer.Tick();
      TicksSplit(s0, calls, 1);
      calls := calls + 1;
    }
  }
}
