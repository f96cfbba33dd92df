/**
 * The interval countdown of the FortyFiveSecondTimer component.
 *
 * The component keeps `secondsLeft` and `running`, plus a handle to a
 * repeating one-second interval. While running, every tick counts down by one;
 * a tick that finds one second (or less) left plays a beep and restarts the
 * 45-second period instead of stopping at zero.
 *
 * The file has two layers:
 *  - pure updaters and transitions on a `TimerState` value, with the lemmas
 *    that state what the component promises;
 *  - a `Timer` class whose methods change the fields step by step and are
 *    proved to follow the pure transitions.
 */
module FortyFiveSecondTimer {

  /** Length of one interval, in seconds. */
  const DURATION_SECONDS: int := 45

  /** The range `secondsLeft` stays in: 1 .. DURATION_SECONDS. */
  predicate InRange(seconds: int) {
    1 <= seconds <= DURATION_SECONDS
  }

  // ---------------------------------------------------------------------------
  // Updaters passed to setSecondsLeft
  // ---------------------------------------------------------------------------

  /** Whether the tick updater calls playBeep when it sees `prev`. */
  predicate Beeps(prev: int) {
    prev <= 1
  }

  /**
   * The tick updater: the next value of `secondsLeft` after one tick.
   * It never yields zero or less, keeps the range, and, inside the range,
   * restarts the period exactly when it beeps.
   */
  function TickValue(prev: int): (r: int)
    ensures r >= 1
    ensures InRange(prev) ==> InRange(r)
    ensures InRange(prev) ==> (Beeps(prev) <==> r == DURATION_SECONDS)
    ensures r < prev || r == DURATION_SECONDS
  {
    if prev <= 1 then DURATION_SECONDS else prev - 1
  }

  /**
   * The updater run when the timer turns on: whatever `prev` is, the result
   * is the full duration (the branch that keeps `prev` does so only when
   * `prev` already is the full duration).
   */
  function ResyncValue(prev: int): (r: int)
    ensures r == DURATION_SECONDS
    // the no-op case: an already full value is kept as it is
    ensures prev == DURATION_SECONDS ==> r == prev
  {
    if prev == DURATION_SECONDS then prev else DURATION_SECONDS
  }

  // ---------------------------------------------------------------------------
  // Repeated ticks
  // ---------------------------------------------------------------------------

  /** `secondsLeft` after `n` ticks starting from `start`. */
  function Ticks(start: int, n: nat): (r: int)
    ensures n > 0 ==> r >= 1
    ensures InRange(start) ==> InRange(r)
  {
    if n == 0 then start else TickValue(Ticks(start, n - 1))
  }

  /** How many of the first `n` ticks from `start` beep. */
  function BeepsIn(start: int, n: nat): (r: nat)
    ensures r <= n
  {
    if n == 0 then 0
    else BeepsIn(start, n - 1) + (if Beeps(Ticks(start, n - 1)) then 1 else 0)
  }

  /** Quotient and remainder by the duration are determined by any decomposition. */
  lemma DivModUnique(k: int, q: int, m: int)
    requires 0 <= m < DURATION_SECONDS && k == DURATION_SECONDS * q + m
    ensures k / DURATION_SECONDS == q && k % DURATION_SECONDS == m
  {
  }

  /** Successor arithmetic for the position inside a period. */
  lemma PeriodSucc(k: nat)
    ensures k % DURATION_SECONDS == DURATION_SECONDS - 1 ==>
      (k + 1) % DURATION_SECONDS == 0 && (k + 1) / DURATION_SECONDS == k / DURATION_SECONDS + 1
    ensures k % DURATION_SECONDS != DURATION_SECONDS - 1 ==>
      (k + 1) % DURATION_SECONDS == k % DURATION_SECONDS + 1 && (k + 1) / DURATION_SECONDS == k / DURATION_SECONDS
  {
    var q, m := k / DURATION_SECONDS, k % DURATION_SECONDS;
    if m == DURATION_SECONDS - 1 {
      DivModUnique(k + 1, q + 1, 0);
    } else {
      DivModUnique(k + 1, q, m + 1);
    }
  }

  /**
   * Closed form of the countdown: from any value in range, `k` counts the
   * seconds elapsed since the start of the current period; the value left is
   * the duration minus the position in the period, and one beep has sounded
   * per completed period.
   */
  lemma {:induction false} TicksClosedForm(start: int, n: nat)
    requires InRange(start)
    ensures Ticks(start, n) == DURATION_SECONDS - (DURATION_SECONDS - start + n) % DURATION_SECONDS
    ensures BeepsIn(start, n) == (DURATION_SECONDS - start + n) / DURATION_SECONDS
  {
    if n > 0 {
      TicksClosedForm(start, n - 1);
      var k: nat := DURATION_SECONDS - start + (n - 1);
      PeriodSucc(k);
    }
  }

  /** From a full period, after `n` ticks: 45 - (n % 45) left and n / 45 beeps. */
  lemma FromFullPeriod(n: nat)
    ensures Ticks(DURATION_SECONDS, n) == DURATION_SECONDS - n % DURATION_SECONDS
    ensures BeepsIn(DURATION_SECONDS, n) == n / DURATION_SECONDS
  {
    TicksClosedForm(DURATION_SECONDS, n);
  }

  /** Every 45 ticks bring the value back where it was, with exactly one beep. */
  lemma FullCycle(start: int)
    requires InRange(start)
    ensures Ticks(start, DURATION_SECONDS) == start
    ensures BeepsIn(start, DURATION_SECONDS) == 1
  {
    TicksClosedForm(start, DURATION_SECONDS);
    var k := DURATION_SECONDS - start + DURATION_SECONDS;
    if start == DURATION_SECONDS {
      DivModUnique(k, 1, 0);
    } else {
      DivModUnique(k, 1, DURATION_SECONDS - start);
    }
  }

  // ---------------------------------------------------------------------------
  // Component state and its transitions
  // ---------------------------------------------------------------------------

  /**
   * The component's state. `intervalSet` stands for a non-null
   * `intervalRef.current`; `beeps` counts the wraps so far, each of which calls playBeep
   * once when React runs the tick updater once.
   */
  datatype TimerState = TimerState(secondsLeft: int, running: bool, intervalSet: bool, beeps: nat)

  /** What the user can do, and the interval's callback. */
  datatype Event = Start | Stop | Toggle | Tick

  /** The state on mount: it satisfies the invariant, with the full duration, stopped and no beep yet. */
  function Initial(): (s: TimerState)
    ensures ValidState(s) && s.secondsLeft == DURATION_SECONDS && !s.running && s.beeps == 0
  {
    TimerState(DURATION_SECONDS, false, false, 0)
  }

  /** Invariant of every reachable state. */
  predicate ValidState(s: TimerState) {
    InRange(s.secondsLeft) && s.intervalSet == s.running
  }

  /**
   * The effect that runs after `running` changed: when running, re-sync the
   * value to the full duration and install the interval; otherwise clear it.
   */
  function RunningEffect(s: TimerState): TimerState {
    if s.running then s.(secondsLeft := ResyncValue(s.secondsLeft), intervalSet := true)
    else s.(intervalSet := false)
  }

  /** handleStart: full duration, running; the effect runs only if `running` changed. */
  function Started(s: TimerState): TimerState {
    var t := s.(secondsLeft := DURATION_SECONDS, running := true);
    if s.running then t else RunningEffect(t)
  }

  /** handleStop: not running; the effect runs only if `running` changed. */
  function Stopped(s: TimerState): TimerState {
    var t := s.(running := false);
    if s.running then RunningEffect(t) else t
  }

  /** handleToggle. */
  function Toggled(s: TimerState): TimerState {
    if s.running then Stopped(s) else Started(s)
  }

  /** One interval callback; without an installed interval nothing is delivered. */
  function Ticked(s: TimerState): TimerState {
    if s.intervalSet then
      s.(secondsLeft := TickValue(s.secondsLeft), beeps := s.beeps + if Beeps(s.secondsLeft) then 1 else 0)
    else s
  }

  function Step(s: TimerState, e: Event): TimerState {
    match e
    case Start => Started(s)
    case Stop => Stopped(s)
    case Toggle => Toggled(s)
    case Tick => Ticked(s)
  }

  /** The state after the events `es`, in order. */
  function Run(s: TimerState, es: seq<Event>): TimerState
    decreases |es|
  {
    if es == [] then s else Step(Run(s, es[..|es| - 1]), es[|es| - 1])
  }

  /** `n` interval callbacks in a row. */
  function TickEvents(n: nat): seq<Event> {
    seq(n, _ => Tick)
  }

  // ---------------------------------------------------------------------------
  // Properties of the transitions
  // ---------------------------------------------------------------------------

  /**
   * Start yields the full duration, running with the interval installed,
   * whatever `secondsLeft` was; the re-sync in the effect changes nothing.
   */
  lemma StartEffect(s: TimerState)
    requires ValidState(s)
    ensures Started(s) == s.(secondsLeft := DURATION_SECONDS, running := true, intervalSet := true)
    ensures ValidState(Started(s))
  {
  }

  /** Stop clears `running` and the interval and keeps `secondsLeft`. */
  lemma StopEffect(s: TimerState)
    requires ValidState(s)
    ensures Stopped(s) == s.(running := false, intervalSet := false)
    ensures ValidState(Stopped(s))
  {
  }

  /** Toggle flips `running`; turning on gives the full duration, turning off keeps the value. */
  lemma ToggleEffect(s: TimerState)
    requires ValidState(s)
    ensures Toggled(s).running == !s.running
    ensures ValidState(Toggled(s))
    ensures s.running ==> Toggled(s).secondsLeft == s.secondsLeft
    ensures !s.running ==> Toggled(s).secondsLeft == DURATION_SECONDS
    ensures Toggled(s).beeps == s.beeps
  {
  }

  /**
   * A tick while running: above one second it counts down by exactly one and
   * does not beep; at one second it beeps once and restarts the period.
   */
  lemma TickEffect(s: TimerState)
    requires ValidState(s) && s.running
    ensures s.secondsLeft > 1 ==> Ticked(s) == s.(secondsLeft := s.secondsLeft - 1)
    ensures s.secondsLeft == 1 ==> Ticked(s) == s.(secondsLeft := DURATION_SECONDS, beeps := s.beeps + 1)
    ensures ValidState(Ticked(s))
  {
  }

  /** While stopped, no tick changes the state. */
  lemma StoppedTickIsNoop(s: TimerState)
    requires ValidState(s) && !s.running
    ensures Ticked(s) == s
  {
  }

  lemma StepKeepsValid(s: TimerState, e: Event)
    requires ValidState(s)
    ensures ValidState(Step(s, e))
  {
    match e
    case Start => StartEffect(s);
    case Stop => StopEffect(s);
    case Toggle => ToggleEffect(s);
    case Tick =>
      if s.running { TickEffect(s); } else { StoppedTickIsNoop(s); }
  }

  /** Every sequence of events keeps the invariant. */
  lemma {:induction false} RunKeepsValid(s: TimerState, es: seq<Event>)
    requires ValidState(s)
    ensures ValidState(Run(s, es))
    decreases |es|
  {
    if es != [] {
      RunKeepsValid(s, es[..|es| - 1]);
      StepKeepsValid(Run(s, es[..|es| - 1]), es[|es| - 1]);
    }
  }

  /** From mount, through any events, `secondsLeft` stays within 1 .. 45. */
  lemma ReachableInRange(es: seq<Event>)
    ensures 1 <= Run(Initial(), es).secondsLeft <= DURATION_SECONDS
    ensures Run(Initial(), es).intervalSet == Run(Initial(), es).running
  {
    RunKeepsValid(Initial(), es);
  }

  /** `n` ticks while running follow `Ticks` and add `BeepsIn` beeps. */
  lemma {:induction false} RunOfTicks(s: TimerState, n: nat)
    requires ValidState(s) && s.running
    ensures Run(s, TickEvents(n)) ==
      s.(secondsLeft := Ticks(s.secondsLeft, n), beeps := s.beeps + BeepsIn(s.secondsLeft, n))
  {
    if n > 0 {
      assert TickEvents(n)[..n - 1] == TickEvents(n - 1);
      RunOfTicks(s, n - 1);
    }
  }

  /** `Run` of a concatenation is the run of the second part from where the first ended. */
  lemma {:induction false} RunAppend(s: TimerState, xs: seq<Event>, ys: seq<Event>)
    ensures Run(s, xs + ys) == Run(Run(s, xs), ys)
    decreases |ys|
  {
    if ys == [] {
      assert xs + ys == xs;
    } else {
      assert (xs + ys)[..|xs + ys| - 1] == xs + ys[..|ys| - 1];
      RunAppend(s, xs, ys[..|ys| - 1]);
    }
  }

  /**
   * Start followed by `n` ticks: 45 - (n % 45) seconds left and n / 45 more
   * beeps; in particular 45 ticks give one beep and the full duration again.
   */
  lemma StartThenTicks(s: TimerState, n: nat)
    requires ValidState(s)
    ensures Run(s, [Start] + TickEvents(n)).secondsLeft == DURATION_SECONDS - n % DURATION_SECONDS
    ensures Run(s, [Start] + TickEvents(n)).beeps == s.beeps + n / DURATION_SECONDS
    ensures Run(s, [Start] + TickEvents(n)).running
  {
    RunAppend(s, [Start], TickEvents(n));
    assert [Start][..0] == [];
    var t := Run(s, [Start]);
    StartEffect(s);
    RunOfTicks(t, n);
    FromFullPeriod(n);
  }

  // ---------------------------------------------------------------------------
  // The component, updated in place
  // ---------------------------------------------------------------------------

  class Timer {
    var secondsLeft: int
    var running: bool
    /** Stands for `intervalRef.current !== null`. */
    var intervalSet: bool
    /** Number of wraps so far. */
    ghost var beepCount: nat

    ghost function Snapshot(): TimerState
      reads this
    {
      TimerState(secondsLeft, running, intervalSet, beepCount)
    }

    ghost predicate Valid()
      reads this
    {
      ValidState(Snapshot())
    }

    /** Mount: the initial state. */
    constructor ()
      ensures Valid() && Snapshot() == Initial()
    {
      secondsLeft := DURATION_SECONDS;
      running := false;
      intervalSet := false;
      beepCount := 0;
    }

    /** The effect keyed on `running`, run after `running` changed. */
    method OnRunningChanged()
      modifies this
      ensures Snapshot() == RunningEffect(old(Snapshot()))
    {
      if !running {
        if intervalSet {
          intervalSet := false;
        }
        return;
      }
      secondsLeft := ResyncValue(secondsLeft);
      intervalSet := true;
    }

    method Start()
      requires Valid()
      modifies this
      ensures Snapshot() == Started(old(Snapshot()))
      ensures Valid() && running && secondsLeft == DURATION_SECONDS && beepCount == old(beepCount)
    {
      var was := running;
      secondsLeft := DURATION_SECONDS;
      running := true;
      if !was {
        OnRunningChanged();
      }
      StartEffect(old(Snapshot()));
    }

    method Stop()
      requires Valid()
      modifies this
      ensures Snapshot() == Stopped(old(Snapshot()))
      ensures Valid() && !running && secondsLeft == old(secondsLeft) && beepCount == old(beepCount)
    {
      var was := running;
      running := false;
      if was {
        OnRunningChanged();
      }
      StopEffect(old(Snapshot()));
    }

    method Toggle()
      requires Valid()
      modifies this
      ensures Snapshot() == Toggled(old(Snapshot()))
      ensures Valid() && running == !old(running)
      ensures old(running) ==> secondsLeft == old(secondsLeft)
      ensures !old(running) ==> secondsLeft == DURATION_SECONDS
    {
      if running {
        Stop();
      } else {
        Start();
      }
    }

    /** One interval callback; only delivered while running. */
    method Tick()
      requires Valid() && running
      modifies this
      ensures Snapshot() == Ticked(old(Snapshot()))
      ensures Valid() && running
      ensures old(secondsLeft) > 1 ==> secondsLeft == old(secondsLeft) - 1 && beepCount == old(beepCount)
      ensures old(secondsLeft) == 1 ==> secondsLeft == DURATION_SECONDS && beepCount == old(beepCount) + 1
    {
      if Beeps(secondsLeft) {
        beepCount := beepCount + 1;
      }
      secondsLeft := TickValue(secondsLeft);
    }

    /** `n` interval callbacks in a row while running. */
    method RunTicks(n: nat)
      requires Valid() && running
      modifies this
      ensures Valid() && running
      ensures Snapshot() == Run(old(Snapshot()), TickEvents(n))
      ensures secondsLeft == Ticks(old(secondsLeft), n)
      ensures beepCount == old(beepCount) + BeepsIn(old(secondsLeft), n)
    {
      var i := 0;
      while i < n
        invariant 0 <= i <= n
        invariant Valid() && running
        invariant secondsLeft == Ticks(old(secondsLeft), i)
        invariant beepCount == old(beepCount) + BeepsIn(old(secondsLeft), i)
        invariant intervalSet == old(intervalSet)
      {
        Tick();
        i := i + 1;
      }
      RunOfTicks(old(Snapshot()), n);
    }
  }
}
