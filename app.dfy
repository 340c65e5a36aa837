/** The older single-process scheduler of `src/app.rs`: the same choice of
    the next timer as the daemon, with a `timeout` per timer where the daemon
    has `initial_delay`, a non-optional `timeout_reset`, and a main loop that
    is modelled one iteration at a time. */
module AppScheduler {
  import opened Wrappers
  import opened Scheduling
  import Config

  /** The timer definition `src/app.rs` reads: `timeout` plays the part of
      the daemon's initial delay. */
  datatype Timer = Timer(
    interval: nat,
    timeout: Option<nat>,
    decline: Config.Decline,
    weight: Config.Byte,
    notification: Option<Config.Notification>,
    sound: Option<string>,
    command: Option<string>)

  /** A plain duration for `timeout_reset`, here not optional. */
  datatype AppConfig = AppConfig(
    timers: seq<Timer>,
    inputTracking: Option<Config.InputTracking>,
    timeoutReset: nat)

  predicate WellFormed(c: AppConfig)
  {
    forall i :: 0 <= i < |c.timers| ==> c.timers[i].interval > 0
  }

  /** One timer's runtime state; `TimerState::new` is `TimerState(0, 0, t)`. */
  datatype TimerState = TimerState(timeLeft: nat, prompts: nat, timer: Timer) {
    /** `TimerState::reset`. */
    function Reset(): TimerState
    {
      this.(prompts := 0)
    }
  }

  function RankOf(t: TimerState): Rank
  {
    Rank(t.timeLeft, t.timer.weight)
  }

  function TimerOf(t: TimerState): Timer
  {
    t.timer
  }

  /** The timer definitions behind a list of runtime states. */
  function Defs(ts: seq<TimerState>): seq<Timer>
  {
    seq(|ts|, i requires 0 <= i < |ts| => ts[i].timer)
  }

  /** Reordering the runtime states reorders their definitions. */
  lemma DefsPermutation(a: seq<TimerState>, b: seq<TimerState>)
    requires multiset(a) == multiset(b)
    ensures multiset(Defs(a)) == multiset(Defs(b))
  {
    ProjectPermutation(a, b, TimerOf);
    assert Defs(a) == Project(a, TimerOf);
    assert Defs(b) == Project(b, TimerOf);
  }

  /** The fields of `App` that change. */
  datatype AppState = AppState(elapsed: nat, timeLeft: nat, nextTimer: Option<Timer>, timers: seq<TimerState>)

  predicate PositiveIntervals(ts: seq<TimerState>)
  {
    forall i :: 0 <= i < |ts| ==> ts[i].timer.interval > 0
  }

  // ---------------------------------------------------------------------
  // update_timer and reset

  function Refresh(t: TimerState, elapsed: nat): TimerState
    requires t.timer.interval > 0
  {
    t.(timeLeft := TimeLeft(t.timer.timeout, t.timer.interval, elapsed))
  }

  function Refreshed(ts: seq<TimerState>, elapsed: nat): (r: seq<TimerState>)
    requires PositiveIntervals(ts)
    ensures |r| == |ts| && forall i :: 0 <= i < |ts| ==> r[i] == Refresh(ts[i], elapsed)
  {
    seq(|ts|, i requires 0 <= i < |ts| => Refresh(ts[i], elapsed))
  }

  function Ordered(ts: seq<TimerState>, elapsed: nat): seq<TimerState>
    requires PositiveIntervals(ts)
  {
    SortBy(Refreshed(ts, elapsed), RankOf)
  }

  /** `App::update_timer`; `time_left` of the app is the deadline. */
  function Scheduled(s: AppState): AppState
    requires PositiveIntervals(s.timers)
  {
    var sorted := Ordered(s.timers, s.elapsed);
    if sorted == [] then s.(timers := sorted)
    else
      var next := sorted[0];
      s.(timers := sorted[0 := next.(prompts := next.prompts + 1)],
         timeLeft := s.elapsed + ScaledWait(next.timeLeft, next.timer.decline, next.prompts),
         nextTimer := Some(next.timer))
  }

  function ZeroPrompts(ts: seq<TimerState>): (r: seq<TimerState>)
    ensures |r| == |ts| && forall i :: 0 <= i < |ts| ==> r[i] == ts[i].Reset()
  {
    seq(|ts|, i requires 0 <= i < |ts| => ts[i].Reset())
  }

  /** `App::reset`. */
  function ResetState(s: AppState): AppState
    requires PositiveIntervals(s.timers)
  {
    Scheduled(s.(elapsed := 0, timers := ZeroPrompts(s.timers)))
  }

  lemma OrderedFacts(ts: seq<TimerState>, elapsed: nat)
    requires PositiveIntervals(ts)
    ensures var u, f := Ordered(ts, elapsed), Refreshed(ts, elapsed);
      && |u| == |ts| && multiset(u) == multiset(f)
      && Sorted(u, RankOf) && SameOrderPerKey(u, f, RankOf)
      && multiset(Defs(u)) == multiset(Defs(ts))
      && PositiveIntervals(u)
  {
    var u, f := Ordered(ts, elapsed), Refreshed(ts, elapsed);
    SortByCorrect(f, RankOf);
    DefsPermutation(u, f);
    assert Defs(f) == Defs(ts);
    forall i | 0 <= i < |u| ensures u[i].timer.interval > 0
    {
      assert u[i] in multiset(f);
    }
  }

  /** The timers come out once each, with their remaining time recomputed,
      in ascending order of remaining time with ties to the higher weight,
      stably; only the first one's prompt count is bumped; without timers
      the state stays as it was. */
  lemma ScheduleSorts(s: AppState)
    requires PositiveIntervals(s.timers)
    ensures var u, r := Ordered(s.timers, s.elapsed), Scheduled(s);
      && |r.timers| == |s.timers|
      && multiset(u) == multiset(Refreshed(s.timers, s.elapsed))
      && Sorted(u, RankOf) && SameOrderPerKey(u, Refreshed(s.timers, s.elapsed), RankOf)
      && (u != [] ==> r.timers[0] == u[0].(prompts := u[0].prompts + 1))
      && (forall i :: 1 <= i < |u| ==> r.timers[i] == u[i])
      && multiset(Defs(r.timers)) == multiset(Defs(s.timers))
      && PositiveIntervals(r.timers)
      && r.elapsed == s.elapsed
      && (s.timers == [] ==> r == s)
  {
    var u := Ordered(s.timers, s.elapsed);
    OrderedFacts(s.timers, s.elapsed);
    if u != [] {
      assert Defs(Scheduled(s).timers) == Defs(u);
    }
  }

  /** The deadline is the elapsed time plus the first timer's wait scaled by
      its decline, which is the unscaled remaining time when it had not been
      prompted or has no decline, and never more than that for a
      non-negative decline; the first timer becomes the next timer, and
      none has less time left. */
  lemma ScheduleDeadline(s: AppState)
    requires PositiveIntervals(s.timers) && s.timers != []
    ensures var f, r := Refreshed(s.timers, s.elapsed), Scheduled(s);
      var w, p := r.timers[0], r.timers[0].prompts - 1;
      && p >= 0 && r.nextTimer == Some(w.timer)
      && r.timeLeft == s.elapsed + ScaledWait(w.timeLeft, w.timer.decline, p)
      && (p == 0 || w.timer.decline == 0.0 ==> r.timeLeft == s.elapsed + w.timeLeft)
      && (w.timer.decline >= 0.0 ==> s.elapsed <= r.timeLeft <= s.elapsed + w.timeLeft)
      && (forall i :: 0 <= i < |f| ==> w.timeLeft <= f[i].timeLeft)
  {
    var f, u, r := Refreshed(s.timers, s.elapsed), Ordered(s.timers, s.elapsed), Scheduled(s);
    ScheduleSorts(s);
    SortByFirst(f, RankOf);
    assert r.timers[0].timeLeft == u[0].timeLeft;
    forall i | 0 <= i < |f| ensures u[0].timeLeft <= f[i].timeLeft
    {
      assert f[i] in f;
      assert RankLe(RankOf(u[0]), RankOf(f[i]));
    }
    ScaledWaitBounds(u[0].timeLeft, u[0].timer.decline, u[0].prompts);
  }

  /** After a reset nothing has elapsed, the first timer has been prompted
      once and every other not at all. */
  lemma ResetOutcome(s: AppState)
    requires PositiveIntervals(s.timers)
    ensures var r := ResetState(s);
      && r.elapsed == 0 && |r.timers| == |s.timers| && PositiveIntervals(r.timers)
      && multiset(Defs(r.timers)) == multiset(Defs(s.timers))
      && (s.timers != [] ==>
            r.timers[0].prompts == 1 && forall i :: 1 <= i < |r.timers| ==> r.timers[i].prompts == 0)
  {
    var z := s.(elapsed := 0, timers := ZeroPrompts(s.timers));
    ScheduleSorts(z);
    assert Defs(z.timers) == Defs(s.timers);
    var f, u := Refreshed(z.timers, 0), Ordered(z.timers, 0);
    forall i | 0 <= i < |u| ensures u[i].prompts == 0
    {
      assert u[i] in multiset(f);
    }
  }

  // ---------------------------------------------------------------------
  // One iteration of `App::run`

  /** The variables `run` carries from one iteration to the next. */
  datatype LoopState = LoopState(paused: bool, reset: bool, lastUpdate: nat)

  /** The loop's reset flag after its checks: once set it stays set. */
  function ResetFlag(c: AppConfig, loop: LoopState, delta: nat, inputElapsed: nat): bool
  {
    || loop.reset
    || delta >= c.timeoutReset
    || (c.inputTracking.Some? && inputElapsed >= c.inputTracking.value.inactivityReset)
  }

  /** The paused flag: recomputed only with input tracking, else kept. */
  function PausedFlag(c: AppConfig, loop: LoopState, inputElapsed: nat): bool
  {
    if c.inputTracking.Some? then inputElapsed > c.inputTracking.value.inactivityPause
    else loop.paused
  }

  /** The app after one iteration, the loop variables after it, and whether
      it notified. */
  datatype Step = Step(state: AppState, loop: LoopState, fired: bool)

  /** One pass of the loop body at time `now`, with the last input at
      `lastInput` (both monotonic instants). A resetting pass continues
      before `last_update` is refreshed. */
  function RunStep(c: AppConfig, s: AppState, loop: LoopState, now: nat, lastInput: nat): Step
    requires PositiveIntervals(s.timers)
  {
    var delta := Since(loop.lastUpdate, now);
    var inputElapsed := Since(lastInput, now);
    var reset := ResetFlag(c, loop, delta, inputElapsed);
    var paused := PausedFlag(c, loop, inputElapsed);
    if reset then Step(ResetState(s), LoopState(paused, reset, loop.lastUpdate), false)
    else
      var a := if !paused then s.(elapsed := s.elapsed + delta) else s;
      if a.elapsed >= a.timeLeft then Step(Scheduled(a), LoopState(paused, reset, now), true)
      else Step(a, LoopState(paused, reset, now), false)
  }

  /** A pass that does not reset adds the gap since the last update exactly
      when not paused, notifies exactly when the elapsed time then reaches
      the deadline, and refreshes `last_update`. */
  lemma RunStepAdvances(c: AppConfig, s: AppState, loop: LoopState, now: nat, lastInput: nat)
    requires PositiveIntervals(s.timers)
    requires !ResetFlag(c, loop, Since(loop.lastUpdate, now), Since(lastInput, now))
    ensures var o := RunStep(c, s, loop, now, lastInput);
      var paused := PausedFlag(c, loop, Since(lastInput, now));
      var e := s.elapsed + (if paused then 0 else Since(loop.lastUpdate, now));
      && o.state.elapsed == e
      && (o.fired <==> e >= s.timeLeft)
      && (!o.fired ==> o.state.timers == s.timers && o.state.timeLeft == s.timeLeft)
      && o.loop == LoopState(paused, false, now)
      && PositiveIntervals(o.state.timers)
  {
    var paused := PausedFlag(c, loop, Since(lastInput, now));
    var a := if !paused then s.(elapsed := s.elapsed + Since(loop.lastUpdate, now)) else s;
    assert a.timers == s.timers && a.timeLeft == s.timeLeft;
    if a.elapsed >= a.timeLeft {
      ScheduleSorts(a);
      assert RunStep(c, s, loop, now, lastInput) == Step(Scheduled(a), LoopState(paused, false, now), true);
    } else {
      assert RunStep(c, s, loop, now, lastInput) == Step(a, LoopState(paused, false, now), false);
    }
  }

  /** A pass whose reset flag is set resets the app, keeps the flag and the
      stale `last_update`, and never notifies. */
  lemma RunStepResets(c: AppConfig, s: AppState, loop: LoopState, now: nat, lastInput: nat)
    requires PositiveIntervals(s.timers) && loop.reset
    ensures var o := RunStep(c, s, loop, now, lastInput);
      && o.state == ResetState(s) && o.state.elapsed == 0
      && o.loop.reset && o.loop.lastUpdate == loop.lastUpdate
      && !o.fired
      && PositiveIntervals(o.state.timers)
  {
    ResetOutcome(s);
  }

  /** Passes of the loop at the given instants (time, last input). */
  function RunMany(c: AppConfig, s: AppState, loop: LoopState, clocks: seq<(nat, nat)>): (o: Step)
    requires PositiveIntervals(s.timers)
    ensures PositiveIntervals(o.state.timers)
    decreases |clocks|
  {
    if clocks == [] then Step(s, loop, false)
    else
      var first := RunStep(c, s, loop, clocks[0].0, clocks[0].1);
      ResetOutcome(s);
      if loop.reset then
        RunStepResets(c, s, loop, clocks[0].0, clocks[0].1);
        var rest := RunMany(c, first.state, first.loop, clocks[1..]);
        Step(rest.state, rest.loop, first.fired || rest.fired)
      else
        assert PositiveIntervals(first.state.timers) by {
          if !ResetFlag(c, loop, Since(loop.lastUpdate, clocks[0].0), Since(clocks[0].1, clocks[0].0)) {
            RunStepAdvances(c, s, loop, clocks[0].0, clocks[0].1);
          }
        }
        var rest := RunMany(c, first.state, first.loop, clocks[1..]);
        Step(rest.state, rest.loop, first.fired || rest.fired)
  }

  /** Once the reset flag is set, it is never cleared: every later pass
      resets again, `last_update` is never refreshed, nothing elapses and
      no timer ever fires again, whatever the clocks do. */
  lemma {:induction false} StickyReset(c: AppConfig, s: AppState, loop: LoopState, clocks: seq<(nat, nat)>)
    requires PositiveIntervals(s.timers) && loop.reset
    ensures var o := RunMany(c, s, loop, clocks);
      && o.loop.reset && o.loop.lastUpdate == loop.lastUpdate
      && !o.fired
      && (clocks != [] ==> o.state.elapsed == 0)
    decreases |clocks|
  {
    if clocks != [] {
      var first := RunStep(c, s, loop, clocks[0].0, clocks[0].1);
      RunStepResets(c, s, loop, clocks[0].0, clocks[0].1);
      StickyReset(c, first.state, first.loop, clocks[1..]);
      if clocks[1..] != [] {
        assert RunMany(c, s, loop, clocks).state == RunMany(c, first.state, first.loop, clocks[1..]).state;
      }
    }
  }

  // ---------------------------------------------------------------------
  // The app object

  class App {
    const config: AppConfig
    var elapsed: nat
    var timeLeft: nat
    var nextTimer: Option<Timer>
    var timers: seq<TimerState>

    ghost function State(): AppState
      reads this
    {
      AppState(elapsed, timeLeft, nextTimer, timers)
    }

    ghost predicate Valid()
      reads this
    {
      && WellFormed(config) && PositiveIntervals(timers)
      && multiset(Defs(timers)) == multiset(config.timers)
    }

    /** `App::new`: nothing elapsed, no deadline yet, no next timer, and a
        fresh state per configured timer in configuration order. */
    constructor (config: AppConfig)
      requires WellFormed(config)
      ensures Valid() && this.config == config
      ensures elapsed == 0 && timeLeft == DURATION_MAX && nextTimer.None?
      ensures |timers| == |config.timers|
      ensures forall i :: 0 <= i < |timers| ==> timers[i] == TimerState(0, 0, config.timers[i])
    {
      this.config := config;
      elapsed := 0;
      timeLeft := DURATION_MAX;
      nextTimer := None;
      timers := seq(|config.timers|, i requires 0 <= i < |config.timers| => TimerState(0, 0, config.timers[i]));
      new;
      assert Defs(timers) == config.timers;
    }

    /** `App::update_timer`. */
    method UpdateTimer()
      requires Valid()
      modifies this
      ensures Valid()
      ensures State() == Scheduled(old(State()))
    {
      ghost var s := State();
      var i := 0;
      while i < |timers|
        invariant 0 <= i <= |timers| == |s.timers|
        invariant forall j :: 0 <= j < i ==> timers[j] == Refresh(s.timers[j], elapsed)
        invariant forall j :: i <= j < |timers| ==> timers[j] == s.timers[j]
        invariant State() == s.(timers := timers)
      {
        var item := timers[i];
        var inTimeout := false;
        var left := DURATION_MAX;
        if item.timer.timeout.Some? {
          if elapsed <= item.timer.timeout.value {
            left := item.timer.timeout.value - elapsed;
            inTimeout := true;
          }
        }
        if !inTimeout {
          // what remains of the current period
          left := item.timer.interval - elapsed % item.timer.interval;
        }
        timers := timers[i := item.(timeLeft := left)];
        i := i + 1;
      }
      assert timers == Refreshed(s.timers, s.elapsed);
      timers := SortBy(timers, RankOf);
      if |timers| > 0 {
        var next := timers[0];
        var wait := ScaledWait(next.timeLeft, next.timer.decline, next.prompts);
        timers := timers[0 := next.(prompts := next.prompts + 1)];
        timeLeft := elapsed + wait;
        nextTimer := Some(next.timer);
      }
      assert State() == Scheduled(s);
      ScheduleSorts(s);
    }

    /** `App::reset`. */
    method Reset()
      requires Valid()
      modifies this
      ensures Valid()
      ensures State() == ResetState(old(State()))
    {
      ghost var s := State();
      elapsed := 0;
      var i := 0;
      while i < |timers|
        invariant 0 <= i <= |timers| == |s.timers|
        invariant forall j :: 0 <= j < i ==> timers[j] == s.timers[j].Reset()
        invariant forall j :: i <= j < |timers| ==> timers[j] == s.timers[j]
        invariant State() == s.(elapsed := 0, timers := timers)
      {
        timers := timers[i := timers[i].Reset()];
        i := i + 1;
      }
      assert timers == ZeroPrompts(s.timers);
      assert Defs(timers) == Defs(s.timers);
      UpdateTimer();
    }

    /** The checks at the top of the loop body. */
    method LoopChecks(loop: LoopState, delta: nat, inputElapsed: nat) returns (reset: bool, paused: bool)
      ensures reset == ResetFlag(config, loop, delta, inputElapsed)
      ensures paused == PausedFlag(config, loop, inputElapsed)
    {
      reset, paused := loop.reset, loop.paused;
      if delta >= config.timeoutReset {
        reset := true;
      }
      if config.inputTracking.Some? {
        var inputTracking := config.inputTracking.value;
        if inputElapsed >= inputTracking.inactivityReset {
          reset := true;
        }
        paused := inputElapsed > inputTracking.inactivityPause;
      }
    }

    /** One pass of the body of `App::run` at time `now`; returns the loop
        variables for the next pass and whether it notified. */
    method RunIteration(loop: LoopState, now: nat, lastInput: nat) returns (next: LoopState, fired: bool)
      requires Valid()
      modifies this
      ensures Valid()
      ensures Step(State(), next, fired) == RunStep(config, old(State()), loop, now, lastInput)
    {
      var delta := if now >= loop.lastUpdate then now - loop.lastUpdate else 0;
      var inputElapsed := if now >= lastInput then now - lastInput else 0;
      var reset, paused := LoopChecks(loop, delta, inputElapsed);
      if reset {
        Reset();
        next, fired := LoopState(paused, reset, loop.lastUpdate), false;
        return;
      }
      if !paused {
        elapsed := elapsed + delta;
      }
      fired := elapsed >= timeLeft;
      if fired {
        UpdateTimer();
      }
      next := LoopState(paused, reset, now);
    }
  }
}
