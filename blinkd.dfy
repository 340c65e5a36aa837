/** The break daemon of `src/bin/blinkd.rs`: the per-timer runtime states,
    `update_timer` (choose the next timer), `reset`, the once-a-second `tick`
    and the control requests of `handle_msg`.

    Each operation is a method of the class `Daemon`, over the fields of the
    source's struct, and is proved against a function on `DaemonState`, the
    value of those fields; the lemmas state what the source promises about
    those functions. Durations are whole seconds, clocks are parameters. */
module Blinkd {
  import opened Wrappers
  import opened Config
  import opened Scheduling
  import BlinkTimer

  /** One timer's runtime state. `TimerState::new` is `TimerState(0, 0, t)`
      (the derived defaults). */
  datatype TimerState = TimerState(timeLeft: nat, prompts: nat, timer: Timer) {
    /** `TimerState::reset`. */
    function Reset(): TimerState
    {
      this.(prompts := 0)
    }
  }

  /** The sort key of a runtime state. */
  function RankOf(t: TimerState): Rank
  {
    Rank(t.timeLeft, t.timer.weight)
  }

  function TimerOf(t: TimerState): Timer
  {
    t.timer
  }

  /** The timer definitions behind a list of runtime states. */
  function Defs(ts: seq<TimerState>): seq<Timer>
  {
    seq(|ts|, i requires 0 <= i < |ts| => ts[i].timer)
  }

  /** Reordering the runtime states reorders their definitions. */
  lemma DefsPermutation(a: seq<TimerState>, b: seq<TimerState>)
    requires multiset(a) == multiset(b)
    ensures multiset(Defs(a)) == multiset(Defs(b))
  {
    ProjectPermutation(a, b, TimerOf);
    assert Defs(a) == Project(a, TimerOf);
    assert Defs(b) == Project(b, TimerOf);
  }

  /** The fields of `Daemon` that change (the configuration does not). */
  datatype DaemonState = DaemonState(
    elapsed: nat,
    lastUpdate: nat,
    nextTimerAt: nat,
    nextTimer: Option<Timer>,
    timers: seq<TimerState>,
    isEnabled: bool,
    lastInput: nat)

  predicate PositiveIntervals(ts: seq<TimerState>)
  {
    forall i :: 0 <= i < |ts| ==> ts[i].timer.interval > 0
  }

  // ---------------------------------------------------------------------
  // update_timer

  function Refresh(t: TimerState, elapsed: nat): TimerState
    requires t.timer.interval > 0
  {
    t.(timeLeft := TimeLeft(t.timer.initialDelay, t.timer.interval, elapsed))
  }

  /** Every state with its `time_left` recomputed for `elapsed`. */
  function Refreshed(ts: seq<TimerState>, elapsed: nat): (r: seq<TimerState>)
    requires PositiveIntervals(ts)
    ensures |r| == |ts| && forall i :: 0 <= i < |ts| ==> r[i] == Refresh(ts[i], elapsed)
  {
    seq(|ts|, i requires 0 <= i < |ts| => Refresh(ts[i], elapsed))
  }

  /** The refreshed states in the order of `sort_by`. */
  function Ordered(ts: seq<TimerState>, elapsed: nat): seq<TimerState>
    requires PositiveIntervals(ts)
  {
    SortBy(Refreshed(ts, elapsed), RankOf)
  }

  /** `update_timer`: refresh, sort, and let the first timer be the next
      one; its wait is scaled by its decline and its prompt count bumped. */
  function Scheduled(s: DaemonState): DaemonState
    requires PositiveIntervals(s.timers)
  {
    var sorted := Ordered(s.timers, s.elapsed);
    if sorted == [] then s.(timers := sorted)
    else
      var next := sorted[0];
      s.(timers := sorted[0 := next.(prompts := next.prompts + 1)],
         nextTimerAt := s.elapsed + ScaledWait(next.timeLeft, next.timer.decline, next.prompts),
         nextTimer := Some(next.timer))
  }

  /** `update_timer` recomputes every timer's remaining time, keeps each
      timer exactly once, puts them in ascending order of remaining time
      with ties to the higher weight, keeps the order of timers with equal
      keys, and bumps the prompt count of the first timer only. */
  lemma ScheduleSorts(s: DaemonState)
    requires PositiveIntervals(s.timers)
    ensures var u, r := Ordered(s.timers, s.elapsed), Scheduled(s);
      && |u| == |s.timers| && |r.timers| == |s.timers|
      && multiset(u) == multiset(Refreshed(s.timers, s.elapsed))
      && multiset(Defs(r.timers)) == multiset(Defs(s.timers))
      && Sorted(u, RankOf) && Sorted(r.timers, RankOf)
      && SameOrderPerKey(u, Refreshed(s.timers, s.elapsed), RankOf)
      && (u != [] ==> r.timers[0] == u[0].(prompts := u[0].prompts + 1))
      && (forall i :: 1 <= i < |u| ==> r.timers[i] == u[i])
      && PositiveIntervals(r.timers)
  {
    var u := Ordered(s.timers, s.elapsed);
    OrderedFacts(s.timers, s.elapsed);
    var r := Scheduled(s);
    if u != [] {
      assert r.timers == u[0 := u[0].(prompts := u[0].prompts + 1)];
      Bump(u);
    } else {
      assert r.timers == u;
    }
  }

  lemma OrderedFacts(ts: seq<TimerState>, elapsed: nat)
    requires PositiveIntervals(ts)
    ensures var u, f := Ordered(ts, elapsed), Refreshed(ts, elapsed);
      && |u| == |ts| && multiset(u) == multiset(f)
      && Sorted(u, RankOf) && SameOrderPerKey(u, f, RankOf)
      && multiset(Defs(u)) == multiset(Defs(ts))
      && PositiveIntervals(u)
  {
    var u, f := Ordered(ts, elapsed), Refreshed(ts, elapsed);
    SortByCorrect(f, RankOf);
    DefsPermutation(u, f);
    assert Defs(f) == Defs(ts);
    forall i | 0 <= i < |u| ensures u[i].timer.interval > 0
    {
      assert u[i] in multiset(f);
    }
  }

  /** Bumping the first prompt count keeps the order and the definitions. */
  lemma Bump(u: seq<TimerState>)
    requires u != []
    ensures var v := u[0 := u[0].(prompts := u[0].prompts + 1)];
      && Defs(v) == Defs(u)
      && (Sorted(u, RankOf) ==> Sorted(v, RankOf))
      && (PositiveIntervals(u) ==> PositiveIntervals(v))
  {
    var v := u[0 := u[0].(prompts := u[0].prompts + 1)];
    assert forall i :: 0 <= i < |u| ==> RankOf(v[i]) == RankOf(u[i]);
  }

  /** The timer chosen is the one the source promises: none has less time
      left, none with as little has a higher weight, and of the timers with
      that same key it is the one listed first before the sort. */
  lemma ScheduleChoice(s: DaemonState)
    requires PositiveIntervals(s.timers) && s.timers != []
    ensures var f, r := Refreshed(s.timers, s.elapsed), Scheduled(s);
      && r.nextTimer == Some(r.timers[0].timer)
      && r.timers[0].timer.interval > 0
      && r.timers[0].timeLeft == TimeLeft(r.timers[0].timer.initialDelay, r.timers[0].timer.interval, s.elapsed)
      && (forall i :: 0 <= i < |f| ==> RankLe(RankOf(r.timers[0]), RankOf(f[i])))
      && Filter(f, RankOf, RankOf(r.timers[0])) != []
      && Filter(f, RankOf, RankOf(r.timers[0]))[0] == r.timers[0].(prompts := r.timers[0].prompts - 1)
  {
    var f, u, r := Refreshed(s.timers, s.elapsed), Ordered(s.timers, s.elapsed), Scheduled(s);
    ScheduleSorts(s);
    SortByFirst(f, RankOf);
    assert u[0] in multiset(f);
    var k := RankOf(u[0]);
    assert Filter(u, RankOf, k) == [u[0]] + Filter(u[1..], RankOf, k);
    assert Filter(f, RankOf, k) == Filter(u, RankOf, k);
  }

  /** The deadline: the elapsed time plus the winner's scaled wait; exactly
      plus its remaining time when it had not been prompted or has no
      decline; for a non-negative decline never before now and never later
      than its unscaled remaining time. */
  lemma ScheduleDeadline(s: DaemonState)
    requires PositiveIntervals(s.timers) && s.timers != []
    ensures var r := Scheduled(s);
      var w, p := r.timers[0], r.timers[0].prompts - 1;
      && p >= 0
      && r.nextTimerAt == s.elapsed + ScaledWait(w.timeLeft, w.timer.decline, p)
      && (p == 0 || w.timer.decline == 0.0 ==> r.nextTimerAt == s.elapsed + w.timeLeft)
      && (w.timer.decline >= 0.0 ==> s.elapsed <= r.nextTimerAt <= s.elapsed + w.timeLeft)
      && (r.nextTimerAt == s.elapsed <==> w.timeLeft == 0)
  {
    ScheduleSorts(s);
    var u := Ordered(s.timers, s.elapsed);
    ScaledWaitBounds(u[0].timeLeft, u[0].timer.decline, u[0].prompts);
  }

  /** `update_timer` touches only the timers and the deadline, and with no
      timers at all it changes nothing. */
  lemma ScheduleFrame(s: DaemonState)
    requires PositiveIntervals(s.timers)
    ensures var r := Scheduled(s);
      && r.elapsed == s.elapsed && r.isEnabled == s.isEnabled
      && r.lastUpdate == s.lastUpdate && r.lastInput == s.lastInput
      && (s.timers == [] ==> r == s)
  {
    ScheduleSorts(s);
  }

  lemma SchedulePositive(s: DaemonState)
    requires PositiveIntervals(s.timers)
    ensures PositiveIntervals(Scheduled(s).timers)
    ensures multiset(Defs(Scheduled(s).timers)) == multiset(Defs(s.timers))
  {
    ScheduleSorts(s);
  }

  // ---------------------------------------------------------------------
  // reset

  /** The earliest a timer falls due after a reset: its initial delay, or
      its interval when it has none. */
  function FirstDue(t: Timer): nat
    requires t.interval > 0
  {
    TimeLeft(t.initialDelay, t.interval, 0)
  }

  function ZeroPrompts(ts: seq<TimerState>): (r: seq<TimerState>)
    ensures |r| == |ts| && forall i :: 0 <= i < |ts| ==> r[i] == ts[i].Reset()
  {
    seq(|ts|, i requires 0 <= i < |ts| => ts[i].Reset())
  }

  /** `Daemon::reset`: elapsed time and every prompt count back to zero,
      then `update_timer`. */
  function ResetState(s: DaemonState): DaemonState
    requires PositiveIntervals(s.timers)
  {
    Scheduled(s.(elapsed := 0, timers := ZeroPrompts(s.timers)))
  }

  /** After a reset nothing has elapsed, exactly the chosen timer has been
      prompted once and every other timer not at all, its deadline is its
      full remaining time, and the enabled flag is untouched. */
  lemma ResetOutcome(s: DaemonState)
    requires PositiveIntervals(s.timers)
    ensures var r := ResetState(s);
      && r.elapsed == 0 && r.isEnabled == s.isEnabled
      && r.lastInput == s.lastInput && r.lastUpdate == s.lastUpdate
      && |r.timers| == |s.timers|
      && multiset(Defs(r.timers)) == multiset(Defs(s.timers))
      && (s.timers != [] ==>
            && r.timers[0].prompts == 1
            && (forall i :: 1 <= i < |r.timers| ==> r.timers[i].prompts == 0)
            && r.nextTimerAt == r.timers[0].timeLeft)
  {
    var z := s.(elapsed := 0, timers := ZeroPrompts(s.timers));
    ScheduleSorts(z);
    ScheduleFrame(z);
    assert Defs(z.timers) == Defs(s.timers);
    var f, u := Refreshed(z.timers, 0), Ordered(z.timers, 0);
    forall x: TimerState | x in multiset(u) ensures x.prompts == 0
    {
      assert x in f;
    }
    if s.timers != [] {
      assert u[0] in multiset(u);
      ScheduleDeadline(z);
      forall i | 1 <= i < |u| ensures ResetState(s).timers[i].prompts == 0
      {
        assert u[i] in multiset(u);
      }
    }
  }

  lemma ResetPositive(s: DaemonState)
    requires PositiveIntervals(s.timers)
    ensures PositiveIntervals(ResetState(s).timers)
    ensures multiset(Defs(ResetState(s).timers)) == multiset(Defs(s.timers))
  {
    var z := s.(elapsed := 0, timers := ZeroPrompts(s.timers));
    assert Defs(z.timers) == Defs(s.timers);
    SchedulePositive(z);
  }

  /** The first deadline after a reset is the earliest first due time of
      any timer, and it is the chosen timer's own. */
  lemma ResetDeadlineIsFirstDue(s: DaemonState)
    requires PositiveIntervals(s.timers) && s.timers != []
    ensures var r := ResetState(s);
      && r.timers != [] && r.timers[0].timer.interval > 0
      && r.nextTimerAt == FirstDue(r.timers[0].timer)
      && (forall i :: 0 <= i < |s.timers| ==> r.nextTimerAt <= FirstDue(s.timers[i].timer))
      && exists i :: 0 <= i < |s.timers| && r.nextTimerAt == FirstDue(s.timers[i].timer)
  {
    var z := s.(elapsed := 0, timers := ZeroPrompts(s.timers));
    ResetOutcome(s);
    ScheduleSorts(z);
    ScheduleChoice(z);
    var f := Refreshed(z.timers, 0);
    assert forall i :: 0 <= i < |s.timers| ==> f[i].timeLeft == FirstDue(s.timers[i].timer);
    var r := ResetState(s);
    var u0 := Ordered(z.timers, 0)[0];
    assert u0 in multiset(f);
    var j :| 0 <= j < |f| && f[j] == u0;
    assert r.nextTimerAt == FirstDue(s.timers[j].timer);
  }

  /** Resetting twice leaves the same state as resetting once. */
  lemma ResetIdempotent(s: DaemonState)
    requires PositiveIntervals(s.timers)
    ensures PositiveIntervals(ResetState(s).timers)
    ensures ResetState(ResetState(s)) == ResetState(s)
  {
    var z := s.(elapsed := 0, timers := ZeroPrompts(s.timers));
    var r := ResetState(s);
    ScheduleSorts(z);
    ScheduleFrame(z);
    var f, u := Refreshed(z.timers, 0), Ordered(z.timers, 0);
    var z2 := r.(elapsed := 0, timers := ZeroPrompts(r.timers));
    if u != [] {
      // the sorted states already carry zero prompts and up-to-date times
      forall i | 0 <= i < |u| ensures u[i].prompts == 0 && u[i] == Refresh(u[i], 0)
      {
        assert u[i] in multiset(u);
        var j :| 0 <= j < |f| && f[j] == u[i];
      }
      assert ZeroPrompts(r.timers) == u;
      assert Refreshed(u, 0) == u;
      SortBySorted(u, RankOf);
      assert Ordered(z2.timers, 0) == u;
      assert z2.(timers := z.timers, nextTimerAt := z.nextTimerAt, nextTimer := z.nextTimer) == z;
    } else {
      assert s.timers == [];
    }
  }

  // ---------------------------------------------------------------------
  // tick

  /** What a tick needs of the clocks: with input tracking, the last input
      is not in the future (`get_unix_time() - last_input` is a u64
      subtraction). */
  predicate ClockOk(c: Config, lastInput: nat, unixNow: nat)
  {
    c.inputTracking.Some? ==> lastInput <= unixNow
  }

  /** Whether a tick resets: the tick gap or the elapsed time reaches
      `timeout_reset` (compared as Rust `Option`s), or the time since the
      last input reaches `inactivity_reset`. */
  predicate ResetDue(c: Config, delta: nat, elapsed: nat, lastInput: nat, unixNow: nat)
    requires ClockOk(c, lastInput, unixNow)
  {
    || OptionGe(Some(delta), c.timeoutReset)
    || OptionGe(Some(elapsed), c.timeoutReset)
    || (c.inputTracking.Some? && unixNow - lastInput >= c.inputTracking.value.inactivityReset)
  }

  /** Whether a tick is frozen: the time since the last input exceeds
      `inactivity_pause`. */
  predicate Frozen(c: Config, lastInput: nat, unixNow: nat)
    requires ClockOk(c, lastInput, unixNow)
  {
    c.inputTracking.Some? && unixNow - lastInput > c.inputTracking.value.inactivityPause
  }

  /** The state after a tick, and whether it fired (called `notify`). */
  datatype TickOutcome = TickOutcome(state: DaemonState, fired: bool)

  /** The first half of `Daemon::tick`: take the time since the last tick
      and reset if due. */
  function TickBase(c: Config, s: DaemonState, instantNow: nat, unixNow: nat): (r: DaemonState)
    requires PositiveIntervals(s.timers) && ClockOk(c, s.lastInput, unixNow)
    ensures PositiveIntervals(r.timers)
  {
    var s1 := s.(lastUpdate := instantNow);
    ResetPositive(s1);
    if ResetDue(c, Since(s.lastUpdate, instantNow), s.elapsed, s.lastInput, unixNow) then ResetState(s1) else s1
  }

  /** ... then advance by the tick gap unless disabled or frozen. */
  function Advanced(c: Config, s: DaemonState, instantNow: nat, unixNow: nat): (r: DaemonState)
    requires PositiveIntervals(s.timers) && ClockOk(c, s.lastInput, unixNow)
    ensures PositiveIntervals(r.timers)
  {
    var b := TickBase(c, s, instantNow, unixNow);
    if !Frozen(c, s.lastInput, unixNow) && b.isEnabled then b.(elapsed := b.elapsed + Since(s.lastUpdate, instantNow)) else b
  }

  /** `Daemon::tick`: take the time since the last tick, reset if due, then
      advance unless disabled or frozen, then fire and reschedule if the
      deadline is reached. */
  function TickState(c: Config, s: DaemonState, instantNow: nat, unixNow: nat): TickOutcome
    requires PositiveIntervals(s.timers) && ClockOk(c, s.lastInput, unixNow)
  {
    Fire(Advanced(c, s, instantNow, unixNow))
  }

  lemma TickStages(c: Config, s: DaemonState, instantNow: nat, unixNow: nat,
                    reset: bool, frozen: bool, b: DaemonState, a: DaemonState)
    requires PositiveIntervals(s.timers) && ClockOk(c, s.lastInput, unixNow)
    requires reset == ResetDue(c, Since(s.lastUpdate, instantNow), s.elapsed, s.lastInput, unixNow)
    requires frozen == Frozen(c, s.lastInput, unixNow)
    requires PositiveIntervals(b.timers)
    requires b == if reset then ResetState(s.(lastUpdate := instantNow)) else s.(lastUpdate := instantNow)
    requires a == if !frozen && b.isEnabled then b.(elapsed := b.elapsed + Since(s.lastUpdate, instantNow)) else b
    ensures PositiveIntervals(a.timers)
    ensures TickState(c, s, instantNow, unixNow) == Fire(a)
  {
    assert b == TickBase(c, s, instantNow, unixNow);
  }

  /** The end of `Daemon::tick`: fire and reschedule once the deadline is
      reached. */
  function Fire(a: DaemonState): TickOutcome
    requires PositiveIntervals(a.timers)
  {
    if a.elapsed >= a.nextTimerAt then TickOutcome(Scheduled(a), true) else TickOutcome(a, false)
  }

  /** The reset condition in plain terms: an absent `timeout_reset` is below
      every duration, so then every tick resets. */
  lemma ResetDueIff(c: Config, delta: nat, elapsed: nat, lastInput: nat, unixNow: nat)
    requires ClockOk(c, lastInput, unixNow)
    ensures ResetDue(c, delta, elapsed, lastInput, unixNow) <==>
      || c.timeoutReset.None?
      || delta >= c.timeoutReset.value
      || elapsed >= c.timeoutReset.value
      || (c.inputTracking.Some? && unixNow - lastInput >= c.inputTracking.value.inactivityReset)
  {
    SomeAtLeast(delta, c.timeoutReset);
    SomeAtLeast(elapsed, c.timeoutReset);
  }

  /** The first half of a tick: the tick clock is taken, elapsed time is
      zeroed exactly when a reset is due, and the timers stay the same
      definitions. */
  lemma BaseFacts(c: Config, s: DaemonState, instantNow: nat, unixNow: nat)
    requires PositiveIntervals(s.timers) && ClockOk(c, s.lastInput, unixNow)
    ensures var b := TickBase(c, s, instantNow, unixNow);
      && b.lastUpdate == instantNow && b.isEnabled == s.isEnabled && b.lastInput == s.lastInput
      && b.elapsed == (if ResetDue(c, Since(s.lastUpdate, instantNow), s.elapsed, s.lastInput, unixNow) then 0 else s.elapsed)
      && multiset(Defs(b.timers)) == multiset(Defs(s.timers))
  {
    ResetOutcome(s.(lastUpdate := instantNow));
  }

  /** The end of a tick fires exactly at the deadline and then leaves the
      deadline ahead of the elapsed time. */
  lemma FireFacts(a: DaemonState)
    requires PositiveIntervals(a.timers)
    ensures var o := Fire(a);
      && o.state.elapsed == a.elapsed && o.state.isEnabled == a.isEnabled
      && o.state.lastUpdate == a.lastUpdate && o.state.lastInput == a.lastInput
      && (o.fired <==> a.elapsed >= a.nextTimerAt)
      && (!o.fired ==> o.state == a)
      && PositiveIntervals(o.state.timers)
      && multiset(Defs(o.state.timers)) == multiset(Defs(a.timers))
      && (a.timers != [] ==> o.state.elapsed <= o.state.nextTimerAt)
  {
    ScheduleFrame(a);
    SchedulePositive(a);
    if a.timers != [] {
      ScheduleDeadline(a);
    }
  }

  /** What one tick does: the tick clock is taken; a due reset happens
      first; elapsed time then grows by exactly the tick gap when enabled
      and not frozen, and not at all otherwise; the tick fires exactly when
      the elapsed time has reached the deadline, and then reschedules; the
      enabled flag and the last input are never touched. */
  lemma TickSteps(c: Config, s: DaemonState, instantNow: nat, unixNow: nat)
    requires PositiveIntervals(s.timers) && ClockOk(c, s.lastInput, unixNow)
    ensures var o := TickState(c, s, instantNow, unixNow);
      var delta := Since(s.lastUpdate, instantNow);
      var reset := ResetDue(c, delta, s.elapsed, s.lastInput, unixNow);
      var advance := s.isEnabled && !Frozen(c, s.lastInput, unixNow);
      var base := if reset then ResetState(s.(lastUpdate := instantNow)) else s.(lastUpdate := instantNow);
      && o.state.lastUpdate == instantNow
      && o.state.isEnabled == s.isEnabled && o.state.lastInput == s.lastInput
      && o.state.elapsed == (if reset then 0 else s.elapsed) + (if advance then delta else 0)
      && (o.fired <==> o.state.elapsed >= base.nextTimerAt)
      && (!o.fired ==> o.state.timers == base.timers && o.state.nextTimerAt == base.nextTimerAt)
      && PositiveIntervals(o.state.timers)
      && multiset(Defs(o.state.timers)) == multiset(Defs(s.timers))
  {
    BaseFacts(c, s, instantNow, unixNow);
    FireFacts(Advanced(c, s, instantNow, unixNow));
  }

  /** After every tick the deadline is not behind the elapsed time (when
      there is a timer at all). */
  lemma TickKeepsDeadlineAhead(c: Config, s: DaemonState, instantNow: nat, unixNow: nat)
    requires PositiveIntervals(s.timers) && ClockOk(c, s.lastInput, unixNow)
    requires s.timers != []
    ensures var o := TickState(c, s, instantNow, unixNow);
      o.state.elapsed <= o.state.nextTimerAt
  {
    BaseFacts(c, s, instantNow, unixNow);
    var a := Advanced(c, s, instantNow, unixNow);
    assert |Defs(a.timers)| == |multiset(Defs(s.timers))| > 0;
    FireFacts(a);
  }

  /** While frozen, a tick that does not reset leaves the elapsed time where
      it was. */
  lemma FrozenTickHolds(c: Config, s: DaemonState, instantNow: nat, unixNow: nat)
    requires PositiveIntervals(s.timers) && ClockOk(c, s.lastInput, unixNow)
    requires Frozen(c, s.lastInput, unixNow)
    requires !ResetDue(c, Since(s.lastUpdate, instantNow), s.elapsed, s.lastInput, unixNow)
    ensures TickState(c, s, instantNow, unixNow).state.elapsed == s.elapsed
  {
    TickSteps(c, s, instantNow, unixNow);
  }

  /** A tick whose gap reaches `timeout_reset` (a suspend) resets, and then,
      as written, still credits the whole gap to the fresh elapsed time when
      enabled and not frozen, firing at once if the gap reaches the first
      deadline after the reset. */
  lemma SuspendGapCredited(c: Config, s: DaemonState, instantNow: nat, unixNow: nat)
    requires PositiveIntervals(s.timers) && ClockOk(c, s.lastInput, unixNow)
    requires c.timeoutReset.Some? && Since(s.lastUpdate, instantNow) >= c.timeoutReset.value
    requires s.isEnabled && !Frozen(c, s.lastInput, unixNow)
    ensures var o := TickState(c, s, instantNow, unixNow);
      && o.state.elapsed == Since(s.lastUpdate, instantNow)
      && (o.fired <==> Since(s.lastUpdate, instantNow) >= ResetState(s.(lastUpdate := instantNow)).nextTimerAt)
  {
    TickSteps(c, s, instantNow, unixNow);
    ResetDueIff(c, Since(s.lastUpdate, instantNow), s.elapsed, s.lastInput, unixNow);
  }

  /** Without `timeout_reset` every tick resets, so the elapsed time never
      exceeds one tick's gap, and no timer ever fires while every timer's
      first due time is longer than that gap. */
  lemma NoTimeoutResetNeverFires(c: Config, s: DaemonState, instantNow: nat, unixNow: nat)
    requires PositiveIntervals(s.timers) && ClockOk(c, s.lastInput, unixNow)
    requires c.timeoutReset.None?
    requires forall i :: 0 <= i < |s.timers| ==> FirstDue(s.timers[i].timer) > Since(s.lastUpdate, instantNow)
    ensures ResetDue(c, Since(s.lastUpdate, instantNow), s.elapsed, s.lastInput, unixNow)
    ensures TickState(c, s, instantNow, unixNow).state.elapsed <= Since(s.lastUpdate, instantNow)
    ensures s.timers != [] ==> !TickState(c, s, instantNow, unixNow).fired
  {
    TickSteps(c, s, instantNow, unixNow);
    if s.timers != [] {
      ResetDeadlineIsFirstDue(s.(lastUpdate := instantNow));
    }
  }

  // ---------------------------------------------------------------------
  // handle_msg

  /** The state after a request and the response sent back. */
  datatype Reply = Reply(state: DaemonState, response: BlinkTimer.IpcResponse)

  /** `Daemon::handle_msg`. The status carries the elapsed time and the
      deadline. */
  function HandleMsgState(s: DaemonState, msg: BlinkTimer.IpcRequest): Reply
    requires PositiveIntervals(s.timers)
  {
    match msg
    case StatusRequest => Reply(s, BlinkTimer.StatusResponse(BlinkTimer.Status(s.elapsed, s.nextTimerAt)))
    case Toggle => Reply(s.(isEnabled := !s.isEnabled), BlinkTimer.IpcResponse.Ok)
    case Reset => Reply(ResetState(s), BlinkTimer.IpcResponse.Ok)
  }

  /** A status request changes nothing; a toggle flips only the enabled
      flag, so two toggles restore the state; a reset request is exactly
      `reset`; the two commands answer `Ok`. */
  lemma HandleMsgEffects(s: DaemonState)
    requires PositiveIntervals(s.timers)
    ensures HandleMsgState(s, BlinkTimer.StatusRequest).state == s
    ensures HandleMsgState(s, BlinkTimer.StatusRequest).response.status == BlinkTimer.Status(s.elapsed, s.nextTimerAt)
    ensures var t := HandleMsgState(s, BlinkTimer.Toggle);
      && t.state.isEnabled == !s.isEnabled && t.state.(isEnabled := s.isEnabled) == s
      && HandleMsgState(t.state, BlinkTimer.Toggle).state == s
      && t.response == BlinkTimer.IpcResponse.Ok
    ensures HandleMsgState(s, BlinkTimer.Reset) == Reply(ResetState(s), BlinkTimer.IpcResponse.Ok)
  {
  }

  /** A disabled daemon's ticks that do not reset leave the elapsed time
      alone, and a second toggle lets them advance it again. */
  lemma ToggledOffHolds(c: Config, s: DaemonState, instantNow: nat, unixNow: nat)
    requires PositiveIntervals(s.timers) && ClockOk(c, s.lastInput, unixNow)
    requires !s.isEnabled
    requires !ResetDue(c, Since(s.lastUpdate, instantNow), s.elapsed, s.lastInput, unixNow)
    ensures TickState(c, s, instantNow, unixNow).state.elapsed == s.elapsed
    ensures var on := HandleMsgState(s, BlinkTimer.Toggle).state;
      !Frozen(c, s.lastInput, unixNow) ==>
        TickState(c, on, instantNow, unixNow).state.elapsed == s.elapsed + Since(s.lastUpdate, instantNow)
  {
    TickSteps(c, s, instantNow, unixNow);
    TickSteps(c, HandleMsgState(s, BlinkTimer.Toggle).state, instantNow, unixNow);
  }

  // ---------------------------------------------------------------------
  // The daemon object

  class Daemon {
    const config: Config
    var elapsed: nat
    var lastUpdate: nat
    var nextTimerAt: nat
    var nextTimer: Option<Timer>
    var timers: seq<TimerState>
    var isEnabled: bool
    var lastInput: nat

    ghost function State(): DaemonState
      reads this
    {
      DaemonState(elapsed, lastUpdate, nextTimerAt, nextTimer, timers, isEnabled, lastInput)
    }

    /** The runtime states are always one per configured timer. */
    ghost predicate Consistent()
      reads this
    {
      && WellFormed(config) && PositiveIntervals(timers)
      && multiset(Defs(timers)) == multiset(config.timers)
    }

    /** ... and the deadline is never behind the elapsed time between
        operations. */
    ghost predicate Valid()
      reads this
    {
      Consistent() && (timers != [] ==> elapsed <= nextTimerAt)
    }

    /** `Daemon::new`: nothing elapsed, no deadline yet, no timer chosen,
        enabled, and a fresh state per configured timer in configuration
        order; the clocks are read once. */
    constructor (config: Config, instantNow: nat, unixNow: nat)
      requires WellFormed(config)
      ensures Valid() && this.config == config
      ensures elapsed == 0 && nextTimerAt == DURATION_MAX && nextTimer.None? && isEnabled
      ensures lastUpdate == instantNow && lastInput == unixNow
      ensures |timers| == |config.timers|
      ensures forall i :: 0 <= i < |timers| ==> timers[i] == TimerState(0, 0, config.timers[i])
    {
      this.config := config;
      elapsed := 0;
      lastUpdate := instantNow;
      nextTimerAt := DURATION_MAX;
      nextTimer := None;
      timers := seq(|config.timers|, i requires 0 <= i < |config.timers| => TimerState(0, 0, config.timers[i]));
      isEnabled := true;
      lastInput := unixNow;
      new;
      assert Defs(timers) == config.timers;
    }

    /** `update_timer`. */
    method UpdateTimer()
      requires Consistent()
      modifies this
      ensures Valid()
      ensures State() == Scheduled(old(State()))
    {
      ghost var s := State();
      var i := 0;
      while i < |timers|
        invariant 0 <= i <= |timers| == |s.timers|
        invariant forall j :: 0 <= j < i ==> timers[j] == Refresh(s.timers[j], elapsed)
        invariant forall j :: i <= j < |timers| ==> timers[j] == s.timers[j]
        invariant State() == s.(timers := timers)
      {
        var item := timers[i];
        var left;
        if item.timer.initialDelay.Some? && elapsed <= item.timer.initialDelay.value {
          // what remains of the delay, counted from elapsed time zero
          left := item.timer.initialDelay.value - elapsed;
        } else {
          // what remains of the current period
          left := item.timer.interval - elapsed % item.timer.interval;
        }
        timers := timers[i := item.(timeLeft := left)];
        i := i + 1;
      }
      assert timers == Refreshed(s.timers, s.elapsed);
      timers := SortBy(timers, RankOf);
      if |timers| > 0 {
        var next := timers[0];
        var timeLeft := ScaledWait(next.timeLeft, next.timer.decline, next.prompts);
        timers := timers[0 := next.(prompts := next.prompts + 1)];
        nextTimerAt := elapsed + timeLeft;
        nextTimer := Some(next.timer);
      }
      assert State() == Scheduled(s);
      SchedulePositive(s);
    }

    /** `Daemon::reset`. */
    method Reset()
      requires Consistent()
      modifies this
      ensures Valid()
      ensures State() == ResetState(old(State()))
    {
      ghost var s := State();
      elapsed := 0;
      var i := 0;
      while i < |timers|
        invariant 0 <= i <= |timers| == |s.timers|
        invariant forall j :: 0 <= j < i ==> timers[j] == s.timers[j].Reset()
        invariant forall j :: i <= j < |timers| ==> timers[j] == s.timers[j]
        invariant State() == s.(elapsed := 0, timers := timers)
      {
        timers := timers[i := timers[i].Reset()];
        i := i + 1;
      }
      assert timers == ZeroPrompts(s.timers);
      assert Defs(timers) == Defs(s.timers);
      UpdateTimer();
    }

    /** The checks at the top of `Daemon::tick`: whether this tick resets
        and whether it is frozen, for a tick gap `delta`. */
    method TickChecks(delta: nat, unixNow: nat) returns (doReset: bool, isFrozen: bool)
      requires ClockOk(config, lastInput, unixNow)
      ensures doReset == ResetDue(config, delta, elapsed, lastInput, unixNow)
      ensures isFrozen == Frozen(config, lastInput, unixNow)
    {
      doReset := false;
      isFrozen := false;
      if OptionGe(Some(delta), config.timeoutReset) {
        doReset := true;
      } else if OptionGe(Some(elapsed), config.timeoutReset) {
        doReset := true;
      }

      if config.inputTracking.Some? {
        var inputTracking := config.inputTracking.value;
        var activityElapsed := unixNow - lastInput;
        if activityElapsed >= inputTracking.inactivityReset {
          doReset := true;
        }
        isFrozen := activityElapsed > inputTracking.inactivityPause;
      }
    }

    /** `Daemon::tick`, given the monotonic clock and the Unix time; returns
        whether it fired (called `notify`). */
    method Tick(instantNow: nat, unixNow: nat) returns (fired: bool)
      requires Valid() && ClockOk(config, lastInput, unixNow)
      modifies this
      ensures Valid()
      ensures TickOutcome(State(), fired) == TickState(config, old(State()), instantNow, unixNow)
    {
      var delta := if instantNow >= lastUpdate then instantNow - lastUpdate else 0;
      var doReset, isFrozen := TickChecks(delta, unixNow);
      lastUpdate := instantNow;

      ghost var s1 := State();
      if doReset {
        Reset();
      }
      ghost var b := State();
      assert b == if doReset then ResetState(s1) else s1;
      if !isFrozen && isEnabled {
        elapsed := elapsed + delta;
      }
      TickStages(config, old(State()), instantNow, unixNow, doReset, isFrozen, b, State());
      fired := FireIfDue();
    }

    /** The end of `Daemon::tick`: notify and reschedule once the elapsed
        time reaches the deadline. */
    method FireIfDue() returns (fired: bool)
      requires Consistent()
      modifies this
      ensures Valid()
      ensures TickOutcome(State(), fired) == Fire(old(State()))
    {
      fired := elapsed >= nextTimerAt;
      if fired {
        UpdateTimer();
      }
    }

    /** `Daemon::handle_msg` (the source wraps the response in an `Ok` that
        is never an error). */
    method HandleMsg(msg: BlinkTimer.IpcRequest) returns (resp: BlinkTimer.IpcResponse)
      requires Valid()
      modifies this
      ensures Valid()
      ensures Reply(State(), resp) == HandleMsgState(old(State()), msg)
    {
      match msg {
        case StatusRequest =>
          resp := BlinkTimer.StatusResponse(BlinkTimer.Status(elapsed, nextTimerAt));
        case Toggle =>
          isEnabled := !isEnabled;
          resp := BlinkTimer.IpcResponse.Ok;
        case Reset =>
          Reset();
          resp := BlinkTimer.IpcResponse.Ok;
      }
    }

    /** An activity message from the input tracker: its time replaces the
        last input time. */
    method RecordActivity(msg: BlinkTimer.ActivityMessage)
      requires Valid()
      modifies this
      ensures Valid()
      ensures State() == old(State()).(lastInput := msg.lastInput)
    {
      lastInput := msg.lastInput;
    }
  }
}
