# blink: a verified model of the break scheduler

blink reminds its user to take breaks. A set of *timers* is configured. Each
has an interval, an optional initial delay, a decline factor, a weight, and
what to show or run when it fires. The daemon `blinkd` ticks once a second
and adds the time since the last tick to an *elapsed* counter. When the
counter reaches the deadline of the chosen *next timer*, it notifies and
reschedules:

- every timer's remaining time is recomputed;
- the timers are stably sorted by remaining time, ties going to the higher
  weight;
- the first timer is chosen;
- its wait is shortened by its decline factor for every time it has already
  been prompted.

A tick resets the daemon after a long gap (a suspend), after a long run, or
after long input inactivity. It freezes while the user is inactive. A control
client can ask for the status, toggle the daemon on and off, or reset it.

The model covers these pieces, each as its own module:

- `Blinkd` (`blinkd.dfy`): the daemon `src/bin/blinkd.rs`. It is a class
  `Daemon` with the source's fields and methods, with `while` loops for the
  loops of `update_timer` and `reset`. Each method is proved against a pure
  specification function of the state, and the scheduler's properties are
  lemmas about those functions.
- `AppScheduler` (`app.dfy`): the older single-process scheduler
  `src/app.rs`. It is a class `App` in the same form, plus one iteration of
  its `run` loop.
- `Scheduling` (`scheduling.dfy`): what both schedulers share:
  - the remaining time of a timer;
  - the decline multiplier, as an exact rational power;
  - the stable `sort_by`, as an insertion sort, proved sorted, a permutation,
    and stable.
- `DurationFormat` (`duration_format.dfy`): the `mm:ss` / `hh:mm:ss`
  duration text of the configuration file, with its error cases and its
  round trip.
- `Config` (`config.dfy`): the configuration records and `Config::default`.
- `BlinkTimer` (`lib.dfy`): the messages of the control socket, `Status`,
  and the human-readable `format_duration`.
- `Util` (`util.dfy`): `format_string`.
- `Numerals` and `Wrappers`: decimal digits, parsing of a `u64`, splitting at
  a separator, `Option`/`Result`, and Rust's ordering of `Option`.

Durations are whole seconds (`nat`). The source's `Duration::MAX` is the
constant `DURATION_MAX` = 2^64 - 1. Clocks are parameters:

- `instantNow` is the monotonic clock of `Instant::now()`;
- `unixNow` is the clock of `get_unix_time()`;
- in `src/app.rs`, `now` and `lastInput` are monotonic instants.

The configuration fields that the schedulers read but that `src/config.rs`
does not declare are defined by the model with the meaning the scheduler code
gives them:

- `weight` of a timer: a `u8`, passed on as the notification urgency;
- `timeout_reset`: an `Option` in the daemon, a plain duration in the app;
- `inactivity_pause` and `inactivity_reset` of the input tracking;
- `timeout` of the app's timers, which plays the part of the daemon's
  `initial_delay`.

## Model

| member | source | states |
|---|---|---|
| Blinkd.TimerState.Reset | src/bin/blinkd.rs:60-62 | `TimerState::reset`: the prompt count goes back to 0 and the timer and its remaining time are kept; `ResetOutcome` states what it does inside a daemon reset |
| Blinkd.Scheduled | src/bin/blinkd.rs:218-260 | the state `update_timer` leaves behind, the specification of `Daemon.UpdateTimer`; its properties are stated by `ScheduleSorts`, `ScheduleChoice`, `ScheduleDeadline`, `ScheduleFrame` and `SchedulePositive` |
| Blinkd.ResetState | src/bin/blinkd.rs:209-216 | the state `reset` leaves behind, the specification of `Daemon.Reset`; its properties are stated by `ResetOutcome`, `ResetPositive`, `ResetDeadlineIsFirstDue` and `ResetIdempotent` |
| Blinkd.TickState | src/bin/blinkd.rs:167-207 | the state and fired flag one `tick` leaves behind, the specification of `Daemon.Tick`; its properties are stated by `TickStages`, `TickSteps`, `TickKeepsDeadlineAhead`, `FrozenTickHolds`, `SuspendGapCredited` and `NoTimeoutResetNeverFires` |
| Blinkd.HandleMsgState | src/bin/blinkd.rs:305-318 | the state and response of `handle_msg`, the specification of `Daemon.HandleMsg`; its properties are stated by `HandleMsgEffects` and `ToggledOffHolds` |
| Blinkd.Daemon.constructor | src/bin/blinkd.rs:77-93 | `Daemon::new`: nothing elapsed, deadline `Duration::MAX`, no next timer, enabled, both clocks read once, and one `TimerState` with zero prompts per configured timer, in configuration order |
| Blinkd.Daemon.UpdateTimer | src/bin/blinkd.rs:218-260 | the loop sets every `time_left` (initial-delay branch or periodic branch), then sorts and bumps the first timer; the new state is `Scheduled` of the old one, and the class invariant holds again: one state per configured timer and a deadline not behind the elapsed time |
| Blinkd.Daemon.Reset | src/bin/blinkd.rs:209-216 | the loop zeroes every prompt count, elapsed becomes 0, then `update_timer`; the new state is `ResetState` of the old one |
| Blinkd.Daemon.TickChecks | src/bin/blinkd.rs:174-190 | the reset decision (tick gap, then elapsed time, each against `timeout_reset` in Rust `Option` order; then the input gap against `inactivity_reset`) and the freeze decision (input gap strictly above `inactivity_pause`) equal `ResetDue` and `Frozen`; nothing changes |
| Blinkd.Daemon.Tick | src/bin/blinkd.rs:167-207 | one tick: take the gap and refresh `last_update`, reset if due, then advance by the gap if enabled and not frozen, then fire and reschedule at the deadline; the new state and the fired flag are `TickState` of the old state |
| Blinkd.Daemon.FireIfDue | src/bin/blinkd.rs:203-206 | fires exactly when elapsed has reached the deadline, and then reschedules; the deadline is afterwards not behind the elapsed time |
| Blinkd.Daemon.HandleMsg | src/bin/blinkd.rs:305-318 | `handle_msg`: the new state and the response are `HandleMsgState` of the old state and the request |
| Blinkd.Daemon.RecordActivity | src/bin/blinkd.rs:157-160 | an activity message replaces `last_input` and nothing else |
| Blinkd.ScheduleSorts | src/bin/blinkd.rs:218-251 | after `update_timer` the timers are a permutation of the refreshed timers, sorted by (remaining time ascending, weight descending), stable per key, with the same timer definitions; only the first one's prompt count grows by one, and the others are exactly the sorted entries |
| Blinkd.ScheduleChoice | src/bin/blinkd.rs:234-256 | the next timer is the first sorted one. Its remaining time is recomputed, no refreshed timer ranks before it, and among the timers with its key it is the one listed first before the sort |
| Blinkd.ScheduleDeadline | src/bin/blinkd.rs:241-256 | the deadline is elapsed plus the scaled wait of the chosen timer. It is exactly elapsed plus its remaining time when the timer was never prompted or has no decline. For a non-negative decline it lies between elapsed and elapsed plus the remaining time. It equals elapsed exactly when the remaining time is zero |
| Blinkd.ScheduleFrame | src/bin/blinkd.rs:218-260 | `update_timer` changes only the timers, the deadline and the next timer; with no timers it changes nothing |
| Blinkd.SchedulePositive | src/bin/blinkd.rs:218-239 | rescheduling keeps every interval positive and keeps the multiset of timer definitions |
| Blinkd.ResetOutcome | src/bin/blinkd.rs:209-216 | after `reset`: elapsed is 0; the enabled flag, the last input and the tick clock are untouched; the chosen timer has prompt count 1 and every other timer 0; its deadline is its full remaining time (with `TimerState::reset` at 60-62) |
| Blinkd.ResetPositive | src/bin/blinkd.rs:209-216 | reset keeps every interval positive and keeps the multiset of timer definitions |
| Blinkd.ResetDeadlineIsFirstDue | src/bin/blinkd.rs:209-231 | the deadline after a reset is the least first-due time of all timers (initial delay, or interval when there is none), and it is the chosen timer's own |
| Blinkd.ResetIdempotent | src/bin/blinkd.rs:209-216 | resetting twice gives the same state as resetting once |
| Wrappers.OptionGe | src/bin/blinkd.rs:174-177 | Rust's derived `Option` order as `a >= b`: `None` is below every `Some`, two `Some`s compare by their contents; stated by `SomeAtLeast` |
| Wrappers.SomeAtLeast | src/bin/blinkd.rs:174-177 | `Some(x) >= b` holds iff `b` is `None` or `x` is at least its value |
| Blinkd.ResetDue | src/bin/blinkd.rs:174-188 | whether a tick resets: the tick gap, then the elapsed time, each `>=` `timeout_reset` in `Option` order, or the input gap reaching `inactivity_reset`; stated in plain terms by `ResetDueIff` |
| Blinkd.Frozen | src/bin/blinkd.rs:183-190 | whether a tick is frozen: with input tracking, the input gap strictly above `inactivity_pause`; never without it; `Daemon.TickChecks` computes it |
| Blinkd.TickBase | src/bin/blinkd.rs:171-194 | the first stage of a tick: `last_update` refreshed, then `reset` if due; stated by `BaseFacts` |
| Blinkd.Advanced | src/bin/blinkd.rs:195-198 | the second stage: the whole tick gap added to elapsed when enabled and not frozen; stated by `TickSteps`, `FrozenTickHolds` and `ToggledOffHolds` |
| Blinkd.Fire | src/bin/blinkd.rs:203-206 | the last stage: fire and `update_timer` once elapsed reaches the deadline; stated by `FireFacts` |
| Blinkd.TickStages | src/bin/blinkd.rs:192-206 | the stages of a tick (reset, then advance, then fire) compose to `TickState` |
| Blinkd.ResetDueIff | src/bin/blinkd.rs:174-188 | a tick resets iff `timeout_reset` is absent, or the tick gap or the elapsed time reaches it, or the input gap reaches `inactivity_reset` |
| Blinkd.BaseFacts | src/bin/blinkd.rs:171-194 | the first half of a tick refreshes `last_update`, zeroes elapsed exactly when a reset is due, and keeps the flags and the timer definitions |
| Blinkd.FireFacts | src/bin/blinkd.rs:203-206 | the end of a tick fires iff elapsed reached the deadline; it changes nothing when it does not fire; otherwise it leaves the deadline ahead |
| Blinkd.TickSteps | src/bin/blinkd.rs:167-207 | a tick refreshes `last_update`. Elapsed becomes (0 if reset, else the old elapsed) plus the gap exactly when enabled and not frozen. It fires iff that reaches the deadline in force after the reset. When it does not fire, the timers and the deadline are unchanged. The enabled flag, the last input and the timer definitions are kept |
| Blinkd.TickKeepsDeadlineAhead | src/bin/blinkd.rs:192-206 | with at least one timer, after every tick the deadline is not behind the elapsed time |
| Blinkd.FrozenTickHolds | src/bin/blinkd.rs:189-196 | a frozen tick that does not reset leaves the elapsed time unchanged |
| Blinkd.SuspendGapCredited | src/bin/blinkd.rs:174-196 | a tick whose gap reaches `timeout_reset` resets, then still credits the whole gap to the fresh elapsed time, and fires iff the gap reaches the first deadline after the reset |
| Blinkd.NoTimeoutResetNeverFires | src/bin/blinkd.rs:174-180 | without `timeout_reset` every tick resets, so the elapsed time never exceeds one tick's gap, and no timer fires while every first-due time exceeds the gap |
| Blinkd.HandleMsgEffects | src/bin/blinkd.rs:305-318 | Status changes nothing and reports the elapsed time and the deadline. Toggle flips only the enabled flag, and two Toggles restore the state. Reset is exactly `reset`. Both commands answer `Ok` |
| Blinkd.ToggledOffHolds | src/bin/blinkd.rs:195-196 | a disabled daemon's non-resetting tick keeps the elapsed time; after a Toggle the same tick advances it by the gap (unless frozen) |
| AppScheduler.TimerState.Reset | src/app.rs:28-30 | the app's `TimerState::reset`: the prompt count goes back to 0, the rest is kept; `AppScheduler.ResetOutcome` states its effect inside `App::reset` |
| AppScheduler.Scheduled | src/app.rs:161-208 | the state the app's `update_timer` leaves behind, the specification of `App.UpdateTimer`; its properties are stated by `AppScheduler.ScheduleSorts` and `AppScheduler.ScheduleDeadline` |
| AppScheduler.ResetState | src/app.rs:114-121 | the state `App::reset` leaves behind, the specification of `App.Reset`; its properties are stated by `AppScheduler.ResetOutcome` |
| AppScheduler.RunStep | src/app.rs:76-111 | the state, loop variables and fired flag of one pass of `App::run`, the specification of `App.RunIteration`; its properties are stated by `RunStepAdvances`, `RunStepResets` and `StickyReset` |
| AppScheduler.App.constructor | src/app.rs:42-55 | `App::new`: nothing elapsed, `time_left` is `Duration::MAX`, no next timer, one fresh state per configured timer in configuration order |
| AppScheduler.App.UpdateTimer | src/app.rs:161-208 | the loop with `in_timeout` and the `Duration::MAX` placeholder sets every `time_left` to the timeout branch or the periodic branch; then the sort and the bump; the new state is `Scheduled` of the old one, and the class invariant holds again: every interval positive and the timer definitions exactly the configured ones, as a multiset |
| AppScheduler.App.Reset | src/app.rs:114-121 | elapsed 0, every prompt count 0 (src/app.rs:28-30), then `update_timer`: the new state is `ResetState` of the old one, and the class invariant holds again |
| AppScheduler.App.LoopChecks | src/app.rs:79-93 | the loop's reset flag stays set once set, and is set by a gap reaching `timeout_reset` or an input gap reaching `inactivity_reset`; the paused flag is recomputed only under input tracking |
| AppScheduler.App.RunIteration | src/app.rs:76-111 | one pass of the loop body: the new state, the next loop variables and the fired flag are `RunStep` of the old ones |
| AppScheduler.ScheduleSorts | src/app.rs:181-204 | the timers come out as a sorted, stable permutation of the refreshed timers; only the first one's prompt count is bumped; the multiset of timer definitions is kept; elapsed is kept; with no timers nothing changes (205-207) |
| AppScheduler.ScheduleDeadline | src/app.rs:188-204 | the first timer becomes the next timer, and no timer has less time left. `time_left` becomes elapsed plus its scaled wait. That is exactly elapsed plus its remaining time when it was never prompted or has no decline, and at most that for a non-negative decline |
| AppScheduler.ResetOutcome | src/app.rs:114-121 | after `reset` nothing has elapsed, the timer definitions are kept as a multiset, the first timer has prompt count 1 and every other timer 0 |
| AppScheduler.RunStepAdvances | src/app.rs:99-109 | a pass that does not reset adds the gap exactly when not paused, fires iff elapsed then reaches `time_left`, leaves the timers alone when it does not fire, and refreshes `last_update` |
| AppScheduler.RunStepResets | src/app.rs:94-97 | a pass with the reset flag set resets, keeps the flag and the stale `last_update`, and never fires |
| AppScheduler.ResetFlag | src/app.rs:79-90 | the loop's reset flag after its checks: kept if already set, else set by a gap reaching `timeout_reset` or, with input tracking, an input gap reaching `inactivity_reset`; `App.LoopChecks` computes it |
| AppScheduler.PausedFlag | src/app.rs:85-92 | the paused flag: with input tracking, the input gap strictly above `inactivity_pause`; without it, the previous value; `App.LoopChecks` computes it |
| AppScheduler.RunMany | src/app.rs:76-111 | successive passes of the loop at the given clock readings, threading the state and the loop variables; every interval stays positive; stated by `StickyReset` |
| AppScheduler.StickyReset | src/app.rs:67-97 | the loop's reset flag is only ever set to true: once it is set, every later pass resets again, `last_update` is never refreshed, no timer ever fires, and elapsed stays 0, whatever the clocks do |
| Scheduling.Since | src/bin/blinkd.rs:171 | `Instant::elapsed`: the gap to the current reading, zero when the earlier instant is not before it (also src/app.rs:77) |
| Scheduling.TimeLeft | src/bin/blinkd.rs:221-230 | a timer's remaining time: the rest of the initial delay up to and including its last second, then the rest of the current interval; stated by `TimeLeftBounds` |
| Scheduling.TimeLeftBounds | src/bin/blinkd.rs:221-230 | before the end of the initial delay the remaining time reaches exactly the delay; afterwards it lies in [1, interval] and equals the interval exactly on a multiple of it (also src/app.rs:163-177) |
| Scheduling.Mult | src/bin/blinkd.rs:243 | the decline multiplier `(1/(1+decline))^prompts` as an exact rational; stated by `MultBounds` and `HalfDeclineExample` |
| Scheduling.MultBounds | src/bin/blinkd.rs:243 | the decline multiplier `(1/(1+decline))^prompts` is 1 when never prompted or with no decline; it is always positive; it is at most 1 for a non-negative decline, and strictly shrinking per prompt for a positive one |
| Scheduling.ScaledWait | src/bin/blinkd.rs:243-244 | the chosen timer's wait, its remaining time times the multiplier rounded up to a whole second; stated by `ScaledWaitBounds` and `Ceil` |
| Scheduling.ScaledWaitBounds | src/bin/blinkd.rs:243-244 | the scaled wait is the remaining time when the multiplier is 1, never more than it for a non-negative decline, and zero only when it is zero |
| Scheduling.HalfDeclineExample | src/config.rs:89-99 | the default hourly break (decline 0.5) waits 3600 s the first time and 2400 s after one prompt |
| Scheduling.Ceil | src/bin/blinkd.rs:244 | the least whole second at or above a fractional wait |
| Scheduling.RankLe | src/bin/blinkd.rs:234-238 | the comparator of `sort_by`: less time left first, equal time left to the higher weight; `RankOrder` states that it is a total order (also src/app.rs:182-186) |
| Scheduling.RankOrder | src/bin/blinkd.rs:234-238 | the comparator's order on (remaining time, weight) is total, antisymmetric and transitive |
| Scheduling.SortBy | src/bin/blinkd.rs:234-238 | the stable `sort_by` on a rank function; stated by `SortByCorrect`, `SortBySorted` and `SortByFirst` |
| Scheduling.SortByCorrect | src/bin/blinkd.rs:234-238 | `sort_by` returns a sorted permutation of its input that keeps the input order of entries with equal keys (also src/app.rs:182-186) |
| Scheduling.SortBySorted | src/bin/blinkd.rs:234-238 | an input already in order comes back unchanged |
| Scheduling.SortByFirst | src/bin/blinkd.rs:240-241 | the first entry of the sorted sequence ranks before or equal to every entry |
| DurationFormat.Serialize | src/config.rs:112-126 | `duration_format::serialize`; what it writes is stated by `SerializeShape`, and that it reads back by `RoundTrip` |
| DurationFormat.Fields | src/config.rs:128-176 | the checks of `deserialize` in their order, the total over unbounded integers; stated by `PartCount`, `TwoParts` and `ThreeParts` |
| DurationFormat.DeserializeWrapping | src/config.rs:128-176 | `deserialize` as written (u64 products and sums wrapping): every error of the checks is passed on, and results are below 2^64 |
| DurationFormat.Deserialize | src/config.rs:128-176 | the corrected `deserialize`: results stay below 2^64, and a total that does not fit is refused |
| DurationFormat.SerializeOpt | src/config.rs:184-192 | `None` is written as a none value and `Some(d)` as the plain form of `d` |
| DurationFormat.DeserializeOpt | src/config.rs:194-202 | a successful parse is wrapped in `Some`, and an error is passed on unchanged |
| DurationFormat.Decompose | src/config.rs:116-119 | hours, minutes and seconds add back up to the total, with minutes and seconds below 60 |
| DurationFormat.SerializeShape | src/config.rs:116-125 | `serialize` writes two-digit-padded `hh:mm:ss` when there is a whole hour, and `mm:ss` (five characters) otherwise |
| DurationFormat.PartCount | src/config.rs:133-135 | a string with neither two nor three colon-separated parts is refused with the format error (172-174) |
| DurationFormat.TwoParts | src/config.rs:136-149 | the `mm:ss` form is accepted iff both parts parse as `u64`, the seconds are at most 59 and the total fits; the value is `mins*60 + secs`; a bad part gives its own error |
| DurationFormat.ThreeParts | src/config.rs:151-170 | the `hh:mm:ss` form is accepted iff all parts parse, minutes and seconds are at most 59 and the total fits; the value is `hours*3600 + mins*60 + secs`; bad hours give their error |
| DurationFormat.RoundTrip | src/config.rs:112-176 | every duration that fits a `u64` of seconds reads back as itself |
| DurationFormat.RoundTripOpt | src/config.rs:184-202 | `Some(d)` is written in the plain form and reads back as `Some(d)` |
| DurationFormat.Canonical | src/config.rs:128-176 | every accepted string reads the same again after being written back in canonical form |
| DurationFormat.WrappingMisreads | src/config.rs:149 | every canonical `mm:ss` string (minutes fitting a `u64`, seconds at most 59) whose total does not fit a `u64` is read as written to the total modulo 2^64, a value below the total, and refused by the corrected parser (as-written half of a finding) |
| DurationFormat.BigMinutesMisread | src/config.rs:149 | `"307445734561825861:00"` is such a string: the parser as written reads it as 44 seconds, and the corrected parser refuses it with the overflow error |
| DurationFormat.WrappingAgrees | src/config.rs:149-170 | the two parsers agree wherever the total fits, and differ exactly on totals of 2^64 or more |
| Config.DefaultTimer | src/config.rs:76-88 | a timer with the derived defaults (no initial delay, weight 0, no sound, no command) except for its interval, decline and notification |
| Config.Default | src/config.rs:72-105 | two timers: 1200 s with no decline, then 3600 s with decline 0.5; no input tracking. `timeout_reset` is not a field of `src/config.rs`, and the model's default leaves it absent. Under Rust's `Option` ordering the default daemon then resets on every tick and never fires (`NoTimeoutResetNeverFires`) |
| Config.DefaultReadsBack | src/config.rs:16-23 | the default configuration is usable by the scheduler (every interval positive), and each interval written to the new file reads back as itself |
| BlinkTimer.FormatDuration | src/lib.rs:97-112 | `format_duration`, the `Layout` of the days, hours, minutes and seconds of a total; stated by `FormatFields`, `FormatShape`, `FormatHours` and `FormatIsSerialize` |
| BlinkTimer.Layout | src/lib.rs:105-111 | the text of four fields: an optional day count with `d `, an optional two-digit hour with `:`, then `MM:SS`; stated by `FormatShape` and `FormatHours` |
| BlinkTimer.DurationDisplay.ToString | src/lib.rs:89-95 | `Display for DurationDisplay` (what `Duration::display` returns) writes exactly `format_duration`; its properties are those of `FormatDuration` (`FormatFields`, `FormatShape`, `FormatHours`, `FormatIsSerialize`) |
| BlinkTimer.StatusDisplay | src/lib.rs:70-77 | `Display for Status`: the two formatted durations joined by a slash; stated by `StatusReadsBack` |
| Numerals.ParseU64 | src/config.rs:138-140 | `parse::<u64>`: an optional `+`, then at least one decimal digit and nothing else, with a value below 2^64, and none otherwise; its results are below 2^64, and every padded field the serializer writes parses back (`Pad2Parses`) |
| Numerals.Split | src/config.rs:133 | `split(':')`: at least one part, and no part holds the separator; stated further by `SplitTwo` and `SplitThree` |
| BlinkTimer.FormatFields | src/lib.rs:98-104 | days, hours, minutes and seconds recombine to the total, with hours below 24 and minutes and seconds below 60 |
| BlinkTimer.FormatShape | src/lib.rs:105-111 | the output ends in two-digit `MM:SS`. It contains a day marker iff there is a whole day. It is exactly five characters below an hour |
| BlinkTimer.FormatHours | src/lib.rs:108-110 | the `HH:` field is written iff the last day has whole hours, so a whole number of days with no spare hour omits it |
| BlinkTimer.FormatIsSerialize | src/lib.rs:97-112 | below a day `format_duration` writes the same text as the configuration format, so it reads back as itself |
| BlinkTimer.StatusReadsBack | src/lib.rs:70-77 | a status line is the two formatted durations joined by one slash, and below a day each of them reads back as its value |
| Util.FormatString | src/util.rs:15-21 | `format_string`: the first `{}` replaced by the input; stated by `FormatStringNone`, `FormatStringFirst` and `FormatStringSplit` |
| Numerals.Decimal | src/config.rs:122-124 | `{}` of an integer: at least one decimal digit and only digits, a single digit exactly below ten; `DecimalValue` states that it denotes the number (also src/lib.rs:106) |
| Numerals.Pad2 | src/config.rs:122-124 | `{:02}`: only digits, exactly two below 100; `Pad2Parses` states that it reads back as the number (also src/lib.rs:108-111) |
| Util.FindPlaceholder | src/util.rs:17 | `find("{}")` returns the first index of a placeholder, and none when there is no placeholder |
| Util.FormatStringNone | src/util.rs:15-21 | a template without a placeholder comes back unchanged |
| Util.FormatStringFirst | src/util.rs:17-18 | otherwise the result is the text before the first placeholder, then the input, then the rest of the template, later placeholders included; its length is `|source| - 2 + |input|` |
| Util.FormatStringSplit | src/util.rs:17-18 | a template made of text without a placeholder, then `{}`, then any rest, becomes the text, then the input, then the rest |
| Util.FormatStringGreeting | src/util.rs:25 | `format_string("Hello {}!", "world") == "Hello world!"` |
| Util.FormatStringAtEnd | src/util.rs:26 | `format_string("A & {}", "B") == "A & B"` |

## Left out

- `Daemon::run`, `handle_client`, the tokio tasks, the signals and the sockets are concurrency and I/O. A tick, a request and an activity message are each one method call here.
- `notify` (notification, random description, sound, shell command, lock screen): side effects outside the program. Firing is the returned `fired` flag.
- The terminal and log output of `update_timer` and `tick` is left out.
- The decline multiplier is `f64` `powf` in the source and an exact rational power here. The scaled wait is rounded up to a whole second, because the once-a-second tick fires at the first whole second at or past the fractional deadline.
- Durations are whole seconds. The sub-second part of the tick gap, of the scaled wait, and of `format_duration`'s rounding is not represented.
- `Duration` additions panic on overflow in the source: `elapsed + delta` in a tick (src/bin/blinkd.rs:196, src/app.rs:100) and `elapsed + time_left` for the deadline in `update_timer` (src/bin/blinkd.rs:255, src/app.rs:203). Here they are unbounded.
- Decline factors at or below -1 are outside the `Decline` type. For them `1/(1+decline)` is infinite or negative. While the timer has no prompts the power is 1, so it is scheduled normally. Once it is chosen again after a prompt, at -1 the factor is infinite and `from_secs_f64` panics; below -1 each odd prompt count gives a negative factor, which panics too.
- A zero interval makes `update_timer` divide by zero once its timer is past its initial delay. The model excludes more than that. Every interval must be at least one second (`WellFormed`, required by the constructors and kept as an invariant), even for a timer with an initial delay whose end is never reached, which the source schedules without panicking. Sub-second intervals, whose `as_secs()` is 0, cannot be written here anyway: durations are whole seconds.
- `get_unix_time() - last_input` is a `u64` subtraction that panics or wraps if the last input lies in the future. `ClockOk` requires that it does not.
- The time that passes between two clock reads inside one call is ignored. Each call takes one reading of each clock.
- `handle_msg` returns a `Result` in the source that is never an error. The model returns the response directly.
- `Status::new` is called with the deadline alone at src/bin/blinkd.rs:307, but takes two durations in src/lib.rs:62. The model follows src/lib.rs: the status carries the elapsed time and the deadline.
- The in-place `sort_by` on the timer vector is a library call. The model reassigns the `timers` sequence field with the value of the stable sort function.
- The periodic branch of the remaining time uses `elapsed % interval`, counted from elapsed zero and not from the end of the initial delay. The model follows the code.
- `lock_screen` of the app's timers is only read by `notify`, so it has no field.
- `App::run` before its loop (input-tracking thread, the first `update_timer`, the start notification) and the half-second sleep are left out. One iteration of its body is modelled.
- DeserializeOpt: does not read back what `SerializeOpt` writes for `None`. The source reads with `String::deserialize`, which refuses an explicit null, and the model's reader takes text only. For `initial_delay` the source skips `None` when writing and falls back to `None` when the field is missing, so a written configuration still reads back.
- `duration_format_opt::deserialize` is given the duration text. A missing field falls back to `None` through serde's `default`, which is serde behaviour and not part of this model.
- `Config::load_or_create`, `socket_path` and `actived_socket_path` are filesystem and environment access.
- src/async_socket.rs, src/bin/actived.rs, src/bin/blinkctl.rs, src/main.rs, src/lock_screen.rs, src/error.rs, and the rest of src/util.rs (`show_notification`, `start_input_tracking`, `execute_command`, `play_sound`; `notify` at src/bin/blinkd.rs:290 calls it as `exec_command`, a name src/util.rs does not define) are I/O and process plumbing, not part of this model.

## Findings

| source | as written | input that shows it | evidently intended | confidence | as-written member | corrected member |
|---|---|---|---|---|---|---|
| src/config.rs:149 | `mins * 60 + secs` on `u64`: minutes are unbounded, so the total wraps around in a release build (and panics in a debug build) | `"307445734561825861:00"` is read as 44 seconds | a total that does not fit is refused with an error | not executed | DurationFormat.WrappingMisreads | DurationFormat.Deserialize |
