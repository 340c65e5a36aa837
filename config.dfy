/** The configuration records of `src/config.rs`, with the fields the
    schedulers read (a few of which that file does not declare: `weight`,
    `timeout_reset`, and the input-tracking thresholds under the names the
    scheduler uses), and `Config::default`. Durations are whole seconds. */
module Config {
  import opened Wrappers
  import DurationFormat

  /** A `u8`, the type of a timer's weight (it is passed on as the
      notification urgency). */
  type Byte = w: int | 0 <= w < 256

  /** The decline factor, an `f64` in the source, here an exact rational.
      Factors at or below -1 make the source's multiplier infinite or
      negative; they are not representable. */
  type Decline = d: real | d > -1.0 witness 0.0

  datatype Notification = Notification(title: string, descriptions: seq<string>, timeout: Option<nat>)

  /** One timer definition of the catalogue. */
  datatype Timer = Timer(
    interval: nat,
    initialDelay: Option<nat>,
    decline: Decline,
    weight: Byte,
    notification: Option<Notification>,
    sound: Option<string>,
    command: Option<string>)

  /** The thresholds `inactivity_pause` and `inactivity_reset` on the time
      since the last input. */
  datatype InputTracking = InputTracking(inactivityPause: nat, inactivityReset: nat)

  datatype Config = Config(
    timers: seq<Timer>,
    inputTracking: Option<InputTracking>,
    timeoutReset: Option<nat>)

  /** A timer with the defaults of `#[derive(Default)]` but for its interval,
      decline and notification. */
  function DefaultTimer(interval: nat, decline: Decline, notification: Notification): (t: Timer)
    ensures t.interval == interval && t.decline == decline
    ensures t.initialDelay.None? && t.weight == 0 && t.sound.None? && t.command.None?
  {
    Timer(interval, None, decline, 0, Some(notification), None, None)
  }

  /** The notifications of the default timers. */
  const MICROBREAK: Notification := Notification("Microbreak",
    [ "Look away from your screen for 20 seconds.",
      "Roll your shoulders and stretch your neck.",
      "Stand up and change your posture." ], Some(10))

  const TAKE_A_BREAK: Notification := Notification("Take a break!",
    [ "You've been at your screen for {}. Time for a short walk or a stretch!" ],
    Some(0)) // a zero timeout never expires

  /** `Config::default`: a 20 minute micro-break without decline and an hourly
      break with decline 0.5, no timeout reset and no input tracking. */
  function Default(): (c: Config)
    ensures |c.timers| == 2
    ensures c.timers[0].interval == 1200 && c.timers[0].decline == 0.0
    ensures c.timers[1].interval == 3600 && c.timers[1].decline == 0.5
    ensures c.timeoutReset.None? && c.inputTracking.None?
  {
    Config(
      [ DefaultTimer(60 * 20, 0.0, MICROBREAK),
        DefaultTimer(60 * 60, 0.5, TAKE_A_BREAK) ],
      None,
      None)
  }

  /** What the scheduler needs of a configuration: every interval is at least
      a second (a zero interval makes `update_timer` divide by zero). */
  predicate WellFormed(c: Config)
  {
    forall i :: 0 <= i < |c.timers| ==> c.timers[i].interval > 0
  }

  /** The default configuration is usable by the scheduler, and the file it
      is written to on first start is read back with the same intervals. */
  lemma DefaultReadsBack()
    ensures WellFormed(Default())
    ensures forall i :: 0 <= i < |Default().timers| ==>
      DurationFormat.Deserialize(DurationFormat.Serialize(Default().timers[i].interval))
        == Ok(Default().timers[i].interval)
  {
    DurationFormat.RoundTrip(1200);
    DurationFormat.RoundTrip(3600);
  }
}
