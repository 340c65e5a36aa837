/** The shared types of the crate root (`src/lib.rs`): the control-socket
    messages, the activity message, and the human-readable duration format
    used for status lines and log messages. */
module BlinkTimer {
  import opened Wrappers
  import opened Numerals
  import DurationFormat

  /** A request of the control client. */
  datatype IpcRequest = StatusRequest | Toggle | Reset

  /** The daemon's status: time elapsed and the elapsed time at which the
      next timer is due (`Status::new` stores both as given). */
  datatype Status = Status(elapsed: nat, nextTimer: nat)

  datatype IpcResponse = Ok | StatusResponse(status: Status)

  /** What the activity tracker sends: the Unix time (seconds) of the last
      input. */
  datatype ActivityMessage = ActivityMessage(lastInput: nat)

  /** `format_duration`: `Nd ` when there are whole days, `HH:` when there
      are whole hours in the last day, then always `MM:SS`. */
  function FormatDuration(total: nat): string
  {
    Layout(total / 86400, (total % 86400) / 3600, (total % 3600) / 60, total % 60)
  }

  /** The printed fields: the day count and the hours only when non-zero. */
  function Layout(days: nat, hours: nat, minutes: nat, secs: nat): string
  {
    (if days > 0 then Decimal(days) + "d " else "")
      + (if hours > 0 then Pad2(hours) + ":" else "")
      + Pad2(minutes) + ":" + Pad2(secs)
  }

  /** `Display for DurationDisplay`: the same format. */
  datatype DurationDisplay = DurationDisplay(duration: nat) {
    function ToString(): string
    {
      FormatDuration(duration)
    }
  }

  /** `Display for Status`: both durations, separated by a slash. */
  function StatusDisplay(st: Status): string
  {
    FormatDuration(st.elapsed) + "/" + FormatDuration(st.nextTimer)
  }

  /** The four fields add back up to the total and each but the days stays
      within its range. */
  lemma FormatFields(total: nat)
    ensures var days, hours, minutes, secs :=
        total / 86400, (total % 86400) / 3600, (total % 3600) / 60, total % 60;
      && days * 86400 + hours * 3600 + minutes * 60 + secs == total
      && hours < 24 && minutes < 60 && secs < 60
  {
    var d, r1 := total / 86400, total % 86400;
    var h, r2 := r1 / 3600, r1 % 3600;
    var m, sec := r2 / 60, r2 % 60;
    assert total == 3600 * (24 * d + h) + r2;
    Mod3600Of(total, 24 * d + h, r2);
    assert total == 60 * (60 * (24 * d + h) + m) + sec;
    Mod60Of(total, 60 * (24 * d + h) + m, sec);
  }

  lemma LayoutTail(days: nat, hours: nat, minutes: nat, secs: nat)
    requires minutes < 60 && secs < 60
    ensures var o := Layout(days, hours, minutes, secs);
      && |o| >= 5
      && o[|o| - 5..] == Pad2(minutes) + ":" + Pad2(secs)
      && (days == 0 && hours == 0 ==> |o| == 5)
  {
    var dp := if days > 0 then Decimal(days) + "d " else "";
    var hp := if hours > 0 then Pad2(hours) + ":" else "";
    var tail := Pad2(minutes) + ":" + Pad2(secs);
    var o := Layout(days, hours, minutes, secs);
    assert o == (dp + hp) + tail;
    assert o[|o| - 5..] == tail;
  }

  lemma Leading(p: string, a: string, b: string, c: string)
    ensures |p + a + b + ":" + c| >= |p|
    ensures (p + a + b + ":" + c)[..|p|] == p
  {
    assert p + a + b + ":" + c == p + (a + b + ":" + c);
  }

  lemma DayMark(days: nat, hours: nat, minutes: nat, secs: nat)
    requires days > 0
    ensures var o, n := Layout(days, hours, minutes, secs), |Decimal(days)|;
      && |o| >= n + 2 && o[..n + 2] == Decimal(days) + "d "
      && 'd' in o
  {
    var p := Decimal(days) + "d ";
    Leading(p, if hours > 0 then Pad2(hours) + ":" else "", Pad2(minutes), Pad2(secs));
    assert p[|Decimal(days)|] == 'd';
  }

  lemma NoDayMark(days: nat, hours: nat, minutes: nat, secs: nat)
    requires days == 0
    ensures 'd' !in Layout(days, hours, minutes, secs)
  {
    DigitsHaveNo(Pad2(minutes), 'd');
    DigitsHaveNo(Pad2(secs), 'd');
    DigitsHaveNo(Pad2(hours), 'd');
  }

  lemma LayoutDays(days: nat, hours: nat, minutes: nat, secs: nat)
    ensures 'd' in Layout(days, hours, minutes, secs) <==> days > 0
  {
    if days > 0 {
      DayMark(days, hours, minutes, secs);
    } else {
      NoDayMark(days, hours, minutes, secs);
    }
  }

  /** The output always ends in two-digit minutes and seconds; it shows a day
      count exactly when there is a whole day, and then begins with it and
      `"d "`; it is five characters when below an hour. */
  lemma FormatShape(total: nat)
    ensures var o := FormatDuration(total);
      && |o| >= 5
      && o[|o| - 5..] == Pad2((total % 3600) / 60) + ":" + Pad2(total % 60)
      && ('d' in o <==> total >= 86400)
      && (total >= 86400 ==> var n := |Decimal(total / 86400)|;
           |o| >= n + 2 && o[..n + 2] == Decimal(total / 86400) + "d ")
      && (total < 3600 ==> |o| == 5)
  {
    var days, hours, minutes, secs := total / 86400, (total % 86400) / 3600, (total % 3600) / 60, total % 60;
    LayoutTail(days, hours, minutes, secs);
    LayoutDays(days, hours, minutes, secs);
    if days > 0 {
      DayMark(days, hours, minutes, secs);
    }
    if total < 3600 {
      assert days == 0 && total % 86400 == total;
    }
  }

  lemma LayoutFields(days: nat, hours: nat, minutes: nat, secs: nat)
    ensures |Split(Layout(days, hours, minutes, secs), ':')| == (if hours > 0 then 3 else 2)
  {
    var pm, ps := Pad2(minutes), Pad2(secs);
    var dp := if days > 0 then Decimal(days) + "d " else "";
    DigitsHaveNo(pm, ':');
    DigitsHaveNo(ps, ':');
    assert ':' !in dp by {
      if days > 0 {
        DigitsHaveNo(Decimal(days), ':');
      }
    }
    if hours > 0 {
      var ph := Pad2(hours);
      DigitsHaveNo(ph, ':');
      assert ':' !in dp + ph;
      assert Layout(days, hours, minutes, secs) == (dp + ph) + [':'] + pm + [':'] + ps;
      SplitThree(dp + ph, pm, ps, ':');
    } else {
      assert Layout(days, hours, minutes, secs) == (dp + pm) + [':'] + ps;
      assert ':' !in dp + pm;
      SplitTwo(dp + pm, ps, ':');
    }
  }

  /** The hour field is shown exactly when there are whole hours left in the
      last day (so a whole number of days with no extra hour omits it): the
      output has three colon-separated fields then, two otherwise. */
  lemma FormatHours(total: nat)
    ensures var hours := (total % 86400) / 3600;
      |Split(FormatDuration(total), ':')| == (if hours > 0 then 3 else 2)
  {
    LayoutFields(total / 86400, (total % 86400) / 3600, (total % 3600) / 60, total % 60);
  }

  /** Below a day the status format and the configuration's duration format
      coincide, so a displayed duration reads back as itself. */
  lemma FormatIsSerialize(total: nat)
    requires total < 86400
    ensures FormatDuration(total) == DurationFormat.Serialize(total)
    ensures DurationFormat.Deserialize(FormatDuration(total)) == Result.Ok(total)
  {
    var h, m, sec := total / 3600, (total % 3600) / 60, total % 60;
    assert total / 86400 == 0 && total % 86400 == total;
    var tail := Pad2(m) + ":" + Pad2(sec);
    assert FormatDuration(total) == (if h > 0 then Pad2(h) + ":" else "") + tail;
    assert DurationFormat.Serialize(total) == (if h > 0 then Pad2(h) + ":" else "") + tail;
    DurationFormat.RoundTrip(total);
  }

  lemma NoSlash(total: nat)
    ensures '/' !in FormatDuration(total)
  {
    var days, hours := total / 86400, (total % 86400) / 3600;
    DigitsHaveNo(Pad2((total % 3600) / 60), '/');
    DigitsHaveNo(Pad2(total % 60), '/');
    DigitsHaveNo(Pad2(hours), '/');
    DigitsHaveNo(Decimal(days), '/');
  }

  /** A status line splits at its one slash into the two durations, and
      below a day each of them reads back as the value shown. */
  lemma StatusReadsBack(st: Status)
    ensures Split(StatusDisplay(st), '/') == [FormatDuration(st.elapsed), FormatDuration(st.nextTimer)]
    ensures st.elapsed < 86400 && st.nextTimer < 86400 ==>
      && DurationFormat.Deserialize(Split(StatusDisplay(st), '/')[0]) == Result.Ok(st.elapsed)
      && DurationFormat.Deserialize(Split(StatusDisplay(st), '/')[1]) == Result.Ok(st.nextTimer)
  {
    NoSlash(st.elapsed);
    NoSlash(st.nextTimer);
    SplitTwo(FormatDuration(st.elapsed), FormatDuration(st.nextTimer), '/');
    assert StatusDisplay(st) == FormatDuration(st.elapsed) + ['/'] + FormatDuration(st.nextTimer);
    if st.elapsed < 86400 && st.nextTimer < 86400 {
      FormatIsSerialize(st.elapsed);
      FormatIsSerialize(st.nextTimer);
    }
  }
}
