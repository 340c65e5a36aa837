/** The text form of durations in the configuration file (`serde` modules
    `duration_format` and `duration_format_opt` of `src/config.rs`): whole
    seconds written as `mm:ss` or `hh:mm:ss`. */
module DurationFormat {
  import opened Wrappers
  import opened Numerals

  /** Why a duration string is refused; one case per message of the source. */
  datatype DurationError =
    | BadHours          // "failed to parse hours"
    | BadMinutes        // "failed to parse minutes"
    | BadSeconds        // "failed to parse seconds"
    | MinutesOutOfRange // "minutes must be in range 0-59"
    | SecondsOutOfRange // "seconds must be in range 0-59"
    | BadFormat         // "duration must be in format 'mm:ss' or 'hh:mm:ss'"
    | Overflow          // the total does not fit a u64 (see DeserializeWrapping)

  /** What a serde serializer is handed: a string, or the unit "none". */
  datatype Scalar = Null | Text(text: string)

  /** `duration_format::serialize`: `hh:mm:ss` when there is at least one
      whole hour, `mm:ss` otherwise; every field at least two digits. */
  function Serialize(total: nat): string
  {
    var hours := total / 3600;
    var mins := (total % 3600) / 60;
    var secs := total % 60;
    if hours > 0 then Pad2(hours) + ":" + Pad2(mins) + ":" + Pad2(secs)
    else Pad2(mins) + ":" + Pad2(secs)
  }

  /** The checks of `duration_format::deserialize` in their order, with the
      total computed over unbounded integers. */
  function Fields(s: string): (r: Result<nat, DurationError>)
  {
    var parts := Split(s, ':');
    if |parts| == 2 then
      var mins := ParseU64(parts[0]);
      var secs := ParseU64(parts[1]);
      if mins.None? then Err(BadMinutes)
      else if secs.None? then Err(BadSeconds)
      else if secs.value > 59 then Err(SecondsOutOfRange)
      else Ok(mins.value * 60 + secs.value)
    else if |parts| == 3 then
      var hours := ParseU64(parts[0]);
      var mins := ParseU64(parts[1]);
      var secs := ParseU64(parts[2]);
      if hours.None? then Err(BadHours)
      else if mins.None? then Err(BadMinutes)
      else if secs.None? then Err(BadSeconds)
      else if mins.value > 59 then Err(MinutesOutOfRange)
      else if secs.value > 59 then Err(SecondsOutOfRange)
      else Ok(hours.value * 3600 + mins.value * 60 + secs.value)
    else Err(BadFormat)
  }

  /** `duration_format::deserialize` as written, in a release build: the u64
      products and sums wrap around modulo 2^64. */
  function DeserializeWrapping(s: string): (r: Result<nat, DurationError>)
    ensures r.Ok? ==> r.value < U64_LIMIT
    ensures Fields(s).Err? ==> r == Fields(s)
  {
    match Fields(s)
    case Ok(total) => Ok(total % U64_LIMIT)
    case Err(e) => Err(e)
  }

  /** `duration_format::deserialize` with the overflow refused instead of
      wrapped; the rest of the model reads durations with this one. */
  function Deserialize(s: string): (r: Result<nat, DurationError>)
    ensures r.Ok? ==> r.value < U64_LIMIT
  {
    match Fields(s)
    case Ok(total) => if total < U64_LIMIT then Ok(total) else Err(Overflow)
    case Err(e) => Err(e)
  }

  /** `duration_format_opt::serialize`. */
  function SerializeOpt(d: Option<nat>): (v: Scalar)
    ensures v.Null? <==> d.None?
    ensures d.Some? ==> v.text == Serialize(d.value)
  {
    match d
    case None => Null
    case Some(total) => Text(Serialize(total))
  }

  /** `duration_format_opt::deserialize`: a successful parse wrapped in
      `Some`, an error passed on. */
  function DeserializeOpt(s: string): (r: Result<Option<nat>, DurationError>)
    ensures r.Ok? <==> Deserialize(s).Ok?
    ensures r.Ok? ==> r.value == Some(Deserialize(s).value)
    ensures r.Err? ==> r.error == Deserialize(s).error
  {
    match Deserialize(s)
    case Ok(total) => Ok(Some(total))
    case Err(e) => Err(e)
  }

  // ---------------------------------------------------------------------
  // What the serializer writes

  /** The hour, minute and second fields of a total: minutes and seconds
      below 60, and they add back up to the total. */
  lemma Decompose(total: nat)
    ensures var h, m, s := total / 3600, (total % 3600) / 60, total % 60;
      m < 60 && s < 60 && h * 3600 + m * 60 + s == total
  {
    var h, r := total / 3600, total % 3600;
    var m, s := r / 60, r % 60;
    assert total == 60 * (60 * h + m) + s;
    Mod60Of(total, 60 * h + m, s);
  }

  /** The fields written are the hour, minute and second of `total`,
      separated by colons; the short form exactly when there is no whole
      hour, and then it is five characters long. */
  lemma SerializeShape(total: nat)
    ensures var h, m, s := total / 3600, (total % 3600) / 60, total % 60;
      Split(Serialize(total), ':') ==
        (if h > 0 then [Pad2(h), Pad2(m), Pad2(s)] else [Pad2(m), Pad2(s)])
    ensures total < 3600 <==> |Split(Serialize(total), ':')| == 2
    ensures total < 3600 ==> |Serialize(total)| == 5
  {
    var h, m, s := total / 3600, (total % 3600) / 60, total % 60;
    Decompose(total);
    var ph, pm, ps := Pad2(h), Pad2(m), Pad2(s);
    DigitsHaveNo(pm, ':');
    DigitsHaveNo(ps, ':');
    if h > 0 {
      DigitsHaveNo(ph, ':');
      SplitThree(ph, pm, ps, ':');
      assert Serialize(total) == ph + [':'] + pm + [':'] + ps;
    } else {
      SplitTwo(pm, ps, ':');
      assert Serialize(total) == pm + [':'] + ps;
    }
  }

  // ---------------------------------------------------------------------
  // What the parser accepts

  /** Only two or three colon-separated parts can be accepted. */
  lemma PartCount(s: string)
    requires |Split(s, ':')| != 2 && |Split(s, ':')| != 3
    ensures Deserialize(s) == Err(BadFormat)
  {
  }

  /** The `mm:ss` form: minutes unbounded, seconds at most 59, and the value
      is `mins * 60 + secs`. */
  lemma TwoParts(s: string, a: string, b: string)
    requires Split(s, ':') == [a, b]
    ensures Deserialize(s).Ok? <==>
      ParseU64(a).Some? && ParseU64(b).Some? && ParseU64(b).value <= 59
      && ParseU64(a).value * 60 + ParseU64(b).value < U64_LIMIT
    ensures Deserialize(s).Ok? ==>
      Deserialize(s).value == ParseU64(a).value * 60 + ParseU64(b).value
    ensures ParseU64(a).None? ==> Deserialize(s) == Err(BadMinutes)
    ensures ParseU64(a).Some? && ParseU64(b).None? ==> Deserialize(s) == Err(BadSeconds)
  {
  }

  /** The `hh:mm:ss` form: minutes and seconds at most 59, hours unbounded,
      and the value is `hours * 3600 + mins * 60 + secs`. */
  lemma ThreeParts(s: string, a: string, b: string, c: string)
    requires Split(s, ':') == [a, b, c]
    ensures Deserialize(s).Ok? <==>
      ParseU64(a).Some? && ParseU64(b).Some? && ParseU64(c).Some?
      && ParseU64(b).value <= 59 && ParseU64(c).value <= 59
      && ParseU64(a).value * 3600 + ParseU64(b).value * 60 + ParseU64(c).value < U64_LIMIT
    ensures Deserialize(s).Ok? ==>
      Deserialize(s).value == ParseU64(a).value * 3600 + ParseU64(b).value * 60 + ParseU64(c).value
    ensures ParseU64(a).None? ==> Deserialize(s) == Err(BadHours)
  {
  }

  // ---------------------------------------------------------------------
  // Round trips

  lemma FieldsOfTwo(s: string, a: string, b: string, m: nat, x: nat)
    requires Split(s, ':') == [a, b] && ParseU64(a) == Some(m) && ParseU64(b) == Some(x)
    requires x <= 59
    ensures Fields(s) == Ok(m * 60 + x)
  {
  }

  lemma FieldsOfThree(s: string, a: string, b: string, c: string, h: nat, m: nat, x: nat)
    requires Split(s, ':') == [a, b, c]
    requires ParseU64(a) == Some(h) && ParseU64(b) == Some(m) && ParseU64(c) == Some(x)
    requires m <= 59 && x <= 59
    ensures Fields(s) == Ok(h * 3600 + m * 60 + x)
  {
  }

  lemma FieldsOfLong(total: nat, h: nat, m: nat, s: nat)
    requires total < U64_LIMIT && h == total / 3600 > 0
    requires m == (total % 3600) / 60 && s == total % 60
    ensures Fields(Serialize(total)) == Ok(total)
  {
    Decompose(total);
    SerializeShape(total);
    Pad2Parses(h);
    Pad2Parses(m);
    Pad2Parses(s);
    FieldsOfThree(Serialize(total), Pad2(h), Pad2(m), Pad2(s), h, m, s);
  }

  lemma FieldsOfShort(total: nat, m: nat, s: nat)
    requires total < 3600
    requires m == (total % 3600) / 60 && s == total % 60
    ensures Fields(Serialize(total)) == Ok(total)
  {
    Decompose(total);
    SerializeShape(total);
    Pad2Parses(m);
    Pad2Parses(s);
    FieldsOfTwo(Serialize(total), Pad2(m), Pad2(s), m, s);
  }

  lemma FieldsOfSerialize(total: nat)
    requires total < U64_LIMIT
    ensures Fields(Serialize(total)) == Ok(total)
  {
    if total / 3600 > 0 {
      FieldsOfLong(total, total / 3600, (total % 3600) / 60, total % 60);
    } else {
      FieldsOfShort(total, (total % 3600) / 60, total % 60);
    }
  }

  /** Every duration that fits the source's u64 seconds is read back as
      itself. */
  lemma RoundTrip(total: nat)
    requires total < U64_LIMIT
    ensures Deserialize(Serialize(total)) == Ok(total)
  {
    FieldsOfSerialize(total);
  }

  /** The optional form: `Some(d)` is written as the plain form, which reads
      back as `Some(d)`. */
  lemma RoundTripOpt(total: nat)
    requires total < U64_LIMIT
    ensures SerializeOpt(Some(total)).Text?
    ensures DeserializeOpt(SerializeOpt(Some(total)).text) == Ok(Some(total))
  {
    RoundTrip(total);
  }

  /** Every accepted string denotes the value it is read as, and so is read
      the same again after being written back in canonical form. */
  lemma Canonical(s: string)
    requires Deserialize(s).Ok?
    ensures Deserialize(Serialize(Deserialize(s).value)) == Deserialize(s)
  {
    RoundTrip(Deserialize(s).value);
  }

  // ---------------------------------------------------------------------
  // The u64 overflow of the mm:ss form

  const BIG_MINUTES: nat := 307445734561825861

  /** A well-formed `mm:ss` string whose minutes fit a u64 but whose total
      does not: as written it is read as the total modulo 2^64, a value
      below the total; the corrected parser refuses it. */
  lemma WrappingMisreads(m: nat, x: nat)
    requires m < U64_LIMIT && x <= 59 && m * 60 + x >= U64_LIMIT
    ensures DeserializeWrapping(Decimal(m) + ":" + Pad2(x)) == Ok((m * 60 + x) % U64_LIMIT)
    ensures (m * 60 + x) % U64_LIMIT < m * 60 + x
    ensures Deserialize(Decimal(m) + ":" + Pad2(x)) == Err(Overflow)
  {
    var s, t := Decimal(m) + ":" + Pad2(x), m * 60 + x;
    MinutesSeconds(m, x);
    WrapsTotal(s, t);
  }

  /** A string whose checks pass with a total beyond the u64 range. */
  lemma WrapsTotal(s: string, t: nat)
    requires Fields(s) == Ok(t) && t >= U64_LIMIT
    ensures DeserializeWrapping(s) == Ok(t % U64_LIMIT) && t % U64_LIMIT < t
    ensures Deserialize(s) == Err(Overflow)
  {
  }

  /** `m:ss` is read as `m * 60 + ss` before any u64 limit applies. */
  lemma MinutesSeconds(m: nat, x: nat)
    requires m < U64_LIMIT && x <= 59
    ensures Fields(Decimal(m) + ":" + Pad2(x)) == Ok(m * 60 + x)
  {
    var a, z := Decimal(m), Pad2(x);
    DigitsHaveNo(a, ':');
    DigitsHaveNo(z, ':');
    SplitTwo(a, z, ':');
    assert a + ":" + z == a + [':'] + z;
    DecimalValue(m);
    Pad2Parses(x);
    assert a[0] != '+';
    assert ParseU64(a) == Some(m);
    FieldsOfTwo(a + ":" + z, a, z, m, x);
  }

  lemma WrapOnce(x: nat)
    requires U64_LIMIT <= x < 2 * U64_LIMIT
    ensures x % U64_LIMIT == x - U64_LIMIT
  {
  }

  /** `"307445734561825861:00"` is such a string: as written it is read as
      44 seconds, and the corrected parser refuses it. */
  lemma BigMinutesMisread()
    ensures U64_LIMIT <= BIG_MINUTES * 60 < 2 * U64_LIMIT
    ensures BIG_MINUTES * 60 - U64_LIMIT == 44
    ensures DeserializeWrapping("307445734561825861:00") == Ok(44)
    ensures Deserialize("307445734561825861:00") == Err(Overflow)
  {
    assert U64_LIMIT <= BIG_MINUTES * 60 < 2 * U64_LIMIT;
    WrappingMisreads(BIG_MINUTES, 0);
    WrapOnce(BIG_MINUTES * 60);
    BigMinutesText();
  }

  lemma BigMinutesText()
    ensures Decimal(BIG_MINUTES) + ":" + Pad2(0) == "307445734561825861:00"
  {
    BigMinutesDigits();
    assert Pad2(0) == "00";
  }

  lemma BigMinutesPrefix()
    ensures Decimal(307445734) == "307445734"
  {
    assert Decimal(3) == "3";
    assert Decimal(30) == "30";
    assert Decimal(307) == "307";
    assert Decimal(3074) == "3074";
    assert Decimal(30744) == "30744";
    assert Decimal(307445) == "307445";
    assert Decimal(3074457) == "3074457";
    assert Decimal(30744573) == "30744573";
  }

  /** The decimal digits of `BIG_MINUTES`. */
  lemma BigMinutesDigits()
    ensures Decimal(BIG_MINUTES) == "307445734561825861"
  {
    BigMinutesPrefix();
    assert Decimal(3074457345) == "3074457345";
    assert Decimal(30744573456) == "30744573456";
    assert Decimal(307445734561) == "307445734561";
    assert Decimal(3074457345618) == "3074457345618";
    assert Decimal(30744573456182) == "30744573456182";
    assert Decimal(307445734561825) == "307445734561825";
    assert Decimal(3074457345618258) == "3074457345618258";
    assert Decimal(30744573456182586) == "30744573456182586";
    assert Decimal(307445734561825861) == "307445734561825861";
  }

  /** Wherever the total fits, the two parsers agree; they differ exactly on
      the strings whose total overflows. */
  lemma WrappingAgrees(s: string)
    ensures Fields(s).Ok? && Fields(s).value < U64_LIMIT ==> DeserializeWrapping(s) == Deserialize(s)
    ensures Deserialize(s) == Err(Overflow) <==> Fields(s).Ok? && Fields(s).value >= U64_LIMIT
  {
  }
}
