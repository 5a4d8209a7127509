/**
 * `timestamp_ms_to_human_readable_utc` of the price predictor: epoch
 * milliseconds rendered as `YYYY-MM-DD HH:MM:SS UTC`, the reverse direction of
 * the trade feed's `to_ms`.
 */
module PredictorUtils {
  import opened Wrappers
  import opened Text
  import opened CivilTime
  import opened KrakenWebsocket

  /** `strftime("%Y-%m-%d %H:%M:%S UTC")` of a date-time. */
  function UtcText(dt: DateTime): (s: string)
    requires Valid(dt)
    ensures |s| == 23 && s[19..] == " UTC"
  {
    DateText(dt) + " " + ClockText(dt) + " UTC"
  }

  /** The fixed layout `YYYY-MM-DD HH:MM:SS UTC`. */
  predicate IsUtcLayout(s: string) {
    && |s| == 23
    && DigitsAt(s, 0, 4) && s[4] == '-' && DigitsAt(s, 5, 2) && s[7] == '-' && DigitsAt(s, 8, 2)
    && s[10] == ' ' && DigitsAt(s, 11, 2) && s[13] == ':' && DigitsAt(s, 14, 2) && s[16] == ':'
    && DigitsAt(s, 17, 2) && s[19..] == " UTC"
  }

  /** The date-time, to the second, that a string in the UTC layout shows. */
  function UtcFields(s: string): DateTime
    requires IsUtcLayout(s)
  {
    DateTime(Read4(s, 0), Read2(s, 5), Read2(s, 8), Read2(s, 11), Read2(s, 14), Read2(s, 17), 0)
  }

  /** The rendering is in the fixed layout and shows the date-time's fields, without its microseconds. */
  lemma UtcTextRoundTrip(dt: DateTime)
    requires Valid(dt)
    ensures IsUtcLayout(UtcText(dt)) && UtcFields(UtcText(dt)) == dt.(microsecond := 0)
  {
    var s := UtcText(dt);
    var date, clock := DateText(dt), ClockText(dt);
    assert s[0..10] == date && s[11..19] == clock;
    assert date[0..4] == Digits4(dt.year) && date[5..7] == Digits2(dt.month) && date[8..10] == Digits2(dt.day);
    assert clock[0..2] == Digits2(dt.hour) && clock[3..5] == Digits2(dt.minute) && clock[6..8] == Digits2(dt.second);
    Read4Digits4(s, 0, dt.year);
    Read2Digits2(s, 5, dt.month);
    Read2Digits2(s, 8, dt.day);
    Read2Digits2(s, 11, dt.hour);
    Read2Digits2(s, 14, dt.minute);
    Read2Digits2(s, 17, dt.second);
  }

  /**
   * `timestamp_ms_to_human_readable_utc`: the UTC date-time of the second in
   * which `ms` falls (`fromtimestamp` floors to the second, before 1970 too),
   * or `None` where `fromtimestamp` raises because the year leaves 1..9999.
   */
  function FormatUtc(ms: int): (r: Option<string>)
    ensures r.Some? <==> MinEpochSeconds <= ms / 1000 <= MaxEpochSeconds
    ensures r.Some? ==> |r.value| == 23 && r.value[19..] == " UTC"
  {
    match FromEpochSeconds(ms / 1000)
    case None => None
    case Some(dt) => Some(UtcText(dt))
  }

  /** The string for `ms` is the rendering of any valid date-time in the same second. */
  lemma FormatUtcOf(dt: DateTime, ms: int)
    requires Valid(dt) && EpochSeconds(dt) == ms / 1000
    ensures FormatUtc(ms) == Some(UtcText(dt))
  {
    EpochSecondsRoundTrip(dt);
    assert UtcText(dt) == UtcText(dt.(microsecond := 0));
  }

  /**
   * The string shows a valid calendar date and time of day (month 1 to 12, a
   * day within the month, leap years counted) whose epoch second is the one
   * `ms` falls in.
   */
  lemma FormatUtcFields(ms: int)
    requires FormatUtc(ms).Some?
    ensures IsUtcLayout(FormatUtc(ms).value)
    ensures Valid(UtcFields(FormatUtc(ms).value)) && EpochSeconds(UtcFields(FormatUtc(ms).value)) == ms / 1000
  {
    var dt := FromEpochSeconds(ms / 1000).value;
    UtcTextRoundTrip(dt);
  }

  /** Milliseconds give the same string exactly when they fall in the same second. */
  lemma FormatUtcSameSecond(a: int, b: int)
    requires FormatUtc(a).Some?
    ensures FormatUtc(a) == FormatUtc(b) <==> a / 1000 == b / 1000
  {
    if FormatUtc(a) == FormatUtc(b) {
      FormatUtcFields(a);
      FormatUtcFields(b);
    }
  }

  /** The first unit test: 1609459200000 is the start of 2021. */
  lemma FormatNewYear2021()
    ensures FormatUtc(1609459200000) == Some("2021-01-01 00:00:00 UTC")
  {
    var dt := DateTime(2021, 1, 1, 0, 0, 0, 0);
    NewYear2021Seconds();
    NewYear2021Text();
    FormatUtcOf(dt, 1609459200000);
  }

  lemma NewYear2021Seconds()
    ensures EpochSeconds(DateTime(2021, 1, 1, 0, 0, 0, 0)) == 1609459200
  {
  }

  lemma NewYear2021Text()
    ensures UtcText(DateTime(2021, 1, 1, 0, 0, 0, 0)) == "2021-01-01 00:00:00 UTC"
  {
    assert DateText(DateTime(2021, 1, 1, 0, 0, 0, 0)) == "2021-01-01";
    MidnightText(DateTime(2021, 1, 1, 0, 0, 0, 0));
  }

  /** The leap-year unit test: 1582934400000 is 29 February 2020. */
  lemma FormatLeapDay2020()
    ensures FormatUtc(1582934400000) == Some("2020-02-29 00:00:00 UTC")
  {
    var dt := DateTime(2020, 2, 29, 0, 0, 0, 0);
    LeapDay2020Seconds();
    LeapDay2020Text();
    FormatUtcOf(dt, 1582934400000);
  }

  lemma LeapDay2020Seconds()
    ensures Valid(DateTime(2020, 2, 29, 0, 0, 0, 0))
    ensures EpochSeconds(DateTime(2020, 2, 29, 0, 0, 0, 0)) == 1582934400
  {
  }

  lemma LeapDay2020Text()
    ensures UtcText(DateTime(2020, 2, 29, 0, 0, 0, 0)) == "2020-02-29 00:00:00 UTC"
  {
    assert DateText(DateTime(2020, 2, 29, 0, 0, 0, 0)) == "2020-02-29";
    MidnightText(DateTime(2020, 2, 29, 0, 0, 0, 0));
  }

  lemma MidnightText(dt: DateTime)
    requires Valid(dt) && dt.hour == 0 && dt.minute == 0 && dt.second == 0
    ensures ClockText(dt) == "00:00:00"
  {
  }

  // ---------------------------------------------------------------------------
  // With the feed's timestamps

  /** The date and the time of day that a feed timestamp shows, as `UtcText` writes them. */
  lemma IsoFieldsText(t: string)
    requires IsIsoLayout(t) && Valid(IsoFields(t))
    ensures UtcText(IsoFields(t)) == t[..10] + " " + t[11..19] + " UTC"
  {
    IsoDateText(t);
    IsoClockText(t);
  }

  /**
   * From 1970 on, formatting what `to_ms` gives for a feed timestamp shows
   * the timestamp's own date and time of day, cut to the second.
   */
  lemma FormatToMs(s: string)
    requires ParseTimestamp(s).Some? && ParseTimestamp(s).value.year >= 1970
    ensures ToMs(s).Some?
    ensures FormatUtc(ToMs(s).value) == Some(s[..10] + " " + s[11..19] + " UTC")
  {
    FormatMillisFrom1970(ParseTimestamp(s).value);
    ParsedText(s);
  }

  /** From 1970 on, the milliseconds of a date-time are shown as its date and time of day. */
  lemma FormatMillisFrom1970(dt: DateTime)
    requires Valid(dt) && dt.year >= 1970
    ensures FormatUtc(TruncToMillis(EpochMicros(dt))) == Some(UtcText(dt))
  {
    EpochSecondsFrom1970(dt);
    SecondOfMillis(EpochSeconds(dt), dt.microsecond);
    FormatUtcOf(dt, TruncToMillis(EpochMicros(dt)));
  }

  lemma EpochSecondsFrom1970(dt: DateTime)
    requires Valid(dt) && dt.year >= 1970
    ensures EpochSeconds(dt) >= 0
  {
    var epoch := DateTime(1970, 1, 1, 0, 0, 0, 0);
    EpochMicrosMonotone(epoch, dt);
    assert EpochMicros(epoch) == 0;
  }

  lemma SecondOfMillis(secs: int, micro: int)
    requires secs >= 0 && 0 <= micro < 1000000
    ensures TruncToMillis(secs * 1000000 + micro) / 1000 == secs
  {
    MillisOfMicros(secs, micro);
  }

  lemma ParsedText(s: string)
    requires ParseTimestamp(s).Some?
    ensures UtcText(ParseTimestamp(s).value) == s[..10] + " " + s[11..19] + " UTC"
  {
    var t := DropLast(s);
    IsoFieldsText(t);
    assert t[..10] == s[..10] && t[11..19] == s[11..19];
  }

  /**
   * Before 1970 the round trip can move to the next second: `to_ms` rounds
   * the negative count toward zero, so 23:59:58.999500 on 31 December 1969
   * becomes -1000 ms, which is shown as 23:59:59.
   */
  lemma FormatToMsBefore1970(z: char)
    ensures ToMs("1969-12-31T23:59:58.999500" + [z]) == Some(-1000)
    ensures FormatUtc(-1000) == Some("1969-12-31 23:59:59 UTC")
  {
    var dt := DateTime(1969, 12, 31, 23, 59, 58, 999500);
    var shown := DateTime(1969, 12, 31, 23, 59, 59, 0);
    Before1970Text();
    Before1970Seconds();
    ToMsOfFeedText(dt, z, -1000);
    Before1970Shown();
    FormatUtcOf(shown, -1000);
  }

  lemma Before1970Text()
    ensures IsoFormat(DateTime(1969, 12, 31, 23, 59, 58, 999500)) == "1969-12-31T23:59:58.999500"
  {
    Before1970Date(DateTime(1969, 12, 31, 23, 59, 58, 999500));
    Before1970Clock();
    Before1970Fraction();
  }

  lemma Before1970Date(dt: DateTime)
    requires Valid(dt) && dt.year == 1969 && dt.month == 12 && dt.day == 31
    ensures DateText(dt) == "1969-12-31"
  {
  }

  lemma Before1970Clock()
    ensures ClockText(DateTime(1969, 12, 31, 23, 59, 58, 999500)) == "23:59:58"
  {
  }

  lemma Before1970Fraction()
    ensures Digits6(999500) == "999500"
  {
  }

  lemma Before1970Seconds()
    ensures TruncToMillis(EpochMicros(DateTime(1969, 12, 31, 23, 59, 58, 999500))) == -1000
  {
    assert EpochSeconds(DateTime(1969, 12, 31, 23, 59, 58, 999500)) == -2;
  }

  lemma Before1970Shown()
    ensures EpochSeconds(DateTime(1969, 12, 31, 23, 59, 59, 0)) == -1
    ensures UtcText(DateTime(1969, 12, 31, 23, 59, 59, 0)) == "1969-12-31 23:59:59 UTC"
  {
    Before1970Date(DateTime(1969, 12, 31, 23, 59, 59, 0));
    Before1970ShownClock();
  }

  lemma Before1970ShownClock()
    ensures ClockText(DateTime(1969, 12, 31, 23, 59, 59, 0)) == "23:59:59"
  {
  }
}
