/**
 * Proleptic Gregorian calendar arithmetic as Python's `datetime` performs it:
 * a date-time is turned into seconds since the Unix epoch (what
 * `datetime.timestamp()` does for an aware UTC value) and back (what
 * `datetime.fromtimestamp(t, tz=timezone.utc)` does). Years run from 1 to 9999,
 * as `datetime.MINYEAR` and `datetime.MAXYEAR` allow.
 */
module CivilTime {
  import opened Wrappers
  import opened Text

  const MinYear := 1
  const MaxYear := 9999

  /** Days from 0001-01-01 to 1970-01-01. */
  const EpochDay := 719162


  predicate IsLeapYear(y: int) {
    y % 4 == 0 && (y % 100 != 0 || y % 400 == 0)
  }

  function DaysInYear(y: int): int {
    if IsLeapYear(y) then 366 else 365
  }

  function DaysInMonth(y: int, m: int): (n: int)
    requires 1 <= m <= 12
    ensures 28 <= n <= 31
  {
    if m == 2 then (if IsLeapYear(y) then 29 else 28)
    else if m == 4 || m == 6 || m == 9 || m == 11 then 30
    else 31
  }

  /** Days of a common year before the first of each month; the last entry is the whole year. */
  const CommonDaysBeforeMonth: seq<int> := [0, 31, 59, 90, 120, 151, 181, 212, 243, 273, 304, 334, 365]

  /** Days of year `y` that come before the first of month `m` (`m == 13`: the whole year). */
  function DaysBeforeMonth(y: int, m: int): (n: int)
    requires 1 <= m <= 13
  {
    CommonDaysBeforeMonth[m - 1] + (if m > 2 && IsLeapYear(y) then 1 else 0)
  }

  /** Each month starts where the previous one ends. */
  lemma DaysBeforeNextMonth(y: int, m: int)
    requires 1 <= m <= 12
    ensures DaysBeforeMonth(y, m + 1) == DaysBeforeMonth(y, m) + DaysInMonth(y, m)
  {
  }

  /** Days from 0001-01-01 to the first of January of year `y`. */
  function DaysBeforeYear(y: int): int
    requires y >= 1
  {
    var p := y - 1;
    365 * p + p / 4 - p / 100 + p / 400
  }

  /** A calendar date and time of day, the fields `datetime` keeps. */
  datatype DateTime = DateTime(year: int, month: int, day: int,
                               hour: int, minute: int, second: int, microsecond: int)

  /** The field ranges `datetime`'s constructor enforces. */
  predicate Valid(dt: DateTime) {
    && MinYear <= dt.year <= MaxYear
    && 1 <= dt.month <= 12
    && 1 <= dt.day <= DaysInMonth(dt.year, dt.month)
    && 0 <= dt.hour < 24
    && 0 <= dt.minute < 60
    && 0 <= dt.second < 60
    && 0 <= dt.microsecond < 1000000
  }

  /** Days from 0001-01-01 to the date of `dt`. */
  function DayNumber(dt: DateTime): int
    requires Valid(dt)
  {
    DaysBeforeYear(dt.year) + DaysBeforeMonth(dt.year, dt.month) + dt.day - 1
  }

  function SecondOfDay(dt: DateTime): (s: int)
    requires Valid(dt)
    ensures 0 <= s < 86400
  {
    dt.hour * 3600 + dt.minute * 60 + dt.second
  }

  /** Whole seconds from 1970-01-01T00:00:00 UTC to `dt` (negative before). */
  function EpochSeconds(dt: DateTime): int
    requires Valid(dt)
  {
    ((DayNumber(dt) - EpochDay) * 24 + dt.hour) * 3600 + dt.minute * 60 + dt.second
  }

  /** Microseconds from the Unix epoch to `dt`, exactly. */
  function EpochMicros(dt: DateTime): int
    requires Valid(dt)
  {
    EpochSeconds(dt) * 1000000 + dt.microsecond
  }

  /** Lexicographic order on the fields, the order in which date-times follow each other. */
  predicate NotAfter(a: DateTime, b: DateTime) {
    if a.year != b.year then a.year < b.year
    else if a.month != b.month then a.month < b.month
    else if a.day != b.day then a.day < b.day
    else if a.hour != b.hour then a.hour < b.hour
    else if a.minute != b.minute then a.minute < b.minute
    else if a.second != b.second then a.second < b.second
    else a.microsecond <= b.microsecond
  }

  // ---------------------------------------------------------------------------
  // Facts about the day counts

  /** A year's first day follows the previous year's first day by that year's length. */
  lemma DaysBeforeNextYear(y: int)
    requires y >= 1
    ensures DaysBeforeYear(y + 1) == DaysBeforeYear(y) + DaysInYear(y)
  {
    var p := y - 1;
    DivStep(p, 4);
    DivStep(p, 100);
    DivStep(p, 400);
  }

  /** How `p / k` grows when `p` grows by one, for the divisors of the leap-year rule. */
  lemma DivStep(p: int, k: int)
    requires k == 4 || k == 100 || k == 400
    ensures (p + 1) / k == p / k + (if (p + 1) % k == 0 then 1 else 0)
  {
    var q, r := p / k, p % k;
    assert p == k * q + r && 0 <= r < k;
    if r == k - 1 {
      assert p + 1 == k * (q + 1);
    } else {
      assert p + 1 == k * q + (r + 1);
    }
  }

  /** All days of an earlier year come before the first day of a later year. */
  lemma {:induction false} DaysBeforeYearMonotone(y: int, z: int)
    requires 1 <= y < z
    ensures DaysBeforeYear(y) + DaysInYear(y) <= DaysBeforeYear(z)
    decreases z - y
  {
    DaysBeforeNextYear(y);
    if y + 1 < z {
      DaysBeforeYearMonotone(y + 1, z);
      assert DaysInYear(y + 1) >= 0;
    }
  }

  lemma {:induction false} DaysBeforeMonthMonotone(y: int, m: int, k: int)
    requires 1 <= m < k <= 13
    ensures DaysBeforeMonth(y, m) + DaysInMonth(y, m) <= DaysBeforeMonth(y, k)
    decreases k - m
  {
    DaysBeforeNextMonth(y, m);
    if m + 1 < k {
      DaysBeforeMonthMonotone(y, m + 1, k);
    }
  }

  lemma DaysBeforeMonthWholeYear(y: int)
    ensures DaysBeforeMonth(y, 13) == DaysInYear(y)
  {
  }

  // ---------------------------------------------------------------------------
  // From a day number back to the calendar

  /** The first day of the year after 400a + 100b + 4c + d whole years. */
  lemma YearStart(a: nat, b: nat, c: nat, d: nat)
    requires b < 4 && c < 25 && d < 4
    ensures DaysBeforeYear(400 * a + 100 * b + 4 * c + d + 1)
         == 146097 * a + 36524 * b + 1461 * c + 365 * d
  {
    var p := 400 * a + 100 * b + 4 * c + d;
    assert p / 4 == 100 * a + 25 * b + c;
    assert p / 100 == 4 * a + b;
    assert p / 400 == a;
  }

  lemma YearIsLeap(a: nat, b: nat, c: nat, d: nat)
    requires b < 4 && c < 25 && d < 4
    ensures IsLeapYear(400 * a + 100 * b + 4 * c + d + 1) <==> d == 3 && (c != 24 || b == 3)
  {
    var y := 400 * a + 100 * b + 4 * c + d + 1;
    if d < 3 {
      ModOf4(100 * a + 25 * b + c, d + 1);
    } else if c < 24 {
      ModOf4(100 * a + 25 * b + c + 1, 0);
      ModOf100(4 * a + b, 4 * c + 4);
    } else {
      ModOf4(100 * a + 25 * b + 25, 0);
      ModOf100(4 * a + b + 1, 0);
      if b < 3 {
        ModOf400(a, 100 * b + 100);
      } else {
        ModOf400(a + 1, 0);
      }
    }
  }

  lemma ModOf4(q: int, r: int)
    requires 0 <= r < 4
    ensures (4 * q + r) % 4 == r
  {
  }

  lemma ModOf100(q: int, r: int)
    requires 0 <= r < 100
    ensures (100 * q + r) % 100 == r
  {
  }

  lemma ModOf400(q: int, r: int)
    requires 0 <= r < 400
    ensures (400 * q + r) % 400 == r
  {
  }

  /**
   * The year containing day number `n` and the day's place in it (0 for the
   * first of January), by whole 400-, 100-, 4- and 1-year cycles as
   * CPython's `_ord2ymd` counts them.
   */
  function YearAndDay(n: nat): (r: (int, int))
    ensures r.0 >= 1 && 0 <= r.1 < DaysInYear(r.0)
    ensures DaysBeforeYear(r.0) + r.1 == n
  {
    var a, r1 := n / 146097, n % 146097;
    var b, r2 := r1 / 36524, r1 % 36524;
    var c, r3 := r2 / 1461, r2 % 1461;
    var d, r4 := r3 / 365, r3 % 365;
    if b == 4 then
      // the last day of a leap year that closes a 400-year cycle
      YearStart(a, 3, 24, 3);
      YearIsLeap(a, 3, 24, 3);
      (400 * a + 400, 365)
    else if d == 4 then
      // the last day of a leap year that closes a 4-year cycle
      YearStart(a, b, c, 3);
      YearIsLeap(a, b, c, 3);
      (400 * a + 100 * b + 4 * c + 4, 365)
    else
      YearStart(a, b, c, d);
      YearIsLeap(a, b, c, d);
      (400 * a + 100 * b + 4 * c + d + 1, r4)
  }

  /** The month and day of month of day `rest` (0-based) counted from the first of month `m`. */
  function MonthFrom(y: int, m: int, rest: int): (r: (int, int))
    requires 1 <= m <= 12 && 0 <= rest
    requires DaysBeforeMonth(y, m) + rest < DaysInYear(y)
    ensures 1 <= r.0 <= 12 && 1 <= r.1 <= DaysInMonth(y, r.0)
    ensures DaysBeforeMonth(y, r.0) + r.1 - 1 == DaysBeforeMonth(y, m) + rest
    decreases 12 - m
  {
    if rest < DaysInMonth(y, m) then (m, rest + 1)
    else
      DaysBeforeMonthWholeYear(y);
      DaysBeforeNextMonth(y, m);
      MonthFrom(y, m + 1, rest - DaysInMonth(y, m))
  }

  /** The epoch seconds that years 1 to 9999 cover. */
  const MinEpochSeconds := -62135596800  // 0001-01-01T00:00:00
  const MaxEpochSeconds := 253402300799  // 9999-12-31T23:59:59

  /** The calendar date of day number `n`, counted from 0001-01-01. */
  function DateOfDay(n: nat): (r: (int, int, int))
    ensures 1 <= r.0 && 1 <= r.1 <= 12 && 1 <= r.2 <= DaysInMonth(r.0, r.1)
    ensures DaysBeforeYear(r.0) + DaysBeforeMonth(r.0, r.1) + r.2 - 1 == n
  {
    var (y, doy) := YearAndDay(n);
    var (m, d) := MonthFrom(y, 1, doy);
    (y, m, d)
  }

  /** Hours, minutes and seconds of the `sod`-th second of a day. */
  function TimeOfDay(sod: int): (r: (int, int, int))
    requires 0 <= sod < 86400
    ensures 0 <= r.0 < 24 && 0 <= r.1 < 60 && 0 <= r.2 < 60
    ensures r.0 * 3600 + r.1 * 60 + r.2 == sod
  {
    (sod / 3600, sod % 3600 / 60, sod % 60)
  }

  /**
   * The UTC date-time `secs` seconds after the Unix epoch, or `None` when that
   * lies outside years 1 to 9999 (where `fromtimestamp` raises).
   */
  function FromEpochSeconds(secs: int): (r: Option<DateTime>)
    ensures r.Some? <==> MinEpochSeconds <= secs <= MaxEpochSeconds
    ensures r.Some? ==> Valid(r.value) && r.value.microsecond == 0 && EpochSeconds(r.value) == secs
  {
    var n := secs / 86400 + EpochDay;
    var sod := secs % 86400;
    assert secs == (n - EpochDay) * 86400 + sod;
    if n < 0 then None
    else
      var (y, m, d) := DateOfDay(n);
      LastDay(y);
      LastDayNumber(y, m, d);
      if y > MaxYear then None
      else
        var (hh, mm, ss) := TimeOfDay(sod);
        var dt := DateTime(y, m, d, hh, mm, ss, 0);
        assert DayNumber(dt) == n;
        Some(dt)
  }

  lemma LastDayNumber(y: int, m: int, d: int)
    requires 1 <= y && 1 <= m <= 12 && 1 <= d <= DaysInMonth(y, m)
    ensures y <= MaxYear <==> DaysBeforeYear(y) + DaysBeforeMonth(y, m) + d - 1 < 3652059
  {
    DaysBeforeMonthWholeYear(y);
    if m < 12 {
      DaysBeforeMonthMonotone(y, m, 13);
    }
    LastDay(y);
    if y <= MaxYear {
      if y < MaxYear {
        DaysBeforeYearMonotone(y, MaxYear);
      }
      DaysBeforeNextYear(MaxYear);
    }
  }

  /** Day numbers below `DaysBeforeYear(10000)` are exactly those of years up to 9999. */
  lemma LastDay(y: int)
    requires y >= 1
    ensures y <= MaxYear <==> DaysBeforeYear(y) < DaysBeforeYear(MaxYear + 1)
    ensures DaysBeforeYear(MaxYear + 1) == 3652059
  {
    if y <= MaxYear {
      DaysBeforeYearMonotone(y, MaxYear + 1);
    } else if y > MaxYear + 1 {
      DaysBeforeYearMonotone(MaxYear + 1, y);
    }
  }

  // ---------------------------------------------------------------------------
  // Uniqueness of the calendar position of a day

  lemma YearUnique(y: int, r: int, z: int, q: int)
    requires y >= 1 && 0 <= r < DaysInYear(y)
    requires z >= 1 && 0 <= q < DaysInYear(z)
    requires DaysBeforeYear(y) + r == DaysBeforeYear(z) + q
    ensures y == z && r == q
  {
    if y < z {
      DaysBeforeYearMonotone(y, z);
    } else if z < y {
      DaysBeforeYearMonotone(z, y);
    }
  }

  lemma MonthUnique(y: int, m: int, d: int, k: int, e: int)
    requires 1 <= m <= 12 && 1 <= d <= DaysInMonth(y, m)
    requires 1 <= k <= 12 && 1 <= e <= DaysInMonth(y, k)
    requires DaysBeforeMonth(y, m) + d == DaysBeforeMonth(y, k) + e
    ensures m == k && d == e
  {
    if m < k {
      DaysBeforeMonthMonotone(y, m, k);
    } else if k < m {
      DaysBeforeMonthMonotone(y, k, m);
    }
  }

  /** The position of a valid date within its year. */
  lemma DayOfYearInRange(dt: DateTime)
    requires Valid(dt)
    ensures 0 <= DaysBeforeMonth(dt.year, dt.month) + dt.day - 1 < DaysInYear(dt.year)
  {
    DaysBeforeMonthWholeYear(dt.year);
    if dt.month < 12 {
      DaysBeforeMonthMonotone(dt.year, dt.month, 13);
    }
  }

  /**
   * Converting a date-time to epoch seconds and back gives the same date and
   * time of day; only the microseconds are lost.
   */
  lemma EpochSecondsRoundTrip(dt: DateTime)
    requires Valid(dt)
    ensures FromEpochSeconds(EpochSeconds(dt)) == Some(dt.(microsecond := 0))
  {
    EpochSecondsSplit(dt);
    DateOfDayRoundTrip(dt);
    TimeOfDayRoundTrip(dt);
  }

  lemma EpochSecondsSplit(dt: DateTime)
    requires Valid(dt)
    ensures EpochSeconds(dt) / 86400 + EpochDay == DayNumber(dt)
    ensures EpochSeconds(dt) % 86400 == SecondOfDay(dt)
  {
    DaySplit(DayNumber(dt) - EpochDay, SecondOfDay(dt));
  }

  lemma DaySplit(days: int, sod: int)
    requires 0 <= sod < 86400
    ensures (days * 86400 + sod) / 86400 == days
    ensures (days * 86400 + sod) % 86400 == sod
  {
  }

  lemma DateOfDayRoundTrip(dt: DateTime)
    requires Valid(dt)
    ensures DayNumber(dt) >= 0 && DateOfDay(DayNumber(dt)) == (dt.year, dt.month, dt.day)
  {
    var doy := DaysBeforeMonth(dt.year, dt.month) + dt.day - 1;
    DayOfYearInRange(dt);
    var (y, r) := YearAndDay(DayNumber(dt));
    YearUnique(y, r, dt.year, doy);
    var (m, d) := MonthFrom(y, 1, r);
    MonthUnique(y, m, d, dt.month, dt.day);
  }

  lemma TimeOfDayRoundTrip(dt: DateTime)
    requires Valid(dt)
    ensures TimeOfDay(SecondOfDay(dt)) == (dt.hour, dt.minute, dt.second)
  {
    var rest := dt.minute * 60 + dt.second;
    SplitBy(dt.hour, rest, 3600);
    SplitBy(dt.minute, dt.second, 60);
    SplitBy(dt.hour * 60 + dt.minute, dt.second, 60);
  }

  /** Quotient and remainder by a clock unit. */
  lemma SplitBy(q: int, r: int, k: int)
    requires k == 60 || k == 3600
    requires 0 <= r < k
    ensures (q * k + r) / k == q && (q * k + r) % k == r
  {
  }

  // ---------------------------------------------------------------------------
  // Order

  /** A date-time that is not after another lies no later on the epoch time line. */
  lemma EpochMicrosMonotone(a: DateTime, b: DateTime)
    requires Valid(a) && Valid(b) && NotAfter(a, b)
    ensures EpochMicros(a) <= EpochMicros(b)
  {
    if a.year < b.year {
      DayOfYearInRange(a);
      DaysBeforeYearMonotone(a.year, b.year);
    } else if a.year == b.year && a.month < b.month {
      DaysBeforeMonthMonotone(a.year, a.month, b.month);
    }
    assert DayNumber(a) <= DayNumber(b);
    if DayNumber(a) < DayNumber(b) {
      assert EpochSeconds(a) < EpochSeconds(b);
    }
  }

  // ---------------------------------------------------------------------------
  // Text

  /** The date as `%Y-%m-%d`, the year zero padded to four digits. */
  function DateText(dt: DateTime): (s: string)
    requires Valid(dt)
    ensures |s| == 10 && s[4] == '-' && s[7] == '-'
  {
    Digits4(dt.year) + "-" + Digits2(dt.month) + "-" + Digits2(dt.day)
  }

  /** The time of day to the second as `%H:%M:%S`. */
  function ClockText(dt: DateTime): (s: string)
    requires Valid(dt)
    ensures |s| == 8 && s[2] == ':' && s[5] == ':'
  {
    Digits2(dt.hour) + ":" + Digits2(dt.minute) + ":" + Digits2(dt.second)
  }
}
