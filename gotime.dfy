/** Go's time.Time in a fixed-offset zone, at whole-second resolution: the
    calendar fields of an instant, time.Date with its normalisation,
    AddDate, Sub with its saturation, Duration.Hours truncated to an int,
    and the strict "2006-01-02" layout parser. */
module GoTime {
  import opened Wrappers
  import opened Civil
  import opened GoStrings

  const SecondsPerDay := 86400
  const NanosPerSecond := 1_000_000_000
  const NanosPerHour := 3_600_000_000_000
  /** The extremes of Go's int64 Duration. */
  const MaxDuration := 0x7FFF_FFFF_FFFF_FFFF
  const MinDuration := -0x8000_0000_0000_0000

  /** An instant (seconds since 1970-01-01 UTC) read in a zone that is
      `offset` seconds east of UTC. */
  datatype Time = Time(unix: int, offset: int)

  function LocalSeconds(t: Time): int {
    t.unix + t.offset
  }

  /** The ordinal of the local calendar day holding t. */
  function DayNumber(t: Time): int {
    LocalSeconds(t) / SecondsPerDay
  }

  function SecondsOfDay(t: Time): (s: int)
    ensures 0 <= s < SecondsPerDay
    ensures LocalSeconds(t) == DayNumber(t) * SecondsPerDay + s
  {
    LocalSeconds(t) % SecondsPerDay
  }

  function CivilOf(t: Time): (dt: Date)
    ensures ValidDate(dt) && Ordinal(dt.year, dt.month, dt.day) == DayNumber(t)
  {
    FromOrdinal(DayNumber(t))
  }

  function Year(t: Time): int { CivilOf(t).year }

  function Month(t: Time): (m: int)
    ensures 1 <= m <= 12
  {
    CivilOf(t).month
  }

  function Day(t: Time): (d: int)
    ensures 1 <= d <= DaysIn(Month(t), Year(t))
  {
    CivilOf(t).day
  }

  function Hour(t: Time): int { SecondsOfDay(t) / 3600 }
  function Minute(t: Time): int { SecondsOfDay(t) % 3600 / 60 }
  function Second(t: Time): int { SecondsOfDay(t) % 60 }

  lemma ClockFields(t: Time)
    ensures 0 <= Hour(t) < 24 && 0 <= Minute(t) < 60 && 0 <= Second(t) < 60
    ensures Hour(t) * 3600 + Minute(t) * 60 + Second(t) == SecondsOfDay(t)
  {
  }

  /** time.Weekday, Sunday = 0. */
  function Weekday(t: Time): (w: int)
    ensures 0 <= w < 7
  {
    WeekdayOf(DayNumber(t))
  }

  const Sunday := 0
  const Saturday := 6

  /** The year and month (1..12) that Go's time.Date makes of a month number
      outside 1..12. */
  function NormMonth(y: int, m: int): (p: (int, int))
    ensures 1 <= p.1 <= 12
    ensures p.0 * 12 + p.1 == y * 12 + m
  {
    (y + (m - 1) / 12, (m - 1) % 12 + 1)
  }

  /** time.Date(y, m, d, hh, mi, ss, 0, loc) for a zone with a fixed offset:
      the month is normalised into the year, and the day, hour, minute and
      second may run over into the neighbouring units. */
  function MakeTime(y: int, m: int, d: int, hh: int, mi: int, ss: int, offset: int): (t: Time)
    ensures t.offset == offset
    ensures LocalSeconds(t) == Ordinal(NormMonth(y, m).0, NormMonth(y, m).1, d) * SecondsPerDay + (hh * 3600 + mi * 60 + ss)
  {
    var p := NormMonth(y, m);
    Time(Ordinal(p.0, p.1, d) * SecondsPerDay + hh * 3600 + mi * 60 + ss - offset, offset)
  }

  lemma DayOfLocal(n: int, s: int)
    requires 0 <= s < SecondsPerDay
    ensures (n * SecondsPerDay + s) / SecondsPerDay == n
    ensures (n * SecondsPerDay + s) % SecondsPerDay == s
  {
  }

  /** A time built from a valid date and an in-range clock reads back the
      same date and clock. */
  lemma MakeTimeFields(y: int, m: int, d: int, hh: int, mi: int, ss: int, offset: int)
    requires ValidDate(Date(y, m, d))
    requires 0 <= hh * 3600 + mi * 60 + ss < SecondsPerDay
    ensures var t := MakeTime(y, m, d, hh, mi, ss, offset);
            t.offset == offset
            && DayNumber(t) == Ordinal(y, m, d)
            && SecondsOfDay(t) == hh * 3600 + mi * 60 + ss
            && CivilOf(t) == Date(y, m, d)
  {
    assert NormMonth(y, m) == (y, m);
    DayOfLocal(Ordinal(y, m, d), hh * 3600 + mi * 60 + ss);
    OrdinalRoundTrip(Date(y, m, d));
  }

  /** t.AddDate(years, months, days), keeping the clock and the zone. */
  function AddDate(t: Time, years: int, months: int, days: int): (r: Time)
    ensures r.offset == t.offset
    ensures SecondsOfDay(r) == SecondsOfDay(t)
  {
    ClockFields(t);
    var p := NormMonth(Year(t) + years, Month(t) + months);
    DayOfLocal(Ordinal(p.0, p.1, Day(t) + days), SecondsOfDay(t));
    MakeTime(Year(t) + years, Month(t) + months, Day(t) + days, Hour(t), Minute(t), Second(t), t.offset)
  }

  /** Adding nothing gives the same instant. */
  lemma AddDateZero(t: Time)
    ensures AddDate(t, 0, 0, 0) == t
  {
    ClockFields(t);
    assert NormMonth(Year(t), Month(t)) == (Year(t), Month(t));
  }

  /** AddDate(0, 0, d) moves d local days and keeps the clock and the zone,
      whatever d (running over month and year ends). */
  lemma AddDays(t: Time, d: int)
    ensures var u := AddDate(t, 0, 0, d);
            && u.offset == t.offset && DayNumber(u) == DayNumber(t) + d && SecondsOfDay(u) == SecondsOfDay(t)
  {
    AddDaysLocal(t, d);
    DayOfLocal(DayNumber(t) + d, SecondsOfDay(t));
  }

  lemma AddDaysLocal(t: Time, d: int)
    ensures var u := AddDate(t, 0, 0, d);
            u.offset == t.offset && LocalSeconds(u) == (DayNumber(t) + d) * SecondsPerDay + SecondsOfDay(t)
  {
    var dt := CivilOf(t);
    ClockFields(t);
    assert NormMonth(dt.year, dt.month) == (dt.year, dt.month);
  }

  /** AddDate(0, 0, d) in a fixed zone is a shift by d whole days. */
  lemma AddDaysShift(t: Time, d: int)
    ensures AddDate(t, 0, 0, d) == Time(t.unix + d * SecondsPerDay, t.offset)
  {
    AddDays(t, d);
    var u := AddDate(t, 0, 0, d);
    var n, s := DayNumber(t), SecondsOfDay(t);
    assert LocalSeconds(u) == (n + d) * SecondsPerDay + s;
    assert LocalSeconds(t) == n * SecondsPerDay + s;
  }

  /** Moving an instant by d whole days in its zone moves its local day
      number by d and keeps its clock. */
  lemma ShiftDays(t: Time, d: int)
    ensures var u := Time(t.unix + d * SecondsPerDay, t.offset);
            DayNumber(u) == DayNumber(t) + d && SecondsOfDay(u) == SecondsOfDay(t)
  {
    var u := Time(t.unix + d * SecondsPerDay, t.offset);
    assert LocalSeconds(u) == (DayNumber(t) + d) * SecondsPerDay + SecondsOfDay(t);
    DayOfLocal(DayNumber(t) + d, SecondsOfDay(t));
  }

  /** ToDate: local midnight of the same day, in the same zone. */
  function ToDate(t: Time): (r: Time)
    ensures r.offset == t.offset
    ensures LocalSeconds(r) == LocalSeconds(t) - SecondsOfDay(t)
    ensures CivilOf(r) == CivilOf(t) && SecondsOfDay(r) == 0
  {
    MakeTimeFields(Year(t), Month(t), Day(t), 0, 0, 0, t.offset);
    MakeTime(Year(t), Month(t), Day(t), 0, 0, 0, t.offset)
  }

  /** t.Sub(u) in nanoseconds: exact when it fits in an int64 Duration,
      otherwise the extreme of the right sign. */
  function Sub(t: Time, u: Time): (d: int)
    ensures MinDuration <= d <= MaxDuration
    ensures var exact := (t.unix - u.unix) * NanosPerSecond;
            (MinDuration <= exact <= MaxDuration ==> d == exact)
            && (exact > MaxDuration ==> d == MaxDuration)
            && (exact < MinDuration ==> d == MinDuration)
  {
    var exact := (t.unix - u.unix) * NanosPerSecond;
    if exact > MaxDuration then MaxDuration
    else if exact < MinDuration then MinDuration
    else exact
  }

  /** Go's integer division, which truncates toward zero: the remainder
      a - q*b is smaller than b in size and has the sign of a. */
  function Quot(a: int, b: int): (q: int)
    requires b > 0
    ensures a >= 0 ==> 0 <= a - q * b < b
    ensures a < 0 ==> -b < a - q * b <= 0
    ensures a >= 0 ==> q == a / b
    ensures a < 0 ==> q == -((-a) / b)
  {
    if a >= 0 then a / b
    else
      var q := (-a) / b;
      assert -a == q * b + (-a) % b;
      -q
  }

  /** int(d.Hours()): the float quotient truncated toward zero. For whole
      seconds and for the two saturated values the float error never
      reaches a whole hour, so this is exact. */
  function WholeHours(d: int): int {
    Quot(d, NanosPerHour)
  }

  /** int(t.Sub(u).Hours()) / 24, the day count the source uses for the
      month length, the selected cell and the day counter. */
  function ElapsedDays(t: Time, u: Time): (n: int)
    ensures t.unix >= u.unix ==> n >= 0
    ensures t.unix <= u.unix ==> n <= 0
  {
    Quot(WholeHours(Sub(t, u)), 24)
  }

  lemma NestedQuot(s: int)
    ensures Quot(Quot(s * NanosPerSecond, NanosPerHour), 24) == Quot(s, SecondsPerDay)
  {
    if s >= 0 {
      assert (s * NanosPerSecond) / NanosPerHour == s / 3600;
      assert (s / 3600) / 24 == s / SecondsPerDay;
    } else {
      assert ((-s) * NanosPerSecond) / NanosPerHour == (-s) / 3600;
      assert ((-s) / 3600) / 24 == (-s) / SecondsPerDay;
    }
  }

  /** Whenever the Duration does not saturate (about 292 years), the day
      count is the seconds between the instants divided by 86400,
      truncated toward zero. */
  lemma ElapsedDaysExact(t: Time, u: Time)
    requires MinDuration <= (t.unix - u.unix) * NanosPerSecond <= MaxDuration
    ensures ElapsedDays(t, u) == Quot(t.unix - u.unix, SecondsPerDay)
  {
    NestedQuot(t.unix - u.unix);
  }

  /** The whole days from midnight `start` to the day holding `sel`, floored:
      the index of sel's day in a grid that starts at `start`. */
  function SelectedIndex(sel: Time, start: Time): (i: int)
    ensures i * SecondsPerDay <= sel.unix - start.unix < i * SecondsPerDay + SecondsPerDay
  {
    (sel.unix - start.unix) / SecondsPerDay
  }

  /** In one zone, with start at local midnight, SelectedIndex is the
      difference of the local day numbers, whatever the clock of sel. */
  lemma SelectedIndexIsDayDifference(sel: Time, start: Time)
    requires sel.offset == start.offset && SecondsOfDay(start) == 0
    ensures SelectedIndex(sel, start) == DayNumber(sel) - DayNumber(start)
  {
    var k := DayNumber(start);
    assert start.unix == k * SecondsPerDay - start.offset;
    DayOfLocal(DayNumber(sel) - k, SecondsOfDay(sel));
  }

  /** Truncation and flooring agree when sel is not earlier than start, or
      when the two are a whole number of days apart. */
  lemma ElapsedDaysAgrees(sel: Time, start: Time)
    requires MinDuration <= (sel.unix - start.unix) * NanosPerSecond <= MaxDuration
    requires sel.unix >= start.unix || (sel.unix - start.unix) % SecondsPerDay == 0
    ensures ElapsedDays(sel, start) == SelectedIndex(sel, start)
  {
    ElapsedDaysExact(sel, start);
    var s := sel.unix - start.unix;
    if s < 0 {
      assert s == (s / SecondsPerDay) * SecondsPerDay;
      assert -s == (-(s / SecondsPerDay)) * SecondsPerDay;
      DayOfLocal(-(s / SecondsPerDay), 0);
    }
  }

  /** The source's truncating count calls an instant less than a day before
      start "day 0": it lands in the first cell, where the floored index
      says the day before. */
  lemma ElapsedDaysTruncatesIntoFirstCell(sel: Time, start: Time)
    requires start.unix - SecondsPerDay < sel.unix < start.unix
    ensures ElapsedDays(sel, start) == 0
    ensures SelectedIndex(sel, start) == -1
  {
    ElapsedDaysExact(sel, start);
  }

  /** time.ParseInLocation("2006-01-02", s, loc): exactly four digits, '-',
      two digits, '-', two digits and nothing more; a month outside 1..12
      or a day outside the month is an error. */
  function ParseLayoutDate(s: string, offset: int): (r: Option<Time>)
    ensures r.Some? ==> |s| == 10 && s[4] == '-' && s[7] == '-'
    ensures r.Some? ==> r.value.offset == offset && SecondsOfDay(r.value) == 0
  {
    if |s| == 10 && AllDigits(s[0..4]) && s[4] == '-' && AllDigits(s[5..7]) && s[7] == '-'
       && AllDigits(s[8..10]) then
      var y := DigitsValue(s[0..4]);
      var m := DigitsValue(s[5..7]);
      var d := DigitsValue(s[8..10]);
      if 1 <= m <= 12 && 1 <= d <= DaysIn(m, y) then
        MakeTimeFields(y, m, d, 0, 0, 0, offset);
        Some(MakeTime(y, m, d, 0, 0, 0, offset))
      else None
    else None
  }

  /** The file-name form of a date, YYYY-MM-DD with zero padding. */
  function DateName(dt: Date): string {
    FormatInt(dt.year, 4, true) + "-" + FormatInt(dt.month, 2, true) + "-" + FormatInt(dt.day, 2, true)
  }

  lemma DateNameDigits(dt: Date)
    requires ValidDate(dt) && 0 <= dt.year <= 9999
    ensures DateName(dt) == FixedDigits(dt.year, 4) + "-" + FixedDigits(dt.month, 2) + "-" + FixedDigits(dt.day, 2)
  {
    assert Pow10(2) == 100 && Pow10(4) == 10000;
    FormatIntZeroPadded(dt.year, 4);
    FormatIntZeroPadded(dt.month, 2);
    FormatIntZeroPadded(dt.day, 2);
  }

  lemma ParseLayoutDigits(ys: string, ms: string, ds: string, offset: int)
    requires |ys| == 4 && |ms| == 2 && |ds| == 2 && AllDigits(ys) && AllDigits(ms) && AllDigits(ds)
    ensures var s := ys + "-" + ms + "-" + ds;
            var y, m, d := DigitsValue(ys), DigitsValue(ms), DigitsValue(ds);
            ParseLayoutDate(s, offset)
            == if 1 <= m <= 12 && 1 <= d <= DaysIn(m, y) then Some(MakeTime(y, m, d, 0, 0, 0, offset)) else None
  {
    var s := ys + "-" + ms + "-" + ds;
    assert s[0..4] == ys && s[4] == '-' && s[5..7] == ms && s[7] == '-' && s[8..10] == ds;
  }

  /** Every valid date of years 0..9999 written as YYYY-MM-DD parses back
      to local midnight of that date. */
  lemma ParseLayoutDateName(dt: Date, offset: int)
    requires ValidDate(dt) && 0 <= dt.year <= 9999
    ensures var r := ParseLayoutDate(DateName(dt), offset);
            r.Some? && r.value == MakeTime(dt.year, dt.month, dt.day, 0, 0, 0, offset)
            && CivilOf(r.value) == dt
  {
    assert Pow10(2) == 100 && Pow10(4) == 10000;
    DateNameDigits(dt);
    FixedDigitsValue(dt.year, 4);
    FixedDigitsValue(dt.month, 2);
    FixedDigitsValue(dt.day, 2);
    ParseLayoutDigits(FixedDigits(dt.year, 4), FixedDigits(dt.month, 2), FixedDigits(dt.day, 2), offset);
    MakeTimeFields(dt.year, dt.month, dt.day, 0, 0, 0, offset);
  }
}
