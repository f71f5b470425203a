/** The proleptic Gregorian calendar: leap years, month lengths, a day
    ordinal counted from 1970-01-01 and its inverse, and the weekday of an
    ordinal with Sunday = 0. */
module Civil {

  /** A calendar date; not necessarily valid (see ValidDate). */
  datatype Date = Date(year: int, month: int, day: int)

  predicate IsLeap(y: int) {
    y % 4 == 0 && (y % 100 != 0 || y % 400 == 0)
  }

  function YearLength(y: int): (n: int)
    ensures n == 365 || n == 366
    ensures n == 366 <==> IsLeap(y)
  {
    if IsLeap(y) then 366 else 365
  }

  /** Number of days in month m (1..12) of year y. */
  function DaysIn(m: int, y: int): (n: int)
    requires 1 <= m <= 12
    ensures 28 <= n <= 31
    ensures m == 2 ==> (n == 29 <==> IsLeap(y))
  {
    if m == 2 then (if IsLeap(y) then 29 else 28)
    else if m == 4 || m == 6 || m == 9 || m == 11 then 30
    else 31
  }

  /** Days of year y before the first of month m (m = 13 gives the whole year). */
  function DaysBeforeMonth(y: int, m: int): int
    requires 1 <= m <= 13
  {
    var table := [0, 31, 59, 90, 120, 151, 181, 212, 243, 273, 304, 334, 365];
    table[m - 1] + (if m > 2 && IsLeap(y) then 1 else 0)
  }

  lemma DaysBeforeMonthStep(y: int, m: int)
    requires 1 <= m <= 12
    ensures DaysBeforeMonth(y, m + 1) == DaysBeforeMonth(y, m) + DaysIn(m, y)
    ensures DaysBeforeMonth(y, 1) == 0 && DaysBeforeMonth(y, 13) == YearLength(y)
  {
  }

  /** Days from 1970-01-01 to the first of January of year y (negative before 1970). */
  function DaysBeforeYear(y: int): int
    decreases if y < 1970 then 1970 - y else y - 1970
  {
    if y == 1970 then 0
    else if y > 1970 then DaysBeforeYear(y - 1) + YearLength(y - 1)
    else DaysBeforeYear(y + 1) - YearLength(y)
  }

  lemma DaysBeforeYearStep(y: int)
    ensures DaysBeforeYear(y + 1) == DaysBeforeYear(y) + YearLength(y)
  {
  }

  /** Number of leap years in [1, y) counted by the 4/100/400 rule
      (floor division, so also meaningful for y <= 0). */
  function LeapsBefore(y: int): int {
    (y - 1) / 4 - (y - 1) / 100 + (y - 1) / 400
  }

  lemma FloorStep(a: int, k: int)
    requires k == 4 || k == 100 || k == 400
    ensures (a + 1) / k == a / k + (if (a + 1) % k == 0 then 1 else 0)
  {
    if k == 4 {
    } else if k == 100 {
    } else {
    }
  }

  lemma LeapsBeforeStep(y: int)
    ensures LeapsBefore(y + 1) == LeapsBefore(y) + (if IsLeap(y) then 1 else 0)
  {
    FloorStep(y - 1, 4);
    FloorStep(y - 1, 100);
    FloorStep(y - 1, 400);
  }

  /** The recursive year count agrees with the closed form that counts leap
      years by division. */
  lemma {:induction false} DaysBeforeYearClosedForm(y: int)
    ensures DaysBeforeYear(y) == 365 * (y - 1970) + LeapsBefore(y) - 477
    decreases if y < 1970 then 1970 - y else y - 1970
  {
    if y > 1970 {
      DaysBeforeYearClosedForm(y - 1);
      LeapsBeforeStep(y - 1);
    } else if y < 1970 {
      DaysBeforeYearClosedForm(y + 1);
      LeapsBeforeStep(y);
    }
  }

  lemma {:induction false} DaysBeforeYearMonotone(a: int, b: int)
    requires a <= b
    ensures DaysBeforeYear(a) + 365 * (b - a) <= DaysBeforeYear(b)
    decreases b - a
  {
    if a < b {
      DaysBeforeYearMonotone(a + 1, b);
      DaysBeforeYearStep(a);
    }
  }

  predicate ValidDate(dt: Date) {
    1 <= dt.month <= 12 && 1 <= dt.day <= DaysIn(dt.month, dt.year)
  }

  /** The day ordinal of year y, month m and any day number d; d outside the
      month runs over into the neighbouring months, as Go's time.Date does. */
  function Ordinal(y: int, m: int, d: int): int
    requires 1 <= m <= 12
  {
    DaysBeforeYear(y) + DaysBeforeMonth(y, m) + d - 1
  }

  /** The year holding ordinal n, found by walking from year y at offset r. */
  function YearForward(y: int, r: int): (p: (int, int))
    requires r >= 0
    ensures DaysBeforeYear(p.0) + p.1 == DaysBeforeYear(y) + r
    ensures 0 <= p.1 < YearLength(p.0)
    decreases r
  {
    if r < YearLength(y) then (y, r)
    else
      DaysBeforeYearStep(y);
      YearForward(y + 1, r - YearLength(y))
  }

  function YearBackward(y: int, r: int): (p: (int, int))
    requires r < 0
    ensures DaysBeforeYear(p.0) + p.1 == DaysBeforeYear(y) + r
    ensures 0 <= p.1 < YearLength(p.0)
    decreases -r
  {
    DaysBeforeYearStep(y - 1);
    var r' := r + YearLength(y - 1);
    if r' >= 0 then (y - 1, r') else YearBackward(y - 1, r')
  }

  /** The month holding day-of-year r, searching from month m. */
  function MonthFrom(y: int, m: int, r: int): (p: (int, int))
    requires 1 <= m <= 12
    requires DaysBeforeMonth(y, m) <= r < YearLength(y)
    ensures 1 <= p.0 <= 12 && 1 <= p.1 <= DaysIn(p.0, y)
    ensures DaysBeforeMonth(y, p.0) + p.1 - 1 == r
    decreases 12 - m
  {
    DaysBeforeMonthStep(y, m);
    if r < DaysBeforeMonth(y, m + 1) || m == 12 then (m, r - DaysBeforeMonth(y, m) + 1)
    else MonthFrom(y, m + 1, r)
  }

  /** The civil date of ordinal n: the inverse of Ordinal. */
  function FromOrdinal(n: int): (dt: Date)
    ensures ValidDate(dt)
    ensures Ordinal(dt.year, dt.month, dt.day) == n
  {
    var p := if n >= 0 then YearForward(1970, n) else YearBackward(1970, n);
    DaysBeforeMonthStep(p.0, 1);
    var md := MonthFrom(p.0, 1, p.1);
    Date(p.0, md.0, md.1)
  }

  /** Weekday of ordinal n, Sunday = 0 (1970-01-01 was a Thursday). */
  function WeekdayOf(n: int): (w: int)
    ensures 0 <= w < 7
  {
    (n + 4) % 7
  }

  lemma {:induction false} YearUnique(y1: int, r1: int, y2: int, r2: int)
    requires 0 <= r1 < YearLength(y1) && 0 <= r2 < YearLength(y2)
    requires DaysBeforeYear(y1) + r1 == DaysBeforeYear(y2) + r2
    ensures y1 == y2 && r1 == r2
  {
    if y1 < y2 {
      DaysBeforeYearMonotone(y1 + 1, y2);
      DaysBeforeYearStep(y1);
    } else if y2 < y1 {
      DaysBeforeYearMonotone(y2 + 1, y1);
      DaysBeforeYearStep(y2);
    }
  }

  lemma MonthUnique(y: int, m1: int, d1: int, m2: int, d2: int)
    requires ValidDate(Date(y, m1, d1)) && ValidDate(Date(y, m2, d2))
    requires DaysBeforeMonth(y, m1) + d1 == DaysBeforeMonth(y, m2) + d2
    ensures m1 == m2 && d1 == d2
  {
  }

  /** Ordinal is injective on valid dates, so FromOrdinal inverts it. */
  lemma OrdinalRoundTrip(dt: Date)
    requires ValidDate(dt)
    ensures FromOrdinal(Ordinal(dt.year, dt.month, dt.day)) == dt
  {
    var n := Ordinal(dt.year, dt.month, dt.day);
    var back := FromOrdinal(n);
    DaysBeforeMonthStep(dt.year, dt.month);
    DaysBeforeMonthStep(back.year, back.month);
    YearUnique(dt.year, DaysBeforeMonth(dt.year, dt.month) + dt.day - 1,
               back.year, DaysBeforeMonth(back.year, back.month) + back.day - 1);
    MonthUnique(dt.year, dt.month, dt.day, back.month, back.day);
  }

  /** Consecutive first days of months are DaysIn apart, across a year end too. */
  lemma NextMonthFirst(y: int, m: int)
    requires 1 <= m <= 12
    ensures var (y', m') := if m == 12 then (y + 1, 1) else (y, m + 1);
            Ordinal(y', m', 1) == Ordinal(y, m, 1) + DaysIn(m, y)
  {
    DaysBeforeMonthStep(y, m);
    DaysBeforeYearStep(y);
  }
}
