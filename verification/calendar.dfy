/** The ISO (proleptic Gregorian) calendar as `java.time` implements it:
    dates, competences (calendar months) and the `ChronoUnit` distances
    DAYS, MONTHS and YEARS. */
module Calendar {

  /** A year-month-day triple; only the valid ones form a `Date`. */
  datatype Ymd = Ymd(year: int, month: int, day: int)

  predicate IsLeapYear(y: int) {
    y % 4 == 0 && (y % 100 != 0 || y % 400 == 0)
  }

  function LengthOfMonth(y: int, m: int): (n: int)
    requires 1 <= m <= 12
    ensures 28 <= n <= 31
  {
    if m == 2 then (if IsLeapYear(y) then 29 else 28)
    else if m == 4 || m == 6 || m == 9 || m == 11 then 30
    else 31
  }

  predicate ValidYmd(d: Ymd) {
    1 <= d.month <= 12 && 1 <= d.day <= LengthOfMonth(d.year, d.month)
  }

  /** A calendar date (`LocalDate`). */
  type Date = d: Ymd | ValidYmd(d) witness Ymd(1970, 1, 1)

  /** A competence is a calendar month, numbered as the proleptic month
      year * 12 + (month - 1); consecutive months differ by one. */
  type Competence = int

  function MonthIndex(year: int, month: int): Competence
    requires 1 <= month <= 12
  {
    year * 12 + month - 1
  }

  function YearOf(c: Competence): int {
    c / 12
  }

  function MonthOf(c: Competence): (m: int)
    ensures 1 <= m <= 12
  {
    c % 12 + 1
  }

  /** Year and month are recovered from a competence, and vice versa. */
  lemma CompetenceRoundTrip(c: Competence, y: int, m: int)
    requires 1 <= m <= 12
    ensures MonthIndex(YearOf(c), MonthOf(c)) == c
    ensures YearOf(MonthIndex(y, m)) == y && MonthOf(MonthIndex(y, m)) == m
  {
  }

  /** The competence a date falls in (`withDayOfMonth(1)` up to the day). */
  function CompetenceOf(d: Date): Competence {
    MonthIndex(d.year, d.month)
  }

  /** The first day of a competence. */
  function FirstDay(c: Competence): (d: Date)
    ensures CompetenceOf(d) == c && d.day == 1
  {
    Ymd(YearOf(c), MonthOf(c), 1)
  }

  /** The last day of a competence (`plusMonths(1).minusDays(1)` of its first day). */
  function LastDay(c: Competence): (d: Date)
    ensures CompetenceOf(d) == c && d.day == LengthOfMonth(YearOf(c), MonthOf(c))
  {
    Ymd(YearOf(c), MonthOf(c), LengthOfMonth(YearOf(c), MonthOf(c)))
  }

  /** `a.isBefore(b)`. */
  predicate IsBefore(a: Date, b: Date) {
    CompetenceOf(a) < CompetenceOf(b) || (CompetenceOf(a) == CompetenceOf(b) && a.day < b.day)
  }

  function NextDay(d: Date): (r: Date)
    ensures IsBefore(d, r)
  {
    if d.day < LengthOfMonth(d.year, d.month) then Ymd(d.year, d.month, d.day + 1)
    else if d.month < 12 then Ymd(d.year, d.month + 1, 1)
    else Ymd(d.year + 1, 1, 1)
  }

  /** `minusDays(1)`. */
  function PreviousDay(d: Date): (r: Date)
    ensures IsBefore(r, d)
    ensures CompetenceOf(r) == if d.day == 1 then CompetenceOf(d) - 1 else CompetenceOf(d)
  {
    if d.day > 1 then Ymd(d.year, d.month, d.day - 1)
    else LastDay(CompetenceOf(d) - 1)
  }

  /** Days in the years before year y, counted from 0000-01-01 (negative for y < 0). */
  function DaysBeforeYear(y: int): int {
    365 * y + (y + 3) / 4 - (y + 99) / 100 + (y + 399) / 400
  }

  function DaysBeforeMonth(y: int, m: int): int
    requires 1 <= m <= 12
  {
    if m == 1 then 0 else DaysBeforeMonth(y, m - 1) + LengthOfMonth(y, m - 1)
  }

  /** Days from 0000-01-01 to 1970-01-01. */
  const DaysZeroTo1970: int := 719528

  /** `LocalDate.toEpochDay()`: 1970-01-01 is day 0. */
  function EpochDay(d: Date): int {
    DaysBeforeYear(d.year) + DaysBeforeMonth(d.year, d.month) + d.day - 1 - DaysZeroTo1970
  }

  /** Java's `/` on `long` (truncates toward zero), for a positive divisor. */
  function TruncDiv(a: int, b: int): int
    requires b > 0
  {
    if a >= 0 then a / b else -((-a) / b)
  }

  /** `ChronoUnit.DAYS.between(a, b)`. */
  function DaysBetween(a: Date, b: Date): int {
    EpochDay(b) - EpochDay(a)
  }

  /** `ChronoUnit.MONTHS.between(a, b)`: the packed (month * 32 + day)
      difference divided by 32, truncated. */
  function MonthsBetween(a: Date, b: Date): int {
    TruncDiv((CompetenceOf(b) * 32 + b.day) - (CompetenceOf(a) * 32 + a.day), 32)
  }

  /** `ChronoUnit.YEARS.between(a, b)`: whole months divided by 12, truncated. */
  function YearsBetween(a: Date, b: Date): int {
    TruncDiv(MonthsBetween(a, b), 12)
  }

  /** MONTHS counts whole months: the month difference, less one when the
      end day-of-month falls before the start day-of-month. */
  lemma MonthsBetweenCountsWholeMonths(a: Date, b: Date)
    requires !IsBefore(b, a)
    ensures MonthsBetween(a, b) ==
      CompetenceOf(b) - CompetenceOf(a) - (if b.day < a.day then 1 else 0)
  {
    var dm := CompetenceOf(b) - CompetenceOf(a);
    var dd := b.day - a.day;
    assert -30 <= dd <= 30;
    assert (CompetenceOf(b) * 32 + b.day) - (CompetenceOf(a) * 32 + a.day) == dm * 32 + dd;
    if dm == 0 {
      assert 0 <= dd;
      assert (dm * 32 + dd) / 32 == 0;
    } else {
      assert dm >= 1;
      assert dm * 32 + dd > 0;
      if dd < 0 {
        assert (dm * 32 + dd) / 32 == dm - 1;
      } else {
        assert (dm * 32 + dd) / 32 == dm;
      }
    }
  }

  /** Swapping the dates negates MONTHS (Java truncates toward zero). */
  lemma MonthsBetweenAntisymmetric(a: Date, b: Date)
    ensures MonthsBetween(b, a) == -MonthsBetween(a, b)
  {
    var p := (CompetenceOf(b) * 32 + b.day) - (CompetenceOf(a) * 32 + a.day);
    assert (CompetenceOf(a) * 32 + a.day) - (CompetenceOf(b) * 32 + b.day) == -p;
  }

  /** The months of a year add up to its length. */
  lemma MonthsFillYear(y: int)
    ensures DaysBeforeMonth(y, 12) + 31 == if IsLeapYear(y) then 366 else 365
  {
    var feb := if IsLeapYear(y) then 29 else 28;
    assert DaysBeforeMonth(y, 2) == 31;
    assert DaysBeforeMonth(y, 3) == 31 + feb;
    assert DaysBeforeMonth(y, 4) == 62 + feb;
    assert DaysBeforeMonth(y, 5) == 92 + feb;
    assert DaysBeforeMonth(y, 6) == 123 + feb;
    assert DaysBeforeMonth(y, 7) == 153 + feb;
    assert DaysBeforeMonth(y, 8) == 184 + feb;
    assert DaysBeforeMonth(y, 9) == 215 + feb;
    assert DaysBeforeMonth(y, 10) == 245 + feb;
    assert DaysBeforeMonth(y, 11) == 276 + feb;
    assert DaysBeforeMonth(y, 12) == 306 + feb;
  }

  /** The day count before a year grows by that year's length. */
  lemma YearsSpanYearLength(y: int)
    ensures DaysBeforeYear(y + 1) - DaysBeforeYear(y) == if IsLeapYear(y) then 366 else 365
  {
    var a := if y % 4 == 0 then 1 else 0;
    var b := if y % 100 == 0 then 1 else 0;
    var c := if y % 400 == 0 then 1 else 0;
    assert (y + 4) / 4 - (y + 3) / 4 == a by { LeapStep(y, 4); }
    assert (y + 100) / 100 - (y + 99) / 100 == b by { LeapStep(y, 100); }
    assert (y + 400) / 400 - (y + 399) / 400 == c by { LeapStep(y, 400); }
    assert DaysBeforeYear(y + 1) - DaysBeforeYear(y) == 365 + a - b + c;
    DivisorsOf400(y);
  }

  /** A multiple of 400 is one of 100, and a multiple of 100 one of 4. */
  lemma DivisorsOf400(y: int)
    ensures y % 400 == 0 ==> y % 100 == 0
    ensures y % 100 == 0 ==> y % 4 == 0
  {
    if y % 400 == 0 {
      assert y == 400 * (y / 400);
      assert y == 100 * (4 * (y / 400));
    }
    if y % 100 == 0 {
      assert y == 100 * (y / 100);
      assert y == 4 * (25 * (y / 100));
    }
  }

  /** Moving to the next year adds one to the count of multiples of k passed
      exactly when the year is itself a multiple of k. */
  lemma LeapStep(y: int, k: int)
    requires k == 4 || k == 100 || k == 400
    ensures (y + k) / k - (y + k - 1) / k == if y % k == 0 then 1 else 0
  {
    var q, r := y / k, y % k;
    DivUnique(y, k, q, r);
    DivUnique(y + k, k, q + 1, r);
    if r == 0 {
      DivUnique(y + k - 1, k, q, k - 1);
    } else {
      DivUnique(y + k - 1, k, q + 1, r - 1);
    }
  }

  /** Euclidean division by 4, 100 or 400 has one quotient and remainder. */
  lemma DivUnique(y: int, k: int, q: int, r: int)
    requires k == 4 || k == 100 || k == 400
    requires y == k * q + r && 0 <= r < k
    ensures y / k == q && y % k == r
  {
    if k == 4 {
      assert y == 4 * q + r;
    } else if k == 100 {
      assert y == 100 * q + r;
    } else {
      assert y == 400 * q + r;
    }
  }

  lemma YearLength(y: int)
    ensures DaysBeforeMonth(y, 12) + 31 == if IsLeapYear(y) then 366 else 365
    ensures DaysBeforeYear(y + 1) - DaysBeforeYear(y) == if IsLeapYear(y) then 366 else 365
  {
    MonthsFillYear(y);
    YearsSpanYearLength(y);
  }

  /** DAYS advances by exactly one from a date to the next one,
      across month and year ends. */
  lemma {:induction false} NextDayIsOneDayLater(d: Date)
    ensures DaysBetween(d, NextDay(d)) == 1
  {
    if d.day == LengthOfMonth(d.year, d.month) && d.month == 12 {
      YearLength(d.year);
    }
  }

  /** `minusDays(1)` undoes `plusDays(1)`. */
  lemma PreviousDayUndoesNextDay(d: Date)
    ensures PreviousDay(NextDay(d)) == d
  {
    if d.day == LengthOfMonth(d.year, d.month) && d.month == 12 {
      CompetenceRoundTrip(CompetenceOf(d), d.year, 12);
    } else if d.day == LengthOfMonth(d.year, d.month) {
      CompetenceRoundTrip(CompetenceOf(d), d.year, d.month);
    }
  }
}
