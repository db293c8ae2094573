/** The proleptic Gregorian calendar of Python's `datetime.date`: which dates exist,
    their ordinal (day 1 is 1 January of year 1) and their day of the week. */
module Calendar {

  datatype Date = Date(year: int, month: int, day: int)

  /** `datetime.MINYEAR` and `datetime.MAXYEAR`. */
  const MinYear := 1
  const MaxYear := 9999

  /** `date.strftime("%A")` in the C locale, indexed by `date.weekday()`. */
  const WeekdayNames: seq<string> :=
    ["Monday", "Tuesday", "Wednesday", "Thursday", "Friday", "Saturday", "Sunday"]

  predicate IsLeapYear(y: int)
  {
    y % 4 == 0 && (y % 100 != 0 || y % 400 == 0)
  }

  function DaysInMonth(y: int, m: int): (n: int)
    requires 1 <= m <= 12
    ensures 28 <= n <= 31
    ensures n == 29 <==> m == 2 && IsLeapYear(y)
  {
    if m == 2 then (if IsLeapYear(y) then 29 else 28)
    else if m == 4 || m == 6 || m == 9 || m == 11 then 30
    else 31
  }

  function DaysInYear(y: int): int
  {
    if IsLeapYear(y) then 366 else 365
  }

  /** The dates `datetime.date(year, month, day)` accepts without raising `ValueError`. */
  predicate Valid(d: Date)
  {
    MinYear <= d.year <= MaxYear && 1 <= d.month <= 12 && 1 <= d.day <= DaysInMonth(d.year, d.month)
  }

  /** Days in the years before `y`. */
  function DaysBeforeYear(y: int): int
    requires y >= 1
  {
    var p := y - 1;
    365 * p + p / 4 - p / 100 + p / 400
  }

  /** Days in the months of year `y` before month `m`. */
  function DaysBeforeMonth(y: int, m: int): int
    requires 1 <= m <= 12
  {
    [0, 31, 59, 90, 120, 151, 181, 212, 243, 273, 304, 334][m - 1]
    + (if m > 2 && IsLeapYear(y) then 1 else 0)
  }

  /** `date.toordinal()` */
  function Ordinal(d: Date): (n: int)
    requires Valid(d)
    ensures n >= 1
  {
    DaysBeforeYear(d.year) + DaysBeforeMonth(d.year, d.month) + d.day
  }

  /** `date.weekday()`: 0 for Monday through 6 for Sunday. */
  function Weekday(d: Date): (w: int)
    requires Valid(d)
    ensures 0 <= w < 7
  {
    (Ordinal(d) + 6) % 7
  }

  /** `date.strftime("%A")` */
  function WeekdayName(d: Date): (name: string)
    requires Valid(d)
    ensures name in WeekdayNames
  {
    WeekdayNames[Weekday(d)]
  }

  /** The calendar day after `d`. */
  function NextDay(d: Date): (e: Date)
    requires Valid(d) && d != Date(MaxYear, 12, 31)
    ensures Valid(e)
  {
    if d.day < DaysInMonth(d.year, d.month) then Date(d.year, d.month, d.day + 1)
    else if d.month < 12 then Date(d.year, d.month + 1, 1)
    else Date(d.year + 1, 1, 1)
  }

  /** The table of month offsets is the running sum of the month lengths. */
  lemma DaysBeforeMonthStep(y: int, m: int)
    requires 1 <= m < 12
    ensures DaysBeforeMonth(y, m + 1) == DaysBeforeMonth(y, m) + DaysInMonth(y, m)
  {
  }

  lemma DaysBeforeMonthsOfYear(y: int)
    ensures DaysBeforeMonth(y, 1) == 0
    ensures DaysBeforeMonth(y, 12) + DaysInMonth(y, 12) == DaysInYear(y)
  {
  }

  /** One more year adds 366 days after a leap year and 365 otherwise. */
  lemma DaysBeforeYearStep(y: int)
    requires y >= 1
    ensures DaysBeforeYear(y + 1) == DaysBeforeYear(y) + DaysInYear(y)
  {
    StepOver4(y);
    StepOver100(y);
    StepOver400(y);
    LeapCount(y);
  }

  /** A year is a leap year when it is a multiple of 4, less the multiples of 100, plus
      the multiples of 400. */
  lemma LeapCount(y: int)
    ensures (if y % 4 == 0 then 1 else 0) - (if y % 100 == 0 then 1 else 0)
            + (if y % 400 == 0 then 1 else 0) == (if IsLeapYear(y) then 1 else 0)
  {
    if y % 100 == 0 {
      var k := y / 100;
      assert y == 4 * (25 * k);
    }
    if y % 400 == 0 {
      var k := y / 400;
      assert y == 100 * (4 * k);
    }
  }

  // Counting the multiples of 4, 100 and 400 up to `y`: one more than up to `y - 1`
  // exactly when `y` is one.

  lemma StepOver4(y: int)
    requires y >= 1
    ensures y / 4 == (y - 1) / 4 + (if y % 4 == 0 then 1 else 0)
  {
  }

  lemma StepOver100(y: int)
    requires y >= 1
    ensures y / 100 == (y - 1) / 100 + (if y % 100 == 0 then 1 else 0)
  {
  }

  lemma StepOver400(y: int)
    requires y >= 1
    ensures y / 400 == (y - 1) / 400 + (if y % 400 == 0 then 1 else 0)
  {
  }

  /** Consecutive days have consecutive ordinals, hence consecutive weekdays: with
      `FirstDayIsMonday` this pins down every weekday the calendar gives. */
  lemma NextDayOrdinal(d: Date)
    requires Valid(d) && d != Date(MaxYear, 12, 31)
    ensures Ordinal(NextDay(d)) == Ordinal(d) + 1
    ensures Weekday(NextDay(d)) == (Weekday(d) + 1) % 7
  {
    var e := NextDay(d);
    if d.day < DaysInMonth(d.year, d.month) {
      assert e == Date(d.year, d.month, d.day + 1);
    } else if d.month < 12 {
      assert e == Date(d.year, d.month + 1, 1);
      DaysBeforeMonthStep(d.year, d.month);
    } else {
      assert e == Date(d.year + 1, 1, 1);
      DaysBeforeMonthsOfYear(d.year);
      DaysBeforeMonthsOfYear(d.year + 1);
      DaysBeforeYearStep(d.year);
    }
    ModSevenStep(Ordinal(d) + 6);
  }

  lemma ModSevenStep(n: int)
    ensures (n + 1) % 7 == (n % 7 + 1) % 7
  {
    var q, r := n / 7, n % 7;
    assert n == 7 * q + r;
    if r < 6 {
      assert n + 1 == 7 * q + (r + 1);
    } else {
      assert n + 1 == 7 * (q + 1);
    }
  }

  lemma FirstDayIsMonday()
    ensures Ordinal(Date(MinYear, 1, 1)) == 1
    ensures WeekdayName(Date(MinYear, 1, 1)) == "Monday"
  {
    var d := Date(1, 1, 1);
    assert DaysBeforeYear(1) == 0;
    assert DaysBeforeMonth(1, 1) == 0;
    var o := Ordinal(d);
    assert o + 6 == 7;
    assert Weekday(d) == (o + 6) % 7;
  }
}
