/**
 * Dates as whole day numbers: day 0 is 1970-01-01 in the proleptic Gregorian
 * calendar. Every date the engine handles is a midnight, so a `datetime`
 * difference `.days` is a plain subtraction of day numbers.
 *
 * `AddYears` is `date + relativedelta(years=k)`: the same month and day k
 * years later, with 29 February clamped to 28 February in a common year.
 */
module Calendar {

  predicate IsLeap(y: int) {
    y % 4 == 0 && (y % 100 != 0 || y % 400 == 0)
  }

  function YearLength(y: int): int {
    if IsLeap(y) then 366 else 365
  }

  /** Day number of 1 January of year y, counted year by year from 1970. */
  function YearStart(y: int): int
    decreases if y < 1970 then 1970 - y else y - 1970
  {
    if y == 1970 then 0
    else if y > 1970 then YearStart(y - 1) + YearLength(y - 1)
    else YearStart(y + 1) - YearLength(y)
  }

  lemma YearStartStep(y: int)
    ensures YearStart(y + 1) == YearStart(y) + YearLength(y)
  {
  }

  /** The year holding day n, searching upwards from year y. */
  function YearUp(n: int, y: int): (r: int)
    requires YearStart(y) <= n
    ensures YearStart(r) <= n < YearStart(r + 1)
    decreases n - YearStart(y)
  {
    YearStartStep(y);
    if n < YearStart(y + 1) then y else YearUp(n, y + 1)
  }

  /** The year holding day n, searching downwards from year y. */
  function YearDown(n: int, y: int): (r: int)
    requires n < YearStart(y + 1)
    ensures YearStart(r) <= n < YearStart(r + 1)
    decreases YearStart(y + 1) - n
  {
    YearStartStep(y);
    YearStartStep(y - 1);
    if YearStart(y) <= n then y else YearDown(n, y - 1)
  }

  /** The calendar year of day n. */
  function YearOf(n: int): (y: int)
    ensures YearStart(y) <= n < YearStart(y + 1)
  {
    if n >= 0 then YearUp(n, 1970) else YearDown(n, 1969)
  }

  /** Index of 29 February in a leap year, and of 1 March in a common year. */
  const LeapDayIndex: int := 59

  /**
   * Day-of-year index, in a year of leapness `toLeap`, of the month and day
   * that has index `doy` in a year of leapness `fromLeap`; 29 February lands
   * on 28 February.
   */
  function ShiftDayOfYear(doy: int, fromLeap: bool, toLeap: bool): (r: int)
    ensures doy - 1 <= r <= doy + 1
  {
    if fromLeap == toLeap || doy < LeapDayIndex then doy
    else if fromLeap then doy - 1
    else doy + 1
  }

  /** `n + relativedelta(years=k)` on day numbers. */
  function AddYears(n: int, k: int): int {
    var y := YearOf(n);
    YearStart(y + k) + ShiftDayOfYear(n - YearStart(y), IsLeap(y), IsLeap(y + k))
  }

  lemma AddZeroYears(n: int)
    ensures AddYears(n, 0) == n
  {
  }

  lemma {:induction false} AddYearsStep(n: int, k: int)
    ensures AddYears(n, k) < AddYears(n, k + 1)
  {
    var y := YearOf(n);
    YearStartStep(y + k);
  }

  /** Adding more years gives a strictly later date. */
  lemma {:induction false} AddYearsIncreasing(n: int, k1: int, k2: int)
    requires k1 < k2
    ensures AddYears(n, k1) < AddYears(n, k2)
    decreases k2 - k1
  {
    AddYearsStep(n, k1);
    if k1 + 1 < k2 {
      AddYearsIncreasing(n, k1 + 1, k2);
    }
  }

  /** The weekday names in calendar order, Monday first. */
  const WeekNames: seq<string> := ["Monday", "Tuesday", "Wednesday", "Thursday", "Friday", "Saturday", "Sunday"]

  /** The week position of day n + 1 is one after that of day n, modulo 7. */
  lemma WeekIndexStep(n: int)
    ensures ((n + 1) % 7 + 3) % 7 == ((n % 7 + 3) % 7 + 1) % 7
  {
    var q, m := n / 7, n % 7;
    assert n == 7 * q + m && 0 <= m < 7;
    if m == 6 {
      assert n + 1 == 7 * (q + 1);
    } else {
      assert n + 1 == 7 * q + (m + 1);
    }
  }

  /** No two weekdays share a name. */
  lemma WeekNamesDistinct(i: int, j: int)
    requires 0 <= i < 7 && 0 <= j < 7 && WeekNames[i] == WeekNames[j]
    ensures i == j
  {
    assert WeekNames[i][..2] == WeekNames[j][..2];
  }

  /** `strftime('%A')` of day n; 1970-01-01 was a Thursday. */
  function DayName(n: int): (name: string)
    ensures name in WeekNames
    ensures n == 0 ==> name == "Thursday"
  {
    WeekNames[(n % 7 + 3) % 7]
  }

  lemma {:induction false} DayNameWeekly(n: int)
    ensures DayName(n + 7) == DayName(n)
  {
    assert (n + 7) % 7 == n % 7;
  }

  /** The next day has the next name, Sunday wrapping round to Monday. */
  lemma {:induction false} DayNameNext(n: int, i: int)
    requires 0 <= i < 7 && DayName(n) == WeekNames[i]
    ensures DayName(n + 1) == WeekNames[(i + 1) % 7]
  {
    WeekNamesDistinct((n % 7 + 3) % 7, i);
    WeekIndexStep(n);
  }

  /** 29 February 1972, the first leap day after the epoch, was a Tuesday. */
  lemma LeapDay1972()
    ensures YearStart(1972) + LeapDayIndex == 789
    ensures DayName(YearStart(1972) + LeapDayIndex) == "Tuesday"
  {
    YearStartStep(1970);
    YearStartStep(1971);
  }
}
