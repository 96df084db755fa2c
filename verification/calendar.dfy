/**
 The proleptic Gregorian calendar as Go's time package uses it: day numbers
 count from 0000-01-01 (day 0), years may be negative, and the calendar repeats
 every 400 years (146097 days).
 */
module Calendar {

  predicate IsLeap(y: int) {
    y % 4 == 0 && (y % 100 != 0 || y % 400 == 0)
  }

  function YearLength(y: int): int {
    if IsLeap(y) then 366 else 365
  }

  function DaysIn(month: int, y: int): int
    requires 1 <= month <= 12
  {
    if month == 2 then (if IsLeap(y) then 29 else 28)
    else if month == 4 || month == 6 || month == 9 || month == 11 then 30
    else 31
  }

  /** Days of year `y` before the first day of `month`; month 13 stands for the next year. */
  function DaysBeforeMonth(y: int, month: int): int
    requires 1 <= month <= 13
  {
    var common := [0, 31, 59, 90, 120, 151, 181, 212, 243, 273, 304, 334, 365][month - 1];
    if month > 2 && IsLeap(y) then common + 1 else common
  }

  lemma MonthStep(y: int, month: int)
    requires 1 <= month <= 12
    ensures DaysBeforeMonth(y, month + 1) == DaysBeforeMonth(y, month) + DaysIn(month, y)
    ensures DaysBeforeMonth(y, 1) == 0 && DaysBeforeMonth(y, 13) == YearLength(y)
  {
  }

  /** Days from the start of a 400-year cycle to the start of its `k`-th year. */
  function CycleDaysBefore(k: int): int
    requires 0 <= k <= 400
  {
    if k == 0 then 0 else CycleDaysBefore(k - 1) + YearLength(k - 1)
  }

  /** Euclidean division is determined by any quotient and in-range remainder. */
  lemma DivUnique(n: int, c: int, q: int, r: int)
    requires c == 4 || c == 100 || c == 400
    requires n == c * q + r && 0 <= r < c
    ensures n / c == q && n % c == r
  {
    if c == 4 {
    } else if c == 100 {
    } else {
    }
  }

  /** Crossing a multiple of `c` bumps the count of multiples of `c` by one. */
  lemma MultipleStep(k: int, c: int)
    requires c == 4 || c == 100 || c == 400
    requires 0 <= k
    ensures (k + c) / c - (k + c - 1) / c == if k % c == 0 then 1 else 0
  {
    if c == 4 {
    } else if c == 100 {
    } else {
    }
  }

  /** Leap years among 0 .. k-1 of a cycle: every fourth, less every hundredth, plus every four-hundredth. */
  function LeapsBefore(k: int): int {
    (k + 3) / 4 - (k + 99) / 100 + (k + 399) / 400
  }

  /** Year `k` adds one to the leap count exactly when it is a leap year. */
  lemma LeapsStep(k: int)
    requires 0 <= k
    ensures LeapsBefore(k + 1) == LeapsBefore(k) + (if IsLeap(k) then 1 else 0)
  {
    MultipleStep(k, 4);
    MultipleStep(k, 100);
    MultipleStep(k, 400);
    Divisibility(k);
  }

  /** Multiples of 400 are multiples of 100, which are multiples of 4. */
  lemma Divisibility(k: int)
    ensures k % 100 == 0 ==> k % 4 == 0
    ensures k % 400 == 0 ==> k % 100 == 0
  {
    if k % 100 == 0 {
      DivUnique(k, 4, 25 * (k / 100), 0);
    }
    if k % 400 == 0 {
      DivUnique(k, 100, 4 * (k / 400), 0);
    }
  }

  /** The usual closed form: 365 days a year plus one per leap year among years 0 .. k-1. */
  lemma {:induction false} CycleDaysClosedForm(k: int)
    requires 0 <= k <= 400
    ensures CycleDaysBefore(k) == 365 * k + LeapsBefore(k)
  {
    if k > 0 {
      CycleDaysClosedForm(k - 1);
      LeapsStep(k - 1);
    }
  }

  lemma CycleStep(k: int)
    requires 0 <= k < 400
    ensures CycleDaysBefore(k + 1) == CycleDaysBefore(k) + YearLength(k)
    ensures CycleDaysBefore(0) == 0 && CycleDaysBefore(400) == 146097
  {
    CycleDaysClosedForm(400);
  }

  /** Years repeat with period 400, so leap-ness depends on the year within the cycle. */
  lemma LeapPeriodic(q: int, k: int)
    requires 0 <= k < 400
    ensures IsLeap(400 * q + k) == IsLeap(k)
  {
    var y := 400 * q + k;
    DivUnique(y, 4, 100 * q + k / 4, k % 4);
    DivUnique(y, 100, 4 * q + k / 100, k % 100);
    DivUnique(y, 400, q, k);
  }

  lemma CycleSplit(q: int, k: int)
    requires 0 <= k < 400
    ensures (400 * q + k) / 400 == q && (400 * q + k) % 400 == k
  {
  }

  /** Day number of January 1 of year `y`. */
  function DaysBeforeYear(y: int): int {
    146097 * (y / 400) + CycleDaysBefore(y % 400)
  }

  /** The day number of a calendar date. */
  function DaysFromCivil(y: int, month: int, day: int): int
    requires 1 <= month <= 12
  {
    DaysBeforeYear(y) + DaysBeforeMonth(y, month) + day - 1
  }

  /** The year of the cycle holding cycle-day `r`, searched upward from `k`. */
  function FindYear(r: int, k: int): (y: int)
    requires 0 <= k < 400 && CycleDaysBefore(k) <= r < 146097
    ensures k <= y < 400
    ensures CycleDaysBefore(y) <= r < CycleDaysBefore(y + 1)
    decreases 400 - k
  {
    CycleStep(k);
    if r < CycleDaysBefore(k + 1) then k else FindYear(r, k + 1)
  }

  /** The month of a year holding day-of-year `doy`, searched upward from `month`. */
  function FindMonth(y: int, doy: int, month: int): (m: int)
    requires 1 <= month <= 12 && DaysBeforeMonth(y, month) <= doy < YearLength(y)
    ensures month <= m <= 12
    ensures DaysBeforeMonth(y, m) <= doy < DaysBeforeMonth(y, m + 1)
    decreases 12 - month
  {
    MonthStep(y, month);
    if doy < DaysBeforeMonth(y, month + 1) then month else FindMonth(y, doy, month + 1)
  }

  datatype Date = Date(year: int, month: int, day: int)

  predicate ValidDate(d: Date) {
    1 <= d.month <= 12 && 1 <= d.day <= DaysIn(d.month, d.year)
  }

  /** Year `400 * q + k` starts `q` whole cycles plus `k` years after day 0. */
  lemma YearInCycle(q: int, k: int)
    requires 0 <= k < 400
    ensures DaysBeforeYear(400 * q + k) == 146097 * q + CycleDaysBefore(k)
    ensures YearLength(400 * q + k) == YearLength(k)
  {
    CycleSplit(q, k);
    LeapPeriodic(q, k);
  }

  /** Day `146097 * q + r` falls in year `400 * q + k`, `r - CycleDaysBefore(k)` days after its start. */
  lemma DayInYear(q: int, r: int, k: int)
    requires 0 <= k < 400 && CycleDaysBefore(k) <= r < CycleDaysBefore(k + 1)
    ensures DaysBeforeYear(400 * q + k) + (r - CycleDaysBefore(k)) == 146097 * q + r
    ensures r - CycleDaysBefore(k) < YearLength(400 * q + k)
  {
    YearInCycle(q, k);
    CycleStep(k);
  }

  /** Where day `n` falls, given the year `k` of its 400-year cycle. */
  lemma DayInCycle(n: int, k: int, y: int, doy: int)
    requires 0 <= k < 400 && CycleDaysBefore(k) <= n % 146097 < CycleDaysBefore(k + 1)
    requires y == 400 * (n / 146097) + k && doy == n % 146097 - CycleDaysBefore(k)
    ensures DaysBeforeYear(y) + doy == n && 0 <= doy < YearLength(y)
  {
    var q, r := n / 146097, n % 146097;
    assert n == 146097 * q + r;
    DayInYear(q, r, k);
  }

  /** The year holding day number `n` and how many days into that year `n` falls. */
  function YearOfDay(n: int): (r: (int, int))
    ensures DaysBeforeYear(r.0) + r.1 == n
    ensures 0 <= r.1 < YearLength(r.0)
  {
    CycleStep(0);
    var k := FindYear(n % 146097, 0);
    var y := 400 * (n / 146097) + k;
    var doy := n % 146097 - CycleDaysBefore(k);
    DayInCycle(n, k, y, doy);
    (y, doy)
  }

  /** The calendar date of a day number: the inverse of `DaysFromCivil`. */
  function CivilFromDays(n: int): (d: Date)
    ensures ValidDate(d)
    ensures DaysFromCivil(d.year, d.month, d.day) == n
  {
    var (y, doy) := YearOfDay(n);
    MonthStep(y, 1);
    var m := FindMonth(y, doy, 1);
    MonthStep(y, m);
    Date(y, m, doy - DaysBeforeMonth(y, m) + 1)
  }
}
