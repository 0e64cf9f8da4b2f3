/** The proleptic Gregorian calendar, defined by its own rules and by nothing in the library:
    leap years, month lengths, and "the next day". `NthDate` counts days one at a time from
    0001-01-01, and is the reference every fast calendar computation is compared with.
 */
module Calendar {
  import opened MachineWords

  datatype Date = Date(year: int, month: int, day: int)

  const FIRST_DATE := Date(1, 1, 1)

  predicate Leap(y: int) {
    y % 4 == 0 && (y % 100 != 0 || y % 400 == 0)
  }

  function YearLength(y: int): int {
    if Leap(y) then 366 else 365
  }

  function MonthLength(y: int, m: int): int {
    if m == 2 then (if Leap(y) then 29 else 28)
    else if m == 4 || m == 6 || m == 9 || m == 11 then 30
    else 31
  }

  predicate Valid(d: Date) {
    1 <= d.year && 1 <= d.month <= 12 && 1 <= d.day <= MonthLength(d.year, d.month)
  }

  /** The calendar's successor of a date. */
  function Next(d: Date): (n: Date)
    ensures Valid(d) ==> Valid(n)
  {
    if d.day < MonthLength(d.year, d.month) then d.(day := d.day + 1)
    else if d.month < 12 then Date(d.year, d.month + 1, 1)
    else Date(d.year + 1, 1, 1)
  }

  /** The date `n` days after 0001-01-01. */
  function NthDate(n: nat): (d: Date)
    ensures Valid(d)
  {
    if n == 0 then FIRST_DATE else Next(NthDate(n - 1))
  }

  /** Calendar order. */
  predicate Before(a: Date, b: Date) {
    a.year < b.year
    || (a.year == b.year && (a.month < b.month || (a.month == b.month && a.day < b.day)))
  }

  function DaysBeforeYear(y: int): nat
    requires 1 <= y
  {
    if y == 1 then 0 else DaysBeforeYear(y - 1) + YearLength(y - 1)
  }

  function DaysBeforeMonth(y: int, m: int): nat
    requires 1 <= m <= 13
  {
    if m == 1 then 0 else DaysBeforeMonth(y, m - 1) + MonthLength(y, m - 1)
  }

  /** How many days precede `d`, counting from 0001-01-01. */
  function DayNumber(d: Date): nat
    requires Valid(d)
  {
    DaysBeforeYear(d.year) + DaysBeforeMonth(d.year, d.month) + d.day - 1
  }

  /** Stepping to a multiple of `k` is what raises the quotient. */
  lemma MultipleStep(x: int, k: int)
    requires k > 0
    ensures x / k == (x - 1) / k + if x % k == 0 then 1 else 0
  {
    var q, r := x / k, x % k;
    if r == 0 {
      assert x - 1 == k * (q - 1) + (k - 1) by { assert k * (q - 1) == k * q - k; }
      DivModIs(x - 1, k, q - 1, k - 1);
    } else {
      DivModIs(x - 1, k, q, r - 1);
    }
  }

  /** The leap day, from its three divisibility tests. */
  lemma LeapDay(y: int)
    ensures YearLength(y) == 365 + (if y % 4 == 0 then 1 else 0)
                             - (if y % 100 == 0 then 1 else 0)
                             + (if y % 400 == 0 then 1 else 0)
  {
    NestedMultiples(y);
  }

  lemma NestedMultiples(y: int)
    ensures y % 400 == 0 ==> y % 100 == 0
    ensures y % 100 == 0 ==> y % 4 == 0
  {
    if y % 400 == 0 {
      DivModIs(y, 100, 4 * (y / 400), 0);
    }
    if y % 100 == 0 {
      DivModIs(y, 4, 25 * (y / 100), 0);
    }
  }

  lemma {:induction false} DaysBeforeYearClosedForm(y: int)
    requires 1 <= y
    ensures DaysBeforeYear(y) == 365 * (y - 1) + (y - 1) / 4 - (y - 1) / 100 + (y - 1) / 400
  {
    if y == 1 {
    } else {
      DaysBeforeYearClosedForm(y - 1);
      DaysStep(y - 1, DaysBeforeYear(y - 1));
    }
  }

  /** One year more in the closed form. */
  lemma DaysStep(y: int, days: int)
    requires days == 365 * (y - 1) + (y - 1) / 4 - (y - 1) / 100 + (y - 1) / 400
    ensures days + YearLength(y) == 365 * y + y / 4 - y / 100 + y / 400
  {
    hide YearLength;
    MultipleStep(y, 4);
    MultipleStep(y, 100);
    MultipleStep(y, 400);
    LeapDay(y);
  }

  lemma {:induction false} YearsAreConsecutive(a: int, b: int)
    requires 1 <= a < b
    ensures DaysBeforeYear(a) + YearLength(a) <= DaysBeforeYear(b)
    decreases b - a
  {
    if a + 1 == b {
    } else {
      YearsAreConsecutive(a, b - 1);
    }
  }

  lemma MonthTable(y: int)
    ensures DaysBeforeMonth(y, 1) == 0 && DaysBeforeMonth(y, 2) == 31
    ensures var leapDay := if Leap(y) then 1 else 0;
            && DaysBeforeMonth(y, 3) == 59 + leapDay && DaysBeforeMonth(y, 4) == 90 + leapDay
            && DaysBeforeMonth(y, 5) == 120 + leapDay && DaysBeforeMonth(y, 6) == 151 + leapDay
            && DaysBeforeMonth(y, 7) == 181 + leapDay && DaysBeforeMonth(y, 8) == 212 + leapDay
            && DaysBeforeMonth(y, 9) == 243 + leapDay && DaysBeforeMonth(y, 10) == 273 + leapDay
            && DaysBeforeMonth(y, 11) == 304 + leapDay && DaysBeforeMonth(y, 12) == 334 + leapDay
            && DaysBeforeMonth(y, 13) == YearLength(y)
  {
    assert DaysBeforeMonth(y, 4) == DaysBeforeMonth(y, 3) + 31;
    assert DaysBeforeMonth(y, 6) == DaysBeforeMonth(y, 5) + 31;
    assert DaysBeforeMonth(y, 8) == DaysBeforeMonth(y, 7) + 31;
    assert DaysBeforeMonth(y, 10) == DaysBeforeMonth(y, 9) + 30;
    assert DaysBeforeMonth(y, 12) == DaysBeforeMonth(y, 11) + 30;
  }

  lemma MonthStep(y: int, m: int)
    requires 1 <= m <= 12
    ensures DaysBeforeMonth(y, m + 1) == DaysBeforeMonth(y, m) + MonthLength(y, m)
  {
  }

  lemma {:induction false} MonthsAreConsecutive(y: int, a: int, b: int)
    requires 1 <= a < b <= 13
    ensures DaysBeforeMonth(y, a) + MonthLength(y, a) <= DaysBeforeMonth(y, b)
    decreases b - a
  {
    if a + 1 == b {
    } else {
      MonthsAreConsecutive(y, a, b - 1);
    }
  }

  /** A valid date falls inside its own year. */
  lemma DateWithinYear(d: Date)
    requires Valid(d)
    ensures DaysBeforeYear(d.year) <= DayNumber(d) < DaysBeforeYear(d.year) + YearLength(d.year)
  {
    MonthsAreConsecutive(d.year, d.month, 13);
    MonthTable(d.year);
  }

  /** Day numbers are strictly increasing in calendar order, hence injective. */
  lemma DayNumberIncreases(a: Date, b: Date)
    requires Valid(a) && Valid(b)
    ensures Before(a, b) <==> DayNumber(a) < DayNumber(b)
    ensures a == b <==> DayNumber(a) == DayNumber(b)
  {
    if Before(a, b) {
      DayNumberStrict(a, b);
    } else if a != b {
      DayNumberStrict(b, a);
    }
  }

  lemma DayNumberStrict(a: Date, b: Date)
    requires Valid(a) && Valid(b) && Before(a, b)
    ensures DayNumber(a) < DayNumber(b)
  {
    if a.year < b.year {
      DateWithinYear(a);
      DateWithinYear(b);
      YearsAreConsecutive(a.year, b.year);
    } else if a.month < b.month {
      MonthsAreConsecutive(a.year, a.month, b.month);
    }
  }

  lemma DayNumberOfNext(d: Date)
    requires Valid(d)
    ensures DayNumber(Next(d)) == DayNumber(d) + 1
  {
    MonthTable(d.year);
  }

  lemma {:induction false} DayNumberOfNth(n: nat)
    ensures DayNumber(NthDate(n)) == n
  {
    if n == 0 {
    } else {
      DayNumberOfNth(n - 1);
      DayNumberOfNext(NthDate(n - 1));
    }
  }

  /** Counting days and numbering dates are inverse bijections. */
  lemma NthDateOfDayNumber(d: Date)
    requires Valid(d)
    ensures NthDate(DayNumber(d)) == d
  {
    DayNumberOfNth(DayNumber(d));
    DayNumberIncreases(d, NthDate(DayNumber(d)));
  }

  /** Any valid date with day number `n` is the `n`th date. */
  lemma NthDateIs(n: nat, d: Date)
    requires Valid(d) && DayNumber(d) == n
    ensures NthDate(n) == d
  {
    NthDateOfDayNumber(d);
  }
}
