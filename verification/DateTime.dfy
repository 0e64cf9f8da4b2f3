/** The date and time of day stored in one 64-bit word: 62 bits of ticks (100 ns units since
    0001-01-01) under two bits of kind. Dates come out of the ticks without division by the
    irregular year lengths: by Euclidean affine functions, one multiplication whose high and
    low halves hold the year and the day of the year.
 */
module DateTimes {
  import opened Calendar
  import opened MachineWords
  import opened Outcomes
  import opened TickUnits

  const DAYS_PER_YEAR := 365
  const DAYS_PER_4_YEARS := DAYS_PER_YEAR * 4 + 1
  const DAYS_PER_100_YEARS := DAYS_PER_4_YEARS * 25 - 1
  const DAYS_PER_400_YEARS := DAYS_PER_100_YEARS * 4 + 1
  const DAYS_TO_1970 := DAYS_PER_400_YEARS * 4 + DAYS_PER_100_YEARS * 3 + DAYS_PER_4_YEARS * 17 + DAYS_PER_YEAR
  const DAYS_TO_10000 := DAYS_PER_400_YEARS * 25 - 366
  const MAX_TICKS := DAYS_TO_10000 * TICKS_PER_DAY - 1

  const EAF_MULTIPLIER := (TWO_32 + DAYS_PER_4_YEARS - 1) / DAYS_PER_4_YEARS
  const EAF_DIVIDER := EAF_MULTIPLIER * 4
  const MARCH_1_BASED_DAY_OF_NEW_YEAR := 306

  const DAYS_TO_MONTH_365: seq<nat> := [0, 31, 59, 90, 120, 151, 181, 212, 243, 273, 304, 334, 365]
  const DAYS_TO_MONTH_366: seq<nat> := [0, 31, 60, 91, 121, 152, 182, 213, 244, 274, 305, 335, 366]
  const DAYS_IN_MONTH_365: seq<nat> := [31, 28, 31, 30, 31, 30, 31, 31, 30, 31, 30, 31]
  const DAYS_IN_MONTH_366: seq<nat> := [31, 29, 31, 30, 31, 30, 31, 31, 30, 31, 30, 31]

  datatype Kind = Unspecified | Utc | Local

  datatype Error =
    | TickOutOfRange | MillisecondsOutOfRange | InvalidKind | InvalidYearMonthDay | InvalidHourMinuteSecond
    | YearOutOfRange | BadMonth
    | BadYears | BadYear           // from `AddYears`: out of range
    | BadMonths | BadYearOfMonths  // from `AddMonths`: invalid arguments

  /** Every word the constructors produce: kind bits above a tick count that is in range. */
  type DateTime = w: int | 0 <= w < TWO_64 && w % TWO_62 <= MAX_TICKS

  /** `_dateData & TicksMask`. */
  function Ticks(t: DateTime): nat { t % TWO_62 }

  /** `_dateData & FlagsMask`. */
  function InternalKind(t: DateTime): nat { t - t % TWO_62 }

  function KindOf(t: DateTime): Kind {
    if InternalKind(t) == 0 then Unspecified
    else if InternalKind(t) == TWO_62 then Utc
    else Local
  }

  /** The enumerator's value. */
  function KindCode(kind: Kind): int32 {
    match kind
    case Unspecified => 0
    case Utc => 1
    case Local => 2
  }

  /** `kind << KindShift`. */
  function KindBits(kind: int): int { kind * TWO_62 }

  /** The constructor from raw ticks: it rejects a word that carries kind bits. */
  function FromTicks(ticks: int64): Result<DateTime, Error> {
    if U64(ticks) > MAX_TICKS then Err(TickOutOfRange) else Ok(U64(ticks))
  }

  /** Of all int64 values, negative ones included, it accepts exactly the tick counts. */
  lemma FromTicksCorrect(ticks: int64)
    ensures FromTicks(ticks) == if 0 <= ticks <= MAX_TICKS then Ok(ticks) else Err(TickOutOfRange)
  {
  }

  // ---- From a date to ticks ----

  /** The body of `IsLeapYear` past its range check, in bit tests. */
  predicate LeapTest(year: int) {
    if year % 4 != 0 then false
    else if year % 16 == 0 then true
    else year % 25 != 0
  }

  function IsLeapYear(year: int): Result<bool, Error> {
    if year < 1 || year > 9999 then Err(YearOutOfRange) else Ok(LeapTest(year))
  }

  function DaysToMonth(year: int): (table: seq<nat>)
    ensures |table| == 13
  {
    if LeapTest(year) then DAYS_TO_MONTH_366 else DAYS_TO_MONTH_365
  }

  function DaysInMonth(year: int, month: int): Result<nat, Error> {
    if month < 1 || month > 12 then Err(BadMonth)
    else
      match IsLeapYear(year)
      case Err(e) => Err(e)
      case Ok(leap) => Ok((if leap then DAYS_IN_MONTH_366 else DAYS_IN_MONTH_365)[month - 1])
  }

  function DaysToYear(year: uint32): uint32 {
    var y := U32(year - 1);
    var cent := y / 100;
    U32(U32(y * (365 * 4 + 1)) / 4 - cent + cent / 4)
  }

  function DateToTicks(year: int, month: int, day: int): Result<nat, Error> {
    if year < 1 || year > 9999 || month < 1 || month > 12 || day < 1 then
      Err(InvalidYearMonthDay)
    else
      var days := DaysToMonth(year);
      if day > U32(days[month] - days[month - 1]) then Err(InvalidYearMonthDay)
      else
        var n := U32(DaysToYear(year) + days[month - 1] + day - 1);
        Ok(U64(n * TICKS_PER_DAY))
  }

  // ---- From ticks to a date ----

  function DivRem(left: uint32, right: uint32): (r: (uint32, uint32))
    requires right > 0
    ensures r == (left / right, left % right)
  {
    var quotient := left / right;
    (quotient, left - quotient * right)
  }

  /** The day within its civil year or century, scaled by four: six-hour periods with the low bits set. */
  function QuarterDays(t: DateTime): nat {
    Or3(U32(Ticks(t) / TICKS_PER_6_HOURS))
  }

  function GetDate(t: DateTime): Date {
    var (y100, r1) := DivRem(U32(QuarterDays(t) + 1224), DAYS_PER_400_YEARS);
    var u2 := U64(EAF_MULTIPLIER * Or3(r1));
    var daySinceMarch1 := U16(U32(u2) / EAF_DIVIDER);
    var n3 := 2141 * daySinceMarch1 + 197913;
    var year := U32(100 * y100 + U32(u2 / TWO_32));
    var month := U16(n3 / TWO_16);
    var day := U16(n3) / 2141 + 1;
    if daySinceMarch1 >= MARCH_1_BASED_DAY_OF_NEW_YEAR
    then Date(year + 1, month - 12, day)
    else Date(year, month, day)
  }

  function Year(t: DateTime): int {
    var (y100, r1) := DivRem(U32(QuarterDays(t)), DAYS_PER_400_YEARS);
    1 + U32(100 * y100 + Or3(r1) / DAYS_PER_4_YEARS)
  }

  function Month(t: DateTime): int {
    var r1 := U32(QuarterDays(t) + 1224) % DAYS_PER_400_YEARS;
    var u2 := U64(EAF_MULTIPLIER * Or3(r1));
    var daySinceMarch1 := U16(U32(u2) / EAF_DIVIDER);
    var n3 := 2141 * daySinceMarch1 + 197913;
    U16(n3 / TWO_16) - (if daySinceMarch1 >= MARCH_1_BASED_DAY_OF_NEW_YEAR then 12 else 0)
  }

  function Day(t: DateTime): int {
    var r1 := U32(QuarterDays(t) + 1224) % DAYS_PER_400_YEARS;
    var u2 := U64(EAF_MULTIPLIER * Or3(r1));
    var daySinceMarch1 := U16(U32(u2) / EAF_DIVIDER);
    var n3 := 2141 * daySinceMarch1 + 197913;
    U16(n3) / 2141 + 1
  }

  /** A 32-bit product that is meant to wrap. */
  function DayOfYear(t: DateTime): int {
    1 + U32(Or3(U32(QuarterDays(t)) % DAYS_PER_400_YEARS) * EAF_MULTIPLIER) / EAF_DIVIDER
  }

  function DayOfWeek(t: DateTime): int {
    (U32(Ticks(t) / TICKS_PER_DAY) + 1) % 7
  }

  /** The whole days in a value: what every date below is compared with, through `NthDate`. */
  function DayIndex(t: DateTime): nat { Ticks(t) / TICKS_PER_DAY }

  // ---- The fast steps are exact ----

  /** One multiplication holds quotient and remainder of a division by 1461. */
  lemma AffineStepIsDivision(x: nat)
    requires x <= 146_099
    ensures U64(EAF_MULTIPLIER * x) == EAF_MULTIPLIER * x
    ensures U32(EAF_MULTIPLIER * x / TWO_32) == x / DAYS_PER_4_YEARS <= 99
    ensures U16(U32(EAF_MULTIPLIER * x) / EAF_DIVIDER) == x % DAYS_PER_4_YEARS / 4
    ensures U32(x * EAF_MULTIPLIER) / EAF_DIVIDER == x % DAYS_PER_4_YEARS / 4
  {
    assert EAF_MULTIPLIER == 2_939_745;
    var q, r := x / 1461, x % 1461;
    assert x == 1461 * q + r;
    var low := 2_939_745 * r + 149 * q;
    assert 2_939_745 * x == TWO_32 * q + low;
    assert 0 <= low < TWO_32;
    assert r == 4 * (r / 4) + r % 4;
    assert 11_758_980 * (r / 4) <= low < 11_758_980 * (r / 4 + 1);
  }

  /** Division of `4n + 3` by a cycle of `4k + 1` quarter-days, with `p == k * c`: the quotient's
      own quarters are the cycle's leap days, and the remainder's low bits are what they leave. */
  lemma CycleSplit(n: int, p: int, c: nat, r: nat)
    requires 4 * n + 3 == 4 * p + c + r
    ensures n == p + c / 4 + r / 4
    ensures r % 4 == 3 - c % 4
    ensures Or3(r) == 4 * (r / 4) + 3
  {
    assert c == 4 * (c / 4) + c % 4 && r == 4 * (r / 4) + r % 4;
  }

  /** Splitting a day count into centuries, then years, lands on the year's first day. */
  lemma CenturySplit(n: nat)
    requires n <= 3_652_364
    ensures var x: nat := 4 * n + 3;
            var c: nat := x / DAYS_PER_400_YEARS;
            var r: nat := Or3(x % DAYS_PER_400_YEARS);
            var y: nat := 100 * c + r / DAYS_PER_4_YEARS;
            && r <= 146_099
            && r % DAYS_PER_4_YEARS / 4 < YearLength(y + 1)
            && n == DaysBeforeYear(y + 1) + r % DAYS_PER_4_YEARS / 4
  {
    hide Or3, YearLength, DaysBeforeYear;
    var x := 4 * n + 3;
    var c, r1 := x / 146_097, x % 146_097;
    assert x == 146_097 * c + r1;
    CycleSplit(n, 36_524 * c, c, r1);
    CenturyYear(c, r1);
  }

  lemma CenturyYear(c: nat, r1: nat)
    requires r1 < 146_097 && r1 % 4 == 3 - c % 4
    ensures var r := Or3(r1);
            var y := 100 * c + r / 1461;
            && r <= 146_099
            && r % 1461 / 4 < YearLength(y + 1)
            && DaysBeforeYear(y + 1) + r % 1461 / 4 == 36_524 * c + c / 4 + r1 / 4
  {
    hide DaysBeforeYear, YearLength, Leap, Or3;
    QuarterBounds(r1);
    var q, s := Or3(r1) / 1461, Or3(r1) % 1461;
    CycleSplit(r1 / 4, 365 * q, q, s);
    LastDayOfYear(c, q, s, r1);
    CenturySum(c, q);
  }

  lemma QuarterBounds(r1: nat)
    requires r1 < 146_097
    ensures var r := Or3(r1);
            r == 4 * (r1 / 4) + 3 <= 146_099 && r == 1461 * (r / 1461) + r % 1461 && r / 1461 <= 99
  {
  }

  lemma CenturySum(c: nat, q: nat)
    requires q <= 99
    ensures DaysBeforeYear(100 * c + q + 1) == 36_524 * c + c / 4 + 365 * q + q / 4
  {
    hide DaysBeforeYear, Leap;
    YearInCentury(c, q);
    DaysBeforeYearClosedForm(100 * c + q + 1);
  }

  /** The quarters left in a year are fewer than its days, four times over: 29 February exists only
      where the remainder can reach it. */
  lemma LastDayOfYear(c: nat, q: nat, s: nat, r1: nat)
    requires q <= 99 && s < 1461 && 1461 * q + s == Or3(r1)
    requires r1 < 146_097 && r1 % 4 == 3 - c % 4
    ensures s / 4 < YearLength(100 * c + q + 1)
  {
    hide Leap;
    YearInCentury(c, q);
    assert s / 4 <= 365;
    if s / 4 == 365 {
      assert s == 1460;
      assert (1461 * q + 1460) % 4 == 3 ==> q % 4 == 3;
      if q == 99 {
        assert r1 == 146_096;
      }
    }
  }

  lemma YearInCentury(c: nat, q: nat)
    requires q <= 99
    ensures var y := 100 * c + q;
            && y / 4 == 25 * c + q / 4 && y / 100 == c && y / 400 == c / 4
            && (Leap(y + 1) <==> (q % 4 == 3 && (q == 99 ==> c % 4 == 3)))
  {
    hide Leap;
    var y := 100 * c + q;
    DivModIs(y, 4, 25 * c + q / 4, q % 4);
    DivModIs(y, 100, c, q);
    DivModIs(y, 400, c / 4, 100 * (c % 4) + q);
    if q == 99 {
      LeapAtCenturyEnd(c);
    } else {
      LeapWithinCentury(c, q + 1);
    }
  }

  lemma LeapWithinCentury(c: nat, k: nat)
    requires 1 <= k <= 99
    ensures Leap(100 * c + k) <==> k % 4 == 0
  {
    DivModIs(100 * c + k, 4, 25 * c + k / 4, k % 4);
    DivModIs(100 * c + k, 100, c, k);
  }

  lemma LeapAtCenturyEnd(c: nat)
    ensures Leap(100 * c + 99 + 1) <==> c % 4 == 3
  {
    var y := 100 * (c + 1);
    DivModIs(y, 4, 25 * (c + 1), 0);
    DivModIs(y, 100, c + 1, 0);
    DivModIs(y, 400, (c + 1) / 4, 100 * ((c + 1) % 4));
  }

  /** The affine function `2141 * n + 197913` is the month table, counted from March of year `y`. */
  lemma MonthSplit(y: int, n: nat)
    requires n < YearLength(y + 1)
    ensures var n3 := 2141 * n + 197913;
            var m, d := U16(n3 / TWO_16), U16(n3) / 2141 + 1;
            if n < MARCH_1_BASED_DAY_OF_NEW_YEAR then
              && 3 <= m <= 12 && 1 <= d <= MonthLength(y, m)
              && DaysBeforeMonth(y, m) + d - 1 == n + 59 + (if Leap(y) then 1 else 0)
            else
              && 13 <= m <= 14 && 1 <= d <= MonthLength(y + 1, m - 12)
              && DaysBeforeMonth(y + 1, m - 12) + d - 1 == n - 306
  {
    MonthTable(y);
    MonthTable(y + 1);
    if
    case n < 31 => MonthSplitAt(3, 0, n);
    case 31 <= n < 61 => MonthSplitAt(4, 31, n);
    case 61 <= n < 92 => MonthSplitAt(5, 61, n);
    case 92 <= n < 122 => MonthSplitAt(6, 92, n);
    case 122 <= n < 153 => MonthSplitAt(7, 122, n);
    case 153 <= n < 184 => MonthSplitAt(8, 153, n);
    case 184 <= n < 214 => MonthSplitAt(9, 184, n);
    case 214 <= n < 245 => MonthSplitAt(10, 214, n);
    case 245 <= n < 275 => MonthSplitAt(11, 245, n);
    case 275 <= n < 306 => MonthSplitAt(12, 275, n);
    case 306 <= n < 337 => MonthSplitAt(13, 306, n);
    case 337 <= n => MonthSplitAt(14, 337, n);
  }

  lemma MonthSplitAt(m: nat, start: nat, n: nat)
    requires 3 <= m <= 14 && start <= n <= start + 30
    requires 0 <= 2141 * start + 197913 - TWO_16 * m < 2141
    requires 2141 * n + 197913 < TWO_16 * (m + 1)
    ensures var n3 := 2141 * n + 197913;
            U16(n3 / TWO_16) == m && U16(n3) / 2141 == n - start
  {
    var n3 := 2141 * n + 197913;
    var low := n3 - TWO_16 * m;
    assert n3 / TWO_16 == m && n3 % TWO_16 == low;
    assert 2141 * (n - start) <= low < 2141 * (n - start + 1);
  }

  lemma QuarterDaysOf(t: DateTime)
    ensures DayIndex(t) < DAYS_TO_10000
    ensures QuarterDays(t) == 4 * DayIndex(t) + 3
  {
    assert Ticks(t) <= MAX_TICKS;
    hide Ticks;
    TickQuotients(Ticks(t));
  }

  lemma TickQuotients(ticks: nat)
    requires ticks <= MAX_TICKS
    ensures ticks / TICKS_PER_DAY < DAYS_TO_10000
    ensures Or3(U32(ticks / TICKS_PER_6_HOURS)) == 4 * (ticks / TICKS_PER_DAY) + 3
  {
    assert DAYS_TO_10000 == 3_652_059;
    var d, r := ticks / TICKS_PER_DAY, ticks % TICKS_PER_DAY;
    assert ticks == TICKS_PER_DAY * d + r;
    DivModIs(ticks, TICKS_PER_6_HOURS, 4 * d + r / TICKS_PER_6_HOURS, r % TICKS_PER_6_HOURS);
  }

  /** The last steps of `GetDate`: month and day from the day since 1 March of year `y`. */
  function MarchDate(y: nat, daySinceMarch1: nat): Date {
    var n3 := 2141 * daySinceMarch1 + 197913;
    var month := U16(n3 / TWO_16);
    var day := U16(n3) / 2141 + 1;
    if daySinceMarch1 >= MARCH_1_BASED_DAY_OF_NEW_YEAR
    then Date(y + 1, month - 12, day)
    else Date(y, month, day)
  }

  lemma MarchDateCorrect(y: nat, dm: nat, n: nat)
    requires dm < YearLength(y + 1)
    requires n + 306 == DaysBeforeYear(y + 1) + dm
    ensures MarchDate(y, dm) == NthDate(n)
  {
    MonthSplit(y, dm);
    NthDateIs(n, MarchDate(y, dm));
  }

  /** The century split and the multiplication, for any day count. */
  lemma CivilParts(n: nat) returns (y: nat, dm: nat)
    requires n <= 3_652_364
    ensures dm < YearLength(y + 1) && n == DaysBeforeYear(y + 1) + dm
    ensures var x := 4 * n + 3;
            var r := Or3(x % DAYS_PER_400_YEARS);
            var u2 := U64(EAF_MULTIPLIER * r);
            && y == U32(100 * (x / DAYS_PER_400_YEARS) + U32(u2 / TWO_32))
            && y == U32(100 * (x / DAYS_PER_400_YEARS) + r / DAYS_PER_4_YEARS)
            && dm == U16(U32(u2) / EAF_DIVIDER) == U32(r * EAF_MULTIPLIER) / EAF_DIVIDER
  {
    hide U16, U32, U64, Or3, DaysBeforeYear, YearLength;
    CenturySplit(n);
    SmallCentury(n);
    var c, r := (4 * n + 3) / DAYS_PER_400_YEARS, Or3((4 * n + 3) % DAYS_PER_400_YEARS);
    CivilWords(c, r);
    y, dm := 100 * c + r / DAYS_PER_4_YEARS, r % DAYS_PER_4_YEARS / 4;
  }

  lemma CivilWords(c: nat, r: nat)
    requires c <= 100 && r <= 146_099
    ensures var u2 := U64(EAF_MULTIPLIER * r);
            var y := 100 * c + r / DAYS_PER_4_YEARS;
            && U32(100 * c + U32(u2 / TWO_32)) == y == U32(y)
            && U16(U32(u2) / EAF_DIVIDER) == r % DAYS_PER_4_YEARS / 4 == U32(r * EAF_MULTIPLIER) / EAF_DIVIDER
  {
    hide U16, U32, U64;
    AffineStepIsDivision(r);
  }

  lemma SmallCentury(n: nat)
    requires n <= 3_652_364
    ensures (4 * n + 3) / DAYS_PER_400_YEARS <= 100
  {
  }

  /** What the century split and the multiplication leave for the month table. */
  lemma MarchParts(t: DateTime) returns (y: nat, dm: nat)
    ensures dm < YearLength(y + 1) && DayIndex(t) + 306 == DaysBeforeYear(y + 1) + dm
    ensures var x := U32(QuarterDays(t) + 1224);
            var u2 := U64(EAF_MULTIPLIER * Or3(x % DAYS_PER_400_YEARS));
            && y == U32(100 * (x / DAYS_PER_400_YEARS) + U32(u2 / TWO_32))
            && dm == U16(U32(u2) / EAF_DIVIDER)
  {
    hide QuarterDays, DayIndex, U16, U32, U64, Or3, DaysBeforeYear, YearLength;
    QuarterDaysOf(t);
    y, dm := CivilParts(DayIndex(t) + 306);
  }

  /** `GetDate` is the date reached by counting days one at a time. */
  lemma GetDateCorrect(t: DateTime)
    ensures GetDate(t) == NthDate(DayIndex(t))
    ensures GetDate(t).year <= 9999
  {
    GetDateIsNth(t);
    hide *;
    DayNumberOfNth(DayIndex(t));
    QuarterDaysOf(t);
    YearBound(NthDate(DayIndex(t)));
  }

  lemma GetDateIsNth(t: DateTime)
    ensures GetDate(t) == NthDate(DayIndex(t))
  {
    hide QuarterDays, DayIndex, U64, U32, U16, Or3, NthDate, DaysBeforeYear, YearLength;
    var y, dm := MarchParts(t);
    MarchDateCorrect(y, dm, DayIndex(t));
    assert GetDate(t) == MarchDate(y, dm);
  }

  lemma YearBound(d: Date)
    requires Valid(d)
    ensures d.year <= 9999 <==> DayNumber(d) < DAYS_TO_10000
  {
    hide DayNumber, DaysBeforeYear, Leap, Valid;
    DateWithinYear(d);
    DaysBefore10000();
    ValidYear(d);
    if d.year <= 9999 {
      YearsAreConsecutive(d.year, 10000);
    } else if d.year > 10000 {
      YearsAreConsecutive(10000, d.year);
    }
  }

  lemma ValidYear(d: Date)
    requires Valid(d)
    ensures 1 <= d.year
  {
  }

  lemma DaysBefore10000()
    ensures DaysBeforeYear(10000) == DAYS_TO_10000
  {
    hide DaysBeforeYear;
    DaysBeforeYearClosedForm(10000);
  }

  // ---- The other readers agree with GetDate ----

  lemma YearOfDay(n: nat, y: nat)
    requires 1 <= y && DaysBeforeYear(y) <= n < DaysBeforeYear(y) + YearLength(y)
    ensures NthDate(n).year == y
  {
    var d := NthDate(n);
    DayNumberOfNth(n);
    DateWithinYear(d);
    if d.year < y {
      YearsAreConsecutive(d.year, y);
    } else if y < d.year {
      YearsAreConsecutive(y, d.year);
    }
  }

  /** The January-based split: the year that holds a day, and the day's place in it. */
  lemma JanuaryParts(t: DateTime) returns (y: nat, dm: nat)
    ensures dm < YearLength(y + 1) && DayIndex(t) == DaysBeforeYear(y + 1) + dm
    ensures Year(t) == y + 1
    ensures DayOfYear(t) == dm + 1
  {
    hide QuarterDays, DayIndex, U16, U32, U64, Or3, DaysBeforeYear, YearLength;
    QuarterDaysOf(t);
    y, dm := CivilParts(DayIndex(t));
  }

  /** `Year` counts from January in its own way; `Month` and `Day` repeat the formula of `GetDate`. All
      three are parts of one date. */
  lemma ReadersAgree(t: DateTime)
    ensures Date(Year(t), Month(t), Day(t)) == GetDate(t)
  {
    hide *;
    var y, dm := JanuaryParts(t);
    YearOfDay(DayIndex(t), y + 1);
    GetDateCorrect(t);
    MonthAndDayAgree(t);
  }

  lemma MonthAndDayAgree(t: DateTime)
    ensures Month(t) == GetDate(t).month && Day(t) == GetDate(t).day
  {
    hide QuarterDays, U64, U32, U16, Or3;
  }

  /** `DayOfYear` computes with a product that may wrap at 32 bits, and is exact. */
  lemma DayOfYearCorrect(t: DateTime)
    ensures var d := GetDate(t);
            Valid(d) && DayOfYear(t) == DaysBeforeMonth(d.year, d.month) + d.day
  {
    hide DayOfYear, GetDate, Year, NthDate, DaysBeforeYear, DaysBeforeMonth, YearLength;
    var y, dm := JanuaryParts(t);
    YearOfDay(DayIndex(t), y + 1);
    GetDateCorrect(t);
    DayNumberOfNth(DayIndex(t));
  }

  // ---- From dates ----

  /** The bit tests of `IsLeapYear` are the 4/100/400 rule. */
  lemma LeapTestCorrect(y: int)
    ensures LeapTest(y) <==> Leap(y)
  {
    if y % 4 == 0 {
      MultipleOf25(y);
      MultipleOf16(y);
    }
  }

  lemma MultipleOf25(y: int)
    ensures y % 4 == 0 ==> (y % 25 == 0 <==> y % 100 == 0)
  {
    var q, r := y / 100, y % 100;
    assert y == 100 * q + r;
    assert y % 25 == r % 25 by { ModMultiple(25, 4 * q, r); }
    assert y % 4 == r % 4 by { ModMultiple(4, 25 * q, r); }
    if r % 4 == 0 && r % 25 == 0 {
      var a, b := r / 4, r / 25;
      assert r == 4 * a && r == 25 * b;
      assert 0 <= b < 4;
    }
  }

  lemma MultipleOf16(y: int)
    ensures y % 100 == 0 ==> (y % 16 == 0 <==> y % 400 == 0)
  {
    if y % 100 == 0 {
      var q := y / 100;
      var h, l := q / 4, q % 4;
      assert q == 4 * h + l;
      assert y == 400 * h + 100 * l;
      assert y % 400 == 100 * l by { ModMultiple(400, h, 100 * l); }
      assert y == 16 * (25 * h + 6 * l) + 4 * l;
      assert y % 16 == 4 * l by { ModMultiple(16, 25 * h + 6 * l, 4 * l); }
    }
  }

  lemma DaysToMonthCorrect(y: int, m: int)
    requires 1 <= m <= 13
    ensures DaysToMonth(y)[m - 1] == DaysBeforeMonth(y, m)
  {
    LeapTestCorrect(y);
    MonthTable(y);
  }

  lemma DaysToYearCorrect(y: int)
    requires 1 <= y <= 9999
    ensures DaysToYear(y) == DaysBeforeYear(y) < DAYS_TO_10000
  {
    hide DaysBeforeYear;
    DaysBeforeYearClosedForm(y);
    var n := y - 1;
    DivModIs(n * 1461, 4, 365 * n + n / 4, n % 4);
    DivModIs(n / 100, 4, n / 400, n / 100 - 4 * (n / 400));
  }

  /** `DateToTicks` accepts exactly the dates of years 1 to 9999 and numbers their days. */
  lemma DateToTicksCorrect(y: int, m: int, d: int)
    ensures DateToTicks(y, m, d) ==
            if Valid(Date(y, m, d)) && y <= 9999 then Ok(DayNumber(Date(y, m, d)) * TICKS_PER_DAY)
            else Err(InvalidYearMonthDay)
    ensures Valid(Date(y, m, d)) && y <= 9999 ==> DayNumber(Date(y, m, d)) < DAYS_TO_10000
  {
    hide DaysBeforeYear, DaysBeforeMonth, DaysToYear, DaysToMonth, U32, U64;
    if 1 <= y <= 9999 && 1 <= m <= 12 && 1 <= d {
      DaysToMonthCorrect(y, m);
      DaysToMonthCorrect(y, m + 1);
      DaysToYearCorrect(y);
      MonthStep(y, m);
      if d <= MonthLength(y, m) {
        YearBound(Date(y, m, d));
      }
    }
  }

  /** `DaysInMonth` and `IsLeapYear` over all arguments, with the month checked first. */
  lemma DaysInMonthCorrect(y: int, m: int)
    ensures IsLeapYear(y) == if 1 <= y <= 9999 then Ok(Leap(y)) else Err(YearOutOfRange)
    ensures DaysInMonth(y, m) ==
            if m < 1 || m > 12 then Err(BadMonth)
            else if y < 1 || y > 9999 then Err(YearOutOfRange)
            else Ok(MonthLength(y, m))
  {
    hide LeapTest, Leap;
    LeapTestCorrect(y);
  }

  /** Reading a date back: both directions of the bijection between dates and whole days. */
  lemma GetDateOfDateToTicks(y: int, m: int, d: int, t: DateTime)
    requires DateToTicks(y, m, d) == Ok(t)
    ensures GetDate(t) == Date(y, m, d)
  {
    hide *;
    DateToTicksCorrect(y, m, d);
    GetDateCorrect(t);
    NthDateOfDayNumber(Date(y, m, d));
    WholeDays(t, DayNumber(Date(y, m, d)));
  }

  lemma WholeDays(t: DateTime, n: nat)
    requires n < DAYS_TO_10000 && t == n * TICKS_PER_DAY
    ensures DayIndex(t) == n
  {
  }

  lemma DateToTicksOfGetDate(t: DateTime)
    ensures var d := GetDate(t);
            && Valid(d) && d.year <= 9999
            && DateToTicks(d.year, d.month, d.day) == Ok(Ticks(t) - Ticks(t) % TICKS_PER_DAY)
  {
    hide *;
    GetDateCorrect(t);
    var d := GetDate(t);
    DayNumberOfNth(DayIndex(t));
    DateToTicksCorrect(d.year, d.month, d.day);
    DaysAndTime(t);
  }

  lemma DaysAndTime(t: DateTime)
    ensures Ticks(t) == DayIndex(t) * TICKS_PER_DAY + Ticks(t) % TICKS_PER_DAY
    ensures DayIndex(t) < DAYS_TO_10000
  {
    QuarterDaysOf(t);
  }

  /** Later dates have more ticks. */
  lemma DateToTicksIncreases(a: Date, b: Date, x: nat, y: nat)
    requires DateToTicks(a.year, a.month, a.day) == Ok(x)
    requires DateToTicks(b.year, b.month, b.day) == Ok(y)
    ensures Before(a, b) <==> x < y
  {
    hide DateToTicks;
    hide DayNumber;
    DateToTicksCorrect(a.year, a.month, a.day);
    DateToTicksCorrect(b.year, b.month, b.day);
    DayNumberIncreases(a, b);
  }

  // ---- Days of the week ----

  lemma DayOfWeekCorrect(t: DateTime)
    ensures DayOfWeek(t) == (DayIndex(t) + 1) % 7
  {
    QuarterDaysOf(t);
  }

  /** The week runs on through month and year ends, and repeats after 400 years. */
  lemma DayOfWeekAdvances(t: DateTime, u: DateTime)
    ensures GetDate(u) == Next(GetDate(t)) ==> DayOfWeek(u) == (DayOfWeek(t) + 1) % 7
    ensures GetDate(u) == GetDate(t).(year := GetDate(t).year + 400) ==> DayOfWeek(u) == DayOfWeek(t)
  {
    hide *;
    GetDateCorrect(t);
    GetDateCorrect(u);
    DayNumberOfNth(DayIndex(t));
    DayNumberOfNth(DayIndex(u));
    DayOfWeekCorrect(t);
    DayOfWeekCorrect(u);
    DayNumberOfNext(GetDate(t));
    FourCenturies(GetDate(t));
    SevenDays(DayIndex(t));
  }

  lemma SevenDays(n: nat)
    ensures (n + 1 + 1) % 7 == ((n + 1) % 7 + 1) % 7
    ensures (n + DAYS_PER_400_YEARS + 1) % 7 == (n + 1) % 7
  {
  }

  lemma FourCenturies(d: Date)
    requires Valid(d)
    ensures Valid(d.(year := d.year + 400))
    ensures DayNumber(d.(year := d.year + 400)) == DayNumber(d) + DAYS_PER_400_YEARS
  {
    hide DaysBeforeYear, DaysBeforeMonth;
    var e := d.(year := d.year + 400);
    DaysBeforeYearClosedForm(d.year);
    DaysBeforeYearClosedForm(e.year);
    YearPlus400(d.year - 1);
    LeapPlus400(d.year);
    SameMonths(d.year, e.year, d.month);
  }

  lemma YearPlus400(y: nat)
    ensures (y + 400) / 4 == y / 4 + 100 && (y + 400) / 100 == y / 100 + 4 && (y + 400) / 400 == y / 400 + 1
  {
  }

  lemma LeapPlus400(y: nat)
    ensures Leap(y + 400) == Leap(y)
  {
    ModMultiple(4, 100, y);
    ModMultiple(100, 4, y);
    ModMultiple(400, 1, y);
  }

  lemma {:induction false} SameMonths(y: int, z: int, m: int)
    requires 1 <= m <= 13 && Leap(y) == Leap(z)
    ensures DaysBeforeMonth(y, m) == DaysBeforeMonth(z, m)
  {
    hide Leap;
    if m == 1 {
    } else {
      SameMonths(y, z, m - 1);
    }
  }

  /** 1970-01-01, a Thursday, is day 719162. */
  lemma UnixEpochIsThursday()
    ensures DAYS_TO_1970 == DayNumber(Date(1970, 1, 1)) == 719_162
    ensures DayOfWeek(DAYS_TO_1970 * TICKS_PER_DAY) == 4
  {
    hide DaysBeforeYear, DayOfWeek, DayIndex;
    DaysBeforeYearClosedForm(1970);
    WholeDays(DAYS_TO_1970 * TICKS_PER_DAY, DAYS_TO_1970);
    DayOfWeekCorrect(DAYS_TO_1970 * TICKS_PER_DAY);
  }
}
