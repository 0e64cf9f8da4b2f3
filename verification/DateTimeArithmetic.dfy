/** Moving a date and time: by ticks, by months, by years; and the time of day beside the date. */
module DateTimeArithmetic {
  import opened Calendar
  import opened MachineWords
  import opened Outcomes
  import opened DateTimes
  import opened TickUnits

  // ---- Time of day ----

  function TimeToTicks(hour: int32, minute: int32, second: int32): Result<nat, Error> {
    if U32(hour) >= 24 || U32(minute) >= 60 || U32(second) >= 60 then Err(InvalidHourMinuteSecond)
    else Ok(U64(U32(hour * 3600 + minute * 60 + second) * TICKS_PER_SECOND))
  }

  /** The full constructor: milliseconds are checked first, then the kind, then date and time in the
      order the compiler chooses for the operands of their sum.
   */
  function Init(year: int32, month: int32, day: int32, hour: int32, minute: int32, second: int32,
                millisecond: int32, kind: int32, dateFirst: bool): Result<int, Error>
  {
    if U32(millisecond) >= 1000 then Err(MillisecondsOutOfRange)
    else if U32(kind) > KindCode(Local) then Err(InvalidKind)
    else
      match (DateToTicks(year, month, day), TimeToTicks(hour, minute, second))
      case (Ok(date), Ok(time)) => Ok(date + time + U32(millisecond * TICKS_PER_MILLISECOND) + KindBits(kind))
      case (Err(e), Ok(_)) => Err(e)
      case (Ok(_), Err(f)) => Err(f)
      case (Err(e), Err(f)) => Err(if dateFirst then e else f)
  }

  function Hour(t: DateTime): int { U32(Ticks(t) / TICKS_PER_HOUR) % 24 }

  function Minute(t: DateTime): int { Ticks(t) / TICKS_PER_MINUTE % 60 }

  function Second(t: DateTime): int { Ticks(t) / TICKS_PER_SECOND % 60 }

  function Millisecond(t: DateTime): int { Ticks(t) / TICKS_PER_MILLISECOND % 1000 }

  function TimeOfDay(t: DateTime): nat { Ticks(t) % TICKS_PER_DAY }

  predicate InRange(h: int, mi: int, s: int, ms: int) {
    0 <= h < 24 && 0 <= mi < 60 && 0 <= s < 60 && 0 <= ms < 1000
  }

  lemma UnfoldGetters(t: DateTime)
    ensures DayIndex(t) == Ticks(t) / TICKS_PER_DAY
    ensures Hour(t) == Ticks(t) / TICKS_PER_HOUR % 24
    ensures Minute(t) == Ticks(t) / TICKS_PER_MINUTE % 60
    ensures Second(t) == Ticks(t) / TICKS_PER_SECOND % 60
    ensures Millisecond(t) == Ticks(t) / TICKS_PER_MILLISECOND % 1000
  {
    assert U32(Ticks(t) / TICKS_PER_HOUR) == Ticks(t) / TICKS_PER_HOUR;
  }

  lemma GettersOfTicks(t: DateTime, n: nat, h: nat, mi: nat, s: nat, ms: nat, rest: nat)
    requires InRange(h, mi, s, ms) && rest < TICKS_PER_MILLISECOND
    requires Ticks(t) == TicksOf(n, h, mi, s, ms) + rest
    ensures DayIndex(t) == n && Hour(t) == h && Minute(t) == mi && Second(t) == s && Millisecond(t) == ms
  {
    hide Ticks, Hour, Minute, Second, Millisecond, DayIndex, TicksOf;
    UnfoldGetters(t);
    MagnitudeFields(Ticks(t), n, h, mi, s, ms, rest);
  }

  /** Day, hour, minute, second and millisecond are the digits of the tick count. */
  lemma TicksOfGetters(t: DateTime)
    ensures InRange(Hour(t), Minute(t), Second(t), Millisecond(t))
    ensures Ticks(t) == TicksOf(DayIndex(t), Hour(t), Minute(t), Second(t), Millisecond(t))
                        + Ticks(t) % TICKS_PER_MILLISECOND
    ensures TimeOfDay(t) == TicksOf(0, Hour(t), Minute(t), Second(t), Millisecond(t))
                            + Ticks(t) % TICKS_PER_MILLISECOND
  {
    hide Ticks, Hour, Minute, Second, Millisecond, DayIndex, TicksOf, TimeOfDay;
    var n, h, mi, s, ms, rest := MagnitudeParts(Ticks(t));
    GettersOfTicks(t, n, h, mi, s, ms, rest);
    DaysApart(n, h, mi, s, ms);
    DaysAndTime(t);
    TimeLeft(t);
  }

  lemma DaysApart(n: int, h: int, mi: int, s: int, ms: int)
    ensures TicksOf(n, h, mi, s, ms) == n * TICKS_PER_DAY + TicksOf(0, h, mi, s, ms)
  {
  }

  lemma TimeLeft(t: DateTime)
    ensures TimeOfDay(t) == Ticks(t) % TICKS_PER_DAY
  {
  }

  predicate TimeInRange(h: int, mi: int, s: int) {
    0 <= h < 24 && 0 <= mi < 60 && 0 <= s < 60
  }

  lemma TimeToTicksCorrect(h: int32, mi: int32, s: int32)
    ensures TimeToTicks(h, mi, s) ==
            if TimeInRange(h, mi, s) then Ok(TicksOf(0, h, mi, s, 0)) else Err(InvalidHourMinuteSecond)
  {
    hide U32, U64;
    UnsignedInRange(h, 24);
    UnsignedInRange(mi, 60);
    UnsignedInRange(s, 60);
  }

  /** The unsigned cast turns negative numbers into large ones. */
  lemma UnsignedInRange(x: int32, bound: nat)
    requires bound <= 1000
    ensures U32(x) < bound <==> 0 <= x < bound
  {
  }

  /** The constructor accepts exactly the instants that exist, and its word holds them; otherwise the
      error is that of the first test that fails. */
  lemma InitCorrect(y: int32, m: int32, d: int32, h: int32, mi: int32, s: int32, ms: int32, kind: int32,
                    dateFirst: bool)
    ensures var dateExists := Valid(Date(y, m, d)) && y <= 9999;
            Init(y, m, d, h, mi, s, ms, kind, dateFirst) == (
              if !(0 <= ms < 1000) then Err(MillisecondsOutOfRange)
              else if !(0 <= kind <= 2) then Err(InvalidKind)
              else if !dateExists && (dateFirst || TimeInRange(h, mi, s)) then Err(InvalidYearMonthDay)
              else if !TimeInRange(h, mi, s) then Err(InvalidHourMinuteSecond)
              else Ok(TicksOf(DayNumber(Date(y, m, d)), h, mi, s, ms) + KindBits(kind)))
    ensures Valid(Date(y, m, d)) && y <= 9999 ==> DayNumber(Date(y, m, d)) < DAYS_TO_10000
  {
    hide DateToTicks, TimeToTicks, DayNumber, KindBits, Valid, U32;
    DateToTicksCorrect(y, m, d);
    TimeToTicksCorrect(h, mi, s);
    UnsignedInRange(ms, 1000);
    UnsignedInRange(kind, 3);
  }

  /** The fourth pattern, for ambiguous local time, reads as local too. */
  lemma KindOfWord(t: DateTime, n: nat, kind: int)
    requires n <= MAX_TICKS && 0 <= kind <= 3 && t == n + KindBits(kind)
    ensures Ticks(t) == n && InternalKind(t) == KindBits(kind)
    ensures KindCode(KindOf(t)) == if kind == 3 then 2 else kind
  {
    DivModIs(t, TWO_62, kind, n);
  }

  /** Reading back every field of a constructed value. */
  lemma GettersOfInit(y: int32, m: int32, d: int32, h: int32, mi: int32, s: int32, ms: int32, kind: int32,
                      dateFirst: bool, t: DateTime)
    requires Init(y, m, d, h, mi, s, ms, kind, dateFirst) == Ok(t)
    ensures Date(Year(t), Month(t), Day(t)) == Date(y, m, d)
    ensures Hour(t) == h && Minute(t) == mi && Second(t) == s && Millisecond(t) == ms
    ensures KindCode(KindOf(t)) == kind
  {
    hide Init, DayNumber, Valid, GetDate, Year, Month, Day, Hour, Minute, Second, Millisecond, TicksOf, Ticks,
         KindBits, KindCode, KindOf, DayIndex, NthDate;
    InitCorrect(y, m, d, h, mi, s, ms, kind, dateFirst);
    var n := DayNumber(Date(y, m, d));
    PartsBound(n, h, mi, s, ms);
    KindOfWord(t, TicksOf(n, h, mi, s, ms), kind);
    GettersOfTicks(t, n, h, mi, s, ms, 0);
    GetDateCorrect(t);
    ReadersAgree(t);
    NthDateOfDayNumber(Date(y, m, d));
  }

  lemma PartsBound(n: nat, h: int, mi: int, s: int, ms: int)
    requires n < DAYS_TO_10000 && InRange(h, mi, s, ms)
    ensures h >= 0 && mi >= 0 && s >= 0 && ms >= 0
    ensures 0 <= TicksOf(n, h, mi, s, ms) <= MAX_TICKS
  {
  }

  /** Rebuilding a value from its own fields loses the part below a millisecond, and nothing else
      unless the kind bits are the pattern for ambiguous local time, which no kind names. */
  lemma InitOfGetters(t: DateTime, dateFirst: bool)
    ensures var d := GetDate(t);
            var kind := KindCode(KindOf(t));
            var rest := Ticks(t) % TICKS_PER_MILLISECOND;
            && Valid(d) && d.year <= 9999
            && InRange(Hour(t), Minute(t), Second(t), Millisecond(t))
            && Init(d.year, d.month, d.day, Hour(t), Minute(t), Second(t), Millisecond(t), kind, dateFirst)
               == Ok(Ticks(t) - rest + KindBits(kind))
            && (Ticks(t) - rest + KindBits(kind) == t - rest <==> InternalKind(t) != 3 * TWO_62)
  {
    hide Init, GetDate, Hour, Minute, Second, Millisecond, Valid, DayNumber, KindBits, KindCode, DayIndex, KindOf,
         InternalKind, Ticks, TicksOf;
    GetDateCorrect(t);
    var d := GetDate(t);
    MonthDayAreInt32(d);
    DayNumberOfNth(DayIndex(t));
    TicksOfGetters(t);
    InitCorrect(d.year, d.month, d.day, Hour(t), Minute(t), Second(t), Millisecond(t), KindCode(KindOf(t)), dateFirst);
    KindCodeOf(t);
  }

  lemma KindCodeOf(t: DateTime)
    ensures 0 <= KindCode(KindOf(t)) <= 2
    ensures t == Ticks(t) + InternalKind(t)
    ensures KindBits(KindCode(KindOf(t))) == InternalKind(t) <==> InternalKind(t) != 3 * TWO_62
  {
    var k := t / TWO_62;
    assert 0 <= k <= 3 && InternalKind(t) == TWO_62 * k;
  }

  lemma MonthDayAreInt32(d: Date)
    requires Valid(d)
    ensures 1 <= d.year && 1 <= d.month <= 12 && 1 <= d.day <= 31
  {
  }

  // ---- Ticks ----

  /** The word built from new ticks and the old kind bits goes back through the checking constructor. */
  function Rebuild(ticks: nat, t: DateTime): Result<DateTime, Error> {
    FromTicks(S64(ticks + InternalKind(t)))
  }

  lemma RebuildCorrect(ticks: nat, t: DateTime)
    requires ticks <= MAX_TICKS
    ensures Rebuild(ticks, t) == if InternalKind(t) == 0 then Ok(ticks) else Err(TickOutOfRange)
  {
    var w := ticks + InternalKind(t);
    assert InternalKind(t) == TWO_62 * (t / TWO_62) && t / TWO_62 <= 3;
    assert U64(S64(w)) == w;
  }

  function AddTicks(t: DateTime, value: int64): Result<DateTime, Error> {
    var ticks := U64(S64(Ticks(t) + value));
    if ticks > MAX_TICKS then Err(TickOutOfRange) else Rebuild(ticks, t)
  }

  /** Wrapped arithmetic rejects exactly what is out of range; a word with kind bits is always rejected. */
  lemma AddTicksCorrect(t: DateTime, value: int64)
    ensures AddTicks(t, value) ==
            if 0 <= Ticks(t) + value <= MAX_TICKS && InternalKind(t) == 0 then Ok(Ticks(t) + value)
            else Err(TickOutOfRange)
  {
    hide Rebuild, InternalKind;
    var ticks := U64(S64(Ticks(t) + value));
    assert ticks <= MAX_TICKS ==> ticks == Ticks(t) + value;
    if ticks <= MAX_TICKS {
      RebuildCorrect(ticks, t);
    }
  }

  /** `operator==` and `operator<` see ticks only: `(a ^ b) << 2` drops the kind bits. */
  predicate Equal(t: DateTime, u: DateTime) { Ticks(t) == Ticks(u) }

  function Subtract(t: DateTime, u: DateTime): int64 { Ticks(t) - Ticks(u) }

  /** Whatever the kinds, the difference leads from the one value to the other when both are taken
      without their kinds; and from `u` itself whenever addition accepts its kind. */
  lemma AddDifference(t: DateTime, u: DateTime)
    ensures AddTicks(Ticks(u), Subtract(t, u)) == Ok(Ticks(t))
    ensures InternalKind(u) == 0 ==>
              AddTicks(u, Subtract(t, u)).Ok? && Equal(AddTicks(u, Subtract(t, u)).value, t)
    ensures Equal(Ticks(t), t) && (Equal(t, u) <==> Subtract(t, u) == 0)
  {
    hide AddTicks;
    assert InternalKind(Ticks(u)) == 0 && Ticks(Ticks(u)) == Ticks(u);
    AddTicksCorrect(Ticks(u), Subtract(t, u));
    AddTicksCorrect(u, Subtract(t, u));
  }

  /** Of constructed values of any two kinds, the difference is that of their dates and times, and they
      are equal exactly when dates and times are. */
  lemma DifferenceOfInit(y: int32, m: int32, d: int32, h: int32, mi: int32, s: int32, ms: int32, kind: int32,
                         y': int32, m': int32, d': int32, h': int32, mi': int32, s': int32, ms': int32, kind': int32,
                         dateFirst: bool, t: DateTime, u: DateTime)
    requires Init(y, m, d, h, mi, s, ms, kind, dateFirst) == Ok(t)
    requires Init(y', m', d', h', mi', s', ms', kind', dateFirst) == Ok(u)
    ensures Valid(Date(y, m, d)) && Valid(Date(y', m', d'))
    ensures Subtract(t, u) == TicksOf(DayNumber(Date(y, m, d)), h, mi, s, ms)
                              - TicksOf(DayNumber(Date(y', m', d')), h', mi', s', ms')
    ensures Equal(t, u) <==> Date(y, m, d) == Date(y', m', d') && h == h' && mi == mi' && s == s' && ms == ms'
  {
    hide *;
    WordOfInit(y, m, d, h, mi, s, ms, kind, dateFirst, t);
    WordOfInit(y', m', d', h', mi', s', ms', kind', dateFirst, u);
    GettersOfInit(y, m, d, h, mi, s, ms, kind, dateFirst, t);
    GettersOfInit(y', m', d', h', mi', s', ms', kind', dateFirst, u);
    SubtractTicks(t, u);
    if Equal(t, u) {
      EqualGetters(t, u);
    }
  }

  lemma WordOfInit(y: int32, m: int32, d: int32, h: int32, mi: int32, s: int32, ms: int32, kind: int32,
                   dateFirst: bool, t: DateTime)
    requires Init(y, m, d, h, mi, s, ms, kind, dateFirst) == Ok(t)
    ensures Valid(Date(y, m, d)) && Ticks(t) == TicksOf(DayNumber(Date(y, m, d)), h, mi, s, ms)
  {
    hide Init, DayNumber, Valid, TicksOf, Ticks, KindBits, KindCode, KindOf;
    InitCorrect(y, m, d, h, mi, s, ms, kind, dateFirst);
    PartsBound(DayNumber(Date(y, m, d)), h, mi, s, ms);
    KindOfWord(t, TicksOf(DayNumber(Date(y, m, d)), h, mi, s, ms), kind);
  }

  lemma SubtractTicks(t: DateTime, u: DateTime)
    ensures Subtract(t, u) == Ticks(t) - Ticks(u)
    ensures Equal(t, u) <==> Ticks(t) == Ticks(u)
  {
  }

  /** What is equal reads alike. */
  lemma EqualGetters(t: DateTime, u: DateTime)
    requires Equal(t, u)
    ensures Date(Year(t), Month(t), Day(t)) == Date(Year(u), Month(u), Day(u))
    ensures Hour(t) == Hour(u) && Minute(t) == Minute(u) && Second(t) == Second(u)
    ensures Millisecond(t) == Millisecond(u)
  {
    hide U16, U32, U64, Or3;
  }

  // ---- Months and years ----

  /** `AddYears` once the target year is known. */
  function MoveToYear(t: DateTime, y: int): Result<DateTime, Error> {
    var date := GetDate(t);
    if y < 1 || y > 9999 then Err(BadYear)
    else
      GetDateCorrect(t);
      var m, d := date.month - 1, date.day - 1;
      var leap := LeapTest(y);
      var d' := if !leap && d == 28 && m == 1 then d - 1 else d;
      var n := U32(DaysToYear(y) + (if leap then DAYS_TO_MONTH_366 else DAYS_TO_MONTH_365)[m] + d');
      Rebuild(U64(n * TICKS_PER_DAY) + Ticks(t) % TICKS_PER_DAY, t)
  }

  /** The years in a count of months that starts at 1. */
  function YearCarry(m: int): (q: int)
    requires m < TWO_32
    ensures 1 <= m - q * 12 <= 12
  {
    if m > 0 then U32(m - 1) / 12 else TruncDiv(m, 12) - 1
  }

  /** `AddMonths` once the target month is known, counted from the value's own year. */
  function MoveToMonth(t: DateTime, m: int32): Result<DateTime, Error> {
    var date := GetDate(t);
    var q := YearCarry(m);
    var y := date.year + q;
    var m' := m - q * 12;
    if y < 1 || y > 9999 then Err(BadYearOfMonths)
    else
      var daysTo := DaysToMonth(y);
      var daysToMonth := daysTo[m' - 1];
      var days := daysTo[m'] - daysToMonth;
      var d := if date.day > days then days else date.day;
      var n := U32(DaysToYear(y) + daysToMonth + U32(d) - 1);
      Rebuild(U64(n * TICKS_PER_DAY) + Ticks(t) % TICKS_PER_DAY, t)
  }

  function AddYears(t: DateTime, value: int): Result<DateTime, Error> {
    if value < -10000 || value > 10000 then Err(BadYears)
    else MoveToYear(t, GetDate(t).year + value)
  }

  function AddMonths(t: DateTime, months: int): Result<DateTime, Error> {
    if months < -120000 || months > 120000 then Err(BadMonths)
    else
      GetDateCorrect(t);
      assert 1 <= GetDate(t).month <= 12;
      MoveToMonth(t, GetDate(t).month + months)
  }

  /** Months counted without years. */
  function MonthIndex(d: Date): int { 12 * d.year + d.month - 1 }

  /** The date in the month with index `i` that keeps `day` as far as that month is long. */
  function DateAtMonth(i: int, day: int): Date {
    var y, m := i / 12, i % 12 + 1;
    Date(y, m, if day > MonthLength(y, m) then MonthLength(y, m) else day)
  }

  function LengthAt(i: int): int { MonthLength(i / 12, i % 12 + 1) }

  predicate YearAccepted(i: int) { 1 <= i / 12 <= 9999 }

  lemma MonthIndexOf(d: Date)
    requires 1 <= d.month <= 12
    ensures MonthIndex(d) / 12 == d.year && MonthIndex(d) % 12 + 1 == d.month
  {
    DivModIs(MonthIndex(d), 12, d.year, d.month - 1);
  }

  lemma DateAtMonthValid(i: int, day: int)
    requires YearAccepted(i) && 1 <= day
    ensures Valid(DateAtMonth(i, day)) && MonthIndex(DateAtMonth(i, day)) == i
    ensures DayNumber(DateAtMonth(i, day)) < DAYS_TO_10000
  {
    hide DayNumber;
    assert i == 12 * (i / 12) + i % 12;
    YearBound(DateAtMonth(i, day));
  }

  /** The word that carries a date and the time of day of `t`. */
  lemma RebuildDate(n: nat, t: DateTime)
    requires n < DAYS_TO_10000
    ensures U64(n * TICKS_PER_DAY) == n * TICKS_PER_DAY
    ensures Rebuild(n * TICKS_PER_DAY + TimeOfDay(t), t) ==
            if InternalKind(t) == 0 then Ok(n * TICKS_PER_DAY + TimeOfDay(t)) else Err(TickOutOfRange)
  {
    hide Rebuild, InternalKind, Ticks;
    RebuildCorrect(n * TICKS_PER_DAY + TimeOfDay(t), t);
  }

  /** What `AddMonths` computes for an accepted year, as a value or as the kind check's error. */
  function Moved(t: DateTime, i: int): Result<int, Error>
    requires YearAccepted(i)
  {
    GetDateCorrect(t);
    DateAtMonthValid(i, GetDate(t).day);
    if InternalKind(t) == 0
    then Ok(DayNumber(DateAtMonth(i, GetDate(t).day)) * TICKS_PER_DAY + TimeOfDay(t))
    else Err(TickOutOfRange)
  }

  /** The split of a month count into years and months rounds down, for months before year 1 too. */
  lemma MonthSplitRoundsDown(y: int, m: int)
    requires m < TWO_32
    ensures var q := YearCarry(m);
            var i := 12 * y + m - 1;
            i / 12 == y + q && i % 12 + 1 == m - q * 12
  {
    var q := YearCarry(m);
    DivModIs(12 * y + m - 1, 12, y + q, m - 1 - 12 * q);
  }

  lemma RebuildMoved(t: DateTime, i: int)
    requires YearAccepted(i)
    ensures Valid(GetDate(t)) && Valid(DateAtMonth(i, GetDate(t).day))
    ensures DayNumber(DateAtMonth(i, GetDate(t).day)) < DAYS_TO_10000
    ensures Rebuild(U64(DayNumber(DateAtMonth(i, GetDate(t).day)) * TICKS_PER_DAY) + Ticks(t) % TICKS_PER_DAY, t)
            == Moved(t, i)
  {
    hide GetDate, Rebuild, DayNumber, NthDate, InternalKind, Ticks, DateAtMonth, YearAccepted, U64;
    GetDateCorrect(t);
    DateAtMonthValid(i, GetDate(t).day);
    RebuildDate(DayNumber(DateAtMonth(i, GetDate(t).day)), t);
  }

  /** The day count that the code assembles from its tables. */
  lemma AssembledDay(i: int, day: int)
    requires YearAccepted(i) && 1 <= day
    ensures var y, m := i / 12, i % 12 + 1;
            var days := DaysToMonth(y)[m] - DaysToMonth(y)[m - 1];
            && Valid(DateAtMonth(i, day))
            && days == MonthLength(y, m)
            && U32(DaysToYear(y) + DaysToMonth(y)[m - 1] + U32(if day > days then days else day) - 1)
               == DayNumber(DateAtMonth(i, day))
  {
    hide DaysToMonth, DaysToYear, DayNumber, Leap, U32;
    var y, m := i / 12, i % 12 + 1;
    DateAtMonthValid(i, day);
    DaysToMonthCorrect(y, m);
    DaysToMonthCorrect(y, m + 1);
    MonthStep(y, m);
    DaysToYearCorrect(y);
    DayNumberParts(DateAtMonth(i, day));
  }

  /** `AddMonths` moves the month index by exactly `months`, clamps the day, keeps the time of day. */
  lemma AddMonthsCorrect(t: DateTime, months: int)
    ensures var i := MonthIndex(GetDate(t)) + months;
            && AddMonths(t, months) == (
                 if months < -120000 || months > 120000 then Err(BadMonths)
                 else if !YearAccepted(i) then Err(BadYearOfMonths)
                 else Moved(t, i))
            && (YearAccepted(i) ==> -120000 <= months <= 120000)
  {
    hide GetDate, DaysToMonth, DaysToYear, Rebuild, DayNumber, Ticks, AddMonths, U32, U64, Moved, Valid, DateAtMonth,
         MonthLength;
    GetDateValid(t);
    AddMonthsUnfold(t, months);
    var i := MonthIndex(GetDate(t)) + months;
    if YearAccepted(i) {
      MonthDayAreInt32(GetDate(t));
      AssembledDay(i, GetDate(t).day);
      RebuildMoved(t, i);
    }
  }

  /** The code of `AddMonths` with the target month named by its index. */
  lemma AddMonthsUnfold(t: DateTime, months: int)
    ensures var date := GetDate(t);
            var i := MonthIndex(date) + months;
            var y, m := i / 12, i % 12 + 1;
            AddMonths(t, months) == (
              if months < -120000 || months > 120000 then Err(BadMonths)
              else if !YearAccepted(i) then Err(BadYearOfMonths)
              else
                var daysToMonth := DaysToMonth(y)[m - 1];
                var days := DaysToMonth(y)[m] - daysToMonth;
                var d := if date.day > days then days else date.day;
                var n := U32(DaysToYear(y) + daysToMonth + U32(d) - 1);
                Rebuild(U64(n * TICKS_PER_DAY) + Ticks(t) % TICKS_PER_DAY, t))
  {
    hide GetDate, DaysToMonth, DaysToYear, Rebuild, NthDate, Ticks, TruncDiv, U32, U64;
    GetDateCorrect(t);
    var date := GetDate(t);
    if -120000 <= months <= 120000 {
      MonthSplitRoundsDown(date.year, date.month + months);
    }
  }

  lemma DayNumberParts(d: Date)
    requires Valid(d)
    ensures DayNumber(d) == DaysBeforeYear(d.year) + DaysBeforeMonth(d.year, d.month) + d.day - 1
  {
  }

  /** The same for `AddYears`: its special case for 29 February is the clamp. */
  lemma AddYearsCorrect(t: DateTime, value: int)
    ensures var i := MonthIndex(GetDate(t)) + 12 * value;
            && AddYears(t, value) == (
                 if value < -10000 || value > 10000 then Err(BadYears)
                 else if !YearAccepted(i) then Err(BadYear)
                 else Moved(t, i))
            && (YearAccepted(i) ==> -10000 <= value <= 10000)
  {
    hide GetDate, DaysToYear, Rebuild, DayNumber, NthDate, Ticks, Leap, LeapTest, U32, U64, Moved, DateAtMonth, Valid;
    GetDateValid(t);
    var date := GetDate(t);
    var i := MonthIndex(date) + 12 * value;
    var y := date.year + value;
    DivModIs(i, 12, y, date.month - 1);
    if 1 <= y <= 9999 {
      AssembledYear(date, i);
      RebuildMoved(t, i);
    }
  }

  /** The day count `AddYears` assembles: its one special case is the clamp. */
  lemma AssembledYear(date: Date, i: int)
    requires Valid(date) && YearAccepted(i) && i % 12 + 1 == date.month
    ensures var y, m, d := i / 12, date.month - 1, date.day - 1;
            var d' := if !LeapTest(y) && d == 28 && m == 1 then d - 1 else d;
            && Valid(DateAtMonth(i, date.day))
            && U32(DaysToYear(y) + (if LeapTest(y) then DAYS_TO_MONTH_366 else DAYS_TO_MONTH_365)[m] + d')
               == DayNumber(DateAtMonth(i, date.day))
  {
    hide DaysToYear, DayNumber, Leap, LeapTest, U32;
    var y := i / 12;
    DateAtMonthValid(i, date.day);
    LeapTestCorrect(y);
    DaysToMonthCorrect(y, date.month);
    DaysToYearCorrect(y);
    DayNumberParts(DateAtMonth(i, date.day));
  }

  /** `AddYears(k)` and `AddMonths(12 * k)` succeed together, with the same value. */
  lemma YearsAreTwelveMonths(t: DateTime, k: int)
    ensures AddYears(t, k).Ok? <==> AddMonths(t, 12 * k).Ok?
    ensures AddYears(t, k).Ok? ==> AddYears(t, k) == AddMonths(t, 12 * k)
  {
    hide AddYears, AddMonths, YearAccepted, Moved;
    AddYearsCorrect(t, k);
    AddMonthsCorrect(t, 12 * k);
  }

  lemma MovedParts(t: DateTime, i: int, r: DateTime)
    requires YearAccepted(i) && Moved(t, i) == Ok(r)
    ensures GetDate(r) == DateAtMonth(i, GetDate(t).day)
    ensures DayIndex(r) == DayNumber(GetDate(r))
    ensures TimeOfDay(r) == TimeOfDay(t) && InternalKind(t) == 0 && InternalKind(r) == 0
  {
    hide GetDate, DayNumber, DateAtMonth, YearAccepted, NthDate;
    GetDateCorrect(t);
    var d := DateAtMonth(i, GetDate(t).day);
    DateAtMonthValid(i, GetDate(t).day);
    SplitTicks(r, DayNumber(d), TimeOfDay(t));
    NthDateOfDayNumber(d);
    GetDateCorrect(r);
  }

  lemma SplitTicks(r: DateTime, n: nat, time: nat)
    requires r == n * TICKS_PER_DAY + time && time < TICKS_PER_DAY && r <= MAX_TICKS
    ensures DayIndex(r) == n && TimeOfDay(r) == time && InternalKind(r) == 0
  {
    DivModIs(r, TICKS_PER_DAY, n, time);
  }

  /** When `AddMonths` succeeds, and what its result is made of. */
  lemma AddMonthsMoves(t: DateTime, months: int)
    ensures var i := MonthIndex(GetDate(t)) + months;
            && (AddMonths(t, months).Ok? <==> 1 <= i / 12 <= 9999 && InternalKind(t) == 0)
            && (AddMonths(t, months).Ok? ==>
                  var r := AddMonths(t, months).value;
                  && MonthIndex(GetDate(r)) == i
                  && GetDate(r).day == (if GetDate(t).day > LengthAt(i) then LengthAt(i) else GetDate(t).day)
                  && TimeOfDay(r) == TimeOfDay(t)
                  && InternalKind(r) == 0)
  {
    hide GetDate, AddMonths, InternalKind, DayNumber, Ticks;
    AddMonthsCorrect(t, months);
    var i := MonthIndex(GetDate(t)) + months;
    if AddMonths(t, months).Ok? {
      MovedParts(t, i, AddMonths(t, months).value);
      GetDateCorrect(t);
      DateAtMonthValid(i, GetDate(t).day);
    }
  }

  /** Values without kind bits are ordered by day, then by time of day. */
  lemma OrderByDayAndTime(t: DateTime, u: DateTime)
    requires InternalKind(t) == 0 && InternalKind(u) == 0
    ensures t <= u <==> DayIndex(t) < DayIndex(u) || (DayIndex(t) == DayIndex(u) && TimeOfDay(t) <= TimeOfDay(u))
    ensures t == u <==> DayIndex(t) == DayIndex(u) && TimeOfDay(t) == TimeOfDay(u)
  {
    hide Ticks;
    TicksAreWord(t);
    TicksAreWord(u);
    DaysAndTime(t);
    DaysAndTime(u);
  }

  lemma TicksAreWord(t: DateTime)
    requires InternalKind(t) == 0
    ensures Ticks(t) == t
  {
  }

  /** Calendar order of dates is the order of day counts. */
  lemma DatesFollowDays(t: DateTime, u: DateTime)
    ensures DayIndex(t) < DayIndex(u) <==> Before(GetDate(t), GetDate(u))
    ensures DayIndex(t) == DayIndex(u) <==> GetDate(t) == GetDate(u)
  {
    hide GetDate, DayIndex, DayNumber;
    GetDateCorrect(t);
    GetDateCorrect(u);
    DayNumberOfNth(DayIndex(t));
    DayNumberOfNth(DayIndex(u));
    DayNumberIncreases(GetDate(t), GetDate(u));
  }

  lemma DateFromMonthIndex(a: Date, b: Date)
    requires 1 <= a.month <= 12 && 1 <= b.month <= 12
    ensures MonthIndex(a) == MonthIndex(b) <==> a.year == b.year && a.month == b.month
    ensures MonthIndex(a) < MonthIndex(b) <==> a.year < b.year || (a.year == b.year && a.month < b.month)
  {
  }

  lemma GetDateValid(t: DateTime)
    ensures Valid(GetDate(t)) && GetDate(t).year <= 9999 && 1 <= GetDate(t).month <= 12
  {
    GetDateCorrect(t);
  }

  /** Two moves make the same value as one exactly when the month in the middle did not cost
      a day that the last month still has. */
  lemma AddMonthsCompose(t: DateTime, a: int, b: int, r: DateTime, s: DateTime, u: DateTime)
    requires AddMonths(t, a) == Ok(r) && AddMonths(r, b) == Ok(s) && AddMonths(t, a + b) == Ok(u)
    ensures var i := MonthIndex(GetDate(t));
            s == u <==> (GetDate(t).day <= LengthAt(i + a) || LengthAt(i + a + b) <= LengthAt(i + a))
  {
    hide GetDate, AddMonths, InternalKind, DayIndex, TimeOfDay, LengthAt, MonthIndex, Valid;
    AddMonthsMoves(t, a);
    AddMonthsMoves(r, b);
    AddMonthsMoves(t, a + b);
    OrderByDayAndTime(s, u);
    DatesFollowDays(s, u);
    GetDateValid(s);
    GetDateValid(u);
    DateFromMonthIndex(GetDate(s), GetDate(u));
    SameDate(GetDate(s), GetDate(u));
  }

  lemma SameDate(a: Date, b: Date)
    ensures a == b <==> a.year == b.year && a.month == b.month && a.day == b.day
  {
  }

  lemma MonthsHave28Days(i: int)
    ensures LengthAt(i) >= 28
  {
  }

  lemma DayWithinMonth(t: DateTime)
    ensures GetDate(t).day <= LengthAt(MonthIndex(GetDate(t)))
  {
    hide GetDate, NthDate;
    GetDateCorrect(t);
    MonthIndexOf(GetDate(t));
  }

  /** Moving back restores the value exactly when the target month was long enough for its day. */
  lemma AddMonthsUndo(t: DateTime, k: int, r: DateTime)
    requires AddMonths(t, k) == Ok(r)
    ensures var back := AddMonths(r, -k);
            && back.Ok?
            && (back.value == t <==> GetDate(t).day <= LengthAt(MonthIndex(GetDate(t)) + k))
            && (GetDate(t).day <= 28 ==> back.value == t)
  {
    hide GetDate, AddMonths, InternalKind, DayIndex, TimeOfDay, LengthAt, MonthIndex, Valid;
    AddMonthsMoves(t, k);
    AddMonthsMoves(r, -k);
    AddMonthsMoves(t, 0);
    GetDateValid(t);
    MonthIndexOf(GetDate(t));
    DayWithinMonth(t);
    MonthsHave28Days(MonthIndex(GetDate(t)) + k);
    var zero := AddMonths(t, 0).value;
    OrderByDayAndTime(zero, t);
    DatesFollowDays(zero, t);
    GetDateValid(zero);
    DateFromMonthIndex(GetDate(zero), GetDate(t));
    SameDate(GetDate(zero), GetDate(t));
    assert zero == t;
    AddMonthsCompose(t, k, -k, r, AddMonths(r, -k).value, zero);
  }

  /** `AddMonths` keeps dates in order. */
  lemma AddMonthsKeepsDateOrder(t: DateTime, u: DateTime, k: int, r: DateTime, s: DateTime)
    requires AddMonths(t, k) == Ok(r) && AddMonths(u, k) == Ok(s)
    requires DayIndex(t) <= DayIndex(u)
    ensures DayIndex(r) <= DayIndex(s)
    ensures DayIndex(r) == DayIndex(s) <==>
            (MonthIndex(GetDate(t)) == MonthIndex(GetDate(u))
             && (GetDate(t).day == GetDate(u).day || LengthAt(MonthIndex(GetDate(t)) + k) <= GetDate(t).day))
  {
    hide GetDate, AddMonths, InternalKind, DayIndex, TimeOfDay, LengthAt, MonthIndex, Valid;
    AddMonthsMoves(t, k);
    AddMonthsMoves(u, k);
    DatesFollowDays(t, u);
    DatesFollowDays(r, s);
    GetDateValid(t);
    GetDateValid(u);
    GetDateValid(r);
    GetDateValid(s);
    DateFromMonthIndex(GetDate(t), GetDate(u));
    DateFromMonthIndex(GetDate(r), GetDate(s));
    SameDate(GetDate(t), GetDate(u));
    SameDate(GetDate(r), GetDate(s));
  }

  /** Instants, unlike dates, can change places: exactly when two days of one month are clamped
      to the same day and the earlier one has the later time of day. */
  lemma AddMonthsReordersExactly(t: DateTime, u: DateTime, k: int, r: DateTime, s: DateTime)
    requires AddMonths(t, k) == Ok(r) && AddMonths(u, k) == Ok(s)
    requires t <= u
    ensures r <= s <==>
            !(MonthIndex(GetDate(t)) == MonthIndex(GetDate(u))
              && LengthAt(MonthIndex(GetDate(t)) + k) <= GetDate(t).day
              && TimeOfDay(t) > TimeOfDay(u))
  {
    hide GetDate, AddMonths, InternalKind, DayIndex, TimeOfDay, LengthAt, MonthIndex, Valid;
    AddMonthsMoves(t, k);
    AddMonthsMoves(u, k);
    OrderByDayAndTime(t, u);
    OrderByDayAndTime(r, s);
    AddMonthsKeepsDateOrder(t, u, k, r, s);
    DatesFollowDays(t, u);
    GetDateValid(t);
    GetDateValid(u);
    DateFromMonthIndex(GetDate(t), GetDate(u));
    SameDate(GetDate(t), GetDate(u));
  }

  lemma DateAndTimeOf(d: Date, time: nat, t: DateTime)
    requires Valid(d) && time < TICKS_PER_DAY && t <= MAX_TICKS
    requires t == DayNumber(d) * TICKS_PER_DAY + time
    ensures GetDate(t) == d && TimeOfDay(t) == time && InternalKind(t) == 0
  {
    hide GetDate, DayNumber, Valid, NthDate;
    SplitTicks(t, DayNumber(d), time);
    GetDateCorrect(t);
    NthDateOfDayNumber(d);
  }

  lemma LastDaysOfJanuary2021()
    ensures DayNumber(Date(2021, 1, 30)) == 737_819 && DayNumber(Date(2021, 1, 31)) == 737_820
  {
    DaysBeforeYearClosedForm(2021);
  }

  /** One month on from 23:00 on 30 January 2021 and from 01:00 on the 31st: the order turns round. */
  lemma AddMonthsReordersExample() returns (t: DateTime, u: DateTime)
    ensures t < u && AddMonths(t, 1).Ok? && AddMonths(u, 1).Ok?
    ensures AddMonths(t, 1).value > AddMonths(u, 1).value
  {
    hide GetDate, AddMonths, DayNumber, InternalKind, TimeOfDay;
    LastDaysOfJanuary2021();
    t := 737_819 * TICKS_PER_DAY + 23 * TICKS_PER_HOUR;
    u := 737_820 * TICKS_PER_DAY + TICKS_PER_HOUR;
    DateAndTimeOf(Date(2021, 1, 30), 23 * TICKS_PER_HOUR, t);
    DateAndTimeOf(Date(2021, 1, 31), TICKS_PER_HOUR, u);
    AddMonthsMoves(t, 1);
    AddMonthsMoves(u, 1);
    AddMonthsReordersExactly(t, u, 1, AddMonths(t, 1).value, AddMonths(u, 1).value);
  }

  // ---- Fractional arguments ----

  /** The conversion of a floating-point value to an integer: toward zero. */
  function Truncate(x: real): int { if x >= 0.0 then x.Floor else -((-x).Floor) }

  predicate IsWhole(x: real) { x == x.Floor as real }

  /** `sum` can be the floating-point result for `exact`: rounding leaves whole numbers of this size alone
      and never passes one.
   */
  predicate Rounds(sum: real, exact: real) {
    exact.Floor as real <= sum <= (if IsWhole(exact) then exact.Floor else exact.Floor + 1) as real
  }

  /** The declared signatures, whose arguments may have fractions: the rounded sum is what is truncated. */
  function AddYearsDouble(t: DateTime, value: real, sum: real): Result<DateTime, Error>
    requires Rounds(sum, GetDate(t).year as real + value)
  {
    if value < -10000.0 || value > 10000.0 then Err(BadYears)
    else MoveToYear(t, Truncate(sum))
  }

  function AddMonthsDouble(t: DateTime, months: real, sum: real): Result<DateTime, Error>
    requires Rounds(sum, GetDate(t).month as real + months)
  {
    if months < -120000.0 || months > 120000.0 then Err(BadMonths)
    else
      GetDateCorrect(t);
      assert 1 <= GetDate(t).month <= 12;
      TruncatedSum(GetDate(t).month, months, sum, 120000);
      MoveToMonth(t, Truncate(sum))
  }

  /** The whole number that a fractional argument to a sum starting at `base` amounts to. */
  function Whole(base: int, x: real): int {
    if base as real + x >= 0.0 then x.Floor else -((-x).Floor)
  }

  /** `k` is that number, or the next one away from zero when the sum was rounded up to it. */
  predicate Amounts(base: int, x: real, sum: real, k: int) {
    || k == Whole(base, x)
    || (!IsWhole(x) && sum == (base + k) as real && k == Whole(base, x) + if base as real + x >= 0.0 then 1 else -1)
  }

  lemma TruncatedSum(base: int, x: real, sum: real, bound: int)
    requires Rounds(sum, base as real + x) && -(bound as real) <= x <= bound as real
    ensures Amounts(base, x, sum, Truncate(sum) - base)
    ensures -bound <= Truncate(sum) - base <= bound
    ensures IsWhole(x) ==> Truncate(sum) - base == x.Floor
  {
    var exact := base as real + x;
    assert exact.Floor == base + x.Floor;
    assert IsWhole(x) <==> IsWhole(exact);
    assert -bound <= x.Floor;
    assert !IsWhole(x) ==> x.Floor + 1 <= bound;
  }

  /** An argument with a fraction counts as a whole number next to it, by the sign of the sum and by
      whether the addition rounded to it; whole arguments are themselves. */
  lemma FractionsRound(t: DateTime, x: real, months: real, years: real)
    requires Rounds(months, GetDate(t).month as real + x) && Rounds(years, GetDate(t).year as real + x)
    ensures -120000.0 <= x <= 120000.0 ==>
              exists k :: Amounts(GetDate(t).month, x, months, k) && AddMonthsDouble(t, x, months) == AddMonths(t, k)
    ensures -10000.0 <= x <= 10000.0 ==>
              exists k :: Amounts(GetDate(t).year, x, years, k) && AddYearsDouble(t, x, years) == AddYears(t, k)
    ensures x < -120000.0 || x > 120000.0 ==> AddMonthsDouble(t, x, months) == Err(BadMonths)
    ensures x < -10000.0 || x > 10000.0 ==> AddYearsDouble(t, x, years) == Err(BadYears)
    ensures IsWhole(x) ==>
              && AddMonthsDouble(t, x, months) == AddMonths(t, x.Floor)
              && AddYearsDouble(t, x, years) == AddYears(t, x.Floor)
  {
    hide GetDate, MoveToMonth, MoveToYear, Truncate, Amounts, Rounds;
    var date := GetDate(t);
    if -120000.0 <= x <= 120000.0 {
      TruncatedSum(date.month, x, months, 120000);
      assert Amounts(date.month, x, months, Truncate(months) - date.month);
    }
    if -10000.0 <= x <= 10000.0 {
      TruncatedSum(date.year, x, years, 10000);
      assert Amounts(date.year, x, years, Truncate(years) - date.year);
    }
  }
}
