/** A signed interval in ticks of 100 ns, held in an int64. */
module TimeSpans {
  import opened MachineWords
  import opened Outcomes
  import opened TickUnits

  const MAX_SECONDS := TruncDiv(INT64_MAX, TICKS_PER_SECOND)
  const MIN_SECONDS := TruncDiv(INT64_MIN, TICKS_PER_SECOND)
  const MAX_MILLISECONDS := TruncDiv(INT64_MAX, TICKS_PER_MILLISECOND)
  const MIN_MILLISECONDS := TruncDiv(INT64_MIN, TICKS_PER_MILLISECOND)

  datatype Error = Overflow | OutOfRange

  predicate InInt64(x: int) { INT64_MIN <= x <= INT64_MAX }

  // ---- Sums and differences ----

  /** The wrapped sum is refused when two equal signs produce the other sign. */
  function Add(a: int64, b: int64): Result<int64, Error> {
    var result := S64(a + b);
    if SignFill(a) == SignFill(b) && SignFill(a) != SignFill(result) then Err(Overflow) else Ok(result)
  }

  function Subtract(a: int64, b: int64): Result<int64, Error> {
    var result := S64(a - b);
    if SignFill(a) != SignFill(b) && SignFill(a) != SignFill(result) then Err(Overflow) else Ok(result)
  }

  function Negate(a: int64): Result<int64, Error> {
    if a == INT64_MIN then Err(Overflow) else Ok(-a)
  }

  function Duration(a: int64): Result<int64, Error> {
    if a == INT64_MIN then Err(Overflow) else Ok(if a >= 0 then a else -a)
  }

  /** The sign test catches exactly the sums that do not fit. */
  lemma AddCorrect(a: int64, b: int64)
    ensures Add(a, b) == if InInt64(a + b) then Ok(a + b) else Err(Overflow)
  {
  }

  lemma SubtractCorrect(a: int64, b: int64)
    ensures Subtract(a, b) == if InInt64(a - b) then Ok(a - b) else Err(Overflow)
  {
  }

  /** Subtracting is adding the negation, except that it also works for the one value without a
      negation, from any negative interval. */
  lemma SubtractIsAddNegation(a: int64, b: int64)
    ensures b != INT64_MIN ==> Negate(b).Ok? && Subtract(a, b) == Add(a, Negate(b).value)
    ensures b == INT64_MIN ==> Negate(b) == Err(Overflow) && (Subtract(a, b).Ok? <==> a < 0)
  {
    hide Add, Subtract;
    SubtractCorrect(a, b);
    if b != INT64_MIN {
      AddCorrect(a, -b);
    }
  }

  /** A sum that is accepted can be taken apart again. */
  lemma SubtractUndoesAdd(a: int64, b: int64)
    requires Add(a, b).Ok?
    ensures Subtract(Add(a, b).value, b) == Ok(a) && Add(b, a) == Add(a, b)
  {
    hide Add, Subtract;
    AddCorrect(a, b);
    AddCorrect(b, a);
    SubtractCorrect(a + b, b);
  }

  /** The length of an interval: refused for the one value that has none. */
  lemma DurationCorrect(a: int64)
    ensures !InInt64(0 - a) ==> Duration(a) == Err(Overflow)
    ensures Duration(a).Ok? <==> InInt64(0 - a)
    ensures Duration(a).Ok? ==> Duration(a).value >= 0 && (Subtract(0, a) == Duration(a) || Add(0, a) == Duration(a))
  {
    hide Add, Subtract;
    AddCorrect(0, a);
    SubtractCorrect(0, a);
  }

  // ---- Construction ----

  function TotalMilliseconds(days: int32, hours: int32, minutes: int32, seconds: int32, milliseconds: int32): int {
    S64((days * 3600 * 24 + hours * 3600 + minutes * 60 + seconds) * 1000 + milliseconds)
  }

  function Create(days: int32, hours: int32, minutes: int32, seconds: int32, milliseconds: int32)
    : Result<int64, Error>
  {
    var total := TotalMilliseconds(days, hours, minutes, seconds, milliseconds);
    if total > MAX_MILLISECONDS || total < MIN_MILLISECONDS then Err(OutOfRange)
    else Ok(S64(total * TICKS_PER_MILLISECOND))
  }

  /** The constructor from hours, minutes and seconds counts and checks in seconds. */
  function CreateFromTime(hours: int32, minutes: int32, seconds: int32): Result<int64, Error> {
    var total := S64(hours * 3600 + minutes * 60 + seconds);
    if total > MAX_SECONDS || total < MIN_SECONDS then Err(OutOfRange)
    else Ok(S64(total * TICKS_PER_SECOND))
  }

  /** Construction is exact, and refuses exactly what does not fit. */
  lemma CreateCorrect(d: int32, h: int32, m: int32, s: int32, ms: int32)
    ensures Create(d, h, m, s, ms) ==
            if InInt64(TicksOf(d, h, m, s, ms)) then Ok(TicksOf(d, h, m, s, ms)) else Err(OutOfRange)
  {
    assert TotalMilliseconds(d, h, m, s, ms) * TICKS_PER_MILLISECOND == TicksOf(d, h, m, s, ms);
  }

  /** The two constructors agree where both apply, in what they refuse as well. */
  lemma CreateFromTimeAgrees(h: int32, m: int32, s: int32)
    ensures CreateFromTime(h, m, s) == Create(0, h, m, s, 0)
  {
    hide Create;
    CreateCorrect(0, h, m, s, 0);
    assert (h * 3600 + m * 60 + s) * TICKS_PER_SECOND == TicksOf(0, h, m, s, 0);
  }

  // ---- Fields ----

  function Days(t: int64): int { TruncDiv(t, TICKS_PER_DAY) }

  function Hours(t: int64): int { TruncMod(TruncDiv(t, TICKS_PER_HOUR), 24) }

  function Minutes(t: int64): int { TruncMod(TruncDiv(t, TICKS_PER_MINUTE), 60) }

  function Seconds(t: int64): int { TruncMod(TruncDiv(t, TICKS_PER_SECOND), 60) }

  function Milliseconds(t: int64): int { TruncMod(TruncDiv(t, TICKS_PER_MILLISECOND), 1000) }

  /** Fields as a duration shows them: each within its unit, none of the other sign. */
  predicate Normal(d: int, h: int, m: int, s: int, ms: int) {
    && -24 < h < 24 && -60 < m < 60 && -60 < s < 60 && -1000 < ms < 1000
    && ((d >= 0 && h >= 0 && m >= 0 && s >= 0 && ms >= 0) || (d <= 0 && h <= 0 && m <= 0 && s <= 0 && ms <= 0))
  }

  /** Fields of a sum are the fields it was made of. */
  lemma FieldsOfTicks(t: int64, d: int, h: int, m: int, s: int, ms: int, rest: int)
    requires Normal(d, h, m, s, ms) && -TICKS_PER_MILLISECOND < rest < TICKS_PER_MILLISECOND
    requires rest == 0 || (rest > 0 && d >= 0 && h >= 0 && m >= 0 && s >= 0 && ms >= 0)
             || (rest < 0 && d <= 0 && h <= 0 && m <= 0 && s <= 0 && ms <= 0)
    requires t == TicksOf(d, h, m, s, ms) + rest
    ensures Days(t) == d && Hours(t) == h && Minutes(t) == m && Seconds(t) == s && Milliseconds(t) == ms
  {
    hide Days, Hours, Minutes, Seconds, Milliseconds, TicksOf;
    NegatedTicks(d, h, m, s, ms);
    if d >= 0 && h >= 0 && m >= 0 && s >= 0 && ms >= 0 && rest >= 0 {
      MagnitudeFields(t, d, h, m, s, ms, rest);
    } else {
      MagnitudeFields(0 - t, -d, -h, -m, -s, -ms, -rest);
    }
    FieldsBySign(t);
  }

  lemma NegatedTicks(d: int, h: int, m: int, s: int, ms: int)
    ensures TicksOf(-d, -h, -m, -s, -ms) == -TicksOf(d, h, m, s, ms)
    ensures d >= 0 && h >= 0 && m >= 0 && s >= 0 && ms >= 0 ==> TicksOf(d, h, m, s, ms) >= 0
    ensures d <= 0 && h <= 0 && m <= 0 && s <= 0 && ms <= 0 ==> TicksOf(d, h, m, s, ms) <= 0
  {
  }

  /** Truncation treats both signs alike. */
  lemma FieldsBySign(t: int64)
    ensures var sign, x := if t >= 0 then 1 else -1, if t >= 0 then t else 0 - t;
            && Days(t) == sign * (x / TICKS_PER_DAY)
            && Hours(t) == sign * (x / TICKS_PER_HOUR % 24)
            && Minutes(t) == sign * (x / TICKS_PER_MINUTE % 60)
            && Seconds(t) == sign * (x / TICKS_PER_SECOND % 60)
            && Milliseconds(t) == sign * (x / TICKS_PER_MILLISECOND % 1000)
  {
    hide TruncDiv, TruncMod;
    DivBySign(t, TICKS_PER_DAY);
    FieldBySign(t, TICKS_PER_HOUR, 24);
    FieldBySign(t, TICKS_PER_MINUTE, 60);
    FieldBySign(t, TICKS_PER_SECOND, 60);
    FieldBySign(t, TICKS_PER_MILLISECOND, 1000);
  }

  lemma DivBySign(t: int, unit: nat)
    requires unit > 0
    ensures TruncDiv(t, unit) == if t >= 0 then t / unit else -((0 - t) / unit)
  {
  }

  lemma FieldBySign(t: int, unit: nat, size: nat)
    requires unit > 0 && size > 0
    ensures TruncMod(TruncDiv(t, unit), size) == if t >= 0 then t / unit % size else -((0 - t) / unit % size)
  {
    hide TruncDiv, TruncMod;
    DivBySign(t, unit);
    QuotientNotNegative(if t >= 0 then t else 0 - t, unit);
    ModBySign((if t >= 0 then t else 0 - t) / unit, size);
  }

  lemma QuotientNotNegative(x: nat, unit: nat)
    requires unit > 0
    ensures x / unit >= 0
  {
  }

  lemma ModBySign(q: nat, size: nat)
    requires size > 0
    ensures TruncMod(q, size) == q % size
    ensures TruncMod(0 - q, size) == 0 - q % size
  {
    if q == 0 {
      DivModIs(0, size, 0, 0);
    }
  }

  /** Every interval is its five fields plus what is left below a millisecond. */
  lemma Recompose(t: int64)
    ensures Normal(Days(t), Hours(t), Minutes(t), Seconds(t), Milliseconds(t))
    ensures t == TicksOf(Days(t), Hours(t), Minutes(t), Seconds(t), Milliseconds(t))
                 + TruncMod(t, TICKS_PER_MILLISECOND)
  {
    hide Days, Hours, Minutes, Seconds, Milliseconds, TicksOf;
    var d, h, m, s, ms, rest := MagnitudeParts(if t >= 0 then t else 0 - t);
    if t >= 0 {
      FieldsOfTicks(t, d, h, m, s, ms, rest);
    } else {
      NegatedTicks(d, h, m, s, ms);
      FieldsOfTicks(t, -d, -h, -m, -s, -ms, -rest);
    }
  }

  /** Days fit the int32 they are returned in. */
  lemma DaysFit(t: int64)
    ensures -10_675_199 <= Days(t) <= 10_675_199
  {
  }

  /** Constructing from an interval's own fields loses only the part below a millisecond. */
  lemma CreateOfFields(t: int64)
    ensures -10_675_199 <= Days(t) <= 10_675_199
    ensures -24 < Hours(t) < 24 && -60 < Minutes(t) < 60 && -60 < Seconds(t) < 60 && -1000 < Milliseconds(t) < 1000
    ensures Create(Days(t), Hours(t), Minutes(t), Seconds(t), Milliseconds(t))
            == Ok(t - TruncMod(t, TICKS_PER_MILLISECOND))
  {
    hide Days, Hours, Minutes, Seconds, Milliseconds, Create;
    DaysFit(t);
    Recompose(t);
    CreateCorrect(Days(t), Hours(t), Minutes(t), Seconds(t), Milliseconds(t));
  }

  /** The fields of a constructed interval are the arguments exactly when those were normal. */
  lemma FieldsOfCreate(d: int32, h: int32, m: int32, s: int32, ms: int32, t: int64)
    requires Create(d, h, m, s, ms) == Ok(t)
    ensures (Days(t) == d && Hours(t) == h && Minutes(t) == m && Seconds(t) == s && Milliseconds(t) == ms)
            <==> Normal(d, h, m, s, ms)
  {
    hide Days, Hours, Minutes, Seconds, Milliseconds, Create;
    CreateCorrect(d, h, m, s, ms);
    if Normal(d, h, m, s, ms) {
      FieldsOfTicks(t, d, h, m, s, ms, 0);
    }
    Recompose(t);
  }
}
