/** Ticks of 100 ns and the units they are counted in: one mixed-radix notation for the time of day
    and for intervals.
 */
module TickUnits {
  import opened MachineWords

  const TICKS_PER_MILLISECOND := 10_000
  const TICKS_PER_SECOND := TICKS_PER_MILLISECOND * 1000
  const TICKS_PER_MINUTE := TICKS_PER_SECOND * 60
  const TICKS_PER_HOUR := TICKS_PER_MINUTE * 60
  const TICKS_PER_DAY := TICKS_PER_HOUR * 24
  const TICKS_PER_6_HOURS := TICKS_PER_HOUR * 6

  /** What five fields add up to, carrying as they may. */
  function TicksOf(days: int, hours: int, minutes: int, seconds: int, milliseconds: int): int {
    days * TICKS_PER_DAY + hours * TICKS_PER_HOUR + minutes * TICKS_PER_MINUTE + seconds * TICKS_PER_SECOND
    + milliseconds * TICKS_PER_MILLISECOND
  }

  /** The digits of a sum are the parts it was made of. */
  lemma MagnitudeFields(t: nat, d: nat, h: nat, m: nat, s: nat, ms: nat, rest: nat)
    requires h < 24 && m < 60 && s < 60 && ms < 1000 && rest < TICKS_PER_MILLISECOND
    requires t == TicksOf(d, h, m, s, ms) + rest
    ensures t / TICKS_PER_DAY == d && t / TICKS_PER_HOUR % 24 == h && t / TICKS_PER_MINUTE % 60 == m
    ensures t / TICKS_PER_SECOND % 60 == s && t / TICKS_PER_MILLISECOND % 1000 == ms
  {
    var hours := d * 24 + h;
    var minutes := hours * 60 + m;
    var seconds := minutes * 60 + s;
    var millis := seconds * 1000 + ms;
    MagnitudeQuotients(t, hours, minutes, seconds, millis, d, rest);
    DivModIs(millis, 1000, seconds, ms);
    DivModIs(seconds, 60, minutes, s);
    DivModIs(minutes, 60, hours, m);
    DivModIs(hours, 24, d, h);
  }

  lemma MagnitudeQuotients(t: nat, hours: nat, minutes: nat, seconds: nat, millis: nat, d: nat, rest: nat)
    requires t == millis * TICKS_PER_MILLISECOND + rest && rest < TICKS_PER_MILLISECOND
    requires 0 <= millis - seconds * 1000 < 1000 && 0 <= seconds - minutes * 60 < 60
    requires 0 <= minutes - hours * 60 < 60 && 0 <= hours - d * 24 < 24
    ensures t / TICKS_PER_MILLISECOND == millis && t / TICKS_PER_SECOND == seconds
    ensures t / TICKS_PER_MINUTE == minutes && t / TICKS_PER_HOUR == hours && t / TICKS_PER_DAY == d
  {
    DivModIs(t, TICKS_PER_MILLISECOND, millis, rest);
    DivModIs(t, TICKS_PER_SECOND, seconds, t - seconds * TICKS_PER_SECOND);
    DivModIs(t, TICKS_PER_MINUTE, minutes, t - minutes * TICKS_PER_MINUTE);
    DivModIs(t, TICKS_PER_HOUR, hours, t - hours * TICKS_PER_HOUR);
    DivModIs(t, TICKS_PER_DAY, d, t - d * TICKS_PER_DAY);
  }

  /** Every tick count has such parts. */
  lemma MagnitudeParts(t: nat) returns (d: int, h: int, m: int, s: int, ms: int, rest: int)
    ensures 0 <= d && 0 <= h < 24 && 0 <= m < 60 && 0 <= s < 60 && 0 <= ms < 1000
    ensures rest == t % TICKS_PER_MILLISECOND
    ensures t == TicksOf(d, h, m, s, ms) + rest
  {
    rest := t % TICKS_PER_MILLISECOND;
    var millis := t / TICKS_PER_MILLISECOND;
    ms := millis % 1000;
    var seconds := millis / 1000;
    s := seconds % 60;
    var minutes := seconds / 60;
    m := minutes % 60;
    var hours := minutes / 60;
    h, d := hours % 24, hours / 24;
    SumOfParts(t, d, h, m, s, ms, rest, hours, minutes, seconds, millis);
  }

  lemma SumOfParts(t: nat, d: nat, h: nat, m: nat, s: nat, ms: nat, rest: nat,
                   hours: nat, minutes: nat, seconds: nat, millis: nat)
    requires t == millis * TICKS_PER_MILLISECOND + rest && millis == seconds * 1000 + ms
    requires seconds == minutes * 60 + s && minutes == hours * 60 + m && hours == d * 24 + h
    ensures t == TicksOf(d, h, m, s, ms) + rest
  {
  }
}
