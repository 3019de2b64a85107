/**
 * `to_naive_utc` (backend-rs/src/pydatetime.rs): an aware timestamp moved to UTC. A
 * timestamp is also an instant, a count of microseconds, and the move is a subtraction.
 */
module IsoUtc {
  import opened Wrappers
  import opened PyDateTime

  // ----- The time of day as a number ------------------------------------------------------

  function MicrosOfDay(c: Clock): nat {
    ((c.hour * 60 + c.minute) * 60 + c.second) * 1_000_000 + c.micro
  }

  function ClockOf(n: nat): Clock {
    var s := n / 1_000_000;
    var m := s / 60;
    Clock(m / 60, m % 60, s % 60, n % 1_000_000)
  }

  lemma ClockOfMicros(n: nat)
    requires n < DAY_US
    ensures ValidClock(ClockOf(n)) && MicrosOfDay(ClockOf(n)) == n
  {
  }

  lemma MicrosInjective(c: Clock)
    requires ValidClock(c)
    ensures MicrosOfDay(c) < DAY_US && ClockOf(MicrosOfDay(c)) == c
  {
    var m := c.hour * 60 + c.minute;
    var s := m * 60 + c.second;
    assert (s * 1_000_000 + c.micro) / 1_000_000 == s;
    assert s / 60 == m && m / 60 == c.hour;
  }

  // ----- The date as a number ----------------------------------------------------------------

  lemma {:induction false} YearsAdvance(y: int, y': int)
    requires y < y'
    ensures DaysBeforeYear(y) + YearLength(y) <= DaysBeforeYear(y')
    decreases y' - y
  {
    hide DaysBeforeYear;
    NextYear(y' - 1);
    if y < y' - 1 { YearsAdvance(y, y' - 1); }
  }

  lemma {:induction false} MonthsAdvance(y: int, m: nat, m': nat)
    requires 1 <= m < m' <= 13
    ensures DaysBeforeMonth(y, m) + DaysInMonth(y, m) <= DaysBeforeMonth(y, m')
    decreases m'
  {
    if m < m' - 1 { MonthsAdvance(y, m, m' - 1); }
  }

  lemma DayOfYear(y: int, m: nat, d: int)
    requires 1 <= m <= 12 && 1 <= d <= DaysInMonth(y, m)
    ensures 1 <= DaysBeforeMonth(y, m) + d <= YearLength(y)
  {
    hide YearLength;
    YearIsItsMonths(y);
    MonthsAdvance(y, m, 13);
    if m > 1 { MonthsAdvance(y, 1, m); }
  }

  /** Different dates have different ordinals. */
  lemma OrdinalInjective(y: int, m: nat, d: int, y': int, m': nat, d': int)
    requires 1 <= m <= 12 && 1 <= d <= DaysInMonth(y, m) && 1 <= m' <= 12 && 1 <= d' <= DaysInMonth(y', m')
    requires Ordinal(y, m, d) == Ordinal(y', m', d')
    ensures y == y' && m == m' && d == d'
  {
    hide DaysBeforeYear, DaysInMonth, YearLength;
    DayOfYear(y, m, d);
    DayOfYear(y', m', d');
    if y < y' { YearsAdvance(y, y'); } else if y' < y { YearsAdvance(y', y); }
    if m < m' { MonthsAdvance(y, m, m'); } else if m' < m { MonthsAdvance(y, m', m); }
  }

  // ----- Instants -------------------------------------------------------------------------------

  predicate RealDate(t: DateTime) {
    1 <= t.month <= 12 && 1 <= t.day <= DaysInMonth(t.year, t.month) && ValidClock(t.clock)
  }

  function Instant(t: DateTime): int
    requires RealDate(t)
  {
    Ordinal(t.year, t.month, t.day) * DAY_US + MicrosOfDay(t.clock)
  }

  lemma SplitInstant(a: int, r: int, b: int, s: int)
    requires 0 <= r < DAY_US && 0 <= s < DAY_US && a * DAY_US + r == b * DAY_US + s
    ensures a == b && r == s
  {
  }

  /** A timestamp is determined by its instant. */
  lemma InstantInjective(t: DateTime, u: DateTime)
    requires RealDate(t) && RealDate(u) && Instant(t) == Instant(u)
    ensures t == u
  {
    hide Ordinal, MicrosOfDay, DaysInMonth;
    MicrosInjective(t.clock);
    MicrosInjective(u.clock);
    SplitInstant(Ordinal(t.year, t.month, t.day), MicrosOfDay(t.clock),
                 Ordinal(u.year, u.month, u.day), MicrosOfDay(u.clock));
    OrdinalInjective(t.year, t.month, t.day, u.year, u.month, u.day);
  }

  /** The time `off` microseconds earlier, for less than a day either way. */
  function Earlier(t: DateTime, off: int): (r: DateTime)
    requires ValidDateTime(t) && -DAY_US < off < DAY_US
    ensures RealDate(r) && Instant(r) == Instant(t) - off
  {
    hide DaysBeforeYear, DaysBeforeMonth, DaysInMonth, MicrosOfDay, ClockOf;
    MicrosInjective(t.clock);
    DayOfYear(t.year, t.month, t.day);
    var total := MicrosOfDay(t.clock) - off;
    var carry := if total < 0 then -1 else if total >= DAY_US then 1 else 0;
    var n := Ordinal(t.year, t.month, t.day) + carry;
    var y := YearOf(t.year, n);
    var md := MonthDay(y, n - DaysBeforeYear(y), 1);
    ClockOfMicros(total - carry * DAY_US);
    DateTime(y, md.0, md.1, ClockOf(total - carry * DAY_US))
  }

  /** `to_naive_utc`; a failure is an overflow. */
  function ToNaiveUtc(t: IsoDateTime): Option<DateTime>
    requires ValidDateTime(t.naive) && (t.offset.Some? ==> -DAY_US < t.offset.value < DAY_US)
  {
    if t.offset.None? || t.offset.value == 0 then Some(t.naive)
    else
      var shifted := Earlier(t.naive, t.offset.value);
      if 1 <= shifted.year <= 9999 then Some(shifted) else None
  }

  function NewYear(y: int): (t: DateTime)
    ensures RealDate(t)
  {
    DateTime(y, 1, 1, MIDNIGHT)
  }

  lemma OrdinalFromYear(t: DateTime, y: int)
    requires RealDate(t)
    ensures t.year >= y <==> Ordinal(t.year, t.month, t.day) > DaysBeforeYear(y)
  {
    hide DaysBeforeYear, DaysInMonth, ValidClock;
    DayOfYear(t.year, t.month, t.day);
    if t.year < y { YearsAdvance(t.year, y); } else if t.year > y { YearsAdvance(y, t.year); }
  }

  lemma CompareInstants(a: int, r: int, b: int)
    requires 0 <= r < DAY_US
    ensures a * DAY_US + r >= b * DAY_US <==> a >= b
  {
  }

  lemma InstantParts(t: DateTime) returns (r: int)
    requires RealDate(t)
    ensures 0 <= r < DAY_US && Instant(t) == Ordinal(t.year, t.month, t.day) * DAY_US + r
  {
    hide Ordinal, MicrosOfDay, ClockOf;
    MicrosInjective(t.clock);
    r := MicrosOfDay(t.clock);
  }

  lemma InstantOfNewYear(y: int)
    ensures Instant(NewYear(y)) == (DaysBeforeYear(y) + 1) * DAY_US
  {
    hide DaysBeforeYear, IsLeap;
  }

  lemma InstantFromYear(t: DateTime, y: int)
    requires RealDate(t)
    ensures t.year >= y <==> Instant(t) >= Instant(NewYear(y))
  {
    hide Instant, Ordinal, DaysBeforeYear, DaysInMonth, ValidClock;
    OrdinalFromYear(t, y);
    InstantOfNewYear(y);
    var r := InstantParts(t);
    CompareInstants(Ordinal(t.year, t.month, t.day), r, DaysBeforeYear(y) + 1);
  }

  /** The result is the one timestamp at the instant less the offset, and there is none exactly
      when that instant is outside years 1 to 9999. */
  lemma MovesToUtc(t: IsoDateTime, u: DateTime)
    requires ValidDateTime(t.naive) && (t.offset.Some? ==> -DAY_US < t.offset.value < DAY_US)
    ensures var off := if t.offset.Some? then t.offset.value else 0; var at := Instant(t.naive) - off;
            && (ToNaiveUtc(t).Some? <==> Instant(NewYear(1)) <= at < Instant(NewYear(10_000)))
            && (ToNaiveUtc(t) == Some(u) <==> ValidDateTime(u) && Instant(u) == at)
  {
    hide Instant, Earlier;
    var off := if t.offset.Some? then t.offset.value else 0;
    var r := if off == 0 then t.naive else Earlier(t.naive, off);
    InstantFromYear(r, 1);
    InstantFromYear(r, 10_000);
    if ValidDateTime(u) && Instant(u) == Instant(t.naive) - off { InstantInjective(r, u); }
  }
}
