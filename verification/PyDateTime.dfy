/**
 * The ISO-8601 reader (backend-rs/src/pydatetime.rs), over the bytes of a
 * UTF-8 string followed by zeros.
 */
module PyDateTime {
  import opened Wrappers
  import opened Bytes
  import Decimal
  import Utf8

  /** The byte at `i`, or zero beyond the last. */
  function At(s: seq<byte>, i: nat): byte { if i < |s| then s[i] else 0 }

  predicate IsDigit(b: byte) { 0x30 <= b <= 0x39 }

  const DASH: byte := 0x2D
  const COLON: byte := 0x3A
  const WEEK: byte := 0x57
  const ZULU: byte := 0x5A
  const PLUS: byte := 0x2B

  // ----- Digits -------------------------------------------------------------------

  /** The number written by the `n` digits at `pos`, if they are digits. */
  function DigitsAt(s: seq<byte>, pos: nat, n: nat): (r: Option<nat>)
    ensures r.Some? ==> r.value < Decimal.Power10(n)
  {
    if n == 0 then Some(0)
    else
      var front := DigitsAt(s, pos, n - 1);
      var b := At(s, pos + n - 1);
      if front.None? || !IsDigit(b) then None else Some(front.value * 10 + (b - 0x30))
  }

  lemma DigitsStop(s: seq<byte>, pos: nat, k: nat, n: nat)
    requires k <= n && DigitsAt(s, pos, k).None?
    ensures DigitsAt(s, pos, n).None?
  {
    if k < n { DigitsStop(s, pos, k, n - 1); }
  }

  /** `parse_digits`. */
  method ParseDigits(s: seq<byte>, start: nat, n: nat) returns (r: Option<nat>, pos: nat)
    ensures r == DigitsAt(s, start, n) && (r.Some? ==> pos == start + n)
  {
    var value: nat := 0;
    pos := start;
    for k := 0 to n
      invariant pos == start + k && DigitsAt(s, start, k) == Some(value)
    {
      var b := At(s, pos);
      pos := pos + 1;
      if !IsDigit(b) {
        DigitsStop(s, start, k + 1, n);
        return None, pos;
      }
      value := value * 10 + (b - 0x30);
    }
    r := Some(value);
  }

  // ----- The calendar --------------------------------------------------------------

  predicate IsLeap(y: int) { y % 4 == 0 && (y % 100 != 0 || y % 400 == 0) }

  function DaysInMonth(y: int, m: int): int {
    if m == 2 then (if IsLeap(y) then 29 else 28)
    else if m == 4 || m == 6 || m == 9 || m == 11 then 30
    else 31
  }

  predicate ValidDate(y: int, m: int, d: int) { 1 <= y <= 9999 && 1 <= m <= 12 && 1 <= d <= DaysInMonth(y, m) }

  /** Days before January 1st of a year, counting from year 1. */
  function DaysBeforeYear(y: int): int {
    (y - 1) * 365 + (y - 1) / 4 - (y - 1) / 100 + (y - 1) / 400
  }

  function YearLength(y: int): int { if IsLeap(y) then 366 else 365 }

  lemma QuotientStep(n: int, k: int)
    requires k > 0
    ensures (n + 1) / k == n / k + (if (n + 1) % k == 0 then 1 else 0)
  {
    var q, r := n / k, n % k;
    assert n == k * q + r;
    if r == k - 1 {
      assert n + 1 == k * (q + 1);
      QuotientOf(n + 1, q + 1, 0, k);
    } else {
      QuotientOf(n + 1, q, r + 1, k);
    }
  }

  lemma QuotientOf(n: int, q: int, r: int, k: int)
    requires 0 <= r < k && n == k * q + r
    ensures n / k == q && n % k == r
  {
    var d := n / k - q;
    assert n == k * (n / k) + n % k;
    assert k * d == r - n % k;
    assert d >= 1 ==> k * d >= k;
    assert d <= -1 ==> k * d <= -k;
  }

  lemma NextYear(y: int)
    ensures DaysBeforeYear(y + 1) == DaysBeforeYear(y) + YearLength(y)
  {
    QuotientStep(y - 1, 4);
    QuotientStep(y - 1, 100);
    QuotientStep(y - 1, 400);
  }

  function DaysBeforeMonth(y: int, m: nat): int
    requires 1 <= m <= 13
  {
    if m == 1 then 0 else DaysBeforeMonth(y, m - 1) + DaysInMonth(y, m - 1)
  }

  lemma YearIsItsMonths(y: int)
    ensures DaysBeforeMonth(y, 13) == YearLength(y)
  {
    assert DaysBeforeMonth(y, 2) == 31;
    assert DaysBeforeMonth(y, 3) == 31 + DaysInMonth(y, 2);
    assert DaysBeforeMonth(y, 5) == DaysBeforeMonth(y, 3) + 61;
    assert DaysBeforeMonth(y, 7) == DaysBeforeMonth(y, 5) + 61;
    assert DaysBeforeMonth(y, 9) == DaysBeforeMonth(y, 7) + 62;
    assert DaysBeforeMonth(y, 11) == DaysBeforeMonth(y, 9) + 61;
  }

  function Ordinal(y: int, m: nat, d: int): int
    requires 1 <= m <= 13
  {
    DaysBeforeYear(y) + DaysBeforeMonth(y, m) + d
  }

  /** Monday is 0. */
  function Weekday(ordinal: int): int { (ordinal + 6) % 7 }

  /** The month and day of the `n`th day of a year, looking from month `m` on. */
  function MonthDay(y: int, n: int, m: nat): (r: (int, int))
    requires 1 <= m <= 12 && DaysBeforeMonth(y, m) < n <= YearLength(y)
    ensures m <= r.0 <= 12 && 1 <= r.1 <= DaysInMonth(y, r.0) && DaysBeforeMonth(y, r.0) + r.1 == n
    decreases 12 - m
  {
    YearIsItsMonths(y);
    var d := n - DaysBeforeMonth(y, m);
    if d <= DaysInMonth(y, m) then (m, d) else MonthDay(y, n, m + 1)
  }

  /** The Monday of week 1. */
  function Week1Monday(y: int): int {
    var jan1 := DaysBeforeYear(y) + 1;
    var w := Weekday(jan1);
    if w > 3 then jan1 - w + 7 else jan1 - w
  }

  /** Week 1 starts on a Monday and has January 4th in it. */
  lemma Week1HasJanuary4(y: int)
    ensures Weekday(Week1Monday(y)) == 0 && Week1Monday(y) <= Ordinal(y, 1, 4) < Week1Monday(y) + 7
  {
    hide DaysBeforeYear, IsLeap, DaysInMonth;
    MondayBefore(DaysBeforeYear(y) + 1);
  }

  lemma MondayBefore(day: int)
    ensures var w := Weekday(day); 0 <= w <= 6 && Weekday(day - w) == 0 && Weekday(day - w + 7) == 0
  {
    var w := Weekday(day);
    assert day - w + 6 == 7 * ((day + 6) / 7) && day - w + 13 == 7 * ((day + 6) / 7 + 1);
  }

  /** January 1st 1970 was a Thursday. */
  lemma EpochIsThursday()
    ensures Ordinal(1970, 1, 1) == 719_163 && Weekday(Ordinal(1970, 1, 1)) == 3
  {
    assert DaysBeforeMonth(1970, 1) == 0;
  }

  /** A day at most a year and a week into year `y` falls in it or a neighbour. */
  function YearOf(y: int, n: int): (a: int)
    requires DaysBeforeYear(y) - 7 < n <= DaysBeforeYear(y) + 371
    ensures DaysBeforeYear(a) < n <= DaysBeforeYear(a) + YearLength(a)
  {
    hide DaysBeforeYear;
    NextYear(y - 1);
    NextYear(y);
    NextYear(y + 1);
    if n <= DaysBeforeYear(y) then y - 1 else if n > DaysBeforeYear(y + 1) then y + 1 else y
  }

  lemma WeekInReach(y: int, week: int, day: int)
    requires 1 <= week <= 53 && 1 <= day <= 7
    requires week == 53 ==> Weekday(DaysBeforeYear(y) + 1) <= 3
    ensures DaysBeforeYear(y) - 7 < Week1Monday(y) + (week - 1) * 7 + day - 1 <= DaysBeforeYear(y) + 371
  {
    hide DaysBeforeYear;
  }

  /** `iso_to_ymd`: the calendar date of an ISO week date, which may fall in a
      neighbouring year. */
  function WeekDate(y: int, week: int, day: int): (r: Option<(int, int, int)>)
    ensures r.Some? ==>
              var (a, b, c) := r.value;
              && 1 <= b <= 12 && 1 <= c <= DaysInMonth(a, b)
              && Ordinal(a, b, c) == Week1Monday(y) + (week - 1) * 7 + day - 1
  {
    hide DaysBeforeYear, Weekday, Week1Monday, IsLeap, DaysInMonth, YearLength;
    var first := Weekday(DaysBeforeYear(y) + 1);
    if !(1 <= y <= 9999) then None
    else if week <= 0 || week > 53 || (week == 53 && !(first == 3 || (first == 2 && IsLeap(y)))) then None
    else if day <= 0 || day >= 8 then None
    else
      WeekInReach(y, week, day);
      var n := Week1Monday(y) + (week - 1) * 7 + day - 1;
      var a := YearOf(y, n);
      var md := MonthDay(a, n - DaysBeforeYear(a), 1);
      Some((a, md.0, md.1))
  }

  /** A year has week 53 exactly when the next year's week 1 starts 53 weeks later. */
  lemma LongYears(y: int)
    ensures var first := Weekday(DaysBeforeYear(y) + 1);
            Week1Monday(y + 1) - Week1Monday(y) == 7 * (if first == 3 || (first == 2 && IsLeap(y)) then 53 else 52)
  {
    hide DaysBeforeYear;
    NextYear(y);
  }

  /** The week dates read are exactly those of the ISO calendar. */
  lemma WeekDateExactly(y: int, week: int, day: int)
    ensures WeekDate(y, week, day).Some? <==>
            1 <= y <= 9999 && 1 <= day <= 7 && 1 <= week && Week1Monday(y) + 7 * week <= Week1Monday(y + 1)
  {
    hide DaysBeforeYear, IsLeap;
    LongYears(y);
  }

  // ----- The date -------------------------------------------------------------------

  /** `_find_isoformat_datetime_separator`. */
  function Separator(s: seq<byte>): (r: int)
    ensures r == -1 || 7 <= r <= 10
  {
    if |s| == 7 then 7
    else if At(s, 4) == DASH then
      if At(s, 5) != WEEK then 10
      else if |s| < 8 then -1
      else if |s| > 8 && s[8] == DASH then
        if |s| == 9 then -1 else if |s| > 10 && IsDigit(s[10]) then 8 else 10
      else 8
    else if At(s, 4) == WEEK then
      var stop := SkipDigits(s, 7);
      if stop < 9 then stop else if stop % 2 == 0 then 7 else 8
    else 8
  }

  function SkipDigits(s: seq<byte>, pos: nat): (r: nat)
    ensures pos <= r <= pos || pos < r <= |s|
    ensures !IsDigit(At(s, r)) && forall k :: pos <= k < r ==> IsDigit(At(s, k))
    decreases if pos < |s| then |s| - pos else 0
  {
    if IsDigit(At(s, pos)) then SkipDigits(s, pos + 1) else pos
  }

  /** `parse_isoformat_date`; only the week form looks at the separator's place. */
  function DateFields(s: seq<byte>, separator: int): Option<(int, int, int)> {
    var year := DigitsAt(s, 0, 4);
    var dashed := At(s, 4) == DASH;
    var p := if dashed then 5 else 4;
    if year.None? then None
    else if At(s, p) == WEEK then
      var week := DigitsAt(s, p + 1, 2);
      if week.None? then None
      else if separator < 0 || p + 3 < separator then
        var q := if dashed then p + 4 else p + 3;
        var day := DigitsAt(s, q, 1);
        if (dashed && At(s, p + 3) != DASH) || day.None? then None
        else WeekDate(year.value, week.value, day.value)
      else WeekDate(year.value, week.value, 1)
    else
      var month := DigitsAt(s, p, 2);
      var q := if dashed then p + 3 else p + 2;
      var day := DigitsAt(s, q, 2);
      if month.None? || (dashed && At(s, p + 2) != DASH) || day.None? then None
      else Some((year.value, month.value, day.value))
  }

  /** The place -1 is never used: the date has been refused by then. */
  lemma NoSeparatorNoDate(s: seq<byte>)
    requires Separator(s) == -1
    ensures DateFields(s, -1).None?
  {
    if |s| == 9 {
      assert DigitsAt(s, 9, 1).None?;
    } else {
      assert At(s, 7) == 0;
      assert DigitsAt(s, 6, 2).None?;
    }
  }

  method FindSeparator(s: seq<byte>) returns (r: int)
    ensures r == Separator(s)
  {
    if |s| == 7 { return 7; }
    if At(s, 4) == DASH {
      if At(s, 5) == WEEK {
        if |s| < 8 { return -1; }
        if |s| > 8 && At(s, 8) == DASH {
          if |s| == 9 { return -1; }
          if |s| > 10 && IsDigit(At(s, 10)) { return 8; }
          return 10;
        }
        return 8;
      }
      return 10;
    }
    if At(s, 4) == WEEK {
      var idx := 7;
      while idx < |s| && IsDigit(At(s, idx))
        invariant idx >= 7 && SkipDigits(s, idx) == SkipDigits(s, 7)
      {
        idx := idx + 1;
      }
      if idx < 9 { return idx; }
      return if idx % 2 == 0 then 7 else 8;
    }
    return 8;
  }

  method ParseDate(s: seq<byte>, separator: int) returns (r: Option<(int, int, int)>)
    ensures r == DateFields(s, separator)
  {
    var year, p := ParseDigits(s, 0, 4);
    if year.None? { return None; }
    var dashed := At(s, p) == DASH;
    if dashed { p := p + 1; }
    if At(s, p) == WEEK {
      p := p + 1;
      var week;
      week, p := ParseDigits(s, p, 2);
      if week.None? { return None; }
      var day := Some(1);
      if separator < 0 || p < separator {
        if dashed {
          var c := At(s, p);
          p := p + 1;
          if c != DASH { return None; }
        }
        day, p := ParseDigits(s, p, 1);
        if day.None? { return None; }
      }
      return WeekDate(year.value, week.value, day.value);
    }
    var month;
    month, p := ParseDigits(s, p, 2);
    if month.None? { return None; }
    if dashed {
      var c := At(s, p);
      p := p + 1;
      if c != DASH { return None; }
    }
    var day, _ := ParseDigits(s, p, 2);
    if day.None? { return None; }
    return Some((year.value, month.value, day.value));
  }

  // ----- The time -------------------------------------------------------------------

  datatype Clock = Clock(hour: nat, minute: nat, second: nat, micro: nat)

  const MIDNIGHT := Clock(0, 0, 0, 0)

  function SetField(c: Clock, i: nat, n: nat): Clock {
    if i == 0 then c.(hour := n) else if i == 1 then c.(minute := n) else c.(second := n)
  }

  /** A clock reading, and whether something other than a terminator follows it. */
  datatype Reading = Reading(rest: bool, clock: Clock)

  /** Fields `i` on of `parse_hh_mm_ss_ff`; `colons` says that a colon followed the hours. */
  function ClockFrom(s: seq<byte>, p: nat, end: nat, i: nat, colons: bool, c: Clock): Option<Reading>
    requires i <= 3 && (i == 3 ==> p < end)
    decreases 3 - i
  {
    if i == 3 then Fraction(s, p, end, c)
    else
      var field := DigitsAt(s, p, 2);
      if field.None? then None
      else
        var c' := SetField(c, i, field.value);
        var b := At(s, p + 2);
        var colons' := if i == 0 then b == COLON else colons;
        if p + 3 >= end then Some(Reading(b != 0, c'))
        else if colons' && b == COLON then ClockFrom(s, p + 3, end, i + 1, colons', c')
        else if b == 0x2E || b == 0x2C then Fraction(s, p + 3, end, c')
        else if !colons' then ClockFrom(s, p + 2, end, i + 1, colons', c')
        else None
  }

  function Min(a: int, b: int): int { if a < b then a else b }

  /** Up to six digits of a fraction count, scaled to microseconds; the rest are skipped. */
  function Fraction(s: seq<byte>, p: nat, end: nat, c: Clock): Option<Reading>
    requires p < end
  {
    var n := Min(end - p, 6);
    var f := DigitsAt(s, p, n);
    if f.None? then None
    else Some(Reading(At(s, SkipDigits(s, p + n)) != 0, c.(micro := f.value * Decimal.Power10(6 - n))))
  }

  /** So the fraction is worth the part of a second its digits say: `n` digits are that many
      `n`th powers of a tenth. */
  lemma FractionIsWorth(s: seq<byte>, p: nat, end: nat, c: Clock)
    requires p < end && Fraction(s, p, end, c).Some?
    ensures var n := Min(end - p, 6);
            && DigitsAt(s, p, n).Some?
            && Fraction(s, p, end, c).value.clock.micro * Decimal.Power10(n) == DigitsAt(s, p, n).value * 1_000_000
  {
    hide DigitsAt, SkipDigits;
    var n := Min(end - p, 6);
    var f := DigitsAt(s, p, n).value;
    assert Decimal.Power10(n) * Decimal.Power10(6 - n) == 1_000_000 by { PowersMeet(n); }
    assert f * Decimal.Power10(6 - n) * Decimal.Power10(n) == f * (Decimal.Power10(n) * Decimal.Power10(6 - n));
  }

  lemma PowersMeet(n: nat)
    requires 1 <= n <= 6
    ensures Decimal.Power10(n) * Decimal.Power10(6 - n) == 1_000_000
  {
    assert Decimal.Power10(0) == 1 && Decimal.Power10(1) == 10 && Decimal.Power10(2) == 100;
    assert Decimal.Power10(3) == 1000 && Decimal.Power10(4) == 10_000 && Decimal.Power10(5) == 100_000;
  }

  const CORRECTION: seq<nat> := [100_000, 10_000, 1_000, 100, 10]

  lemma CorrectionIsThePower(n: nat)
    requires 1 <= n < 6
    ensures CORRECTION[n - 1] == Decimal.Power10(6 - n)
  {
    assert Decimal.Power10(1) == 10 && Decimal.Power10(2) == 100 && Decimal.Power10(3) == 1000;
    assert Decimal.Power10(4) == 10_000 && Decimal.Power10(5) == 100_000;
  }

  method ParseFraction(s: seq<byte>, start: nat, end: nat, c: Clock) returns (r: Option<Reading>)
    requires start < end
    ensures r == Fraction(s, start, end, c)
  {
    var n := Min(end - start, 6);
    var f;
    var p;
    f, p := ParseDigits(s, start, n);
    if f.None? { return None; }
    var micro := f.value;
    if n < 6 {
      CorrectionIsThePower(n);
      micro := micro * CORRECTION[n - 1];
    }
    ghost var tail := p;
    while IsDigit(At(s, p))
      invariant SkipDigits(s, p) == SkipDigits(s, tail)
      decreases |s| - p
    {
      p := p + 1;
    }
    r := Some(Reading(At(s, p) != 0, c.(micro := micro)));
  }

  /** `parse_hh_mm_ss_ff`. The subtraction `end - p` and the table index are safe. */
  method ParseClock(s: seq<byte>, start: nat, end: nat) returns (r: Option<Reading>)
    ensures r == ClockFrom(s, start, end, 0, true, MIDNIGHT)
  {
    hide Decimal.Power10, DigitsAt, SkipDigits, Fraction;
    var c, colons, i := MIDNIGHT, true, 0;
    var p: nat := start;
    while i < 3
      invariant i <= 3 && (i > 0 ==> p < end)
      invariant ClockFrom(s, p, end, i, colons, c) == ClockFrom(s, start, end, 0, true, MIDNIGHT)
    {
      var field;
      field, p := ParseDigits(s, p, 2);
      if field.None? { return None; }
      c := SetField(c, i, field.value);
      var b := At(s, p);
      p := p + 1;
      if i == 0 { colons := b == COLON; }
      if p >= end {
        return Some(Reading(b != 0, c));
      } else if colons && b == COLON {
        i := i + 1;
      } else if b == 0x2E || b == 0x2C {
        i := 3;
      } else if !colons {
        p := p - 1;
        i := i + 1;
      } else {
        return None;
      }
    }
    r := ParseFraction(s, p, end, c);
  }

  predicate ZoneMark(b: byte) { b == ZULU || b == PLUS || b == DASH }

  /** The first zone mark, looking at one byte at least. */
  function ZoneAt(s: seq<byte>, pos: nat, end: nat): (r: nat)
    ensures r >= pos
    decreases end - pos
  {
    if ZoneMark(At(s, pos)) then pos
    else if pos + 1 >= end then pos + 1
    else ZoneAt(s, pos + 1, end)
  }

  method FindZone(s: seq<byte>, start: nat, end: nat) returns (pos: nat)
    ensures pos == ZoneAt(s, start, end)
  {
    pos := start;
    while true
      invariant ZoneAt(s, pos, end) == ZoneAt(s, start, end)
      decreases end - pos
    {
      if ZoneMark(At(s, pos)) { break; }
      pos := pos + 1;
      if pos >= end { break; }
    }
  }

  /** A time of day, and the offset in seconds and microseconds if a zone was given. */
  datatype TimeParts = TimeParts(clock: Clock, zone: Option<(int, int)>)

  /** `parse_isoformat_time`. */
  function TimeFields(s: seq<byte>, start: nat, len: nat): Option<TimeParts> {
    var end := start + len;
    var z := ZoneAt(s, start, end);
    var t := ClockFrom(s, start, z, 0, true, MIDNIGHT);
    if t.None? then None
    else if z == end then
      if t.value.rest then None else Some(TimeParts(t.value.clock, None))
    else if At(s, z) == ZULU then
      if At(s, z + 1) != 0 then None else Some(TimeParts(t.value.clock, Some((0, 0))))
    else
      var o := ClockFrom(s, z + 1, end, 0, true, MIDNIGHT);
      if o.None? || o.value.rest then None
      else
        var sign := if At(s, z) == DASH then -1 else 1;
        var c := o.value.clock;
        Some(TimeParts(t.value.clock, Some((sign * (c.hour * 3600 + c.minute * 60 + c.second), sign * c.micro))))
  }

  method ParseTime(s: seq<byte>, start: nat, len: nat) returns (r: Option<TimeParts>)
    ensures r == TimeFields(s, start, len)
  {
    hide ClockFrom, ZoneAt;
    var end := start + len;
    var z := FindZone(s, start, end);
    var t := ParseClock(s, start, z);
    if t.None? { return None; }
    if z == end {
      return if t.value.rest then None else Some(TimeParts(t.value.clock, None));
    }
    if At(s, z) == ZULU {
      return if At(s, z + 1) != 0 then None else Some(TimeParts(t.value.clock, Some((0, 0))));
    }
    var sign := if At(s, z) == DASH then -1 else 1;
    var o := ParseClock(s, z + 1, end);
    if o.None? || o.value.rest { return None; }
    var c := o.value.clock;
    return Some(TimeParts(t.value.clock, Some((sign * (c.hour * 3600 + c.minute * 60 + c.second), sign * c.micro))));
  }

  // ----- The whole ------------------------------------------------------------------

  datatype DateTime = DateTime(year: int, month: int, day: int, clock: Clock)

  predicate ValidClock(c: Clock) { c.hour <= 23 && c.minute <= 59 && c.second <= 59 && c.micro <= 999_999 }

  predicate ValidDateTime(t: DateTime) { ValidDate(t.year, t.month, t.day) && ValidClock(t.clock) }

  /** The naive fields, and the offset in microseconds if there was one. */
  datatype IsoDateTime = IsoDateTime(naive: DateTime, offset: Option<int>)

  const DAY_US := 86_400_000_000

  /** How far a separator reaches, judged by its first byte. */
  function Skip(lead: byte): nat {
    if lead < 0x80 then 1 else if lead / 16 == 0xE then 3 else if lead / 16 == 0xF then 4 else 2
  }

  /** It reaches over exactly one character, whichever that is. */
  lemma SkipsOneCharacter(c: char)
    ensures Skip(Utf8.EncodeChar(c)[0]) == |Utf8.EncodeChar(c)|
  {
    var n := c as int;
    assert n < 0x110000;
  }

  /** `tzinfo_from_isoformat_results`. */
  function Offset(zone: Option<(int, int)>): Result<Option<int>, ()> {
    match zone
    case None => Ok(None)
    case Some((seconds, micros)) =>
      if seconds == 0 then Ok(Some(0))
      else
        var total := seconds * 1_000_000 + micros;
        if total >= DAY_US || total <= -DAY_US then Err(()) else Ok(Some(total))
  }

  function TimeAfter(s: seq<byte>, separator: int): Option<TimeParts>
    requires separator >= 0
  {
    if |s| <= separator then Some(TimeParts(MIDNIGHT, None))
    else
      var p := separator + Skip(At(s, separator));
      TimeFields(s, p, if |s| > p then |s| - p else 0)
  }

  /** `datetime.fromisoformat`. */
  function Read(text: string): (r: Option<IsoDateTime>)
    ensures r.Some? ==> ValidDateTime(r.value.naive)
    ensures r.Some? && r.value.offset.Some? ==> -DAY_US < r.value.offset.value < DAY_US
  {
    var s := Utf8.Encode(text);
    var date := DateFields(s, Separator(s));
    if |text| < 7 || date.None? then None
    else
      NoSeparatorNeeded(s);
      var time := TimeAfter(s, Separator(s));
      if time.None? then None
      else
        var offset := Offset(time.value.zone);
        var t := DateTime(date.value.0, date.value.1, date.value.2, time.value.clock);
        if offset.Err? || !ValidDateTime(t) then None else Some(IsoDateTime(t, offset.value))
  }

  lemma NoSeparatorNeeded(s: seq<byte>)
    requires DateFields(s, Separator(s)).Some?
    ensures Separator(s) >= 0
  {
    if Separator(s) == -1 { NoSeparatorNoDate(s); }
  }

  method FromIsoFormat(text: string) returns (r: Option<IsoDateTime>)
    ensures r == Read(text)
  {
    hide Utf8.Encode, Separator, DateFields, TimeFields, ValidDateTime, Offset;
    if |text| < 7 { return None; }
    var s := Utf8.Encode(text);
    var separator := FindSeparator(s);
    var date := ParseDate(s, separator);
    if date.None? { return None; }
    NoSeparatorNeeded(s);
    var time := TimeParts(MIDNIGHT, None);
    if |s| > separator {
      var p := separator + Skip(At(s, separator));
      var parsed := ParseTime(s, p, if |s| > p then |s| - p else 0);
      if parsed.None? { return None; }
      time := parsed.value;
    }
    var offset := Offset(time.zone);
    var t := DateTime(date.value.0, date.value.1, date.value.2, time.clock);
    if offset.Err? || !ValidDateTime(t) { return None; }
    return Some(IsoDateTime(t, offset.value));
  }
}
