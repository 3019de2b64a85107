/**
 * Timestamps written by `iso_naive` (backend-rs/src/models.rs) and read back
 * by `fromisoformat` (backend-rs/src/pydatetime.rs).
 */
module IsoRoundTrip {
  import opened Wrappers
  import opened Bytes
  import opened PyDateTime
  import Decimal
  import Utf8

  // ----- Writing ----------------------------------------------------------------------

  function DateText(t: DateTime): string
    requires ValidDateTime(t)
  {
    Decimal.Padded(t.year, 4) + ("-" + (Decimal.Padded(t.month, 2) + ("-" + Decimal.Padded(t.day, 2))))
  }

  function HourMinute(hour: nat, minute: nat): string {
    Decimal.Padded(hour, 2) + (":" + Decimal.Padded(minute, 2))
  }

  function Seconds(second: nat): string { ":" + Decimal.Padded(second, 2) }

  function FractionText(micro: nat): string {
    if micro == 0 then "" else "." + Decimal.Padded(micro, 6)
  }

  function ClockText(c: Clock): string {
    HourMinute(c.hour, c.minute) + (Seconds(c.second) + FractionText(c.micro))
  }

  /** `iso_naive`. */
  function IsoNaive(t: DateTime): string
    requires ValidDateTime(t)
  {
    DateText(t) + ("T" + ClockText(t.clock))
  }

  /** Nineteen characters, or twenty-six with microseconds, and where the marks stand. */
  lemma IsoShape(t: DateTime)
    requires ValidDateTime(t)
    ensures var text := IsoNaive(t);
            && |text| == (if t.clock.micro == 0 then 19 else 26) && text[..4] == Decimal.Padded(t.year, 4)
            && text[4] == '-' && text[7] == '-' && text[10] == 'T' && text[13] == ':' && text[16] == ':'
            && (t.clock.micro != 0 ==> text[19] == '.')
  {
    hide Decimal.Padded;
    Widths(t);
  }

  lemma Widths(t: DateTime)
    requires ValidDateTime(t)
    ensures |Decimal.Padded(t.year, 4)| == 4
    ensures |Decimal.Padded(t.month, 2)| == 2 && |Decimal.Padded(t.day, 2)| == 2
    ensures |Decimal.Padded(t.clock.hour, 2)| == 2 && |Decimal.Padded(t.clock.minute, 2)| == 2
    ensures |Decimal.Padded(t.clock.second, 2)| == 2 && |Decimal.Padded(t.clock.micro, 6)| == 6
  {
    assert Decimal.Power10(2) == 100 && Decimal.Power10(4) == 10_000 && Decimal.Power10(6) == 1_000_000 by { Powers(); }
    Decimal.PaddedLength(t.year, 4);
    Decimal.PaddedLength(t.month, 2);
    Decimal.PaddedLength(t.day, 2);
    Decimal.PaddedLength(t.clock.hour, 2);
    Decimal.PaddedLength(t.clock.minute, 2);
    Decimal.PaddedLength(t.clock.second, 2);
    Decimal.PaddedLength(t.clock.micro, 6);
  }

  lemma Powers()
    ensures Decimal.Power10(2) == 100 && Decimal.Power10(4) == 10_000 && Decimal.Power10(6) == 1_000_000
  {
    assert Decimal.Power10(1) == 10 && Decimal.Power10(3) == 1000 && Decimal.Power10(5) == 100_000;
  }

  /** How a zone is written: absent, `Z`, or a sign and a clock with or without seconds. */
  datatype Zone = Naive | Zulu | Shifted(negative: bool, hour: nat, minute: nat, second: nat, seconds: bool)

  predicate ValidZone(z: Zone) {
    z.Shifted? ==> z.hour <= 23 && z.minute <= 59 && z.second <= 59 && (z.second > 0 ==> z.seconds)
  }

  function ZoneText(z: Zone): string {
    match z
    case Naive => ""
    case Zulu => "Z"
    case Shifted(negative, h, m, s, seconds) =>
      (if negative then "-" else "+") + (HourMinute(h, m) + if seconds then Seconds(s) else "")
  }

  function ZoneOffset(z: Zone): Option<int> {
    match z
    case Naive => None
    case Zulu => Some(0)
    case Shifted(negative, h, m, s, _) =>
      Some((if negative then -1 else 1) * (h * 3600 + m * 60 + s) * 1_000_000)
  }

  /** Every whole-second offset strictly inside a day can be written. */
  lemma EveryOffsetIsWritten(seconds: int) returns (z: Zone)
    requires -86_400 < seconds < 86_400
    ensures ValidZone(z) && z.Shifted? && ZoneOffset(z) == Some(seconds * 1_000_000)
  {
    var n := if seconds < 0 then -seconds else seconds;
    z := Shifted(seconds < 0, n / 3600, n / 60 % 60, n % 60, true);
  }

  // ----- Bytes that spell a text --------------------------------------------------------

  predicate Ascii(t: string) { forall k :: 0 <= k < |t| ==> t[k] < 128 as char }

  /** The bytes at `pos` are the characters of `t`. */
  predicate Spells(s: seq<byte>, pos: nat, t: string) {
    pos + |t| <= |s| && forall k :: pos <= k < pos + |t| ==> s[k] == t[k - pos] as int
  }

  lemma {:induction false} AsciiEncodes(t: string)
    requires Ascii(t)
    ensures |Utf8.Encode(t)| == |t| && Spells(Utf8.Encode(t), 0, t)
  {
    if t != "" {
      AsciiEncodes(t[1..]);
      assert Utf8.EncodeChar(t[0]) == [t[0] as int];
    }
  }

  lemma SplitSpelling(s: seq<byte>, pos: nat, a: string, b: string)
    requires Spells(s, pos, a + b)
    ensures Spells(s, pos, a) && Spells(s, pos + |a|, b)
  {
    forall k | pos <= k < pos + |a| ensures s[k] == a[k - pos] as int { assert (a + b)[k - pos] == a[k - pos]; }
    forall k | pos + |a| <= k < pos + |a| + |b| ensures s[k] == b[k - pos - |a|] as int {
      assert (a + b)[k - pos] == b[k - pos - |a|];
    }
  }

  predicate Digits(t: string) { forall k :: 0 <= k < |t| ==> '0' <= t[k] <= '9' }

  lemma {:induction false} SpelledDigits(s: seq<byte>, pos: nat, t: string, n: nat)
    requires n <= |t| && Spells(s, pos, t) && Digits(t)
    ensures DigitsAt(s, pos, n) == Some(Decimal.Value(t[..n]))
  {
    if n > 0 {
      SpelledDigits(s, pos, t, n - 1);
      assert t[..n][..n - 1] == t[..n - 1];
      assert s[pos + n - 1] == t[n - 1] as int;
    } else {
      assert t[..n] == "";
    }
  }

  lemma SpelledNumber(s: seq<byte>, pos: nat, n: nat, width: nat)
    requires width > 0 && n < Decimal.Power10(width)
    requires Spells(s, pos, Decimal.Padded(n, width))
    ensures |Decimal.Padded(n, width)| == width && DigitsAt(s, pos, width) == Some(n)
    ensures forall k :: pos <= k < pos + width ==> At(s, k) < 128 && !ZoneMark(At(s, k))
  {
    var t := Decimal.Padded(n, width);
    Decimal.PaddedLength(n, width);
    SpelledDigits(s, pos, t, width);
    assert t[..width] == t;
    Decimal.ValueOfPadded(n, width);
    forall k | pos <= k < pos + width ensures At(s, k) < 128 && !ZoneMark(At(s, k)) {
      assert '0' <= t[k - pos] <= '9';
    }
  }

  lemma TwoDigits(s: seq<byte>, pos: nat, n: nat)
    requires n < 100 && Spells(s, pos, Decimal.Padded(n, 2))
    ensures |Decimal.Padded(n, 2)| == 2 && DigitsAt(s, pos, 2) == Some(n)
    ensures !ZoneMark(At(s, pos)) && !ZoneMark(At(s, pos + 1))
  {
    assert Decimal.Power10(1) == 10;
    SpelledNumber(s, pos, n, 2);
  }

  // ----- Reading back what was written ----------------------------------------------------

  /** What a written date looks like to the reader. */
  predicate DateAt(s: seq<byte>, t: DateTime) {
    && |s| >= 10 && DigitsAt(s, 0, 4) == Some(t.year)
    && At(s, 4) == DASH && IsDigit(At(s, 5)) && DigitsAt(s, 5, 2) == Some(t.month)
    && At(s, 7) == DASH && DigitsAt(s, 8, 2) == Some(t.day)
  }

  lemma DateSpelled(s: seq<byte>, t: DateTime)
    requires ValidDateTime(t) && Spells(s, 0, DateText(t))
    ensures |DateText(t)| == 10 && DateAt(s, t)
  {
    hide Decimal.Padded, WeekDate, DigitsAt, Spells;
    var year, month, day := Decimal.Padded(t.year, 4), Decimal.Padded(t.month, 2), Decimal.Padded(t.day, 2);
    SplitSpelling(s, 0, year, "-" + (month + ("-" + day)));
    assert t.year < Decimal.Power10(4) by { assert Decimal.Power10(2) == 100; }
    SpelledNumber(s, 0, t.year, 4);
    SplitSpelling(s, 4, "-", month + ("-" + day));
    SpelledMark(s, 4, '-');
    SplitSpelling(s, 5, month, "-" + day);
    TwoDigits(s, 5, t.month);
    SplitSpelling(s, 7, "-", day);
    SpelledMark(s, 7, '-');
    TwoDigits(s, 8, t.day);
    StartsWithDigit(s, 5);
  }

  lemma SpelledMark(s: seq<byte>, p: nat, c: char)
    requires Spells(s, p, [c])
    ensures p < |s| && At(s, p) == c as int
  {
    assert s[p] == [c][0] as int;
  }

  lemma StartsWithDigit(s: seq<byte>, p: nat)
    requires DigitsAt(s, p, 2).Some?
    ensures IsDigit(At(s, p)) && IsDigit(At(s, p + 1))
    ensures p + 2 <= |s|
  {
    assert DigitsAt(s, p, 1).Some?;
  }

  lemma DateReads(s: seq<byte>, t: DateTime)
    requires ValidDateTime(t) && Spells(s, 0, DateText(t))
    ensures |DateText(t)| == 10 && Separator(s) == 10 && DateFields(s, 10) == Some((t.year, t.month, t.day))
  {
    hide Decimal.Padded, WeekDate, DigitsAt, DateText, Spells;
    DateSpelled(s, t);
    StartsWithDigit(s, 8);
  }

  /** What the hours and minutes of a clock at `p` look like to the reader. */
  predicate HourMinuteAt(s: seq<byte>, p: nat, hour: nat, minute: nat) {
    && DigitsAt(s, p, 2) == Some(hour) && At(s, p + 2) == COLON && DigitsAt(s, p + 3, 2) == Some(minute)
    && forall k :: p <= k < p + 5 ==> !ZoneMark(At(s, k))
  }

  predicate SecondsAt(s: seq<byte>, p: nat, second: nat) {
    && At(s, p) == COLON && DigitsAt(s, p + 1, 2) == Some(second)
    && forall k :: p <= k < p + 3 ==> !ZoneMark(At(s, k))
  }

  lemma HourMinuteReads(s: seq<byte>, p: nat, hour: nat, minute: nat)
    requires hour < 100 && minute < 100 && Spells(s, p, HourMinute(hour, minute))
    ensures |HourMinute(hour, minute)| == 5 && HourMinuteAt(s, p, hour, minute)
  {
    hide Decimal.Padded;
    var h, m := Decimal.Padded(hour, 2), Decimal.Padded(minute, 2);
    SplitSpelling(s, p, h, ":" + m);
    TwoDigits(s, p, hour);
    SplitSpelling(s, p + 2, ":", m);
    TwoDigits(s, p + 3, minute);
    assert At(s, p + 2) == COLON;
  }

  lemma SecondsRead(s: seq<byte>, p: nat, second: nat)
    requires second < 100 && Spells(s, p, Seconds(second))
    ensures |Seconds(second)| == 3 && SecondsAt(s, p, second)
  {
    hide Decimal.Padded;
    SplitSpelling(s, p, ":", Decimal.Padded(second, 2));
    TwoDigits(s, p + 1, second);
    assert At(s, p) == COLON;
  }

  lemma ShortClock(s: seq<byte>, p: nat, hour: nat, minute: nat)
    requires HourMinuteAt(s, p, hour, minute)
    ensures ClockFrom(s, p, p + 5, 0, true, MIDNIGHT) == Some(Reading(At(s, p + 5) != 0, Clock(hour, minute, 0, 0)))
  {
    hide DigitsAt;
    assert ClockFrom(s, p + 3, p + 5, 1, true, Clock(hour, 0, 0, 0))
        == Some(Reading(At(s, p + 5) != 0, Clock(hour, minute, 0, 0)));
  }

  lemma UpToSeconds(s: seq<byte>, p: nat, end: nat, hour: nat, minute: nat, second: nat)
    requires HourMinuteAt(s, p, hour, minute) && SecondsAt(s, p + 5, second) && end >= p + 8
    ensures ClockFrom(s, p, end, 0, true, MIDNIGHT) == ClockFrom(s, p + 6, end, 2, true, Clock(hour, minute, 0, 0))
  {
    hide DigitsAt;
    assert ClockFrom(s, p, end, 0, true, MIDNIGHT) == ClockFrom(s, p + 3, end, 1, true, Clock(hour, 0, 0, 0));
  }

  lemma LongClock(s: seq<byte>, p: nat, hour: nat, minute: nat, second: nat)
    requires HourMinuteAt(s, p, hour, minute) && SecondsAt(s, p + 5, second)
    ensures ClockFrom(s, p, p + 8, 0, true, MIDNIGHT) ==
            Some(Reading(At(s, p + 8) != 0, Clock(hour, minute, second, 0)))
  {
    hide DigitsAt;
    UpToSeconds(s, p, p + 8, hour, minute, second);
  }

  lemma FullClock(s: seq<byte>, p: nat, c: Clock)
    requires HourMinuteAt(s, p, c.hour, c.minute) && SecondsAt(s, p + 5, c.second)
    requires At(s, p + 8) == 0x2E && DigitsAt(s, p + 9, 6) == Some(c.micro) && !IsDigit(At(s, p + 15))
    ensures ClockFrom(s, p, p + 15, 0, true, MIDNIGHT) == Some(Reading(At(s, p + 15) != 0, c))
  {
    hide DigitsAt;
    UpToSeconds(s, p, p + 15, c.hour, c.minute, c.second);
    assert Decimal.Power10(0) == 1;
    assert Fraction(s, p + 9, p + 15, Clock(c.hour, c.minute, c.second, 0)) == Some(Reading(At(s, p + 15) != 0, c));
  }

  lemma ClockReads(s: seq<byte>, p: nat, c: Clock)
    requires ValidClock(c) && Spells(s, p, ClockText(c))
    requires var end := p + |ClockText(c)|; !IsDigit(At(s, end))
    ensures var end := p + |ClockText(c)|;
            && end > p
            && ClockFrom(s, p, end, 0, true, MIDNIGHT) == Some(Reading(At(s, end) != 0, c))
            && forall k :: p <= k < end ==> !ZoneMark(At(s, k))
  {
    hide Decimal.Padded, HourMinute, Seconds, ClockFrom, DigitsAt;
    var fraction := FractionText(c.micro);
    SplitSpelling(s, p, HourMinute(c.hour, c.minute), Seconds(c.second) + fraction);
    HourMinuteReads(s, p, c.hour, c.minute);
    SplitSpelling(s, p + 5, Seconds(c.second), fraction);
    SecondsRead(s, p + 5, c.second);
    if c.micro == 0 {
      LongClock(s, p, c.hour, c.minute, c.second);
    } else {
      SplitSpelling(s, p + 8, ".", Decimal.Padded(c.micro, 6));
      assert s[p + 8] == 0x2E;
      SixDigits(s, p + 9, c.micro);
      FullClock(s, p, c);
    }
  }

  lemma SixDigits(s: seq<byte>, p: nat, n: nat)
    requires n < 1_000_000 && Spells(s, p, Decimal.Padded(n, 6))
    ensures |Decimal.Padded(n, 6)| == 6 && DigitsAt(s, p, 6) == Some(n)
    ensures forall k :: p <= k < p + 6 ==> !ZoneMark(At(s, k))
  {
    assert Decimal.Power10(2) == 100 && Decimal.Power10(4) == 10_000;
    SpelledNumber(s, p, n, 6);
  }

  lemma {:induction false} ZoneIsFound(s: seq<byte>, p: nat, z: nat, end: nat)
    requires p < z <= end && (z < end ==> ZoneMark(At(s, z)))
    requires forall k :: p <= k < z ==> !ZoneMark(At(s, k))
    ensures ZoneAt(s, p, end) == z
    decreases z - p
  {
    if p + 1 < z {
      ZoneIsFound(s, p + 1, z, end);
    } else if z < end {
      assert ZoneAt(s, z, end) == z;
    }
  }

  /** A zone that ends the text is read back. */
  lemma ShiftReads(s: seq<byte>, p: nat, z: Zone)
    requires ValidZone(z) && z.Shifted? && Spells(s, p, ZoneText(z)) && |s| == p + |ZoneText(z)|
    ensures At(s, p) == (if z.negative then DASH else PLUS)
    ensures ClockFrom(s, p + 1, |s|, 0, true, MIDNIGHT) == Some(Reading(false, Clock(z.hour, z.minute, z.second, 0)))
  {
    hide Decimal.Padded, HourMinute, Seconds, ClockFrom, DigitsAt;
    var sign := if z.negative then "-" else "+";
    var tail := if z.seconds then Seconds(z.second) else "";
    SplitSpelling(s, p, sign, HourMinute(z.hour, z.minute) + tail);
    assert s[p] == sign[0] as int;
    SplitSpelling(s, p + 1, HourMinute(z.hour, z.minute), tail);
    HourMinuteReads(s, p + 1, z.hour, z.minute);
    if z.seconds {
      SecondsRead(s, p + 6, z.second);
      LongClock(s, p + 1, z.hour, z.minute, z.second);
    } else {
      ShortClock(s, p + 1, z.hour, z.minute);
    }
  }

  /** The offset a written zone stands for, as the time reader reports it. */
  function ZoneParts(z: Zone): Option<(int, int)> {
    match z
    case Naive => None
    case Zulu => Some((0, 0))
    case Shifted(negative, h, m, s, _) => Some(((if negative then -1 else 1) * (h * 3600 + m * 60 + s), 0))
  }

  /** A zone mark never continues a fraction. */
  lemma ZoneReads(s: seq<byte>, p: nat, z: Zone)
    requires ValidZone(z) && Spells(s, p, ZoneText(z)) && |s| == p + |ZoneText(z)|
    ensures !IsDigit(At(s, p)) && (p < |s| <==> !z.Naive?) && (p < |s| ==> ZoneMark(At(s, p)))
    ensures z.Zulu? ==> At(s, p) == ZULU && At(s, p + 1) == 0
    ensures z.Shifted? ==>
              && At(s, p) == (if z.negative then DASH else PLUS)
              && ClockFrom(s, p + 1, |s|, 0, true, MIDNIGHT) ==
                 Some(Reading(false, Clock(z.hour, z.minute, z.second, 0)))
  {
    hide ClockFrom, HourMinute, Seconds, DigitsAt;
    match z {
      case Naive =>
      case Zulu => SpelledMark(s, p, 'Z');
      case Shifted(_, _, _, _, _) => ShiftReads(s, p, z);
    }
  }

  lemma TimeReads(s: seq<byte>, p: nat, c: Clock, z: Zone)
    requires ValidClock(c) && ValidZone(z) && Spells(s, p, ClockText(c) + ZoneText(z))
    requires |s| == p + |ClockText(c)| + |ZoneText(z)|
    ensures TimeFields(s, p, |s| - p) == Some(TimeParts(c, ZoneParts(z)))
  {
    hide ClockText, ClockFrom, ZoneAt, ZoneText, Spells;
    var zoneAt := p + |ClockText(c)|;
    SplitSpelling(s, p, ClockText(c), ZoneText(z));
    ZoneReads(s, zoneAt, z);
    ClockReads(s, p, c);
    ZoneIsFound(s, p, zoneAt, |s|);
    assert At(s, |s|) == 0;
  }

  // ----- The round trip -----------------------------------------------------------------

  lemma ClockTextIsAscii(c: Clock)
    ensures Ascii(ClockText(c)) && |ClockText(c)| > 0
  {
    hide Decimal.Padded;
  }

  lemma TextIsAscii(t: DateTime, z: Zone)
    requires ValidDateTime(t)
    ensures Ascii(IsoNaive(t) + ZoneText(z))
  {
    hide Decimal.Padded, ClockText;
    ClockTextIsAscii(t.clock);
    assert Ascii(DateText(t));
    assert Ascii(ZoneText(z));
  }

  /** Reading a written timestamp gives it back, with the offset appended to it if any. */
  lemma RoundTrip(t: DateTime, z: Zone)
    requires ValidDateTime(t) && ValidZone(z)
    ensures Read(IsoNaive(t) + ZoneText(z)) == Some(IsoDateTime(t, ZoneOffset(z)))
  {
    hide Utf8.Encode, Decimal.Padded, DateText, ClockText, ZoneText, DateFields, Separator, TimeFields, DigitsAt;
    var text := IsoNaive(t) + ZoneText(z);
    TextIsAscii(t, z);
    AsciiEncodes(text);
    var s := Utf8.Encode(text);
    var tail := ClockText(t.clock) + ZoneText(z);
    assert text == DateText(t) + ("T" + tail);
    SplitSpelling(s, 0, DateText(t), "T" + tail);
    DateReads(s, t);
    SplitSpelling(s, 10, "T", tail);
    assert s[10] == 'T' as int;
    TimeReads(s, 11, t.clock, z);
    ClockTextIsAscii(t.clock);
  }

  lemma NaiveRoundTrip(t: DateTime)
    requires ValidDateTime(t)
    ensures Read(IsoNaive(t)) == Some(IsoDateTime(t, None))
  {
    RoundTrip(t, Naive);
    assert IsoNaive(t) + "" == IsoNaive(t);
  }
}
