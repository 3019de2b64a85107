/**
 * Exactly which texts `fromisoformat` (backend-rs/src/pydatetime.rs) takes, and as what: dates, clocks
 * and zones by where their digits and marks stand, with no moving position and no search for a separator.
 */
module IsoAcceptance {
  import opened Wrappers
  import opened Bytes
  import opened PyDateTime
  import Utf8

  predicate FractionMark(b: byte) { b == 0x2E || b == 0x2C }

  /** A colon after the hours makes every field but the last be followed by one. */
  function Colons(s: seq<byte>, p: nat): bool { At(s, p + 2) == COLON }

  /** Where field `i` begins. */
  function FieldAt(s: seq<byte>, p: nat, i: nat): nat { if Colons(s, p) then p + 3 * i else p + 2 * i }

  /** Field `i` is followed by another: there is room, and the colon, or anything but a fraction mark. */
  predicate Goes(s: seq<byte>, p: nat, end: nat, i: nat) {
    var q := FieldAt(s, p, i) + 2;
    q + 1 < end && if Colons(s, p) then At(s, q) == COLON else !FractionMark(At(s, q))
  }

  /** `n` fields of two digits, each but the last going on to the next. */
  predicate Laid(s: seq<byte>, p: nat, end: nat, n: nat, c: Clock) {
    && 1 <= n <= 3 && c.micro == 0
    && DigitsAt(s, p, 2) == Some(c.hour)
    && (if n >= 2 then Goes(s, p, end, 0) && DigitsAt(s, FieldAt(s, p, 1), 2) == Some(c.minute) else c.minute == 0)
    && (if n >= 3 then Goes(s, p, end, 1) && DigitsAt(s, FieldAt(s, p, 2), 2) == Some(c.second) else c.second == 0)
  }

  /** How a reading ends after `n` fields: at most one byte is left, which is reported and not looked
      at; or a fraction follows, after its mark, or after a third field and a colon, or right after a
      third field without colons. */
  predicate Ends(s: seq<byte>, p: nat, end: nat, n: nat, c: Clock, r: Reading)
    requires n >= 1
  {
    var q := FieldAt(s, p, n - 1) + 2;
    if q + 1 >= end then r == Reading(At(s, q) != 0, c)
    else if FractionMark(At(s, q)) then Fraction(s, q + 1, end, c) == Some(r)
    else if n < 3 then false
    else if Colons(s, p) then At(s, q) == COLON && Fraction(s, q + 1, end, c) == Some(r)
    else Fraction(s, q, end, c) == Some(r)
  }

  /** The reading of a clock, from its layout. */
  ghost predicate Reads(s: seq<byte>, p: nat, end: nat, r: Reading) {
    exists n, c :: 1 <= n && Laid(s, p, end, n, c) && Ends(s, p, end, n, c, r)
  }

  /** The reader at field `i`, the fields before it being laid out. */
  lemma FromField(s: seq<byte>, p: nat, end: nat, i: nat, c: Clock)
    requires i < 3 && (i == 0 || Goes(s, p, end, i - 1))
    ensures var q := FieldAt(s, p, i); var v := DigitsAt(s, q, 2); var colons := i == 0 || Colons(s, p);
            ClockFrom(s, q, end, i, colons, c) ==
              if v.None? then None
              else
                var c' := SetField(c, i, v.value);
                if q + 3 >= end then Some(Reading(At(s, q + 2) != 0, c'))
                else if FractionMark(At(s, q + 2)) then Fraction(s, q + 3, end, c')
                else if Goes(s, p, end, i) then ClockFrom(s, FieldAt(s, p, i + 1), end, i + 1, Colons(s, p), c')
                else None
  {
    hide DigitsAt, Fraction;
  }

  /** The reader's answer when the layout stops at field `n`, and what it goes on from otherwise. */
  lemma AtField(s: seq<byte>, p: nat, end: nat, n: nat, c: Clock, r: Reading)
    requires Laid(s, p, end, n, c)
    ensures Goes(s, p, end, n - 1) && n < 3 ==>
              !Ends(s, p, end, n, c, r)
              && ClockFrom(s, p, end, 0, true, MIDNIGHT) == ClockFrom(s, FieldAt(s, p, n), end, n, Colons(s, p), c)
    ensures !Goes(s, p, end, n - 1) || n == 3 ==>
              (ClockFrom(s, p, end, 0, true, MIDNIGHT) == Some(r) <==> Ends(s, p, end, n, c, r))
  {
    hide DigitsAt, Fraction;
    FromField(s, p, end, 0, MIDNIGHT);
    var c0 := SetField(MIDNIGHT, 0, c.hour);
    if n >= 2 {
      FromField(s, p, end, 1, c0);
      if n == 3 { FromField(s, p, end, 2, SetField(c0, 1, c.minute)); }
    }
    hide ClockFrom;
  }

  /** A clock is read exactly when it is laid out so, and as what it spells. */
  lemma ClockExactly(s: seq<byte>, p: nat, end: nat, r: Reading)
    ensures ClockFrom(s, p, end, 0, true, MIDNIGHT) == Some(r) <==> Reads(s, p, end, r)
  {
    hide Ends, ClockFrom, DigitsAt, Fraction;
    if Reads(s, p, end, r) {
      var n, c :| 1 <= n && Laid(s, p, end, n, c) && Ends(s, p, end, n, c, r);
      AtField(s, p, end, n, c, r);
    }
    if ClockFrom(s, p, end, 0, true, MIDNIGHT) == Some(r) {
      FromField(s, p, end, 0, MIDNIGHT);
      var c1 := SetField(MIDNIGHT, 0, DigitsAt(s, p, 2).value);
      assert Laid(s, p, end, 1, c1);
      AtField(s, p, end, 1, c1, r);
      if Goes(s, p, end, 0) {
        FromField(s, p, end, 1, c1);
        var c2 := SetField(c1, 1, DigitsAt(s, FieldAt(s, p, 1), 2).value);
        assert Laid(s, p, end, 2, c2);
        AtField(s, p, end, 2, c2, r);
        if Goes(s, p, end, 1) {
          FromField(s, p, end, 2, c2);
          var c3 := SetField(c2, 2, DigitsAt(s, FieldAt(s, p, 2), 2).value);
          assert Laid(s, p, end, 3, c3);
          AtField(s, p, end, 3, c3, r);
        }
      }
    }
  }

  // ----- Dates ----------------------------------------------------------------------------------

  /** One for a dash after the year. */
  function Dash(s: seq<byte>): nat { if At(s, 4) == DASH then 1 else 0 }

  /** `YYYY-MM-DD` or `YYYYMMDD`. */
  predicate Calendar(s: seq<byte>, y: int, m: int, d: int) {
    && At(s, 4 + Dash(s)) != WEEK
    && DigitsAt(s, 0, 4) == Some(y) && DigitsAt(s, 4 + Dash(s), 2) == Some(m)
    && (Dash(s) == 1 ==> At(s, 7) == DASH) && DigitsAt(s, 6 + 2 * Dash(s), 2) == Some(d)
  }

  /** `YYYY-Www` or `YYYYWww`. */
  predicate Week(s: seq<byte>, y: int, week: int) {
    At(s, 4 + Dash(s)) == WEEK && DigitsAt(s, 0, 4) == Some(y) && DigitsAt(s, 5 + Dash(s), 2) == Some(week)
  }

  /** Whether a day of the week follows: with dashes, one that a digit does not follow as if it began
      a time; without, a single digit or an even run of them. */
  predicate DayGiven(s: seq<byte>) {
    if Dash(s) == 1 then At(s, 8) == DASH && !IsDigit(At(s, 10))
    else
      var run := SkipDigits(s, 7) - 7;
      run == 1 || (run > 0 && run % 2 == 0)
  }

  ghost predicate Dated(s: seq<byte>, y: int, m: int, d: int) {
    || Calendar(s, y, m, d)
    || exists year, week ::
         && Week(s, year, week)
         && if DayGiven(s) then
              var day := DigitsAt(s, 7 + 2 * Dash(s), 1);
              day.Some? && WeekDate(year, week, day.value) == Some((y, m, d))
            else WeekDate(year, week, 1) == Some((y, m, d))
  }

  /** Where the date ends. */
  function DateEnd(s: seq<byte>): nat {
    if At(s, 4 + Dash(s)) != WEEK then 8 + 2 * Dash(s)
    else if DayGiven(s) then 8 + 2 * Dash(s) else 7 + Dash(s)
  }

  /** Digits stand inside the text. */
  lemma DigitsAreInside(s: seq<byte>, p: nat, n: nat)
    requires n > 0 && DigitsAt(s, p, n).Some?
    ensures p + n <= |s|
  {
  }

  /** Where there is a week, the search for a separator decides on a day as `DayGiven` does. */
  lemma SeparatorOfWeek(s: seq<byte>)
    requires At(s, 4 + Dash(s)) == WEEK && DigitsAt(s, 5 + Dash(s), 2).Some?
    ensures var sep := Separator(s);
            && (sep < 0 || 7 + Dash(s) < sep <==> DayGiven(s))
            && (sep == DateEnd(s) || (sep == -1 && Dash(s) == 1 && At(s, 9) == 0))
  {
    hide DigitsAt, SkipDigits;
    DigitsAreInside(s, 5 + Dash(s), 2);
  }

  lemma SeparatorOfCalendar(s: seq<byte>)
    requires At(s, 4 + Dash(s)) != WEEK && DigitsAt(s, 6 + 2 * Dash(s), 2).Some?
    ensures Separator(s) == DateEnd(s)
  {
    hide DigitsAt, SkipDigits;
    DigitsAreInside(s, 6 + 2 * Dash(s), 2);
  }

  lemma CalendarExactly(s: seq<byte>, y: int, m: int, d: int)
    requires At(s, 4 + Dash(s)) != WEEK
    ensures DateFields(s, Separator(s)) == Some((y, m, d)) <==> Calendar(s, y, m, d)
    ensures DateFields(s, Separator(s)).Some? ==> Separator(s) == DateEnd(s)
  {
    hide DigitsAt, WeekDate, Separator, DayGiven, DateEnd;
    if DigitsAt(s, 6 + 2 * Dash(s), 2).Some? { SeparatorOfCalendar(s); }
  }

  /** What the date reader makes of a week. */
  lemma WeekFields(s: seq<byte>)
    requires At(s, 4 + Dash(s)) == WEEK
    ensures var year, week := DigitsAt(s, 0, 4), DigitsAt(s, 5 + Dash(s), 2);
            var day := if DayGiven(s) then DigitsAt(s, 7 + 2 * Dash(s), 1) else Some(1);
            && DateFields(s, Separator(s)) ==
                 (if year.None? || week.None? || day.None? then None else WeekDate(year.value, week.value, day.value))
            && (DateFields(s, Separator(s)).Some? ==> Separator(s) == DateEnd(s))
  {
    hide DigitsAt, WeekDate, Separator, DateEnd, DayGiven, DateFields;
    WeekFieldsAt(s, Separator(s));
    if DayGiven(s) && Dash(s) == 1 { DayMark(s); }
    if DigitsAt(s, 5 + Dash(s), 2).Some? { SeparatorOfWeek(s); }
    NoDigitAtEnd(s, 9);
  }

  lemma WeekFieldsAt(s: seq<byte>, separator: int)
    requires At(s, 4 + Dash(s)) == WEEK
    ensures var year, week := DigitsAt(s, 0, 4), DigitsAt(s, 5 + Dash(s), 2);
            var day := DigitsAt(s, 7 + 2 * Dash(s), 1);
            DateFields(s, separator) ==
              if year.None? || week.None? then None
              else if !(separator < 0 || 7 + Dash(s) < separator) then WeekDate(year.value, week.value, 1)
              else if (Dash(s) == 1 && At(s, 8) != DASH) || day.None? then None
              else WeekDate(year.value, week.value, day.value)
  {
    hide DigitsAt, WeekDate;
  }

  lemma DayMark(s: seq<byte>)
    requires DayGiven(s) && Dash(s) == 1
    ensures At(s, 8) == DASH
  {
  }

  lemma WeekExactly(s: seq<byte>, y: int, m: int, d: int)
    requires At(s, 4 + Dash(s)) == WEEK
    ensures DateFields(s, Separator(s)) == Some((y, m, d)) <==> Dated(s, y, m, d)
  {
    hide DigitsAt, WeekDate, Separator, DayGiven, DateFields;
    WeekFields(s);
    if DigitsAt(s, 0, 4).Some? && DigitsAt(s, 5 + Dash(s), 2).Some? {
      assert Week(s, DigitsAt(s, 0, 4).value, DigitsAt(s, 5 + Dash(s), 2).value);
    }
  }

  /** The date reader accepts exactly these dates, and the separator it was given ends them. */
  lemma DateExactly(s: seq<byte>, y: int, m: int, d: int)
    ensures DateFields(s, Separator(s)) == Some((y, m, d)) <==> Dated(s, y, m, d)
    ensures DateFields(s, Separator(s)).Some? ==> Separator(s) == DateEnd(s)
  {
    hide DigitsAt, WeekDate, Separator, DayGiven, DateEnd, DateFields;
    if At(s, 4 + Dash(s)) != WEEK {
      CalendarExactly(s, y, m, d);
    } else {
      WeekFields(s);
      WeekExactly(s, y, m, d);
    }
  }

  lemma NoDigitAtEnd(s: seq<byte>, p: nat)
    ensures At(s, p) == 0 ==> DigitsAt(s, p, 1).None?
  {
  }

  // ----- Times and zones -----------------------------------------------------------------------------

  function Max(a: int, b: int): int { if a > b then a else b }

  /** The first zone mark from `start` to before `end`, or `end`. */
  predicate FirstMark(s: seq<byte>, start: nat, end: nat, z: nat) {
    && start <= z <= end && (forall k :: start <= k < z ==> !ZoneMark(At(s, k)))
    && (z < end ==> ZoneMark(At(s, z)))
  }

  /** The search looks at one byte even where there is none. */
  lemma {:induction false} ZoneExactly(s: seq<byte>, start: nat, end: nat, z: nat)
    ensures ZoneAt(s, start, end) == z <==> FirstMark(s, start, Max(start + 1, end), z)
    decreases end - start
  {
    if !ZoneMark(At(s, start)) && start + 1 < end { ZoneExactly(s, start + 1, end, z); }
  }

  /** A clock and what follows it: nothing, `Z` at the end of the text, or a sign and a clock. A byte
      left over between the two clocks is ignored. */
  ghost predicate Timed(s: seq<byte>, start: nat, end: nat, c: Clock, zone: Option<(int, int)>) {
    exists z, r ::
      && FirstMark(s, start, Max(start + 1, end), z) && Reads(s, start, z, r) && r.clock == c
      && Zoned(s, end, z, r.rest, zone)
  }

  ghost predicate Zoned(s: seq<byte>, end: nat, z: nat, rest: bool, zone: Option<(int, int)>) {
    if z == end then !rest && zone == None
    else if At(s, z) == ZULU then At(s, z + 1) == 0 && zone == Some((0, 0))
    else exists o :: Reads(s, z + 1, end, o) && !o.rest && zone == Shift(At(s, z) == DASH, o.clock)
  }

  function Shift(negative: bool, c: Clock): Option<(int, int)> {
    var sign := if negative then -1 else 1;
    Some((sign * (c.hour * 3600 + c.minute * 60 + c.second), sign * c.micro))
  }

  lemma TimeExactly(s: seq<byte>, start: nat, len: nat, c: Clock, zone: Option<(int, int)>)
    ensures TimeFields(s, start, len) == Some(TimeParts(c, zone)) <==> Timed(s, start, start + len, c, zone)
  {
    hide ClockFrom, Reads, ZoneAt, FirstMark;
    var end := start + len;
    var z := ZoneAt(s, start, end);
    if Timed(s, start, end, c, zone) {
      var y, r :| FirstMark(s, start, Max(start + 1, end), y) && Reads(s, start, y, r) && r.clock == c
                  && Zoned(s, end, y, r.rest, zone);
      ZoneExactly(s, start, end, y);
      ClockExactly(s, start, y, r);
      ZonedFields(s, end, y, r.rest, zone);
    }
    if TimeFields(s, start, len) == Some(TimeParts(c, zone)) {
      var r := ClockFrom(s, start, z, 0, true, MIDNIGHT).value;
      ZoneExactly(s, start, end, z);
      ClockExactly(s, start, z, r);
      ZonedFields(s, end, z, r.rest, zone);
      assert Zoned(s, end, z, r.rest, zone);
    }
  }

  /** What the time reader makes of what follows the first clock. */
  function ZoneFields(s: seq<byte>, end: nat, z: nat, rest: bool): Option<Option<(int, int)>> {
    if z == end then (if rest then None else Some(None))
    else if At(s, z) == ZULU then (if At(s, z + 1) != 0 then None else Some(Some((0, 0))))
    else
      var o := ClockFrom(s, z + 1, end, 0, true, MIDNIGHT);
      if o.None? || o.value.rest then None else Some(Shift(At(s, z) == DASH, o.value.clock))
  }

  lemma ZonedFields(s: seq<byte>, end: nat, z: nat, rest: bool, zone: Option<(int, int)>)
    ensures ZoneFields(s, end, z, rest) == Some(zone) <==> Zoned(s, end, z, rest, zone)
  {
    hide ClockFrom, Reads;
    if z != end && At(s, z) != ZULU {
      var read := ClockFrom(s, z + 1, end, 0, true, MIDNIGHT);
      if read.Some? { ClockExactly(s, z + 1, end, read.value); }
      if Zoned(s, end, z, rest, zone) {
        var o :| Reads(s, z + 1, end, o) && !o.rest && zone == Shift(At(s, z) == DASH, o.clock);
        ClockExactly(s, z + 1, end, o);
      }
    }
  }

  // ----- The whole ----------------------------------------------------------------------------------

  /** The text is that timestamp: a date, and if anything follows it a separator and a time. */
  ghost predicate Accepted(text: string, r: IsoDateTime) {
    var s, t := Utf8.Encode(text), r.naive;
    && |text| >= 7 && ValidDateTime(t) && Dated(s, t.year, t.month, t.day)
    && if |s| <= DateEnd(s) then t.clock == MIDNIGHT && r.offset == None
       else
         var p := DateEnd(s) + Skip(At(s, DateEnd(s)));
         exists zone :: Timed(s, p, Max(p, |s|), t.clock, zone) && Offset(zone) == Ok(r.offset)
  }

  lemma NoZoneNoOffset()
    ensures Offset(None) == Ok(None)
  {
  }

  /** `fromisoformat` accepts exactly these texts, as what they spell. */
  lemma ReadExactly(text: string, r: IsoDateTime)
    ensures Read(text) == Some(r) <==> Accepted(text, r)
  {
    hide Dated, DateEnd, DateFields, Separator, TimeFields, Timed, Utf8.Encode, Offset, ValidDateTime;
    NoZoneNoOffset();
    var s, t := Utf8.Encode(text), r.naive;
    DateExactly(s, t.year, t.month, t.day);
    if DateFields(s, Separator(s)).Some? && |s| > DateEnd(s) {
      var p := DateEnd(s) + Skip(At(s, DateEnd(s)));
      var len: nat := if |s| > p then |s| - p else 0;
      var parts := TimeFields(s, p, len);
      assert TimeAfter(s, Separator(s)) == parts && p + len == Max(p, |s|);
      if Read(text) == Some(r) {
        var zone := parts.value.zone;
        TimeExactly(s, p, len, t.clock, zone);
        assert Timed(s, p, Max(p, |s|), t.clock, zone) && Offset(zone) == Ok(r.offset);
      }
      if Accepted(text, r) {
        var zone :| Timed(s, p, Max(p, |s|), t.clock, zone) && Offset(zone) == Ok(r.offset);
        TimeExactly(s, p, len, t.clock, zone);
      }
    }
  }
}
