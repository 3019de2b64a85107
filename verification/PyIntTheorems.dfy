/** What the two coercions of backend-rs/src/pyint.rs return, and where they differ. */
module PyIntTheorems {
  import opened Wrappers
  import opened PyInt
  import Decimal

  // ----- JSON integers -----------------------------------------------------------------------

  /** What `jiter_int` accepts is an optional minus and digits, and the value is theirs. */
  lemma JiterReads(s: string)
    requires JiterInt(s).Ok?
    ensures var negative := Starts(s, '-'); var digits := if negative then s[1..] else s;
            digits != "" && Digits(digits) && JiterInt(s).value == OfInt(Sign(negative, Decimal.Value(digits)))
  {
    var negative := Starts(s, '-');
    var digits := if negative then s[1..] else s;
    var start := if negative then 1 else 0;
    assert digits == s[start..] && digits[0] == s[start];
    if digits[0] == '0' {
      assert digits == "0" && "0"[..0] == "";
      assert Decimal.Value("") == 0 && Decimal.Value(digits) == 0;
    }
  }

  lemma {:induction false} DigitsEndAtEnd(s: string, i: nat)
    requires i <= |s| && Digits(s[i..])
    ensures DigitsEnd(s, i) == |s|
    decreases |s| - i
  {
    if i < |s| {
      assert s[i] == s[i..][0] && s[i..][1..] == s[i + 1..];
      DigitsEndAtEnd(s, i + 1);
    }
  }

  /** Digits with no zero in front, unless that is all there is. */
  predicate Canonical(d: string) { d != "" && Digits(d) && (d[0] == '0' ==> d == "0") }

  function Unminus(s: string): string { if Starts(s, '-') then s[1..] else s }

  /** `jiter_int` accepts exactly an optional minus and canonical digits, at most 4300 characters of them. */
  lemma JiterExactly(s: string)
    ensures JiterInt(s).Ok? <==> Canonical(Unminus(s)) && |s| <= MAX_INT_CHARS
  {
    hide ParseI64;
    var start := if Starts(s, '-') then 1 else 0;
    var digits := Unminus(s);
    assert digits == s[start..] && (digits != "" ==> digits[0] == s[start]);
    if JiterInt(s).Ok? {
      JiterReads(s);
      if digits[0] != '0' { DigitsEndAtEnd(s, start); }
    } else if Canonical(digits) {
      DigitsEndAtEnd(s, start);
    }
  }

  /** Canonical digits of any length jiter takes are read. */
  lemma JiterTakes(negative: bool, digits: string)
    requires Canonical(digits) && |digits| + (if negative then 1 else 0) <= MAX_INT_CHARS
    ensures var s := (if negative then "-" else "") + digits;
            JiterInt(s) == Ok(OfInt(Sign(negative, Decimal.Value(digits))))
  {
    hide JiterInt, OfInt, Decimal.Value;
    var s := (if negative then "-" else "") + digits;
    assert Unminus(s) == digits && Starts(s, '-') == negative;
    JiterExactly(s);
    JiterReads(s);
  }

  // ----- Numerals ------------------------------------------------------------------------------

  lemma {:induction false} ValueWithoutUnderscores(s: string)
    requires Numeral(s)
    ensures Digits(NoUnderscores(s)) && Decimal.Value(NoUnderscores(s)) == ValueOf(s)
  {
    if s != "" {
      var n := |s| - 1;
      ValueWithoutUnderscores(s[..n]);
      var front, all := NoUnderscores(s[..n]), NoUnderscores(s);
      if s[n] == '_' {
        assert all == front;
      } else {
        assert all == front + [s[n]] && all[..|all| - 1] == front;
      }
    }
  }

  lemma {:induction false} WithoutUnderscoresIsNumeral(s: string)
    requires Digits(NoUnderscores(s))
    ensures Numeral(s) && (NoUnderscores(s) != "" ==> HasDigit(s))
  {
    if s != "" {
      var n := |s| - 1;
      var front, all := NoUnderscores(s[..n]), NoUnderscores(s);
      assert front == all[..|front|];
      assert s[n] != '_' ==> all[|front|] == s[n];
      WithoutUnderscoresIsNumeral(s[..n]);
      if s[n] == '_' && all != "" {
        var k :| 0 <= k < n && Digit(s[..n][k]);
        assert Digit(s[k]);
      }
    }
  }

  lemma {:induction false} DigitsAreTheirOwn(s: string)
    requires Digits(s)
    ensures NoUnderscores(s) == s
  {
    if s != "" { DigitsAreTheirOwn(s[..|s| - 1]); }
  }

  lemma {:induction false} PaddingIsNothing(pad: string, s: string)
    requires (forall k :: 0 <= k < |pad| ==> Padding(pad[k])) && Numeral(s)
    ensures Numeral(pad + s) && ValueOf(pad + s) == ValueOf(s)
    decreases |s|, |pad|
  {
    var t := pad + s;
    if s != "" {
      assert t[..|t| - 1] == pad + s[..|s| - 1];
      PaddingIsNothing(pad, s[..|s| - 1]);
    } else if pad != "" {
      assert t == pad && t[..|t| - 1] == pad[..|pad| - 1] + s;
      PaddingIsNothing(pad[..|pad| - 1], s);
    }
  }

  lemma {:induction false} FirstSurvives(s: string)
    requires s != "" && s[0] != '_'
    ensures NoUnderscores(s) != "" && NoUnderscores(s)[0] == s[0]
  {
    if |s| > 1 { FirstSurvives(s[..|s| - 1]); }
  }

  // ----- Points -----------------------------------------------------------------------------------

  lemma PointIs(s: string, p: nat)
    requires p <= |s| && (p < |s| ==> s[p] == '.') && forall k :: 0 <= k < p ==> s[k] != '.'
    ensures Point(s, 0) == p
  {
  }

  lemma NoPoint(s: string)
    requires Numeral(s)
    ensures Point(s, 0) == |s|
  {
    PointIs(s, |s|);
  }

  /** A numeral left by `PointStripped` is what stood before the point. */
  lemma StrippedNumeral(r: string)
    requires Numeral(PointStripped(r)) && HasDigit(PointStripped(r))
    ensures WholeNumber(r) && PointStripped(r) == r[..Point(r, 0)]
  {
    var p := Point(r, 0);
    if !(p + 1 < |r| && AllZeros(r[p + 1..])) {
      NoPoint(r);
      assert r[..p] == r;
    }
  }

  /** Zeros and underscores in front change nothing. */
  lemma PaddedWhole(body: string, i: nat)
    requires i <= |body| && (forall k :: 0 <= k < i ==> Padding(body[k])) && WholeNumber(body[i..])
    ensures WholeNumber(body)
    ensures ValueOf(body[..Point(body, 0)]) == ValueOf(body[i..][..Point(body[i..], 0)])
  {
    hide ValueOf, Point, Padding;
    var r := body[i..];
    var q := Point(r, 0);
    PointMoves(body, i);
    assert body[..i + q] == body[..i] + r[..q];
    PaddingIsNothing(body[..i], r[..q]);
    var d :| 0 <= d < q && Digit(r[..q][d]);
    assert body[..i + q][i + d] == r[..q][d];
    assert q < |r| ==> body[i + q + 1..] == r[q + 1..];
  }

  lemma {:induction false} PointShifts(s: string, i: nat, j: nat)
    requires i + j <= |s|
    ensures Point(s, i + j) == i + Point(s[i..], j)
    decreases |s| - j
  {
    if i + j < |s| {
      assert s[i..][j] == s[i + j];
      if s[i + j] != '.' { PointShifts(s, i, j + 1); }
    }
  }

  lemma PointMoves(body: string, i: nat)
    requires i <= |body| && forall k :: 0 <= k < i ==> Padding(body[k])
    ensures Point(body, 0) == i + Point(body[i..], 0)
  {
    PointSkips(body, i);
    PointShifts(body, i, 0);
  }

  lemma {:induction false} PointSkips(s: string, i: nat)
    requires i <= |s| && forall k :: 0 <= k < i ==> Padding(s[k])
    ensures Point(s, 0) == Point(s, i)
  {
    if i > 0 {
      PointSkips(s, i - 1);
      assert Padding(s[i - 1]);
    }
  }

  // ----- str_as_int ---------------------------------------------------------------------------------

  /** The family `str_as_int` misreads: leading zeros, with or without underscores, then a minus. */
  predicate ZerosThenMinus(s: string) {
    var (_, body) := Unsigned(Trim(s));
    && Starts(body, '0')
    && var e := PaddingEnd(body, 1); e < |body| && body[e] == '-'
  }

  lemma ZerosThenMinusDenotesNothing(s: string)
    requires ZerosThenMinus(s)
    ensures Denoted(s).None?
  {
    var (_, body) := Unsigned(Trim(s));
    var e, p := PaddingEnd(body, 1), Point(body, 0);
    assert forall k :: 0 <= k <= e ==> body[k] != '.';
    assert p > e;
    assert body[..p][e] == '-';
  }

  /** Stripping removes padding; it stops at a minus only in that family. */
  lemma StripsPadding(body: string) returns (i: nat)
    requires ZerosStripped(body).Some? && !Starts(body, '-')
    ensures i <= |body| && ZerosStripped(body).value == body[i..] && forall k :: 0 <= k < i ==> Padding(body[k])
    ensures Starts(body[i..], '-') ==> Starts(body, '0') && PaddingEnd(body, 1) == i < |body| && body[i] == '-'
  {
    i := 0;
    if body[0] == '0' {
      var e := PaddingEnd(body, 1);
      i := if e == |body| then |body| - 1 else if body[e] == '.' then e - 1 else e;
      assert Padding(body[0]);
    }
  }

  /** What the cleaned text `y` was made from. */
  lemma PlainReads(t: string, y: string)
    requires y == t || UnderscoresStripped(t) == Some(y)
    requires Digits(y) && y != ""
    ensures Numeral(t) && HasDigit(t) && ValueOf(t) == Decimal.Value(y)
  {
    if y == t { DigitsAreTheirOwn(t); }
    WithoutUnderscoresIsNumeral(t);
    ValueWithoutUnderscores(t);
  }

  lemma CleanedReads(s: string)
    requires Cleaned(s).Some? && JiterInt(Cleaned(s).value).Ok? && !ZerosThenMinus(s)
    ensures Denoted(s).Some? && JiterInt(Cleaned(s).value).value == OfInt(Denoted(s).value)
  {
    hide Trim, JiterInt, WholeNumber, PointStripped, ZerosStripped, UnderscoresStripped, ValueOf, OfInt, Decimal.Value;
    var (negative, body) := Unsigned(Trim(s));
    var i := StripsPadding(body);
    var r := body[i..];
    var t := PointStripped(r);
    var plain := UnderscoresStripped(t);
    var y := if plain.Some? then plain.value else t;
    var sign := if negative then "-" else "";
    assert Cleaned(s) == Some(sign + y);
    JiterReads(sign + y);
    if negative {
      assert (sign + y)[1..] == y;
    } else {
      assert sign + y == y;
      assert !Starts(y, '-') by { if Starts(y, '-') { MinusComesFrom(r, y); } }
    }
    PlainReads(t, y);
    StrippedNumeral(r);
    PaddedWhole(body, i);
  }

  lemma MinusComesFrom(r: string, y: string)
    requires var t := PointStripped(r); y == (if UnderscoresStripped(t).Some? then UnderscoresStripped(t).value else t)
    requires Starts(y, '-')
    ensures Starts(r, '-')
  {
    var t := PointStripped(r);
    if UnderscoresStripped(t).Some? { FirstSurvives(t); }
  }

  lemma DigitsAreWhole(d: string)
    requires Digits(d) && d != ""
    ensures WholeNumber(d) && d[..Point(d, 0)] == d && ValueOf(d) == Decimal.Value(d)
  {
    hide Point;
    assert Digit(d[0]);
    NoPoint(d);
    assert d[..|d|] == d;
    DigitsAreTheirOwn(d);
    ValueWithoutUnderscores(d);
  }

  lemma SignedDigitsTrim(s: string)
    requires var digits := if Starts(s, '-') then s[1..] else s; digits != "" && Digits(digits)
    ensures Trim(s) == s && Unsigned(s) == (Starts(s, '-'), if Starts(s, '-') then s[1..] else s)
  {
    var digits := if Starts(s, '-') then s[1..] else s;
    assert digits[|digits| - 1] == s[|s| - 1];
    assert Digit(digits[0]) && Digit(digits[|digits| - 1]);
    assert TrimStart(s) == s && TrimEnd(s) == s;
  }

  lemma DirectReads(s: string)
    requires JiterInt(s).Ok?
    ensures !ZerosThenMinus(s) && Denoted(s).Some? && JiterInt(s).value == OfInt(Denoted(s).value)
  {
    hide JiterInt, OfInt, Trim, Unsigned, WholeNumber, ValueOf, Decimal.Value, PaddingEnd, Point;
    JiterReads(s);
    SignedDigitsTrim(s);
    DigitsAreWhole(if Starts(s, '-') then s[1..] else s);
  }

  /** An accepted string gives the integer it denotes, or its sign beyond 64 bits, unless it
      has zeros before a minus; those denote nothing. */
  lemma CoercionIsDenotation(s: string)
    requires StrAsInt(s).Ok?
    ensures Denoted(s).Some? <==> !ZerosThenMinus(s)
    ensures Denoted(s).Some? ==> StrAsInt(s).value == OfInt(Denoted(s).value)
  {
    hide JiterInt, Cleaned, Denoted, ZerosThenMinus;
    if JiterInt(s).Ok? {
      DirectReads(s);
    } else if !ZerosThenMinus(s) {
      CleanedReads(s);
    } else {
      ZerosThenMinusDenotesNothing(s);
    }
  }

  // ----- Printing -----------------------------------------------------------------------------------

  /** `i64::to_string`. */
  function Print(v: int): string {
    if v < 0 then "-" + Decimal.Write(-v) else Decimal.Write(v)
  }

  lemma WrittenIsShort(n: nat)
    requires n <= 0x8000_0000_0000_0000
    ensures |Decimal.Write(n)| < MAX_INT_CHARS
  {
    assert Decimal.Power10(4) == 10_000;
    assert Decimal.Power10(8) == 100_000_000;
    assert Decimal.Power10(12) == 1_000_000_000_000;
    assert Decimal.Power10(16) == 10_000_000_000_000_000;
    assert Decimal.Power10(20) == 100_000_000_000_000_000_000;
    Decimal.SignificantLength(n, 20);
  }

  lemma PrintRoundTrip(v: int)
    requires I64_MIN <= v <= I64_MAX
    ensures StrAsInt(Print(v)) == Ok(Small(v))
  {
    PrintedIsJiter(v);
  }

  lemma PrintedIsJiter(v: int)
    requires I64_MIN <= v <= I64_MAX
    ensures JiterInt(Print(v)) == Ok(Small(v))
  {
    var n := if v < 0 then -v else v;
    var digits := Decimal.Write(n);
    WrittenIsShort(n);
    Decimal.ValueOfWritten(n);
    JiterTakes(v < 0, digits);
    assert "" + digits == digits;
  }

  /** A minus and digits, which no cleaning changes. */
  predicate Negative(t: string) { |t| > 1 && t[0] == '-' && forall k :: 1 <= k < |t| ==> Digit(t[k]) }

  lemma NegativeIsClean(t: string)
    requires Negative(t)
    ensures PointStripped(t) == t && UnderscoresStripped(t).None?
  {
    PointIs(t, |t|);
  }

  lemma ZeroThenNegativeTrims(t: string)
    requires Negative(t)
    ensures var s := "0" + t;
            Trim(s) == s && Unsigned(s) == (false, s) && PaddingEnd(s, 1) == 1 && ZerosStripped(s) == Some(t)
  {
    var s := "0" + t;
    assert s[1] == '-' && s[1..] == t && s[|s| - 1] == t[|t| - 1];
    assert TrimStart(s) == s && TrimEnd(s) == s;
  }

  lemma ZeroThenNegativeCleans(t: string)
    requires Negative(t)
    ensures Cleaned("0" + t) == Some(t) && ZerosThenMinus("0" + t)
  {
    hide Trim, Unsigned, ZerosStripped, PointStripped, UnderscoresStripped;
    var s := "0" + t;
    assert s[0] == '0' && s[1] == '-';
    ZeroThenNegativeTrims(t);
    NegativeIsClean(t);
    assert "" + t == t;
  }

  /** The family is accepted: a zero before any negative number is dropped and the minus kept,
      so that `0-5` is read as -5. */
  lemma ZeroThenNegativeIsAccepted(v: int)
    requires I64_MIN <= v < 0
    ensures StrAsInt("0" + Print(v)) == Ok(Small(v)) && Denoted("0" + Print(v)).None?
  {
    hide Decimal.Write, Denoted, Cleaned, ZerosThenMinus;
    var t := Print(v);
    var s := "0" + t;
    assert s[0] == '0' && |s| > 1;
    assert JiterInt(s) == Err(Other);
    ZeroThenNegativeCleans(t);
    PrintedIsJiter(v);
    ZerosThenMinusDenotesNothing(s);
  }

  // ----- The two together ------------------------------------------------------------------------------

  /** What `int()` accepts denotes an integer, and only the least 64-bit one comes back as `Big`. */
  lemma PythonIsDenotation(s: string)
    requires PythonValue(s).Some?
    ensures Denoted(s).Some?
    ensures PythonValue(s).value == if Denoted(s).value == I64_MIN then Big(true) else OfInt(Denoted(s).value)
  {
    hide Trim;
    var (negative, digits) := Unsigned(Trim(s));
    assert digits[..|digits|] == digits;
    PointIs(digits, |digits|);
    assert Digit(digits[0]);
  }

  /** A string both accept is read alike, except for that one. */
  lemma CoercionsAgree(s: string)
    requires StrAsInt(s).Ok? && PythonValue(s).Some?
    ensures StrAsInt(s).value == PythonValue(s).value <==> Denoted(s) != Some(I64_MIN)
    ensures Denoted(s) == Some(I64_MIN) ==> StrAsInt(s).value == Small(I64_MIN) && PythonValue(s).value == Big(true)
  {
    hide StrAsInt, PythonValue, Denoted;
    PythonIsDenotation(s);
    CoercionIsDenotation(s);
  }

  /** The input on which they differ. */
  lemma LeastIsTooBig()
    ensures PythonValue(Print(I64_MIN)) == Some(Big(true)) && StrAsInt(Print(I64_MIN)) == Ok(Small(I64_MIN))
  {
    hide StrAsInt, Trim, Decimal.Write;
    var s, digits := Print(I64_MIN), Decimal.Write(-I64_MIN);
    PrintRoundTrip(I64_MIN);
    assert s[1..] == digits;
    SignedDigitsTrim(s);
    Decimal.ValueOfWritten(-I64_MIN);
    DigitsAreWhole(digits);
  }
}
