/**
 * The two integer coercions (backend-rs/src/pyint.rs): the one Pydantic applies to
 * strings, and the builtin `int()`. Both are compared with the integer a string denotes.
 */
module PyInt {
  import opened Wrappers
  import Decimal

  const I64_MIN: int := -0x8000_0000_0000_0000
  const I64_MAX: int := 0x7FFF_FFFF_FFFF_FFFF

  /** An integer, or only its sign when it does not fit 64 bits. */
  datatype Num = Small(value: int) | Big(negative: bool)

  function OfInt(n: int): Num { if I64_MIN <= n <= I64_MAX then Small(n) else Big(n < 0) }

  predicate Digit(c: char) { '0' <= c <= '9' }
  predicate Digits(s: string) { forall k :: 0 <= k < |s| ==> Digit(s[k]) }

  predicate Starts(s: string, c: char) { s != "" && s[0] == c }

  /** Characters with the Unicode property White_Space. */
  predicate White(c: char) {
    var n := c as int;
    || 9 <= n <= 13 || n == 32 || n == 0x85 || n == 0xA0 || n == 0x1680 || 0x2000 <= n <= 0x200A
    || n == 0x2028 || n == 0x2029 || n == 0x202F || n == 0x205F || n == 0x3000
  }

  function TrimStart(s: string): (r: string)
    ensures r == "" || !White(r[0])
  {
    if s != "" && White(s[0]) then TrimStart(s[1..]) else s
  }

  function TrimEnd(s: string): string {
    if s != "" && White(s[|s| - 1]) then TrimEnd(s[..|s| - 1]) else s
  }

  function Trim(s: string): string { TrimEnd(TrimStart(s)) }

  // ----- What a string denotes -------------------------------------------------------------

  /** Leaving out one leading sign; true for a minus. */
  function Unsigned(s: string): (bool, string) {
    if Starts(s, '-') then (true, s[1..]) else if Starts(s, '+') then (false, s[1..]) else (false, s)
  }

  predicate Numeral(s: string) { forall k :: 0 <= k < |s| ==> Digit(s[k]) || s[k] == '_' }

  predicate HasDigit(s: string) { exists k :: 0 <= k < |s| && Digit(s[k]) }

  /** The number written in digits, underscores apart. */
  function ValueOf(s: string): nat
    requires Numeral(s)
  {
    if s == "" then 0
    else
      var c, front := s[|s| - 1], ValueOf(s[..|s| - 1]);
      if c == '_' then front else front * 10 + (c as int - '0' as int)
  }

  /** The place of the first `.` from `i` on, or the end. */
  function Point(s: string, i: nat): (p: nat)
    requires i <= |s|
    ensures i <= p <= |s| && (p < |s| ==> s[p] == '.') && forall k :: i <= k < p ==> s[k] != '.'
    decreases |s| - i
  {
    if i == |s| || s[i] == '.' then i else Point(s, i + 1)
  }

  predicate AllZeros(s: string) { forall k :: 0 <= k < |s| ==> s[k] == '0' }

  /** A numeral, or one followed by a point and zeros only. */
  predicate WholeNumber(body: string) {
    var p := Point(body, 0);
    && Numeral(body[..p]) && HasDigit(body[..p])
    && (p < |body| ==> p + 1 < |body| && AllZeros(body[p + 1..]))
  }

  function Sign(negative: bool, n: int): int { if negative then -n else n }

  /** The integer a string denotes, if it denotes one. */
  function Denoted(s: string): Option<int> {
    var (negative, body) := Unsigned(Trim(s));
    if WholeNumber(body) then Some(Sign(negative, ValueOf(body[..Point(body, 0)]))) else None
  }

  // ----- jiter_int ---------------------------------------------------------------------------

  datatype JiterError = OutOfRange | Other

  const MAX_INT_CHARS := 4300

  function DigitsEnd(s: string, i: nat): (e: nat)
    requires i <= |s|
    ensures i <= e <= |s| && Digits(s[i..e]) && (e < |s| ==> !Digit(s[e]))
    decreases |s| - i
  {
    if i < |s| && Digit(s[i]) then
      var e := DigitsEnd(s, i + 1);
      assert s[i..e] == [s[i]] + s[i + 1..e];
      e
    else i
  }

  /** `jiter_int`: the whole text must be one JSON integer. */
  function JiterInt(s: string): Result<Num, JiterError> {
    if s == "" then Err(Other)
    else
      var negative := s[0] == '-';
      var start := if negative then 1 else 0;
      if start >= |s| || !Digit(s[start]) then Err(Other)
      else if s[start] == '0' then (if |s| == start + 1 then Ok(Small(0)) else Err(Other))
      else
        var end := DigitsEnd(s, start);
        if end - start >= 19 && end > MAX_INT_CHARS then Err(OutOfRange)
        else if end != |s| then Err(Other)
        else Ok(ParseI64(negative, s[start..]))
  }

  /** `str::parse::<i64>`, keeping the sign on overflow. */
  function ParseI64(negative: bool, digits: string): Num
    requires Digits(digits)
  {
    var n := Sign(negative, Decimal.Value(digits));
    if I64_MIN <= n <= I64_MAX then Small(n) else Big(negative)
  }

  // ----- str_as_int ----------------------------------------------------------------------------

  predicate Padding(c: char) { c == '0' || c == '_' }

  /** The end of the zeros and underscores that begin at `i`. */
  function PaddingEnd(s: string, i: nat): (e: nat)
    requires i <= |s|
    ensures i <= e <= |s| && (forall k :: i <= k < e ==> Padding(s[k])) && (e < |s| ==> !Padding(s[e]))
    decreases |s| - i
  {
    if i < |s| && Padding(s[i]) then PaddingEnd(s, i + 1) else i
  }

  /** `strip_leading_zeros`. */
  function ZerosStripped(s: string): Option<string> {
    if s == "" then None
    else if '1' <= s[0] <= '9' || s[0] == '-' then Some(s)
    else if s[0] != '0' then None
    else
      var e := PaddingEnd(s, 1);
      if e == |s| then Some(s[|s| - 1..])
      else if Digit(s[e]) || s[e] == '-' then Some(s[e..])
      else if s[e] == '.' then Some(s[e - 1..])
      else None
  }

  method StripLeadingZeros(s: string) returns (r: Option<string>)
    ensures r == ZerosStripped(s)
  {
    if s == "" { return None; }
    if s[0] != '0' {
      return if '1' <= s[0] <= '9' || s[0] == '-' then Some(s) else None;
    }
    var i := 1;
    while i < |s|
      invariant 1 <= i <= |s| && PaddingEnd(s, 1) == PaddingEnd(s, i)
    {
      var c := s[i];
      if c == '0' || c == '_' {
        i := i + 1;
      } else if '1' <= c <= '9' || c == '-' {
        return Some(s[i..]);
      } else if c == '.' {
        return Some(s[i - 1..]);
      } else {
        return None;
      }
    }
    return Some(s[|s| - 1..]);
  }

  /** `str::replace('_', "")`. */
  function NoUnderscores(s: string): (r: string)
    ensures forall k :: 0 <= k < |r| ==> r[k] != '_'
  {
    if s == "" then ""
    else NoUnderscores(s[..|s| - 1]) + (if s[|s| - 1] == '_' then "" else [s[|s| - 1]])
  }

  predicate HasUnderscore(s: string) { exists k :: 0 <= k < |s| && s[k] == '_' }
  predicate HasDouble(s: string) { exists k :: 0 <= k < |s| - 1 && s[k] == '_' && s[k + 1] == '_' }

  /** `strip_underscores`. */
  function UnderscoresStripped(s: string): Option<string> {
    if Starts(s, '_') || (s != "" && s[|s| - 1] == '_') || !HasUnderscore(s) || HasDouble(s) then None
    else Some(NoUnderscores(s))
  }

  /** A point followed by zeros only is left out. */
  function PointStripped(s: string): string {
    var p := Point(s, 0);
    if p + 1 < |s| && AllZeros(s[p + 1..]) then s[..p] else s
  }

  /** `clean_int_str`. */
  function Cleaned(original: string): Option<string> {
    var (negative, body) := Unsigned(Trim(original));
    if Starts(body, '-') || Starts(body, '+') then None
    else
      var stripped := ZerosStripped(body);
      if stripped.None? then None
      else
        var s := PointStripped(stripped.value);
        var sign := if negative then "-" else "";
        var plain := UnderscoresStripped(s);
        if plain.Some? then Some(sign + plain.value)
        else if |original| == |s| then None
        else Some(sign + s)
  }

  method CleanIntStr(original: string) returns (r: Option<string>)
    ensures r == Cleaned(original)
  {
    hide ZerosStripped, PointStripped, UnderscoresStripped, Trim;
    var s := Trim(original);
    if Starts(s, '+') {
      if Starts(s[1..], '-') { return None; }
      s := s[1..];
      if Starts(s, '+') {
        assert ZerosStripped(s).None? by { SignIsNotZero(s); }
      }
    }
    var negative := false;
    if Starts(s, '-') {
      if Starts(s[1..], '-') || Starts(s[1..], '+') { return None; }
      negative := true;
      s := s[1..];
    }
    var stripped := StripLeadingZeros(s);
    if stripped.None? { return None; }
    s := PointStripped(stripped.value);
    var sign := if negative then "-" else "";
    var plain := UnderscoresStripped(s);
    if plain.Some? { return Some(sign + plain.value); }
    if |original| == |s| { return None; }
    return Some(sign + s);
  }

  lemma SignIsNotZero(s: string)
    requires Starts(s, '+')
    ensures ZerosStripped(s).None?
  {
  }

  datatype StrIntError = Parsing | ParsingSize

  /** `str_as_int`. */
  function StrAsInt(s: string): Result<Num, StrIntError> {
    match JiterInt(s)
    case Ok(v) => Ok(v)
    case Err(OutOfRange) => Err(ParsingSize)
    case Err(Other) =>
      var cleaned := Cleaned(s);
      if cleaned.None? then Err(Parsing)
      else match JiterInt(cleaned.value)
        case Ok(v) => Ok(v)
        case Err(_) => Err(Parsing)
  }

  // ----- The builtin -----------------------------------------------------------------------------

  /** Digits with single underscores between them. */
  predicate Literal(s: string) {
    && s != "" && Numeral(s) && s[0] != '_' && s[|s| - 1] != '_'
    && forall k :: 0 < k < |s| ==> s[k - 1] != '_' || s[k] != '_'
  }

  /** The digits are parsed before the sign is applied. */
  function Negated(negative: bool, n: nat): Num {
    if n <= I64_MAX then Small(Sign(negative, n)) else Big(negative)
  }

  /** What `int()` returns. */
  function PythonValue(s: string): Option<Num> {
    var (negative, digits) := Unsigned(Trim(s));
    if Literal(digits) then Some(Negated(negative, ValueOf(digits))) else None
  }

  /** `python_int`'s variables after the first `i` characters. */
  predicate Scanned(d: string, i: nat, clean: string, previous: bool) {
    && i <= |d| && Numeral(d[..i]) && Digits(clean) && Decimal.Value(clean) == ValueOf(d[..i])
    && (i > 0 ==> d[0] != '_') && (forall k :: 0 < k < i ==> d[k - 1] != '_' || d[k] != '_')
    && (previous <==> i > 0 && d[i - 1] != '_')
  }

  lemma ScanOne(d: string, i: nat, clean: string, previous: bool)
    requires i < |d| && Scanned(d, i, clean, previous)
    ensures d[i] == '_' && previous ==> Scanned(d, i + 1, clean, false)
    ensures Digit(d[i]) ==> Scanned(d, i + 1, clean + [d[i]], true)
    ensures (d[i] == '_' && !previous) || (d[i] != '_' && !Digit(d[i])) ==> !Literal(d)
  {
    assert d[..i + 1][..i] == d[..i];
    assert (clean + [d[i]])[..|clean|] == clean;
  }

  lemma ScanAll(d: string, clean: string, previous: bool)
    requires d != "" && Scanned(d, |d|, clean, previous)
    ensures Literal(d) <==> previous
    ensures Numeral(d) && Digits(clean) && Decimal.Value(clean) == ValueOf(d)
  {
    assert d[..|d|] == d;
  }

  /** `python_int`. */
  method PythonInt(input: string) returns (r: Option<Num>)
    ensures r == PythonValue(input)
  {
    hide Trim, Literal, Scanned, ValueOf, Decimal.Value;
    var s := Trim(input);
    var (negative, digits) := Unsigned(s);
    if digits == "" {
      assert !Literal(digits) by { EmptyIsNoLiteral(); }
      return None;
    }
    var clean := "";
    var previous := false;
    assert Scanned(digits, 0, clean, previous) by { ScanNone(digits); }
    for i := 0 to |digits|
      invariant Scanned(digits, i, clean, previous)
    {
      var ch := digits[i];
      ScanOne(digits, i, clean, previous);
      if ch == '_' {
        if !previous { return None; }
        previous := false;
        continue;
      }
      if !Digit(ch) { return None; }
      clean := clean + [ch];
      previous := true;
    }
    ScanAll(digits, clean, previous);
    if !previous { return None; }
    var value := Decimal.Value(clean);
    return Some(if value <= I64_MAX then Small(Sign(negative, value)) else Big(negative));
  }

  lemma EmptyIsNoLiteral()
    ensures !Literal("")
  {
  }

  lemma ScanNone(d: string)
    ensures Scanned(d, 0, "", false)
  {
  }
}
