/** The scanner as the program runs it: moving indices and a depth counter. */
module JsonDecoder {
  import opened Wrappers
  import opened JsonGrammar
  import opened JsonScanner
  import JsonAcceptance
  import JsonErrorMeaning

  class Decoder {
    const s: string
    var depth: nat

    constructor (text: string)
      ensures s == text && depth == 0
    {
      s := text;
      depth := 0;
    }

    method SkipSpace(start: nat) returns (i: nat)
      requires start <= |s|
      ensures i == SkipWs(s, start)
    {
      i := start;
      while i < |s| && IsWs(s[i])
        invariant start <= i <= |s|
        invariant SkipWs(s, start) == SkipWs(s, i)
      {
        i := i + 1;
      }
    }

    method SkipDigits(start: nat) returns (i: nat)
      requires start <= |s|
      ensures i == Digits(s, start)
    {
      i := start;
      while DigitAt(s, i)
        invariant start <= i <= |s|
        invariant Digits(s, start) == Digits(s, i)
        decreases |s| - i
      {
        i := i + 1;
      }
    }

    method Number(start: nat) returns (r: Scan)
      requires start < |s|
      ensures r == ScanNumber(s, start)
    {
      var idx := start;
      if s[idx] == '-' {
        idx := idx + 1;
        if idx >= |s| {
          return Err(Value(start));
        }
      }
      if '1' <= s[idx] <= '9' {
        idx := SkipDigits(idx + 1);
      } else if s[idx] == '0' {
        idx := idx + 1;
      } else {
        return Err(Value(start));
      }
      idx := FractionFrom(idx);
      idx := ExponentFrom(idx);
      r := Ok(idx);
    }

    method FractionFrom(start: nat) returns (idx: nat)
      requires start <= |s|
      ensures idx == Fraction(s, start)
    {
      idx := start;
      // A point with no digit after it does not belong to the number.
      if idx + 1 < |s| && s[idx] == '.' && DigitAt(s, idx + 1) {
        idx := SkipDigits(idx + 2);
      }
    }

    method ExponentFrom(start: nat) returns (idx: nat)
      requires start <= |s|
      ensures idx == Exponent(s, start)
    {
      idx := start;
      if idx + 1 < |s| && (s[idx] == 'e' || s[idx] == 'E') {
        idx := idx + 1;
        if idx + 1 < |s| && (s[idx] == '-' || s[idx] == '+') {
          idx := idx + 1;
        }
        idx := SkipDigits(idx);
        // An exponent needs a digit; without one the number ends before it.
        if !IsDigit(s[idx - 1]) {
          idx := start;
        }
      }
    }

    /** The value of the four hexadecimal digits from `start`, or nothing at
        the first character that is not one. */
    method ReadHex4(start: nat) returns (code: Option<nat>)
      requires start + 4 <= |s|
      ensures code == if Hex4At(s, start) then Some(Hex4Value(s, start)) else None
    {
      var next, value := start, 0;
      while next < start + 4
        invariant start <= next <= start + 4
        invariant next > start ==> IsHex(s[start])
        invariant next > start + 1 ==> IsHex(s[start + 1])
        invariant next > start + 2 ==> IsHex(s[start + 2])
        invariant next > start + 3 ==> IsHex(s[start + 3])
        invariant next == start ==> value == 0
        invariant next == start + 1 ==> value == HexValue(s[start])
        invariant next == start + 2 ==> value == HexValue(s[start]) * 16 + HexValue(s[start + 1])
        invariant next == start + 3 ==>
                    value == (HexValue(s[start]) * 16 + HexValue(s[start + 1])) * 16 + HexValue(s[start + 2])
        invariant next == start + 4 ==> Hex4At(s, start) && value == Hex4Value(s, start)
      {
        if !IsHex(s[next]) {
          return None;
        }
        value := value * 16 + HexValue(s[next]);
        next := next + 1;
      }
      code := Some(value);
    }

    method ScanStringFrom(start: nat) returns (r: Scan)
      requires 0 < start <= |s|
      ensures r == ScanString(s, start, start - 1)
    {
      var end, begin := start, start - 1;
      while true
        invariant start <= end <= |s|
        invariant ScanString(s, start, begin) == ScanString(s, end, begin)
        decreases |s| - end
      {
        var next := end;
        while next < |s| && s[next] != '"' && s[next] != '\\'
          invariant end <= next <= |s|
          invariant ScanString(s, end, begin) == ScanString(s, next, begin)
        {
          if s[next] < ' ' {
            return Err(Msg(ControlCharacter, next));
          }
          next := next + 1;
        }
        if next >= |s| {
          return Err(Msg(UnterminatedString, begin));
        }
        if s[next] == '"' {
          return Ok(next + 1);
        }
        next := next + 1;
        if next == |s| {
          return Err(Msg(UnterminatedString, begin));
        }
        if s[next] != 'u' {
          end := next + 1;
          if !IsSimpleEscape(s[next]) {
            return Err(Msg(InvalidEscape, end - 2));
          }
          continue;
        }
        next := next + 1;
        end := next + 4;
        if end >= |s| {
          return Err(Msg(InvalidUnicodeEscape, next - 1));
        }
        var code := ReadHex4(next);
        if code.None? {
          return Err(Msg(InvalidUnicodeEscape, end - 5));
        }
        next := end;
        if 0xD800 <= code.value < 0xDC00 && end + 6 < |s| && s[next] == '\\' && s[next + 1] == 'u' {
          next := next + 2;
          end := end + 6;
          var low := ReadHex4(next);
          if low.None? {
            return Err(Msg(InvalidUnicodeEscape, end - 5));
          }
          if !(0xDC00 <= low.value < 0xE000) {
            end := end - 6;
          }
        }
      }
    }

    method ScanOnce(idx: nat) returns (r: Scan)
      requires idx <= |s|
      modifies this
      ensures r == ScanValue(s, idx, old(depth))
      ensures depth >= old(depth) && (r.Ok? ==> depth == old(depth))
      decreases |s| - idx, 0
    {
      if idx >= |s| {
        return Err(Value(idx));
      }
      var c := s[idx];
      if c == '"' {
        r := ScanStringFrom(idx + 1);
        return;
      }
      if c == '{' || c == '[' {
        depth := depth + 1;
        if depth > MAX_DEPTH {
          return Err(TooDeep);
        }
        if c == '{' {
          r := ObjectFrom(idx + 1);
        } else {
          r := ArrayFrom(idx + 1);
        }
        depth := depth - 1;
        return;
      }
      var word := WordLength(s, idx);
      if word != 0 {
        return Ok(idx + word);
      }
      r := Number(idx);
    }

    method AfterItemFrom(e: nat, close: char) returns (r: Step)
      requires e <= |s|
      ensures r == AfterItem(s, e, close)
    {
      var idx := SkipSpace(e);
      if CharAt(s, idx, close) {
        return Closed(idx + 1);
      }
      if !CharAt(s, idx, ',') {
        return Bad(Msg(CommaDelimiter, idx));
      }
      idx := SkipSpace(idx + 1);
      r := Next(idx);
    }

    method MemberHeadFrom(start: nat) returns (r: Scan)
      requires start <= |s|
      ensures r == MemberHead(s, start)
    {
      if !CharAt(s, start, '"') {
        return Err(Msg(PropertyName, start));
      }
      r := ScanStringFrom(start + 1);
      if r.Err? { return; }
      var idx := SkipSpace(r.value);
      if !CharAt(s, idx, ':') {
        return Err(Msg(ColonDelimiter, idx));
      }
      idx := SkipSpace(idx + 1);
      r := Ok(idx);
    }

    method ObjectFrom(start: nat) returns (r: Scan)
      requires start <= |s|
      modifies this
      ensures r == ScanObject(s, start, old(depth))
      ensures depth >= old(depth) && (r.Ok? ==> depth == old(depth))
      decreases |s| - start, 1
    {
      var idx := SkipSpace(start);
      if CharAt(s, idx, '}') {
        return Ok(idx + 1);
      }
      while true
        invariant start <= idx <= |s|
        invariant depth == old(depth)
        invariant ScanObject(s, start, depth) == ScanMembers(s, idx, depth)
        decreases |s| - idx
      {
        r := MemberHeadFrom(idx);
        if r.Err? { return; }
        r := ScanOnce(r.value);
        if r.Err? { return; }
        var step := AfterItemFrom(r.value, '}');
        match step {
          case Closed(end) => return Ok(end);
          case Bad(stop) => return Err(stop);
          case Next(j) => idx := j;
        }
      }
    }

    method ArrayFrom(start: nat) returns (r: Scan)
      requires start <= |s|
      modifies this
      ensures r == ScanArray(s, start, old(depth))
      ensures depth >= old(depth) && (r.Ok? ==> depth == old(depth))
      decreases |s| - start, 1
    {
      var idx := SkipSpace(start);
      if CharAt(s, idx, ']') {
        return Ok(idx + 1);
      }
      while true
        invariant start <= idx <= |s|
        invariant depth == old(depth)
        invariant ScanArray(s, start, depth) == ScanElems(s, idx, depth)
        decreases |s| - idx
      {
        r := ScanOnce(idx);
        if r.Err? { return; }
        var step := AfterItemFrom(r.value, ']');
        match step {
          case Closed(end) => return Ok(end);
          case Bad(stop) => return Err(stop);
          case Next(j) => idx := j;
        }
      }
    }
  }

  /** The program's entry point: the error `json.loads` would raise, if any. */
  method PythonDecodeError(text: string) returns (r: Option<DecodeError>)
    ensures r == DecodeErrorOf(text)
    ensures r.None? <==> IsDocument(text, MAX_DEPTH)
    ensures r.Some? ==> JsonErrorMeaning.Explains(text, r.value)
  {
    hide JsonErrorMeaning.Explains;
    JsonAcceptance.AcceptsExactlyTheGrammar(text);
    JsonErrorMeaning.ErrorExplained(text);
    var d := new Decoder(text);
    var start := d.SkipSpace(0);
    var scan := d.ScanOnce(start);
    match scan {
      case Err(Value(p)) => return Some(Invalid(ExpectingValue, p));
      case Err(Msg(m, p)) => return Some(Invalid(m, p));
      case Err(TooDeep) => return Some(NestedTooDeep);
      case Ok(_) =>
    }
    var end := d.SkipSpace(scan.value);
    if end != |text| {
      return Some(Invalid(ExtraData, end));
    }
    return None;
  }
}
