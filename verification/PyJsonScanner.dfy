/** The scanner's answers, as functions of the text and a position. */
module JsonScanner {
  import opened Wrappers
  import opened JsonGrammar

  const MAX_DEPTH := 900

  datatype Message =
    | ControlCharacter | UnterminatedString | InvalidEscape | InvalidUnicodeEscape
    | PropertyName | ColonDelimiter | CommaDelimiter | ExpectingValue | ExtraData

  /** Why a scan stopped; `Value` is the "no value here" that the caller words. */
  datatype Stop = Value(at: nat) | Msg(msg: Message, at: nat) | TooDeep

  datatype DecodeError = Invalid(msg: Message, pos: nat) | NestedTooDeep

  type Scan = Result<nat, Stop>

  /** What every scan promises: progress to an end inside the text, or a
      position inside the text. */
  predicate Bounded(r: Scan, i: nat, n: nat) {
    match r
    case Ok(e) => i < e <= n
    case Err(Value(p)) => p <= n
    case Err(Msg(_, p)) => p <= n
    case Err(TooDeep) => true
  }

  predicate CharAt(s: string, i: nat, c: char) { i < |s| && s[i] == c }

  predicate DigitAt(s: string, i: nat) { i < |s| && IsDigit(s[i]) }

  predicate At(s: string, i: nat, word: string) {
    i + |word| <= |s| && s[i..i + |word|] == word
  }

  function SkipWs(s: string, i: nat): (r: nat)
    requires i <= |s|
    ensures i <= r <= |s|
    ensures forall k :: i <= k < r ==> IsWs(s[k])
    ensures r < |s| ==> !IsWs(s[r])
    decreases |s| - i
  {
    if i < |s| && IsWs(s[i]) then SkipWs(s, i + 1) else i
  }

  function Digits(s: string, i: nat): (r: nat)
    requires i <= |s|
    ensures i <= r <= |s|
    ensures forall k :: i <= k < r ==> IsDigit(s[k])
    ensures r < |s| ==> !IsDigit(s[r])
    decreases |s| - i
  {
    if DigitAt(s, i) then Digits(s, i + 1) else i
  }

  function Fraction(s: string, i: nat): (r: nat)
    requires i <= |s|
    ensures i <= r <= |s|
  {
    if i + 1 < |s| && s[i] == '.' && IsDigit(s[i + 1]) then Digits(s, i + 2) else i
  }

  function Exponent(s: string, i: nat): (r: nat)
    requires i <= |s|
    ensures i <= r <= |s|
  {
    if i + 1 < |s| && (s[i] == 'e' || s[i] == 'E') then
      var j := if i + 2 < |s| && (s[i + 1] == '-' || s[i + 1] == '+') then i + 2 else i + 1;
      var k := Digits(s, j);
      if IsDigit(s[k - 1]) then k else i
    else i
  }

  function ScanNumber(s: string, start: nat): (r: Scan)
    requires start < |s|
    ensures Bounded(r, start, |s|)
  {
    var i := if s[start] == '-' then start + 1 else start;
    if i < |s| && '1' <= s[i] <= '9' then Ok(Exponent(s, Fraction(s, Digits(s, i + 1))))
    else if i < |s| && s[i] == '0' then Ok(Exponent(s, Fraction(s, i + 1)))
    else Err(Value(start))
  }

  predicate Hex4At(s: string, i: nat) {
    i + 4 <= |s| && IsHex(s[i]) && IsHex(s[i + 1]) && IsHex(s[i + 2]) && IsHex(s[i + 3])
  }

  function HexValue(c: char): (v: nat)
    requires IsHex(c)
    ensures v < 16
  {
    if '0' <= c <= '9' then c as int - '0' as int
    else if 'a' <= c <= 'f' then c as int - 'a' as int + 10
    else c as int - 'A' as int + 10
  }

  function Hex4Value(s: string, i: nat): (v: nat)
    requires Hex4At(s, i)
    ensures v < 0x10000
  {
    ((HexValue(s[i]) * 16 + HexValue(s[i + 1])) * 16 + HexValue(s[i + 2])) * 16 + HexValue(s[i + 3])
  }

  /** A high surrogate at `i` with room for, and the start of, a second escape. */
  predicate PairAhead(s: string, i: nat)
    requires Hex4At(s, i)
  {
    0xD800 <= Hex4Value(s, i) < 0xDC00 && i + 10 < |s| && s[i + 4] == '\\' && s[i + 5] == 'u'
  }

  /** Scan a literal from `i`, just past its opening quote at `begin` or
      somewhere inside it. A `\u` escape of a high surrogate reads the escape
      after it as well. */
  function ScanString(s: string, i: nat, begin: nat): (r: Scan)
    requires begin < i <= |s|
    ensures Bounded(r, i, |s|)
    decreases |s| - i
  {
    if i == |s| then Err(Msg(UnterminatedString, begin))
    else if s[i] == '"' then Ok(i + 1)
    else if s[i] == '\\' then
      if i + 1 == |s| then Err(Msg(UnterminatedString, begin))
      else if s[i + 1] != 'u' then
        if IsSimpleEscape(s[i + 1]) then ScanString(s, i + 2, begin) else Err(Msg(InvalidEscape, i))
      else if i + 6 >= |s| || !Hex4At(s, i + 2) then Err(Msg(InvalidUnicodeEscape, i + 1))
      else if PairAhead(s, i + 2) then
        if !Hex4At(s, i + 8) then Err(Msg(InvalidUnicodeEscape, i + 7))
        else if 0xDC00 <= Hex4Value(s, i + 8) < 0xE000 then ScanString(s, i + 12, begin)
        else ScanString(s, i + 6, begin)
      else ScanString(s, i + 6, begin)
    else if s[i] < ' ' then Err(Msg(ControlCharacter, i))
    else ScanString(s, i + 1, begin)
  }

  /** The word a character can start: JSON's three and Python's three. */
  function WordFor(c: char): string {
    match c
    case 'n' => "null"
    case 't' => "true"
    case 'f' => "false"
    case 'N' => "NaN"
    case 'I' => "Infinity"
    case '-' => "-Infinity"
    case _ => ""
  }

  /** The length of the word at `i`, or zero. */
  function WordLength(s: string, i: nat): (n: nat)
    requires i < |s|
    ensures n != 0 ==> i + n <= |s|
  {
    var w := WordFor(s[i]);
    if At(s, i, w) then |w| else 0
  }

  /** What follows an element or a member: the closing bracket, a comma and
      the next one, or neither. */
  datatype Step = Closed(end: nat) | Next(at: nat) | Bad(stop: Stop)

  function AfterItem(s: string, e: nat, close: char): (r: Step)
    requires e <= |s|
    ensures r.Closed? ==> e < r.end <= |s|
    ensures r.Next? ==> e < r.at <= |s|
    ensures r.Bad? ==> r.stop.Msg? && r.stop.at <= |s|
  {
    var j := SkipWs(s, e);
    if CharAt(s, j, close) then Closed(j + 1)
    else if !CharAt(s, j, ',') then Bad(Msg(CommaDelimiter, j))
    else Next(SkipWs(s, j + 1))
  }

  /** Scan a member's name and colon; the answer is where its value starts. */
  function MemberHead(s: string, i: nat): (r: Scan)
    requires i <= |s|
    ensures Bounded(r, i, |s|)
  {
    if !CharAt(s, i, '"') then Err(Msg(PropertyName, i))
    else
      match ScanString(s, i + 1, i)
      case Err(e) => Err(e)
      case Ok(k) =>
        var c := SkipWs(s, k);
        if !CharAt(s, c, ':') then Err(Msg(ColonDelimiter, c)) else Ok(SkipWs(s, c + 1))
  }

  function ScanValue(s: string, i: nat, depth: nat): (r: Scan)
    requires i <= |s|
    ensures Bounded(r, i, |s|)
    decreases |s| - i, 0
  {
    if i == |s| then Err(Value(i))
    else if s[i] == '"' then ScanString(s, i + 1, i)
    else if s[i] == '{' then
      if depth + 1 > MAX_DEPTH then Err(TooDeep) else ScanObject(s, i + 1, depth + 1)
    else if s[i] == '[' then
      if depth + 1 > MAX_DEPTH then Err(TooDeep) else ScanArray(s, i + 1, depth + 1)
    else if WordLength(s, i) != 0 then Ok(i + WordLength(s, i))
    else ScanNumber(s, i)
  }

  function ScanArray(s: string, i: nat, depth: nat): (r: Scan)
    requires i <= |s|
    ensures Bounded(r, i, |s|)
    decreases |s| - i, 2
  {
    var j := SkipWs(s, i);
    if CharAt(s, j, ']') then Ok(j + 1) else ScanElems(s, j, depth)
  }

  function ScanElems(s: string, i: nat, depth: nat): (r: Scan)
    requires i <= |s|
    ensures Bounded(r, i, |s|)
    decreases |s| - i, 1
  {
    match ScanValue(s, i, depth)
    case Err(e) => Err(e)
    case Ok(e) =>
      match AfterItem(s, e, ']')
      case Closed(end) => Ok(end)
      case Bad(stop) => Err(stop)
      case Next(j) => ScanElems(s, j, depth)
  }

  function ScanObject(s: string, i: nat, depth: nat): (r: Scan)
    requires i <= |s|
    ensures Bounded(r, i, |s|)
    decreases |s| - i, 2
  {
    var j := SkipWs(s, i);
    if CharAt(s, j, '}') then Ok(j + 1) else ScanMembers(s, j, depth)
  }

  function ScanMembers(s: string, i: nat, depth: nat): (r: Scan)
    requires i <= |s|
    ensures Bounded(r, i, |s|)
    decreases |s| - i, 1
  {
    match MemberHead(s, i)
    case Err(e) => Err(e)
    case Ok(v) =>
      match ScanValue(s, v, depth)
      case Err(e) => Err(e)
      case Ok(e) =>
        match AfterItem(s, e, '}')
        case Closed(end) => Ok(end)
        case Bad(stop) => Err(stop)
        case Next(j) => ScanMembers(s, j, depth)
  }

  function DecodeErrorOf(text: string): (r: Option<DecodeError>)
    ensures r.Some? && r.value.Invalid? ==> r.value.pos <= |text|
  {
    match ScanValue(text, SkipWs(text, 0), 0)
    case Err(Value(p)) => Some(Invalid(ExpectingValue, p))
    case Err(Msg(m, p)) => Some(Invalid(m, p))
    case Err(TooDeep) => Some(NestedTooDeep)
    case Ok(e) =>
      var j := SkipWs(text, e);
      if j != |text| then Some(Invalid(ExtraData, j)) else None
  }
}
