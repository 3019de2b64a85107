/**
 * The `json.dumps` printer (backend-rs/src/audit.rs), read back by the scanner
 * and by an independent reading of string literals.
 */
module JsonPrinter {
  import opened Wrappers
  import opened JsonGrammar
  import opened JsonScanner
  import opened JsonTheorems
  import opened JsonAcceptance

  /** A JSON value. A number is given by the text the number formatter writes. */
  datatype Json =
    | Null
    | Bool(b: bool)
    | Num(negative: bool, whole: string, fraction: string, exponent: string)
    | Str(s: string)
    | Arr(items: seq<Json>)
    | Obj(fields: seq<Field>)

  datatype Field = Field(name: string, value: Json)

  /** `json.dumps` defaults, or `separators=(",", ":")`. */
  datatype Style = Spaced | Compact

  function Gap(style: Style): string { if style == Spaced then " " else "" }

  /** Every number in the value is written as section 6 of RFC 8259 says. */
  ghost predicate NumbersOk(v: Json) {
    match v
    case Num(_, w, f, e) => WholeOk(w) && FractionOk(f) && ExponentOk(e)
    case Arr(items) => forall i :: 0 <= i < |items| ==> NumbersOk(items[i])
    case Obj(fields) => forall i :: 0 <= i < |fields| ==> NumbersOk(fields[i].value)
    case _ => true
  }

  // ----- String literals -----------------------------------------------------

  function HexDigit(n: nat): (c: char)
    requires n < 16
    ensures IsHex(c) && HexValue(c) == n && ' ' <= c <= '~'
  {
    if n < 10 then '0' + n as char else 'a' + (n - 10) as char
  }

  predicate Printable(s: string) { forall k :: 0 <= k < |s| ==> ' ' <= s[k] <= '~' }

  /** `{:04x}`. */
  function Hex4(n: nat): (h: string)
    requires n < 0x10000
    ensures |h| == 4 && IsHex(h[0]) && IsHex(h[1]) && IsHex(h[2]) && IsHex(h[3])
    ensures Printable(h)
  {
    var (a, b, c) := (n / 16, n / 16 / 16, n / 16 / 16 / 16);
    [HexDigit(c), HexDigit(b % 16), HexDigit(a % 16), HexDigit(n % 16)]
  }

  lemma Hex4Reads(n: nat)
    requires n < 0x10000
    ensures Hex4Value(Hex4(n), 0) == n
  {
    var (a, b, c) := (n / 16, n / 16 / 16, n / 16 / 16 / 16);
    assert n == 16 * a + n % 16 && a == 16 * b + a % 16 && b == 16 * c + b % 16;
  }

  predicate ChunkPrintable(k: Chunk) {
    match k
    case Plain(c) => ' ' <= c <= '~'
    case Escape(c) => ' ' <= c <= '~'
    case Unicode(h) => Printable(h)
  }

  /** The two halves of a character above U+FFFF. */
  function HighHalf(c: char): (n: nat)
    requires c as int > 0xFFFF
    ensures 0xD800 <= n < 0xDC00
  {
    0xD800 + (c as int - 0x10000) / 1024
  }

  function LowHalf(c: char): (n: nat)
    requires c as int > 0xFFFF
    ensures 0xDC00 <= n < 0xE000
  {
    0xDC00 + (c as int - 0x10000) % 1024
  }

  /** The letter of a two-character escape, if the character has one. */
  function EscapeLetter(c: char): (r: Option<char>)
    ensures r.Some? ==> IsSimpleEscape(r.value) && ' ' <= r.value <= '~'
  {
    if c == '"' || c == '\\' then Some(c)
    else if c == '\n' then Some('n')
    else if c == '\r' then Some('r')
    else if c == '\t' then Some('t')
    else if c as int == 8 then Some('b')
    else if c as int == 12 then Some('f')
    else None
  }

  function EscapeChar(c: char): (ks: seq<Chunk>)
    ensures forall i :: 0 <= i < |ks| ==> ChunkOk(ks[i]) && ChunkPrintable(ks[i])
  {
    if EscapeLetter(c).Some? then [Escape(EscapeLetter(c).value)]
    else if ' ' <= c <= '~' then [Plain(c)]
    else if c as int > 0xFFFF then [Unicode(Hex4(HighHalf(c))), Unicode(Hex4(LowHalf(c)))]
    else [Unicode(Hex4(c as int))]
  }

  function Escaped(s: string): (ks: seq<Chunk>)
    ensures forall i :: 0 <= i < |ks| ==> ChunkOk(ks[i]) && ChunkPrintable(ks[i])
  {
    if s == "" then [] else EscapeChar(s[0]) + Escaped(s[1..])
  }

  function ChunkText(c: Chunk): string { ChunkThen(c, "") }

  function ChunksText(ks: seq<Chunk>): string {
    if ks == [] then "" else ChunkText(ks[0]) + ChunksText(ks[1..])
  }

  /** The quoted text of a string. */
  function Literal(s: string): string { "\"" + ChunksText(Escaped(s)) + "\"" }

  /** How each character is written: itself if it is printable ASCII but a quote or a backslash, else by
      its short escape, else by its number in four small hexadecimal digits, once or as two halves. */
  lemma CharWritten(c: char)
    ensures ' ' <= c <= '~' && c != '"' && c != '\\' ==> Literal([c]) == "\"" + [c] + "\""
    ensures c == '"' ==> Literal([c]) == "\"\\\"\""
    ensures c == '\\' ==> Literal([c]) == "\"\\\\\""
    ensures c == '\n' ==> Literal([c]) == "\"\\n\""
    ensures c == '\r' ==> Literal([c]) == "\"\\r\""
    ensures c == '\t' ==> Literal([c]) == "\"\\t\""
    ensures c as int == 8 ==> Literal([c]) == "\"\\b\""
    ensures c as int == 12 ==> Literal([c]) == "\"\\f\""
    ensures (c > '~' && c as int < 0x10000) || (c < ' ' && c as int !in {8, 9, 10, 12, 13}) ==>
              exists h :: Literal([c]) == "\"\\u" + h + "\"" && SmallHex(h) && Hex4Value(h, 0) == c as int
    ensures c as int >= 0x10000 ==>
              exists h, l :: Literal([c]) == "\"\\u" + h + "\\u" + l + "\"" && SmallHex(h) && SmallHex(l)
  {
    if ' ' <= c <= '~' || EscapeLetter(c).Some? { ShortWritten(c); } else { LongWritten(c); }
    hide Literal;
  }

  lemma ShortWritten(c: char)
    requires ' ' <= c <= '~' || EscapeLetter(c).Some?
    ensures Literal([c]) == "\"" + (if EscapeLetter(c).Some? then ['\\', EscapeLetter(c).value] else [c]) + "\""
  {
    OneEscaped(c);
    ChunksTextOne(if EscapeLetter(c).Some? then Escape(EscapeLetter(c).value) else Plain(c));
  }

  lemma LongWritten(c: char)
    requires !(' ' <= c <= '~') && EscapeLetter(c).None?
    ensures c as int < 0x10000 ==>
              exists h :: Literal([c]) == "\"\\u" + h + "\"" && SmallHex(h) && Hex4Value(h, 0) == c as int
    ensures c as int >= 0x10000 ==>
              exists h, l :: Literal([c]) == "\"\\u" + h + "\\u" + l + "\"" && SmallHex(h) && SmallHex(l)
  {
    hide Hex4, Hex4Value;
    OneEscaped(c);
    if c as int > 0xFFFF {
      var h, l := Hex4(HighHalf(c)), Hex4(LowHalf(c));
      Hex4Small(HighHalf(c));
      Hex4Small(LowHalf(c));
      ChunksTextAppend([Unicode(h)], [Unicode(l)]);
      assert [Unicode(h), Unicode(l)] == [Unicode(h)] + [Unicode(l)];
      ChunksTextOne(Unicode(h));
      ChunksTextOne(Unicode(l));
      assert Literal([c]) == "\"\\u" + h + "\\u" + l + "\"";
    } else {
      var h := Hex4(c as int);
      Hex4Small(c as int);
      Hex4Reads(c as int);
      ChunksTextOne(Unicode(h));
      assert Literal([c]) == "\"\\u" + h + "\"";
    }
  }

  /** Four hexadecimal digits with no capital among them. */
  predicate SmallHex(h: string) { |h| == 4 && forall k :: 0 <= k < 4 ==> '0' <= h[k] <= '9' || 'a' <= h[k] <= 'f' }

  lemma Hex4Small(n: nat)
    requires n < 0x10000
    ensures SmallHex(Hex4(n))
  {
  }

  lemma OneEscaped(c: char)
    ensures Escaped([c]) == EscapeChar(c)
  {
    assert [c][1..] == "" && EscapeChar(c) + [] == EscapeChar(c);
    assert Escaped("") == [];
  }

  lemma ChunksTextOne(k: Chunk)
    ensures ChunksText([k]) == ChunkText(k)
  {
    assert [k][1..] == [] && ChunkText(k) + "" == ChunkText(k);
    assert ChunksText([]) == "";
  }

  lemma ChunksTextNil()
    ensures ChunksText([]) == ""
  {
  }

  lemma {:induction false} ChunksTextAppend(a: seq<Chunk>, b: seq<Chunk>)
    ensures ChunksText(a + b) == ChunksText(a) + ChunksText(b)
    decreases |a|
  {
    if a == [] {
      assert a + b == b;
    } else {
      assert (a + b)[1..] == a[1..] + b;
      ChunksTextAppend(a[1..], b);
    }
  }

  lemma EscapedSnoc(s: string, c: char)
    ensures Escaped(s + [c]) == Escaped(s) + EscapeChar(c)
  {
    if s == "" {
      assert (s + [c])[1..] == "";
    } else {
      assert (s + [c])[1..] == s[1..] + [c];
      EscapedSnoc(s[1..], c);
    }
  }

  /** The program's loop. */
  method PythonJsonString(s: string) returns (out: string)
    ensures out == Literal(s)
  {
    hide EscapeChar, ChunksText;
    assert ChunksText([]) == "" by { ChunksTextNil(); }
    out := "\"";
    for i := 0 to |s|
      invariant out == "\"" + ChunksText(Escaped(s[..i]))
    {
      ghost var before := out;
      var ks := EscapeChar(s[i]);
      assert s[..i + 1] == s[..i] + [s[i]];
      EscapedSnoc(s[..i], s[i]);
      ChunksTextAppend(Escaped(s[..i]), ks);
      out := out + ChunksText(ks);
    }
    assert s[..|s|] == s;
    out := out + "\"";
  }

  lemma ChunkThenText(c: Chunk, k: string)
    ensures ChunkThen(c, k) == ChunkText(c) + k
  {
    match c
    case Plain(p) => assert [p] + k == ([p] + "") + k;
    case Escape(e) => assert ['\\', e] + k == (['\\', e] + "") + k;
    case Unicode(h) => assert "\\u" + (h + k) == ("\\u" + (h + "")) + k;
  }

  lemma {:induction false} ChunksThenText(ks: seq<Chunk>, k: string)
    ensures ChunksThen(ks, k) == ChunksText(ks) + k
    decreases |ks|
  {
    if ks == [] {
      assert ChunksText(ks) + k == k;
    } else {
      ChunksThenText(ks[1..], k);
      ChunkThenText(ks[0], ChunksThen(ks[1..], k));
      assert ChunkText(ks[0]) + (ChunksText(ks[1..]) + k) == (ChunkText(ks[0]) + ChunksText(ks[1..])) + k;
    }
  }

  /** A literal is the text of its chunks between quotes. */
  lemma LiteralThen(s: string, k: string)
    ensures Literal(s) + k == QuotedThen(Escaped(s), k)
  {
    hide Escaped, ChunksText, ChunksThen;
    ChunksThenText(Escaped(s), "\"" + k);
    var b := ChunksText(Escaped(s));
    assert ("\"" + b + "\"") + k == "\"" + (b + ("\"" + k));
  }

  lemma {:induction false} ChunksPrintable(ks: seq<Chunk>)
    requires forall i :: 0 <= i < |ks| ==> ChunkPrintable(ks[i])
    ensures Printable(ChunksText(ks))
    decreases |ks|
  {
    if ks != [] {
      assert Printable(ChunkText(ks[0]));
      ChunksPrintable(ks[1..]);
    }
  }

  /** String literals are pure printable ASCII, whatever the string. */
  lemma LiteralIsPrintable(s: string)
    ensures Printable(Literal(s))
  {
    ChunksPrintable(Escaped(s));
  }

  // ----- Reading a literal back, by section 7 of RFC 8259 ----------------------

  /** The UTF-16 code units of a character. */
  function Utf16(c: char): seq<nat> {
    if c as int > 0xFFFF then [HighHalf(c), LowHalf(c)] else [c as int]
  }

  function EscapeMeaning(c: char): Option<nat> {
    match c
    case '"' => Some('"' as int)
    case '\\' => Some('\\' as int)
    case '/' => Some('/' as int)
    case 'b' => Some(8)
    case 'f' => Some(12)
    case 'n' => Some(10)
    case 'r' => Some(13)
    case 't' => Some(9)
    case _ => None
  }

  /** The code units a literal's text stands for, up to its closing quote. */
  function Units(t: string): Option<seq<nat>>
    decreases |t|
  {
    if t == "" then None
    else if t[0] == '"' then if |t| == 1 then Some([]) else None
    else if t[0] != '\\' then Then(Utf16(t[0]), Units(t[1..]))
    else if |t| == 1 then None
    else if t[1] != 'u' then
      if EscapeMeaning(t[1]).None? then None else Then([EscapeMeaning(t[1]).value], Units(t[2..]))
    else if !Hex4At(t, 2) then None
    else Then([Hex4Value(t, 2)], Units(t[6..]))
  }

  function Then(us: seq<nat>, rest: Option<seq<nat>>): Option<seq<nat>> {
    if rest.None? then None else Some(us + rest.value)
  }

  /** Code units back to characters, pairing surrogates. */
  function FromUtf16(us: seq<nat>): Option<string>
    decreases |us|
  {
    if us == [] then Some("")
    else if us[0] < 0xD800 || 0xE000 <= us[0] < 0x10000 then
      var rest := FromUtf16(us[1..]);
      if rest.None? then None else Some([us[0] as char] + rest.value)
    else if |us| > 1 && 0xD800 <= us[0] < 0xDC00 && 0xDC00 <= us[1] < 0xE000 then
      var rest := FromUtf16(us[2..]);
      var n := 0x10000 + (us[0] - 0xD800) * 1024 + (us[1] - 0xDC00);
      if rest.None? then None else Some([n as char] + rest.value)
    else None
  }

  function ReadLiteral(t: string): Option<string> {
    if t == "" || t[0] != '"' then None
    else
      var us := Units(t[1..]);
      if us.None? then None else FromUtf16(us.value)
  }

  function AllUtf16(s: string): seq<nat> {
    if s == "" then [] else Utf16(s[0]) + AllUtf16(s[1..])
  }

  lemma {:induction false} Utf16RoundTrip(s: string)
    ensures FromUtf16(AllUtf16(s)) == Some(s)
  {
    if s != "" {
      Utf16RoundTrip(s[1..]);
      var us := AllUtf16(s);
      var c := s[0] as int;
      assert us[|Utf16(s[0])|..] == AllUtf16(s[1..]);
      assert s == [s[0]] + s[1..];
      if c > 0xFFFF {
        assert c - 0x10000 == (c - 0x10000) / 1024 * 1024 + (c - 0x10000) % 1024;
        assert us[0] == HighHalf(s[0]) && us[1] == LowHalf(s[0]);
      } else {
        assert us[0] == c;
      }
    }
  }

  /** One `\u` escape contributes one code unit. */
  lemma UnitsUnicode(n: nat, k: string)
    requires n < 0x10000
    ensures Units(ChunkThen(Unicode(Hex4(n)), k)) == Then([n], Units(k))
  {
    var h := Hex4(n);
    var t := "\\u" + (h + k);
    Hex4Reads(n);
    assert t[2] == h[0] && t[3] == h[1] && t[4] == h[2] && t[5] == h[3];
    assert t[6..] == k;
  }

  lemma UnitsEscape(c: char, k: string)
    requires EscapeLetter(c).Some?
    ensures Units(ChunkThen(Escape(EscapeLetter(c).value), k)) == Then([c as int], Units(k))
  {
    var t := ['\\', EscapeLetter(c).value] + k;
    assert t[2..] == k;
  }

  lemma UnitsPlain(c: char, k: string)
    requires c != '"' && c != '\\'
    ensures Units(ChunkThen(Plain(c), k)) == Then(Utf16(c), Units(k))
  {
    assert ([c] + k)[1..] == k;
  }

  lemma ChunksThenOne(c: Chunk, k: string)
    ensures ChunksThen([c], k) == ChunkThen(c, k)
  {
    assert [c][1..] == [];
  }

  lemma ChunksThenTwo(c: Chunk, d: Chunk, k: string)
    ensures ChunksThen([c, d], k) == ChunkThen(c, ChunkThen(d, k))
  {
    assert [c, d][1..] == [d];
    ChunksThenOne(d, k);
  }

  lemma ThenTwice(a: nat, b: nat, us: Option<seq<nat>>)
    ensures Then([a], Then([b], us)) == Then([a, b], us)
  {
    if us.Some? { assert [a] + ([b] + us.value) == [a, b] + us.value; }
  }

  /** Reading the escape of one character gives that character's code units. */
  lemma UnitsOfChar(c: char, k: string)
    ensures Units(ChunksThen(EscapeChar(c), k)) == Then(Utf16(c), Units(k))
  {
    hide Units, ChunksThen, ChunkThen, Hex4, Then, HighHalf, LowHalf;
    if EscapeLetter(c).Some? {
      UnitsEscape(c, k);
      ChunksThenOne(Escape(EscapeLetter(c).value), k);
    } else if ' ' <= c <= '~' {
      UnitsPlain(c, k);
      ChunksThenOne(Plain(c), k);
    } else if c as int > 0xFFFF {
      var low := Unicode(Hex4(LowHalf(c)));
      UnitsUnicode(LowHalf(c), k);
      UnitsUnicode(HighHalf(c), ChunkThen(low, k));
      ChunksThenTwo(Unicode(Hex4(HighHalf(c))), low, k);
      ThenTwice(HighHalf(c), LowHalf(c), Units(k));
    } else {
      UnitsUnicode(c as int, k);
      ChunksThenOne(Unicode(Hex4(c as int)), k);
    }
  }

  lemma {:induction false} ChunksThenAppend(a: seq<Chunk>, b: seq<Chunk>, k: string)
    ensures ChunksThen(a + b, k) == ChunksThen(a, ChunksThen(b, k))
    decreases |a|
  {
    if a == [] {
      assert a + b == b;
    } else {
      assert (a + b)[1..] == a[1..] + b;
      ChunksThenAppend(a[1..], b, k);
    }
  }

  lemma {:induction false} UnitsOfEscaped(s: string)
    ensures Units(ChunksThen(Escaped(s), "\"")) == Some(AllUtf16(s))
  {
    hide Units, EscapeChar;
    if s == "" {
      UnitsEnd();
    } else {
      UnitsOfEscaped(s[1..]);
      ChunksThenAppend(EscapeChar(s[0]), Escaped(s[1..]), "\"");
      UnitsOfChar(s[0], ChunksThen(Escaped(s[1..]), "\""));
    }
  }

  lemma UnitsEnd()
    ensures Units("\"") == Some([])
  {
  }

  /** Undoing the escapes of a printed literal gives back the string. */
  lemma LiteralRoundTrip(s: string)
    ensures ReadLiteral(Literal(s)) == Some(s)
  {
    LiteralThen(s, "");
    assert Literal(s) + "" == Literal(s);
    assert "\"" + "" == "\"";
    assert Literal(s)[1..] == ChunksThen(Escaped(s), "\"");
    UnitsOfEscaped(s);
    Utf16RoundTrip(s);
  }

  // ----- Whole values ----------------------------------------------------------

  function Depth(v: Json): nat {
    match v
    case Arr(items) => 1 + ItemsDepth(items)
    case Obj(fields) => 1 + FieldsDepth(fields)
    case _ => 0
  }

  function ItemsDepth(items: seq<Json>): nat {
    if items == [] then 0 else Max(Depth(items[0]), ItemsDepth(items[1..]))
  }

  function FieldsDepth(fields: seq<Field>): nat {
    if fields == [] then 0 else Max(Depth(fields[0].value), FieldsDepth(fields[1..]))
  }

  /** The value's text, in the given style. */
  function Print(v: Json, style: Style): string {
    match v
    case Null => "null"
    case Bool(b) => if b then "true" else "false"
    case Num(neg, w, f, e) => NumberThen(neg, w, f, e, "")
    case Str(s) => Literal(s)
    case Arr(items) => "[" + PrintItems(items, style) + "]"
    case Obj(fields) => "{" + PrintFields(fields, style) + "}"
  }

  /** The items, joined by the separator. */
  function PrintItems(items: seq<Json>, style: Style): string {
    if items == [] then ""
    else if |items| == 1 then Print(items[0], style)
    else Print(items[0], style) + ("," + Gap(style)) + PrintItems(items[1..], style)
  }

  function PrintField(field: Field, style: Style): string {
    Literal(field.name) + (":" + Gap(style)) + Print(field.value, style)
  }

  function PrintFields(fields: seq<Field>, style: Style): string {
    if fields == [] then ""
    else if |fields| == 1 then PrintField(fields[0], style)
    else PrintField(fields[0], style) + ("," + Gap(style)) + PrintFields(fields[1..], style)
  }

  /** Between items: a comma and, in the default style only, one space; after a name likewise. */
  lemma Separators(a: Json, b: Json, name: string)
    ensures Print(Arr([a, b]), Spaced) == "[" + Print(a, Spaced) + ", " + Print(b, Spaced) + "]"
    ensures Print(Arr([a, b]), Compact) == "[" + Print(a, Compact) + "," + Print(b, Compact) + "]"
    ensures Print(Obj([Field(name, a)]), Spaced) == "{" + Literal(name) + ": " + Print(a, Spaced) + "}"
    ensures Print(Obj([Field(name, a)]), Compact) == "{" + Literal(name) + ":" + Print(a, Compact) + "}"
  {
    PairText(a, b, name, Spaced);
    PairText(a, b, name, Compact);
    hide Literal, Print;
    assert "," + " " == ", " && "," + "" == "," && ":" + " " == ": " && ":" + "" == ":";
    assert Gap(Spaced) == " " && Gap(Compact) == "";
    Regrouped("[", Print(a, Spaced), ", ", Print(b, Spaced), "]");
    Regrouped("[", Print(a, Compact), ",", Print(b, Compact), "]");
    Regrouped("{", Literal(name), ": ", Print(a, Spaced), "}");
    Regrouped("{", Literal(name), ":", Print(a, Compact), "}");
  }

  lemma Regrouped(l: string, x: string, m: string, y: string, r: string)
    ensures l + (x + m + y) + r == l + x + m + y + r
  {
  }

  lemma PairText(a: Json, b: Json, name: string, style: Style)
    ensures Print(Arr([a, b]), style) == "[" + (Print(a, style) + ("," + Gap(style)) + Print(b, style)) + "]"
    ensures Print(Obj([Field(name, a)]), style) ==
            "{" + (Literal(name) + (":" + Gap(style)) + Print(a, style)) + "}"
  {
    hide Literal, Gap;
    assert [a, b][1..] == [b];
    assert PrintItems([b], style) == Print(b, style);
    assert PrintItems([a, b], style) == Print(a, style) + ("," + Gap(style)) + PrintItems([b], style);
    var field := Field(name, a);
    assert PrintFields([field], style) == PrintField(field, style);
  }

  /** The tree a printed value is the text of. */
  function Written(v: Json, style: Style): Tree {
    match v
    case Null => Word("null")
    case Bool(b) => Word(if b then "true" else "false")
    case Num(neg, w, f, e) => Number(neg, w, f, e)
    case Str(s) => Text(Escaped(s))
    case Arr(items) => Array("", WrittenItems(items, style))
    case Obj(fields) => Object("", WrittenFields(fields, style))
  }

  function WrittenItems(items: seq<Json>, style: Style): Elems {
    if items == [] then NoElems
    else if |items| == 1 then LastElem(Written(items[0], style), "")
    else MoreElems(Written(items[0], style), "", Gap(style), WrittenItems(items[1..], style))
  }

  function WrittenFields(fields: seq<Field>, style: Style): Members {
    if fields == [] then NoMembers
    else
      var Field(key, v) := fields[0];
      if |fields| == 1 then LastMember(Escaped(key), "", Gap(style), Written(v, style), "")
      else MoreMembers(Escaped(key), "", Gap(style), Written(v, style), "", Gap(style),
                       WrittenFields(fields[1..], style))
  }

  lemma {:induction false} WrittenOk(v: Json, style: Style)
    requires NumbersOk(v)
    ensures TreeOk(Written(v, style)) && Nesting(Written(v, style)) == Depth(v)
    decreases v, 0
  {
    match v
    case Arr(items) => WrittenItemsOk(items, style);
    case Obj(fields) => WrittenFieldsOk(fields, style);
    case _ =>
  }

  lemma {:induction false} WrittenItemsOk(items: seq<Json>, style: Style)
    requires forall i :: 0 <= i < |items| ==> NumbersOk(items[i])
    ensures ElemsOk(WrittenItems(items, style)) && ElemsNesting(WrittenItems(items, style)) == ItemsDepth(items)
    ensures WrittenItems(items, style).NoElems? <==> items == []
    decreases items
  {
    if items != [] {
      WrittenOk(items[0], style);
      WrittenItemsOk(items[1..], style);
    }
  }

  lemma {:induction false} WrittenFieldsOk(fields: seq<Field>, style: Style)
    requires forall i :: 0 <= i < |fields| ==> NumbersOk(fields[i].value)
    ensures MembersOk(WrittenFields(fields, style))
    ensures MembersNesting(WrittenFields(fields, style)) == FieldsDepth(fields)
    ensures WrittenFields(fields, style).NoMembers? <==> fields == []
    decreases fields
  {
    if fields != [] {
      assert fields[0].value < fields[0];
      WrittenOk(fields[0].value, style);
      WrittenFieldsOk(fields[1..], style);
    }
  }

  // Concatenation, regrouped.

  lemma Bracketed(o: string, t: string, c: string, k: string)
    ensures (o + t + c) + k == o + ("" + (t + (c + k)))
  {
  }

  lemma Joined(p: string, sep: string, g: string, r: string, k: string)
    ensures (p + (sep + g) + r) + k == p + ("" + (sep + (g + (r + k))))
  {
  }

  lemma NumberThenText(neg: bool, w: string, f: string, e: string, k: string)
    ensures NumberThen(neg, w, f, e, k) == NumberThen(neg, w, f, e, "") + k
  {
    var sign := if neg then "-" else "";
    assert e + "" == e;
    assert (sign + (w + (f + e))) + k == sign + (w + (f + (e + k)));
  }

  /** The printed text is the tree's text. */
  lemma {:induction false} PrintThen(v: Json, style: Style, k: string)
    ensures TreeThen(Written(v, style), k) == Print(v, style) + k
    decreases v, 0
  {
    match v
    case Num(neg, w, f, e) => NumberThenText(neg, w, f, e, k);
    case Str(s) => hide Literal, QuotedThen; LiteralThen(s, k);
    case Arr(items) =>
      hide PrintItems, ElemsThen;
      PrintItemsThen(items, style, "]" + k);
      Bracketed("[", PrintItems(items, style), "]", k);
    case Obj(fields) =>
      hide PrintFields, MembersThen;
      PrintFieldsThen(fields, style, "}" + k);
      Bracketed("{", PrintFields(fields, style), "}", k);
    case _ =>
  }

  lemma {:induction false} PrintItemsThen(items: seq<Json>, style: Style, k: string)
    ensures ElemsThen(WrittenItems(items, style), k) == PrintItems(items, style) + k
    decreases items
  {
    hide TreeThen, Print;
    if items == [] {
      assert PrintItems(items, style) + k == k;
    } else if |items| == 1 {
      assert "" + k == k;
      PrintThen(items[0], style, k);
    } else {
      PrintItemsThen(items[1..], style, k);
      var (p, g, r) := (Print(items[0], style), Gap(style), PrintItems(items[1..], style));
      PrintThen(items[0], style, "" + ("," + (g + (r + k))));
      Joined(p, ",", g, r, k);
    }
  }

  /** One printed field is a member's text. */
  lemma FieldThen(name: string, p: string, g: string, k: string)
    ensures HeadThen(Escaped(name), "", g, p + k) == (Literal(name) + (":" + g) + p) + k
  {
    hide Literal, QuotedThen;
    LiteralThen(name, "" + (":" + (g + (p + k))));
    Joined(Literal(name), ":", g, p, k);
  }

  lemma {:induction false} PrintFieldsThen(fields: seq<Field>, style: Style, k: string)
    ensures MembersThen(WrittenFields(fields, style), k) == PrintFields(fields, style) + k
    decreases fields
  {
    hide TreeThen, Print, HeadThen, Literal, PrintField;
    if fields == [] {
      assert PrintFields(fields, style) + k == k;
    } else {
      var f := fields[0];
      assert f.value < f;
      var (h, g, r) := (PrintField(f, style), Gap(style), PrintFields(fields[1..], style));
      var y := if |fields| == 1 then "" + k else "" + ("," + (g + (r + k)));
      PrintThen(f.value, style, y);
      FieldThen(f.name, Print(f.value, style), g, y);
      PrintFieldStep(f, style);
      if |fields| == 1 {
        assert "" + k == k;
      } else {
        PrintFieldsThen(fields[1..], style, k);
        Joined(h, ",", g, r, k);
      }
    }
  }

  lemma PrintFieldStep(f: Field, style: Style)
    ensures PrintField(f, style) == Literal(f.name) + (":" + Gap(style)) + Print(f.value, style)
  {
  }

  /** The scanner stops exactly at the end of a printed value, whatever may
      lawfully follow it. */
  lemma PrintedIsScannedWhole(v: Json, style: Style, k: string)
    requires NumbersOk(v) && Depth(v) <= MAX_DEPTH && Follows(k)
    ensures ScanValue(Print(v, style) + k, 0, 0) == Ok(|Print(v, style)|)
  {
    hide ScanValue, Print, Written;
    WrittenOk(v, style);
    PrintThen(v, style, k);
    ValueComplete(Print(v, style) + k, 0, Written(v, style), k, 0);
  }

  lemma PrintedIsAccepted(v: Json, style: Style)
    requires NumbersOk(v) && Depth(v) <= MAX_DEPTH
    ensures DecodeErrorOf(Print(v, style)) == None
  {
    hide Print, Written;
    WrittenOk(v, style);
    PrintThen(v, style, "");
    assert Print(v, style) + "" == Print(v, style);
    assert "" + TreeThen(Written(v, style), "") == TreeThen(Written(v, style), "");
    DocumentIsAccepted(Print(v, style), "", Written(v, style), "");
  }

  lemma PrintFieldsSnoc(fields: seq<Field>, f: Field, style: Style)
    ensures PrintFields(fields + [f], style) ==
            PrintFields(fields, style) + (if fields == [] then "" else "," + Gap(style)) + PrintField(f, style)
  {
    hide PrintField;
    var all := fields + [f];
    if fields == [] {
      assert all == [f];
    } else {
      assert all[1..] == fields[1..] + [f];
      PrintFieldsSnoc(fields[1..], f, style);
      if |fields| == 1 { assert fields[1..] == []; }
    }
  }

  /** `python_json`: an ordered list of pairs, printed in a loop. */
  method PythonJson(fields: seq<Field>) returns (out: string)
    ensures out == Print(Obj(fields), Spaced)
  {
    hide PrintField, Literal, PrintFields;
    assert PrintFields([], Spaced) == "" by { PrintFieldsNil(Spaced); }
    out := "{";
    for i := 0 to |fields|
      invariant out == "{" + PrintFields(fields[..i], Spaced)
    {
      if i > 0 {
        out := out + ", ";
      }
      var key := PythonJsonString(fields[i].name);
      out := out + (key + ": " + Print(fields[i].value, Spaced));
      PrintFieldStep(fields[i], Spaced);
      PrintFieldsSnoc(fields[..i], fields[i], Spaced);
      assert fields[..i + 1] == fields[..i] + [fields[i]];
      assert ":" + " " == ": " && "," + " " == ", ";
    }
    assert fields[..|fields|] == fields;
    out := out + "}";
  }

  lemma PrintFieldsNil(style: Style)
    ensures PrintFields([], style) == ""
  {
  }
}
