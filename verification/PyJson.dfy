/**
 * The JSON scanner that decides what `json.loads` would refuse, and where
 * (backend-rs/src/pyjson.rs).
 *
 * The grammar is stated separately, as concrete syntax trees with the text
 * each one stands for; the scanner is a set of functions over positions, and
 * the class `Decoder` is the imperative form the program runs.
 */
module JsonGrammar {

  /** One element of a string literal: a bare character, a two-character
      escape, or `\u` and four hexadecimal digits. */
  datatype Chunk = Plain(c: char) | Escape(c: char) | Unicode(h: string)

  /** A value as it is written, white space included. */
  datatype Tree =
    | Word(word: string)
    | Number(negative: bool, whole: string, fraction: string, exponent: string)
    | Text(chunks: seq<Chunk>)
    | Array(lead: string, elems: Elems)
    | Object(lead: string, members: Members)

  /** The elements of an array: none, or a comma-separated list. */
  datatype Elems =
    | NoElems
    | LastElem(v: Tree, after: string)
    | MoreElems(v: Tree, after: string, lead: string, rest: Elems)

  datatype Members =
    | NoMembers
    | LastMember(key: seq<Chunk>, beforeColon: string, afterColon: string, v: Tree, after: string)
    | MoreMembers(key: seq<Chunk>, beforeColon: string, afterColon: string, v: Tree, after: string,
                  lead: string, rest: Members)

  const WORDS: set<string> := {"null", "true", "false", "NaN", "Infinity", "-Infinity"}

  predicate IsWs(c: char) { c == ' ' || c == '\t' || c == '\n' || c == '\r' }

  predicate AllWs(s: string) { forall k :: 0 <= k < |s| ==> IsWs(s[k]) }

  predicate IsDigit(c: char) { '0' <= c <= '9' }

  predicate AllDigits(s: string) { forall k :: 0 <= k < |s| ==> IsDigit(s[k]) }

  predicate IsHex(c: char) { '0' <= c <= '9' || 'a' <= c <= 'f' || 'A' <= c <= 'F' }

  predicate IsSimpleEscape(c: char) { c in "\"\\/bfnrt" }

  /** Section 7 of RFC 8259. */
  predicate ChunkOk(k: Chunk) {
    match k
    case Plain(c) => c != '"' && c != '\\' && ' ' <= c
    case Escape(c) => IsSimpleEscape(c)
    case Unicode(h) => |h| == 4 && IsHex(h[0]) && IsHex(h[1]) && IsHex(h[2]) && IsHex(h[3])
  }

  predicate ChunksOk(ks: seq<Chunk>) { forall k :: 0 <= k < |ks| ==> ChunkOk(ks[k]) }

  /** Section 6 of RFC 8259: the four parts of a number. */
  predicate WholeOk(w: string) { w == "0" || (|w| > 0 && '1' <= w[0] <= '9' && AllDigits(w)) }

  predicate FractionOk(f: string) { f == "" || (|f| > 1 && f[0] == '.' && AllDigits(f[1..])) }

  predicate ExponentOk(e: string) {
    e == "" || (|e| > 1 && (e[0] == 'e' || e[0] == 'E') &&
                ((AllDigits(e[1..])) ||
                 (|e| > 2 && (e[1] == '+' || e[1] == '-') && AllDigits(e[2..]))))
  }

  predicate TreeOk(t: Tree) {
    match t
    case Word(w) => w in WORDS
    case Number(_, w, f, e) => WholeOk(w) && FractionOk(f) && ExponentOk(e)
    case Text(ks) => ChunksOk(ks)
    case Array(lead, es) => AllWs(lead) && ElemsOk(es)
    case Object(lead, ms) => AllWs(lead) && MembersOk(ms)
  }

  predicate ElemsOk(es: Elems) {
    match es
    case NoElems => true
    case LastElem(v, after) => TreeOk(v) && AllWs(after)
    case MoreElems(v, after, lead, rest) =>
      TreeOk(v) && AllWs(after) && AllWs(lead) && !rest.NoElems? && ElemsOk(rest)
  }

  predicate MembersOk(ms: Members) {
    match ms
    case NoMembers => true
    case LastMember(k, b, a, v, after) =>
      ChunksOk(k) && AllWs(b) && AllWs(a) && TreeOk(v) && AllWs(after)
    case MoreMembers(k, b, a, v, after, lead, rest) =>
      ChunksOk(k) && AllWs(b) && AllWs(a) && TreeOk(v) && AllWs(after) && AllWs(lead) &&
      !rest.NoMembers? && MembersOk(rest)
  }

  /** How many containers deep a value goes. */
  function Nesting(t: Tree): nat {
    match t
    case Array(_, es) => 1 + ElemsNesting(es)
    case Object(_, ms) => 1 + MembersNesting(ms)
    case _ => 0
  }

  function Max(a: nat, b: nat): nat { if a < b then b else a }

  function ElemsNesting(es: Elems): nat {
    match es
    case NoElems => 0
    case LastElem(v, _) => Nesting(v)
    case MoreElems(v, _, _, rest) => Max(Nesting(v), ElemsNesting(rest))
  }

  function MembersNesting(ms: Members): nat {
    match ms
    case NoMembers => 0
    case LastMember(_, _, _, v, _) => Nesting(v)
    case MoreMembers(_, _, _, v, _, _, rest) => Max(Nesting(v), MembersNesting(rest))
  }

  // The text of each tree, followed by the text `k`.

  function ChunkThen(c: Chunk, k: string): string {
    match c
    case Plain(p) => [p] + k
    case Escape(e) => ['\\', e] + k
    case Unicode(h) => "\\u" + (h + k)
  }

  function ChunksThen(ks: seq<Chunk>, k: string): string {
    if ks == [] then k else ChunkThen(ks[0], ChunksThen(ks[1..], k))
  }

  function QuotedThen(ks: seq<Chunk>, k: string): string { "\"" + ChunksThen(ks, "\"" + k) }

  function NumberThen(negative: bool, w: string, f: string, e: string, k: string): string {
    (if negative then "-" else "") + (w + (f + (e + k)))
  }

  function TreeThen(t: Tree, k: string): string {
    match t
    case Word(w) => w + k
    case Number(neg, w, f, e) => NumberThen(neg, w, f, e, k)
    case Text(ks) => QuotedThen(ks, k)
    case Array(lead, es) => "[" + (lead + ElemsThen(es, "]" + k))
    case Object(lead, ms) => "{" + (lead + MembersThen(ms, "}" + k))
  }

  function ElemsThen(es: Elems, k: string): string {
    match es
    case NoElems => k
    case LastElem(v, after) => TreeThen(v, after + k)
    case MoreElems(v, after, lead, rest) => TreeThen(v, after + ("," + (lead + ElemsThen(rest, k))))
  }

  function HeadThen(key: seq<Chunk>, beforeColon: string, afterColon: string, k: string): string {
    QuotedThen(key, beforeColon + (":" + (afterColon + k)))
  }

  function MembersThen(ms: Members, k: string): string {
    match ms
    case NoMembers => k
    case LastMember(key, b, a, v, after) => HeadThen(key, b, a, TreeThen(v, after + k))
    case MoreMembers(key, b, a, v, after, lead, rest) =>
      HeadThen(key, b, a, TreeThen(v, after + ("," + (lead + MembersThen(rest, k)))))
  }

  /** White space, one value nested at most `limit` deep, white space. */
  ghost predicate IsDocument(text: string, limit: nat) {
    exists lead: string, t: Tree, tail: string ::
      AllWs(lead) && AllWs(tail) && TreeOk(t) && Nesting(t) <= limit && text == lead + TreeThen(t, tail)
  }
}
