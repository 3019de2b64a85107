/** A text is the text of one tree only, so what the grammar accepts it reads in one way; and a
    printed value is read back as that value. */
module JsonUnique {
  import opened Wrappers
  import opened JsonGrammar
  import opened JsonScanner
  import opened JsonTheorems
  import opened JsonAcceptance
  import opened JsonPrinter

  // ----- Equal texts, part by part ---------------------------------------------------------

  lemma Cons(c: char, x: string, d: char, y: string)
    requires [c] + x == [d] + y
    ensures c == d && x == y
  {
    assert ([c] + x)[0] == c && ([d] + y)[0] == d && ([c] + x)[1..] == x && ([d] + y)[1..] == y;
  }

  lemma SameLength(a: string, x: string, b: string, y: string)
    requires a + x == b + y && |a| == |b|
    ensures a == b && x == y
  {
    assert (a + x)[..|a|] == a && (b + y)[..|a|] == b && (a + x)[|a|..] == x && (b + y)[|a|..] == y;
  }

  /** A run of digits ends where something else begins. */
  lemma DigitRun(a: string, x: string, b: string, y: string)
    requires AllDigits(a) && AllDigits(b) && a + x == b + y
    requires (x == "" || !IsDigit(x[0])) && (y == "" || !IsDigit(y[0]))
    ensures a == b && x == y
  {
    var s := a + x;
    assert forall n :: 0 <= n < |a| ==> s[n] == a[n];
    assert forall n :: 0 <= n < |b| ==> s[n] == b[n];
    assert (x != "" ==> s[|a|] == x[0]) && (y != "" ==> s[|b|] == y[0]);
    SameLength(a, x, b, y);
  }

  lemma WsRun(a: string, x: string, b: string, y: string)
    requires AllWs(a) && AllWs(b) && a + x == b + y
    requires (x == "" || !IsWs(x[0])) && (y == "" || !IsWs(y[0]))
    ensures a == b && x == y
  {
    var s := a + x;
    assert forall n :: 0 <= n < |a| ==> s[n] == a[n];
    assert forall n :: 0 <= n < |b| ==> s[n] == b[n];
    assert (x != "" ==> s[|a|] == x[0]) && (y != "" ==> s[|b|] == y[0]);
    SameLength(a, x, b, y);
  }

  // ----- Strings -------------------------------------------------------------------------------

  lemma ChunkUnique(c: Chunk, x: string, d: Chunk, y: string)
    requires ChunkOk(c) && ChunkOk(d) && ChunkThen(c, x) == ChunkThen(d, y)
    ensures c == d && x == y
  {
    match (c, d)
    case (Plain(p), Plain(q)) => Cons(p, x, q, y);
    case (Escape(p), Escape(q)) =>
      SameLength(['\\', p], x, ['\\', q], y);
      assert ['\\', p][1] == ['\\', q][1];
    case (Unicode(g), Unicode(h)) =>
      SameLength("\\u", g + x, "\\u", h + y);
      SameLength(g, x, h, y);
    case (_, _) =>
      ChunkHead(c, x);
      ChunkHead(d, y);
  }

  /** The first two characters tell the kinds apart. */
  lemma ChunkHead(c: Chunk, x: string)
    requires ChunkOk(c)
    ensures var t := ChunkThen(c, x);
            && t != "" && t[0] != '"' && (c.Plain? <==> t[0] != '\\')
            && (!c.Plain? ==> |t| > 1 && (c.Unicode? <==> t[1] == 'u'))
  {
  }

  lemma {:induction false} ChunksUnique(ks: seq<Chunk>, x: string, ls: seq<Chunk>, y: string)
    requires ChunksOk(ks) && ChunksOk(ls) && ChunksThen(ks, "\"" + x) == ChunksThen(ls, "\"" + y)
    ensures ks == ls && x == y
    decreases |ks|
  {
    if ks == [] && ls == [] {
      Cons('"', x, '"', y);
    } else if ks == [] {
      ChunkHead(ls[0], ChunksThen(ls[1..], "\"" + y));
    } else if ls == [] {
      ChunkHead(ks[0], ChunksThen(ks[1..], "\"" + x));
    } else {
      ChunkUnique(ks[0], ChunksThen(ks[1..], "\"" + x), ls[0], ChunksThen(ls[1..], "\"" + y));
      ChunksUnique(ks[1..], x, ls[1..], y);
      assert ks == [ks[0]] + ks[1..] && ls == [ls[0]] + ls[1..];
    }
  }

  lemma QuotedUnique(ks: seq<Chunk>, x: string, ls: seq<Chunk>, y: string)
    requires ChunksOk(ks) && ChunksOk(ls) && QuotedThen(ks, x) == QuotedThen(ls, y)
    ensures ks == ls && x == y
  {
    Cons('"', ChunksThen(ks, "\"" + x), '"', ChunksThen(ls, "\"" + y));
    ChunksUnique(ks, x, ls, y);
  }

  // ----- Numbers ----------------------------------------------------------------------------------

  lemma ExponentUnique(e: string, x: string, g: string, y: string)
    requires ExponentOk(e) && ExponentOk(g) && Follows(x) && Follows(y) && e + x == g + y
    ensures e == g && x == y
  {
    assert e != "" ==> (e + x)[0] == e[0];
    assert g != "" ==> (g + y)[0] == g[0];
    if e == "" || g == "" {
      assert e == "" ==> e + x == x;
      assert g == "" ==> g + y == y;
    } else {
      assert (e + x)[1] == e[1] && (g + y)[1] == g[1];
      var n := if e[1] == '+' || e[1] == '-' then 2 else 1;
      assert AllDigits(e[n..]) && AllDigits(g[n..]);
      assert e + x == e[..n] + (e[n..] + x) && g + y == g[..n] + (g[n..] + y);
      SameLength(e[..n], e[n..] + x, g[..n], g[n..] + y);
      DigitRun(e[n..], x, g[n..], y);
      assert e == e[..n] + e[n..] && g == g[..n] + g[n..];
    }
  }

  /** What may come after the fraction. */
  predicate AfterFraction(x: string) { Follows(x) || x[0] == 'e' || x[0] == 'E' }

  lemma FractionUnique(f: string, x: string, g: string, y: string)
    requires FractionOk(f) && FractionOk(g) && AfterFraction(x) && AfterFraction(y) && f + x == g + y
    ensures f == g && x == y
  {
    assert f != "" ==> (f + x)[0] == '.';
    assert g != "" ==> (g + y)[0] == '.';
    if f == "" || g == "" {
      assert f == "" ==> f + x == x;
      assert g == "" ==> g + y == y;
    } else {
      assert f + x == [f[0]] + (f[1..] + x) && g + y == [g[0]] + (g[1..] + y);
      Cons(f[0], f[1..] + x, g[0], g[1..] + y);
      DigitRun(f[1..], x, g[1..], y);
      assert f == [f[0]] + f[1..] && g == [g[0]] + g[1..];
    }
  }

  lemma ExponentAfter(e: string, k: string)
    requires ExponentOk(e) && Follows(k)
    ensures AfterFraction(e + k)
  {
    if e == "" { assert e + k == k; } else { assert (e + k)[0] == e[0]; }
  }

  lemma FractionAfter(f: string, x: string)
    requires FractionOk(f) && AfterFraction(x)
    ensures f + x == "" || !IsDigit((f + x)[0])
  {
    if f == "" { assert f + x == x; } else { assert (f + x)[0] == f[0]; }
  }

  predicate NumberOk(t: Tree) { t.Number? && TreeOk(t) }

  lemma NumberUnique(t: Tree, k: string, u: Tree, l: string)
    requires NumberOk(t) && NumberOk(u) && Follows(k) && Follows(l) && TreeThen(t, k) == TreeThen(u, l)
    ensures t == u && k == l
  {
    var Number(n, w, f, e) := t;
    var Number(m, v, g, h) := u;
    var a, b := w + (f + (e + k)), v + (g + (h + l));
    assert a[0] == w[0] && b[0] == v[0];
    assert n ==> TreeThen(t, k)[0] == '-';
    assert m ==> TreeThen(u, l)[0] == '-';
    assert !n ==> TreeThen(t, k) == a;
    assert !m ==> TreeThen(u, l) == b;
    if n { Cons('-', a, '-', b); }
    ExponentAfter(e, k);
    ExponentAfter(h, l);
    FractionAfter(f, e + k);
    FractionAfter(g, h + l);
    assert AllDigits(w) && AllDigits(v);
    DigitRun(w, f + (e + k), v, g + (h + l));
    FractionUnique(f, e + k, g, h + l);
    ExponentUnique(e, k, h, l);
  }

  // ----- Trees ----------------------------------------------------------------------------------------

  datatype Kind = AWord | ANumber | AText | AnArray | AnObject

  function KindOf(t: Tree): Kind {
    match t
    case Word(_) => AWord
    case Number(_, _, _, _) => ANumber
    case Text(_) => AText
    case Array(_, _) => AnArray
    case Object(_, _) => AnObject
  }

  /** The kind, from the first two characters. */
  function KindAt(x: string): Kind
    requires x != ""
  {
    if x[0] == '"' then AText
    else if x[0] == '[' then AnArray
    else if x[0] == '{' then AnObject
    else if IsDigit(x[0]) || (x[0] == '-' && |x| > 1 && IsDigit(x[1])) then ANumber
    else AWord
  }

  lemma KindShows(t: Tree, k: string)
    requires TreeOk(t)
    ensures TreeThen(t, k) != "" && KindAt(TreeThen(t, k)) == KindOf(t)
  {
    var x := TreeThen(t, k);
    match t
    case Word(w) =>
      assert x[0] == w[0] && x[1] == w[1];
    case Number(n, w, f, e) =>
      assert (w + (f + (e + k)))[0] == w[0];
      assert n ==> x[1] == (w + (f + (e + k)))[0];
    case _ =>
  }

  lemma WordUnique(w: string, k: string, v: string, l: string)
    requires w in WORDS && v in WORDS && w + k == v + l
    ensures w == v && k == l
  {
    assert (w + k)[0] == w[0] && (v + l)[0] == v[0];
    SameLength(w, k, v, l);
  }

  /** After an item: white space and a comma or a bracket, which no white space begins with. */
  lemma AfterUnique(a: string, c: char, x: string, b: string, d: char, y: string)
    requires AllWs(a) && AllWs(b) && !IsWs(c) && !IsWs(d) && a + ([c] + x) == b + ([d] + y)
    ensures a == b && c == d && x == y
  {
    WsRun(a, [c] + x, b, [d] + y);
    Cons(c, x, d, y);
  }

  lemma {:induction false} TreeUnique(t: Tree, k: string, u: Tree, l: string)
    requires TreeOk(t) && TreeOk(u) && Follows(k) && Follows(l) && TreeThen(t, k) == TreeThen(u, l)
    ensures t == u && k == l
    decreases t, 1
  {
    KindShows(t, k);
    KindShows(u, l);
    match t
    case Word(w) => WordUnique(w, k, u.word, l);
    case Number(_, _, _, _) => NumberUnique(t, k, u, l);
    case Text(ks) => QuotedUnique(ks, k, u.chunks, l);
    case Array(lead, es) =>
      hide ElemsThen, Follows;
      Cons('[', lead + ElemsThen(es, "]" + k), '[', u.lead + ElemsThen(u.elems, "]" + l));
      ListUnique(lead, es, k, u.lead, u.elems, l);
    case Object(lead, ms) =>
      hide MembersThen, Follows;
      Cons('{', lead + MembersThen(ms, "}" + k), '{', u.lead + MembersThen(u.members, "}" + l));
      TableUnique(lead, ms, k, u.lead, u.members, l);
  }

  /** How a list begins: at a value, or at its bracket. */
  lemma ListStart(es: Elems, k: string)
    requires ElemsOk(es)
    ensures var x := ElemsThen(es, "]" + k); x != "" && !IsWs(x[0]) && (x[0] == ']' <==> es.NoElems?)
  {
    hide TreeThen;
    if !es.NoElems? { ElemsStart(es, "]" + k); }
  }

  lemma {:induction false} ListUnique(lead: string, es: Elems, k: string, lead': string, fs: Elems, l: string)
    requires AllWs(lead) && AllWs(lead') && ElemsOk(es) && ElemsOk(fs)
    requires lead + ElemsThen(es, "]" + k) == lead' + ElemsThen(fs, "]" + l)
    ensures lead == lead' && es == fs && k == l
    decreases es, 1
  {
    hide TreeThen;
    ListStart(es, k);
    ListStart(fs, l);
    WsRun(lead, ElemsThen(es, "]" + k), lead', ElemsThen(fs, "]" + l));
    if es.NoElems? {
      Cons(']', k, ']', l);
    } else {
      ElemsUnique(es, k, fs, l);
    }
  }

  /** What follows the first element. */
  function Tail(es: Elems, k: string): string
    requires !es.NoElems?
  {
    match es
    case LastElem(_, after) => after + ("]" + k)
    case MoreElems(_, after, lead, rest) => after + ("," + (lead + ElemsThen(rest, "]" + k)))
  }

  lemma TailFollows(es: Elems, k: string)
    requires ElemsOk(es) && !es.NoElems?
    ensures Follows(Tail(es, k)) && ElemsThen(es, "]" + k) == TreeThen(es.v, Tail(es, k))
  {
    hide TreeThen;
    match es
    case LastElem(_, after) => FollowsWs(after, "]" + k);
    case MoreElems(_, after, lead, rest) => FollowsWs(after, "," + (lead + ElemsThen(rest, "]" + k)));
  }

  lemma {:induction false} ElemsUnique(es: Elems, k: string, fs: Elems, l: string)
    requires ElemsOk(es) && ElemsOk(fs) && !es.NoElems? && !fs.NoElems?
    requires ElemsThen(es, "]" + k) == ElemsThen(fs, "]" + l)
    ensures es == fs && k == l
    decreases es, 0
  {
    TailFollows(es, k);
    TailFollows(fs, l);
    hide TreeThen, ElemsThen, Follows;
    TreeUnique(es.v, Tail(es, k), fs.v, Tail(fs, l));
    match (es, fs)
    case (LastElem(_, a), LastElem(_, b)) => AfterUnique(a, ']', k, b, ']', l);
    case (MoreElems(_, a, lead, rest), MoreElems(_, b, lead', rest')) =>
      AfterUnique(a, ',', lead + ElemsThen(rest, "]" + k), b, ',', lead' + ElemsThen(rest', "]" + l));
      ListUnique(lead, rest, k, lead', rest', l);
    case (LastElem(_, a), MoreElems(_, b, lead', rest')) =>
      AfterUnique(a, ']', k, b, ',', lead' + ElemsThen(rest', "]" + l));
    case (MoreElems(_, a, lead, rest), LastElem(_, b)) =>
      AfterUnique(a, ',', lead + ElemsThen(rest, "]" + k), b, ']', l);
  }

  // ----- Objects --------------------------------------------------------------------------------------

  lemma TableStart(ms: Members, k: string)
    ensures var x := MembersThen(ms, "}" + k); x != "" && !IsWs(x[0]) && (x[0] == '}' <==> ms.NoMembers?)
  {
    hide TreeThen;
    if !ms.NoMembers? { MembersStart(ms, "}" + k); }
  }

  lemma {:induction false} TableUnique(lead: string, ms: Members, k: string, lead': string, ns: Members, l: string)
    requires AllWs(lead) && AllWs(lead') && MembersOk(ms) && MembersOk(ns)
    requires lead + MembersThen(ms, "}" + k) == lead' + MembersThen(ns, "}" + l)
    ensures lead == lead' && ms == ns && k == l
    decreases ms, 1
  {
    hide TreeThen, HeadThen;
    TableStart(ms, k);
    TableStart(ns, l);
    WsRun(lead, MembersThen(ms, "}" + k), lead', MembersThen(ns, "}" + l));
    if ms.NoMembers? {
      Cons('}', k, '}', l);
    } else {
      MembersUnique(ms, k, ns, l);
    }
  }

  /** What follows the first member. */
  function Remainder(ms: Members, k: string): string
    requires !ms.NoMembers?
  {
    match ms
    case LastMember(_, _, _, _, after) => after + ("}" + k)
    case MoreMembers(_, _, _, _, after, lead, rest) => after + ("," + (lead + MembersThen(rest, "}" + k)))
  }

  lemma RemainderFollows(ms: Members, k: string)
    requires MembersOk(ms) && !ms.NoMembers?
    ensures Follows(Remainder(ms, k))
    ensures MembersThen(ms, "}" + k)
         == HeadThen(ms.key, ms.beforeColon, ms.afterColon, TreeThen(ms.v, Remainder(ms, k)))
  {
    hide TreeThen, HeadThen;
    match ms
    case LastMember(_, _, _, _, after) => FollowsWs(after, "}" + k);
    case MoreMembers(_, _, _, _, after, lead, rest) => FollowsWs(after, "," + (lead + MembersThen(rest, "}" + k)));
  }

  lemma HeadUnique(key: seq<Chunk>, b: string, a: string, x: string,
                   key': seq<Chunk>, b': string, a': string, y: string)
    requires ChunksOk(key) && ChunksOk(key') && AllWs(b) && AllWs(a) && AllWs(b') && AllWs(a')
    requires ValueStart(x) && ValueStart(y) && HeadThen(key, b, a, x) == HeadThen(key', b', a', y)
    ensures key == key' && b == b' && a == a' && x == y
  {
    hide QuotedThen;
    QuotedUnique(key, b + (":" + (a + x)), key', b' + (":" + (a' + y)));
    AfterUnique(b, ':', a + x, b', ':', a' + y);
    WsRun(a, x, a', y);
  }

  lemma {:induction false} MembersUnique(ms: Members, k: string, ns: Members, l: string)
    requires MembersOk(ms) && MembersOk(ns) && !ms.NoMembers? && !ns.NoMembers?
    requires MembersThen(ms, "}" + k) == MembersThen(ns, "}" + l)
    ensures ms == ns && k == l
    decreases ms, 0
  {
    RemainderFollows(ms, k);
    RemainderFollows(ns, l);
    hide TreeThen, MembersThen, Follows, HeadThen;
    TreeStart(ms.v, Remainder(ms, k));
    TreeStart(ns.v, Remainder(ns, l));
    HeadUnique(ms.key, ms.beforeColon, ms.afterColon, TreeThen(ms.v, Remainder(ms, k)),
               ns.key, ns.beforeColon, ns.afterColon, TreeThen(ns.v, Remainder(ns, l)));
    TreeUnique(ms.v, Remainder(ms, k), ns.v, Remainder(ns, l));
    match (ms, ns)
    case (LastMember(_, _, _, _, a), LastMember(_, _, _, _, b)) => AfterUnique(a, '}', k, b, '}', l);
    case (MoreMembers(_, _, _, _, a, lead, rest), MoreMembers(_, _, _, _, b, lead', rest')) =>
      AfterUnique(a, ',', lead + MembersThen(rest, "}" + k), b, ',', lead' + MembersThen(rest', "}" + l));
      TableUnique(lead, rest, k, lead', rest', l);
    case (LastMember(_, _, _, _, a), MoreMembers(_, _, _, _, b, lead', rest')) =>
      AfterUnique(a, '}', k, b, ',', lead' + MembersThen(rest', "}" + l));
    case (MoreMembers(_, _, _, _, a, lead, rest), LastMember(_, _, _, _, b)) =>
      AfterUnique(a, ',', lead + MembersThen(rest, "}" + k), b, '}', l);
  }

  /** A document is read in one way. */
  lemma DocumentUnique(lead: string, t: Tree, tail: string, lead': string, u: Tree, tail': string)
    requires AllWs(lead) && AllWs(tail) && AllWs(lead') && AllWs(tail') && TreeOk(t) && TreeOk(u)
    requires lead + TreeThen(t, tail) == lead' + TreeThen(u, tail')
    ensures lead == lead' && t == u && tail == tail'
  {
    hide TreeThen;
    TreeStart(t, tail);
    TreeStart(u, tail');
    WsRun(lead, TreeThen(t, tail), lead', TreeThen(u, tail'));
    TreeUnique(t, tail, u, tail');
  }

  // ----- What a tree means ----------------------------------------------------------------------------

  /** The value a tree stands for, white space apart. `NaN` and the infinities are no values here, nor
      is a string with a lone surrogate. */
  function Meaning(t: Tree): Option<Json> {
    match t
    case Word(w) =>
      if w == "null" then Some(Null)
      else if w == "true" || w == "false" then Some(Bool(w == "true"))
      else None
    case Number(n, w, f, e) => Some(Num(n, w, f, e))
    case Text(ks) =>
      var s := ReadLiteral(QuotedThen(ks, ""));
      if s.None? then None else Some(Str(s.value))
    case Array(_, es) =>
      var items := ElemsMeaning(es);
      if items.None? then None else Some(Arr(items.value))
    case Object(_, ms) =>
      var fields := MembersMeaning(ms);
      if fields.None? then None else Some(Obj(fields.value))
  }

  function ElemsMeaning(es: Elems): Option<seq<Json>> {
    match es
    case NoElems => Some([])
    case LastElem(v, _) =>
      var first := Meaning(v);
      if first.None? then None else Some([first.value])
    case MoreElems(v, _, _, rest) =>
      var first, others := Meaning(v), ElemsMeaning(rest);
      if first.None? || others.None? then None else Some([first.value] + others.value)
  }

  function FieldMeaning(key: seq<Chunk>, v: Option<Json>): Option<Field> {
    var name := ReadLiteral(QuotedThen(key, ""));
    if name.None? || v.None? then None else Some(Field(name.value, v.value))
  }

  function MembersMeaning(ms: Members): Option<seq<Field>> {
    match ms
    case NoMembers => Some([])
    case LastMember(key, _, _, v, _) =>
      var first := FieldMeaning(key, Meaning(v));
      if first.None? then None else Some([first.value])
    case MoreMembers(key, _, _, v, _, _, rest) =>
      var first, others := FieldMeaning(key, Meaning(v)), MembersMeaning(rest);
      if first.None? || others.None? then None else Some([first.value] + others.value)
  }

  lemma LiteralMeans(s: string)
    ensures ReadLiteral(QuotedThen(Escaped(s), "")) == Some(s)
  {
    hide ReadLiteral, QuotedThen, Literal;
    LiteralThen(s, "");
    assert Literal(s) + "" == Literal(s);
    LiteralRoundTrip(s);
  }

  /** The tree a value is written as means that value. */
  lemma {:induction false} WrittenMeans(v: Json, style: Style)
    ensures Meaning(Written(v, style)) == Some(v)
    decreases v, 0
  {
    hide ReadLiteral, QuotedThen;
    match v
    case Str(s) => LiteralMeans(s);
    case Arr(items) => ItemsMean(items, style);
    case Obj(fields) => FieldsMean(fields, style);
    case _ =>
  }

  lemma {:induction false} ItemsMean(items: seq<Json>, style: Style)
    ensures ElemsMeaning(WrittenItems(items, style)) == Some(items)
    decreases items
  {
    if items != [] {
      WrittenMeans(items[0], style);
      ItemsMean(items[1..], style);
      assert items == [items[0]] + items[1..] && (|items| == 1 ==> items == [items[0]]);
    }
  }

  lemma {:induction false} FieldsMean(fields: seq<Field>, style: Style)
    ensures MembersMeaning(WrittenFields(fields, style)) == Some(fields)
    decreases fields
  {
    hide ReadLiteral, QuotedThen;
    if fields != [] {
      assert fields[0].value < fields[0];
      WrittenMeans(fields[0].value, style);
      LiteralMeans(fields[0].name);
      FieldsMean(fields[1..], style);
      assert fields == [fields[0]] + fields[1..] && (|fields| == 1 ==> fields == [fields[0]]);
    }
  }

  /** However a printed value is read, it is read as that value, in both styles. */
  lemma PrintedMeans(v: Json, style: Style, lead: string, t: Tree, tail: string)
    requires NumbersOk(v) && AllWs(lead) && AllWs(tail) && TreeOk(t)
    requires Print(v, style) == lead + TreeThen(t, tail)
    ensures t == Written(v, style) && lead == "" && tail == "" && Meaning(t) == Some(v)
  {
    hide Print, TreeThen, Written, Meaning, TreeOk;
    WrittenOk(v, style);
    PrintThen(v, style, "");
    assert Print(v, style) + "" == Print(v, style);
    assert "" + TreeThen(Written(v, style), "") == TreeThen(Written(v, style), "");
    DocumentUnique("", Written(v, style), "", lead, t, tail);
    WrittenMeans(v, style);
  }
}
