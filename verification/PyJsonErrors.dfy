/**
 * What an error of the JSON scanner says about the text, in terms of the grammar alone: which
 * beginnings of the text are beginnings of documents, and what would have to come next.
 */
module JsonErrors {
  import opened Wrappers
  import opened JsonGrammar
  import opened JsonScanner
  import opened JsonTheorems
  import opened JsonAcceptance

  /** Some document, nested at most `limit` deep, begins with `x`. */
  ghost predicate Viable(x: string, limit: nat) { exists y: string :: IsDocument(x + y, limit) }

  lemma ViableBeginning(x: string, y: string, limit: nat)
    requires Viable(x + y, limit)
    ensures Viable(x, limit)
  {
    var z: string :| IsDocument((x + y) + z, limit);
    assert (x + y) + z == x + (y + z);
  }

  // ----- A text and what follows it ---------------------------------------------------------

  lemma ChunkSplit(c: Chunk, x: string, k: string)
    ensures ChunkThen(c, x + k) == ChunkThen(c, x) + k
  {
    match c
    case Plain(p) => assert [p] + (x + k) == ([p] + x) + k;
    case Escape(e) => assert ['\\', e] + (x + k) == (['\\', e] + x) + k;
    case Unicode(h) => assert "\\u" + (h + (x + k)) == ("\\u" + (h + x)) + k;
  }

  lemma {:induction false} ChunksSplit(ks: seq<Chunk>, x: string, k: string)
    ensures ChunksThen(ks, x + k) == ChunksThen(ks, x) + k
    decreases |ks|
  {
    if ks != [] {
      ChunksSplit(ks[1..], x, k);
      ChunkSplit(ks[0], ChunksThen(ks[1..], x), k);
    }
  }

  lemma QuotedSplit(ks: seq<Chunk>, x: string, k: string)
    ensures QuotedThen(ks, x + k) == QuotedThen(ks, x) + k
  {
    ChunksSplit(ks, "\"" + x, k);
    assert "\"" + (x + k) == ("\"" + x) + k;
    assert "\"" + (ChunksThen(ks, "\"" + x) + k) == ("\"" + ChunksThen(ks, "\"" + x)) + k;
  }

  lemma Assoc(a: string, x: string, k: string)
    ensures a + (x + k) == (a + x) + k
  {
  }

  lemma {:induction false} TreeSplit(t: Tree, x: string, k: string)
    ensures TreeThen(t, x + k) == TreeThen(t, x) + k
    decreases t, 1
  {
    match t
    case Word(w) => Assoc(w, x, k);
    case Number(n, w, f, e) =>
      Assoc(e, x, k);
      Assoc(f, e + x, k);
      Assoc(w, f + (e + x), k);
      Assoc(if n then "-" else "", w + (f + (e + x)), k);
    case Text(ks) => hide QuotedThen; QuotedSplit(ks, x, k);
    case Array(lead, es) =>
      hide ElemsThen;
      Assoc("]", x, k);
      ElemsSplit(es, "]" + x, k);
      Assoc(lead, ElemsThen(es, "]" + x), k);
      Assoc("[", lead + ElemsThen(es, "]" + x), k);
    case Object(lead, ms) =>
      hide MembersThen;
      Assoc("}", x, k);
      MembersSplit(ms, "}" + x, k);
      Assoc(lead, MembersThen(ms, "}" + x), k);
      Assoc("{", lead + MembersThen(ms, "}" + x), k);
  }

  lemma {:induction false} ElemsSplit(es: Elems, x: string, k: string)
    ensures ElemsThen(es, x + k) == ElemsThen(es, x) + k
    decreases es, 0
  {
    hide TreeThen;
    match es
    case NoElems =>
    case LastElem(v, after) =>
      Assoc(after, x, k);
      TreeSplit(v, after + x, k);
    case MoreElems(v, after, lead, rest) =>
      var r := ElemsThen(rest, x);
      ElemsSplit(rest, x, k);
      Assoc(lead, r, k);
      Assoc(",", lead + r, k);
      Assoc(after, "," + (lead + r), k);
      TreeSplit(v, after + ("," + (lead + r)), k);
  }

  lemma HeadSplit(key: seq<Chunk>, b: string, a: string, x: string, k: string)
    ensures HeadThen(key, b, a, x + k) == HeadThen(key, b, a, x) + k
  {
    hide QuotedThen;
    Assoc(a, x, k);
    Assoc(":", a + x, k);
    Assoc(b, ":" + (a + x), k);
    QuotedSplit(key, b + (":" + (a + x)), k);
  }

  lemma {:induction false} MembersSplit(ms: Members, x: string, k: string)
    ensures MembersThen(ms, x + k) == MembersThen(ms, x) + k
    decreases ms, 0
  {
    hide TreeThen, HeadThen;
    match ms
    case NoMembers =>
    case LastMember(key, b, a, v, after) =>
      Assoc(after, x, k);
      TreeSplit(v, after + x, k);
      HeadSplit(key, b, a, TreeThen(v, after + x), k);
    case MoreMembers(key, b, a, v, after, lead, rest) =>
      var r := MembersThen(rest, x);
      MembersSplit(rest, x, k);
      Assoc(lead, r, k);
      Assoc(",", lead + r, k);
      Assoc(after, "," + (lead + r), k);
      TreeSplit(v, after + ("," + (lead + r)), k);
      HeadSplit(key, b, a, TreeThen(v, after + ("," + (lead + r))), k);
  }

  // ----- Places -------------------------------------------------------------------------------

  /** After `x`, `depth` containers deep, any value may stand. */
  ghost predicate ValuePlace(x: string, depth: nat, limit: nat) {
    forall t: Tree :: TreeOk(t) && depth + Nesting(t) <= limit ==> Viable(x + TreeThen(t, ""), limit)
  }

  /** After `x` the elements of an array may go on. */
  ghost predicate ElemsPlace(x: string, depth: nat, limit: nat) {
    forall es: Elems :: ElemsOk(es) && !es.NoElems? && depth + ElemsNesting(es) <= limit ==>
      Viable(x + ElemsThen(es, "]"), limit)
  }

  ghost predicate MembersPlace(x: string, depth: nat, limit: nat) {
    forall ms: Members :: MembersOk(ms) && !ms.NoMembers? && depth + MembersNesting(ms) <= limit ==>
      Viable(x + MembersThen(ms, "}"), limit)
  }

  /** After `x` a string may stand. */
  ghost predicate StringPlace(x: string, limit: nat) {
    forall ks: seq<Chunk> :: ChunksOk(ks) ==> Viable(x + QuotedThen(ks, ""), limit)
  }

  lemma StartPlace(lead: string, limit: nat)
    requires AllWs(lead)
    ensures ValuePlace(lead, 0, limit)
  {
    hide TreeThen, TreeOk, Nesting;
    forall t: Tree | TreeOk(t) && 0 + Nesting(t) <= limit ensures Viable(lead + TreeThen(t, ""), limit) {
      var d := lead + TreeThen(t, "");
      assert d + "" == d;
      assert IsDocument(d + "", limit) by { assert AllWs("") && d == lead + TreeThen(t, ""); }
    }
  }

  lemma InsideArray(x: string, depth: nat, limit: nat, lead: string)
    requires ValuePlace(x, depth, limit) && AllWs(lead)
    ensures ElemsPlace(x + ("[" + lead), depth + 1, limit)
  {
    hide ElemsThen, Viable;
    forall es: Elems | ElemsOk(es) && !es.NoElems? && depth + 1 + ElemsNesting(es) <= limit
      ensures Viable((x + ("[" + lead)) + ElemsThen(es, "]"), limit)
    {
      var t := Array(lead, es);
      assert TreeOk(t) && depth + Nesting(t) <= limit;
      assert "]" + "" == "]";
      assert x + TreeThen(t, "") == (x + ("[" + lead)) + ElemsThen(es, "]");
    }
  }

  lemma InsideObject(x: string, depth: nat, limit: nat, lead: string)
    requires ValuePlace(x, depth, limit) && AllWs(lead)
    ensures MembersPlace(x + ("{" + lead), depth + 1, limit)
  {
    hide MembersThen, Viable;
    forall ms: Members | MembersOk(ms) && !ms.NoMembers? && depth + 1 + MembersNesting(ms) <= limit
      ensures Viable((x + ("{" + lead)) + MembersThen(ms, "}"), limit)
    {
      var t := Object(lead, ms);
      assert TreeOk(t) && depth + Nesting(t) <= limit;
      assert "}" + "" == "}";
      assert x + TreeThen(t, "") == (x + ("{" + lead)) + MembersThen(ms, "}");
    }
  }

  lemma ElementPlace(x: string, depth: nat, limit: nat)
    requires ElemsPlace(x, depth, limit)
    ensures ValuePlace(x, depth, limit)
  {
    hide TreeThen, Viable;
    forall t: Tree | TreeOk(t) && depth + Nesting(t) <= limit ensures Viable(x + TreeThen(t, ""), limit) {
      var es := LastElem(t, "");
      assert ElemsOk(es) && depth + ElemsNesting(es) <= limit;
      TreeSplit(t, "", "]");
      assert "" + "]" == "]";
      Assoc(x, TreeThen(t, ""), "]");
      ViableBeginning(x + TreeThen(t, ""), "]", limit);
    }
  }

  /** After an element, white space, a comma and white space. */
  lemma NextElementPlace(x: string, depth: nat, limit: nat, v: Tree, after: string, lead: string)
    requires ElemsPlace(x, depth, limit) && TreeOk(v) && depth + Nesting(v) <= limit && AllWs(after) && AllWs(lead)
    ensures ElemsPlace(x + TreeThen(v, after + ("," + lead)), depth, limit)
  {
    hide TreeThen, Viable;
    forall es: Elems | ElemsOk(es) && !es.NoElems? && depth + ElemsNesting(es) <= limit
      ensures Viable((x + TreeThen(v, after + ("," + lead))) + ElemsThen(es, "]"), limit)
    {
      var more, y := MoreElems(v, after, lead, es), ElemsThen(es, "]");
      assert ElemsOk(more) && depth + ElemsNesting(more) <= limit;
      assert after + ("," + (lead + y)) == (after + ("," + lead)) + y;
      TreeSplit(v, after + ("," + lead), y);
      Assoc(x, TreeThen(v, after + ("," + lead)), y);
    }
  }

  lemma MemberValuePlace(x: string, depth: nat, limit: nat, key: seq<Chunk>, b: string, a: string)
    requires MembersPlace(x, depth, limit) && ChunksOk(key) && AllWs(b) && AllWs(a)
    ensures ValuePlace(x + HeadThen(key, b, a, ""), depth, limit)
  {
    hide TreeThen, HeadThen, Viable;
    forall t: Tree | TreeOk(t) && depth + Nesting(t) <= limit
      ensures Viable((x + HeadThen(key, b, a, "")) + TreeThen(t, ""), limit)
    {
      var ms := LastMember(key, b, a, t, "");
      assert MembersOk(ms) && depth + MembersNesting(ms) <= limit;
      var y := TreeThen(t, "");
      TreeSplit(t, "", "}");
      assert "" + "}" == "}" && "" + y == y;
      HeadSplit(key, b, a, y, "}");
      HeadSplit(key, b, a, "", y);
      Assoc(x, HeadThen(key, b, a, ""), y);
      Assoc(x, HeadThen(key, b, a, y), "}");
      ViableBeginning(x + HeadThen(key, b, a, y), "}", limit);
    }
  }

  lemma NextMemberPlace(x: string, depth: nat, limit: nat, key: seq<Chunk>, b: string, a: string, v: Tree,
                        after: string, lead: string)
    requires MembersPlace(x, depth, limit) && ChunksOk(key) && AllWs(b) && AllWs(a)
    requires TreeOk(v) && depth + Nesting(v) <= limit && AllWs(after) && AllWs(lead)
    ensures MembersPlace(x + HeadThen(key, b, a, TreeThen(v, after + ("," + lead))), depth, limit)
  {
    hide TreeThen, HeadThen, Viable;
    var w := TreeThen(v, after + ("," + lead));
    forall ms: Members | MembersOk(ms) && !ms.NoMembers? && depth + MembersNesting(ms) <= limit
      ensures Viable((x + HeadThen(key, b, a, w)) + MembersThen(ms, "}"), limit)
    {
      var more, y := MoreMembers(key, b, a, v, after, lead, ms), MembersThen(ms, "}");
      assert MembersOk(more) && depth + MembersNesting(more) <= limit;
      assert after + ("," + (lead + y)) == (after + ("," + lead)) + y;
      TreeSplit(v, after + ("," + lead), y);
      HeadSplit(key, b, a, w, y);
      Assoc(x, HeadThen(key, b, a, w), y);
    }
  }

  lemma ValueMayBeString(x: string, depth: nat, limit: nat)
    requires ValuePlace(x, depth, limit) && depth <= limit
    ensures StringPlace(x, limit)
  {
    hide QuotedThen, Viable;
    forall ks: seq<Chunk> | ChunksOk(ks) ensures Viable(x + QuotedThen(ks, ""), limit) {
      assert TreeOk(Text(ks)) && Nesting(Text(ks)) == 0;
      assert TreeThen(Text(ks), "") == QuotedThen(ks, "");
    }
  }

  lemma NameIsString(x: string, depth: nat, limit: nat)
    requires MembersPlace(x, depth, limit) && depth <= limit
    ensures StringPlace(x, limit)
  {
    hide QuotedThen, Viable;
    MembersPlaceValue(x, depth, limit);
    forall ks: seq<Chunk> | ChunksOk(ks) ensures Viable(x + QuotedThen(ks, ""), limit) {
      var y := ":null}";
      QuotedSplit(ks, "", y);
      assert "" + y == y;
      Assoc(x, QuotedThen(ks, ""), y);
      ViableBeginning(x + QuotedThen(ks, ""), y, limit);
    }
  }

  /** A member with no value but `null`. */
  lemma MembersPlaceValue(x: string, depth: nat, limit: nat)
    requires MembersPlace(x, depth, limit) && depth <= limit
    ensures forall ks: seq<Chunk> :: ChunksOk(ks) ==> Viable(x + QuotedThen(ks, ":null}"), limit)
  {
    hide QuotedThen, Viable, MembersOk, MembersThen, MembersNesting;
    forall ks: seq<Chunk> | ChunksOk(ks) ensures Viable(x + QuotedThen(ks, ":null}"), limit) {
      var ms := NullMember(ks);
    }
  }

  lemma NullMember(ks: seq<Chunk>) returns (ms: Members)
    requires ChunksOk(ks)
    ensures MembersOk(ms) && !ms.NoMembers? && MembersNesting(ms) == 0
    ensures MembersThen(ms, "}") == QuotedThen(ks, ":null}")
  {
    hide QuotedThen;
    var word := Word("null");
    assert TreeOk(word) && Nesting(word) == 0 && TreeThen(word, "" + "}") == "null}";
    ms := LastMember(ks, "", "", word, "");
    assert MembersThen(ms, "}") == HeadThen(ks, "", "", TreeThen(word, "" + "}"));
    assert "" + (":" + ("" + "null}")) == ":null}";
  }

  // ----- What has been scanned, as text ----------------------------------------------------------

  lemma RestIs(s: string, i: nat)
    requires i <= |s|
    ensures Rest(s, i, s[i..])
  {
  }

  lemma RestEquals(s: string, i: nat, x: string)
    requires i <= |s| && Rest(s, i, x)
    ensures s[i..] == x
  {
    assert forall j :: 0 <= j < |x| ==> s[i + j] == x[j];
  }

  /** What is left at `i` is `x`, what is left at `e` the end of it. */
  lemma Between(s: string, i: nat, e: nat, x: string)
    requires i <= e <= |s| && s[i..] == x + s[e..]
    ensures s[i..e] == x
  {
    assert |x| == e - i;
    assert s[i..e] == s[i..][..e - i] == (x + s[e..])[..e - i];
  }

  lemma ScannedText(s: string, i: nat, depth: nat, e: nat) returns (t: Tree)
    requires i <= |s| && depth <= MAX_DEPTH && ScanValue(s, i, depth) == Ok(e)
    ensures TreeOk(t) && depth + Nesting(t) <= MAX_DEPTH && i < e <= |s| && s[i..e] == TreeThen(t, "")
  {
    hide TreeThen, Rest, ScanValue;
    RestIs(s, e);
    t := ValueSound(s, i, depth, s[e..]);
    RestEquals(s, i, TreeThen(t, s[e..]));
    TreeSplit(t, "", s[e..]);
    assert "" + s[e..] == s[e..];
    Between(s, i, e, TreeThen(t, ""));
  }

  lemma ScannedString(s: string, i: nat, e: nat) returns (ks: seq<Chunk>)
    requires CharAt(s, i, '"') && ScanString(s, i + 1, i) == Ok(e)
    ensures ChunksOk(ks) && i < e <= |s| && s[i..e] == QuotedThen(ks, "")
  {
    hide QuotedThen, Rest, ScanString;
    RestIs(s, e);
    ks := QuotedSound(s, i, s[e..]);
    RestEquals(s, i, QuotedThen(ks, s[e..]));
    QuotedSplit(ks, "", s[e..]);
    assert "" + s[e..] == s[e..];
    Between(s, i, e, QuotedThen(ks, ""));
  }

  // ----- Texts that begin alike --------------------------------------------------------------------

  predicate Agree(s: string, r: string, n: nat) {
    n <= |s| && n <= |r| && forall j {:trigger s[j]} {:trigger r[j]} :: 0 <= j < n ==> s[j] == r[j]
  }

  lemma AgreeSlice(s: string, r: string, n: nat, i: nat, e: nat)
    requires Agree(s, r, n) && i <= e <= n
    ensures s[i..e] == r[i..e]
  {
  }

  lemma SkipWsIs(s: string, i: nat, j: nat)
    requires i <= j < |s| && !IsWs(s[j]) && forall n :: i <= n < j ==> IsWs(s[n])
    ensures SkipWs(s, i) == j
  {
    SkipWsOver(s, i, j);
  }

  /** A scanned value is scanned again where it is followed by the same lawful character. */
  lemma OkStays(s: string, r: string, i: nat, depth: nat, e: nat)
    requires i <= |s| && depth <= MAX_DEPTH && ScanValue(s, i, depth) == Ok(e)
    requires e <= |r| && Agree(s, r, e) && Follows(r[e..])
    ensures ScanValue(r, i, depth) == Ok(e)
  {
    hide TreeThen, ScanValue, Follows, Rest;
    var t := ScannedText(s, i, depth, e);
    AgreeSlice(s, r, e, i, e);
    TreeSplit(t, "", r[e..]);
    assert "" + r[e..] == r[e..];
    assert r[i..] == r[i..e] + r[e..];
    RestIs(r, i);
    ValueComplete(r, i, t, r[e..], depth);
    EndIs(r, ScanValue(r, i, depth).value, e);
  }

  lemma EndIs(r: string, a: nat, e: nat)
    requires e <= |r| && Rest(r, a, r[e..])
    ensures a == e
  {
  }

  lemma StringStays(s: string, r: string, i: nat, e: nat)
    requires CharAt(s, i, '"') && ScanString(s, i + 1, i) == Ok(e) && Agree(s, r, e)
    ensures CharAt(r, i, '"') && ScanString(r, i + 1, i) == Ok(e)
  {
    hide QuotedThen, ScanString, Rest;
    var ks := ScannedString(s, i, e);
    AgreeSlice(s, r, e, i, e);
    QuotedSplit(ks, "", r[e..]);
    assert "" + r[e..] == r[e..];
    assert r[i..] == r[i..e] + r[e..];
    RestIs(r, i);
    QuotedComplete(r, i, ks, r[e..]);
    EndIs(r, ScanString(r, i + 1, i).value, e);
  }

  lemma HeadStays(s: string, r: string, i: nat, v: nat)
    requires i <= |s| && MemberHead(s, i) == Ok(v) && v < |r| && Agree(s, r, v) && !IsWs(r[v])
    ensures MemberHead(r, i) == Ok(v)
  {
    hide ScanString;
    var k := ScanString(s, i + 1, i).value;
    var c := SkipWs(s, k);
    StringStays(s, r, i, k);
    SkipWsIs(r, k, c);
    SkipWsIs(r, c + 1, v);
  }

  lemma NextStays(s: string, r: string, e: nat, close: char, j: nat)
    requires e <= |s| && AfterItem(s, e, close) == Next(j) && j < |r| && Agree(s, r, j) && !IsWs(r[j])
    ensures AfterItem(r, e, close) == Next(j) && e < j && Follows(r[e..])
  {
    var c := SkipWs(s, e);
    SkipWsIs(r, e, c);
    SkipWsIs(r, c + 1, j);
    assert r[e..][0] == r[e];
  }

  // ----- Where a scan fails -----------------------------------------------------------------------

  /** At a value that is not there, is a bad string or opens too deep; at a member's name; or after
      the value from `v` to `e`. */
  datatype Spot =
    | AtValue(p: nat, depth: nat)
    | AtName(p: nat, depth: nat)
    | After(v: nat, e: nat, close: char, depth: nat)

  function Pos(spot: Spot): nat { if spot.After? then spot.v else spot.p }

  predicate Opens(s: string, i: nat) { CharAt(s, i, '[') || CharAt(s, i, '{') }

  function ValueSpot(s: string, i: nat, depth: nat): Spot
    requires i <= |s| && ScanValue(s, i, depth).Err?
    decreases |s| - i, 0
  {
    hide ScanValue, ScanElems, ScanMembers;
    if !Opens(s, i) || depth + 1 > MAX_DEPTH then AtValue(i, depth)
    else
      ContainerStep(s, i, depth);
      if s[i] == '[' then ElemsSpot(s, SkipWs(s, i + 1), depth + 1)
      else MembersSpot(s, SkipWs(s, i + 1), depth + 1)
  }

  /** A container goes on with its items unless it closes at once. */
  lemma ContainerStep(s: string, i: nat, depth: nat)
    requires Opens(s, i) && depth + 1 <= MAX_DEPTH
    ensures var j := SkipWs(s, i + 1); var r := ScanValue(s, i, depth);
            && (s[i] == '[' ==> r == if CharAt(s, j, ']') then Ok(j + 1) else ScanElems(s, j, depth + 1))
            && (s[i] == '{' ==> r == if CharAt(s, j, '}') then Ok(j + 1) else ScanMembers(s, j, depth + 1))
  {
    hide ScanElems, ScanMembers;
    ValueStep(s, i, depth);
  }

  function ElemsSpot(s: string, i: nat, depth: nat): Spot
    requires i <= |s| && ScanElems(s, i, depth).Err?
    decreases |s| - i, 1
  {
    var r := ScanValue(s, i, depth);
    if r.Err? then ValueSpot(s, i, depth)
    else
      var a := AfterItem(s, r.value, ']');
      if a.Bad? then After(i, r.value, ']', depth) else ElemsSpot(s, a.at, depth)
  }

  function MembersSpot(s: string, i: nat, depth: nat): Spot
    requires i <= |s| && ScanMembers(s, i, depth).Err?
    decreases |s| - i, 1
  {
    var h := MemberHead(s, i);
    if h.Err? then AtName(i, depth)
    else
      var r := ScanValue(s, h.value, depth);
      if r.Err? then ValueSpot(s, h.value, depth)
      else
        var a := AfterItem(s, r.value, '}');
        if a.Bad? then After(h.value, r.value, '}', depth) else MembersSpot(s, a.at, depth)
  }

  /** What stopped the scan at the spot. */
  predicate Stopped(s: string, spot: Spot, stop: Stop) {
    match spot
    case AtValue(p, d) =>
      p <= |s| && d <= MAX_DEPTH && (Opens(s, p) ==> d == MAX_DEPTH) && ScanValue(s, p, d) == Err(stop)
    case AtName(p, d) => p <= |s| && d <= MAX_DEPTH && MemberHead(s, p) == Err(stop)
    case After(v, e, close, d) =>
      && v <= |s| && d <= MAX_DEPTH && ScanValue(s, v, d) == Ok(e) && AfterItem(s, e, close) == Bad(stop)
      && (close == ']' || close == '}')
  }

  /** After `x` a value may stand, and after it a comma or the bracket. */
  ghost predicate ItemPlace(x: string, close: char, depth: nat, limit: nat) {
    && ValuePlace(x, depth, limit)
    && forall t: Tree, after: string :: TreeOk(t) && depth + Nesting(t) <= limit && AllWs(after) ==>
         Viable(x + TreeThen(t, after + [close]), limit) && Viable(x + TreeThen(t, after + ","), limit)
  }

  ghost predicate Placed(s: string, spot: Spot, limit: nat) {
    Pos(spot) <= |s| &&
    match spot
    case AtValue(p, d) => ValuePlace(s[..p], d, limit)
    case AtName(p, d) => MembersPlace(s[..p], d, limit)
    case After(v, e, close, d) => ItemPlace(s[..v], close, d, limit)
  }

  lemma ElementItem(x: string, depth: nat, limit: nat)
    requires ElemsPlace(x, depth, limit) && depth <= limit
    ensures ItemPlace(x, ']', depth, limit)
  {
    hide TreeThen, Viable;
    ElementPlace(x, depth, limit);
    forall t: Tree, after: string | TreeOk(t) && depth + Nesting(t) <= limit && AllWs(after)
      ensures Viable(x + TreeThen(t, after + [']']), limit) && Viable(x + TreeThen(t, after + ","), limit)
    {
      var last := LastElem(t, after);
      assert ElemsOk(last) && depth + ElemsNesting(last) <= limit;
      assert ElemsThen(last, "]") == TreeThen(t, after + [']']);
      var y := ElemsThen(LastElem(Word("null"), ""), "]");
      var more := MoreElems(t, after, "", LastElem(Word("null"), ""));
      assert Nesting(Word("null")) == 0 && TreeOk(Word("null"));
      assert ElemsOk(more) && depth + ElemsNesting(more) <= limit;
      assert after + ("," + ("" + y)) == (after + ",") + y;
      TreeSplit(t, after + ",", y);
      Assoc(x, TreeThen(t, after + ","), y);
      ViableBeginning(x + TreeThen(t, after + ","), y, limit);
    }
  }

  lemma MemberItem(x: string, depth: nat, limit: nat, key: seq<Chunk>, b: string, a: string)
    requires MembersPlace(x, depth, limit) && depth <= limit && ChunksOk(key) && AllWs(b) && AllWs(a)
    ensures ItemPlace(x + HeadThen(key, b, a, ""), '}', depth, limit)
  {
    hide TreeThen, HeadThen, Viable, QuotedThen;
    MemberValuePlace(x, depth, limit, key, b, a);
    var head := HeadThen(key, b, a, "");
    forall t: Tree, after: string | TreeOk(t) && depth + Nesting(t) <= limit && AllWs(after)
      ensures Viable((x + head) + TreeThen(t, after + ['}']), limit)
      ensures Viable((x + head) + TreeThen(t, after + ","), limit)
    {
      var last := LastMember(key, b, a, t, after);
      assert MembersOk(last) && depth + MembersNesting(last) <= limit;
      var z := TreeThen(t, after + ['}']);
      assert MembersThen(last, "}") == HeadThen(key, b, a, z);
      HeadSplit(key, b, a, "", z);
      assert "" + z == z;
      Assoc(x, head, z);
      MemberThenComma(x, depth, limit, key, b, a, t, after);
    }
  }

  lemma MemberThenComma(x: string, depth: nat, limit: nat, key: seq<Chunk>, b: string, a: string, t: Tree,
                        after: string)
    requires MembersPlace(x, depth, limit) && depth <= limit && ChunksOk(key) && AllWs(b) && AllWs(a)
    requires TreeOk(t) && depth + Nesting(t) <= limit && AllWs(after)
    ensures Viable((x + HeadThen(key, b, a, "")) + TreeThen(t, after + ","), limit)
  {
    hide TreeThen, HeadThen, Viable, QuotedThen, MembersThen;
    NextMemberPlace(x, depth, limit, key, b, a, t, after, "");
    assert "," + "" == ",";
    var w := TreeThen(t, after + ",");
    var x' := x + HeadThen(key, b, a, w);
    NameIsString(x', depth, limit);
    assert ChunksOk([]);
    ViableBeginning(x', QuotedThen([], ""), limit);
    HeadSplit(key, b, a, "", w);
    assert "" + w == w;
    Assoc(x, HeadThen(key, b, a, ""), w);
  }

  /** The text up to the first element or bracket of a container. */
  lemma OpenSlice(s: string, i: nat, j: nat)
    requires i < j <= |s|
    ensures s[..j] == s[..i] + ([s[i]] + s[i + 1..j])
  {
  }

  lemma SkippedIsWs(s: string, i: nat)
    requires i <= |s|
    ensures AllWs(s[i..SkipWs(s, i)])
  {
  }

  lemma JoinSlices(s: string, i: nat, e: nat, j: nat)
    requires i <= e <= j <= |s|
    ensures s[..i] + (s[i..e] + s[e..j]) == s[..j]
  {
  }

  /** From a value, white space, a comma and white space, to the next item. */
  lemma ItemText(s: string, i: nat, e: nat, close: char, j: nat, t: Tree) returns (after: string, lead: string)
    requires i <= e <= |s| && AfterItem(s, e, close) == Next(j) && s[i..e] == TreeThen(t, "")
    ensures AllWs(after) && AllWs(lead) && s[i..j] == TreeThen(t, after + ("," + lead))
  {
    var c := SkipWs(s, e);
    after, lead := s[e..c], s[c + 1..j];
    SkippedIsWs(s, e);
    SkippedIsWs(s, c + 1);
    hide *;
    CommaSlice(s, e, c, j);
    Longer(s, i, e, j, t);
  }

  lemma Longer(s: string, i: nat, e: nat, j: nat, t: Tree)
    requires i <= e <= j <= |s| && s[i..e] == TreeThen(t, "")
    ensures s[i..j] == TreeThen(t, s[e..j])
  {
    hide *;
    TreeSplit(t, "", s[e..j]);
    assert "" + s[e..j] == s[e..j];
    SlicesMeet(s, i, e, j);
  }

  lemma SlicesMeet(s: string, i: nat, e: nat, j: nat)
    requires i <= e <= j <= |s|
    ensures s[i..j] == s[i..e] + s[e..j]
  {
  }

  lemma CommaSlice(s: string, e: nat, c: nat, j: nat)
    requires e <= c < j <= |s| && s[c] == ','
    ensures s[e..j] == s[e..c] + ("," + s[c + 1..j])
  {
  }

  lemma HeadText(s: string, i: nat, v: nat) returns (key: seq<Chunk>, b: string, a: string)
    requires i <= |s| && MemberHead(s, i) == Ok(v)
    ensures ChunksOk(key) && AllWs(b) && AllWs(a) && i <= v <= |s| && s[i..v] == HeadThen(key, b, a, "")
  {
    hide QuotedThen, ScanString;
    var k := ScanString(s, i + 1, i).value;
    var c := SkipWs(s, k);
    key := ScannedString(s, i, k);
    b, a := s[k..c], s[c + 1..v];
    SkippedIsWs(s, k);
    SkippedIsWs(s, c + 1);
    hide *;
    ColonSlice(s, k, c, v);
    QuotedSplit(key, "", s[k..v]);
    assert "" + s[k..v] == s[k..v];
    SlicesMeet(s, i, k, v);
    HeadIs(key, b, a, s[k..v]);
  }

  lemma HeadIs(key: seq<Chunk>, b: string, a: string, x: string)
    requires x == b + (":" + (a + ""))
    ensures QuotedThen(key, x) == HeadThen(key, b, a, "")
  {
  }

  lemma ColonSlice(s: string, k: nat, c: nat, v: nat)
    requires k <= c < v <= |s| && s[c] == ':'
    ensures s[k..v] == s[k..c] + (":" + (s[c + 1..v] + ""))
  {
    assert s[c + 1..v] + "" == s[c + 1..v];
  }

  /** The scan stopped at its spot, for what is wrong there, and everything before is in place. */
  lemma {:induction false} ValueSpotPlaced(s: string, i: nat, depth: nat, limit: nat)
    requires i <= |s| && depth <= MAX_DEPTH <= limit && ScanValue(s, i, depth).Err?
    requires ValuePlace(s[..i], depth, limit)
    ensures var spot := ValueSpot(s, i, depth);
            Stopped(s, spot, ScanValue(s, i, depth).error) && Placed(s, spot, limit) && i <= Pos(spot)
    decreases |s| - i, 0
  {
    hide ScanValue, ScanElems, ScanMembers, ValuePlace, ElemsPlace, MembersPlace, Stopped, Placed;
    if !Opens(s, i) || depth + 1 > MAX_DEPTH {
      LeafSpot(s, i, depth, limit);
    } else {
      var j := SkipWs(s, i + 1);
      var lead := s[i + 1..j];
      ContainerStep(s, i, depth);
      SkippedIsWs(s, i + 1);
      OpenSlice(s, i, j);
      if s[i] == '[' {
        InsideArray(s[..i], depth, limit, lead);
        ElemsSpotPlaced(s, j, depth + 1, limit);
      } else {
        InsideObject(s[..i], depth, limit, lead);
        MembersSpotPlaced(s, j, depth + 1, limit);
      }
    }
  }

  lemma LeafSpot(s: string, i: nat, depth: nat, limit: nat)
    requires i <= |s| && depth <= MAX_DEPTH && ScanValue(s, i, depth).Err? && ValuePlace(s[..i], depth, limit)
    requires !Opens(s, i) || depth + 1 > MAX_DEPTH
    ensures var spot := ValueSpot(s, i, depth);
            Stopped(s, spot, ScanValue(s, i, depth).error) && Placed(s, spot, limit) && i <= Pos(spot)
  {
    hide ScanValue, ValuePlace;
  }

  lemma {:induction false} ElemsSpotPlaced(s: string, i: nat, depth: nat, limit: nat)
    requires i <= |s| && depth <= MAX_DEPTH <= limit && ScanElems(s, i, depth).Err?
    requires ElemsPlace(s[..i], depth, limit)
    ensures var spot := ElemsSpot(s, i, depth);
            Stopped(s, spot, ScanElems(s, i, depth).error) && Placed(s, spot, limit) && i <= Pos(spot)
    decreases |s| - i, 1
  {
    hide ScanValue, ScanElems, ValuePlace, ElemsPlace, ItemPlace, Stopped, Placed, ValueSpot, TreeThen;
    ElemsStep(s, i, depth);
    var r := ScanValue(s, i, depth);
    if r.Err? {
      ElementPlace(s[..i], depth, limit);
      ValueSpotPlaced(s, i, depth, limit);
      ElemsErr(s, i, depth);
    } else {
      var e := r.value;
      var t := ScannedText(s, i, depth, e);
      var a := AfterItem(s, e, ']');
      if a.Bad? {
        ElementItem(s[..i], depth, limit);
        AfterSpot(s, i, e, ']', depth, limit, a.stop);
      } else {
        var after, lead := ItemText(s, i, e, ']', a.at, t);
        NextElementPlace(s[..i], depth, limit, t, after, lead);
        assert s[..i] + s[i..a.at] == s[..a.at];
        ElemsSpotPlaced(s, a.at, depth, limit);
      }
    }
  }

  lemma ElemsErr(s: string, i: nat, depth: nat)
    requires i <= |s| && ScanValue(s, i, depth).Err?
    ensures ScanElems(s, i, depth) == ScanValue(s, i, depth)
  {
    hide ScanValue;
  }

  lemma AfterSpot(s: string, v: nat, e: nat, close: char, depth: nat, limit: nat, stop: Stop)
    requires v <= |s| && depth <= MAX_DEPTH && ScanValue(s, v, depth) == Ok(e) && AfterItem(s, e, close) == Bad(stop)
    requires (close == ']' || close == '}') && ItemPlace(s[..v], close, depth, limit)
    ensures Stopped(s, After(v, e, close, depth), stop) && Placed(s, After(v, e, close, depth), limit)
  {
    hide ScanValue, ItemPlace, AfterItem;
  }

  lemma {:induction false} MembersSpotPlaced(s: string, i: nat, depth: nat, limit: nat)
    requires i <= |s| && depth <= MAX_DEPTH <= limit && ScanMembers(s, i, depth).Err?
    requires MembersPlace(s[..i], depth, limit)
    ensures var spot := MembersSpot(s, i, depth);
            Stopped(s, spot, ScanMembers(s, i, depth).error) && Placed(s, spot, limit) && i <= Pos(spot)
    decreases |s| - i, 1
  {
    hide ScanValue, ScanMembers, MemberHead, ValuePlace, MembersPlace, ItemPlace, Stopped, Placed, ValueSpot, TreeThen,
         HeadThen;
    MembersStep(s, i, depth);
    var h := MemberHead(s, i);
    if h.Err? {
      NameSpot(s, i, depth, limit);
    } else {
      var v := h.value;
      var key, b, a := HeadText(s, i, v);
      var r := ScanValue(s, v, depth);
      assert s[..i] + s[i..v] == s[..v];
      if r.Err? {
        MemberValuePlace(s[..i], depth, limit, key, b, a);
        ValueSpotPlaced(s, v, depth, limit);
        MembersErr(s, i, depth);
      } else {
        var e := r.value;
        var t := ScannedText(s, v, depth, e);
        var n := AfterItem(s, e, '}');
        if n.Bad? {
          MemberItem(s[..i], depth, limit, key, b, a);
          AfterSpot(s, v, e, '}', depth, limit, n.stop);
        } else {
          var after, lead := ItemText(s, v, e, '}', n.at, t);
          NextMemberPlace(s[..i], depth, limit, key, b, a, t, after, lead);
          HeadSplit(key, b, a, "", s[v..n.at]);
          assert "" + s[v..n.at] == s[v..n.at];
          JoinSlices(s, i, v, n.at);
          MembersSpotPlaced(s, n.at, depth, limit);
        }
      }
    }
  }

  lemma NameSpot(s: string, i: nat, depth: nat, limit: nat)
    requires i <= |s| && depth <= MAX_DEPTH && MemberHead(s, i).Err? && MembersPlace(s[..i], depth, limit)
    ensures ScanMembers(s, i, depth) == MemberHead(s, i) && MembersSpot(s, i, depth) == AtName(i, depth)
    ensures Stopped(s, AtName(i, depth), MemberHead(s, i).error) && Placed(s, AtName(i, depth), limit)
  {
    hide MemberHead, MembersPlace;
  }

  lemma MembersErr(s: string, i: nat, depth: nat)
    requires i <= |s| && MemberHead(s, i).Ok? && ScanValue(s, MemberHead(s, i).value, depth).Err?
    ensures ScanMembers(s, i, depth) == ScanValue(s, MemberHead(s, i).value, depth)
  {
    hide ScanValue, MemberHead;
  }

  // ----- The same spot in another text --------------------------------------------------------------

  /** The text goes wrong at the spot, for whatever reason. */
  predicate Fails(r: string, spot: Spot) {
    match spot
    case AtValue(p, d) => p <= |r| && ScanValue(r, p, d).Err?
    case AtName(p, _) => p <= |r| && MemberHead(r, p).Err?
    case After(v, _, close, d) =>
      v <= |r| && (ScanValue(r, v, d).Err? || AfterItem(r, ScanValue(r, v, d).value, close).Bad?)
  }

  /** `r` is like `s` up to the spot, and has there the same character or one that closes nothing. */
  predicate Reaches(s: string, r: string, spot: Spot) {
    var q := Pos(spot);
    && Agree(s, r, q) && q < |r| && !IsWs(r[q])
    && ((q < |s| && r[q] == s[q]) || (r[q] != ']' && r[q] != '}'))
  }

  /** Then a scan of it gets there, and fails as a whole if it fails there. */
  lemma {:induction false} ValueStays(s: string, r: string, i: nat, depth: nat)
    requires i <= |s| && depth <= MAX_DEPTH && ScanValue(s, i, depth).Err? && i <= Pos(ValueSpot(s, i, depth))
    requires var spot := ValueSpot(s, i, depth); Reaches(s, r, spot) && Fails(r, spot)
    ensures i <= |r| && ScanValue(r, i, depth).Err?
    decreases |s| - i, 0
  {
    hide ScanValue, ScanElems, ScanMembers, ElemsSpot, MembersSpot, MemberHead, AfterItem;
    if Opens(s, i) && depth + 1 <= MAX_DEPTH {
      var j := SkipWs(s, i + 1);
      ContainerStep(s, i, depth);
      if s[i] == '[' {
        ElemsSpotAfter(s, j, depth + 1);
        SkipWsIs(r, i + 1, j);
        ContainerStep(r, i, depth);
        ElemsStays(s, r, j, depth + 1);
      } else {
        MembersSpotAfter(s, j, depth + 1);
        SkipWsIs(r, i + 1, j);
        ContainerStep(r, i, depth);
        MembersStays(s, r, j, depth + 1);
      }
    }
  }

  predicate NotWsAt(s: string, p: nat) { p < |s| ==> !IsWs(s[p]) }

  lemma {:induction false} ValueSpotAfter(s: string, i: nat, depth: nat)
    requires i <= |s| && ScanValue(s, i, depth).Err?
    ensures i <= Pos(ValueSpot(s, i, depth)) <= |s|
    ensures NotWsAt(s, i) ==> NotWsAt(s, Pos(ValueSpot(s, i, depth)))
    decreases |s| - i, 0
  {
    hide ScanValue, ScanElems, ScanMembers, ElemsSpot, MembersSpot;
    if Opens(s, i) && depth + 1 <= MAX_DEPTH {
      ContainerStep(s, i, depth);
      if s[i] == '[' {
        ElemsSpotAfter(s, SkipWs(s, i + 1), depth + 1);
      } else {
        MembersSpotAfter(s, SkipWs(s, i + 1), depth + 1);
      }
    }
  }

  lemma {:induction false} ElemsSpotAfter(s: string, i: nat, depth: nat)
    requires i <= |s| && ScanElems(s, i, depth).Err?
    ensures i <= Pos(ElemsSpot(s, i, depth)) <= |s|
    ensures NotWsAt(s, i) ==> NotWsAt(s, Pos(ElemsSpot(s, i, depth)))
    decreases |s| - i, 1
  {
    hide ScanValue, ValueSpot;
    var v := ScanValue(s, i, depth);
    if v.Err? {
      ValueSpotAfter(s, i, depth);
    } else {
      var a := AfterItem(s, v.value, ']');
      if a.Next? {
        NextEnds(s, v.value, ']', a.at);
        ElemsSpotAfter(s, a.at, depth);
      }
    }
  }

  lemma {:induction false} MembersSpotAfter(s: string, i: nat, depth: nat)
    requires i <= |s| && ScanMembers(s, i, depth).Err?
    ensures i <= Pos(MembersSpot(s, i, depth)) <= |s|
    ensures NotWsAt(s, i) ==> NotWsAt(s, Pos(MembersSpot(s, i, depth)))
    decreases |s| - i, 1
  {
    hide ScanValue, ValueSpot, MemberHead;
    var h := MemberHead(s, i);
    if h.Ok? {
      HeadEnds(s, i, h.value);
      var v := ScanValue(s, h.value, depth);
      if v.Err? {
        ValueSpotAfter(s, h.value, depth);
      } else {
        var a := AfterItem(s, v.value, '}');
        if a.Next? {
          NextEnds(s, v.value, '}', a.at);
          MembersSpotAfter(s, a.at, depth);
        }
      }
    }
  }

  lemma {:induction false} ElemsStays(s: string, r: string, i: nat, depth: nat)
    requires i <= |s| && depth <= MAX_DEPTH && ScanElems(s, i, depth).Err?
    requires var spot := ElemsSpot(s, i, depth); Reaches(s, r, spot) && Fails(r, spot)
    ensures i <= |r| && ScanElems(r, i, depth).Err?
    decreases |s| - i, 1
  {
    hide ScanValue, ScanElems, ValueSpot, AfterItem, Follows;
    ElemsSpotAfter(s, i, depth);
    ElemsStep(s, i, depth);
    ElemsStep(r, i, depth);
    var v := ScanValue(s, i, depth);
    if v.Err? {
      ValueSpotAfter(s, i, depth);
      ValueStays(s, r, i, depth);
    } else {
      var a := AfterItem(s, v.value, ']');
      if a.Next? {
        ElemsSpotAfter(s, a.at, depth);
        NextEnds(s, v.value, ']', a.at);
        NonWsAhead(s, r, a.at, ElemsSpot(s, a.at, depth));
        NextStays(s, r, v.value, ']', a.at);
        OkStays(s, r, i, depth, v.value);
        ElemsStays(s, r, a.at, depth);
      }
    }
  }

  lemma {:induction false} MembersStays(s: string, r: string, i: nat, depth: nat)
    requires i <= |s| && depth <= MAX_DEPTH && ScanMembers(s, i, depth).Err?
    requires var spot := MembersSpot(s, i, depth); Reaches(s, r, spot) && Fails(r, spot)
    ensures i <= |r| && ScanMembers(r, i, depth).Err?
    decreases |s| - i, 1
  {
    hide ScanValue, ScanMembers, ValueSpot, MemberHead, AfterItem, Follows;
    MembersSpotAfter(s, i, depth);
    MembersStep(s, i, depth);
    MembersStep(r, i, depth);
    var h := MemberHead(s, i);
    if h.Err? {
      MembersFail(r, i, depth);
    } else {
      var v := ScanValue(s, h.value, depth);
      HeadEnds(s, i, h.value);
      if v.Err? {
        ValueSpotAfter(s, h.value, depth);
        NonWsAhead(s, r, h.value, ValueSpot(s, h.value, depth));
        HeadStays(s, r, i, h.value);
        ValueStays(s, r, h.value, depth);
        MembersFail(r, i, depth);
      } else {
        var a := AfterItem(s, v.value, '}');
        if a.Next? {
          MembersSpotAfter(s, a.at, depth);
          NextEnds(s, v.value, '}', a.at);
          NonWsAhead(s, r, a.at, MembersSpot(s, a.at, depth));
          NextStays(s, r, v.value, '}', a.at);
          OkStays(s, r, h.value, depth, v.value);
          AgreeAt(s, r, a.at, h.value);
          HeadStays(s, r, i, h.value);
          MembersStays(s, r, a.at, depth);
        } else {
          NonWsAhead(s, r, h.value, MembersSpot(s, i, depth));
          HeadStays(s, r, i, h.value);
          MembersFail(r, i, depth);
        }
      }
    }
  }

  lemma AgreeAt(s: string, r: string, n: nat, j: nat)
    requires Agree(s, r, n) && j < n && !IsWs(s[j])
    ensures j < |r| && !IsWs(r[j]) && Agree(s, r, j)
  {
  }

  /** A member whose name, value or follower fails makes the whole fail. */
  lemma MembersFail(r: string, i: nat, depth: nat)
    requires i <= |r|
    ensures MemberHead(r, i).Err? ==> ScanMembers(r, i, depth).Err?
    ensures MemberHead(r, i).Ok? ==>
              var v := ScanValue(r, MemberHead(r, i).value, depth);
              v.Err? || AfterItem(r, v.value, '}').Bad? ==> ScanMembers(r, i, depth).Err?
  {
    hide ScanValue, MemberHead, AfterItem;
  }

  lemma HeadEnds(s: string, i: nat, v: nat)
    requires i <= |s| && MemberHead(s, i) == Ok(v)
    ensures v <= |s| && (v < |s| ==> !IsWs(s[v]))
  {
    hide ScanString;
  }

  lemma NextEnds(s: string, e: nat, close: char, j: nat)
    requires e <= |s| && AfterItem(s, e, close) == Next(j)
    ensures e < j <= |s| && (j < |s| ==> !IsWs(s[j]))
  {
  }

  /** What a skip of white space stopped at is not white space in the other text either. */
  lemma NonWsAhead(s: string, r: string, j: nat, spot: Spot)
    requires Reaches(s, r, spot) && j <= Pos(spot) && (j < |s| ==> !IsWs(s[j])) && Pos(spot) <= |s|
    ensures j < |r| && !IsWs(r[j]) && Agree(s, r, j)
  {
  }
}
