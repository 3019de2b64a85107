/** The scanner accepts exactly the documents of the grammar. */
module JsonAcceptance {
  import opened Wrappers
  import opened JsonGrammar
  import opened JsonScanner
  import opened JsonTheorems

  /** No value starts like white space or a closing bracket. */
  predicate ValueStart(x: string) { x != "" && !IsWs(x[0]) && x[0] != ']' && x[0] != '}' }

  lemma WordStart(w: string)
    requires w in WORDS
    ensures ValueStart(w) && WordFor(w[0]) == w && w[0] != '"' && w[0] != '{' && w[0] != '['
  {
  }

  lemma TreeStart(t: Tree, k: string)
    requires TreeOk(t)
    ensures ValueStart(TreeThen(t, k))
  {
    match t
    case Word(w) => WordStart(w);
    case Number(_, _, _, _) =>
    case Text(_) =>
    case Array(_, _) =>
    case Object(_, _) =>
  }

  // ----- The scanner, one step at a time --------------------------------------

  lemma ValueStep(s: string, i: nat, depth: nat)
    requires i < |s|
    ensures s[i] == '"' ==> ScanValue(s, i, depth) == ScanString(s, i + 1, i)
    ensures s[i] == '[' && depth < MAX_DEPTH ==> ScanValue(s, i, depth) == ScanArray(s, i + 1, depth + 1)
    ensures s[i] == '{' && depth < MAX_DEPTH ==> ScanValue(s, i, depth) == ScanObject(s, i + 1, depth + 1)
    ensures (s[i] == '{' || s[i] == '[') && depth >= MAX_DEPTH ==> ScanValue(s, i, depth) == Err(TooDeep)
    ensures s[i] != '"' && s[i] != '{' && s[i] != '[' ==>
              ScanValue(s, i, depth) ==
                if WordLength(s, i) != 0 then Ok(i + WordLength(s, i)) else ScanNumber(s, i)
  {
  }

  lemma ElemsStep(s: string, i: nat, depth: nat)
    requires i <= |s|
    ensures ScanElems(s, i, depth).Ok? ==> ScanValue(s, i, depth).Ok?
    ensures ScanValue(s, i, depth).Ok? ==>
            match AfterItem(s, ScanValue(s, i, depth).value, ']')
            case Closed(end) => ScanElems(s, i, depth) == Ok(end)
            case Bad(stop) => ScanElems(s, i, depth) == Err(stop)
            case Next(j) => ScanElems(s, i, depth) == ScanElems(s, j, depth)
  {
  }

  lemma MembersStep(s: string, i: nat, depth: nat)
    requires i <= |s|
    ensures ScanMembers(s, i, depth).Ok? ==> MemberHead(s, i).Ok? && ScanValue(s, MemberHead(s, i).value, depth).Ok?
    ensures MemberHead(s, i).Ok? && ScanValue(s, MemberHead(s, i).value, depth).Ok? ==>
            match AfterItem(s, ScanValue(s, MemberHead(s, i).value, depth).value, '}')
            case Closed(end) => ScanMembers(s, i, depth) == Ok(end)
            case Bad(stop) => ScanMembers(s, i, depth) == Err(stop)
            case Next(j) => ScanMembers(s, i, depth) == ScanMembers(s, j, depth)
  {
  }

  // ----- Every tree is scanned to its end ------------------------------------

  lemma WordComplete(s: string, i: nat, w: string, k: string)
    requires w in WORDS && Rest(s, i, w + k)
    ensures i < |s| && s[i] == w[0] && WordLength(s, i) == |w| && Rest(s, i + |w|, k)
  {
    WordStart(w);
    RestDrop(s, i, w, k);
    assert s[i] == w[0];
    assert s[i..i + |w|] == w;
  }

  /** `r` stopped with exactly `k` left to read. */
  predicate Left(r: Scan, s: string, k: string) { r.Ok? && Rest(s, r.value, k) }

  /** Only a number depends on what follows it. */
  lemma {:induction false} ValueComplete(s: string, i: nat, t: Tree, k: string, depth: nat)
    requires TreeOk(t) && Rest(s, i, TreeThen(t, k)) && (t.Number? ==> Follows(k))
    requires depth + Nesting(t) <= MAX_DEPTH
    ensures Left(ScanValue(s, i, depth), s, k)
    decreases t, 1
  {
    hide ScanValue, ScanNumber, ScanArray, ScanObject, ScanString;
    match t
    case Word(w) =>
      WordComplete(s, i, w, k);
      WordStart(w);
      ValueStep(s, i, depth);
    case Number(neg, w, f, e) =>
      NumberComplete(s, i, neg, w, f, e, k);
      ValueStep(s, i, depth);
    case Text(ks) =>
      QuotedComplete(s, i, ks, k);
      ValueStep(s, i, depth);
    case Array(lead, es) =>
      RestDrop(s, i, "[", lead + ElemsThen(es, "]" + k));
      ValueStep(s, i, depth);
      ArrayComplete(s, i + 1, lead, es, k, depth + 1);
    case Object(lead, ms) =>
      RestDrop(s, i, "{", lead + MembersThen(ms, "}" + k));
      ValueStep(s, i, depth);
      ObjectComplete(s, i + 1, lead, ms, k, depth + 1);
  }

  lemma FirstElem(s: string, i: nat, lead: string, x: string, depth: nat)
    requires AllWs(lead) && ValueStart(x) && Rest(s, i, lead + x)
    ensures i + |lead| <= |s| && Rest(s, i + |lead|, x)
    ensures ScanArray(s, i, depth) == ScanElems(s, i + |lead|, depth)
  {
    hide ScanElems;
    SkipTo(s, i, lead, x);
  }

  lemma EmptyArray(s: string, i: nat, lead: string, k: string, depth: nat)
    requires AllWs(lead) && Rest(s, i, lead + ("]" + k))
    ensures Left(ScanArray(s, i, depth), s, k)
  {
    SkipTo(s, i, lead, "]" + k);
    RestDrop(s, i + |lead|, "]", k);
  }

  lemma {:induction false} ArrayComplete(s: string, i: nat, lead: string, es: Elems, k: string, depth: nat)
    requires AllWs(lead) && ElemsOk(es) && Rest(s, i, lead + ElemsThen(es, "]" + k))
    requires depth + ElemsNesting(es) <= MAX_DEPTH
    ensures Left(ScanArray(s, i, depth), s, k)
    decreases es, 1
  {
    hide ScanArray, ScanElems, TreeThen;
    if es.NoElems? {
      EmptyArray(s, i, lead, k, depth);
    } else {
      ElemsStart(es, "]" + k);
      FirstElem(s, i, lead, ElemsThen(es, "]" + k), depth);
      ElemsComplete(s, i + |lead|, es, k, depth);
    }
  }

  lemma ElemsStart(es: Elems, k: string)
    requires ElemsOk(es) && !es.NoElems?
    ensures ValueStart(ElemsThen(es, k))
  {
    match es
    case LastElem(v, after) => TreeStart(v, after + k);
    case MoreElems(v, after, lead, rest) => TreeStart(v, after + ("," + (lead + ElemsThen(rest, k))));
  }

  /** White space and the bracket after a value. */
  lemma CloseComplete(s: string, e: nat, after: string, close: char, k: string)
    requires AllWs(after) && Rest(s, e, after + ([close] + k)) && (close == ']' || close == '}')
    ensures AfterItem(s, e, close) == Closed(|s| - |k|) && Rest(s, |s| - |k|, k)
  {
    SkipTo(s, e, after, [close] + k);
    RestDrop(s, e + |after|, [close], k);
  }

  /** White space, a comma, and white space up to the next item. */
  lemma CommaComplete(s: string, e: nat, after: string, lead: string, close: char, k: string)
    requires AllWs(after) && AllWs(lead) && k != "" && !IsWs(k[0])
    requires Rest(s, e, after + ("," + (lead + k))) && (close == ']' || close == '}')
    ensures AfterItem(s, e, close) == Next(|s| - |k|) && Rest(s, |s| - |k|, k)
  {
    SkipTo(s, e, after, "," + (lead + k));
    RestDrop(s, e + |after|, ",", lead + k);
    SkipTo(s, e + |after| + 1, lead, k);
  }

  lemma FollowsWs(after: string, k: string)
    requires AllWs(after) && Follows(k)
    ensures Follows(after + k)
  {
    if after == "" { assert after + k == k; }
  }

  lemma LastElemComplete(s: string, i: nat, after: string, k: string, depth: nat)
    requires i <= |s| && AllWs(after) && Left(ScanValue(s, i, depth), s, after + ("]" + k))
    ensures Left(ScanElems(s, i, depth), s, k)
  {
    hide ScanElems, ScanValue;
    ElemsStep(s, i, depth);
    CloseComplete(s, ScanValue(s, i, depth).value, after, ']', k);
  }

  lemma MoreElemsComplete(s: string, i: nat, after: string, lead: string, x: string, depth: nat)
    requires i <= |s| && AllWs(after) && AllWs(lead) && ValueStart(x)
    requires Left(ScanValue(s, i, depth), s, after + ("," + (lead + x)))
    ensures |x| <= |s| && Rest(s, |s| - |x|, x) && ScanElems(s, i, depth) == ScanElems(s, |s| - |x|, depth)
  {
    hide ScanElems, ScanValue;
    ElemsStep(s, i, depth);
    CommaComplete(s, ScanValue(s, i, depth).value, after, lead, ']', x);
  }

  lemma {:induction false} ElemsComplete(s: string, i: nat, es: Elems, k: string, depth: nat)
    requires ElemsOk(es) && !es.NoElems? && Rest(s, i, ElemsThen(es, "]" + k))
    requires depth + ElemsNesting(es) <= MAX_DEPTH
    ensures Left(ScanElems(s, i, depth), s, k)
    decreases es, 0
  {
    hide ScanElems, ScanValue, Rest;
    match es
    case LastElem(v, after) =>
      FollowsWs(after, "]" + k);
      ValueComplete(s, i, v, after + ("]" + k), depth);
      LastElemComplete(s, i, after, k, depth);
    case MoreElems(v, after, lead, rest) =>
      var x := ElemsThen(rest, "]" + k);
      ElemsStart(rest, "]" + k);
      FollowsWs(after, "," + (lead + x));
      ValueComplete(s, i, v, after + ("," + (lead + x)), depth);
      MoreElemsComplete(s, i, after, lead, x, depth);
      ElemsComplete(s, |s| - |x|, rest, k, depth);
  }

  lemma {:induction false} ObjectComplete(s: string, i: nat, lead: string, ms: Members, k: string, depth: nat)
    requires AllWs(lead) && MembersOk(ms) && Rest(s, i, lead + MembersThen(ms, "}" + k))
    requires depth + MembersNesting(ms) <= MAX_DEPTH
    ensures Left(ScanObject(s, i, depth), s, k)
    decreases ms, 1
  {
    hide ScanMembers;
    var x := MembersThen(ms, "}" + k);
    if ms.NoMembers? {
      SkipTo(s, i, lead, x);
      RestDrop(s, i + |lead|, "}", k);
    } else {
      MembersStart(ms, "}" + k);
      SkipTo(s, i, lead, x);
      MembersComplete(s, i + |lead|, ms, k, depth);
    }
  }

  lemma MembersStart(ms: Members, k: string)
    requires !ms.NoMembers?
    ensures MembersThen(ms, k) != "" && MembersThen(ms, k)[0] == '"'
  {
  }

  lemma HeadComplete(s: string, i: nat, key: seq<Chunk>, b: string, a: string, k: string)
    requires ChunksOk(key) && AllWs(b) && AllWs(a) && k != "" && !IsWs(k[0])
    requires Rest(s, i, HeadThen(key, b, a, k))
    ensures Left(MemberHead(s, i), s, k)
  {
    QuotedComplete(s, i, key, b + (":" + (a + k)));
    var c := |s| - |b + (":" + (a + k))|;
    SkipTo(s, c, b, ":" + (a + k));
    RestDrop(s, c + |b|, ":", a + k);
    SkipTo(s, c + |b| + 1, a, k);
  }

  lemma LastMemberComplete(s: string, i: nat, after: string, k: string, depth: nat)
    requires i <= |s| && AllWs(after) && MemberHead(s, i).Ok?
    requires Left(ScanValue(s, MemberHead(s, i).value, depth), s, after + ("}" + k))
    ensures Left(ScanMembers(s, i, depth), s, k)
  {
    hide ScanMembers, ScanValue, MemberHead;
    MembersStep(s, i, depth);
    CloseComplete(s, ScanValue(s, MemberHead(s, i).value, depth).value, after, '}', k);
  }

  lemma MoreMembersComplete(s: string, i: nat, after: string, lead: string, x: string, depth: nat)
    requires i <= |s| && AllWs(after) && AllWs(lead) && ValueStart(x) && MemberHead(s, i).Ok?
    requires Left(ScanValue(s, MemberHead(s, i).value, depth), s, after + ("," + (lead + x)))
    ensures |x| <= |s| && Rest(s, |s| - |x|, x) && ScanMembers(s, i, depth) == ScanMembers(s, |s| - |x|, depth)
  {
    hide ScanMembers, ScanValue, MemberHead;
    MembersStep(s, i, depth);
    CommaComplete(s, ScanValue(s, MemberHead(s, i).value, depth).value, after, lead, '}', x);
  }

  lemma {:induction false} MembersComplete(s: string, i: nat, ms: Members, k: string, depth: nat)
    requires MembersOk(ms) && !ms.NoMembers? && Rest(s, i, MembersThen(ms, "}" + k))
    requires depth + MembersNesting(ms) <= MAX_DEPTH
    ensures Left(ScanMembers(s, i, depth), s, k)
    decreases ms, 0
  {
    hide ScanMembers, ScanValue, MemberHead, TreeThen, HeadThen;
    var y := match ms
             case LastMember(_, _, _, _, after) => after + ("}" + k)
             case MoreMembers(_, _, _, _, after, lead, rest) => after + ("," + (lead + MembersThen(rest, "}" + k)));
    TreeStart(ms.v, y);
    HeadComplete(s, i, ms.key, ms.beforeColon, ms.afterColon, TreeThen(ms.v, y));
    match ms
    case LastMember(_, _, _, v, after) =>
      FollowsWs(after, "}" + k);
      ValueComplete(s, MemberHead(s, i).value, v, y, depth);
      LastMemberComplete(s, i, after, k, depth);
    case MoreMembers(_, _, _, v, after, lead, rest) =>
      var x := MembersThen(rest, "}" + k);
      MembersStart(rest, "}" + k);
      FollowsWs(after, "," + (lead + x));
      ValueComplete(s, MemberHead(s, i).value, v, y, depth);
      MoreMembersComplete(s, i, after, lead, x, depth);
      MembersComplete(s, |s| - |x|, rest, k, depth);
  }

  // ----- Whatever the scanner accepts is a tree --------------------------------

  lemma WordSound(s: string, i: nat, x: string)
    requires i < |s| && WordLength(s, i) != 0 && Rest(s, i + WordLength(s, i), x)
    ensures WordFor(s[i]) in WORDS && Rest(s, i, WordFor(s[i]) + x)
  {
    var w := WordFor(s[i]);
    assert s[i..i + |w|] == w;
    RestJoin(s, i, i + |w|, x);
  }

  lemma {:induction false} ValueSound(s: string, i: nat, depth: nat, x: string) returns (t: Tree)
    requires i <= |s| && depth <= MAX_DEPTH
    requires ScanValue(s, i, depth).Ok? && Rest(s, ScanValue(s, i, depth).value, x)
    ensures TreeOk(t) && depth + Nesting(t) <= MAX_DEPTH && Rest(s, i, TreeThen(t, x))
    decreases |s| - i, 0
  {
    hide ScanValue, ScanArray, ScanObject, ScanString, ScanNumber, Rest, WordLength, WordFor;
    ValueStep(s, i, depth);
    if s[i] == '"' {
      var ks := QuotedSound(s, i, x);
      t := Text(ks);
    } else if s[i] == '[' {
      var lead, es := ArraySound(s, i + 1, depth + 1, x);
      t := Array(lead, es);
      RestCons(s, i, '[', lead + ElemsThen(es, "]" + x));
    } else if s[i] == '{' {
      var lead, ms := ObjectSound(s, i + 1, depth + 1, x);
      t := Object(lead, ms);
      RestCons(s, i, '{', lead + MembersThen(ms, "}" + x));
    } else if WordLength(s, i) != 0 {
      WordSound(s, i, x);
      t := Word(WordFor(s[i]));
    } else {
      var neg, w, f, e := NumberSound(s, i, x);
      t := Number(neg, w, f, e);
    }
  }

  lemma {:induction false} ArraySound(s: string, i: nat, depth: nat, x: string) returns (lead: string, es: Elems)
    requires i <= |s| && depth <= MAX_DEPTH
    requires ScanArray(s, i, depth).Ok? && Rest(s, ScanArray(s, i, depth).value, x)
    ensures AllWs(lead) && ElemsOk(es) && depth + ElemsNesting(es) <= MAX_DEPTH
    ensures Rest(s, i, lead + ElemsThen(es, "]" + x))
    decreases |s| - i, 2
  {
    var j := SkipWs(s, i);
    if CharAt(s, j, ']') {
      es := NoElems;
      RestCons(s, j, ']', x);
    } else {
      es := ElemsSound(s, j, depth, x);
    }
    lead := WsSound(s, i, ElemsThen(es, "]" + x));
  }

  /** White space and a bracket, as text. */
  lemma CloseSound(s: string, e: nat, close: char, x: string) returns (after: string)
    requires e <= |s| && AfterItem(s, e, close).Closed? && Rest(s, AfterItem(s, e, close).end, x)
    ensures AllWs(after) && Rest(s, e, after + ([close] + x))
  {
    hide Rest;
    RestCons(s, SkipWs(s, e), close, x);
    after := WsSound(s, e, [close] + x);
  }

  /** White space, a comma and white space, as text. */
  lemma CommaSound(s: string, e: nat, close: char, x: string) returns (after: string, lead: string)
    requires e <= |s| && AfterItem(s, e, close).Next? && Rest(s, AfterItem(s, e, close).at, x)
    ensures AllWs(after) && AllWs(lead) && Rest(s, e, after + ("," + (lead + x)))
  {
    hide Rest;
    var j := SkipWs(s, e);
    lead := WsSound(s, j + 1, x);
    RestCons(s, j, ',', lead + x);
    after := WsSound(s, e, "," + (lead + x));
  }

  lemma {:induction false} ElemsSound(s: string, i: nat, depth: nat, x: string) returns (es: Elems)
    requires i <= |s| && depth <= MAX_DEPTH
    requires ScanElems(s, i, depth).Ok? && Rest(s, ScanElems(s, i, depth).value, x)
    ensures ElemsOk(es) && !es.NoElems? && depth + ElemsNesting(es) <= MAX_DEPTH
    ensures Rest(s, i, ElemsThen(es, "]" + x))
    decreases |s| - i, 1
  {
    hide ScanElems, ScanValue, Rest;
    ElemsStep(s, i, depth);
    var e := ScanValue(s, i, depth).value;
    var step := AfterItem(s, e, ']');
    if step.Closed? {
      var after := CloseSound(s, e, ']', x);
      var v := ValueSound(s, i, depth, after + ("]" + x));
      es := LastElem(v, after);
    } else {
      var rest := ElemsSound(s, step.at, depth, x);
      var after, lead := CommaSound(s, e, ']', ElemsThen(rest, "]" + x));
      var v := ValueSound(s, i, depth, after + ("," + (lead + ElemsThen(rest, "]" + x))));
      es := MoreElems(v, after, lead, rest);
    }
  }

  lemma {:induction false} ObjectSound(s: string, i: nat, depth: nat, x: string) returns (lead: string, ms: Members)
    requires i <= |s| && depth <= MAX_DEPTH
    requires ScanObject(s, i, depth).Ok? && Rest(s, ScanObject(s, i, depth).value, x)
    ensures AllWs(lead) && MembersOk(ms) && depth + MembersNesting(ms) <= MAX_DEPTH
    ensures Rest(s, i, lead + MembersThen(ms, "}" + x))
    decreases |s| - i, 2
  {
    var j := SkipWs(s, i);
    if CharAt(s, j, '}') {
      ms := NoMembers;
      RestCons(s, j, '}', x);
    } else {
      ms := MembersSound(s, j, depth, x);
    }
    lead := WsSound(s, i, MembersThen(ms, "}" + x));
  }

  lemma HeadSound(s: string, i: nat, x: string) returns (key: seq<Chunk>, b: string, a: string)
    requires i <= |s| && MemberHead(s, i).Ok? && Rest(s, MemberHead(s, i).value, x)
    ensures ChunksOk(key) && AllWs(b) && AllWs(a) && Rest(s, i, HeadThen(key, b, a, x))
  {
    hide Rest;
    var k := ScanString(s, i + 1, i).value;
    var c := SkipWs(s, k);
    a := WsSound(s, c + 1, x);
    RestCons(s, c, ':', a + x);
    b := WsSound(s, k, ":" + (a + x));
    key := QuotedSound(s, i, b + (":" + (a + x)));
  }

  lemma {:induction false} MembersSound(s: string, i: nat, depth: nat, x: string) returns (ms: Members)
    requires i <= |s| && depth <= MAX_DEPTH
    requires ScanMembers(s, i, depth).Ok? && Rest(s, ScanMembers(s, i, depth).value, x)
    ensures MembersOk(ms) && !ms.NoMembers? && depth + MembersNesting(ms) <= MAX_DEPTH
    ensures Rest(s, i, MembersThen(ms, "}" + x))
    decreases |s| - i, 1
  {
    hide ScanMembers, ScanValue, MemberHead, Rest;
    MembersStep(s, i, depth);
    var j := MemberHead(s, i).value;
    var e := ScanValue(s, j, depth).value;
    var step := AfterItem(s, e, '}');
    if step.Closed? {
      var after := CloseSound(s, e, '}', x);
      var v := ValueSound(s, j, depth, after + ("}" + x));
      var key, b, a := HeadSound(s, i, TreeThen(v, after + ("}" + x)));
      ms := LastMember(key, b, a, v, after);
    } else {
      var rest := MembersSound(s, step.at, depth, x);
      var y := MembersThen(rest, "}" + x);
      var after, lead := CommaSound(s, e, '}', y);
      var v := ValueSound(s, j, depth, after + ("," + (lead + y)));
      var key, b, a := HeadSound(s, i, TreeThen(v, after + ("," + (lead + y))));
      ms := MoreMembers(key, b, a, v, after, lead, rest);
    }
  }

  // ----- The theorem ------------------------------------------------------------

  lemma AcceptedIsDocument(text: string)
    requires DecodeErrorOf(text) == None
    ensures IsDocument(text, MAX_DEPTH)
  {
    var i := SkipWs(text, 0);
    var e := ScanValue(text, i, 0).value;
    var tail := WsSound(text, e, "");
    assert tail + "" == tail;
    var t := ValueSound(text, i, 0, tail);
    var lead := WsSound(text, 0, TreeThen(t, tail));
    assert text == lead + TreeThen(t, tail);
  }

  lemma DocumentIsAccepted(text: string, lead: string, t: Tree, tail: string)
    requires AllWs(lead) && AllWs(tail) && TreeOk(t) && Nesting(t) <= MAX_DEPTH
    requires text == lead + TreeThen(t, tail)
    ensures DecodeErrorOf(text) == None
  {
    hide ScanValue;
    TreeStart(t, tail);
    SkipTo(text, 0, lead, TreeThen(t, tail));
    FollowsWs(tail, "");
    assert tail + "" == tail;
    ValueComplete(text, |lead|, t, tail, 0);
    SkipTo(text, ScanValue(text, |lead|, 0).value, tail, "");
  }

  /** No error is reported exactly for the documents of the grammar nested at
      most 900 deep. */
  lemma AcceptsExactlyTheGrammar(text: string)
    ensures DecodeErrorOf(text) == None <==> IsDocument(text, MAX_DEPTH)
  {
    if DecodeErrorOf(text) == None {
      AcceptedIsDocument(text);
    }
    if IsDocument(text, MAX_DEPTH) {
      var lead: string, t: Tree, tail: string :|
        AllWs(lead) && AllWs(tail) && TreeOk(t) && Nesting(t) <= MAX_DEPTH && text == lead + TreeThen(t, tail);
      DocumentIsAccepted(text, lead, t, tail);
    }
  }
}
