/** Every error of `python_decode_error` (backend-rs/src/pyjson.rs), explained by the grammar. */
module JsonErrorMeaning {
  import opened Wrappers
  import opened JsonGrammar
  import opened JsonScanner
  import opened JsonTheorems
  import opened JsonAcceptance
  import opened JsonErrors
  import JsonUnique

  /** No document the scanner would take begins with `x`. */
  ghost predicate Dead(x: string) { !Viable(x, MAX_DEPTH) }

  /** A slash, which only the inside of a string can hold, cannot stand at `p`. */
  ghost predicate Outside(s: string, p: nat)
    requires p <= |s|
  {
    Dead(s[..p] + "/")
  }

  /** An ordinary character can stand at `p`: it is inside a string and not inside an escape. */
  ghost predicate InString(s: string, p: nat)
    requires p <= |s|
  {
    Viable(s[..p] + "x", MAX_DEPTH)
  }

  /** A number that could go on with `c`. */
  predicate Continues(number: string, c: char) {
    && 'e' !in number && 'E' !in number
    && (c == 'e' || c == 'E' || (c == '.' && '.' !in number))
  }

  /** What stands at `p` is a whole fraction or exponent, at least its beginning up to a digit. */
  predicate Finishes(s: string, p: nat) {
    || (CharAt(s, p, '.') && DigitAt(s, p + 1))
    || ((CharAt(s, p, 'e') || CharAt(s, p, 'E')) &&
        (DigitAt(s, p + 1) || ((CharAt(s, p + 1, '+') || CharAt(s, p + 1, '-')) && DigitAt(s, p + 2))))
  }

  /** From the quote at `p` on the text is a literal without an end; it stops behind a backslash, or
      behind a chunk that is not a `\u` escape. */
  ghost predicate LeftOpen(s: string, p: nat)
    requires p <= |s|
  {
    exists ks: seq<Chunk>, rest: string ::
      && ChunksOk(ks) && s[p..] == "\"" + ChunksThen(ks, rest)
      && (rest == "\\" || (rest == "" && (ks == [] || !ks[|ks| - 1].Unicode?)))
  }

  /** The value `t` and white space stand from `v` to `p`, and no document goes on with what comes at
      `p`, unless `t` is a number and that could be more of it, but is not. */
  ghost predicate Complete(s: string, v: nat, t: Tree, after: string, p: nat)
    requires v <= p <= |s|
  {
    && TreeOk(t) && AllWs(after) && s[v..p] == TreeThen(t, after) && NotWsAt(s, p)
    && (after == "" && t.Number? && p < |s| && Continues(s[v..p], s[p]) ==> !Finishes(s, p))
    && (p < |s| ==>
          (Viable(s[..p + 1], MAX_DEPTH) <==> after == "" && t.Number? && Continues(s[v..p], s[p])))
  }

  /** What each error says. */
  ghost predicate Explains(s: string, error: DecodeError) {
    match error
    case NestedTooDeep =>
      exists p :: 0 <= p < |s| && Opens(s, p) && Viable(s[..p + 1], MAX_DEPTH + 1) && Dead(s[..p + 1])
    case Invalid(msg, p) =>
      && p <= |s|
      && match msg {
           case ExpectingValue =>
             && Outside(s, p) && NotWsAt(s, p) && Viable(s[..p] + "null", MAX_DEPTH)
             && !Opens(s, p) && !CharAt(s, p, '"')
             && forall t: Tree, k: string :: TreeOk(t) ==> s[p..] != TreeThen(t, k)
           case PropertyName =>
             && Outside(s, p) && NotWsAt(s, p) && Viable(s[..p] + "\"", MAX_DEPTH)
             && !CharAt(s, p, '"') && (p < |s| ==> Dead(s[..p + 1])) && Dead(s[..p] + "null")
           case ColonDelimiter =>
             && Outside(s, p) && NotWsAt(s, p) && Viable(s[..p] + ":", MAX_DEPTH)
             && !CharAt(s, p, ':') && (p < |s| ==> Dead(s[..p + 1]))
           case CommaDelimiter =>
             exists v, t: Tree, after: string, close: char ::
               && 0 <= v <= p && Outside(s, v) && Complete(s, v, t, after, p) && (close == ']' || close == '}')
               && Viable(s[..p] + ",", MAX_DEPTH) && Viable(s[..p] + [close], MAX_DEPTH)
               && !CharAt(s, p, ',') && !CharAt(s, p, close)
           case ExtraData =>
             exists v, t: Tree, after: string ::
               && 0 <= v <= p < |s| && AllWs(s[..v]) && Nesting(t) <= MAX_DEPTH && Complete(s, v, t, after, p)
           case UnterminatedString =>
             && Outside(s, p) && CharAt(s, p, '"') && Viable(s, MAX_DEPTH) && LeftOpen(s, p)
             && forall ks: seq<Chunk>, k: string :: ChunksOk(ks) ==> s[p..] != QuotedThen(ks, k)
           case ControlCharacter =>
             p < |s| && InString(s, p) && s[p] < ' ' && Dead(s[..p + 1])
           case InvalidEscape =>
             && p + 1 < |s| && InString(s, p) && s[p] == '\\'
             && s[p + 1] != 'u' && !IsSimpleEscape(s[p + 1]) && Dead(s[..p + 2])
           case InvalidUnicodeEscape =>
             && 0 < p < |s| && InString(s, p - 1) && s[p - 1] == '\\' && s[p] == 'u'
             && (p + 5 < |s| ==> !Hex4At(s, p + 1) && Dead(s[..p + 5]))
         }
  }

  // ----- No document goes on ------------------------------------------------------------------------

  lemma Doomed(s: string, d: string)
    requires ScanValue(s, SkipWs(s, 0), 0).Err?
    requires var spot := ValueSpot(s, SkipWs(s, 0), 0); Reaches(s, d, spot) && Fails(d, spot)
    ensures !IsDocument(d, MAX_DEPTH)
  {
    hide ScanValue, ValueSpot, Fails, IsDocument;
    var i := SkipWs(s, 0);
    ValueSpotAfter(s, i, 0);
    NonWsAhead(s, d, i, ValueSpot(s, i, 0));
    SkipWsIs(d, 0, i);
    ValueStays(s, d, i, 0);
    AcceptsExactlyTheGrammar(d);
    ErrIsError(d);
  }

  lemma ErrIsError(d: string)
    requires ScanValue(d, SkipWs(d, 0), 0).Err?
    ensures DecodeErrorOf(d).Some?
  {
    hide ScanValue;
  }

  /** `x` agrees with `s` up to the spot, has a fitting character there, and whatever it goes on with fails. */
  lemma DeadThere(s: string, x: string)
    requires ScanValue(s, SkipWs(s, 0), 0).Err?
    requires var spot := ValueSpot(s, SkipWs(s, 0), 0);
             Reaches(s, x, spot) && forall y: string :: Fails(x + y, spot)
    ensures Dead(x)
  {
    hide ScanValue, ValueSpot, Fails, IsDocument;
    if Viable(x, MAX_DEPTH) {
      var y: string :| IsDocument(x + y, MAX_DEPTH);
      ReachesLonger(s, x, y, ValueSpot(s, SkipWs(s, 0), 0));
      Doomed(s, x + y);
    }
  }

  lemma ReachesLonger(s: string, x: string, y: string, spot: Spot)
    requires Reaches(s, x, spot)
    ensures Reaches(s, x + y, spot)
  {
    var d := x + y;
    assert forall j :: 0 <= j < |x| ==> d[j] == x[j];
  }

  lemma PrefixAgrees(s: string, n: nat, z: string)
    requires n <= |s|
    ensures Agree(s, s[..n] + z, n) && (z != "" ==> (s[..n] + z)[n] == z[0])
  {
  }

  /** A value cannot begin with a slash, nor a name. */
  lemma SlashFails(d: string, p: nat, depth: nat)
    requires p < |d| && d[p] == '/'
    ensures ScanValue(d, p, depth).Err? && MemberHead(d, p).Err?
  {
    hide ScanString, ScanArray, ScanObject;
  }

  lemma SpotIsOutside(s: string)
    requires ScanValue(s, SkipWs(s, 0), 0).Err? && !ValueSpot(s, SkipWs(s, 0), 0).After?
    ensures var q := Pos(ValueSpot(s, SkipWs(s, 0), 0)); q <= |s| && Outside(s, q)
  {
    hide ScanValue, ValueSpot, MemberHead, Viable;
    var spot := ValueSpot(s, SkipWs(s, 0), 0);
    var q := Pos(spot);
    ValueSpotAfter(s, SkipWs(s, 0), 0);
    var x := s[..q] + "/";
    PrefixAgrees(s, q, "/");
    forall y: string ensures Fails(x + y, spot) {
      assert (x + y)[q] == '/';
      SlashFails(x + y, q, spot.depth);
    }
    DeadThere(s, x);
  }

  // ----- Strings ----------------------------------------------------------------------------------------

  /** What is wrong there. */
  predicate StringFault(s: string, stop: Stop) {
    && stop.Msg?
    && match stop.msg {
         case ControlCharacter => stop.at < |s| && s[stop.at] < ' '
         case InvalidEscape =>
           stop.at + 1 < |s| && s[stop.at] == '\\' && s[stop.at + 1] != 'u' && !IsSimpleEscape(s[stop.at + 1])
         case InvalidUnicodeEscape =>
           && 0 < stop.at < |s| && s[stop.at - 1] == '\\' && s[stop.at] == 'u'
           && (stop.at + 5 < |s| ==> !Hex4At(s, stop.at + 1))
         case UnterminatedString => true
         case _ => false
       }
  }

  /** The scan of a string fails at `i` itself, or goes on behind the chunk there. */
  predicate FaultHere(s: string, i: nat) {
    || i >= |s| || (s[i] != '\\' && s[i] < ' ')
    || (s[i] == '\\' &&
        (|| i + 1 == |s| || (s[i + 1] != 'u' && !IsSimpleEscape(s[i + 1]))
         || (s[i + 1] == 'u' && (i + 6 >= |s| || !Hex4At(s, i + 2)))))
  }

  lemma FaultOrChunk(s: string, i: nat, begin: nat)
    requires begin < i <= |s| && ScanSingly(s, i, begin).Err?
    ensures FaultHere(s, i) ==>
              var stop := ScanSingly(s, i, begin).error;
              && StringFault(s, stop)
              && (if stop.msg == UnterminatedString then
                    stop.at == begin && (i == |s| || (i + 1 == |s| && s[i] == '\\'))
                  else i == if stop.msg == InvalidUnicodeEscape then stop.at - 1 else stop.at)
    ensures !FaultHere(s, i) ==>
              var c := ChunkAt(s, i);
              && ChunkOk(c) && i + ChunkSize(c) <= |s|
              && ScanSingly(s, i, begin) == ScanSingly(s, i + ChunkSize(c), begin)
  {
  }

  lemma ChunkSlice(s: string, i: nat, n: nat)
    requires i < |s| && ChunkOk(ChunkAt(s, i)) && i + ChunkSize(ChunkAt(s, i)) <= n <= |s|
    ensures s[i..n] == ChunkThen(ChunkAt(s, i), s[i + ChunkSize(ChunkAt(s, i))..n])
  {
    match ChunkAt(s, i)
    case Plain(_) => assert s[i..n] == [s[i]] + s[i + 1..n];
    case Escape(_) => assert s[i..n] == [s[i], s[i + 1]] + s[i + 2..n];
    case Unicode(_) => assert s[i..n] == [s[i], s[i + 1]] + (s[i + 2..i + 6] + s[i + 6..n]);
  }

  /** The chunks from `i` up to where a string goes wrong. */
  lemma {:induction false} ReadSoFar(s: string, i: nat, begin: nat) returns (ks: seq<Chunk>, n: nat)
    requires begin < i <= |s| && ScanSingly(s, i, begin).Err?
    ensures var stop := ScanSingly(s, i, begin).error;
            && StringFault(s, stop) && ChunksOk(ks) && i <= n <= |s| && s[i..n] == ChunksThen(ks, "")
            && (if stop.msg == UnterminatedString then stop.at == begin && (n == |s| || (n + 1 == |s| && s[n] == '\\'))
                else n == if stop.msg == InvalidUnicodeEscape then stop.at - 1 else stop.at)
    ensures n == |s| && ks != [] ==> !ks[|ks| - 1].Unicode?
    decreases |s| - i
  {
    hide ScanSingly, FaultHere, StringFault;
    FaultOrChunk(s, i, begin);
    if FaultHere(s, i) {
      ks, n := [], i;
    } else {
      InsideText(s, i);
      var c := ChunkAt(s, i);
      var rest;
      rest, n := ReadSoFar(s, i + ChunkSize(c), begin);
      ks := [c] + rest;
      assert ks[1..] == rest;
      ChunkSlice(s, i, n);
      if rest == [] { LastChunk(s, i, n); }
    }
  }

  /** A `\u` escape is read only if something follows it. */
  lemma LastChunk(s: string, i: nat, n: nat)
    requires i < |s| && !FaultHere(s, i) && i + ChunkSize(ChunkAt(s, i)) <= n <= |s|
    requires s[i + ChunkSize(ChunkAt(s, i))..n] == ChunksThen([], "")
    ensures n == |s| ==> !ChunkAt(s, i).Unicode?
  {
    assert |s[i + ChunkSize(ChunkAt(s, i))..n]| == 0;
  }

  lemma InsideText(s: string, i: nat)
    requires !FaultHere(s, i)
    ensures i < |s|
  {
  }

  lemma {:induction false} ChunksJoin(ks: seq<Chunk>, ls: seq<Chunk>, k: string)
    ensures ChunksThen(ks + ls, k) == ChunksThen(ks, ChunksThen(ls, k))
    decreases |ks|
  {
    if ks == [] {
      assert ks + ls == ls;
    } else {
      assert (ks + ls)[1..] == ks[1..] + ls;
      ChunksJoin(ks[1..], ls, k);
    }
  }

  /** A string that is in order up to `n` may go on with `ls` and end. */
  lemma StringGoesOn(s: string, b: nat, n: nat, ks: seq<Chunk>, ls: seq<Chunk>, y: string)
    requires b < n <= |s| && s[b] == '"' && ChunksOk(ks) && ChunksOk(ls)
    requires s[b + 1..n] == ChunksThen(ks, "") && ChunksThen(ls, "\"") == y
    requires StringPlace(s[..b], MAX_DEPTH)
    ensures Viable(s[..n] + y, MAX_DEPTH)
  {
    hide Viable, ChunksThen;
    var all := ks + ls;
    assert ChunksOk(all);
    ChunksJoin(ks, ls, "\"" + "");
    assert "\"" + "" == "\"";
    ChunksSplit(ks, "", y);
    assert "" + y == y;
    assert s[..n] + y == s[..b] + ("\"" + (s[b + 1..n] + y));
    assert QuotedThen(all, "") == "\"" + (s[b + 1..n] + y);
  }

  lemma OneChunk(c: Chunk, y: string)
    requires ChunkThen(c, "\"") == y
    ensures ChunksThen([c], "\"") == y
  {
    assert [c][1..] == [];
  }

  lemma MayHoldX(s: string, b: nat, n: nat, ks: seq<Chunk>)
    requires b < n <= |s| && s[b] == '"' && ChunksOk(ks) && s[b + 1..n] == ChunksThen(ks, "")
    requires StringPlace(s[..b], MAX_DEPTH)
    ensures InString(s, n)
  {
    hide Viable, ChunksThen, StringPlace;
    var y := "x\"";
    OneChunk(Plain('x'), y);
    StringGoesOn(s, b, n, ks, [Plain('x')], y);
    assert s[..n] + y == (s[..n] + "x") + "\"";
    ViableBeginning(s[..n] + "x", "\"", MAX_DEPTH);
  }

  /** An open string may still be closed. */
  lemma MayEnd(s: string, b: nat, n: nat, ks: seq<Chunk>)
    requires b < n <= |s| && s[b] == '"' && ChunksOk(ks) && s[b + 1..n] == ChunksThen(ks, "")
    requires StringPlace(s[..b], MAX_DEPTH) && (n == |s| || (n + 1 == |s| && s[n] == '\\'))
    ensures Viable(s, MAX_DEPTH)
  {
    hide Viable, ChunksThen, StringPlace;
    if n == |s| {
      assert ChunksThen([], "\"") == "\"" by { NoChunks("\""); }
      StringGoesOn(s, b, n, ks, [], "\"");
      assert s[..n] == s;
      ViableBeginning(s, "\"", MAX_DEPTH);
    } else {
      var y := "\\n\"";
      assert ChunkThen(Escape('n'), "\"") == y;
      OneChunk(Escape('n'), y);
      StringGoesOn(s, b, n, ks, [Escape('n')], y);
      assert s[..n] + y == s + "n\"";
      ViableBeginning(s, "n\"", MAX_DEPTH);
    }
  }

  lemma NoChunks(k: string)
    ensures ChunksThen([], k) == k
  {
  }

  /** How much of the text settles the fault. */
  function Settled(stop: Stop): nat
    requires stop.Msg?
  {
    match stop.msg
    case InvalidEscape => stop.at + 2
    case InvalidUnicodeEscape => stop.at + 5
    case _ => stop.at + 1
  }

  /** A fault in a string stays in every text that agrees so far. */
  lemma {:induction false} SinglyStays(s: string, d: string, i: nat, begin: nat)
    requires begin < i <= |s| && ScanSingly(s, i, begin).Err?
    requires var stop := ScanSingly(s, i, begin).error;
             && StringFault(s, stop) && stop.msg != UnterminatedString
             && (stop.msg == InvalidUnicodeEscape ==> stop.at + 5 < |s|) && Agree(s, d, Settled(stop))
    ensures i <= |d| && ScanSingly(d, i, begin).Err?
    decreases |s| - i
  {
    var stop := ScanSingly(s, i, begin).error;
    assert stop.Msg? && (i < |s| ==> s[i] != '"');
    hide ScanSingly, FaultHere, StringFault;
    FaultOrChunk(s, i, begin);
    if FaultHere(s, i) {
      FaultStays(s, d, i, begin);
    } else {
      InsideText(s, i);
      var j := i + ChunkSize(ChunkAt(s, i));
      ReadFurther(s, j, begin);
      SinglyStays(s, d, j, begin);
      ChunkStays(s, d, i, begin);
    }
  }

  lemma FaultStays(s: string, d: string, i: nat, begin: nat)
    requires begin < i <= |s| && ScanSingly(s, i, begin).Err? && FaultHere(s, i)
    requires var stop := ScanSingly(s, i, begin).error;
             && StringFault(s, stop) && stop.msg != UnterminatedString
             && (stop.msg == InvalidUnicodeEscape ==> stop.at + 5 < |s|) && Agree(s, d, Settled(stop))
    ensures i <= |d| && ScanSingly(d, i, begin).Err?
  {
  }

  lemma ChunkStays(s: string, d: string, i: nat, begin: nat)
    requires begin < i < |s| && !FaultHere(s, i) && s[i] != '"' && ChunkOk(ChunkAt(s, i))
    requires var j := i + ChunkSize(ChunkAt(s, i)); j < |s| && j < |d| && Agree(s, d, j)
    ensures ScanSingly(d, i, begin) == ScanSingly(d, i + ChunkSize(ChunkAt(s, i)), begin)
  {
  }

  lemma ReadFurther(s: string, i: nat, begin: nat)
    requires begin < i <= |s| && ScanSingly(s, i, begin).Err? && ScanSingly(s, i, begin).error.Msg?
    requires ScanSingly(s, i, begin).error.msg != UnterminatedString
    ensures i <= ScanSingly(s, i, begin).error.at
  {
    var ks, n := ReadSoFar(s, i, begin);
  }

  /** The scan of a string at `b`, in one go. */
  lemma SinglyIs(s: string, b: nat)
    requires CharAt(s, b, '"')
    ensures ScanString(s, b + 1, b) == ScanSingly(s, b + 1, b)
  {
    PairingIsUnobservable(s, b + 1, b);
  }

  /** Whatever is at the spot, a bad string at its place is explained. */
  lemma StringExplained(s: string, b: nat, stop: Stop)
    requires CharAt(s, b, '"') && ScanString(s, b + 1, b) == Err(stop)
    requires ScanValue(s, SkipWs(s, 0), 0).Err? && !ValueSpot(s, SkipWs(s, 0), 0).After?
    requires Pos(ValueSpot(s, SkipWs(s, 0), 0)) == b && StringPlace(s[..b], MAX_DEPTH)
    ensures stop.Msg? && Explains(s, Invalid(stop.msg, stop.at))
  {
    hide ScanValue, ValueSpot, ScanSingly, ScanString, Viable, StringPlace, QuotedThen, Settled;
    SinglyIs(s, b);
    var ks, n := ReadSoFar(s, b + 1, b);
    SpotIsOutside(s);
    if stop.msg == UnterminatedString {
      MayEnd(s, b, n, ks);
      IsLeftOpen(s, b, n, ks);
      NoLiteral(s, b);
    } else {
      MayHoldX(s, b, n, ks);
      if stop.msg != InvalidUnicodeEscape || stop.at + 5 < |s| {
        SettledInside(s, stop);
        SettledIs(stop);
        StringDead(s, b, stop);
      }
      hide Dead, InString, Outside;
    }
  }

  lemma SettledIs(stop: Stop)
    requires stop.Msg?
    ensures Settled(stop) == if stop.msg == InvalidEscape then stop.at + 2
                             else if stop.msg == InvalidUnicodeEscape then stop.at + 5 else stop.at + 1
  {
  }

  lemma SettledInside(s: string, stop: Stop)
    requires StringFault(s, stop) && stop.msg != UnterminatedString
    requires stop.msg == InvalidUnicodeEscape ==> stop.at + 5 < |s|
    ensures Settled(stop) <= |s|
  {
  }

  lemma IsLeftOpen(s: string, b: nat, n: nat, ks: seq<Chunk>)
    requires b < n <= |s| && s[b] == '"' && ChunksOk(ks) && s[b + 1..n] == ChunksThen(ks, "")
    requires n == |s| || (n + 1 == |s| && s[n] == '\\')
    requires n == |s| && ks != [] ==> !ks[|ks| - 1].Unicode?
    ensures LeftOpen(s, b)
  {
    hide ChunksThen;
    var rest := s[n..];
    assert rest == if n == |s| then "" else "\\";
    ChunksSplit(ks, "", rest);
    assert "" + rest == rest;
    assert s[b..] == "\"" + (s[b + 1..n] + rest);
  }

  lemma NoLiteral(s: string, b: nat)
    requires CharAt(s, b, '"') && ScanString(s, b + 1, b).Err?
    ensures forall ks: seq<Chunk>, k: string :: ChunksOk(ks) ==> s[b..] != QuotedThen(ks, k)
  {
    hide ScanString, QuotedThen;
    forall ks: seq<Chunk>, k: string | ChunksOk(ks) ensures s[b..] != QuotedThen(ks, k) {
      if s[b..] == QuotedThen(ks, k) {
        RestIs(s, b);
        QuotedComplete(s, b, ks, k);
      }
    }
  }

  lemma StringDead(s: string, b: nat, stop: Stop)
    requires CharAt(s, b, '"') && ScanString(s, b + 1, b) == Err(stop) && stop.Msg? && StringFault(s, stop)
    requires stop.msg != UnterminatedString && (stop.msg == InvalidUnicodeEscape ==> stop.at + 5 < |s|)
    requires ScanValue(s, SkipWs(s, 0), 0).Err? && !ValueSpot(s, SkipWs(s, 0), 0).After?
    requires Pos(ValueSpot(s, SkipWs(s, 0), 0)) == b && b < Settled(stop) <= |s|
    ensures Dead(s[..Settled(stop)])
  {
    hide ScanValue, ValueSpot, ScanSingly, ScanString, Viable, Settled, StringFault;
    var spot, n := ValueSpot(s, SkipWs(s, 0), 0), Settled(stop);
    var x := s[..n];
    assert Reaches(s, x, spot);
    SinglyIs(s, b);
    forall y: string ensures Fails(x + y, spot) {
      var d := x + y;
      assert Agree(s, d, n) by { assert forall j :: 0 <= j < n ==> d[j] == x[j]; }
      SinglyStays(s, d, b + 1, b);
      assert d[b] == '"';
      SinglyIs(d, b);
      StringFails(d, b, spot.depth);
    }
    DeadThere(s, x);
  }

  lemma StringFails(d: string, b: nat, depth: nat)
    requires CharAt(d, b, '"') && ScanString(d, b + 1, b).Err?
    ensures ScanValue(d, b, depth).Err? && MemberHead(d, b).Err?
  {
    hide ScanString;
  }

  // ----- Values that are not there -------------------------------------------------------------------

  /** Where the scan finds no value, no tree begins. */
  lemma NoTree(s: string, p: nat, depth: nat)
    requires p <= |s| && !Opens(s, p) && !CharAt(s, p, '"') && ScanValue(s, p, depth).Err?
    ensures forall t: Tree, k: string :: TreeOk(t) ==> s[p..] != TreeThen(t, k)
  {
    hide TreeThen, ScanString, ScanArray, ScanObject;
    forall t: Tree, k: string | TreeOk(t) ensures s[p..] != TreeThen(t, k) {
      if s[p..] == TreeThen(t, k) {
        JsonUnique.KindShows(t, k);
        assert s[p..][0] == s[p] && (|s[p..]| > 1 ==> s[p..][1] == s[p + 1]);
        if t.Word? {
          WordScans(s, p, depth, t.word, k);
        }
      }
    }
  }

  lemma WordScans(s: string, p: nat, depth: nat, w: string, k: string)
    requires p <= |s| && w in WORDS && s[p..] == TreeThen(Word(w), k)
    ensures ScanValue(s, p, depth).Ok?
  {
    hide ScanValue, WordLength;
    RestIs(s, p);
    WordComplete(s, p, w, k);
    WordStart(w);
    ValueStep(s, p, depth);
  }

  lemma ExpectingValueExplained(s: string, p: nat, depth: nat)
    requires ScanValue(s, SkipWs(s, 0), 0).Err? && ValueSpot(s, SkipWs(s, 0), 0) == AtValue(p, depth)
    requires p <= |s| && depth <= MAX_DEPTH && ValuePlace(s[..p], depth, MAX_DEPTH) && NotWsAt(s, p)
    requires !Opens(s, p) && !CharAt(s, p, '"') && ScanValue(s, p, depth).Err?
    ensures Explains(s, Invalid(ExpectingValue, p))
  {
    hide ScanValue, ValueSpot, Viable;
    SpotIsOutside(s);
    NoTree(s, p, depth);
    MayHoldNull(s[..p], depth);
  }

  lemma MayHoldNull(x: string, depth: nat)
    requires ValuePlace(x, depth, MAX_DEPTH) && depth <= MAX_DEPTH
    ensures Viable(x + "null", MAX_DEPTH)
  {
    hide Viable;
    var t := Word("null");
    assert TreeOk(t) && Nesting(t) == 0;
    assert TreeThen(t, "") == "null";
  }

  lemma TooDeepExplained(s: string, p: nat)
    requires ScanValue(s, SkipWs(s, 0), 0).Err? && ValueSpot(s, SkipWs(s, 0), 0) == AtValue(p, MAX_DEPTH)
    requires Opens(s, p) && ValuePlace(s[..p], MAX_DEPTH, MAX_DEPTH + 1)
    ensures Explains(s, NestedTooDeep)
  {
    hide ScanValue, ValueSpot, Viable;
    var spot := AtValue(p, MAX_DEPTH);
    var x := s[..p + 1];
    assert Reaches(s, x, spot);
    forall y: string ensures Fails(x + y, spot) {
      assert (x + y)[p] == s[p];
      ValueStep(x + y, p, MAX_DEPTH);
    }
    DeadThere(s, x);
    var t := if s[p] == '[' then Array("", NoElems) else Object("", NoMembers);
    assert TreeOk(t) && Nesting(t) == 1;
    assert TreeThen(t, "") == [s[p]] + (if s[p] == '[' then "]" else "}");
    assert s[..p] + TreeThen(t, "") == x + (if s[p] == '[' then "]" else "}");
    ViableBeginning(x, if s[p] == '[' then "]" else "}", MAX_DEPTH + 1);
  }

  // ----- Names and colons --------------------------------------------------------------------------------

  lemma PropertyNameExplained(s: string, p: nat, depth: nat)
    requires ScanValue(s, SkipWs(s, 0), 0).Err? && ValueSpot(s, SkipWs(s, 0), 0) == AtName(p, depth)
    requires p <= |s| && depth <= MAX_DEPTH && MembersPlace(s[..p], depth, MAX_DEPTH) && NotWsAt(s, p)
    requires !CharAt(s, p, '"')
    ensures Explains(s, Invalid(PropertyName, p))
  {
    hide ScanValue, ValueSpot, Viable, MembersPlace, Explains, Dead, Outside;
    SpotIsOutside(s);
    NameIsString(s[..p], depth, MAX_DEPTH);
    MayHoldQuote(s[..p]);
    NameFails(s, p, depth, "null");
    if p < |s| {
      NameFails(s, p, depth, [s[p]]);
      assert s[..p] + [s[p]] == s[..p + 1];
    }
    NameMissing(s, p);
  }

  /** Where a name is due only white space or a quote can stand. */
  lemma NameFails(s: string, p: nat, depth: nat, z: string)
    requires ScanValue(s, SkipWs(s, 0), 0).Err? && ValueSpot(s, SkipWs(s, 0), 0) == AtName(p, depth)
    requires p <= |s| && z != "" && z[0] != '"' && !IsWs(z[0])
    requires (p < |s| && z[0] == s[p]) || (z[0] != ']' && z[0] != '}')
    ensures Dead(s[..p] + z)
  {
    hide ScanValue, ValueSpot, Viable, ScanString;
    var spot, x := AtName(p, depth), s[..p] + z;
    PrefixAgrees(s, p, z);
    forall y: string ensures Fails(x + y, spot) { assert (x + y)[p] == z[0]; }
    DeadThere(s, x);
  }

  lemma NameMissing(s: string, p: nat)
    requires p <= |s| && Outside(s, p) && NotWsAt(s, p) && Viable(s[..p] + "\"", MAX_DEPTH)
    requires !CharAt(s, p, '"') && (p < |s| ==> Dead(s[..p + 1])) && Dead(s[..p] + "null")
    ensures Explains(s, Invalid(PropertyName, p))
  {
    hide Dead, Viable, Outside, Complete, LeftOpen, TreeThen, QuotedThen, InString, TreeOk, ChunksOk;
  }

  lemma MayHoldQuote(x: string)
    requires StringPlace(x, MAX_DEPTH)
    ensures Viable(x + "\"", MAX_DEPTH)
  {
    hide Viable;
    assert ChunksOk([]);
    assert QuotedThen([], "") == "\"" + "\"" by { NoChunks("\"" + ""); }
    assert x + ("\"" + "\"") == (x + "\"") + "\"";
    ViableBeginning(x + "\"", "\"", MAX_DEPTH);
  }

  lemma ColonExplained(s: string, p: nat, depth: nat, k: nat, c: nat)
    requires ScanValue(s, SkipWs(s, 0), 0).Err? && ValueSpot(s, SkipWs(s, 0), 0) == AtName(p, depth)
    requires depth <= MAX_DEPTH && p <= |s| && MembersPlace(s[..p], depth, MAX_DEPTH)
    requires CharAt(s, p, '"') && ScanString(s, p + 1, p) == Ok(k) && c == SkipWs(s, k) && !CharAt(s, c, ':')
    ensures Explains(s, Invalid(ColonDelimiter, c))
  {
    hide ScanValue, ValueSpot, Viable, MembersPlace, ScanString, Explains;
    MayHoldColon(s, p, depth, k, c);
    ColonFails(s, p, depth, k, c, "/");
    if c < |s| {
      ColonFails(s, p, depth, k, c, [s[c]]);
      assert s[..c] + [s[c]] == s[..c + 1];
    }
    ColonMissing(s, c);
  }

  lemma ColonMissing(s: string, c: nat)
    requires c <= |s| && Outside(s, c) && NotWsAt(s, c) && Viable(s[..c] + ":", MAX_DEPTH)
    requires !CharAt(s, c, ':') && (c < |s| ==> Dead(s[..c + 1]))
    ensures Explains(s, Invalid(ColonDelimiter, c))
  {
    hide Dead, Viable, Outside, Complete, LeftOpen, TreeThen, QuotedThen, InString, TreeOk, ChunksOk;
  }

  lemma MayHoldColon(s: string, p: nat, depth: nat, k: nat, c: nat)
    requires depth <= MAX_DEPTH && p <= |s| && MembersPlace(s[..p], depth, MAX_DEPTH)
    requires CharAt(s, p, '"') && ScanString(s, p + 1, p) == Ok(k) && c == SkipWs(s, k)
    ensures Viable(s[..c] + ":", MAX_DEPTH)
  {
    hide Viable, QuotedThen, ScanString, MembersPlace, ValuePlace;
    var key := ScannedString(s, p, k);
    var b := s[k..c];
    SkippedIsWs(s, k);
    MemberValuePlace(s[..p], depth, MAX_DEPTH, key, b, "");
    var x := s[..p] + HeadThen(key, b, "", "");
    MayHoldNull(x, depth);
    ViableBeginning(x, "null", MAX_DEPTH);
    NameThenColon(s, p, k, c, key);
  }

  lemma NameThenColon(s: string, p: nat, k: nat, c: nat, key: seq<Chunk>)
    requires p <= k <= c <= |s| && s[p..k] == QuotedThen(key, "")
    ensures s[..p] + HeadThen(key, s[k..c], "", "") == s[..c] + ":"
  {
    hide QuotedThen;
    var b := s[k..c];
    var y := b + (":" + ("" + ""));
    QuotedSplit(key, "", y);
    assert "" + y == y && y == b + ":";
    JoinSlices(s, p, k, c);
    assert s[..p] + (s[p..k] + (b + ":")) == (s[..p] + (s[p..k] + b)) + ":";
  }

  /** After a name only white space or a colon can stand. */
  lemma ColonFails(s: string, p: nat, depth: nat, k: nat, c: nat, z: string)
    requires ScanValue(s, SkipWs(s, 0), 0).Err? && ValueSpot(s, SkipWs(s, 0), 0) == AtName(p, depth)
    requires CharAt(s, p, '"') && ScanString(s, p + 1, p) == Ok(k) && c == SkipWs(s, k)
    requires |z| == 1 && z[0] != ':' && !IsWs(z[0])
    ensures Dead(s[..c] + z)
  {
    hide ScanValue, ValueSpot, Viable, ScanString;
    var spot, x := AtName(p, depth), s[..c] + z;
    PrefixAgrees(s, c, z);
    assert Reaches(s, x, spot);
    forall y: string ensures Fails(x + y, spot) {
      var d := x + y;
      assert forall j :: 0 <= j < |x| ==> d[j] == x[j];
      StringStays(s, d, p, k);
      SkipWsIs(d, k, c);
    }
    DeadThere(s, x);
  }

  // ----- After a value ------------------------------------------------------------------------------------

  lemma DigitsStay(s: string, d: string, i: nat)
    requires i <= |s| && Digits(s, i) < |s| && Agree(s, d, Digits(s, i) + 1)
    ensures i <= |d| && Digits(d, i) == Digits(s, i)
  {
    var e := Digits(s, i);
    DigitsOver(d, i, e);
  }

  /** The whole part of a number ends at `a`, its fraction at `b`, its exponent at `e`. */
  predicate NumberEnds(s: string, v: nat, a: nat, b: nat, e: nat) {
    && v < |s|
    && var i := if s[v] == '-' then v + 1 else v;
       && i < |s| && IsDigit(s[i]) && a == (if s[i] == '0' then i + 1 else Digits(s, i + 1))
       && a <= |s| && b == Fraction(s, a) && e == Exponent(s, b)
  }

  lemma NumberEndsAt(s: string, v: nat, e: nat) returns (a: nat, b: nat)
    requires v < |s| && ScanNumber(s, v) == Ok(e)
    ensures NumberEnds(s, v, a, b, e) && v < a <= b <= e <= |s|
  {
    hide Digits, Fraction, Exponent;
    var i := if s[v] == '-' then v + 1 else v;
    a := if s[i] == '0' then i + 1 else Digits(s, i + 1);
    b := Fraction(s, a);
  }

  lemma NumberEndsScan(s: string, v: nat, a: nat, b: nat, e: nat)
    requires NumberEnds(s, v, a, b, e)
    ensures ScanNumber(s, v) == Ok(e)
  {
    hide Digits, Fraction, Exponent;
  }

  lemma FractionStays(s: string, d: string, a: nat, e: nat)
    requires a <= |s| && Fraction(s, a) <= e < |s| && Agree(s, d, e + 1)
    requires Fraction(s, a) == a == e ==> s[a] != '.'
    requires Fraction(s, a) == a < e ==> s[a] != '.'
    ensures a <= |d| && Fraction(d, a) == Fraction(s, a)
  {
    if a + 1 < |s| && s[a] == '.' && IsDigit(s[a + 1]) { DigitsStay(s, d, a + 2); }
  }

  lemma ExponentStays(s: string, d: string, b: nat)
    requires b <= |s| && Exponent(s, b) < |s| && Agree(s, d, Exponent(s, b) + 1)
    requires Exponent(s, b) == b ==> s[b] != 'e' && s[b] != 'E'
    ensures b <= |d| && Exponent(d, b) == Exponent(s, b)
  {
    var e := Exponent(s, b);
    if e > b {
      var j := if b + 2 < |s| && (s[b + 1] == '-' || s[b + 1] == '+') then b + 2 else b + 1;
      DigitsStay(s, d, j);
    }
  }

  /** What the parts of a number are made of. */
  lemma NumberChars(s: string, v: nat, a: nat, b: nat, e: nat)
    requires NumberEnds(s, v, a, b, e) && v < a <= b <= e <= |s|
    ensures forall j :: v <= j < a ==> IsDigit(s[j]) || s[j] == '-'
    ensures forall j :: a <= j < b ==> IsDigit(s[j]) || s[j] == '.'
    ensures b < e ==> s[b] == 'e' || s[b] == 'E'
  {
  }

  /** A number that the next character does not continue ends there in every text that agrees so far. */
  lemma NumberFirm(s: string, d: string, v: nat, e: nat)
    requires v < |s| && ScanNumber(s, v) == Ok(e) && e < |s| && Agree(s, d, e + 1) && !Continues(s[v..e], s[e])
    ensures v < |d| && ScanNumber(d, v) == Ok(e)
  {
    hide Fraction, Exponent, ScanNumber;
    var a, b := NumberEndsAt(s, v, e);
    NumberChars(s, v, a, b, e);
    assert forall j :: 0 <= j < e - v ==> s[v..e][j] == s[v + j];
    assert b == e ==> s[e] != 'e' && s[e] != 'E' by { if b == e { NoExponentYet(s, v, a, b); } }
    ExponentStays(s, d, b);
    FractionFirm(s, d, v, a, b, e);
    WholeStays(s, d, v, a, b, e);
    NumberEndsScan(d, v, a, b, e);
  }

  lemma NoExponentYet(s: string, v: nat, a: nat, b: nat)
    requires v <= a <= b <= |s|
    requires forall j :: v <= j < a ==> IsDigit(s[j]) || s[j] == '-'
    requires forall j :: a <= j < b ==> IsDigit(s[j]) || s[j] == '.'
    ensures 'e' !in s[v..b] && 'E' !in s[v..b] && (a == b ==> '.' !in s[v..b])
  {
    var n := s[v..b];
    assert forall j :: 0 <= j < |n| ==> n[j] == s[v + j];
  }

  lemma FractionFirm(s: string, d: string, v: nat, a: nat, b: nat, e: nat)
    requires NumberEnds(s, v, a, b, e) && v < a <= b <= e < |s| && Agree(s, d, e + 1) && !Continues(s[v..e], s[e])
    ensures a <= |d| && Fraction(d, a) == b
  {
    hide Digits, Exponent;
    NumberChars(s, v, a, b, e);
    if a == b == e { NoExponentYet(s, v, a, b); }
    FractionStays(s, d, a, e);
  }

  lemma WholeStays(s: string, d: string, v: nat, a: nat, b: nat, e: nat)
    requires NumberEnds(s, v, a, b, e) && v < a <= b <= e < |s| && Agree(s, d, e + 1)
    requires Fraction(d, a) == b && Exponent(d, b) == e
    ensures NumberEnds(d, v, a, b, e)
  {
    hide Fraction, Exponent;
    var i := if s[v] == '-' then v + 1 else v;
    if s[i] != '0' { DigitsStay(s, d, i + 1); }
  }

  /** Where a number begins the scan is a number's. */
  lemma NumberScan(s: string, v: nat, depth: nat)
    requires v < |s| && (IsDigit(s[v]) || (s[v] == '-' && DigitAt(s, v + 1)))
    ensures ScanValue(s, v, depth) == ScanNumber(s, v)
  {
    hide ScanValue, ScanNumber, WordLength;
    NumberIsNoWord(s, v);
    ValueStep(s, v, depth);
  }

  lemma NumberStart(s: string, v: nat, e: nat, t: Tree)
    requires v <= e <= |s| && TreeOk(t) && t.Number? && s[v..e] == TreeThen(t, "")
    ensures v < e && (IsDigit(s[v]) || (s[v] == '-' && v + 1 < e && IsDigit(s[v + 1])))
  {
    hide TreeThen;
    JsonUnique.KindShows(t, "");
    var x := s[v..e];
    assert x[0] == s[v] && (|x| > 1 ==> x[1] == s[v + 1]);
  }

  lemma SolidStays(s: string, d: string, v: nat, depth: nat, e: nat, t: Tree)
    requires v <= e <= |s| && Agree(s, d, e) && depth <= MAX_DEPTH
    requires TreeOk(t) && !t.Number? && depth + Nesting(t) <= MAX_DEPTH && s[v..e] == TreeThen(t, "")
    ensures ScanValue(d, v, depth) == Ok(e)
  {
    hide TreeThen, ScanValue, Rest;
    AgreeSlice(s, d, e, v, e);
    TreeSplit(t, "", d[e..]);
    assert "" + d[e..] == d[e..];
    assert d[v..] == d[v..e] + d[e..];
    RestIs(d, v);
    ValueComplete(d, v, t, d[e..], depth);
    EndIs(d, ScanValue(d, v, depth).value, e);
  }

  /** A value the next character does not continue ends there in every text that agrees so far. */
  lemma FirmStays(s: string, d: string, v: nat, depth: nat, e: nat, t: Tree)
    requires v <= e < |s| && depth <= MAX_DEPTH && ScanValue(s, v, depth) == Ok(e) && Agree(s, d, e + 1)
    requires TreeOk(t) && depth + Nesting(t) <= MAX_DEPTH && s[v..e] == TreeThen(t, "")
    requires !(t.Number? && Continues(s[v..e], s[e]))
    ensures ScanValue(d, v, depth) == Ok(e)
  {
    hide TreeThen, ScanValue, ScanNumber, Continues;
    if t.Number? {
      NumberStart(s, v, e, t);
      NumberScan(s, v, depth);
      NumberFirm(s, d, v, e);
      NumberScan(d, v, depth);
    } else {
      SolidStays(s, d, v, depth, e, t);
    }
  }

  /** The same with the white space after it. */
  lemma FirmThenWs(s: string, d: string, v: nat, depth: nat, e: nat, j: nat, t: Tree)
    requires v <= e <= |s| && depth <= MAX_DEPTH && ScanValue(s, v, depth) == Ok(e) && j == SkipWs(s, e) < |s|
    requires TreeOk(t) && depth + Nesting(t) <= MAX_DEPTH && s[v..e] == TreeThen(t, "") && Agree(s, d, j + 1)
    requires !(j == e && t.Number? && Continues(s[v..e], s[e]))
    ensures ScanValue(d, v, depth) == Ok(e) && SkipWs(d, e) == j
  {
    hide TreeThen, ScanValue, Continues;
    SkipWsIs(d, e, j);
    if j == e {
      FirmStays(s, d, v, depth, e, t);
    } else {
      assert Follows(d[e..]) by { assert d[e..][0] == d[e] == s[e] && IsWs(s[e]); }
      OkStays(s, d, v, depth, e);
    }
  }

  lemma TailShows(front: string, f: string, e: string)
    requires FractionOk(f) && ExponentOk(e)
    ensures var x := front + (f + e);
            && (f != "" ==> '.' in x) && (e != "" ==> 'e' in x || 'E' in x)
  {
    var x := front + (f + e);
    assert f != "" ==> x[|front|] == '.';
    assert e != "" ==> x[|front| + |f|] == e[0];
  }

  /** A number that could go on has no exponent, and with a point no fraction. */
  lemma NoTailYet(t: Tree, c: char) returns (front: string)
    requires TreeOk(t) && t.Number? && Continues(TreeThen(t, ""), c)
    ensures t.exponent == "" && (c == '.' ==> t.fraction == "")
    ensures front == (if t.negative then "-" else "") + t.whole && TreeThen(t, "") == front + t.fraction
  {
    hide FractionOk, ExponentOk, WholeOk;
    front := (if t.negative then "-" else "") + t.whole;
    assert t.exponent + "" == t.exponent;
    assert TreeThen(t, "") == front + (t.fraction + t.exponent);
    TailShows(front, t.fraction, t.exponent);
    assert t.fraction + "" == t.fraction;
  }

  /** With a digit more it is a number again. */
  lemma LongerNumber(t: Tree, c: char) returns (u: Tree)
    requires TreeOk(t) && t.Number? && Continues(TreeThen(t, ""), c)
    ensures TreeOk(u) && Nesting(u) == 0 && TreeThen(u, "") == TreeThen(t, "") + [c, '0']
  {
    hide WholeOk, FractionOk, ExponentOk, TreeThen;
    var front := NoTailYet(t, c);
    var more := [c, '0'];
    MoreIsOk(c);
    u := if c == '.' then Number(t.negative, t.whole, more, "") else Number(t.negative, t.whole, t.fraction, more);
    NumberText(u, front, t.fraction, more);
  }

  lemma NumberText(u: Tree, front: string, f: string, more: string)
    requires u.Number? && front == (if u.negative then "-" else "") + u.whole && f + more == u.fraction + u.exponent
    ensures TreeThen(u, "") == (front + f) + more
  {
    assert u.exponent + "" == u.exponent;
    Assoc(if u.negative then "-" else "", u.whole, u.fraction + u.exponent);
    Assoc(front, f, more);
  }

  lemma MoreIsOk(c: char)
    requires c == '.' || c == 'e' || c == 'E'
    ensures FractionOk("") && ExponentOk("")
    ensures if c == '.' then FractionOk([c, '0']) else ExponentOk([c, '0'])
  {
    assert [c, '0'][1..] == "0";
  }

  lemma NumberGoesOn(s: string, v: nat, depth: nat, e: nat, t: Tree)
    requires v <= e < |s| && depth <= MAX_DEPTH && ValuePlace(s[..v], depth, MAX_DEPTH)
    requires TreeOk(t) && t.Number? && s[v..e] == TreeThen(t, "") && Continues(s[v..e], s[e])
    ensures Viable(s[..e + 1], MAX_DEPTH)
  {
    hide TreeThen, Viable, Continues;
    var u := LongerNumber(t, s[e]);
    assert s[..v] + (s[v..e] + [s[e], '0']) == s[..e + 1] + "0";
    ViableBeginning(s[..e + 1], "0", MAX_DEPTH);
  }

  /** The scan takes as much of a number as there is. */
  lemma NumberIsWhole(s: string, v: nat, depth: nat, e: nat, t: Tree)
    requires v < e < |s| && ScanValue(s, v, depth) == Ok(e) && TreeOk(t) && t.Number? && s[v..e] == TreeThen(t, "")
    requires Continues(s[v..e], s[e])
    ensures !Finishes(s, e)
  {
    hide ScanValue, ScanNumber, TreeThen, Digits;
    NumberStart(s, v, e, t);
    NumberScan(s, v, depth);
    NumberMaximal(s, v, e);
  }

  lemma NumberMaximal(s: string, v: nat, e: nat)
    requires v < e < |s| && ScanNumber(s, v) == Ok(e) && Continues(s[v..e], s[e])
    ensures !Finishes(s, e)
  {
    hide ScanNumber, Digits;
    var a, b := NumberEndsAt(s, v, e);
    NumberChars(s, v, a, b, e);
    assert forall j :: 0 <= j < e - v ==> s[v..e][j] == s[v + j];
  }

  lemma WithWs(s: string, v: nat, e: nat, j: nat, t: Tree)
    requires v <= e <= j <= |s| && s[v..e] == TreeThen(t, "")
    ensures s[v..j] == TreeThen(t, s[e..j])
    ensures forall k: string :: s[..v] + TreeThen(t, s[e..j] + k) == s[..j] + k
  {
    hide TreeThen;
    Longer(s, v, e, j, t);
    forall k: string ensures s[..v] + TreeThen(t, s[e..j] + k) == s[..j] + k {
      TreeSplit(t, s[e..j], k);
      assert s[..v] + (s[v..j] + k) == s[..j] + k;
    }
  }

  lemma CommaOutside(s: string, v: nat, e: nat, close: char, depth: nat)
    requires ScanValue(s, SkipWs(s, 0), 0).Err? && ValueSpot(s, SkipWs(s, 0), 0) == After(v, e, close, depth)
    requires v <= |s|
    ensures Outside(s, v)
  {
    hide ScanValue, ValueSpot, MemberHead, Viable, AfterItem;
    var spot, x := After(v, e, close, depth), s[..v] + "/";
    PrefixAgrees(s, v, "/");
    forall y: string ensures Fails(x + y, spot) {
      assert (x + y)[v] == '/';
      SlashFails(x + y, v, depth);
    }
    DeadThere(s, x);
  }

  lemma CommaDead(s: string, v: nat, e: nat, close: char, depth: nat, j: nat, t: Tree)
    requires ScanValue(s, SkipWs(s, 0), 0).Err? && ValueSpot(s, SkipWs(s, 0), 0) == After(v, e, close, depth)
    requires v < e <= |s| && depth <= MAX_DEPTH && ScanValue(s, v, depth) == Ok(e) && j == SkipWs(s, e) < |s|
    requires AfterItem(s, e, close).Bad? && NotWsAt(s, v)
    requires TreeOk(t) && depth + Nesting(t) <= MAX_DEPTH && s[v..e] == TreeThen(t, "")
    requires !(j == e && t.Number? && Continues(s[v..e], s[e]))
    ensures Dead(s[..j + 1])
  {
    hide ScanValue, ValueSpot, MemberHead, Viable, TreeThen, Continues, AfterItem, Fails;
    var spot, x := After(v, e, close, depth), s[..j + 1];
    assert Reaches(s, x, spot);
    forall y: string ensures Fails(x + y, spot) {
      var d := x + y;
      assert Agree(s, d, j + 1) by { assert forall n :: 0 <= n < j + 1 ==> d[n] == x[n]; }
      FirmThenWs(s, d, v, depth, e, j, t);
      CommaFails(s, d, v, e, close, depth, j);
    }
    DeadThere(s, x);
  }

  lemma CommaFails(s: string, d: string, v: nat, e: nat, close: char, depth: nat, j: nat)
    requires v <= e <= |s| && j == SkipWs(s, e) < |s| && Agree(s, d, j + 1) && AfterItem(s, e, close).Bad?
    requires ScanValue(d, v, depth) == Ok(e) && SkipWs(d, e) == j
    ensures Fails(d, After(v, e, close, depth))
  {
    hide ScanValue;
  }

  /** What `Complete` says, from the two cases. */
  lemma IsComplete(s: string, v: nat, e: nat, j: nat, t: Tree)
    requires v <= e <= |s| && j == SkipWs(s, e) && TreeOk(t) && s[v..e] == TreeThen(t, "")
    requires e < |s| && t.Number? && Continues(s[v..e], s[e]) ==> !Finishes(s, e)
    requires j < |s| ==> (Viable(s[..j + 1], MAX_DEPTH) <==> j == e && t.Number? && Continues(s[v..e], s[e]))
    ensures Complete(s, v, t, s[e..j], j)
  {
    hide Viable, TreeThen, TreeOk, Continues, Finishes;
    SkippedIsWs(s, e);
    WithWs(s, v, e, j, t);
  }

  lemma CommaComplete(s: string, v: nat, e: nat, close: char, depth: nat, j: nat, t: Tree)
    requires ScanValue(s, SkipWs(s, 0), 0).Err? && ValueSpot(s, SkipWs(s, 0), 0) == After(v, e, close, depth)
    requires v < e <= |s| && depth <= MAX_DEPTH && ScanValue(s, v, depth) == Ok(e) && j == SkipWs(s, e)
    requires AfterItem(s, e, close).Bad? && NotWsAt(s, v) && ValuePlace(s[..v], depth, MAX_DEPTH)
    requires TreeOk(t) && depth + Nesting(t) <= MAX_DEPTH && s[v..e] == TreeThen(t, "")
    ensures Complete(s, v, t, s[e..j], j)
  {
    hide ScanValue, ValueSpot, Viable, TreeThen, Continues, ValuePlace, Complete, AfterItem;
    if j < |s| {
      if j == e && t.Number? && Continues(s[v..e], s[e]) {
        NumberGoesOn(s, v, depth, e, t);
      } else {
        CommaDead(s, v, e, close, depth, j, t);
      }
    }
    if e < |s| && t.Number? && Continues(s[v..e], s[e]) { NumberIsWhole(s, v, depth, e, t); }
    IsComplete(s, v, e, j, t);
  }

  lemma MayHoldComma(s: string, v: nat, e: nat, close: char, depth: nat, j: nat, t: Tree)
    requires v < e <= |s| && j == SkipWs(s, e) && ItemPlace(s[..v], close, depth, MAX_DEPTH)
    requires TreeOk(t) && depth + Nesting(t) <= MAX_DEPTH && s[v..e] == TreeThen(t, "")
    ensures Viable(s[..j] + ",", MAX_DEPTH) && Viable(s[..j] + [close], MAX_DEPTH)
  {
    hide Viable, TreeThen, ValuePlace, TreeOk, Nesting;
    SkippedIsWs(s, e);
    WithWs(s, v, e, j, t);
    assert Viable(s[..v] + TreeThen(t, s[e..j] + [close]), MAX_DEPTH);
    assert Viable(s[..v] + TreeThen(t, s[e..j] + ","), MAX_DEPTH);
  }

  lemma CommaExplained(s: string, v: nat, e: nat, close: char, depth: nat, j: nat)
    requires ScanValue(s, SkipWs(s, 0), 0).Err? && ValueSpot(s, SkipWs(s, 0), 0) == After(v, e, close, depth)
    requires v <= |s| && depth <= MAX_DEPTH && ScanValue(s, v, depth) == Ok(e) && j == SkipWs(s, e)
    requires AfterItem(s, e, close) == Bad(Msg(CommaDelimiter, j)) && (close == ']' || close == '}')
    requires ItemPlace(s[..v], close, depth, MAX_DEPTH) && NotWsAt(s, v)
    ensures Explains(s, Invalid(CommaDelimiter, j))
  {
    hide ScanValue, ValueSpot, Viable, TreeThen, TreeOk, Outside, Complete, ValuePlace;
    var t := ScannedText(s, v, depth, e);
    CommaOutside(s, v, e, close, depth);
    MayHoldComma(s, v, e, close, depth, j, t);
    CommaComplete(s, v, e, close, depth, j, t);
  }

  // ----- After the document --------------------------------------------------------------------------------

  lemma ExtraDead(s: string, v: nat, e: nat, j: nat, t: Tree)
    requires v == SkipWs(s, 0) && v < e <= |s| && ScanValue(s, v, 0) == Ok(e) && j == SkipWs(s, e) < |s|
    requires TreeOk(t) && Nesting(t) <= MAX_DEPTH && s[v..e] == TreeThen(t, "")
    requires !(j == e && t.Number? && Continues(s[v..e], s[e]))
    ensures Dead(s[..j + 1])
  {
    hide ScanValue, Viable, IsDocument, TreeThen, Continues;
    var x := s[..j + 1];
    forall y: string ensures !IsDocument(x + y, MAX_DEPTH) {
      var d := x + y;
      assert forall n :: 0 <= n < j + 1 ==> d[n] == x[n];
      SkipWsIs(d, 0, v);
      FirmThenWs(s, d, v, 0, e, j, t);
      assert DecodeErrorOf(d).Some?;
      AcceptsExactlyTheGrammar(d);
    }
    NotViable(x);
  }

  lemma NotViable(x: string)
    requires forall y: string :: !IsDocument(x + y, MAX_DEPTH)
    ensures Dead(x)
  {
  }

  lemma ExtraDataExplained(s: string)
    requires var v := SkipWs(s, 0); ScanValue(s, v, 0).Ok? && SkipWs(s, ScanValue(s, v, 0).value) < |s|
    ensures Explains(s, Invalid(ExtraData, SkipWs(s, ScanValue(s, SkipWs(s, 0), 0).value)))
  {
    hide ScanValue, Viable, TreeThen, TreeOk, Continues, ValuePlace, Complete;
    var v := SkipWs(s, 0);
    var e := ScanValue(s, v, 0).value;
    var j := SkipWs(s, e);
    var t := ScannedText(s, v, 0, e);
    SkippedIsWs(s, 0);
    assert s[0..v] == s[..v];
    StartPlace(s[..v], MAX_DEPTH);
    if j == e && t.Number? && Continues(s[v..e], s[e]) {
      NumberGoesOn(s, v, 0, e, t);
    } else {
      ExtraDead(s, v, e, j, t);
    }
    if t.Number? && Continues(s[v..e], s[e]) { NumberIsWhole(s, v, 0, e, t); }
    IsComplete(s, v, e, j, t);
  }

  // ----- The theorem ------------------------------------------------------------------------------------

  lemma AtValueExplained(s: string, p: nat, depth: nat, stop: Stop)
    requires ScanValue(s, SkipWs(s, 0), 0).Err? && ValueSpot(s, SkipWs(s, 0), 0) == AtValue(p, depth)
    requires Stopped(s, AtValue(p, depth), stop) && NotWsAt(s, p)
    requires ValuePlace(s[..p], depth, MAX_DEPTH) && ValuePlace(s[..p], depth, MAX_DEPTH + 1)
    ensures Explains(s, ErrorFor(stop))
  {
    hide ScanValue, ValueSpot, ValuePlace, Explains, ScanString;
    if CharAt(s, p, '"') {
      ValueStep(s, p, depth);
      ValueMayBeString(s[..p], depth, MAX_DEPTH);
      StringExplained(s, p, stop);
    } else if Opens(s, p) {
      ValueStep(s, p, depth);
      TooDeepExplained(s, p);
    } else {
      NoValueHere(s, p, depth);
      ExpectingValueExplained(s, p, depth);
    }
  }

  function ErrorFor(stop: Stop): DecodeError {
    match stop
    case Value(p) => Invalid(ExpectingValue, p)
    case Msg(m, p) => Invalid(m, p)
    case TooDeep => NestedTooDeep
  }

  lemma NoValueHere(s: string, p: nat, depth: nat)
    requires p <= |s| && !Opens(s, p) && !CharAt(s, p, '"') && ScanValue(s, p, depth).Err?
    ensures ScanValue(s, p, depth) == Err(Value(p))
  {
  }

  lemma AtNameExplained(s: string, p: nat, depth: nat, stop: Stop)
    requires ScanValue(s, SkipWs(s, 0), 0).Err? && ValueSpot(s, SkipWs(s, 0), 0) == AtName(p, depth)
    requires Stopped(s, AtName(p, depth), stop) && NotWsAt(s, p) && MembersPlace(s[..p], depth, MAX_DEPTH)
    ensures Explains(s, ErrorFor(stop))
  {
    hide ScanValue, ValueSpot, MembersPlace, Explains, ScanString;
    if !CharAt(s, p, '"') {
      PropertyNameExplained(s, p, depth);
    } else if ScanString(s, p + 1, p).Err? {
      NameIsString(s[..p], depth, MAX_DEPTH);
      StringExplained(s, p, stop);
    } else {
      var k := ScanString(s, p + 1, p).value;
      ColonExplained(s, p, depth, k, SkipWs(s, k));
    }
  }

  lemma SpotExplained(s: string)
    requires ScanValue(s, SkipWs(s, 0), 0).Err?
    ensures Explains(s, ErrorFor(ScanValue(s, SkipWs(s, 0), 0).error))
  {
    hide ScanValue, ValueSpot, ValuePlace, MembersPlace, ItemPlace, Explains;
    var v := SkipWs(s, 0);
    SkippedIsWs(s, 0);
    assert s[0..v] == s[..v];
    StartPlace(s[..v], MAX_DEPTH);
    StartPlace(s[..v], MAX_DEPTH + 1);
    ValueSpotPlaced(s, v, 0, MAX_DEPTH);
    ValueSpotPlaced(s, v, 0, MAX_DEPTH + 1);
    ValueSpotAfter(s, v, 0);
    var stop := ScanValue(s, v, 0).error;
    match ValueSpot(s, v, 0)
    case AtValue(p, depth) => AtValueExplained(s, p, depth, stop);
    case AtName(p, depth) => AtNameExplained(s, p, depth, stop);
    case After(b, e, close, depth) => CommaExplained(s, b, e, close, depth, SkipWs(s, e));
  }

  /** Every error says what is wrong with the text, and where. */
  lemma ErrorExplained(text: string)
    ensures DecodeErrorOf(text).Some? ==> Explains(text, DecodeErrorOf(text).value)
  {
    hide ScanValue, Explains;
    if ScanValue(text, SkipWs(text, 0), 0).Err? {
      SpotExplained(text);
    } else if DecodeErrorOf(text).Some? {
      ExtraDataExplained(text);
    }
  }

  /** A comma is missed after a number that could still have gone on. */
  lemma NumberCutShort()
    ensures DecodeErrorOf("[1.x") == Some(Invalid(CommaDelimiter, 2)) && Viable("[1.", MAX_DEPTH)
  {
    var s := "[1.x";
    assert Digits(s, 2) == 2;
    assert ScanNumber(s, 1) == Ok(2);
    assert WordLength(s, 1) == 0 by { assert s[1] == '1'; }
    assert ScanValue(s, 1, 1) == Ok(2);
    assert SkipWs(s, 2) == 2 && SkipWs(s, 1) == 1 && SkipWs(s, 0) == 0;
    hide *;
    CutShortIsViable();
  }

  lemma CutShortIsViable()
    ensures Viable("[1.", MAX_DEPTH)
  {
    var t := Array("", LastElem(Number(false, "1", ".0", ""), ""));
    assert ".0"[1..] == "0";
    assert TreeOk(t) && Nesting(t) == 1;
    assert TreeThen(t, "") == "[1." + "0]";
    assert "" + TreeThen(t, "") == "[1." + "0]" && AllWs("");
    assert IsDocument("[1." + "0]", MAX_DEPTH);
  }
}
