/** The pieces of the scanner against the pieces of the grammar. */
module JsonTheorems {
  import opened Wrappers
  import opened JsonGrammar
  import opened JsonScanner

  // ----- Positions ---------------------------------------------------------

  /** `x` is all that is left of `s` from position `i`. */
  predicate Rest(s: string, i: nat, x: string) {
    i + |x| == |s| && forall j {:trigger s[j]} :: i <= j < |s| ==> s[j] == x[j - i]
  }

  lemma RestDrop(s: string, i: nat, a: string, k: string)
    requires Rest(s, i, a + k)
    ensures Rest(s, i + |a|, k)
    ensures forall j {:trigger s[j]} :: i <= j < i + |a| ==> s[j] == a[j - i]
  {
  }

  lemma RestJoin(s: string, i: nat, j: nat, x: string)
    requires i <= j && Rest(s, j, x)
    ensures Rest(s, i, s[i..j] + x)
  {
  }

  lemma RestCons(s: string, i: nat, c: char, x: string)
    requires CharAt(s, i, c) && Rest(s, i + 1, x)
    ensures Rest(s, i, [c] + x)
  {
  }

  /** The white space the scanner skips, as text. */
  lemma WsSound(s: string, i: nat, x: string) returns (ws: string)
    requires i <= |s| && Rest(s, SkipWs(s, i), x)
    ensures AllWs(ws) && Rest(s, i, ws + x)
  {
    ws := s[i..SkipWs(s, i)];
    RestJoin(s, i, SkipWs(s, i), x);
  }

  lemma {:induction false} SkipWsOver(s: string, i: nat, j: nat)
    requires i <= j <= |s| && forall n :: i <= n < j ==> IsWs(s[n])
    ensures SkipWs(s, i) == SkipWs(s, j)
    decreases j - i
  {
    if i < j { SkipWsOver(s, i + 1, j); }
  }

  /** White space ends at the first character of what follows it. */
  lemma SkipTo(s: string, i: nat, ws: string, k: string)
    requires Rest(s, i, ws + k) && AllWs(ws) && (k == "" || !IsWs(k[0]))
    ensures SkipWs(s, i) == i + |ws| && Rest(s, i + |ws|, k)
    ensures k != "" ==> CharAt(s, i + |ws|, k[0])
  {
    RestDrop(s, i, ws, k);
    SkipWsOver(s, i, i + |ws|);
  }

  lemma {:induction false} DigitsOver(s: string, i: nat, j: nat)
    requires i <= j <= |s| && forall n :: i <= n < j ==> IsDigit(s[n])
    ensures Digits(s, i) == Digits(s, j)
    decreases j - i
  {
    if i < j { DigitsOver(s, i + 1, j); }
  }

  // ----- Strings -----------------------------------------------------------

  /** A string scanner that reads every `\u` escape on its own. */
  function ScanSingly(s: string, i: nat, begin: nat): (r: Scan)
    requires begin < i <= |s|
    decreases |s| - i
  {
    if i == |s| then Err(Msg(UnterminatedString, begin))
    else if s[i] == '"' then Ok(i + 1)
    else if s[i] == '\\' then
      if i + 1 == |s| then Err(Msg(UnterminatedString, begin))
      else if s[i + 1] != 'u' then
        if IsSimpleEscape(s[i + 1]) then ScanSingly(s, i + 2, begin) else Err(Msg(InvalidEscape, i))
      else if i + 6 >= |s| || !Hex4At(s, i + 2) then Err(Msg(InvalidUnicodeEscape, i + 1))
      else ScanSingly(s, i + 6, begin)
    else if s[i] < ' ' then Err(Msg(ControlCharacter, i))
    else ScanSingly(s, i + 1, begin)
  }

  /** Reading a surrogate pair together never changes the answer, not even the
      reported position. */
  lemma {:induction false} PairingIsUnobservable(s: string, i: nat, begin: nat)
    requires begin < i <= |s|
    ensures ScanString(s, i, begin) == ScanSingly(s, i, begin)
    decreases |s| - i
  {
    if i == |s| || s[i] == '"' {
    } else if s[i] != '\\' {
      if s[i] >= ' ' { PairingIsUnobservable(s, i + 1, begin); }
    } else if i + 1 == |s| {
    } else if s[i + 1] != 'u' {
      if IsSimpleEscape(s[i + 1]) { PairingIsUnobservable(s, i + 2, begin); }
    } else if i + 6 >= |s| || !Hex4At(s, i + 2) {
    } else {
      PairingIsUnobservable(s, i + 6, begin);
      if PairAhead(s, i + 2) && Hex4At(s, i + 8) {
        PairingIsUnobservable(s, i + 12, begin);
      }
    }
  }

  function ChunkSize(c: Chunk): nat { match c case Plain(_) => 1 case Escape(_) => 2 case Unicode(_) => 6 }

  /** One well-formed chunk moves the scan past it. */
  lemma ChunkStep(s: string, i: nat, begin: nat, c: Chunk, k: string)
    requires begin < i && ChunkOk(c) && Rest(s, i, ChunkThen(c, k)) && k != ""
    ensures i + ChunkSize(c) <= |s| && Rest(s, i + ChunkSize(c), k)
    ensures ScanSingly(s, i, begin) == ScanSingly(s, i + ChunkSize(c), begin)
  {
    match c
    case Plain(p) => RestDrop(s, i, [p], k);
    case Escape(e) => RestDrop(s, i, ['\\', e], k);
    case Unicode(h) =>
      RestDrop(s, i, "\\u", h + k);
      RestDrop(s, i + 2, h, k);
  }

  lemma ChunksThenNonEmpty(ks: seq<Chunk>, k: string)
    requires k != ""
    ensures ChunksThen(ks, k) != ""
  {
  }

  lemma {:induction false} SinglyComplete(s: string, i: nat, begin: nat, ks: seq<Chunk>, k: string)
    requires begin < i && ChunksOk(ks) && Rest(s, i, ChunksThen(ks, "\"" + k))
    ensures |k| < |s| && Rest(s, |s| - |k|, k) && ScanSingly(s, i, begin) == Ok(|s| - |k|)
    decreases |ks|
  {
    if ks == [] {
      RestDrop(s, i, "\"", k);
    } else {
      ChunksThenNonEmpty(ks[1..], "\"" + k);
      ChunkStep(s, i, begin, ks[0], ChunksThen(ks[1..], "\"" + k));
      SinglyComplete(s, i + ChunkSize(ks[0]), begin, ks[1..], k);
    }
  }

  lemma QuotedComplete(s: string, i: nat, ks: seq<Chunk>, k: string)
    requires ChunksOk(ks) && Rest(s, i, QuotedThen(ks, k))
    ensures CharAt(s, i, '"') && |k| < |s|
    ensures ScanString(s, i + 1, i) == Ok(|s| - |k|) && Rest(s, |s| - |k|, k)
  {
    RestDrop(s, i, "\"", ChunksThen(ks, "\"" + k));
    SinglyComplete(s, i + 1, i, ks, k);
    PairingIsUnobservable(s, i + 1, i);
  }

  /** The chunk at the scanner's position. */
  function ChunkAt(s: string, i: nat): Chunk
    requires i < |s|
  {
    if s[i] != '\\' || i + 1 == |s| then Plain(s[i])
    else if s[i + 1] != 'u' || i + 6 > |s| then Escape(s[i + 1])
    else Unicode(s[i + 2..i + 6])
  }

  lemma ChunkAtSound(s: string, i: nat, begin: nat)
    requires begin < i < |s| && s[i] != '"' && ScanSingly(s, i, begin).Ok?
    ensures var c := ChunkAt(s, i);
            && ChunkOk(c) && i + ChunkSize(c) <= |s|
            && ScanSingly(s, i, begin) == ScanSingly(s, i + ChunkSize(c), begin)
  {
  }

  lemma ChunkAtText(s: string, i: nat, x: string)
    requires i < |s| && ChunkOk(ChunkAt(s, i)) && Rest(s, i + ChunkSize(ChunkAt(s, i)), x)
    ensures Rest(s, i, ChunkThen(ChunkAt(s, i), x))
  {
    match ChunkAt(s, i)
    case Plain(p) =>
    case Escape(e) =>
    case Unicode(h) =>
      RestJoin(s, i + 2, i + 6, x);
  }

  lemma {:induction false} SinglySound(s: string, i: nat, begin: nat, x: string) returns (ks: seq<Chunk>)
    requires begin < i <= |s| && ScanSingly(s, i, begin).Ok? && Rest(s, ScanSingly(s, i, begin).value, x)
    ensures ChunksOk(ks) && Rest(s, i, ChunksThen(ks, "\"" + x))
    decreases |s| - i
  {
    if s[i] == '"' {
      return [];
    }
    ChunkAtSound(s, i, begin);
    var c := ChunkAt(s, i);
    var rest := SinglySound(s, i + ChunkSize(c), begin, x);
    ChunkAtText(s, i, ChunksThen(rest, "\"" + x));
    ks := [c] + rest;
    assert ks[1..] == rest;
  }

  lemma QuotedSound(s: string, i: nat, x: string) returns (ks: seq<Chunk>)
    requires CharAt(s, i, '"') && ScanString(s, i + 1, i).Ok? && Rest(s, ScanString(s, i + 1, i).value, x)
    ensures ChunksOk(ks) && Rest(s, i, QuotedThen(ks, x))
  {
    PairingIsUnobservable(s, i + 1, i);
    ks := SinglySound(s, i + 1, i, x);
    RestCons(s, i, '"', ChunksThen(ks, "\"" + x));
  }

  // ----- Numbers -----------------------------------------------------------

  /** What may stand after a value inside a document. */
  predicate Follows(k: string) {
    k == "" || IsWs(k[0]) || k[0] == ',' || k[0] == ']' || k[0] == '}'
  }

  lemma DigitsExact(s: string, i: nat, d: string, k: string)
    requires Rest(s, i, d + k) && AllDigits(d) && (k == "" || !IsDigit(k[0]))
    ensures Digits(s, i) == i + |d| && Rest(s, i + |d|, k)
  {
    RestDrop(s, i, d, k);
    DigitsOver(s, i, i + |d|);
  }

  lemma FractionComplete(s: string, i: nat, f: string, k: string)
    requires FractionOk(f) && Rest(s, i, f + k) && (k == "" || (!IsDigit(k[0]) && k[0] != '.'))
    ensures Fraction(s, i) == i + |f| && Rest(s, i + |f|, k)
  {
    RestDrop(s, i, f, k);
    if f != "" {
      var d := f[1..];
      assert f + k == "." + (d + k);
      assert IsDigit(d[0]);
      RestDrop(s, i, ".", d + k);
      DigitsExact(s, i + 1, d, k);
    }
  }

  lemma ExponentComplete(s: string, i: nat, e: string, k: string)
    requires ExponentOk(e) && Rest(s, i, e + k) && (k == "" || (!IsDigit(k[0]) && k[0] != 'e' && k[0] != 'E'))
    ensures Exponent(s, i) == i + |e| && Rest(s, i + |e|, k)
  {
    RestDrop(s, i, e, k);
    if e != "" {
      assert e[1] == e[1..][0];
      var n := if AllDigits(e[1..]) then 1 else 2;
      var d := e[n..];
      assert e + k == e[..n] + (d + k);
      RestDrop(s, i, e[..n], d + k);
      DigitsExact(s, i + n, d, k);
    }
  }

  /** Where the digits before any point end. */
  function WholeEnd(s: string, i: nat): (r: nat)
    requires DigitAt(s, i)
    ensures i < r <= |s|
  {
    if s[i] == '0' then i + 1 else Digits(s, i + 1)
  }

  lemma WholeComplete(s: string, i: nat, w: string, k: string)
    requires WholeOk(w) && Rest(s, i, w + k) && (k == "" || !IsDigit(k[0]))
    ensures DigitAt(s, i) && WholeEnd(s, i) == i + |w| && Rest(s, i + |w|, k)
  {
    RestDrop(s, i, w, k);
    assert s[i] == w[0];
    if w != "0" {
      var d := w[1..];
      assert w + k == w[..1] + (d + k);
      RestDrop(s, i, w[..1], d + k);
      DigitsExact(s, i + 1, d, k);
    }
  }

  /** What the number scanner computes from a digit on. */
  function MagnitudeEnd(s: string, a: nat): (r: nat)
    requires DigitAt(s, a)
    ensures a < r <= |s|
  {
    Exponent(s, Fraction(s, WholeEnd(s, a)))
  }

  lemma ExponentFirst(e: string, k: string)
    requires ExponentOk(e) && Follows(k)
    ensures e + k == "" || (!IsDigit((e + k)[0]) && (e + k)[0] != '.')
  {
    if e == "" { assert e + k == k; }
  }

  lemma FractionFirst(f: string, k: string)
    requires FractionOk(f) && (k == "" || !IsDigit(k[0]))
    ensures f + k == "" || !IsDigit((f + k)[0])
  {
    if f == "" { assert f + k == k; }
  }

  lemma TailComplete(s: string, b: nat, f: string, e: string, k: string)
    requires FractionOk(f) && ExponentOk(e) && Follows(k) && Rest(s, b, f + (e + k))
    ensures f + (e + k) == "" || !IsDigit((f + (e + k))[0])
    ensures Rest(s, Exponent(s, Fraction(s, b)), k)
  {
    ExponentFirst(e, k);
    FractionFirst(f, e + k);
    FractionComplete(s, b, f, e + k);
    ExponentComplete(s, b + |f|, e, k);
  }

  lemma MagnitudeComplete(s: string, a: nat, w: string, f: string, e: string, k: string)
    requires WholeOk(w) && FractionOk(f) && ExponentOk(e) && Follows(k)
    requires Rest(s, a, w + (f + (e + k)))
    ensures DigitAt(s, a) && Rest(s, MagnitudeEnd(s, a), k)
  {
    var y, b := f + (e + k), a + |w|;
    assert Rest(s, b, y) by { RestDrop(s, a, w, y); }
    TailComplete(s, b, f, e, k);
    assert DigitAt(s, a) && WholeEnd(s, a) == b by { WholeComplete(s, a, w, y); }
    var m := Exponent(s, Fraction(s, b));
    assert MagnitudeEnd(s, a) == m;
  }

  lemma NumberIsNoWord(s: string, i: nat)
    requires i < |s| && (IsDigit(s[i]) || (s[i] == '-' && DigitAt(s, i + 1)))
    ensures WordLength(s, i) == 0
  {
    if s[i] == '-' && i + 9 <= |s| { assert s[i..i + 9][1] == s[i + 1]; }
  }

  lemma NumberStep(s: string, i: nat)
    requires i < |s| && DigitAt(s, if s[i] == '-' then i + 1 else i)
    ensures ScanNumber(s, i) == Ok(MagnitudeEnd(s, if s[i] == '-' then i + 1 else i))
  {
  }

  lemma NumberComplete(s: string, i: nat, neg: bool, w: string, f: string, e: string, k: string)
    requires WholeOk(w) && FractionOk(f) && ExponentOk(e) && Follows(k)
    requires Rest(s, i, NumberThen(neg, w, f, e, k))
    ensures i < |s| && (s[i] == '-' || IsDigit(s[i])) && WordLength(s, i) == 0
    ensures ScanNumber(s, i).Ok? && Rest(s, ScanNumber(s, i).value, k)
  {
    hide ScanNumber, MagnitudeEnd, WordLength;
    var sign := if neg then "-" else "";
    RestDrop(s, i, sign, w + (f + (e + k)));
    MagnitudeComplete(s, i + |sign|, w, f, e, k);
    NumberIsNoWord(s, i);
    NumberStep(s, i);
  }

  lemma FractionSound(s: string, i: nat)
    requires i <= |s|
    ensures FractionOk(s[i..Fraction(s, i)])
  {
  }

  lemma ExponentSound(s: string, i: nat)
    requires i <= |s|
    ensures ExponentOk(s[i..Exponent(s, i)])
  {
    var k := Exponent(s, i);
    var e := s[i..k];
    if k != i {
      var j := if i + 2 < |s| && (s[i + 1] == '-' || s[i + 1] == '+') then i + 2 else i + 1;
      assert k == Digits(s, j) && j < k;
      assert AllDigits(s[j..k]);
      assert e[j - i..] == s[j..k];
    }
  }

  lemma MagnitudeSound(s: string, a: nat, x: string) returns (w: string, f: string, e: string)
    requires DigitAt(s, a) && Rest(s, MagnitudeEnd(s, a), x)
    ensures WholeOk(w) && FractionOk(f) && ExponentOk(e) && Rest(s, a, w + (f + (e + x)))
  {
    var b := WholeEnd(s, a);
    var c := Fraction(s, b);
    var d := Exponent(s, c);
    FractionSound(s, b);
    ExponentSound(s, c);
    w, f, e := s[a..b], s[b..c], s[c..d];
    RestJoin(s, c, d, x);
    RestJoin(s, b, c, e + x);
    RestJoin(s, a, b, f + (e + x));
  }

  lemma NumberSound(s: string, i: nat, x: string) returns (neg: bool, w: string, f: string, e: string)
    requires i < |s| && ScanNumber(s, i).Ok? && Rest(s, ScanNumber(s, i).value, x)
    ensures WholeOk(w) && FractionOk(f) && ExponentOk(e) && Rest(s, i, NumberThen(neg, w, f, e, x))
  {
    neg := s[i] == '-';
    var a := if neg then i + 1 else i;
    NumberStep(s, i);
    w, f, e := MagnitudeSound(s, a, x);
    if neg {
      RestCons(s, i, '-', w + (f + (e + x)));
    } else {
      assert "" + (w + (f + (e + x))) == w + (f + (e + x));
    }
  }
}
