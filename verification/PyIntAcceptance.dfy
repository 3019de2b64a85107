/** Exactly which strings `str_as_int` (backend-rs/src/pyint.rs) accepts. */
module PyIntAcceptance {
  import opened Wrappers
  import opened PyInt
  import opened PyIntTheorems

  // ----- The strings -----------------------------------------------------------------------

  /** Digits with single underscores between them; zeros in front may be followed by any number of
      underscores. */
  predicate Loose(ip: string) {
    && ip != "" && Digit(ip[0])
    && if ip[0] != '0' then Literal(ip)
       else
         var e := PaddingEnd(ip, 1);
         if e == |ip| then ip[e - 1] == '0' else Literal(ip[e..])
  }

  /** What is left without the zeros in front. */
  function Core(ip: string): string
    requires Loose(ip)
  {
    if ip[0] != '0' then ip
    else
      var e := PaddingEnd(ip, 1);
      if e == |ip| then "0" else ip[e..]
  }

  /** Nothing, or a point and zeros, from `p` on. */
  predicate PointZeros(s: string, p: nat)
    requires p <= |s|
  {
    p < |s| ==> p + 1 < |s| && AllZeros(s[p + 1..])
  }

  predicate LooseNumber(body: string) {
    var p := Point(body, 0);
    Loose(body[..p]) && PointZeros(body, p)
  }

  /** What may stand after the minus of the misread family. */
  predicate AfterMinus(rest: string) {
    var p := Point(rest, 0);
    var u := rest[..p];
    PointZeros(rest, p) && u != "" && u[|u| - 1] != '_' && !HasDouble(u) && Canonical(NoUnderscores(u))
  }

  /** The grammar of `str_as_int`, with the limit on the characters that count. */
  predicate Accepts(s: string) {
    var (negative, body) := Unsigned(Trim(s));
    if ZerosThenMinus(s) then
      var rest := body[PaddingEnd(body, 1) + 1..];
      !negative && AfterMinus(rest) && 1 + |NoUnderscores(rest[..Point(rest, 0)])| <= MAX_INT_CHARS
    else
      && LooseNumber(body)
      && (if negative then 1 else 0) + |NoUnderscores(Core(body[..Point(body, 0)]))| <= MAX_INT_CHARS
  }

  // ----- The cleaning, whether or not it changes anything --------------------------------------

  function Plain(t: string): string { if UnderscoresStripped(t).Some? then UnderscoresStripped(t).value else t }

  function Refined(body: string): Option<string> {
    if Starts(body, '-') || Starts(body, '+') || ZerosStripped(body).None? then None
    else Some(Plain(PointStripped(ZerosStripped(body).value)))
  }

  function SignText(negative: bool): string { if negative then "-" else "" }

  function Piped(s: string): Option<string> {
    var (negative, body) := Unsigned(Trim(s));
    if Refined(body).None? then None else Some(SignText(negative) + Refined(body).value)
  }

  lemma {:induction false} TrimEndShortens(s: string)
    ensures |TrimEnd(s)| <= |s| && TrimEnd(s) == s[..|TrimEnd(s)|]
  {
    if s != "" && White(s[|s| - 1]) {
      TrimEndShortens(s[..|s| - 1]);
    }
  }

  lemma {:induction false} TrimStartShortens(s: string)
    ensures |TrimStart(s)| <= |s| && (|TrimStart(s)| == |s| ==> TrimStart(s) == s)
  {
    if s != "" { TrimStartShortens(s[1..]); }
  }

  // Each stage of the cleaning shortens the text or leaves it alone.

  lemma TrimShortens(s: string)
    ensures |Trim(s)| <= |s| && (|Trim(s)| == |s| ==> Trim(s) == s)
  {
    hide TrimStart, TrimEnd;
    var t := TrimStart(s);
    TrimStartShortens(s);
    TrimEndShortens(t);
    assert t[..|t|] == t;
  }

  lemma UnsignedShortens(t: string)
    ensures var (negative, body) := Unsigned(t); |body| <= |t| && (|body| == |t| ==> !negative && body == t)
  {
  }

  lemma StripShortens(body: string)
    requires ZerosStripped(body).Some?
    ensures var r := ZerosStripped(body).value; |r| <= |body| && (|r| == |body| ==> r == body)
  {
    if Starts(body, '-') {
      assert ZerosStripped(body) == Some(body);
    } else {
      hide ZerosStripped, Padding;
      var i := StripsPadding(body);
      assert body[0..] == body;
    }
  }

  lemma PointShortens(r: string)
    ensures |PointStripped(r)| <= |r| && (|PointStripped(r)| == |r| ==> PointStripped(r) == r)
  {
  }

  /** A text that comes out as long as it went in was not touched. */
  lemma Untouched(s: string)
    requires var (_, body) := Unsigned(Trim(s));
             ZerosStripped(body).Some? && |PointStripped(ZerosStripped(body).value)| == |s|
    ensures var (negative, body) := Unsigned(Trim(s)); !negative && PointStripped(ZerosStripped(body).value) == s
  {
    hide Trim, Unsigned, ZerosStripped, PointStripped;
    var (_, body) := Unsigned(Trim(s));
    TrimShortens(s);
    UnsignedShortens(Trim(s));
    StripShortens(body);
    PointShortens(ZerosStripped(body).value);
  }

  /** `clean_int_str` refuses only what would not be read anyway. */
  lemma CleanedIsPiped(s: string)
    requires JiterInt(s) == Err(Other)
    ensures Cleaned(s).Some? && JiterInt(Cleaned(s).value).Ok? <==> Piped(s).Some? && JiterInt(Piped(s).value).Ok?
  {
    hide JiterInt, Trim, Unsigned, ZerosStripped, PointStripped, UnderscoresStripped;
    var (negative, body) := Unsigned(Trim(s));
    if Piped(s).Some? && Cleaned(s).None? {
      Untouched(s);
      assert "" + s == s;
    }
  }

  // ----- Refined texts, outside the family -------------------------------------------------------

  lemma PlainOfLiteral(t: string)
    requires Literal(t) && (t[0] == '0' ==> t == "0")
    ensures Plain(t) == NoUnderscores(t) && Canonical(Plain(t))
  {
    ValueWithoutUnderscores(t);
    FirstSurvives(t);
    if t == "0" { DigitsAreTheirOwn(t); }
    assert !HasDouble(t);
    if !HasUnderscore(t) { DigitsAreTheirOwn(t); }
  }

  lemma LiteralOfPlain(t: string)
    requires Canonical(Plain(t))
    ensures Literal(t) && Plain(t) == NoUnderscores(t)
  {
    if UnderscoresStripped(t).Some? {
      WithoutUnderscoresIsNumeral(t);
      forall k | 0 < k < |t| ensures t[k - 1] != '_' || t[k] != '_' {
        assert !(t[k - 1] == '_' && t[k - 1 + 1] == '_');
      }
    } else {
      DigitsAreTheirOwn(t);
    }
  }

  lemma PaddingEndIs(s: string, i: nat, e: nat)
    requires i <= e <= |s| && (forall k :: i <= k < e ==> Padding(s[k])) && (e < |s| ==> !Padding(s[e]))
    ensures PaddingEnd(s, i) == e
  {
  }

  /** Where the padding of the whole part ends, seen from the whole text. */
  lemma PaddingOfWhole(body: string)
    requires Starts(body, '0')
    ensures var p, e := Point(body, 0), PaddingEnd(body, 1);
            1 <= e <= p && PaddingEnd(body[..p], 1) == e && (e == p <==> e == |body| || body[e] == '.')
  {
    var p, e := Point(body, 0), PaddingEnd(body, 1);
    assert forall k :: 0 <= k < e ==> body[k] != '.';
    assert p >= e;
    var ip := body[..p];
    assert forall k :: 0 <= k < p ==> ip[k] == body[k];
    PaddingEndIs(ip, 1, e);
  }

  /** Stripping a loose number leaves its core, and the point if there is one. */
  lemma StripsToCore(body: string) returns (i: nat)
    requires LooseNumber(body)
    ensures i < Point(body, 0) && ZerosStripped(body) == Some(body[i..])
    ensures forall k :: 0 <= k < i ==> Padding(body[k])
    ensures var ip := body[..Point(body, 0)];
            ip[i..] == Core(ip) && Literal(Core(ip)) && (Core(ip)[0] == '0' ==> Core(ip) == "0")
  {
    hide Point;
    var p := Point(body, 0);
    var ip := body[..p];
    i := 0;
    if body[0] == '0' {
      PaddingOfWhole(body);
      var e := PaddingEnd(body, 1);
      assert e < p ==> ip[e] == body[e] && ip[e..][0] == ip[e];
      i := if e == p then p - 1 else e;
      assert ip[p - 1..] == [ip[p - 1]];
    } else {
      assert ip[0..] == ip;
    }
  }

  lemma WholeSuffix(body: string, i: nat)
    requires i < Point(body, 0) && PointZeros(body, Point(body, 0)) && Point(body, 0) == i + Point(body[i..], 0)
    ensures PointStripped(body[i..]) == body[..Point(body, 0)][i..]
  {
    var r, p := body[i..], Point(body, 0);
    assert r[..p - i] == body[..p][i..];
    assert p < |body| ==> r[p - i + 1..] == body[p + 1..];
  }

  lemma RefinedOfLoose(body: string)
    requires LooseNumber(body)
    ensures Refined(body) == Some(NoUnderscores(Core(body[..Point(body, 0)]))) && Canonical(Refined(body).value)
  {
    hide Plain, ZerosStripped, PointStripped, Point, Literal, Canonical, Core;
    var i := StripsToCore(body);
    PointMoves(body, i);
    WholeSuffix(body, i);
    PlainOfLiteral(Core(body[..Point(body, 0)]));
    assert Digit(body[0]);
  }

  /** The whole part of a text that strips to a literal is loose. */
  lemma LooseWhole(body: string, i: nat)
    requires i < Point(body, 0) && ZerosStripped(body) == Some(body[i..]) && !Starts(body, '-')
    requires Literal(body[..Point(body, 0)][i..])
    ensures var ip := body[..Point(body, 0)]; Loose(ip) && Core(ip) == ip[i..]
  {
    hide Point;
    var p := Point(body, 0);
    var ip := body[..p];
    assert ip[0] == body[0] && ip[i..][0] == body[i];
    assert |body[i..]| == |body| - i;
    if body[0] == '0' {
      PaddingOfWhole(body);
      var e := PaddingEnd(body, 1);
      if e == p {
        assert i == p - 1 && ip[i..] == [ip[p - 1]];
      }
    } else {
      assert i == 0 && ip[0..] == ip;
    }
  }

  lemma LooseOfRefined(body: string)
    requires Refined(body).Some? && Canonical(Refined(body).value)
    ensures LooseNumber(body) && Refined(body).value == NoUnderscores(Core(body[..Point(body, 0)]))
  {
    hide Plain, Point, Canonical, ZerosStripped, PointStripped;
    var r := ZerosStripped(body).value;
    var t := PointStripped(r);
    LiteralOfPlain(t);
    assert Digit(t[0]) && HasDigit(t);
    StrippedNumeral(r);
    var i := StripsPadding(body);
    PointMoves(body, i);
    var p := Point(body, 0);
    assert body[..p][i..] == t && t != "";
    assert p < |body| ==> r[p - i + 1..] == body[p + 1..];
    hide Literal, HasDigit;
    LooseWhole(body, i);
  }

  // ----- Refined texts of the family --------------------------------------------------------------

  /** What cleaning makes of a minus and what follows it. */
  lemma MinusRefined(rest: string)
    ensures var y := Plain(PointStripped("-" + rest)); var p := Point(rest, 0);
            && Starts(y, '-') && (Canonical(y[1..]) <==> AfterMinus(rest))
            && (AfterMinus(rest) ==> |y| == 1 + |NoUnderscores(rest[..p])|)
  {
    hide Canonical, Point;
    var p := Point(rest, 0);
    MinusPoint(rest);
    if PointZeros(rest, p) {
      MinusPlain(rest[..p]);
    } else {
      PointStays(rest);
      MinusPlain(rest);
    }
  }

  lemma MinusPoint(rest: string)
    ensures Point("-" + rest, 0) == 1 + Point(rest, 0)
    ensures PointZeros(rest, Point(rest, 0)) ==> PointStripped("-" + rest) == "-" + rest[..Point(rest, 0)]
    ensures !PointZeros(rest, Point(rest, 0)) ==> PointStripped("-" + rest) == "-" + rest
  {
    var r, p := "-" + rest, Point(rest, 0);
    assert forall k :: 1 <= k < |r| ==> r[k] == rest[k - 1];
    PointIs(r, 1 + p);
    assert r[..1 + p] == "-" + rest[..p];
    assert p < |rest| ==> r[p + 2..] == rest[p + 1..];
    if p == |rest| { assert rest[..p] == rest; }
  }

  lemma {:induction false} NoUnderscoresConcat(a: string, b: string)
    ensures NoUnderscores(a + b) == NoUnderscores(a) + NoUnderscores(b)
    decreases |b|
  {
    if b == "" {
      assert a + b == a && NoUnderscores(b) == "";
    } else {
      var n := |b| - 1;
      assert (a + b)[..|a| + n] == a + b[..n];
      NoUnderscoresConcat(a, b[..n]);
    }
  }

  lemma UnderscoreMoves(u: string)
    ensures HasUnderscore("-" + u) <==> HasUnderscore(u)
  {
    var t := "-" + u;
    if HasUnderscore(u) {
      var k :| 0 <= k < |u| && u[k] == '_';
      assert t[k + 1] == u[k];
    }
    if HasUnderscore(t) {
      var k :| 0 <= k < |t| && t[k] == '_';
      assert t[k] == u[k - 1];
    }
  }

  lemma DoubleMoves(u: string)
    ensures HasDouble("-" + u) <==> HasDouble(u)
  {
    var t := "-" + u;
    if HasDouble(u) {
      var k :| 0 <= k < |u| - 1 && u[k] == '_' && u[k + 1] == '_';
      assert t[k + 1] == u[k] && t[k + 1 + 1] == u[k + 1];
    }
    if HasDouble(t) {
      var k :| 0 <= k < |t| - 1 && t[k] == '_' && t[k + 1] == '_';
      assert t[k] == u[k - 1] && t[k + 1] == u[k - 1 + 1];
    }
  }

  lemma MinusStripped(u: string)
    ensures UnderscoresStripped("-" + u) ==
            if HasUnderscore(u) && u[|u| - 1] != '_' && !HasDouble(u) then Some("-" + NoUnderscores(u)) else None
  {
    hide HasUnderscore, HasDouble, NoUnderscores;
    var t := "-" + u;
    UnderscoreMoves(u);
    DoubleMoves(u);
    assert HasUnderscore(u) ==> u != "" by { NoneInNothing(); }
    assert u != "" ==> t[|t| - 1] == u[|u| - 1];
    NoUnderscoresConcat("-", u);
    MinusItself();
  }

  lemma NoneInNothing()
    ensures !HasUnderscore("")
  {
  }

  lemma MinusItself()
    ensures NoUnderscores("-") == "-"
  {
    assert "-"[..0] == "";
  }

  /** A minus before `u` stays in front, and `u` loses its underscores if they are well placed. */
  lemma MinusPlain(u: string)
    ensures var y := Plain("-" + u);
            && Starts(y, '-')
            && (Canonical(y[1..]) <==> u != "" && u[|u| - 1] != '_' && !HasDouble(u) && Canonical(NoUnderscores(u)))
            && (Canonical(y[1..]) ==> y[1..] == NoUnderscores(u))
  {
    hide HasUnderscore, HasDouble, NoUnderscores, UnderscoresStripped, Canonical;
    MinusStripped(u);
    assert ("-" + NoUnderscores(u))[1..] == NoUnderscores(u) && ("-" + u)[1..] == u;
    if HasUnderscore(u) { UnderscoreIsNoDigit(u); } else { NoneToStrip(u); }
  }

  lemma UnderscoreIsNoDigit(u: string)
    requires HasUnderscore(u)
    ensures u != "" && !Canonical(u)
  {
    var k :| 0 <= k < |u| && u[k] == '_';
    assert !Digit(u[k]);
  }

  lemma {:induction false} NothingToStrip(u: string)
    requires !HasUnderscore(u)
    ensures NoUnderscores(u) == u
  {
    if u != "" {
      assert u[|u| - 1] != '_';
      assert !HasUnderscore(u[..|u| - 1]);
      NothingToStrip(u[..|u| - 1]);
    }
  }

  lemma NoneToStrip(u: string)
    requires !HasUnderscore(u)
    ensures NoUnderscores(u) == u && !HasDouble(u) && (u != "" ==> u[|u| - 1] != '_')
    ensures Canonical(u) ==> u != ""
  {
    NothingToStrip(u);
  }

  /** A point that is not stripped is never read. */
  lemma PointStays(rest: string)
    requires !PointZeros(rest, Point(rest, 0))
    ensures !Canonical(Plain("-" + rest)[1..])
  {
    var p, t := Point(rest, 0), "-" + rest;
    assert rest[p] == '.' && t[p + 1] == '.';
    if UnderscoresStripped(t).Some? {
      MinusPlain(rest);
      if Canonical(Plain(t)[1..]) {
        WithoutUnderscoresIsNumeral(rest);
        assert false;
      }
    } else {
      assert t[1..] == rest && !Digit(rest[p]);
    }
  }

  // ----- The grammar is what is read ------------------------------------------------------------

  lemma FamilyRefined(body: string)
    requires Starts(body, '0') && PaddingEnd(body, 1) < |body| && body[PaddingEnd(body, 1)] == '-'
    ensures Refined(body) == Some(Plain(PointStripped("-" + body[PaddingEnd(body, 1) + 1..])))
  {
    hide Plain, PointStripped;
    var e := PaddingEnd(body, 1);
    FirstOff(body, e);
    assert [body[e]] == "-";
  }

  lemma FirstOff(s: string, i: nat)
    requires i < |s|
    ensures s[i..] == [s[i]] + s[i + 1..]
  {
  }

  /** `x` is a sign and `y`. */
  lemma JiterSigned(negative: bool, y: string)
    ensures var x := SignText(negative) + y;
            JiterInt(x).Ok? <==>
              |x| <= MAX_INT_CHARS && if negative then Canonical(y) else Canonical(Unminus(y))
  {
    hide JiterInt, Canonical;
    var x := SignText(negative) + y;
    JiterExactly(x);
    if negative { assert x[1..] == y; } else { assert x == y; }
  }

  lemma MinusIsNotCanonical(y: string)
    requires Starts(y, '-')
    ensures !Canonical(y)
  {
    assert !Digit(y[0]);
  }

  lemma FamilyPiped(s: string)
    requires ZerosThenMinus(s)
    ensures Piped(s).Some? && JiterInt(Piped(s).value).Ok? <==> Accepts(s)
  {
    hide Trim, Unsigned, JiterInt, Canonical, Plain, PointStripped, AfterMinus, NoUnderscores, Refined, LooseNumber;
    var (negative, body) := Unsigned(Trim(s));
    var rest := body[PaddingEnd(body, 1) + 1..];
    FamilyRefined(body);
    MinusRefined(rest);
    var y := Refined(body).value;
    MinusIsNotCanonical(y);
    JiterSigned(negative, y);
  }

  /** Outside the family a refined text never starts with a minus. */
  lemma NoMinus(s: string)
    requires !ZerosThenMinus(s)
    ensures var (_, body) := Unsigned(Trim(s)); Refined(body).Some? ==> !Starts(Refined(body).value, '-')
  {
    hide Trim, Unsigned, ZerosStripped, PointStripped;
    var (_, body) := Unsigned(Trim(s));
    if Refined(body).Some? && Starts(Refined(body).value, '-') {
      var i := StripsPadding(body);
      MinusComesFrom(body[i..], Refined(body).value);
    }
  }

  lemma OrdinaryPiped(s: string)
    requires !ZerosThenMinus(s)
    ensures Piped(s).Some? && JiterInt(Piped(s).value).Ok? <==> Accepts(s)
  {
    hide Trim, Unsigned, JiterInt, Canonical, NoUnderscores, Refined, LooseNumber, Core, ZerosThenMinus;
    var (negative, body) := Unsigned(Trim(s));
    NoMinus(s);
    if LooseNumber(body) { RefinedOfLoose(body); }
    if Refined(body).Some? {
      JiterSigned(negative, Refined(body).value);
      if Canonical(Refined(body).value) { LooseOfRefined(body); }
    }
  }

  /** What `jiter_int` reads at once is in the grammar. */
  lemma DirectAccepted(s: string)
    requires JiterInt(s).Ok?
    ensures Accepts(s)
  {
    hide Trim, Unsigned, JiterInt, ZerosThenMinus;
    DirectReads(s);
    JiterExactly(s);
    var d := Unminus(s);
    SignedDigitsTrim(s);
    DigitsAreWhole(d);
    NoPoint(d);
    assert d[..|d|] == d;
    CanonicalIsLoose(d);
  }

  lemma CanonicalIsLoose(d: string)
    requires Canonical(d)
    ensures Loose(d) && Core(d) == d && NoUnderscores(d) == d
  {
    DigitsAreTheirOwn(d);
  }

  // ----- Texts too long to be looked at ------------------------------------------------------------

  lemma {:induction false} TrimEndKeeps(s: string, e: nat)
    requires 0 < e <= |s| && !White(s[e - 1])
    ensures e <= |TrimEnd(s)| && TrimEnd(s)[..e] == s[..e]
  {
    if White(s[|s| - 1]) {
      TrimEndKeeps(s[..|s| - 1], e);
    }
  }

  /** A text that begins with so many digits that jiter gives up. */
  lemma TooLongTrims(s: string)
    requires JiterInt(s) == Err(OutOfRange)
    ensures var (negative, body) := Unsigned(Trim(s));
            && negative == Starts(s, '-')
            && exists n :: MAX_INT_CHARS < n + (if negative then 1 else 0)
                           && 0 < n <= |body| && Digits(body[..n]) && body[0] != '0'
  {
    var start := if Starts(s, '-') then 1 else 0;
    var end := DigitsEnd(s, start);
    var n := end - start;
    assert Digits(s[start..end]) && Digit(s[start..end][n - 1]);
    assert TrimStart(s) == s;
    TrimEndKeeps(s, end);
    var t := TrimEnd(s);
    assert t[..end] == s[..end] && forall k :: 0 <= k < end ==> t[k] == s[k];
    var body := t[start..];
    assert body[..n] == s[start..end];
  }

  lemma {:induction false} DigitsSurvive(a: string, b: string)
    requires Digits(a)
    ensures |NoUnderscores(a + b)| >= |a|
  {
    NoUnderscoresConcat(a, b);
    DigitsAreTheirOwn(a);
  }

  lemma TooLongRefused(s: string)
    requires JiterInt(s) == Err(OutOfRange)
    ensures !Accepts(s)
  {
    hide Trim, Unsigned, JiterInt, NoUnderscores, Literal;
    TooLongTrims(s);
    var (negative, body) := Unsigned(Trim(s));
    var n :| MAX_INT_CHARS < n + (if negative then 1 else 0) && 0 < n <= |body| && Digits(body[..n]) && body[0] != '0';
    var p := Point(body, 0);
    assert p >= n by { LeadingDigits(body, n); }
    var ip := body[..p];
    assert ip == body[..n] + body[n..p];
    DigitsSurvive(body[..n], body[n..p]);
  }

  lemma LeadingDigits(body: string, n: nat)
    requires n <= |body| && Digits(body[..n])
    ensures Point(body, 0) >= n
  {
    assert forall k :: 0 <= k < n ==> body[k] == body[..n][k];
  }

  /** `str_as_int` accepts exactly the strings of the grammar. */
  lemma AcceptedExactly(s: string)
    ensures StrAsInt(s).Ok? <==> Accepts(s)
  {
    hide JiterInt, Cleaned, Piped, Accepts, ZerosThenMinus;
    match JiterInt(s)
    case Ok(_) => DirectAccepted(s);
    case Err(OutOfRange) => TooLongRefused(s);
    case Err(Other) =>
      CleanedIsPiped(s);
      if ZerosThenMinus(s) { FamilyPiped(s); } else { OrdinaryPiped(s); }
  }

  lemma LiteralIsLoose(d: string)
    requires Literal(d)
    ensures Loose(d)
  {
    if d[0] == '0' {
      var e := PaddingEnd(d, 1);
      if e < |d| {
        var r := d[e..];
        assert forall k :: 0 <= k < |r| ==> r[k] == d[e + k];
        forall k | 0 < k < |r| ensures r[k - 1] != '_' || r[k] != '_' { assert d[e + k - 1] != '_' || d[e + k] != '_'; }
      }
    }
  }

  /** Whatever `int()` reads is read alike, as long as its digits, less the zeros in front, are not too many. */
  lemma IntIsAccepted(s: string)
    requires PythonValue(s).Some?
    ensures var (negative, digits) := Unsigned(Trim(s));
            && Loose(digits) && Denoted(s).Some?
            && ((if negative then 1 else 0) + |NoUnderscores(Core(digits))| <= MAX_INT_CHARS
                ==> StrAsInt(s) == Ok(OfInt(Denoted(s).value)))
  {
    hide Trim, StrAsInt, Denoted, ZerosThenMinus, NoUnderscores, Core;
    var (negative, digits) := Unsigned(Trim(s));
    PythonIsDenotation(s);
    LiteralIsLoose(digits);
    NoPoint(digits);
    assert digits[..|digits|] == digits;
    if ZerosThenMinus(s) { ZerosThenMinusDenotesNothing(s); }
    AcceptedExactly(s);
    if StrAsInt(s).Ok? { CoercionIsDenotation(s); }
  }
}
