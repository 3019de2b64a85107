/** Segment file names and their order (backend-rs/src/hls.rs). */
module SegmentName {
  import Decimal

  datatype Ordering = Less | Equal | Greater

  function Flip(o: Ordering): Ordering {
    match o case Less => Greater case Equal => Equal case Greater => Less
  }

  function CompareInt(a: int, b: int): Ordering {
    if a < b then Less else if a == b then Equal else Greater
  }

  /** `Ordering::then_with`. */
  function Then(o: Ordering, next: Ordering): Ordering { if o == Equal then next else o }

  /** String order: the first difference decides, and a prefix comes first. */
  function Lexical(a: string, b: string): Ordering {
    if a == "" then (if b == "" then Equal else Less)
    else if b == "" then Greater
    else Then(CompareInt(a[0] as int, b[0] as int), Lexical(a[1..], b[1..]))
  }

  predicate IsDigit(c: char) { '0' <= c <= '9' }

  /** The digits at the front. */
  function DigitPrefix(s: string): (r: string)
    ensures |r| <= |s| && r == s[..|r|]
  {
    if s == "" || !IsDigit(s[0]) then "" else [s[0]] + DigitPrefix(s[1..])
  }

  function TrimZeros(s: string): string {
    if s != "" && s[0] == '0' then TrimZeros(s[1..]) else s
  }

  const PREFIX := "segment_"

  /** The digits of the sequence number, without leading zeros. */
  function Sequence(name: string): string {
    TrimZeros(DigitPrefix(if PREFIX <= name then name[|PREFIX|..] else name))
  }

  /** By the number's width, then its digits, then the whole name. */
  function Compare(a: string, b: string): Ordering {
    var x, y := Sequence(a), Sequence(b);
    Then(CompareInt(|x|, |y|), Then(Lexical(x, y), Lexical(a, b)))
  }

  // ----- A total order -------------------------------------------------------

  lemma {:induction false} LexicalAntisymmetric(a: string, b: string)
    ensures Lexical(b, a) == Flip(Lexical(a, b))
    ensures Lexical(a, b) == Equal <==> a == b
  {
    if a != "" && b != "" {
      LexicalAntisymmetric(a[1..], b[1..]);
      assert a == [a[0]] + a[1..] && b == [b[0]] + b[1..];
    }
  }

  lemma {:induction false} LexicalTransitive(a: string, b: string, c: string)
    requires Lexical(a, b) != Greater && Lexical(b, c) != Greater
    ensures Lexical(a, c) != Greater
    ensures Lexical(a, b) == Less || Lexical(b, c) == Less ==> Lexical(a, c) == Less
  {
    if a != "" && b != "" && c != "" {
      if Lexical(a[1..], b[1..]) != Greater && Lexical(b[1..], c[1..]) != Greater {
        LexicalTransitive(a[1..], b[1..], c[1..]);
      }
    }
  }

  /** The order is antisymmetric and agrees with equality of names. */
  lemma CompareAntisymmetric(a: string, b: string)
    ensures Compare(b, a) == Flip(Compare(a, b))
    ensures Compare(a, b) == Equal <==> a == b
  {
    LexicalAntisymmetric(Sequence(a), Sequence(b));
    LexicalAntisymmetric(a, b);
  }

  lemma CompareTransitive(a: string, b: string, c: string)
    requires Compare(a, b) != Greater && Compare(b, c) != Greater
    ensures Compare(a, c) != Greater
    ensures Compare(a, b) == Less || Compare(b, c) == Less ==> Compare(a, c) == Less
  {
    var x, y, z := Sequence(a), Sequence(b), Sequence(c);
    LexicalAntisymmetric(x, y);
    LexicalAntisymmetric(y, z);
    LexicalAntisymmetric(x, z);
    if Lexical(x, y) != Greater && Lexical(y, z) != Greater { LexicalTransitive(x, y, z); }
    if Lexical(a, b) != Greater && Lexical(b, c) != Greater { LexicalTransitive(a, b, c); }
  }

  // ----- Names in sequence ------------------------------------------------------

  /** `segment_{n:05}.ts`. */
  function NameOf(n: nat): string { PREFIX + Decimal.Padded(n, 5) + ".ts" }

  lemma {:induction false} DigitPrefixOf(d: string, rest: string)
    requires forall k :: 0 <= k < |d| ==> IsDigit(d[k])
    requires rest == "" || !IsDigit(rest[0])
    ensures DigitPrefix(d + rest) == d
    decreases |d|
  {
    if d == "" {
      assert d + rest == rest;
    } else {
      assert (d + rest)[1..] == d[1..] + rest;
      DigitPrefixOf(d[1..], rest);
    }
  }

  lemma {:induction false} TrimOf(k: nat, s: string)
    requires s == "" || s[0] != '0'
    ensures TrimZeros(Decimal.Zeros(k) + s) == s
    decreases k
  {
    var t := Decimal.Zeros(k) + s;
    if k == 0 {
      assert t == s;
    } else {
      assert t[1..] == Decimal.Zeros(k - 1) + s;
      TrimOf(k - 1, s);
    }
  }

  lemma SequenceOfName(n: nat)
    ensures Sequence(NameOf(n)) == Decimal.Significant(n)
  {
    var d := Decimal.Padded(n, 5);
    assert NameOf(n) == PREFIX + (d + ".ts");
    assert NameOf(n)[|PREFIX|..] == d + ".ts";
    DigitPrefixOf(d, ".ts");
    var k := if |Decimal.Write(n)| < 5 then 5 - |Decimal.Write(n)| else 0;
    if n == 0 {
      assert d == Decimal.Zeros(5) + "";
      TrimOf(5, "");
    } else {
      TrimOf(k, Decimal.Significant(n));
    }
  }

  lemma {:induction false} LexicalSnoc(x: string, y: string, a: char, b: char)
    requires |x| == |y|
    ensures Lexical(x + [a], y + [b]) == Then(Lexical(x, y), CompareInt(a as int, b as int))
    decreases |x|
  {
    if x != "" {
      assert (x + [a])[1..] == x[1..] + [a] && (y + [b])[1..] == y[1..] + [b];
      LexicalSnoc(x[1..], y[1..], a, b);
    } else {
      assert ([a])[1..] == "" && ([b])[1..] == "";
      assert x + [a] == [a] && y + [b] == [b];
    }
  }

  /** Significant digits, by width and then as text, compare as the numbers. */
  lemma {:induction false} SignificantOrder(m: nat, n: nat)
    ensures var x, y := Decimal.Significant(m), Decimal.Significant(n);
            Then(CompareInt(|x|, |y|), Lexical(x, y)) == CompareInt(m, n)
    decreases m
  {
    if m > 0 && n > 0 {
      SignificantOrder(m / 10, n / 10);
      var x, y := Decimal.Significant(m / 10), Decimal.Significant(n / 10);
      if |x| == |y| {
        LexicalSnoc(x, y, Decimal.DigitChar(m % 10), Decimal.DigitChar(n % 10));
      }
    }
  }

  /** Names in the node's format order as their numbers, at any width. */
  lemma NamesOrderAsNumbers(m: nat, n: nat)
    ensures Compare(NameOf(m), NameOf(n)) == CompareInt(m, n)
  {
    SequenceOfName(m);
    SequenceOfName(n);
    SignificantOrder(m, n);
    if m == n { LexicalAntisymmetric(NameOf(m), NameOf(n)); }
  }
}
