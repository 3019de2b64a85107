/** Decimal writing of natural numbers. */
module Decimal {

  function DigitChar(d: nat): (c: char)
    requires d < 10
    ensures '0' <= c <= '9' && c as int == '0' as int + d
  {
    '0' + d as char
  }

  /** The digits of `n` from its first that is not zero; nothing for zero. */
  function Significant(n: nat): (s: string)
    ensures forall k :: 0 <= k < |s| ==> '0' <= s[k] <= '9'
    ensures s == "" <==> n == 0
    ensures s != "" ==> s[0] != '0'
  {
    if n == 0 then "" else Significant(n / 10) + [DigitChar(n % 10)]
  }

  /** `{n}`. */
  function Write(n: nat): (s: string)
    ensures s != "" && forall k :: 0 <= k < |s| ==> '0' <= s[k] <= '9'
  {
    if n == 0 then "0" else Significant(n)
  }

  function Zeros(n: nat): (s: string)
    ensures |s| == n && forall k :: 0 <= k < n ==> s[k] == '0'
  {
    seq(n, _ => '0')
  }

  /** `{n:0width}`. */
  function Padded(n: nat, width: nat): (s: string)
    ensures |s| >= width && s != "" && forall k :: 0 <= k < |s| ==> '0' <= s[k] <= '9'
  {
    Zeros(if |Write(n)| < width then width - |Write(n)| else 0) + Write(n)
  }

  /** The number a string of digits denotes. */
  function Value(s: string): (n: nat)
    requires forall k :: 0 <= k < |s| ==> '0' <= s[k] <= '9'
  {
    if s == "" then 0 else Value(s[..|s| - 1]) * 10 + (s[|s| - 1] as int - '0' as int)
  }

  lemma {:induction false} ValueOfSignificant(n: nat)
    ensures Value(Significant(n)) == n
  {
    if n > 0 {
      var s := Significant(n);
      assert s[..|s| - 1] == Significant(n / 10);
      ValueOfSignificant(n / 10);
    }
  }

  lemma ValueOfWritten(n: nat)
    ensures Value(Write(n)) == n
  {
    if n == 0 {
      assert "0"[..0] == "";
    } else {
      ValueOfSignificant(n);
    }
  }

  lemma {:induction false} ValueSkipsZeros(k: nat, s: string)
    requires forall i :: 0 <= i < |s| ==> '0' <= s[i] <= '9'
    ensures Value(Zeros(k) + s) == Value(s)
    decreases |s|, k
  {
    var t := Zeros(k) + s;
    if s != "" {
      assert t[..|t| - 1] == Zeros(k) + s[..|s| - 1];
      ValueSkipsZeros(k, s[..|s| - 1]);
    } else if k > 0 {
      assert t[..|t| - 1] == Zeros(k - 1) + s;
      ValueSkipsZeros(k - 1, s);
    }
  }

  lemma ValueOfPadded(n: nat, width: nat)
    ensures Value(Padded(n, width)) == n
  {
    ValueSkipsZeros(if |Write(n)| < width then width - |Write(n)| else 0, Write(n));
    ValueOfWritten(n);
  }

  /** Different numbers are written differently. */
  lemma WriteInjective(m: nat, n: nat)
    requires Write(m) == Write(n)
    ensures m == n
  {
    ValueOfWritten(m);
    ValueOfWritten(n);
  }

  lemma {:induction false} SignificantLength(n: nat, k: nat)
    ensures |Significant(n)| <= k <==> n < Power10(k)
  {
    if n > 0 && k > 0 {
      SignificantLength(n / 10, k - 1);
    }
  }

  function Power10(k: nat): (p: nat)
    ensures p > 0
  {
    if k == 0 then 1 else 10 * Power10(k - 1)
  }

  /** A number with room to spare is padded to exactly the width. */
  lemma PaddedLength(n: nat, width: nat)
    requires width > 0 && n < Power10(width)
    ensures |Padded(n, width)| == width
  {
    SignificantLength(n, width);
  }
}
