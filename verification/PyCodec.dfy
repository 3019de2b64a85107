/**
 * The UTF-8 validator that reports CPython's error spans
 * (backend-rs/src/pycodec.rs), against the encoding of section 3 of RFC 3629.
 */
module Utf8 {
  import opened Wrappers
  import opened Bytes

  // ----- The encoding ----------------------------------------------------------

  function EncodeChar(c: char): (e: seq<byte>)
    ensures 1 <= |e| <= 4
  {
    var n := c as int;
    var a := n / 64;
    var b := a / 64;
    if n < 0x80 then [n]
    else if n < 0x800 then [0xC0 + a, 0x80 + n % 64]
    else if n < 0x10000 then [0xE0 + b, 0x80 + a % 64, 0x80 + n % 64]
    else [0xF0 + b / 64, 0x80 + b % 64, 0x80 + a % 64, 0x80 + n % 64]
  }

  function Encode(s: string): seq<byte> {
    if s == "" then [] else EncodeChar(s[0]) + Encode(s[1..])
  }

  /** The bytes are a concatenation of encoded characters. */
  ghost predicate WellFormed(bs: seq<byte>) { exists s: string :: Encode(s) == bs }

  /** The bytes begin the encoding of some character. */
  ghost predicate Viable(p: seq<byte>) { exists c: char :: p <= EncodeChar(c) }

  // ----- The decoder's table -----------------------------------------------------

  /** How many continuation bytes a lead byte calls for, and the range of the first. */
  datatype Shape = Shape(needed: nat, low: byte, high: byte)

  function Lead(b: byte): (r: Option<Shape>)
    ensures r.Some? ==> r.value.needed <= 3 && 0x80 <= r.value.low <= r.value.high <= 0xBF
  {
    if b <= 0x7F then Some(Shape(0, 0x80, 0xBF))
    else if 0xC2 <= b <= 0xDF then Some(Shape(1, 0x80, 0xBF))
    else if b == 0xE0 then Some(Shape(2, 0xA0, 0xBF))
    else if b == 0xED then Some(Shape(2, 0x80, 0x9F))
    else if 0xE1 <= b <= 0xEF then Some(Shape(2, 0x80, 0xBF))
    else if b == 0xF0 then Some(Shape(3, 0x90, 0xBF))
    else if 0xF1 <= b <= 0xF3 then Some(Shape(3, 0x80, 0xBF))
    else if b == 0xF4 then Some(Shape(3, 0x80, 0x8F))
    else None
  }

  /** Whether byte `step` of a sequence is allowed after its lead. */
  predicate StepOk(shape: Shape, step: nat, b: byte) {
    if step == 1 then shape.low <= b <= shape.high else 0x80 <= b <= 0xBF
  }

  /** `p` starts a sequence the table allows. */
  predicate Fits(p: seq<byte>) {
    && p != [] && Lead(p[0]).Some?
    && |p| <= Lead(p[0]).value.needed + 1
    && forall k :: 1 <= k < |p| ==> StepOk(Lead(p[0]).value, k, p[k])
  }

  predicate Complete(p: seq<byte>) { Fits(p) && |p| == Lead(p[0]).value.needed + 1 }

  // ----- The table is the encoding ------------------------------------------------

  lemma EncodedIsComplete(c: char)
    ensures Complete(EncodeChar(c))
  {
    var n := c as int;
    var a := n / 64;
    var b := a / 64;
    assert n == 64 * a + n % 64 && a == 64 * b + a % 64;
    if n >= 0x10000 { assert b == 64 * (b / 64) + b % 64; }
  }

  /** The value of continuation bits shifted in below `n`. */
  function Shift(n: int, b: byte): int { n * 64 + (b as int - 0x80) }

  function DecodeInt(p: seq<byte>): (n: int)
    requires 1 <= |p| <= 4
  {
    var lead := p[0] as int;
    if |p| == 1 then lead
    else if |p| == 2 then Shift(lead - 0xC0, p[1])
    else if |p| == 3 then Shift(Shift(lead - 0xE0, p[1]), p[2])
    else Shift(Shift(Shift(lead - 0xF0, p[1]), p[2]), p[3])
  }

  lemma Unshift(n: int, b: byte)
    requires 0x80 <= b <= 0xBF
    ensures Shift(n, b) / 64 == n && 0x80 + Shift(n, b) % 64 == b as int
  {
  }

  lemma DecodesTwo(p: seq<byte>)
    requires Complete(p) && |p| == 2
    ensures var n := DecodeInt(p); 0x80 <= n < 0x800 && EncodeChar(n as char) == p
  {
    assert StepOk(Lead(p[0]).value, 1, p[1]);
    Unshift(p[0] as int - 0xC0, p[1]);
  }

  lemma DecodesThree(p: seq<byte>)
    requires Complete(p) && |p| == 3
    ensures var n := DecodeInt(p); 0x800 <= n < 0x10000 && !(0xD800 <= n < 0xE000) && EncodeChar(n as char) == p
  {
    var shape, lead := Lead(p[0]).value, p[0] as int - 0xE0;
    assert StepOk(shape, 1, p[1]) && StepOk(shape, 2, p[2]);
    Unshift(lead, p[1]);
    Unshift(Shift(lead, p[1]), p[2]);
  }

  lemma DecodesFour(p: seq<byte>)
    requires Complete(p) && |p| == 4
    ensures var n := DecodeInt(p); 0x10000 <= n < 0x110000 && EncodeChar(n as char) == p
  {
    var shape, lead := Lead(p[0]).value, p[0] as int - 0xF0;
    assert StepOk(shape, 1, p[1]) && StepOk(shape, 2, p[2]) && StepOk(shape, 3, p[3]);
    Unshift(lead, p[1]);
    Unshift(Shift(lead, p[1]), p[2]);
    Unshift(Shift(Shift(lead, p[1]), p[2]), p[3]);
  }

  /** Every sequence the table allows encodes a character. */
  lemma CompleteIsEncoded(p: seq<byte>) returns (c: char)
    requires Complete(p)
    ensures EncodeChar(c) == p
  {
    if |p| == 1 {
      return p[0] as char;
    } else if |p| == 2 {
      DecodesTwo(p);
    } else if |p| == 3 {
      DecodesThree(p);
    } else {
      DecodesFour(p);
    }
    c := DecodeInt(p) as char;
  }

  lemma DecodeEncoded(c: char)
    ensures DecodeInt(EncodeChar(c)) == c as int
  {
    var n := c as int;
    var a := n / 64;
    var b := a / 64;
    assert n == 64 * a + n % 64 && a == 64 * b + a % 64 && b == 64 * (b / 64) + b % 64;
  }

  lemma EncodeCharInjective(c: char, d: char)
    requires EncodeChar(c) == EncodeChar(d)
    ensures c == d
  {
    DecodeEncoded(c);
    DecodeEncoded(d);
  }

  /** A sequence that fits can be finished. */
  lemma {:induction false} FitsIsViable(p: seq<byte>)
    requires Fits(p)
    ensures Viable(p)
    decreases 4 - |p|
  {
    var shape := Lead(p[0]).value;
    if |p| == shape.needed + 1 {
      var c := CompleteIsEncoded(p);
      assert p <= EncodeChar(c);
    } else {
      var q := p + [shape.low];
      assert Fits(q);
      FitsIsViable(q);
      var c: char :| q <= EncodeChar(c);
      assert p <= q;
    }
  }

  lemma ViableFits(p: seq<byte>)
    requires p != [] && Viable(p)
    ensures Fits(p)
  {
    var c: char :| p <= EncodeChar(c);
    EncodedIsComplete(c);
  }

  // ----- Unique reading -------------------------------------------------------------

  /** Two encodings that both start the same bytes are the same character. */
  lemma SameStart(c: char, d: char, x: seq<byte>, y: seq<byte>)
    requires EncodeChar(c) + x == EncodeChar(d) + y
    ensures c == d && x == y
  {
    EncodedIsComplete(c);
    EncodedIsComplete(d);
    var e, f := EncodeChar(c), EncodeChar(d);
    assert (e + x)[0] == e[0] && (f + y)[0] == f[0];
    assert |e| == |f|;
    assert e == (e + x)[..|e|] == (f + y)[..|f|] == f;
    EncodeCharInjective(c, d);
    assert x == (e + x)[|e|..] == (f + y)[|f|..] == y;
  }

  /** What is left of a well-formed text after a well-formed beginning is well-formed. */
  lemma {:induction false} Suffix(a: string, b: string, x: seq<byte>) returns (s: string)
    requires Encode(b) == Encode(a) + x
    ensures Encode(s) == x
    decreases |a|
  {
    if a == "" {
      s := b;
      assert Encode(a) + x == x;
    } else {
      var e := EncodeChar(a[0]);
      assert Encode(a) + x == e + (Encode(a[1..]) + x);
      assert b != "";
      SameStart(a[0], b[0], Encode(a[1..]) + x, Encode(b[1..]));
      s := Suffix(a[1..], b[1..], x);
    }
  }

  lemma {:induction false} EncodeAppend(a: string, b: string)
    ensures Encode(a + b) == Encode(a) + Encode(b)
    decreases |a|
  {
    if a == "" {
      assert a + b == b;
    } else {
      assert (a + b)[1..] == a[1..] + b;
      EncodeAppend(a[1..], b);
    }
  }

  /** After a well-formed beginning, a well-formed text goes on with a whole
      sequence of the table, or ends. */
  lemma NextIsComplete(good: seq<byte>, q: seq<byte>) returns (n: nat)
    requires q != [] && WellFormed(good) && WellFormed(good + q)
    ensures 1 <= n <= |q| && Complete(q[..n])
  {
    var a: string :| Encode(a) == good;
    var b: string :| Encode(b) == good + q;
    var s := Suffix(a, b, q);
    n := |EncodeChar(s[0])|;
    EncodedIsComplete(s[0]);
    assert q[..n] == EncodeChar(s[0]);
  }

  lemma ExtendWellFormed(bs: seq<byte>, i: nat, n: nat)
    requires i + n <= |bs| && WellFormed(bs[..i]) && Complete(bs[i..i + n])
    ensures WellFormed(bs[..i + n])
  {
    var a: string :| Encode(a) == bs[..i];
    var c := CompleteIsEncoded(bs[i..i + n]);
    EncodeAppend(a, [c]);
    assert Encode([c]) == EncodeChar(c) by { assert [c][1..] == "" && EncodeChar(c) + [] == EncodeChar(c); }
    assert bs[..i + n] == bs[..i] + bs[i..i + n];
    assert Encode(a + [c]) == bs[..i + n];
  }

  // ----- The validator -----------------------------------------------------------------

  datatype Reason = InvalidStart | InvalidContinuation | Truncated

  datatype Span = Span(start: nat, end: nat, reason: Reason)

  /** What an error report means. */
  ghost predicate Reports(bs: seq<byte>, e: Span) {
    && e.start < e.end <= |bs|
    // `start` is where the longest well-formed beginning ends
    && WellFormed(bs[..e.start])
    && (forall k :: e.start < k <= |bs| ==> !WellFormed(bs[..k]))
    // cut short, rather than wrong, exactly when more bytes could repair it
    && (e.reason == Truncated <==> exists more: seq<byte> :: WellFormed(bs + more))
    && (match e.reason
        case InvalidStart => e.end == e.start + 1 && !Viable(bs[e.start..e.end])
        case InvalidContinuation =>
          e.end < |bs| && Viable(bs[e.start..e.end]) && !Viable(bs[e.start..e.end + 1])
        case Truncated => e.end == |bs| && Viable(bs[e.start..e.end]))
  }

  /** No sequence of the table stands at the front of `q`. */
  ghost predicate NoComplete(q: seq<byte>) { forall n :: 1 <= n <= |q| ==> !Complete(q[..n]) }

  /** Nothing well-formed goes on with bytes that no sequence of the table starts. */
  lemma Stuck(good: seq<byte>, q: seq<byte>)
    requires WellFormed(good) && q != [] && NoComplete(q)
    ensures !WellFormed(good + q)
  {
    if WellFormed(good + q) {
      var n := NextIsComplete(good, q);
      assert false;
    }
  }

  /** Part of a sequence, still short of it. */
  predicate Partial(p: seq<byte>) { p == [] || (Fits(p) && !Complete(p)) }

  lemma PartialNoComplete(p: seq<byte>, q: seq<byte>)
    requires Partial(p) && q <= p
    ensures NoComplete(q)
  {
  }

  /** Bytes that agree with a partial sequence up to a byte it cannot take. */
  lemma BadNoComplete(p: seq<byte>, b: byte, q: seq<byte>)
    requires Partial(p) && !Fits(p + [b]) && p + [b] <= q
    ensures NoComplete(q)
  {
    var r := p + [b];
    forall n | 1 <= n <= |q| ensures !Complete(q[..n]) {
      if n > |p| {
        assert forall k :: 0 <= k < |r| ==> q[..n][k] == r[k];
        assert Complete(q[..n]) ==> Fits(r);
      } else if n > 0 {
        assert q[..n][0] == p[0];
      }
    }
  }

  /** Slices of the bytes around a bad one. */
  lemma SlicesAround(bs: seq<byte>, i: nat, e: nat, q: seq<byte>)
    requires i <= e < |bs| && q != []
    requires q <= bs[i..] || bs[i..] <= q
    ensures |q| <= e - i ==> q <= bs[i..e]
    ensures |q| > e - i ==> bs[i..e] + [bs[e]] <= q
  {
    var r := bs[i..];
    assert forall k :: 0 <= k < |q| && k < |r| ==> q[k] == r[k];
    assert forall k :: 0 <= k < e - i ==> bs[i..e][k] == r[k];
    assert r[e - i] == bs[e];
  }

  /** Nothing that starts with the bad bytes continues the good ones. */
  lemma BadTail(bs: seq<byte>, i: nat, e: nat, q: seq<byte>)
    requires i <= e < |bs| && WellFormed(bs[..i])
    requires Partial(bs[i..e]) && !Fits(bs[i..e] + [bs[e]])
    requires q != [] && (q <= bs[i..] || bs[i..] <= q)
    ensures !WellFormed(bs[..i] + q)
  {
    hide WellFormed, Partial, Fits, Complete;
    SlicesAround(bs, i, e, q);
    if |q| <= e - i {
      PartialNoComplete(bs[i..e], q);
    } else {
      BadNoComplete(bs[i..e], bs[e], q);
    }
    Stuck(bs[..i], q);
  }

  lemma CutAt(bs: seq<byte>, i: nat, k: nat)
    requires i < k <= |bs|
    ensures bs[i..k] != [] && bs[i..k] <= bs[i..] && bs[..i] + bs[i..k] == bs[..k]
  {
    assert bs[i..k] == bs[i..][..k - i];
  }

  /** A byte that cannot go on the partial sequence before it ends every hope. */
  lemma BadByte(bs: seq<byte>, i: nat, e: nat)
    requires i <= e < |bs| && WellFormed(bs[..i])
    requires Partial(bs[i..e]) && !Fits(bs[i..e] + [bs[e]])
    ensures forall k :: i < k <= |bs| ==> !WellFormed(bs[..k])
    ensures !exists more: seq<byte> :: WellFormed(bs + more)
  {
    hide WellFormed, Partial, Fits;
    forall k | i < k <= |bs| ensures !WellFormed(bs[..k]) {
      CutAt(bs, i, k);
      BadTail(bs, i, e, bs[i..k]);
    }
    forall more: seq<byte> ensures !WellFormed(bs + more) {
      BadTail(bs, i, e, bs[i..] + more);
      assert bs + more == bs[..i] + (bs[i..] + more);
    }
  }

  lemma NotViable(p: seq<byte>)
    requires p != [] && !Fits(p)
    ensures !Viable(p)
  {
    if Viable(p) { ViableFits(p); }
  }

  /** The three ways to fail. */
  lemma StartReports(bs: seq<byte>, i: nat)
    requires i < |bs| && WellFormed(bs[..i]) && Lead(bs[i]).None?
    ensures Reports(bs, Span(i, i + 1, InvalidStart))
  {
    assert bs[i..i] == [] && bs[i..i + 1] == [bs[i]];
    assert [] + [bs[i]] == [bs[i]];
    BadByte(bs, i, i);
    NotViable(bs[i..i + 1]);
  }

  lemma ContinuationReports(bs: seq<byte>, i: nat, e: nat)
    requires i < e < |bs| && WellFormed(bs[..i])
    requires Partial(bs[i..e]) && !StepOk(Lead(bs[i]).value, e - i, bs[e])
    ensures Reports(bs, Span(i, e, InvalidContinuation))
  {
    var r := bs[i..e] + [bs[e]];
    assert r[0] == bs[i] && r[e - i] == bs[e];
    BadByte(bs, i, e);
    assert bs[i..e + 1] == r;
    FitsIsViable(bs[i..e]);
    NotViable(r);
  }

  lemma TruncationReports(bs: seq<byte>, i: nat)
    requires i < |bs| && WellFormed(bs[..i]) && Partial(bs[i..])
    ensures Reports(bs, Span(i, |bs|, Truncated))
  {
    var p := bs[i..];
    assert bs[i..|bs|] == p;
    FitsIsViable(p);
    forall k | i < k <= |bs| ensures !WellFormed(bs[..k]) {
      assert bs[i..k] == p[..k - i];
      PartialNoComplete(p, bs[i..k]);
      Stuck(bs[..i], bs[i..k]);
      assert bs[..k] == bs[..i] + bs[i..k];
    }
    var more := Repair(bs, i);
    assert WellFormed(bs + more);
  }

  /** The bytes that finish a sequence cut short. */
  lemma Repair(bs: seq<byte>, i: nat) returns (more: seq<byte>)
    requires i < |bs| && WellFormed(bs[..i]) && Viable(bs[i..])
    ensures WellFormed(bs + more)
  {
    hide EncodeChar, WellFormed;
    var p := bs[i..];
    var c: char :| p <= EncodeChar(c);
    var e := EncodeChar(c);
    more := e[|p|..];
    var all := bs + more;
    EncodedIsComplete(c);
    assert all[..i] == bs[..i] && all[i..i + |e|] == e && all[..i + |e|] == all;
    ExtendWellFormed(all, i, |e|);
  }

  lemma EmptyWellFormed()
    ensures WellFormed([])
  {
    assert Encode("") == [];
  }

  lemma ReportedIsIllFormed(bs: seq<byte>, e: Span)
    requires Reports(bs, e)
    ensures !WellFormed(bs)
  {
    assert bs[..|bs|] == bs;
  }

  /** The program's loop. */
  method FindError(bs: seq<byte>) returns (r: Option<Span>)
    ensures r.None? <==> WellFormed(bs)
    ensures r.Some? ==> Reports(bs, r.value)
  {
    hide Reports, WellFormed, Lead, StepOk;
    var i := 0;
    EmptyWellFormed();
    assert bs[..0] == [];
    while i < |bs|
      invariant i <= |bs|
      invariant WellFormed(bs[..i])
    {
      var shape := Lead(bs[i]);
      if shape.None? {
        StartReports(bs, i);
        ReportedIsIllFormed(bs, Span(i, i + 1, InvalidStart));
        return Some(Span(i, i + 1, InvalidStart));
      }
      var needed := shape.value.needed;
      var step := 1;
      while step <= needed
        invariant 1 <= step <= needed + 1
        invariant i + step <= |bs|
        invariant Fits(bs[i..i + step])
      {
        if i + step >= |bs| {
          assert bs[i..i + step] == bs[i..];
          TruncationReports(bs, i);
          ReportedIsIllFormed(bs, Span(i, |bs|, Truncated));
          return Some(Span(i, |bs|, Truncated));
        }
        if !StepOk(shape.value, step, bs[i + step]) {
          ContinuationReports(bs, i, i + step);
          ReportedIsIllFormed(bs, Span(i, i + step, InvalidContinuation));
          return Some(Span(i, i + step, InvalidContinuation));
        }
        assert bs[i..i + step + 1] == bs[i..i + step] + [bs[i + step]];
        step := step + 1;
      }
      ExtendWellFormed(bs, i, needed + 1);
      i := i + (needed + 1);
    }
    assert bs[..i] == bs;
    return None;
  }
}
