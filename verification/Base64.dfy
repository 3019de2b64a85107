/**
 * The two base64 alphabets, the encoder and the three decoders
 * (backend-rs/src/crypto.rs and backend-rs/src/ratelimit.rs), for sections 4
 * and 5 of RFC 4648.
 *
 * A 32-bit accumulator is an integer below 2^32: shifting it left by six drops
 * whatever leaves the top, and or-ing a sextet into the six zero bits is adding it.
 */
module Base64 {
  import opened Wrappers
  import opened Bytes

  type sextet = v: int | 0 <= v < 64

  type word = n: int | 0 <= n < 0x1_0000_0000

  datatype Alphabet = Standard | UrlSafe

  const PAD: byte := 0x3D

  /** The symbol table: A-Z, a-z, 0-9, then `+/` or `-_`. */
  function Symbol(a: Alphabet, v: sextet): (b: byte)
    ensures b != PAD
  {
    if v < 26 then 0x41 + v
    else if v < 52 then 0x61 + (v - 26)
    else if v < 62 then 0x30 + (v - 52)
    else if v == 62 then (if a == Standard then 0x2B else 0x2D)
    else (if a == Standard then 0x2F else 0x5F)
  }

  /** The place of a symbol in its table. */
  function Position(a: Alphabet, b: byte): (r: Option<sextet>)
    ensures r.Some? ==> Symbol(a, r.value) == b
    ensures r.None? ==> forall v: sextet :: Symbol(a, v) != b
  {
    if 0x41 <= b <= 0x5A then Some(b - 0x41)
    else if 0x61 <= b <= 0x7A then Some(b - 0x61 + 26)
    else if 0x30 <= b <= 0x39 then Some(b - 0x30 + 52)
    else if b == Symbol(a, 62) then Some(62)
    else if b == Symbol(a, 63) then Some(63)
    else None
  }

  lemma PositionOfSymbol(a: Alphabet, v: sextet)
    ensures Position(a, Symbol(a, v)) == Some(v)
  {
  }

  /** The lenient decoder's own table look-up. */
  function Sextet(b: byte): sextet {
    if 0x41 <= b <= 0x5A then b - 0x41
    else if 0x61 <= b <= 0x7A then b - 0x61 + 26
    else if 0x30 <= b <= 0x39 then b - 0x30 + 52
    else if b == 0x2B then 62
    else 63
  }

  predicate IsAlphabet(b: byte) {
    0x41 <= b <= 0x5A || 0x61 <= b <= 0x7A || 0x30 <= b <= 0x39 || b == 0x2B || b == 0x2F
  }

  lemma StandardTable(b: byte)
    ensures IsAlphabet(b) <==> Position(Standard, b).Some?
    ensures IsAlphabet(b) ==> Position(Standard, b) == Some(Sextet(b))
  {
  }

  // ----- Bits: what an encoding means ------------------------------------------

  /** The `n` low bits of `x`, most significant first. */
  function Bits(x: nat, n: nat): (r: seq<bool>)
    ensures |r| == n
  {
    if n == 0 then [] else Bits(x / 2, n - 1) + [x % 2 == 1]
  }

  function ByteBits(bs: seq<byte>): seq<bool> {
    if bs == [] then [] else Bits(bs[0], 8) + ByteBits(bs[1..])
  }

  function SextetBits(vs: seq<sextet>): seq<bool> {
    if vs == [] then [] else Bits(vs[0], 6) + SextetBits(vs[1..])
  }

  function Pow2(n: nat): (p: nat)
    ensures p > 0
  {
    if n == 0 then 1 else 2 * Pow2(n - 1)
  }

  /** A number's bits are its high part's bits and then its low part's. */
  lemma {:induction false} BitsJoin(hi: nat, lo: nat, m: nat, n: nat)
    requires lo < Pow2(n)
    ensures Bits(hi * Pow2(n) + lo, m + n) == Bits(hi, m) + Bits(lo, n)
    decreases n
  {
    if n == 0 {
      assert hi * Pow2(0) + lo == hi;
      assert Bits(hi, m) + Bits(lo, 0) == Bits(hi, m);
    } else {
      var p := Pow2(n - 1);
      var x := hi * Pow2(n) + lo;
      assert hi * Pow2(n) == 2 * (hi * p);
      assert x / 2 == hi * p + lo / 2 && x % 2 == lo % 2;
      BitsJoin(hi, lo / 2, m, n - 1);
      assert Bits(hi, m) + (Bits(lo / 2, n - 1) + [lo % 2 == 1]) ==
             (Bits(hi, m) + Bits(lo / 2, n - 1)) + [lo % 2 == 1];
    }
  }

  // ----- Encoding ----------------------------------------------------------------

  /** A chunk's bytes, zero-filled to three. */
  function Fill(c: seq<byte>, i: nat): byte { if i < |c| then c[i] else 0 }

  // The groups of six bits that straddle two bytes.

  function Second(x: byte, y: byte): sextet { x % 4 * 16 + y / 16 }

  function Third(y: byte, z: byte): sextet { y % 16 * 4 + z / 64 }

  /** Three bytes, or the zero-filled last one or two, as six-bit groups. */
  function GroupSextets(c: seq<byte>): (vs: seq<sextet>)
    requires 1 <= |c| <= 3
    ensures |vs| == |c| + 1
    ensures vs[0] == c[0] / 4 && vs[1] == Second(c[0], Fill(c, 1))
    ensures |c| > 1 ==> vs[2] == Third(c[1], Fill(c, 2))
    ensures |c| > 2 ==> vs[3] == c[2] % 64
  {
    [c[0] / 4, Second(c[0], Fill(c, 1)), Third(Fill(c, 1), Fill(c, 2)), Fill(c, 2) % 64][..|c| + 1]
  }

  function Sextets(bs: seq<byte>): seq<sextet> {
    if bs == [] then []
    else if |bs| <= 3 then GroupSextets(bs)
    else GroupSextets(bs[..3]) + Sextets(bs[3..])
  }

  function Symbols(a: Alphabet, vs: seq<sextet>): (r: seq<byte>)
    ensures |r| == |vs|
    ensures forall i :: 0 <= i < |vs| ==> r[i] == Symbol(a, vs[i])
  {
    seq(|vs|, i requires 0 <= i < |vs| => Symbol(a, vs[i]))
  }

  /** How many padding bytes close the last group. */
  function Padding(n: nat): nat { if n % 3 == 1 then 2 else if n % 3 == 2 then 1 else 0 }

  lemma PaddingStep(n: nat)
    requires n > 3
    ensures Padding(n) == Padding(n - 3)
  {
  }

  lemma PaddingShort(n: nat)
    requires n <= 3
    ensures Padding(n) == if n == 0 then 0 else 3 - n
  {
  }

  function Pads(n: nat): (r: seq<byte>)
    ensures |r| == n && forall i :: 0 <= i < n ==> r[i] == PAD
  {
    seq(n, _ => PAD)
  }

  /** The whole encoding: symbols and then, for the padded form, padding. */
  function Encoded(a: Alphabet, pad: bool, bs: seq<byte>): seq<byte> {
    Symbols(a, Sextets(bs)) + Pads(if pad then Padding(|bs|) else 0)
  }

  function GroupText(a: Alphabet, pad: bool, c: seq<byte>): seq<byte>
    requires 1 <= |c| <= 3
  {
    Symbols(a, GroupSextets(c)) + Pads(if pad then 3 - |c| else 0)
  }

  /** The encoding as the program builds it, chunk after chunk. */
  function Chunked(a: Alphabet, pad: bool, bs: seq<byte>): seq<byte> {
    if bs == [] then []
    else if |bs| <= 3 then GroupText(a, pad, bs)
    else GroupText(a, pad, bs[..3]) + Chunked(a, pad, bs[3..])
  }

  lemma SymbolsAppend(a: Alphabet, x: seq<sextet>, y: seq<sextet>)
    ensures Symbols(a, x + y) == Symbols(a, x) + Symbols(a, y)
  {
  }

  lemma {:induction false} ChunkedIsEncoded(a: Alphabet, pad: bool, bs: seq<byte>)
    ensures Chunked(a, pad, bs) == Encoded(a, pad, bs)
    decreases |bs|
  {
    hide GroupSextets, Symbols, Pads, Padding;
    if |bs| <= 3 {
      PaddingShort(|bs|);
    } else {
      ChunkedIsEncoded(a, pad, bs[3..]);
      PaddingStep(|bs|);
      var g, s := GroupSextets(bs[..3]), Sextets(bs[3..]);
      SymbolsAppend(a, g, s);
      var p := Pads(if pad then Padding(|bs|) else 0);
      assert GroupText(a, pad, bs[..3]) == Symbols(a, g);
      assert Symbols(a, g) + (Symbols(a, s) + p) == (Symbols(a, g) + Symbols(a, s)) + p;
    }
  }

  /** `(n >> (18 - 6 * i)) & 0x3f` of the 24-bit group value. */
  function Extract(n: nat, i: nat): sextet
    requires i < 4
  {
    if i == 0 then n / 0x40000 % 64
    else if i == 1 then n / 0x1000 % 64
    else if i == 2 then n / 0x40 % 64
    else n % 64
  }

  lemma Quotient(x: nat, q: nat, d: nat, r: nat)
    requires x == q * d + r && r < d
    ensures x / d == q && x % d == r
  {
    var k := x / d - q;
    assert x / d * d + x % d == x;
    assert k * d == r - x % d;
    assert k >= 1 ==> k * d >= d;
    assert k <= -1 ==> k * d + d <= 0;
  }

  lemma ExtractSextets(b0: byte, b1: byte, b2: byte)
    ensures var n := b0 as int * 0x10000 + b1 as int * 0x100 + b2 as int;
            && Extract(n, 0) == b0 / 4 && Extract(n, 1) == Second(b0, b1)
            && Extract(n, 2) == Third(b1, b2) && Extract(n, 3) == b2 % 64
  {
    var x: int, y: int, z: int := b0, b1, b2;
    var n := x * 0x10000 + y * 0x100 + z;
    Quotient(n, x / 4, 0x40000, x % 4 * 0x10000 + y * 0x100 + z);
    Quotient(n, x * 16 + y / 16, 0x1000, y % 16 * 0x100 + z);
    Quotient(x * 16 + y / 16, x / 4, 64, x % 4 * 16 + y / 16);
    Quotient(n, x * 1024 + y * 4 + z / 64, 64, z % 64);
    Quotient(x * 1024 + y * 4 + z / 64, x * 16 + y / 16, 64, y % 16 * 4 + z / 64);
  }

  /** The program's inner loop: four symbols, some of them padding. */
  method EncodeGroup(a: Alphabet, pad: bool, c: seq<byte>) returns (out: seq<byte>)
    requires 1 <= |c| <= 3
    ensures out == GroupText(a, pad, c)
  {
    var b1, b2 := Fill(c, 1), Fill(c, 2);
    var n := c[0] as int * 0x10000 + b1 as int * 0x100 + b2 as int;
    ExtractSextets(c[0], b1, b2);
    out := [];
    for i := 0 to 4
      invariant i <= |c| + 1 ==> out == Symbols(a, GroupSextets(c)[..i])
      invariant i >= |c| + 1 ==> out == Symbols(a, GroupSextets(c)) + Pads(if pad then i - (|c| + 1) else 0)
    {
      hide Extract, Symbol, Second, Third, GroupSextets;
      if i <= |c| {
        out := out + [Symbol(a, Extract(n, i))];
        assert GroupSextets(c)[..i + 1] == GroupSextets(c)[..i] + [Extract(n, i)];
        assert i == |c| ==> GroupSextets(c)[..i + 1] == GroupSextets(c);
      } else if pad {
        out := out + [PAD];
      }
    }
  }

  lemma ChunkedNil(a: Alphabet, pad: bool)
    ensures Chunked(a, pad, []) == []
  {
  }

  lemma ChunkedStep(a: Alphabet, pad: bool, bs: seq<byte>, n: nat)
    requires bs != [] && n == if |bs| < 3 then |bs| else 3
    ensures Chunked(a, pad, bs) == GroupText(a, pad, bs[..n]) + Chunked(a, pad, bs[n..])
  {
    hide GroupText;
    if |bs| <= 3 {
      assert bs[..n] == bs && bs[n..] == [];
      assert GroupText(a, pad, bs) + [] == GroupText(a, pad, bs);
    }
  }

  /** The program's loop over chunks of three. */
  method Encode(a: Alphabet, pad: bool, bs: seq<byte>) returns (out: seq<byte>)
    ensures out == Encoded(a, pad, bs)
  {
    hide GroupText, Chunked;
    out := [];
    var i := 0;
    assert bs[0..] == bs;
    while i < |bs|
      invariant i <= |bs|
      invariant out + Chunked(a, pad, bs[i..]) == Chunked(a, pad, bs)
    {
      var n := if |bs| - i < 3 then |bs| - i else 3;
      var group := EncodeGroup(a, pad, bs[i..i + n]);
      assert bs[i..][..n] == bs[i..i + n] && bs[i..][n..] == bs[i + n..];
      ChunkedStep(a, pad, bs[i..], n);
      out := out + group;
      i := i + n;
    }
    assert bs[i..] == [] && Chunked(a, pad, []) == [] && out + [] == out by { ChunkedNil(a, pad); }
    ChunkedIsEncoded(a, pad, bs);
  }

  // ----- Decoding ------------------------------------------------------------------

  /** The byte that the last of `n` groups completes, if it does: what is left
      of the group before it, and its own front. */
  function Completed(n: nat, prev: sextet, v: sextet): (bs: seq<byte>) {
    if n % 4 == 1 then []
    else if n % 4 == 2 then [prev as int * 4 + v / 16]
    else if n % 4 == 3 then [prev as int % 16 * 16 + v / 4]
    else [prev as int % 4 * 64 + v]
  }

  /** Six-bit groups back to bytes. */
  function Regroup(vs: seq<sextet>): (bs: seq<byte>)
    decreases |vs|
  {
    var n := |vs|;
    if n == 0 then [] else Regroup(vs[..n - 1]) + Completed(n, if n > 1 then vs[n - 2] else 0, vs[n - 1])
  }

  lemma SameCompletion(k: nat, m: nat, p: sextet, q: sextet, v: sextet)
    requires k % 4 == 0 && m > 0 && (m > 1 ==> p == q)
    ensures Completed(k + m, p, v) == Completed(m, q, v)
  {
    assert (k + m) % 4 == m % 4;
  }

  lemma {:induction false} RegroupAppend(a: seq<sextet>, b: seq<sextet>)
    requires |a| % 4 == 0
    ensures Regroup(a + b) == Regroup(a) + Regroup(b)
    decreases |b|
  {
    hide Completed;
    if b == [] {
      assert a + b == a;
    } else {
      var c, n, m := a + b, |a| + |b|, |b|;
      var front, v := b[..m - 1], b[m - 1];
      var p, q := if n > 1 then c[n - 2] else 0, if m > 1 then b[m - 2] else 0;
      RegroupAppend(a, front);
      SameCompletion(|a|, m, p, q, v);
      assert c[..n - 1] == a + front && c[n - 1] == v;
      assert Regroup(a) + (Regroup(front) + Completed(m, q, v)) == (Regroup(a) + Regroup(front)) + Completed(m, q, v);
    }
  }

  lemma Rejoin(x: byte, y: byte, z: byte)
    ensures Completed(2, x / 4, Second(x, y)) == [x]
    ensures Completed(3, Second(x, y), Third(y, z)) == [y]
    ensures Completed(4, Third(y, z), z % 64) == [z]
  {
  }

  lemma RegroupGroup(c: seq<byte>)
    requires 1 <= |c| <= 3
    ensures Regroup(GroupSextets(c)) == c
  {
    var vs := GroupSextets(c);
    var y, z := Fill(c, 1), Fill(c, 2);
    Rejoin(c[0], y, z);
    assert Regroup(vs[..1]) == [] by { RegroupPrefix(vs, 1); RegroupNil(); assert vs[..0] == []; }
    hide Regroup, Completed, Second, Third, GroupSextets;
    assert Regroup(vs[..2]) == [c[0]] by { RegroupPrefix(vs, 2); }
    if |c| >= 2 { assert Regroup(vs[..3]) == [c[0], y] by { RegroupPrefix(vs, 3); } }
    if |c| == 3 { assert Regroup(vs[..4]) == [c[0], y, z] by { RegroupPrefix(vs, 4); } }
    assert vs[..|c| + 1] == vs;
  }

  lemma RegroupNil()
    ensures Regroup([]) == []
  {
  }

  lemma RegroupPrefix(vs: seq<sextet>, n: nat)
    requires 1 <= n <= |vs|
    ensures Regroup(vs[..n]) == Regroup(vs[..n - 1]) + Completed(n, if n > 1 then vs[n - 2] else 0, vs[n - 1])
  {
    assert vs[..n][..n - 1] == vs[..n - 1];
  }

  /** Regrouping undoes grouping. */
  lemma {:induction false} RegroupSextets(bs: seq<byte>)
    ensures Regroup(Sextets(bs)) == bs
    decreases |bs|
  {
    if bs == [] {
    } else if |bs| <= 3 {
      RegroupGroup(bs);
    } else {
      RegroupGroup(bs[..3]);
      RegroupSextets(bs[3..]);
      RegroupAppend(GroupSextets(bs[..3]), Sextets(bs[3..]));
    }
  }

  // ----- The accumulator -------------------------------------------------------------

  /** `(acc << 6) | v` in 32 bits. */
  function Push(acc: word, v: sextet): (r: word)
    ensures r % 64 == v && r % 4096 == acc % 64 * 64 + v
  {
    PushedBits(acc, v);
    (acc * 64) % 0x1_0000_0000 + v
  }

  /** Shifting drops the top six bits and keeps the others. */
  lemma PushedBits(acc: word, v: sextet)
    ensures var r := (acc * 64) % 0x1_0000_0000 + v;
            0 <= r < 0x1_0000_0000 && r % 64 == v && r % 4096 == acc % 64 * 64 + v
  {
    var q: nat, m: nat := acc / 0x400_0000, acc % 0x400_0000;
    var a: nat := m / 64;
    assert acc == q * 0x400_0000 + m && m == a * 64 + m % 64;
    Quotient(acc * 64, q, 0x1_0000_0000, m * 64);
    Quotient(m * 64 + v, m, 64, v);
    Quotient(acc, q * 0x10_0000 + a, 64, m % 64);
    Quotient(m * 64 + v, a, 4096, m % 64 * 64 + v);
  }

  /** `(acc >> bits) as u8`. */
  function Top(acc: word, bits: nat): byte
    requires bits <= 6
  {
    acc / Pow2(bits) % 256
  }

  lemma TopOf(h: nat, x: nat, d: nat, m: nat)
    requires x < 4096 && d > 0 && m > 0 && d * m == 4096
    ensures (h * 4096 + x) / d == h * m + x / d
  {
    assert h * 4096 == (h * m) * d;
    Quotient(h * 4096 + x, h * m + x / d, d, x % d);
  }

  lemma AccSplits(acc: word, prev: sextet, v: sextet) returns (h: nat)
    requires acc % 4096 == prev as int * 64 + v
    ensures acc == h * 4096 + (prev as int * 64 + v)
  {
    h := acc / 4096;
  }

  lemma TopOfTwo(acc: word, prev: sextet, v: sextet)
    requires acc % 4096 == prev as int * 64 + v
    ensures Top(acc, 4) == prev as int * 4 + v / 16
  {
    var h := AccSplits(acc, prev, v);
    var x: nat := prev as int * 64 + v;
    TopOf(h, x, 16, 256);
    Quotient(h * 256 + x / 16, h, 256, x / 16);
    Pow2Small();
  }

  lemma TopOfThree(acc: word, prev: sextet, v: sextet)
    requires acc % 4096 == prev as int * 64 + v
    ensures Top(acc, 2) == prev as int % 16 * 16 + v / 4
  {
    var h := AccSplits(acc, prev, v);
    var x: nat := prev as int * 64 + v;
    TopOf(h, x, 4, 1024);
    Quotient(h * 1024 + x / 4, h * 4 + prev / 16, 256, prev % 16 * 16 + v / 4);
    Pow2Small();
  }

  lemma TopOfFour(acc: word, prev: sextet, v: sextet)
    requires acc % 4096 == prev as int * 64 + v
    ensures Top(acc, 0) == prev as int % 4 * 64 + v
  {
    var h := AccSplits(acc, prev, v);
    Quotient(h * 4096 + (prev as int * 64 + v), h * 16 + prev / 4, 256, prev % 4 * 64 + v);
  }

  /** Only the last two groups reach the byte that is written, so the bits that
      fall off the accumulator never matter. */
  lemma TopIsCompleted(acc: word, prev: sextet, v: sextet, n: nat)
    requires n > 0 && acc % 4096 == prev as int * 64 + v && n % 4 != 1
    ensures Completed(n, prev, v) == [Top(acc, if n % 4 == 2 then 4 else if n % 4 == 3 then 2 else 0)]
  {
    hide Top;
    TopOfTwo(acc, prev, v);
    TopOfThree(acc, prev, v);
    TopOfFour(acc, prev, v);
  }

  /** The bits held over after `n` groups. */
  function HeldBits(n: nat): nat {
    if n % 4 == 0 then 0 else if n % 4 == 1 then 6 else if n % 4 == 2 then 4 else 2
  }

  /** The decoders' variables after the groups `vs`: whole bytes written, the rest held over. */
  ghost predicate Decoding(acc: word, bits: nat, out: seq<byte>, vs: seq<sextet>) {
    bits == HeldBits(|vs|) && out == Regroup(vs) && (vs != [] ==> acc % 64 == vs[|vs| - 1])
  }

  lemma DecodingStarts()
    ensures Decoding(0, 0, [], [])
  {
  }

  lemma DecodingEnds(acc: word, bits: nat, out: seq<byte>, vs: seq<sextet>)
    requires Decoding(acc, bits, out, vs)
    ensures out == Regroup(vs)
  {
  }

  lemma RegroupMore(vs: seq<sextet>, v: sextet)
    ensures Regroup(vs + [v]) == Regroup(vs) + Completed(|vs| + 1, if vs == [] then 0 else vs[|vs| - 1], v)
  {
    hide Completed;
    var all := vs + [v];
    assert all[..|all| - 1] == vs;
  }

  /** One turn of the decoding loops: shift a group in, write a byte when one is whole. */
  method Feed(acc: word, bits: nat, out: seq<byte>, v: sextet, ghost vs: seq<sextet>)
      returns (acc': word, bits': nat, out': seq<byte>)
    requires Decoding(acc, bits, out, vs)
    ensures Decoding(acc', bits', out', vs + [v])
  {
    hide Regroup, Top;
    acc', bits', out' := Push(acc, v), bits + 6, out;
    RegroupMore(vs, v);
    if bits' >= 8 {
      bits' := bits' - 8;
      out' := out' + [Top(acc', bits')];
      TopIsCompleted(acc', vs[|vs| - 1], v, |vs| + 1);
    }
  }

  /** The symbols before the first padding byte. */
  function Body(input: seq<byte>): seq<byte> {
    if input == [] || input[0] == PAD then [] else [input[0]] + Body(input[1..])
  }

  /** The groups a run of symbols stands for, unless one is foreign. */
  function Positions(a: Alphabet, text: seq<byte>): Option<seq<sextet>> {
    if text == [] then Some([])
    else
      var v, rest := Position(a, text[0]), Positions(a, text[1..]);
      if v.None? || rest.None? then None else Some([v.value] + rest.value)
  }

  function StrictResult(a: Alphabet, input: seq<byte>): Option<seq<byte>> {
    var vs := Positions(a, Body(input));
    if vs.None? then None else Some(Regroup(vs.value))
  }

  /** The groups read so far, then those of what is left. */
  function Continue(vs: seq<sextet>, rest: Option<seq<sextet>>): Option<seq<sextet>> {
    if rest.None? then None else Some(vs + rest.value)
  }

  lemma ReadStep(a: Alphabet, input: seq<byte>, i: nat, vs: seq<sextet>)
    requires i < |input| && input[i] != PAD
    ensures var v := Position(a, input[i]);
            Continue(vs, Positions(a, Body(input[i..]))) ==
              if v.None? then None else Continue(vs + [v.value], Positions(a, Body(input[i + 1..])))
  {
    hide Position;
    assert input[i..][1..] == input[i + 1..];
    assert Body(input[i..])[1..] == Body(input[i + 1..]);
    var v, rest := Position(a, input[i]), Positions(a, Body(input[i + 1..]));
    assert v.Some? && rest.Some? ==> vs + ([v.value] + rest.value) == (vs + [v.value]) + rest.value;
  }

  lemma ReadEnd(a: Alphabet, input: seq<byte>, i: nat, vs: seq<sextet>)
    requires i <= |input| && (i == |input| || input[i] == PAD)
    ensures Continue(vs, Positions(a, Body(input[i..]))) == Some(vs)
  {
    assert vs + [] == vs;
  }

  /** `base64_standard_decode` and `base64url_decode`. */
  method StrictDecode(a: Alphabet, input: seq<byte>) returns (r: Option<seq<byte>>)
    ensures r == StrictResult(a, input)
  {
    var out: seq<byte>, acc: word, bits: nat := [], 0, 0;
    ghost var vs: seq<sextet> := [];
    hide Decoding, Regroup, Position, Positions, Body;
    DecodingStarts();
    assert input[0..] == input;
    ghost var all := Positions(a, Body(input));
    assert Continue([], all) == all by { if all.Some? { assert [] + all.value == all.value; } }
    var i := 0;
    while i < |input| && input[i] != PAD
      invariant i <= |input|
      invariant Decoding(acc, bits, out, vs)
      invariant all == Continue(vs, Positions(a, Body(input[i..])))
    {
      var v := Position(a, input[i]);
      ReadStep(a, input, i, vs);
      if v.None? {
        return None;
      }
      acc, bits, out := Feed(acc, bits, out, v.value, vs);
      vs := vs + [v.value];
      i := i + 1;
    }
    ReadEnd(a, input, i, vs);
    DecodingEnds(acc, bits, out, vs);
    return Some(out);
  }

  lemma {:induction false} PositionsOfSymbols(a: Alphabet, vs: seq<sextet>)
    ensures Positions(a, Symbols(a, vs)) == Some(vs)
    decreases |vs|
  {
    if vs != [] {
      PositionOfSymbol(a, vs[0]);
      PositionsOfSymbols(a, vs[1..]);
      assert Symbols(a, vs)[1..] == Symbols(a, vs[1..]);
      assert [vs[0]] + vs[1..] == vs;
    }
  }

  lemma {:induction false} BodyOfPadded(text: seq<byte>, n: nat)
    requires forall i :: 0 <= i < |text| ==> text[i] != PAD
    ensures Body(text + Pads(n)) == text
    decreases |text|
  {
    var all := text + Pads(n);
    if text == [] {
      assert all == Pads(n);
    } else {
      assert all[1..] == text[1..] + Pads(n);
      BodyOfPadded(text[1..], n);
    }
  }

  /** Strict decoding returns every byte string from its encoding, in both
      alphabets, padded or not. */
  lemma StrictRoundTrip(a: Alphabet, pad: bool, bs: seq<byte>)
    ensures StrictResult(a, Encoded(a, pad, bs)) == Some(bs)
  {
    BodyOfPadded(Symbols(a, Sextets(bs)), if pad then Padding(|bs|) else 0);
    PositionsOfSymbols(a, Sextets(bs));
    RegroupSextets(bs);
  }

  // ----- The lenient decoder -------------------------------------------------------

  datatype LenientError = OneTooMany(data: nat) | IncorrectPadding

  predicate Kept(b: byte) { IsAlphabet(b) || b == PAD }

  /** Everything but the alphabet and the padding is discarded. */
  function Keep(input: seq<byte>): (r: seq<byte>)
    ensures forall i :: 0 <= i < |r| ==> Kept(r[i])
  {
    if input == [] then [] else (if Kept(input[0]) then [input[0]] else []) + Keep(input[1..])
  }

  function Data(kept: seq<byte>): (r: seq<byte>)
    ensures forall i :: 0 <= i < |r| ==> r[i] in kept && r[i] != PAD
  {
    if kept == [] then [] else (if kept[0] != PAD then [kept[0]] else []) + Data(kept[1..])
  }

  function TrailingPadding(kept: seq<byte>): nat
    decreases |kept|
  {
    if kept == [] || kept[|kept| - 1] != PAD then 0 else 1 + TrailingPadding(kept[..|kept| - 1])
  }

  function AllSextets(data: seq<byte>): (vs: seq<sextet>)
    ensures |vs| == |data|
  {
    seq(|data|, i requires 0 <= i < |data| => Sextet(data[i]))
  }

  function LenientResult(input: seq<byte>): Result<seq<byte>, LenientError> {
    var kept := Keep(input);
    var data := Data(kept);
    var leftover := |data| % 4;
    if leftover == 1 then Err(OneTooMany(|data|))
    else if leftover >= 2 && TrailingPadding(kept) < 4 - leftover then Err(IncorrectPadding)
    else Ok(Regroup(AllSextets(data)))
  }

  /** `python_b64decode`. */
  method LenientDecode(input: seq<byte>) returns (r: Result<seq<byte>, LenientError>)
    ensures r == LenientResult(input)
  {
    hide Decoding, Regroup, Sextet;
    var kept := Keep(input);
    var data := Data(kept);
    var trailing := TrailingPadding(kept);
    if |data| % 4 == 1 {
      return Err(OneTooMany(|data|));
    }
    if |data| % 4 >= 2 && trailing < 4 - |data| % 4 {
      return Err(IncorrectPadding);
    }
    var out: seq<byte>, acc: word, bits: nat := [], 0, 0;
    DecodingStarts();
    ghost var vs := AllSextets(data);
    for i := 0 to |data|
      invariant Decoding(acc, bits, out, vs[..i])
    {
      acc, bits, out := Feed(acc, bits, out, Sextet(data[i]), vs[..i]);
      assert vs[..i + 1] == vs[..i] + [vs[i]];
    }
    assert vs[..|data|] == vs;
    DecodingEnds(acc, bits, out, vs);
    return Ok(out);
  }

  lemma {:induction false} KeepAppend(x: seq<byte>, y: seq<byte>)
    ensures Keep(x + y) == Keep(x) + Keep(y)
    decreases |x|
  {
    if x == [] {
      assert x + y == y;
    } else {
      assert (x + y)[1..] == x[1..] + y;
      KeepAppend(x[1..], y);
    }
  }

  lemma {:induction false} KeepNothing(noise: seq<byte>)
    requires forall i :: 0 <= i < |noise| ==> !Kept(noise[i])
    ensures Keep(noise) == []
    decreases |noise|
  {
    if noise != [] { KeepNothing(noise[1..]); }
  }

  /** Foreign characters, wherever they are put, are not seen. */
  lemma NoiseIsInvisible(x: seq<byte>, noise: seq<byte>, y: seq<byte>)
    requires forall i :: 0 <= i < |noise| ==> !Kept(noise[i])
    ensures Keep(x + noise + y) == Keep(x + y)
    ensures LenientResult(x + noise + y) == LenientResult(x + y)
  {
    KeepAppend(x + noise, y);
    KeepAppend(x, noise);
    KeepNothing(noise);
    KeepAppend(x, y);
    assert Keep(x) + [] == Keep(x);
  }

  lemma {:induction false} KeepAll(text: seq<byte>)
    requires forall i :: 0 <= i < |text| ==> Kept(text[i])
    ensures Keep(text) == text
    decreases |text|
  {
    if text != [] { KeepAll(text[1..]); }
  }

  lemma {:induction false} DataOfPadded(text: seq<byte>, n: nat)
    requires forall i :: 0 <= i < |text| ==> text[i] != PAD
    ensures Data(text + Pads(n)) == text
    decreases |text| + n
  {
    var all := text + Pads(n);
    if text != [] {
      assert all[1..] == text[1..] + Pads(n);
      DataOfPadded(text[1..], n);
    } else if n > 0 {
      assert all[1..] == [] + Pads(n - 1);
      DataOfPadded([], n - 1);
    } else {
      assert all == [];
    }
  }

  lemma {:induction false} TrailingOfPadded(text: seq<byte>, n: nat)
    requires text == [] || text[|text| - 1] != PAD
    ensures TrailingPadding(text + Pads(n)) == n
    decreases n
  {
    var all := text + Pads(n);
    if n > 0 {
      assert all[..|all| - 1] == text + Pads(n - 1);
      TrailingOfPadded(text, n - 1);
    } else {
      assert all == text;
    }
  }

  /** Three bytes more are four groups more. */
  lemma WholeGroup(bytes: nat, groups: nat)
    ensures (bytes + 3) % 3 == bytes % 3 && (4 + groups) % 4 == groups % 4
  {
  }

  lemma {:induction false} SextetsLength(bs: seq<byte>)
    ensures |Sextets(bs)| % 4 == if |bs| % 3 == 0 then 0 else |bs| % 3 + 1
    decreases |bs|
  {
    hide GroupSextets;
    if |bs| > 3 {
      SextetsLength(bs[3..]);
      WholeGroup(|bs[3..]|, |Sextets(bs[3..])|);
    }
  }

  lemma SymbolsAreKept(vs: seq<sextet>)
    ensures var text := Symbols(Standard, vs);
            forall i :: 0 <= i < |text| ==> Kept(text[i]) && text[i] != PAD && Sextet(text[i]) == vs[i]
  {
    hide Sextet, IsAlphabet, Symbol;
    var text := Symbols(Standard, vs);
    forall i | 0 <= i < |text| ensures Kept(text[i]) && text[i] != PAD && Sextet(text[i]) == vs[i] {
      StandardTable(text[i]);
      PositionOfSymbol(Standard, vs[i]);
    }
  }

  /** The symbols of some groups and any padding, as the decoder sees them. */
  lemma LenientView(vs: seq<sextet>, n: nat)
    ensures var kept := Symbols(Standard, vs) + Pads(n);
            Keep(kept) == kept && |Data(kept)| == |vs| && AllSextets(Data(kept)) == vs && TrailingPadding(kept) == n
  {
    hide Symbol, Sextet, IsAlphabet, Keep, Data, TrailingPadding;
    var text := Symbols(Standard, vs);
    SymbolsAreKept(vs);
    KeepAll(text + Pads(n));
    DataOfPadded(text, n);
    TrailingOfPadded(text, n);
    assert AllSextets(text) == vs;
  }

  /** The symbols of a byte string with `n` padding bytes are read exactly if the padding is at least
      what the encoding asks for. */
  lemma LenientNeedsPadding(bs: seq<byte>, n: nat, input: seq<byte>)
    requires Keep(input) == Symbols(Standard, Sextets(bs)) + Pads(n)
    ensures LenientResult(input) == if n >= Padding(|bs|) then Ok(bs) else Err(IncorrectPadding)
  {
    hide Sextets, Regroup, Keep, Data, TrailingPadding, AllSextets;
    LenientView(Sextets(bs), n);
    SextetsLength(bs);
    RegroupSextets(bs);
  }

  /** One symbol more than whole groups is the other error, however much padding follows. */
  lemma LenientOneTooMany(bs: seq<byte>, v: sextet, n: nat, input: seq<byte>)
    requires |bs| % 3 == 0 && Keep(input) == Symbols(Standard, Sextets(bs) + [v]) + Pads(n)
    ensures LenientResult(input) == Err(OneTooMany(|Sextets(bs)| + 1))
  {
    hide Sextets, Regroup, Keep, Data, TrailingPadding, AllSextets;
    LenientView(Sextets(bs) + [v], n);
    SextetsLength(bs);
  }

  /** The lenient decoder returns every byte string from its padded encoding
      with any foreign characters strewn through it. */
  lemma LenientRoundTrip(bs: seq<byte>, input: seq<byte>)
    requires Keep(input) == Encoded(Standard, true, bs)
    ensures LenientResult(input) == Ok(bs)
  {
    LenientNeedsPadding(bs, Padding(|bs|), input);
  }

  // ----- The encoding, as RFC 4648 puts it: bits in groups of six ---------------------

  lemma Pow2Small()
    ensures Pow2(2) == 4 && Pow2(4) == 16 && Pow2(6) == 64
  {
    assert Pow2(3) == 8 && Pow2(5) == 32;
  }

  /** A byte's bits, cut where a group boundary cuts them. */
  lemma CutByte(x: byte)
    ensures Bits(x, 8) == Bits(x / 4, 6) + Bits(x % 4, 2)
    ensures Bits(x, 8) == Bits(x / 16, 4) + Bits(x % 16, 4)
    ensures Bits(x, 8) == Bits(x / 64, 2) + Bits(x % 64, 6)
  {
    hide Bits, Pow2;
    Pow2Small();
    BitsJoin(x / 4, x % 4, 6, 2);
    BitsJoin(x / 16, x % 16, 4, 4);
    BitsJoin(x / 64, x % 64, 2, 6);
  }

  /** The two groups that straddle bytes. */
  lemma CutGroup(x: byte, y: byte)
    ensures Bits(Second(x, y), 6) == Bits(x % 4, 2) + Bits(y / 16, 4)
    ensures Bits(Third(x, y), 6) == Bits(x % 16, 4) + Bits(y / 64, 2)
  {
    hide Bits, Pow2;
    Pow2Small();
    BitsJoin(x % 4, y / 16, 2, 4);
    BitsJoin(x % 16, y / 64, 4, 2);
  }

  function Zeros(n: nat): seq<bool> { Bits(0, n) }

  lemma SextetBitsAppend(a: seq<sextet>, b: seq<sextet>)
    ensures SextetBits(a + b) == SextetBits(a) + SextetBits(b)
    decreases |a|
  {
    if a == [] {
      assert a + b == b;
    } else {
      assert (a + b)[1..] == a[1..] + b;
      SextetBitsAppend(a[1..], b);
    }
  }

  lemma ByteBitsAppend(a: seq<byte>, b: seq<byte>)
    ensures ByteBits(a + b) == ByteBits(a) + ByteBits(b)
    decreases |a|
  {
    if a == [] {
      assert a + b == b;
    } else {
      assert (a + b)[1..] == a[1..] + b;
      ByteBitsAppend(a[1..], b);
    }
  }

  // Short runs, unfolded.

  lemma SextetBits2(vs: seq<sextet>)
    requires |vs| == 2
    ensures SextetBits(vs) == Bits(vs[0], 6) + Bits(vs[1], 6)
  {
    assert SextetBits(vs[1..]) == Bits(vs[1], 6) + SextetBits(vs[1..][1..]);
  }

  lemma SextetBits3(vs: seq<sextet>)
    requires |vs| == 3
    ensures SextetBits(vs) == Bits(vs[0], 6) + (Bits(vs[1], 6) + Bits(vs[2], 6))
  {
    SextetBits2(vs[1..]);
  }

  lemma SextetBits4(vs: seq<sextet>)
    requires |vs| == 4
    ensures SextetBits(vs) == Bits(vs[0], 6) + (Bits(vs[1], 6) + (Bits(vs[2], 6) + Bits(vs[3], 6)))
  {
    SextetBits3(vs[1..]);
  }

  lemma ByteBits1(bs: seq<byte>)
    requires |bs| == 1
    ensures ByteBits(bs) == Bits(bs[0], 8)
  {
    assert ByteBits(bs) == Bits(bs[0], 8) + ByteBits(bs[1..]);
  }

  lemma ByteBits2(bs: seq<byte>)
    requires |bs| == 2
    ensures ByteBits(bs) == Bits(bs[0], 8) + Bits(bs[1], 8)
  {
    ByteBits1(bs[1..]);
  }

  lemma ByteBits3(bs: seq<byte>)
    requires |bs| == 3
    ensures ByteBits(bs) == Bits(bs[0], 8) + (Bits(bs[1], 8) + Bits(bs[2], 8))
  {
    ByteBits2(bs[1..]);
  }

  lemma Regrouped(a6: seq<bool>, a2: seq<bool>, b4: seq<bool>, b4': seq<bool>, c2: seq<bool>, c6: seq<bool>)
    ensures a6 + ((a2 + b4) + ((b4' + c2) + c6)) == (a6 + a2) + ((b4 + b4') + (c2 + c6))
  {
  }

  lemma RegroupedShort(a6: seq<bool>, a2: seq<bool>, b4: seq<bool>, b4': seq<bool>, c2: seq<bool>)
    ensures a6 + ((a2 + b4) + (b4' + c2)) == ((a6 + a2) + (b4 + b4')) + c2
  {
  }

  lemma GroupBits1(c: seq<byte>)
    requires |c| == 1
    ensures SextetBits(GroupSextets(c)) == ByteBits(c) + Zeros(4)
  {
    hide Second, Third, Bits, SextetBits, ByteBits;
    var vs, x := GroupSextets(c), c[0];
    SextetBits2(vs);
    ByteBits1(c);
    CutByte(x);
    CutGroup(x, 0);
    assert (Bits(x / 4, 6) + Bits(x % 4, 2)) + Bits(0, 4) == Bits(x / 4, 6) + (Bits(x % 4, 2) + Bits(0, 4));
  }

  lemma GroupBits2(c: seq<byte>)
    requires |c| == 2
    ensures SextetBits(GroupSextets(c)) == ByteBits(c) + Zeros(2)
  {
    hide Second, Third, Bits, SextetBits, ByteBits;
    var vs, x, y := GroupSextets(c), c[0], c[1];
    SextetBits3(vs);
    ByteBits2(c);
    CutByte(x);
    CutByte(y);
    CutGroup(x, y);
    CutGroup(y, 0);
    RegroupedShort(Bits(x / 4, 6), Bits(x % 4, 2), Bits(y / 16, 4), Bits(y % 16, 4), Bits(0, 2));
  }

  lemma GroupBits3(c: seq<byte>)
    requires |c| == 3
    ensures SextetBits(GroupSextets(c)) == ByteBits(c) + Zeros(0)
  {
    hide Second, Third, Bits, SextetBits, ByteBits;
    var vs, x, y, z := GroupSextets(c), c[0], c[1], c[2];
    SextetBits4(vs);
    ByteBits3(c);
    CutByte(x);
    CutByte(y);
    CutByte(z);
    CutGroup(x, y);
    CutGroup(y, z);
    Regrouped(Bits(x / 4, 6), Bits(x % 4, 2), Bits(y / 16, 4), Bits(y % 16, 4), Bits(z / 64, 2), Bits(z % 64, 6));
    ZerosNone();
  }

  /** One group carries the bits of its bytes, then zeros. */
  lemma GroupBits(c: seq<byte>)
    requires 1 <= |c| <= 3
    ensures SextetBits(GroupSextets(c)) == ByteBits(c) + Zeros(2 * (3 - |c|))
  {
    hide GroupSextets, SextetBits, ByteBits, Zeros;
    if |c| == 1 {
      GroupBits1(c);
    } else if |c| == 2 {
      GroupBits2(c);
    } else {
      GroupBits3(c);
    }
  }

  /** The six-bit groups are the bytes' bits, followed by fewer than six zeros. */
  lemma {:induction false} SextetsCarryBits(bs: seq<byte>)
    ensures SextetBits(Sextets(bs)) == ByteBits(bs) + Zeros(2 * Padding(|bs|))
    decreases |bs|
  {
    hide SextetBits, GroupSextets, Bits;
    if bs == [] {
      assert SextetBits([]) == [] by { SextetBitsNil(); }
      assert ByteBits(bs) + Zeros(0) == [] by { ZerosNone(); }
    } else if |bs| <= 3 {
      GroupBits(bs);
    } else {
      GroupBits(bs[..3]);
      SextetsCarryBits(bs[3..]);
      SextetBitsAppend(GroupSextets(bs[..3]), Sextets(bs[3..]));
      ByteBitsAppend(bs[..3], bs[3..]);
      ZerosNone();
      assert bs == bs[..3] + bs[3..];
      PaddingStep(|bs|);
    }
  }

  lemma SextetBitsNil()
    ensures SextetBits([]) == []
  {
  }

  lemma ZerosNone()
    ensures Zeros(0) == []
  {
  }
}
