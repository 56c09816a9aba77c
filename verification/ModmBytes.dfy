/**
 Scalars to and from little-endian bytes: expansion with reduction modulo the group order, and
 contraction.
 */
module ModmBytes {
  import opened Words
  import opened ModmBatch
  import opened Modm

  /** The number with the given little-endian bytes. */
  function LE(bs: seq<byte>): nat {
    if bs == [] then 0 else bs[0] + 256 * LE(bs[1..])
  }

  /** p[0] | p[1] << 8 | ... | p[n-1] << 8(n-1) */
  function Load(p: seq<byte>, n: nat): nat
    requires n <= |p|
  {
    if n == 0 then 0 else Or(Load(p, n - 1), p[n - 1] * Pow2(8 * (n - 1)))
  }

  lemma {:induction false} LoadMeaning(p: seq<byte>, n: nat)
    requires n <= |p|
    ensures Load(p, n) == LE(p[..n]) < Pow2(8 * n)
  {
    hide LE, Or, Pow2;
    Pow2Values();
    if n == 0 {
      LEZeros(p[..0]);
    } else {
      LoadMeaning(p, n - 1);
      assert p[..n] == p[..n - 1] + [p[n - 1]];
      LEAppend(p[..n - 1], [p[n - 1]]);
      LEOne(p[n - 1]);
      OrDisjoint(Load(p, n - 1), p[n - 1], 8 * (n - 1));
      Pow2Add(8, 8 * (n - 1));
      TopByte(p[n - 1], Load(p, n - 1), Pow2(8 * (n - 1)), Pow2(8 * n));
    }
  }

  lemma LEOne(b: byte)
    ensures LE([b]) == b
  {
    assert LE([b][1..]) == 0;
  }

  lemma TopByte(b: byte, low: nat, p: nat, q: nat)
    requires low < p && q == 256 * p
    ensures low + b as int * p < q
  {
    assert b as int * p <= 255 * p;
  }

  lemma LoadWord(p: seq<byte>)
    requires |p| == 8
    ensures Load(p, 8) == LE(p) < TWO64
  {
    hide Load, LE, Pow2;
    Pow2Values();
    LoadMeaning(p, 8);
    assert p[..8] == p;
  }

  /** A 64-bit word from eight little-endian bytes. */
  function Load64(p: seq<byte>): (w: u64)
    requires |p| == 8
    ensures w == LE(p)
  {
    LoadWord(p);
    Load(p, 8)
  }

  lemma {:induction false} LEAppend(a: seq<byte>, b: seq<byte>)
    ensures LE(a + b) == LE(a) + Pow2(8 * |a|) * LE(b)
  {
    if a == [] {
      assert a + b == b;
    } else {
      LEAppend(a[1..], b);
      assert (a + b)[1..] == a[1..] + b;
      Pow2Add(8, 8 * |a[1..]|);
      ScaleBy256(LE(a[1..]), Pow2(8 * |a[1..]|), LE(b), LE(a[1..] + b), Pow2(8 * |a|));
    }
  }

  lemma ScaleBy256(u: int, p: int, v: int, w: int, q: int)
    requires w == u + p * v && q == Pow2(8) * p
    ensures 256 * w == 256 * u + q * v
  {
    assert Pow2(8) == 256;
    assert (256 * p) * v == 256 * (p * v);
  }

  /** A word times 2^64: peel the first eight bytes. */
  lemma PeelWord(bs: seq<byte>)
    requires |bs| >= 8
    ensures LE(bs) == Load64(bs[..8]) + TWO64 * LE(bs[8..])
  {
    assert bs == bs[..8] + bs[8..];
    LEAppend(bs[..8], bs[8..]);
    Pow2Values();
  }

  lemma {:induction false} LEZeros(bs: seq<byte>)
    requires forall i :: 0 <= i < |bs| ==> bs[i] == 0
    ensures LE(bs) == 0
  {
    if bs != [] {
      LEZeros(bs[1..]);
    }
  }

  function Times(a: nat, b: nat): nat {
    a * b
  }

  /** ((lo >> s) | (hi << (64 - s))) & (2^k - 1), given as powers: a = 2^(64-s), p = 2^s, d = 2^(k-(64-s)) */
  method Funnel(lo: u64, hi: u64, ghost k: nat, ghost j: nat, a: nat, p: nat, ghost d: nat, ghost e: nat,
      mask: nat) returns (r: u64)
    requires a == Pow2(j) && a * p == TWO64 && p > 0 && d > 0 && e > 0 && p == d * e && mask == Pow2(k) - 1 &&
        Pow2(k) == a * d && Pow2(k) < TWO64
    ensures r == lo / p + a * (hi % d)
  {
    hide Or, And, Pow2;
    FunnelMeaning(lo, hi, j, k, a, p, d, e);
    r := And(Or(lo / p, Times(hi, a) % TWO64), mask);
  }

  lemma FunnelMeaning(lo: u64, hi: u64, j: nat, k: nat, a: nat, p: nat, d: nat, e: nat)
    requires a == Pow2(j) && Times(a, p) == TWO64 && p > 0 && d > 0 && e > 0 && p == Times(d, e) &&
        Pow2(k) == Times(a, d)
    ensures And(Or(lo / p, Times(hi, a) % TWO64), Pow2(k) - 1) == lo / p + Times(a, hi % d) < Pow2(k)
  {
    hide Or, And, Pow2, Times;
    var l, h := lo / p, hi % p;
    ShiftOut(hi, a, p);
    QuotientBelow(lo, a, p);
    OrShift(l, h, j, a);
    AndLow(l + Times(h, a), k);
    ModMod(hi, d, e);
    LowDigits(l, h, a, d);
  }

  lemma OrShift(l: nat, h: nat, j: nat, a: nat)
    requires l < a == Pow2(j)
    ensures Or(l, Times(h, a)) == l + Times(h, a)
  {
    OrDisjoint(l, h, j);
  }

  lemma LowDigits(l: nat, h: nat, a: nat, d: nat)
    requires l < a && d > 0 && Times(a, d) > 0
    ensures (l + Times(h, a)) % Times(a, d) == l + Times(a, h % d) < Times(a, d)
  {
    var m, q := h % d, h / d;
    assert h == d * q + m;
    TwoDigitProduct(h, a, d, q, m);
    LastDigit(a, d, m);
    DivModUnique(l + h * a, a * d, q, l + a * m);
  }

  lemma TwoDigitProduct(h: int, a: int, d: int, q: int, m: int)
    requires h == d * q + m
    ensures h * a == (a * d) * q + a * m
  {
    assert (d * q + m) * a == (d * q) * a + m * a;
    assert (d * q) * a == (a * d) * q;
  }

  lemma LastDigit(a: nat, d: nat, m: nat)
    requires m < d
    ensures 0 <= a * m <= a * d - a
  {
    MulMono(a, m, d - 1);
    assert a * (d - 1) == a * d - a;
  }

  lemma ShiftOut(x: nat, a: nat, p: nat)
    requires Times(a, p) == TWO64 && p > 0
    ensures Times(x, a) % TWO64 == Times(x % p, a)
  {
    var q, r := x / p, x % p;
    assert x == p * q + r;
    assert x * a == TWO64 * q + r * a by {
      assert (p * q + r) * a == (p * q) * a + r * a;
      assert (p * q) * a == (a * p) * q;
    }
    assert r * a < TWO64 by {
      assert r * a <= (p - 1) * a;
      assert (p - 1) * a == a * p - a;
    }
    DivModUnique(x * a, TWO64, q, r * a);
  }

  lemma QuotientBelow(x: nat, a: nat, p: nat)
    requires x < TWO64 && Times(a, p) == TWO64 && p > 0
    ensures x / p < a
  {
    var q := x / p;
    assert p * q <= x;
    MulMono(p, a, q);
  }

  lemma MulMono(p: nat, a: nat, q: nat)
    ensures a <= q ==> p * a <= p * q
  {
  }

  lemma ModMod(x: nat, d: nat, e: nat)
    requires d > 0 && e > 0 && Times(d, e) > 0
    ensures (x % Times(d, e)) % d == x % d
  {
    var q, r := x / (d * e), x % (d * e);
    var s, t := r / d, r % d;
    assert x == (d * e) * q + r && r == d * s + t;
    assert (d * e) * q == d * (e * q);
    assert x == d * (e * q + s) + t by {
      assert d * (e * q + s) == d * (e * q) + d * s;
    }
    DivModUnique(x, d, e * q + s, t);
  }

  type Words8 = w: seq<u64> | |w| == 8 witness [0, 0, 0, 0, 0, 0, 0, 0]

  const T48: int := 0x1_0000_0000_0000
  const T8: int := 0x100

  ghost function WordsValue(w: Words8): nat {
    Up(w[0], Up(w[1], Up(w[2], Up(w[3], Up(w[4], Up(w[5], Up(w[6], Up(w[7], 0))))))))
  }

  ghost function Up(w: nat, rest: nat): nat {
    w + TWO64 * rest
  }

  /** Bits 0..263 of the words, as 56-bit limbs. */
  ghost predicate IsLow(w: Words8, r: Limbs) {
    && r[0] == w[0] % TWO56
    && r[1] == w[0] / TWO56 + T8 * (w[1] % T48)
    && r[2] == w[1] / T48 + TWO16 * (w[2] % TWO40)
    && r[3] == w[2] / TWO40 + TWO24 * (w[3] % TWO32)
    && r[4] == w[3] / TWO32 + TWO32 * (w[4] % T8)
  }

  /** Bits 248..511 of the words, as 56-bit limbs. */
  ghost predicate IsHigh(w: Words8, q: Limbs) {
    && q[0] == w[3] / TWO56 + T8 * (w[4] % T48)
    && q[1] == w[4] / T48 + TWO16 * (w[5] % TWO40)
    && q[2] == w[5] / TWO40 + TWO24 * (w[6] % TWO32)
    && q[3] == w[6] / TWO32 + TWO32 * (w[7] % TWO24)
    && q[4] == w[7] / TWO24
  }

  lemma Halves(w: u64)
    ensures w == (w / TWO56) * TWO56 + w % TWO56 && w % TWO56 < TWO56 && w / TWO56 < T8
    ensures w == (w / T48) * T48 + w % T48 && w % T48 < T48 && w / T48 < TWO16
    ensures w == (w / TWO40) * TWO40 + w % TWO40 && w % TWO40 < TWO40 && w / TWO40 < TWO24
    ensures w == (w / TWO32) * TWO32 + w % TWO32 && w % TWO32 < TWO32 && w / TWO32 < TWO32
    ensures w == (w / TWO24) * TWO24 + w % TWO24 && w % TWO24 < TWO24 && w / TWO24 < TWO40
    ensures w == (w / T8) * T8 + w % T8 && w % T8 < T8
  {
  }

  lemma LowLimbs(w0: int, w1: int, w2: int, w3: int, w4: int, rest: int, a0: int, b0: int, a1: int, b1: int, a2: int,
      b2: int, a3: int, b3: int, a4: int, b4: int)
    requires w0 == b0 * TWO56 + a0 && w1 == b1 * T48 + a1 && w2 == b2 * TWO40 + a2 && w3 == b3 * TWO32 + a3 &&
        w4 == b4 * T8 + a4
    requires w0 >= 0 && w1 >= 0 && w2 >= 0 && w3 >= 0 && w4 >= 0 && rest >= 0
    ensures Up(w0, Up(w1, Up(w2, Up(w3, Up(w4, rest))))) ==
      Val5(a0, b0 + T8 * a1, b1 + TWO16 * a2, b2 + TWO24 * a3, b3 + TWO32 * a4) + (b4 + rest * TWO56) * TWO264
  {
  }

  lemma LowValue(w: Words8, r: Limbs) returns (k: int)
    requires IsLow(w, r)
    ensures Proper(r) && r[4] < TWO40 && WordsValue(w) == Value(r) + k * TWO264
  {
    hide Val5, Value, Up;
    Halves(w[0]); Halves(w[1]); Halves(w[2]); Halves(w[3]); Halves(w[4]);
    var rest := Up(w[5], Up(w[6], Up(w[7], 0)));
    k := w[4] / T8 + rest * TWO56;
    ValueOf(r);
    LowLimbs(w[0], w[1], w[2], w[3], w[4], rest, w[0] % TWO56, w[0] / TWO56, w[1] % T48, w[1] / T48, w[2] % TWO40,
        w[2] / TWO40,
             w[3] % TWO32, w[3] / TWO32, w[4] % T8, w[4] / T8);
  }

  lemma HighLimbs(low: int, w3: int, w4: int, w5: int, w6: int, w7: int, a3: int, b3: int, a4: int, b4: int, a5: int,
      b5: int, a6: int, b6: int, a7: int, b7: int)
    requires w3 == b3 * TWO56 + a3 && w4 == b4 * T48 + a4 && w5 == b5 * TWO40 + a5 && w6 == b6 * TWO32 + a6 &&
        w7 == b7 * TWO24 + a7
    requires w3 >= 0 && w4 >= 0 && w5 >= 0 && w6 >= 0 && w7 >= 0
    ensures low + TWO192 * Up(w3, Up(w4, Up(w5, Up(w6, Up(w7, 0))))) ==
      Val5(b3 + T8 * a4, b4 + TWO16 * a5, b5 + TWO24 * a6, b6 + TWO32 * a7, b7) * TWO248 + low + TWO192 * a3
  {
  }

  const TWO192: int := 0x1_0000_0000_0000_0000_0000_0000_0000_0000_0000_0000_0000_0000

  lemma Nest(w0: nat, w1: nat, w2: nat, x: nat)
    ensures Up(w0, Up(w1, Up(w2, x))) == Up(w0, Up(w1, Up(w2, 0))) + TWO192 * x
  {
  }

  lemma LowBelow(w0: u64, w1: u64, w2: u64, a: int)
    requires 0 <= a < TWO56
    ensures 0 <= Up(w0, Up(w1, Up(w2, 0))) + TWO192 * a < TWO248
  {
  }

  lemma HighValue(w: Words8, q: Limbs)
    requires IsHigh(w, q)
    ensures Proper(q) && q[4] < TWO40 && Value(q) * TWO248 <= WordsValue(w) < Value(q) * TWO248 + TWO248
  {
    hide Val5, Value, Up;
    Halves(w[3]); Halves(w[4]); Halves(w[5]); Halves(w[6]); Halves(w[7]);
    var low := Up(w[0], Up(w[1], Up(w[2], 0)));
    LowBelow(w[0], w[1], w[2], w[3] % TWO56);
    ValueOf(q);
    Nest(w[0], w[1], w[2], Up(w[3], Up(w[4], Up(w[5], Up(w[6], Up(w[7], 0))))));
    HighLimbs(low, w[3], w[4], w[5], w[6], w[7], w[3] % TWO56, w[3] / TWO56, w[4] % T48, w[4] / T48, w[5] % TWO40,
        w[5] / TWO40,
              w[6] % TWO32, w[6] / TWO32, w[7] % TWO24, w[7] / TWO24);
  }

  lemma {:induction false} SplitsWords(w: Words8, q: Limbs, r: Limbs)
    requires IsLow(w, r) && IsHigh(w, q)
    ensures Splits(WordsValue(w), q, r)
  {
    hide WordsValue, Value, IsLow, IsHigh;
    var k := LowValue(w, r);
    HighValue(w, q);
    WordsBound(w);
    Below264(r);
    DivModUnique(WordsValue(w), TWO264, k, Value(r));
  }

  lemma WordsBound(w: Words8)
    ensures WordsValue(w) < TWO512
  {
  }

  /** The eight words of up to 64 bytes, zero-padded. */
  function Padded(input: seq<byte>): (work: seq<byte>)
    requires |input| <= 64
    ensures |work| == 64
  {
    input + Zeros(64 - |input|)
  }

  function Zeros(n: nat): (z: seq<byte>)
    ensures |z| == n && forall i :: 0 <= i < n ==> z[i] == 0
  {
    seq(n, _ => 0)
  }

  function WordsOf(work: seq<byte>): Words8
    requires |work| == 64
  {
    [Load64(work[0..8]), Load64(work[8..16]), Load64(work[16..24]), Load64(work[24..32]),
     Load64(work[32..40]), Load64(work[40..48]), Load64(work[48..56]), Load64(work[56..64])]
  }

  lemma WordsOfValue(work: seq<byte>)
    requires |work| == 64
    ensures WordsValue(WordsOf(work)) == LE(work)
  {
    hide LE, Load64, Up;
    FourFrom(work, 0);
    FourFrom(work, 32);
    LEZeros([]);
    assert work[0..] == work && work[64..] == [];
  }

  lemma FourFrom(work: seq<byte>, i: nat)
    requires i + 32 <= |work|
    ensures LE(work[i..]) == Up(Load64(work[i..i + 8]), Up(Load64(work[i + 8..i + 16]),
              Up(Load64(work[i + 16..i + 24]), Up(Load64(work[i + 24..i + 32]), LE(work[i + 32..])))))
  {
    hide LE, Load64, Up;
    PeelAt(work, i);
    PeelAt(work, i + 8);
    PeelAt(work, i + 16);
    PeelAt(work, i + 24);
  }

  lemma PeelAt(work: seq<byte>, i: nat)
    requires i + 8 <= |work|
    ensures LE(work[i..]) == Up(Load64(work[i..i + 8]), LE(work[i + 8..]))
  {
    hide LE, Load64;
    PeelWord(work[i..]);
    assert work[i..][..8] == work[i..i + 8] && work[i..][8..] == work[i + 8..];
  }

  lemma PaddedValue(input: seq<byte>)
    requires |input| <= 64
    ensures LE(Padded(input)) == LE(input)
  {
    hide LE, Zeros;
    AppendZeros(input, 64 - |input|);
  }

  lemma AppendZeros(input: seq<byte>, n: nat)
    ensures LE(input + Zeros(n)) == LE(input)
  {
    hide LE, Zeros, Pow2;
    LEAppend(input, Zeros(n));
    LEZeros(Zeros(n));
  }

  lemma {:induction false} LEBound(bs: seq<byte>)
    ensures LE(bs) < Pow2(8 * |bs|)
  {
    LoadMeaning(bs, |bs|);
    assert bs[..|bs|] == bs;
  }

  method LowWords(w: Words8) returns (r: Limbs)
    ensures IsLow(w, r)
  {
    hide Pow2;
    ByteShifts();
    var r0 := Mask56(w[0]);
    var r1 := Funnel(w[0], w[1], 56, 8, T8, TWO56, T48, T8, 0xff_ffff_ffff_ffff);
    var r2 := Funnel(w[1], w[2], 56, 16, TWO16, T48, TWO40, T8, 0xff_ffff_ffff_ffff);
    var r3 := Funnel(w[2], w[3], 56, 24, TWO24, TWO40, TWO32, T8, 0xff_ffff_ffff_ffff);
    var r4 := Funnel(w[3], w[4], 40, 32, TWO32, TWO32, T8, TWO24, 0xff_ffff_ffff);
    r := [r0, r1, r2, r3, r4];
  }

  method HighWords(w: Words8) returns (q: Limbs)
    ensures IsHigh(w, q)
  {
    hide Pow2;
    ByteShifts();
    var q0 := Funnel(w[3], w[4], 56, 8, T8, TWO56, T48, T8, 0xff_ffff_ffff_ffff);
    var q1 := Funnel(w[4], w[5], 56, 16, TWO16, T48, TWO40, T8, 0xff_ffff_ffff_ffff);
    var q2 := Funnel(w[5], w[6], 56, 24, TWO24, TWO40, TWO32, T8, 0xff_ffff_ffff_ffff);
    var q3 := Funnel(w[6], w[7], 56, 32, TWO32, TWO32, TWO24, T8, 0xff_ffff_ffff_ffff);
    q := [q0, q1, q2, q3, w[7] / TWO24];
  }

  lemma ByteShifts()
    ensures Pow2(8) == 0x100 && Pow2(16) == 0x1_0000 && Pow2(24) == 0x100_0000 && Pow2(32) == 0x1_0000_0000
    ensures Pow2(40) == 0x100_0000_0000 && Pow2(48) == 0x1_0000_0000_0000 && Pow2(56) == 0x100_0000_0000_0000
  {
    Pow2Values();
    Pow2Add(8, 16);
    Pow2Add(8, 40);
  }

  /** out := the little-endian input, reduced modulo L when it has 32 bytes or more. */
  method Expand256(out: array<u64>, input: seq<byte>)
    requires out.Length == 5 && |input| <= 64
    modifies out
    ensures Proper(out[..])
    ensures |input| < 32 ==> Value(out[..]) == LE(input)
    ensures |input| >= 32 ==> Value(out[..]) == LE(input) % L
  {
    hide IsLow, IsHigh, Splits, LE, Value, WordsValue;
    var w := WordsOf(Padded(input));
    WordsOfValue(Padded(input));
    PaddedValue(input);
    var r := LowWords(w);
    out[0], out[1], out[2], out[3], out[4] := r[0], r[1], r[2], r[3], r[4];
    assert out[..] == r;
    if |input| < 32 {
      ShortInput(input, w, r);
      return;
    }
    var q := HighWords(w);
    var q1 := new u64[5](i requires 0 <= i < 5 => q[i]);
    assert q1[..] == q;
    SplitsWords(w, q, r);
    Barrett(out, q1, out, WordsValue(w));
  }

  /** The four words of 32 bytes as limbs, without reduction. */
  method ExpandRaw256(input: seq<byte>) returns (out: Limbs)
    requires |input| == 32
    ensures Proper(out) && Value(out) == LE(input)
  {
    hide IsLow, LE, Value, WordsValue, Pow2, Or, And;
    ByteShifts();
    var x := WordsOf(Padded(input));
    WordsOfValue(Padded(input));
    PaddedValue(input);
    FifthWord(input);
    var r0 := Mask56(x[0]);
    var r1 := Funnel(x[0], x[1], 56, 8, T8, TWO56, T48, T8, 0xff_ffff_ffff_ffff);
    var r2 := Funnel(x[1], x[2], 56, 16, TWO16, T48, TWO40, T8, 0xff_ffff_ffff_ffff);
    var r3 := Funnel(x[2], x[3], 56, 24, TWO24, TWO40, TWO32, T8, 0xff_ffff_ffff_ffff);
    AndLow(x[3] / TWO32, 32);
    SmallMod(x[3] / TWO32, TWO32);
    var r4 := And(x[3] / TWO32, 0xffff_ffff);
    out := [r0, r1, r2, r3, r4];
    RawIsLow(x, out);
    ShortInput(input, x, out);
  }

  lemma FifthWord(input: seq<byte>)
    requires |input| == 32
    ensures WordsOf(Padded(input))[4] == 0
  {
    LEZeros(Padded(input)[32..40]);
  }

  lemma RawIsLow(x: Words8, r: Limbs)
    requires x[4] == 0 && r[0] == x[0] % TWO56
    requires r[1] == x[0] / TWO56 + T8 * (x[1] % T48)
    requires r[2] == x[1] / T48 + TWO16 * (x[2] % TWO40)
    requires r[3] == x[2] / TWO40 + TWO24 * (x[3] % TWO32)
    requires r[4] == x[3] / TWO32
    ensures IsLow(x, r)
  {
  }

  lemma ShortInput(input: seq<byte>, w: Words8, r: Limbs)
    requires |input| <= 32 && IsLow(w, r) && WordsValue(w) == LE(input)
    ensures Proper(r) && Value(r) == LE(input)
  {
    hide Value, LE, Pow2, WordsValue, IsLow;
    LEBound(input);
    Pow2Mono(8 * |input|, 256);
    Pow2Values();
    Pow2Add(128, 128);
    var k := LowValue(w, r);
    Below264(r);
    SmallMultiple(LE(input), Value(r), k);
  }

  lemma SmallMultiple(x: int, r: nat, k: int)
    requires 0 <= x < TWO256 && r < TWO264 && x == r + k * TWO264
    ensures x == r
  {
  }

  lemma {:induction false} Pow2Mono(j: nat, k: nat)
    requires j <= k
    ensures Pow2(j) <= Pow2(k)
  {
    if j < k {
      Pow2Mono(j, k - 1);
    }
  }

  // ---- contraction ----

  /** The n low bytes of v, least significant first. */
  function Store(v: nat, n: nat): (p: seq<byte>)
    ensures |p| == n
  {
    seq(n, i requires 0 <= i < n => (v / Pow2(8 * i)) % 256)
  }

  lemma {:induction false} StoreMeaning(v: nat, n: nat)
    ensures LE(Store(v, n)) == v % Pow2(8 * n)
  {
    hide LE, Pow2;
    Pow2Zero();
    if n == 0 {
      LEZeros(Store(v, 0));
    } else {
      var p := Store(v, n);
      StoreMeaning(v, n - 1);
      assert p == Store(v, n - 1) + [p[n - 1]];
      LEAppend(Store(v, n - 1), [p[n - 1]]);
      LEOne(p[n - 1]);
      Pow2Add(8 * (n - 1), 8);
      NextByte(v, Pow2(8 * (n - 1)), Pow2(8 * n));
    }
  }

  lemma NextByte(v: nat, p: nat, q: nat)
    requires p > 0 && q == p * Pow2(8)
    ensures q > 0 && v % p + p * ((v / p) % 256) == v % q
  {
    hide Pow2;
    Pow2Values();
    LowDigits(v % p, v / p, p, 256);
    assert v == v % p + Times(v / p, p);
  }

  lemma Store64(v: u64)
    ensures LE(Store(v, 8)) == v
  {
    hide Store, LE, Pow2;
    Pow2Values();
    StoreMeaning(v, 8);
    SmallMod(v, TWO64);
  }

  /** (lo >> s) | (hi << t) for lo below 2^(s+t), given as powers: p = 2^s, a = 2^t, c = 2^(64-t) */
  method Glue(lo: u64, hi: u64, ghost j: nat, a: nat, p: nat, ghost c: nat) returns (r: u64)
    requires p > 0 && lo / p < a == Pow2(j) && a * c == TWO64 && c > 0
    ensures r == lo / p + a * (hi % c)
  {
    hide Or, Pow2;
    ShiftOut(hi, a, c);
    OrShift(lo / p, hi % c, j, a);
    GlueBound(lo / p, hi % c, a, c);
    r := Or(lo / p, Times(hi, a) % TWO64);
  }

  lemma GlueBound(l: nat, h: nat, a: nat, c: nat)
    requires l < a && h < c && a * c == TWO64
    ensures l + h * a < TWO64
  {
    assert h * a <= (c - 1) * a;
    assert (c - 1) * a == a * c - a;
  }

  lemma ContractWords(s0: int, s1: int, s2: int, s3: int, s4: int, a1: int, b1: int, a2: int, b2: int, a3: int, b3: int)
    requires s1 == b1 * T8 + a1 && s2 == b2 * TWO16 + a2 && s3 == b3 * TWO24 + a3
    ensures (s0 + TWO56 * a1) + TWO64 * ((b1 + T48 * a2) + TWO64 * ((b2 + TWO40 * a3) + TWO64 * (b3 + TWO32 * s4))) ==
        Val5(s0, s1, s2, s3, s4)
  {
  }

  /** out := the 32 little-endian bytes of s. */
  method Contract256(out: array<byte>, s: Limbs)
    requires out.Length == 32 && Proper(s) && s[4] < TWO32
    modifies out
    ensures LE(out[..]) == Value(s)
  {
    hide LE, Value, Val5, Store, Pow2;
    ByteShifts();
    Pow2Zero();
    var w0 := Glue(s[0], s[1], 56, TWO56, 1, T8);
    var w1 := Glue(s[1], s[2], 48, T48, T8, TWO16);
    var w2 := Glue(s[2], s[3], 40, TWO40, TWO16, TWO24);
    var w3 := Glue(s[3], s[4], 32, TWO32, TWO24, TWO32);
    var bytes := Store(w0, 8) + Store(w1, 8) + Store(w2, 8) + Store(w3, 8);
    forall i | 0 <= i < 32 {
      out[i] := bytes[i];
    }
    assert out[..] == bytes;
    FourWords(w0, w1, w2, w3);
    ContractValue(s, w0, w1, w2, w3);
  }

  lemma Pow2Zero()
    ensures Pow2(0) == 1
  {
  }

  lemma FourWords(w0: u64, w1: u64, w2: u64, w3: u64)
    ensures LE(Store(w0, 8) + Store(w1, 8) + Store(w2, 8) + Store(w3, 8)) == Up(w0, Up(w1, Up(w2, w3)))
  {
    hide LE, Store, Pow2;
    Store64(w0); Store64(w1); Store64(w2); Store64(w3);
    Pow2Values();
    var b2 := Store(w2, 8) + Store(w3, 8);
    var b1 := Store(w1, 8) + b2;
    LEAppend(Store(w2, 8), Store(w3, 8));
    LEAppend(Store(w1, 8), b2);
    LEAppend(Store(w0, 8), b1);
    assert Store(w0, 8) + Store(w1, 8) + Store(w2, 8) + Store(w3, 8) == Store(w0, 8) + b1;
  }

  lemma ContractValue(s: Limbs, w0: u64, w1: u64, w2: u64, w3: u64)
    requires Proper(s) && s[4] < TWO32
    requires w0 == s[0] / 1 + TWO56 * (s[1] % T8) && w1 == s[1] / T8 + T48 * (s[2] % TWO16)
    requires w2 == s[2] / TWO16 + TWO40 * (s[3] % TWO24) && w3 == s[3] / TWO24 + TWO32 * (s[4] % TWO32)
    ensures Up(w0, Up(w1, Up(w2, w3))) == Value(s)
  {
    hide Value, Val5;
    Cuts(s[1], s[2], s[3]);
    SmallMod(s[4], TWO32);
    ContractWords(s[0], s[1], s[2], s[3], s[4], s[1] % T8, s[1] / T8, s[2] % TWO16, s[2] / TWO16, s[3] % TWO24,
        s[3] / TWO24);
    ValueOf(s);
  }

  lemma Cuts(s1: int, s2: int, s3: int)
    ensures s1 == (s1 / T8) * T8 + s1 % T8 && s2 == (s2 / TWO16) * TWO16 + s2 % TWO16 &&
        s3 == (s3 / TWO24) * TWO24 + s3 % TWO24
  {
  }

  /** Limbs below 2^56 are determined by their value. */
  lemma LimbsUnique(a: Limbs, b: Limbs)
    requires Proper(a) && Proper(b) && Value(a) == Value(b)
    ensures a == b
  {
    assert a[4] == b[4];
    assert a[3] == b[3];
    assert a[2] == b[2];
    assert a[1] == b[1];
    assert a[0] == b[0];
  }

  /** Expanding the contraction of a reduced scalar gives its limbs back. */
  lemma ContractThenExpand(s: Limbs, bytes: seq<byte>, r: Limbs)
    requires Proper(s) && Value(s) < L && LE(bytes) == Value(s)
    requires Proper(r) && Value(r) == LE(bytes) % L
    ensures r == s
  {
    hide Value, LE;
    SmallMod(Value(s), L);
    LimbsUnique(r, s);
  }
}
