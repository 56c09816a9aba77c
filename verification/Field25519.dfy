/**
 Arithmetic modulo p = 2^255 - 19 on five unsaturated 51-bit limbs.
 */
module Field25519 {
  import opened Words

  type Fe = s: seq<u64> | |s| == 5 witness [0, 0, 0, 0, 0]

  // 2^(51 i)
  const B1: int := 0x8_0000_0000_0000
  const B2: int := 0x40_0000_0000_0000_0000_0000_0000
  const B3: int := 0x200_0000_0000_0000_0000_0000_0000_0000_0000_0000
  const B4: int := 0x1000_0000_0000_0000_0000_0000_0000_0000_0000_0000_0000_0000_0000
  const TWO255: int := 0x8000_0000_0000_0000_0000_0000_0000_0000_0000_0000_0000_0000_0000_0000_0000_0000
  const P: int := 0x7fff_ffff_ffff_ffff_ffff_ffff_ffff_ffff_ffff_ffff_ffff_ffff_ffff_ffff_ffff_ffed
  const TWO54: int := 0x40_0000_0000_0000
  const TWO108: int := 0x1000_0000_0000_0000_0000_0000_0000
  const TWO115: int := 0x8_0000_0000_0000_0000_0000_0000_0000

  /** A little over 2^51: what multiplications and reductions leave in a limb. */
  const TIGHT: int := 0x8_0000_0001_0000

  function Val51(a0: int, a1: int, a2: int, a3: int, a4: int): int {
    a0 + a1 * B1 + a2 * B2 + a3 * B3 + a4 * B4
  }

  function Val(a: Fe): nat {
    a[0] as int + a[1] as int * B1 + a[2] as int * B2 + a[3] as int * B3 + a[4] as int * B4
  }

  lemma ValIs(a: Fe)
    ensures Val(a) == Val51(a[0], a[1], a[2], a[3], a[4])
  {
  }

  predicate Below(a: Fe, k: int) {
    a[0] < k && a[1] < k && a[2] < k && a[3] < k && a[4] < k
  }

  /** The field element that a limb vector stands for. */
  function F(a: Fe): nat {
    Val(a) % P
  }

  // ---- the prime field on residues ----

  function Plus(x: int, y: int): int {
    (x + y) % P
  }

  function Minus(x: int, y: int): int {
    (x - y) % P
  }

  /** The y-fold sum of x. */
  ghost function Times(x: int, y: int): int
    decreases if y < 0 then -y else y
  {
    if y == 0 then 0 else if y > 0 then Plus(Times(x, y - 1), x) else Minus(Times(x, y + 1), x)
  }

  lemma {:induction false} TimesIs(x: int, y: int)
    ensures Times(x, y) == (x * y) % P
    decreases if y < 0 then -y else y
  {
    if y == 0 {
      assert x * y == 0;
    } else if y > 0 {
      TimesIs(x, y - 1);
      PlusReduce(x * (y - 1), x);
      assert x * (y - 1) + x == x * y;
    } else {
      TimesIs(x, y + 1);
      MinusReduce(x * (y + 1), x);
      assert x * (y + 1) - x == x * y;
    }
  }

  /** A term may be reduced first. */
  lemma PlusReduce(a: int, b: int)
    ensures Plus(a % P, b) == (a + b) % P
  {
    Quot(a);
    ModIs(a + b, a / P, a % P + b);
  }

  lemma MinusReduce(a: int, b: int)
    ensures Minus(a % P, b) == (a - b) % P
  {
    Quot(a);
    ModIs(a - b, a / P, a % P - b);
  }

  lemma ModIs(x: int, q: int, y: int)
    requires x == y + q * P
    ensures x % P == y % P
  {
    var r, k := y % P, y / P;
    assert y == k * P + r;
    assert q * P + k * P == (q + k) * P;
    DivModUnique(x, P, q + k, r);
  }

  lemma Quot(x: int)
    ensures x == (x / P) * P + x % P && 0 <= x % P < P
  {
  }

  lemma PlusMod(x: int, y: int)
    ensures Plus(x % P, y % P) == (x + y) % P
  {
    Quot(x);
    Quot(y);
    assert (x / P) * P + (y / P) * P == (x / P + y / P) * P;
    ModIs(x + y, x / P + y / P, x % P + y % P);
  }

  lemma MinusMod(x: int, y: int)
    ensures Minus(x % P, y % P) == (x - y) % P
  {
    Quot(x);
    Quot(y);
    assert (x / P) * P - (y / P) * P == (x / P - y / P) * P;
    ModIs(x - y, x / P - y / P, x % P - y % P);
  }

  lemma TimesMod(x: int, y: int)
    ensures Times(x % P, y % P) == (x * y) % P
  {
    hide Times;
    TimesIs(x % P, y % P);
    Quot(x);
    Quot(y);
    var a, b, c, d := x / P, x % P, y / P, y % P;
    ExpandProduct(a, b, c, d);
    ModIs(x * y, a * c * P + a * d + b * c, b * d);
  }

  lemma ExpandProduct(a: int, b: int, c: int, d: int)
    ensures (a * P + b) * (c * P + d) == b * d + (a * c * P + a * d + b * c) * P
  {
    assert (a * P + b) * (c * P + d) == (a * P) * (c * P) + (a * P) * d + b * (c * P) + b * d;
    assert (a * P) * (c * P) == (a * c * P) * P;
    assert (a * P) * d == (a * d) * P;
    assert b * (c * P) == (b * c) * P;
    assert (a * c * P + a * d + b * c) * P == (a * c * P) * P + (a * d) * P + (b * c) * P;
  }

  // ---- products of limb vectors ----

  lemma TwentyFive51(p00: int, p01: int, p02: int, p03: int, p04: int, p10: int, p11: int, p12: int, p13: int,
      p14: int, p20: int, p21: int, p22: int, p23: int, p24: int, p30: int, p31: int, p32: int, p33: int, p34: int,
      p40: int, p41: int, p42: int, p43: int, p44: int)
    ensures Val51(Val51(p00, p01, p02, p03, p04), Val51(p10, p11, p12, p13, p14), Val51(p20, p21, p22, p23, p24),
        Val51(p30, p31, p32, p33, p34), Val51(p40, p41, p42, p43, p44)) ==
      Val51(p00 + 19 * (p14 + p23 + p32 + p41), p01 + p10 + 19 * (p24 + p33 + p42), p02 + p11 + p20 + 19 * (p34 + p43),
          p03 + p12 + p21 + p30 + 19 * (p44), p04 + p13 + p22 + p31 + p40)
      + Val51(p14 + p23 + p32 + p41, p24 + p33 + p42, p34 + p43, p44, 0) * P
  {
  }

  lemma Scale51(a: int, y0: int, y1: int, y2: int, y3: int, y4: int)
    ensures a * Val51(y0, y1, y2, y3, y4) == Val51(a * y0, a * y1, a * y2, a * y3, a * y4)
  {
    Distribute(a, y0, y1 * B1, y2 * B2, y3 * B3, y4 * B4);
    Associate(a, y1, B1);
    Associate(a, y2, B2);
    Associate(a, y3, B3);
    Associate(a, y4, B4);
  }

  /** The five column sums of r * s, columns 5 and up folded back with a factor 19. */
  function T0(r: Fe, s: Fe): nat { Mul64(r[0], s[0]) +
      19 * (Mul64(r[4], s[1]) + Mul64(r[1], s[4]) + Mul64(r[2], s[3]) + Mul64(r[3], s[2])) }
  function T1(r: Fe, s: Fe): nat { Mul64(r[0], s[1]) + Mul64(r[1], s[0]) +
      19 * (Mul64(r[4], s[2]) + Mul64(r[2], s[4]) + Mul64(r[3], s[3])) }
  function T2(r: Fe, s: Fe): nat { Mul64(r[0], s[2]) + Mul64(r[2], s[0]) + Mul64(r[1], s[1]) +
      19 * (Mul64(r[4], s[3]) + Mul64(r[3], s[4])) }
  function T3(r: Fe, s: Fe): nat { Mul64(r[0], s[3]) + Mul64(r[3], s[0]) + Mul64(r[1], s[2]) + Mul64(r[2], s[1]) +
      19 * Mul64(r[4], s[4]) }
  function T4(r: Fe, s: Fe): nat { Mul64(r[0], s[4]) + Mul64(r[4], s[0]) + Mul64(r[3], s[1]) + Mul64(r[1], s[3]) +
      Mul64(r[2], s[2]) }

  lemma ProductColumns(r: Fe, s: Fe) returns (k: int)
    ensures Val(r) * Val(s) == Val51(T0(r, s), T1(r, s), T2(r, s), T3(r, s), T4(r, s)) + k * P
  {
    hide Val51, Val;
    ValIs(r);
    ValIs(s);
    Scale51(Val(s), r[0], r[1], r[2], r[3], r[4]);
    Scale51(r[0], s[0], s[1], s[2], s[3], s[4]);
    Scale51(r[1], s[0], s[1], s[2], s[3], s[4]);
    Scale51(r[2], s[0], s[1], s[2], s[3], s[4]);
    Scale51(r[3], s[0], s[1], s[2], s[3], s[4]);
    Scale51(r[4], s[0], s[1], s[2], s[3], s[4]);
    TwentyFive51(Mul64(r[0], s[0]), Mul64(r[0], s[1]), Mul64(r[0], s[2]), Mul64(r[0], s[3]), Mul64(r[0], s[4]),
        Mul64(r[1], s[0]), Mul64(r[1], s[1]), Mul64(r[1], s[2]), Mul64(r[1], s[3]), Mul64(r[1], s[4]),
        Mul64(r[2], s[0]), Mul64(r[2], s[1]), Mul64(r[2], s[2]), Mul64(r[2], s[3]), Mul64(r[2], s[4]),
        Mul64(r[3], s[0]), Mul64(r[3], s[1]), Mul64(r[3], s[2]), Mul64(r[3], s[3]), Mul64(r[3], s[4]),
        Mul64(r[4], s[0]), Mul64(r[4], s[1]), Mul64(r[4], s[2]), Mul64(r[4], s[3]), Mul64(r[4], s[4]));
    k := Val51(Mul64(r[1], s[4]) + Mul64(r[2], s[3]) + Mul64(r[3], s[2]) + Mul64(r[4], s[1]),
        Mul64(r[2], s[4]) + Mul64(r[3], s[3]) + Mul64(r[4], s[2]), Mul64(r[3], s[4]) + Mul64(r[4], s[3]),
        Mul64(r[4], s[4]), 0);
  }

  // ---- carrying ----

  function Lo(t: nat): nat {
    t % B1
  }

  function Hi(t: nat): nat {
    t / B1
  }

  lemma LoHi(t: nat)
    ensures Lo(t) < B1 && t == Hi(t) * B1 + Lo(t)
    ensures t < TWO115 ==> Hi(t) < TWO64
    ensures t < 6 * TWO108 ==> Hi(t) < 0xc00_0000_0000_0000
    ensures t < TWO64 ==> Hi(t) < 0x2000
  {
  }

  /** out is what one pass of carries, the top carry folded in with a factor 19, leaves of the columns t. */
  ghost predicate Carried(t0: nat, t1: nat, t2: nat, t3: nat, t4: nat, out: Fe) {
    var u1 := t1 + Hi(t0);
    var u2 := t2 + Hi(u1);
    var u3 := t3 + Hi(u2);
    var u4 := t4 + Hi(u3);
    var e := Lo(t0) + 19 * Hi(u4);
    out[0] == Lo(e) && out[1] == Lo(u1) + Hi(e) && out[2] == Lo(u2) && out[3] == Lo(u3) && out[4] == Lo(u4)
  }

  lemma FoldTop(t0: int, t1: int, t2: int, t3: int, t4: int, h0: int, h1: int, h2: int, h3: int, c: int, e: int,
                l0: int, l1: int, l2: int, l3: int, l4: int, o0: int)
    requires t0 == h0 * B1 + l0 && t1 + h0 == h1 * B1 + l1 && t2 + h1 == h2 * B1 + l2 && t3 + h2 == h3 * B1 + l3
    requires t4 + h3 == c * B1 + l4 && l0 + 19 * c == e * B1 + o0
    ensures Val51(t0, t1, t2, t3, t4) == Val51(o0, l1 + e, l2, l3, l4) + c * P
  {
  }

  lemma CarriedValue(t0: nat, t1: nat, t2: nat, t3: nat, t4: nat, out: Fe) returns (k: int)
    requires Carried(t0, t1, t2, t3, t4, out) && t4 + TWO64 < 6 * TWO108 && t3 + TWO64 < TWO115 &&
        t2 + TWO64 < TWO115 && t1 + TWO64 < TWO115 && t0 < TWO115
    ensures Val51(t0, t1, t2, t3, t4) == Val(out) + k * P && Below(out, TIGHT)
  {
    hide Lo, Hi, Val51, Val;
    var u1 := t1 + Hi(t0);
    var u2 := t2 + Hi(u1);
    var u3 := t3 + Hi(u2);
    var u4 := t4 + Hi(u3);
    var e := Lo(t0) + 19 * Hi(u4);
    LoHi(t0); LoHi(u1); LoHi(u2); LoHi(u3); LoHi(u4); LoHi(e);
    k := Hi(u4);
    FoldTop(t0, t1, t2, t3, t4, Hi(t0), Hi(u1), Hi(u2), Hi(u3), Hi(u4), Hi(e), Lo(t0), Lo(u1), Lo(u2), Lo(u3), Lo(u4),
        Lo(e));
    ValIs(out);
  }

  /** lo128(t) & reduce_mask_51 and shr128(c, t, 51) */
  method Split51(t: u128) returns (lo: u64, c: u64)
    requires t < TWO115
    ensures lo == Lo(t) < B1 && c == Hi(t)
  {
    hide Pow2;
    Pow2Values();
    lo := LowBits(t % TWO64, 51, 0x7_ffff_ffff_ffff);
    LowTwice(t);
    c := t / B1;
  }

  lemma LowTwice(t: nat)
    ensures (t % TWO64) % B1 == t % B1
  {
    var a, b := t % B1, t / B1;
    assert t == b * B1 + a;
    var c, d := b % 0x2000, b / 0x2000;
    DivModUnique(t, TWO64, d, c * B1 + a);
    DivModUnique(c * B1 + a, B1, c, a);
  }

  /** The carry pass of curve25519_mul and curve25519_square. */
  method CarryPass(t0: u128, t1: u128, t2: u128, t3: u128, t4: u128) returns (out: Fe)
    requires t4 + TWO64 < 6 * TWO108 && t3 + TWO64 < TWO115 && t2 + TWO64 < TWO115 && t1 + TWO64 < TWO115 && t0 < TWO115
    ensures Carried(t0, t1, t2, t3, t4, out)
  {
    hide Lo, Hi;
    LoHi(t0);
    var r0, c := Split51(t0);
    var r1, r2, r3, r4;
    var u: u128 := t1 + c;
    LoHi(u);
    r1, c := Split51(u);
    u := t2 + c;
    LoHi(u);
    r2, c := Split51(u);
    u := t3 + c;
    LoHi(u);
    r3, c := Split51(u);
    u := t4 + c;
    LoHi(u);
    r4, c := Split51(u);
    r0 := r0 + c * 19;
    LoHi(r0);
    r0, c := Split51(r0);
    r1 := r1 + c;
    out := [r0, r1, r2, r3, r4];
  }

  // ---- multiplication ----

  lemma Nineteen(a: u64, b: u64)
    requires a < TWO54
    ensures Mul64(a * 19, b) == 19 * Mul64(a, b)
  {
  }

  lemma ProductBounds(r: Fe, s: Fe)
    requires Below(r, TWO54) && Below(s, TWO54)
    ensures T0(r, s) <= 77 * TWO108 && T1(r, s) <= 77 * TWO108 && T2(r, s) <= 77 * TWO108 && T3(r, s) <= 23 * TWO108 &&
        T4(r, s) <= 5 * TWO108
  {
    hide Mul64;
    forall i, j | 0 <= i < 5 && 0 <= j < 5
      ensures Mul64(r[i], s[j]) <= TWO108
    {
      Mul64Bound(r[i], s[j], 0x40_0000_0000_0000, 0x40_0000_0000_0000);
    }
  }

  /** out = in2 * in */
  method Mul(in2: Fe, in1: Fe) returns (out: Fe)
    requires Below(in2, TWO54) && Below(in1, TWO54)
    ensures Below(out, TIGHT) && F(out) == Times(F(in2), F(in1))
  {
    hide Mul64, Carried, F, Times, Val, Val51;
    ProductBounds(in1, in2);
    var r0: u64, r1: u64, r2: u64, r3: u64, r4: u64 := in1[0], in1[1], in1[2], in1[3], in1[4];
    var s0, s1, s2, s3, s4 := in2[0], in2[1], in2[2], in2[3], in2[4];
    var t0: nat := Mul64(r0, s0);
    var t1: nat := Mul64(r0, s1) + Mul64(r1, s0);
    var t2: nat := Mul64(r0, s2) + Mul64(r2, s0) + Mul64(r1, s1);
    var t3: nat := Mul64(r0, s3) + Mul64(r3, s0) + Mul64(r1, s2) + Mul64(r2, s1);
    var t4: nat := Mul64(r0, s4) + Mul64(r4, s0) + Mul64(r3, s1) + Mul64(r1, s3) + Mul64(r2, s2);
    Nineteen(r4, s1); Nineteen(r1, s4); Nineteen(r2, s3); Nineteen(r3, s2);
    Nineteen(r4, s2); Nineteen(r2, s4); Nineteen(r3, s3); Nineteen(r4, s3); Nineteen(r3, s4); Nineteen(r4, s4);
    r1, r2, r3, r4 := r1 * 19, r2 * 19, r3 * 19, r4 * 19;
    t0 := t0 + Mul64(r4, s1) + Mul64(r1, s4) + Mul64(r2, s3) + Mul64(r3, s2);
    t1 := t1 + Mul64(r4, s2) + Mul64(r2, s4) + Mul64(r3, s3);
    t2 := t2 + Mul64(r4, s3) + Mul64(r3, s4);
    t3 := t3 + Mul64(r4, s4);
    out := CarryPass(t0, t1, t2, t3, t4);
    ghost var k := MulValue(in1, in2, t0, t1, t2, t3, t4, out);
    ProductElement(in2, in1, out, k);
  }

  lemma MulValue(r: Fe, s: Fe, t0: nat, t1: nat, t2: nat, t3: nat, t4: nat, out: Fe) returns (k: int)
    requires Below(r, TWO54) && Below(s, TWO54)
    requires t0 == T0(r, s) && t1 == T1(r, s) && t2 == T2(r, s) && t3 == T3(r, s) && t4 == T4(r, s) &&
        Carried(t0, t1, t2, t3, t4, out)
    ensures Below(out, TIGHT) && Val(s) * Val(r) == Val(out) + k * P
  {
    hide T0, T1, T2, T3, T4, Carried, Val, Val51;
    ProductBounds(r, s);
    var j := CarriedValue(t0, t1, t2, t3, t4, out);
    var l := ProductColumns(r, s);
    assert Val(r) * Val(s) == Val(s) * Val(r);
    k := j + l;
    assert j * P + l * P == (j + l) * P;
  }

  lemma ProductElement(s: Fe, r: Fe, out: Fe, k: int)
    requires Val(s) * Val(r) == Val(out) + k * P
    ensures F(out) == Times(F(s), F(r))
  {
    hide Val, Times;
    TimesMod(Val(s), Val(r));
    ModIs(Val(s) * Val(r), k, Val(out));
  }

  // ---- squaring ----

  lemma Factor(a: u64, b: u64, k: nat, ak: u64)
    requires ak == (a as int) * k
    ensures Mul64(ak, b) == k * Mul64(a, b) && Mul64(b, ak) == k * Mul64(a, b) && Mul64(a, b) == Mul64(b, a)
  {
    FactorOut(a, b, k);
  }

  lemma FactorOut(a: int, b: int, k: int)
    ensures (a * k) * b == k * (a * b) && b * (a * k) == k * (a * b)
  {
  }

  /** The columns of a square, each off-diagonal product taken once and doubled. */
  method SquareColumns(r0: u64, r1: u64, r2: u64, r3: u64, r4: u64) returns (t0: nat, t1: nat, t2: nat, t3: nat,
      t4: nat)
    requires r0 < TWO54 && r1 < TWO54 && r2 < TWO54 && r3 < TWO54 && r4 < TWO54
    ensures var r: Fe := [r0, r1, r2, r3, r4];
      t0 == T0(r, r) && t1 == T1(r, r) && t2 == T2(r, r) && t3 == T3(r, r) && t4 == T4(r, r)
  {
    hide Mul64;
    var d0: u64, d1: u64, d2: u64, d419: u64 := r0 * 2, r1 * 2, r2 * 38, r4 * 19;
    var d4: u64 := r4 * 38;
    t0 := Mul64(r0, r0) + Mul64(d4, r1) + Mul64(d2, r3);
    t1 := Mul64(d0, r1) + Mul64(d4, r2) + Mul64(r3, r3 * 19);
    t2 := Mul64(d0, r2) + Mul64(r1, r1) + Mul64(d4, r3);
    t3 := Mul64(d0, r3) + Mul64(d1, r2) + Mul64(r4, d419);
    t4 := Mul64(d0, r4) + Mul64(d1, r3) + Mul64(r2, r2);
    Factor(r4, r1, 38, d4); Factor(r2, r3, 38, d2); Factor(r0, r1, 2, d0); Factor(r4, r2, 38, d4);
    Factor(r3, r3, 19, r3 * 19);
    Factor(r0, r2, 2, d0); Factor(r4, r3, 38, d4); Factor(r0, r3, 2, d0); Factor(r1, r2, 2, d1);
    Factor(r4, r4, 19, d419);
    Factor(r0, r4, 2, d0); Factor(r1, r3, 2, d1);
  }

  /** out = in^2 */
  method Square(in1: Fe) returns (out: Fe)
    requires Below(in1, TWO54)
    ensures Below(out, TIGHT) && F(out) == Times(F(in1), F(in1))
  {
    hide Carried, F, Val, Times, T0, T1, T2, T3, T4;
    ProductBounds(in1, in1);
    assert in1 == [in1[0], in1[1], in1[2], in1[3], in1[4]];
    var t0, t1, t2, t3, t4 := SquareColumns(in1[0], in1[1], in1[2], in1[3], in1[4]);
    out := CarryPass(t0, t1, t2, t3, t4);
    ghost var k := MulValue(in1, in1, t0, t1, t2, t3, t4, out);
    ProductElement(in1, in1, out, k);
  }

  /** One carry pass over words, the top carry folded in with a factor 19. */
  ghost predicate Folded(a0: nat, a1: nat, a2: nat, a3: nat, a4: nat, out: Fe) {
    var b1 := a1 + Hi(a0);
    var b2 := a2 + Hi(b1);
    var b3 := a3 + Hi(b2);
    var b4 := a4 + Hi(b3);
    out[0] == Lo(a0) + 19 * Hi(b4) && out[1] == Lo(b1) && out[2] == Lo(b2) && out[3] == Lo(b3) && out[4] == Lo(b4)
  }

  /** Carrying of curve25519_square_times: all high parts move up at once, then one carry pass. */
  ghost predicate CarriedTwice(t0: nat, t1: nat, t2: nat, t3: nat, t4: nat, out: Fe) {
    Folded(Lo(t0) + 19 * Hi(t4), Lo(t1) + Hi(t0), Lo(t2) + Hi(t1), Lo(t3) + Hi(t2), Lo(t4) + Hi(t3), out)
  }

  lemma MoveUp(t0: int, t1: int, t2: int, t3: int, t4: int, h0: int, h1: int, h2: int, h3: int, h4: int, l0: int,
      l1: int, l2: int, l3: int, l4: int)
    requires t0 == h0 * B1 + l0 && t1 == h1 * B1 + l1 && t2 == h2 * B1 + l2 && t3 == h3 * B1 + l3 && t4 == h4 * B1 + l4
    ensures Val51(t0, t1, t2, t3, t4) == Val51(l0 + 19 * h4, l1 + h0, l2 + h1, l3 + h2, l4 + h3) + h4 * P
  {
  }

  lemma FoldOnce(a0: int, a1: int, a2: int, a3: int, a4: int, h0: int, h1: int, h2: int, h3: int, c: int, l0: int,
      l1: int, l2: int, l3: int, l4: int)
    requires a0 == h0 * B1 + l0 && a1 + h0 == h1 * B1 + l1 && a2 + h1 == h2 * B1 + l2 && a3 + h2 == h3 * B1 + l3 &&
        a4 + h3 == c * B1 + l4
    ensures Val51(a0, a1, a2, a3, a4) == Val51(l0 + 19 * c, l1, l2, l3, l4) + c * P
  {
  }

  lemma HiBounds(t: nat)
    ensures t <= 77 * TWO108 ==> Hi(t) <= 0x9a00_0000_0000_0000
    ensures t <= 23 * TWO108 ==> Hi(t) <= 0x2e00_0000_0000_0000
    ensures t <= 5 * TWO108 ==> Hi(t) <= 0xa00_0000_0000_0000
    ensures t < TWO64 ==> Hi(t) < 0x2000
    ensures t <= 0x2e08_0000_0000_2000 ==> Hi(t) <= 1474
  {
  }

  /** A carry pass keeps the number modulo p and leaves limbs near 51 bits. */
  lemma FoldedValue(a0: nat, a1: nat, a2: nat, a3: nat, a4: nat, out: Fe) returns (k: int)
    requires Folded(a0, a1, a2, a3, a4, out)
    requires a0 < TWO64 && a1 + 0x2000 < TWO64 && a2 + 0x2000 < TWO64 && a3 + 0x2000 < TWO64 &&
        a4 <= 0x2e08_0000_0000_0000
    ensures Val51(a0, a1, a2, a3, a4) == Val(out) + k * P && Below(out, TIGHT)
  {
    hide Lo, Hi, Val51, Val;
    var b1 := a1 + Hi(a0);
    var b2 := a2 + Hi(b1);
    var b3 := a3 + Hi(b2);
    var b4 := a4 + Hi(b3);
    LoHi(a0); LoHi(b1); LoHi(b2); LoHi(b3); LoHi(b4);
    HiBounds(a0); HiBounds(b1); HiBounds(b2); HiBounds(b3); HiBounds(b4);
    FoldOnce(a0, a1, a2, a3, a4, Hi(a0), Hi(b1), Hi(b2), Hi(b3), Hi(b4), Lo(a0), Lo(b1), Lo(b2), Lo(b3), Lo(b4));
    k := Hi(b4);
    ValIs(out);
  }

  lemma CarriedTwiceValue(t0: nat, t1: nat, t2: nat, t3: nat, t4: nat, out: Fe) returns (k: int)
    requires CarriedTwice(t0, t1, t2, t3, t4, out)
    requires t0 <= 77 * TWO108 && t1 <= 77 * TWO108 && t2 <= 77 * TWO108 && t3 <= 23 * TWO108 && t4 <= 5 * TWO108
    ensures Val51(t0, t1, t2, t3, t4) == Val(out) + k * P && Below(out, TIGHT)
  {
    hide Lo, Hi, Val51, Val, Folded;
    LoHi(t0); LoHi(t1); LoHi(t2); LoHi(t3); LoHi(t4);
    HiBounds(t0); HiBounds(t1); HiBounds(t2); HiBounds(t3); HiBounds(t4);
    MoveUp(t0, t1, t2, t3, t4, Hi(t0), Hi(t1), Hi(t2), Hi(t3), Hi(t4), Lo(t0), Lo(t1), Lo(t2), Lo(t3), Lo(t4));
    var j := FoldedValue(Lo(t0) + 19 * Hi(t4), Lo(t1) + Hi(t0), Lo(t2) + Hi(t1), Lo(t3) + Hi(t2), Lo(t4) + Hi(t3), out);
    k := Hi(t4) + j;
    assert Hi(t4) * P + j * P == (Hi(t4) + j) * P;
  }

  /** The carries of one round of curve25519_square_times. */
  method CarryRound(t0: u128, t1: u128, t2: u128, t3: u128, t4: u128) returns (out: Fe)
    requires t0 <= 77 * TWO108 && t1 <= 77 * TWO108 && t2 <= 77 * TWO108 && t3 <= 23 * TWO108 && t4 <= 5 * TWO108
    ensures CarriedTwice(t0, t1, t2, t3, t4, out)
  {
    hide Lo, Hi;
    HiBounds(t0); HiBounds(t1); HiBounds(t2); HiBounds(t3); HiBounds(t4);
    var r0, c0 := Split51(t0);
    var r1, c1 := Split51(t1);
    var r2, c2 := Split51(t2);
    var r3, c3 := Split51(t3);
    var r4, c4 := Split51(t4);
    r1 := r1 + c0;
    r2 := r2 + c1;
    r3 := r3 + c2;
    r4 := r4 + c3;
    r0 := r0 + c4 * 19;
    out := CarryWords(r0, r1, r2, r3, r4);
  }

  method CarryWords(a0: u64, a1: u64, a2: u64, a3: u64, a4: u64) returns (out: Fe)
    requires a1 < 0xc000_0000_0000_0000 && a2 < 0xc000_0000_0000_0000 && a3 < 0xc000_0000_0000_0000 &&
        a4 < 0x8000_0000_0000_0000
    ensures Folded(a0, a1, a2, a3, a4, out)
  {
    hide Lo, Hi;
    HiBounds(a0);
    var r0, c := Split51(a0);
    var r1: u64 := a1 + c;
    HiBounds(r1);
    r1, c := Split51(r1);
    var r2: u64 := a2 + c;
    HiBounds(r2);
    r2, c := Split51(r2);
    var r3: u64 := a3 + c;
    HiBounds(r3);
    r3, c := Split51(r3);
    var r4: u64 := a4 + c;
    HiBounds(r4);
    r4, c := Split51(r4);
    r0 := r0 + c * 19;
    out := [r0, r1, r2, r3, r4];
  }

  lemma SquareTwiceValue(r: Fe, t0: nat, t1: nat, t2: nat, t3: nat, t4: nat, out: Fe) returns (k: int)
    requires Below(r, TWO54)
    requires t0 == T0(r, r) && t1 == T1(r, r) && t2 == T2(r, r) && t3 == T3(r, r) && t4 == T4(r, r) &&
        CarriedTwice(t0, t1, t2, t3, t4, out)
    ensures Below(out, TIGHT) && Val(r) * Val(r) == Val(out) + k * P
  {
    hide T0, T1, T2, T3, T4, CarriedTwice, Val, Val51;
    ProductBounds(r, r);
    var j := CarriedTwiceValue(t0, t1, t2, t3, t4, out);
    var l := ProductColumns(r, r);
    k := j + l;
    assert j * P + l * P == (j + l) * P;
  }

  // ---- powers ----

  ghost function Pow(x: int, n: nat): int {
    if n == 0 then 1 % P else Times(Pow(x, n - 1), x)
  }

  lemma TimesAssoc(a: int, b: int, c: int)
    ensures Times(Times(a, b), c) == Times(a, Times(b, c))
  {
    hide Times;
    TimesIs(a, b);
    TimesIs(b, c);
    TimesReduce(a * b, c);
    TimesReduce(b * c, a);
    Associate(a, b, c);
    assert (b * c) * a == a * (b * c);
  }

  /** A factor may be reduced first. */
  lemma TimesReduce(x: int, y: int)
    ensures Times(x % P, y) == (x * y) % P == Times(y, x % P)
  {
    hide Times;
    TimesIs(x % P, y);
    TimesIs(y, x % P);
    Quot(x);
    var q, r := x / P, x % P;
    assert (q * P + r) * y == r * y + (q * y) * P;
    ModIs(x * y, q * y, r * y);
    assert y * r == r * y;
  }

  lemma TimesComm(a: int, b: int)
    ensures Times(a, b) == Times(b, a)
  {
    hide Times;
    TimesIs(a, b);
    TimesIs(b, a);
    assert a * b == b * a;
  }

  lemma {:induction false} PowRange(x: int, n: nat)
    ensures 0 <= Pow(x, n) < P && Pow(x, 0) == 1 && Pow(x, 1) == x % P
  {
    hide Times;
    assert 1 % P == 1;
    assert Pow(x, 1) == Times(Pow(x, 0), x);
    TimesIs(1, x);
    if n > 0 {
      TimesIs(Pow(x, n - 1), x);
      Quot(Pow(x, n - 1) * x);
    }
  }

  lemma {:induction false} PowAdd(x: int, m: nat, n: nat)
    ensures Pow(x, m + n) == Times(Pow(x, m), Pow(x, n))
  {
    hide Times;
    PowRange(x, m);
    if n == 0 {
      TimesOne(Pow(x, m));
    } else {
      PowAdd(x, m, n - 1);
      TimesAssoc(Pow(x, m), Pow(x, n - 1), x);
    }
  }

  lemma TimesOne(a: int)
    requires 0 <= a < P
    ensures Times(a, 1) == a
  {
    hide Times;
    TimesIs(a, 1);
    DivModUnique(a, P, 0, a);
  }

  lemma {:induction false} PowPow(x: int, m: nat, n: nat)
    ensures Pow(Pow(x, m), n) == Pow(x, m * n)
  {
    if n == 0 {
      assert m * n == 0;
    } else {
      PowPow(x, m, n - 1);
      PowAdd(x, m * (n - 1), m);
      assert m * (n - 1) + m == m * n;
    }
  }

  /** out = in^(2^count) */
  method SquareTimes(in1: Fe, count: nat) returns (out: Fe)
    requires Below(in1, TWO54) && count >= 1
    ensures Below(out, TIGHT) && F(out) == Pow(F(in1), Pow2(count))
  {
    hide F, Val, Times, Pow, T0, T1, T2, T3, T4, CarriedTwice, Pow2;
    out := in1;
    FRange(in1);
    Pow2Start(F(in1));
    var n := count;
    ghost var done := 0;
    while n > 0
      invariant done + n == count && Below(out, TWO54) && (done > 0 ==> Below(out, TIGHT))
      invariant F(out) == Pow(F(in1), Pow2(done))
    {
      ghost var was := out;
      ProductBounds(out, out);
      assert out == [out[0], out[1], out[2], out[3], out[4]];
      var t0, t1, t2, t3, t4 := SquareColumns(out[0], out[1], out[2], out[3], out[4]);
      out := CarryRound(t0, t1, t2, t3, t4);
      ghost var k := SquareTwiceValue(was, t0, t1, t2, t3, t4, out);
      ProductElement(was, was, out, k);
      PowAdd(F(in1), Pow2(done), Pow2(done));
      Pow2Next(done);
      n := n - 1;
      done := done + 1;
    }
  }

  lemma Pow2Next(k: nat)
    ensures Pow2(k + 1) == Pow2(k) + Pow2(k)
  {
  }

  lemma Pow2Start(x: int)
    requires 0 <= x < P
    ensures Pow2(0) == 1 && Pow(x, 1) == x
  {
    PowRange(x, 1);
    DivModUnique(x, P, 0, x);
  }

  lemma FRange(a: Fe)
    ensures 0 <= F(a) < P
  {
    Quot(Val(a));
  }
}
