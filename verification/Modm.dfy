/**
 Arithmetic modulo the group order: conditional subtraction, Barrett reduction, addition and
 multiplication on five 56-bit limbs.
 */
module Modm {
  import opened Words
  import opened ModmBatch

  // the group order 2^252 + 27742317777372353535851937790883648493, and floor(2^512 / order), by limb
  const M0: int := 0x12631a5cf5d3ed
  const M1: int := 0xf9dea2f79cd658
  const M2: int := 0x000000000014de
  const M3: int := 0
  const M4: int := 0x00000010000000
  const MU0: int := 0x9ce5a30a2c131b
  const MU1: int := 0x215d086329a7ed
  const MU2: int := 0xffffffffeb2106
  const MU3: int := 0xffffffffffffff
  const MU4: int := 0x00000fffffffff

  const L: int := 0x10000000_00000000_00000000_00000000_14def9de_a2f79cd6_5812631a_5cf5d3ed
  const MU: int := 0xf_ffffffff_ffffffff_ffffffff_ffffffeb_2106215d_086329a7_ed9ce5a3_0a2c131b
  const TWO16: int := 0x1_0000
  const TWO24: int := 0x100_0000
  const TWO32: int := 0x1_0000_0000
  const TWO40: int := 0x100_0000_0000
  const TWO60: int := 0x1000_0000_0000_0000
  const TWO80: int := 0x1_0000_0000_0000_0000_0000
  const TWO115: int := 0x8_0000_0000_0000_0000_0000_0000_0000
  const TWO116: int := 0x10_0000_0000_0000_0000_0000_0000_0000
  const TWO248: int := 0x1_00000000_00000000_00000000_00000000_00000000_00000000_00000000_000000
  const TWO256: int := 0x1_00000000_00000000_00000000_00000000_00000000_00000000_00000000_00000000
  const TWO264: int := 0x100_00000000_00000000_00000000_00000000_00000000_00000000_00000000_00000000
  const TWO512: int := 0x1_00000000_00000000_00000000_00000000_00000000_00000000_00000000_00000000_00000000_00000000_00000000_00000000_00000000_00000000_00000000_00000000

  /** The number with the given limbs. */
  function Val5(a0: int, a1: int, a2: int, a3: int, a4: int): int {
    a0 + a1 * R1 + a2 * R2 + a3 * R3 + a4 * R4
  }

  // ---- Barrett reduction on numbers ----

  /** A quotient within 2^264 + 2^227 of mu * q1 leaves a remainder in [0, 3L). */
  lemma QuotientError(x: nat, q1: nat, q3: nat)
    requires x < TWO512 && q1 * TWO248 <= x < q1 * TWO248 + TWO248
    requires 0 <= MU * q1 - q3 * TWO264 < TWO264 + 0x8 * R4
    ensures 0 <= x - q3 * L < 3 * L
  {
  }

  /** Remainders that agree modulo 2^264 and lie below it are equal. */
  lemma SameRemainder(a: int, b: int, k: int)
    requires 0 <= a < TWO264 && 0 <= b < TWO264 && a == b + k * TWO264
    ensures a == b
  {
  }

  lemma ModOrder(x: nat, q: int, r: int)
    requires x == q * L + r && 0 <= r < L
    ensures x % L == r
  {
    DivModUnique(x, L, q, r);
  }

  /** Digits c = f 2^56 + h 2^40 + a reassembled as h + a' 2^16 shift the number right by 40. */
  lemma Shift40(c4: int, c5: int, c6: int, c7: int, c8: int, f4: int, f5: int, f6: int, f7: int, top: int,
                h4: int, h5: int, h6: int, h7: int, h8: int, a4: int, a5: int, a6: int, a7: int, a8: int)
    requires c4 == f4 * TWO56 + h4 * TWO40 + a4
    requires c5 + f4 == f5 * TWO56 + h5 * TWO40 + a5
    requires c6 + f5 == f6 * TWO56 + h6 * TWO40 + a6
    requires c7 + f6 == f7 * TWO56 + h7 * TWO40 + a7
    requires c8 + f7 == top * TWO56 + h8 * TWO40 + a8
    ensures Val5(c4, c5, c6, c7, c8) ==
      TWO40 * Val5(h4 + a5 * TWO16, h5 + a6 * TWO16, h6 + a7 * TWO16, h7 + a8 * TWO16, h8 + top * TWO16) + a4
  {
  }

  // ---- the word operations of the carry chains ----

  /** c >> 56 */
  function Carry(c: nat): nat {
    c / TWO56
  }

  /** Bits 40..55 of c, and the 40 bits below them. */
  function Bits40To55(c: nat): nat {
    (c / TWO40) % TWO16
  }

  function Bits0To39(c: nat): nat {
    c % TWO40
  }

  /** Bits 24..55 of c, and the 24 bits below them. */
  function Bits24To55(c: nat): nat {
    (c / TWO24) % TWO32
  }

  function Bits0To23(c: nat): nat {
    c % TWO24
  }

  function Shl16(x: nat): nat {
    x * TWO16
  }

  function Shl32(x: nat): nat {
    x * TWO32
  }

  lemma Parts(c: nat)
    ensures Bits40To55(c) < TWO16 && Bits0To39(c) < TWO40 &&
        c == Carry(c) * TWO56 + Bits40To55(c) * TWO40 + Bits0To39(c)
    ensures Bits24To55(c) < TWO32 && Bits0To23(c) < TWO24 &&
        c == Carry(c) * TWO56 + Bits24To55(c) * TWO24 + Bits0To23(c)
  {
  }

  lemma CutAt40(c: nat)
    ensures ((c % TWO64) / TWO40) % TWO16 == Bits40To55(c)
    ensures (((c % TWO64) * TWO16) % TWO64) % TWO56 == Bits0To39(c) * TWO16
  {
    var a, b, e := c % TWO40, (c / TWO40) % TWO16, c / TWO56;
    assert c == a + TWO40 * b + TWO56 * e;
    var f, g := e % 256, e / 256;
    assert c == (a + TWO40 * b + TWO56 * f) + TWO64 * g;
    DivModUnique(c, TWO64, g, a + TWO40 * b + TWO56 * f);
    DivModUnique(c, TWO56, e, a + TWO40 * b);
    DivModUnique(a + TWO40 * b, TWO40, b, a);
    DivModUnique(c % TWO64, TWO40, b + TWO16 * f, a);
    DivModUnique(b + TWO16 * f, TWO16, f, b);
    var p, q := (b + TWO16 * f) % 256, (b + TWO16 * f) / 256;
    DivModUnique((c % TWO64) * TWO16, TWO64, q, a * TWO16 + TWO56 * p);
    DivModUnique(a * TWO16 + TWO56 * p, TWO56, p, a * TWO16);
  }

  lemma CutAt24(c: nat)
    ensures ((c % TWO64) / TWO24) % TWO32 == Bits24To55(c)
    ensures (((c % TWO64) * TWO32) % TWO64) % TWO56 == Bits0To23(c) * TWO32
  {
    var a, b, e := c % TWO24, (c / TWO24) % TWO32, c / TWO56;
    assert c == a + TWO24 * b + TWO56 * e;
    var f, g := e % 256, e / 256;
    assert c == (a + TWO24 * b + TWO56 * f) + TWO64 * g;
    DivModUnique(c, TWO64, g, a + TWO24 * b + TWO56 * f);
    DivModUnique(c, TWO56, e, a + TWO24 * b);
    DivModUnique(a + TWO24 * b, TWO24, b, a);
    DivModUnique(c % TWO64, TWO24, b + TWO32 * f, a);
    DivModUnique(b + TWO32 * f, TWO32, f, b);
    var p, q := (b + TWO32 * f) % 256, (b + TWO32 * f) / 256;
    DivModUnique((c % TWO64) * TWO32, TWO64, q, a * TWO32 + TWO56 * p);
    DivModUnique(a * TWO32 + TWO56 * p, TWO56, p, a * TWO32);
  }

  /** shr128(f, c, 56), lo128(c) & 0xffffffffffffff */
  method Split56(c: u128) returns (lo: u64, f: u64)
    requires c < TWO116
    ensures lo == c % TWO56 && f == Carry(c) < TWO60
  {
    hide Pow2;
    Pow2Values();
    LowTwice(c);
    lo := LowBits(c % TWO64, 56, 0xff_ffff_ffff_ffff);
    f := c / TWO56;
  }

  lemma LowTwice(c: nat)
    ensures (c % TWO64) % TWO56 == c % TWO56
  {
    var a, b := c % TWO56, c / TWO56;
    assert c == b * TWO56 + a;
    var l, h := b % 256, b / 256;
    DivModUnique(c, TWO64, h, l * TWO56 + a);
    DivModUnique(l * TWO56 + a, TWO56, l, a);
  }

  /** (lo128(c) >> 40) & 0xffff, (lo128(c) << 16) & 0xffffffffffffff, shr128(f, c, 56) */
  method Cut40(c: u128) returns (h: u64, l: u64, f: u64)
    requires c < TWO116
    ensures h == Bits40To55(c) < TWO16 && l == Shl16(Bits0To39(c)) && Bits0To39(c) < TWO40 && f == Carry(c) < TWO60
    ensures c < TWO80 ==> f < TWO24
  {
    hide Pow2;
    Pow2Values();
    CutAt40(c);
    h := LowBits((c % TWO64) / TWO40, 16, 0xffff);
    l := LowBits(((c % TWO64) * TWO16) % TWO64, 56, 0xff_ffff_ffff_ffff);
    f := c / TWO56;
  }

  /** (lo128(c) >> 24) & 0xffffffff, (lo128(c) << 32) & 0xffffffffffffff, shr128(f, c, 56) */
  method Cut24(c: u128) returns (h: u64, l: u64, f: u64)
    requires c < TWO116
    ensures h == Bits24To55(c) < TWO32 && l == Shl32(Bits0To23(c)) && Bits0To23(c) < TWO24 && f == Carry(c) < TWO60
    ensures c < TWO80 ==> f < TWO24
  {
    hide Pow2;
    Pow2Values();
    CutAt24(c);
    h := LowBits((c % TWO64) / TWO24, 32, 0xffff_ffff);
    l := LowBits(((c % TWO64) * TWO32) % TWO64, 56, 0xff_ffff_ffff_ffff);
    f := c / TWO56;
  }

  /** high | low for a low part that is a multiple of 2^16 */
  method Join16(high: u64, low: u64, ghost k: nat) returns (r: u64)
    requires high < TWO16 && low == Shl16(k) && k < TWO40
    ensures r == high + Shl16(k) && r < TWO56
  {
    Pow2Values();
    OrDisjoint(high, k, 16);
    r := Or(high, low);
  }

  method Join32(high: u64, low: u64, ghost k: nat) returns (r: u64)
    requires high < TWO32 && low == Shl32(k) && k < TWO24
    ensures r == high + Shl32(k) && r < TWO56
  {
    Pow2Values();
    OrDisjoint(high, k, 32);
    r := Or(high, low);
  }

  /** lt_modm */
  function Lt(a: u64, b: u64): (r: u64)
    requires a < TWO63 && b < TWO63
    ensures r == if a < b then 1 else 0
  {
    Sub64(a, b) / TWO63
  }

  // the sums of products that make up the columns of mu * q1, from column 3 up
  function D3(q: Limbs): nat { MU0 * q[3] + MU3 * q[0] + MU1 * q[2] + MU2 * q[1] }
  function D4(q: Limbs): nat { MU0 * q[4] + MU4 * q[0] + MU3 * q[1] + MU1 * q[3] + MU2 * q[2] }
  function D5(q: Limbs): nat { MU4 * q[1] + MU1 * q[4] + MU2 * q[3] + MU3 * q[2] }
  function D6(q: Limbs): nat { MU4 * q[2] + MU2 * q[4] + MU3 * q[3] }
  function D7(q: Limbs): nat { MU4 * q[3] + MU3 * q[4] }
  function D8(q: Limbs): nat { MU4 * q[4] }
  // the columns with the carry from the one below; column 3 is the lowest kept
  function C4(q: Limbs): nat { D4(q) + Carry(D3(q)) }
  function C5(q: Limbs): nat { D5(q) + Carry(C4(q)) }
  function C6(q: Limbs): nat { D6(q) + Carry(C5(q)) }
  function C7(q: Limbs): nat { D7(q) + Carry(C6(q)) }
  function C8(q: Limbs): nat { D8(q) + Carry(C7(q)) }

  lemma ColumnBounds(q: Limbs)
    requires q[0] < TWO56 && q[1] < TWO56 && q[2] < TWO56 && q[3] < TWO56 && q[4] < TWO40
    ensures D3(q) < TWO116 && C4(q) < TWO116 && C5(q) < TWO116
    ensures C6(q) < TWO116 && C7(q) < TWO116 && C8(q) < TWO80
  {
    hide Carry;
    CarryBound(D3(q));
    CarryBound(C4(q));
    CarryBound(C5(q));
    CarryBound(C6(q));
    CarryBound(C7(q));
  }

  lemma CarryBound(c: nat)
    ensures c < TWO116 ==> Carry(c) < TWO60
  {
  }

  ghost predicate IsQuotient(q: Limbs, r: Limbs) {
    && r[0] == Bits40To55(C4(q)) + Shl16(Bits0To39(C5(q)))
    && r[1] == Bits40To55(C5(q)) + Shl16(Bits0To39(C6(q)))
    && r[2] == Bits40To55(C6(q)) + Shl16(Bits0To39(C7(q)))
    && r[3] == Bits40To55(C7(q)) + Shl16(Bits0To39(C8(q)))
    && r[4] == Bits40To55(C8(q)) + Shl16(Carry(C8(q)))
  }

  /** Columns 4 and up, the carry out of column 3 included. */
  ghost function Kept(q: Limbs): nat {
    Val5(D4(q), D5(q), D6(q), D7(q), D8(q)) + Carry(D3(q))
  }

  /** Columns 0..2. */
  ghost function Dropped(q: Limbs): nat {
    MU0 * q[0] + (MU0 * q[1] + MU1 * q[0]) * R1 + (MU0 * q[2] + MU1 * q[1] + MU2 * q[0]) * R2
  }

  lemma AllColumns(q: Limbs)
    ensures MU * Value(q) == Dropped(q) + D3(q) * R3 + Val5(D4(q), D5(q), D6(q), D7(q), D8(q)) * R4
  {
    hide Value, Val5;
    ValueOf(q);
    MulByMu(q[0], q[1], q[2], q[3], q[4], Dropped(q), D3(q), D4(q), D5(q), D6(q), D7(q), D8(q));
  }

  lemma MulByMu(q0: int, q1: int, q2: int, q3: int, q4: int, low: int, d3: int, d4: int, d5: int, d6: int, d7: int,
      d8: int)
    requires low == MU0 * q0 + (MU0 * q1 + MU1 * q0) * R1 + (MU0 * q2 + MU1 * q1 + MU2 * q0) * R2
    requires d3 == MU0 * q3 + MU3 * q0 + MU1 * q2 + MU2 * q1
    requires d4 == MU0 * q4 + MU4 * q0 + MU3 * q1 + MU1 * q3 + MU2 * q2
    requires d5 == MU4 * q1 + MU1 * q4 + MU2 * q3 + MU3 * q2
    requires d6 == MU4 * q2 + MU2 * q4 + MU3 * q3 && d7 == MU4 * q3 + MU3 * q4 && d8 == MU4 * q4
    ensures MU * Val5(q0, q1, q2, q3, q4) == low + d3 * R3 + Val5(d4, d5, d6, d7, d8) * R4
  {
  }

  lemma DroppedBound(q: Limbs)
    requires q[0] < TWO56 && q[1] < TWO56 && q[2] < TWO56
    ensures 0 <= Dropped(q) < 7 * R4
  {
  }

  lemma KeptClose(q: Limbs)
    requires q[0] < TWO56 && q[1] < TWO56 && q[2] < TWO56
    ensures 0 <= MU * Value(q) - Kept(q) * R4 < 8 * R4
  {
    hide Carry, Bits40To55, Bits0To39, Bits24To55, Bits0To23, Dropped, D3, D4, D5, D6, D7, D8, Value, Val5;
    AllColumns(q);
    DroppedBound(q);
    Parts(D3(q));
  }

  lemma KeptShift(q: Limbs, r: Limbs)
    requires IsQuotient(q, r)
    ensures Kept(q) == TWO40 * Value(r) + Bits0To39(C4(q))
  {
    hide Carry, Bits40To55, Bits0To39, Bits24To55, Bits0To23, D3, D4, D5, D6, D7, D8;
    var c4, c5, c6, c7, c8 := C4(q), C5(q), C6(q), C7(q), C8(q);
    Parts(c4); Parts(c5); Parts(c6); Parts(c7); Parts(c8);
    Shift40(c4, D5(q), D6(q), D7(q), D8(q), Carry(c4), Carry(c5), Carry(c6), Carry(c7), Carry(c8),
            Bits40To55(c4), Bits40To55(c5), Bits40To55(c6), Bits40To55(c7), Bits40To55(c8),
            Bits0To39(c4), Bits0To39(c5), Bits0To39(c6), Bits0To39(c7), Bits0To39(c8));
  }

  lemma QuotientClose(q: Limbs, r: Limbs)
    requires q[0] < TWO56 && q[1] < TWO56 && q[2] < TWO56 && q[3] < TWO56 && q[4] < TWO40
    requires IsQuotient(q, r)
    ensures 0 <= MU * Value(q) - Value(r) * TWO264 < TWO264 + 8 * R4
  {
    hide *;
    KeptClose(q);
    KeptShift(q, r);
    Parts(C4(q));
    Combine(MU * Value(q), Kept(q), Value(r), Bits0To39(C4(q)));
  }

  lemma Combine(x: int, top: int, q: int, a: int)
    requires 0 <= x - top * R4 < 8 * R4 && top == TWO40 * q + a && 0 <= a < TWO40
    ensures 0 <= x - q * TWO264 < TWO264 + 8 * R4
  {
  }

  /** The quotient limbs: (mu * q1) >> 264 with columns 0..2 and the low half of column 3 dropped. */
  method Quotient(q: Limbs) returns (r: Limbs)
    requires D3(q) < TWO116 && C4(q) < TWO116 && C5(q) < TWO116
    requires C6(q) < TWO116 && C7(q) < TWO116 && C8(q) < TWO80
    ensures Proper(r) && r[4] < TWO40 && IsQuotient(q, r)
  {
    hide Carry, Bits40To55, Bits0To39, Shl16, D3, D4, D5, D6, D7, D8;
    var _, f := Split56(D3(q));
    var h, r0, r1, r2, r3;
    var c := D4(q) + f;
    assert c == C4(q);
    r0, h, f := Step40(c, 0);
    c := D5(q) + f;
    assert c == C5(q);
    r0, h, f := Step40(c, h);
    c := D6(q) + f;
    assert c == C6(q);
    r1, h, f := Step40(c, h);
    c := D7(q) + f;
    assert c == C7(q);
    r2, h, f := Step40(c, h);
    c := D8(q) + f;
    assert c == C8(q);
    r3, h, f := Step40(c, h);
    FitsShl16(f);
    var r4 := Join16(h, Shl16(f), f);
    r := [r0, r1, r2, r3, r4];
  }

  lemma FitsShl16(f: nat)
    ensures f < TWO24 ==> Shl16(f) + TWO16 <= TWO40
  {
  }

  /** Complete the limb below with the low 40 bits of a column, keep the 16 above, carry the rest. */
  method Step40(c: nat, below: u64) returns (limb: u64, h: u64, f: u64)
    requires c < TWO116 && below < TWO16
    ensures limb == below + Shl16(Bits0To39(c)) && limb < TWO56
    ensures h == Bits40To55(c) < TWO16 && f == Carry(c)
    ensures c < TWO80 ==> f < TWO24
  {
    hide Carry, Bits40To55, Bits0To39, Shl16;
    var l;
    h, l, f := Cut40(c);
    limb := Join16(below, l, Bits0To39(c));
  }

  // ---- the product with the group order, modulo 2^264 ----

  // column sums of q3 * m, and the columns with the carry from the one below
  function E0(q: Limbs): nat { M0 * q[0] }
  function E1(q: Limbs): nat { M0 * q[1] + M1 * q[0] }
  function E2(q: Limbs): nat { M0 * q[2] + M2 * q[0] + M1 * q[1] }
  function E3(q: Limbs): nat { M0 * q[3] + M3 * q[0] + M1 * q[2] + M2 * q[1] }
  function E4(q: Limbs): nat { M0 * q[4] + M4 * q[0] + M3 * q[1] + M1 * q[3] + M2 * q[2] }
  function F1(q: Limbs): nat { E1(q) + Carry(E0(q)) }
  function F2(q: Limbs): nat { E2(q) + Carry(F1(q)) }
  function F3(q: Limbs): nat { E3(q) + Carry(F2(q)) }
  function F4(q: Limbs): nat { E4(q) + Carry(F3(q)) }

  /** Columns 5 and up, which are multiples of 2^280. */
  ghost function High(q: Limbs): nat {
    M4 * q[1] + M3 * q[2] + M2 * q[3] + M1 * q[4] + (M4 * q[2] + M3 * q[3] + M2 * q[4]) * R1
    + (M4 * q[3] + M3 * q[4]) * R2 + M4 * q[4] * R3
  }

  lemma ProductColumns(q: Limbs)
    ensures L * Value(q) == Val5(E0(q), E1(q), E2(q), E3(q), E4(q)) + High(q) * R5
  {
    hide Value, Val5;
    ValueOf(q);
    MulByOrder(q[0], q[1], q[2], q[3], q[4], E0(q), E1(q), E2(q), E3(q), E4(q), High(q));
  }

  lemma MulByOrder(q0: int, q1: int, q2: int, q3: int, q4: int, e0: int, e1: int, e2: int, e3: int, e4: int, high: int)
    requires e0 == M0 * q0 && e1 == M0 * q1 + M1 * q0 && e2 == M0 * q2 + M2 * q0 + M1 * q1
    requires e3 == M0 * q3 + M3 * q0 + M1 * q2 + M2 * q1
    requires e4 == M0 * q4 + M4 * q0 + M3 * q1 + M1 * q3 + M2 * q2
    requires high == M4 * q1 + M3 * q2 + M2 * q3 + M1 * q4 + (M4 * q2 + M3 * q3 + M2 * q4) * R1 +
        (M4 * q3 + M3 * q4) * R2 + M4 * q4 * R3
    ensures L * Val5(q0, q1, q2, q3, q4) == Val5(e0, e1, e2, e3, e4) + high * R5
  {
  }

  lemma ProductBounds(q: Limbs)
    requires Proper(q)
    ensures E0(q) < TWO116 && F1(q) < TWO116 && F2(q) < TWO116 && F3(q) < TWO116 && F4(q) < TWO116
  {
    hide Carry;
    CarryBound(E0(q));
    CarryBound(F1(q));
    CarryBound(F2(q));
    CarryBound(F3(q));
  }

  /** The digits of q3 * m modulo 2^264. */
  ghost predicate IsProduct(q: Limbs, r: Limbs) {
    && r[0] == E0(q) % TWO56 && r[1] == F1(q) % TWO56 && r[2] == F2(q) % TWO56 && r[3] == F3(q) % TWO56
    && r[4] == F4(q) % TWO40
  }

  lemma Digit(c: nat)
    ensures c % TWO56 < TWO56 && c == Carry(c) * TWO56 + c % TWO56
    ensures c % TWO40 < TWO40 && c == (c / TWO40) * TWO40 + c % TWO40
  {
  }

  lemma ProductDigits(q: Limbs, r: Limbs)
    requires IsProduct(q, r)
    ensures Val5(E0(q), E1(q), E2(q), E3(q), E4(q)) == Value(r) + (F4(q) / TWO40) * TWO264
  {
    hide E0, E1, E2, E3, E4, Carry;
    Digit(E0(q)); Digit(F1(q)); Digit(F2(q)); Digit(F3(q)); Digit(F4(q));
    CarryChain(E0(q), E1(q), E2(q), E3(q), E4(q), Carry(E0(q)), Carry(F1(q)), Carry(F2(q)), Carry(F3(q)), F4(q) / TWO40,
               r[0], r[1], r[2], r[3], r[4]);
  }

  /** The truncated product differs from q3 * L by a multiple of 2^264. */
  lemma ProductMod(q: Limbs, r: Limbs) returns (k: nat)
    requires IsProduct(q, r)
    ensures L * Value(q) == Value(r) + k * TWO264
  {
    hide E0, E1, E2, E3, E4, F1, F2, F3, F4, Val5, Value, IsProduct, High;
    ProductColumns(q);
    ProductDigits(q, r);
    k := F4(q) / TWO40 + High(q) * TWO16;
    TopColumns(L * Value(q), Value(r), F4(q) / TWO40, High(q), k);
  }

  lemma CarryChain(e0: int, e1: int, e2: int, e3: int, e4: int, f0: int, f1: int, f2: int, f3: int, top: int,
                   r0: int, r1: int, r2: int, r3: int, r4: int)
    requires e0 == f0 * TWO56 + r0 && e1 + f0 == f1 * TWO56 + r1 && e2 + f1 == f2 * TWO56 + r2
    requires e3 + f2 == f3 * TWO56 + r3 && e4 + f3 == top * TWO40 + r4
    ensures Val5(e0, e1, e2, e3, e4) == Val5(r0, r1, r2, r3, r4) + top * TWO264
  {
  }

  lemma TopColumns(x: int, r: int, top: int, high: int, k: int)
    requires x == r + top * TWO264 + high * R5 && k == top + high * TWO16
    ensures x == r + k * TWO264
  {
  }

  /** r2 = q3 * m mod 2^264, by truncated columns. */
  method Product(q: Limbs) returns (r: Limbs)
    requires E0(q) < TWO116 && F1(q) < TWO116 && F2(q) < TWO116 && F3(q) < TWO116 && F4(q) < TWO116
    ensures IsProduct(q, r)
  {
    hide E0, E1, E2, E3, E4, Carry;
    var r0, f := Split56(E0(q));
    var r1, r2, r3;
    var c := E1(q) + f;
    r1, f := Split56(c);
    c := E2(q) + f;
    r2, f := Split56(c);
    c := E3(q) + f;
    r3, f := Split56(c);
    c := E4(q) + f;
    var r4 := Low40(c);
    r := [r0, r1, r2, r3, r4];
  }

  /** lo128(c) & 0xffffffffff */
  method Low40(c: u128) returns (r: u64)
    ensures r == c % TWO40
  {
    hide Pow2;
    Pow2Values();
    r := LowBits(c % TWO64, 40, 0xff_ffff_ffff);
  }

  // ---- subtraction with borrow ----

  function Bw(x: int, y: int): (b: int)
    ensures 0 <= b <= 1
  {
    if x < y then 1 else 0
  }

  function Df(x: int, y: int): int {
    x - y + Bw(x, y) * TWO56
  }

  // the limbs subtracted at each position: those of s with the borrow from the position below
  function K1(a: Limbs, s: Limbs): nat { s[1] as int + Bw(a[0], s[0]) }
  function K2(a: Limbs, s: Limbs): nat { s[2] as int + Bw(a[1], K1(a, s)) }
  function K3(a: Limbs, s: Limbs): nat { s[3] as int + Bw(a[2], K2(a, s)) }
  function K4(a: Limbs, s: Limbs): nat { s[4] as int + Bw(a[3], K3(a, s)) }

  /** Limbs 0..3 of a - s; the difference at the top position may be negative. */
  ghost predicate IsDifference(a: Limbs, s: Limbs, t0: int, t1: int, t2: int, t3: int, top: int) {
    && t0 == Df(a[0], s[0]) && t1 == Df(a[1], K1(a, s)) && t2 == Df(a[2], K2(a, s)) && t3 == Df(a[3], K3(a, s))
    && top == a[4] - K4(a, s)
  }

  lemma DifferenceVal(a: Limbs, s: Limbs, t0: int, t1: int, t2: int, t3: int, top: int)
    requires Proper(a) && Proper(s) && IsDifference(a, s, t0, t1, t2, t3, top)
    ensures 0 <= t0 < TWO56 && 0 <= t1 < TWO56 && 0 <= t2 < TWO56 && 0 <= t3 < TWO56
    ensures Val5(t0, t1, t2, t3, top) == Value(a) - Value(s)
    ensures top >= 0 <==> Value(a) >= Value(s)
  {
    hide Val5, Value, Df, Bw;
    ValueOf(a);
    ValueOf(s);
    DfRange(a[0], s[0]); DfRange(a[1], K1(a, s)); DfRange(a[2], K2(a, s)); DfRange(a[3], K3(a, s));
    BorrowChain(a[0], a[1], a[2], a[3], a[4], s[0], s[1], s[2], s[3], s[4], t0, t1, t2, t3, top,
                Bw(a[0], s[0]), Bw(a[1], K1(a, s)), Bw(a[2], K2(a, s)), Bw(a[3], K3(a, s)));
    TopSign(t0, t1, t2, t3, top);
  }

  lemma DfRange(x: int, y: int)
    requires 0 <= x < TWO56 && 0 <= y <= TWO56
    ensures 0 <= Df(x, y) < TWO56 && Df(x, y) == x - y + Bw(x, y) * TWO56
  {
  }

  /** x - y + (b << 56) with b = lt_modm(x, y): the difference and the borrow. */
  method SubBorrow(x: u64, y: u64) returns (t: u64, b: u64)
    requires x < TWO56 && y <= TWO56
    ensures b == Bw(x, y) && t == Df(x, y)
  {
    b := Lt(x, y);
    t := Add64(Sub64(x, y), b * TWO56);
  }

  lemma BorrowChain(a0: int, a1: int, a2: int, a3: int, a4: int, s0: int, s1: int, s2: int, s3: int, s4: int,
                    t0: int, t1: int, t2: int, t3: int, t4: int, b0: int, b1: int, b2: int, b3: int)
    requires t0 == a0 - s0 + b0 * TWO56 && t1 == a1 - (s1 + b0) + b1 * TWO56 && t2 == a2 - (s2 + b1) + b2 * TWO56
    requires t3 == a3 - (s3 + b2) + b3 * TWO56 && t4 == a4 - (s4 + b3)
    ensures Val5(t0, t1, t2, t3, t4) == Val5(a0, a1, a2, a3, a4) - Val5(s0, s1, s2, s3, s4)
  {
  }

  lemma TopSign(t0: int, t1: int, t2: int, t3: int, t4: int)
    requires 0 <= t0 < TWO56 && 0 <= t1 < TWO56 && 0 <= t2 < TWO56 && 0 <= t3 < TWO56
    ensures Val5(t0, t1, t2, t3, t4) >= 0 <==> t4 >= 0
  {
  }

  lemma ValueOf(a: Limbs)
    ensures Value(a) == Val5(a[0], a[1], a[2], a[3], a[4])
  {
  }

  /** r := r - m if that is not negative, else r. */
  method Reduce256(r: array<u64>)
    requires r.Length == 5 && Proper(r[..])
    modifies r
    ensures Proper(r[..])
    ensures Value(r[..]) == old(if Value(r[..]) >= L then Value(r[..]) - L else Value(r[..]))
  {
    hide Val5, Value, Df, Bw;
    ghost var was := r[..];
    var m: Limbs := [M0, M1, M2, M3, M4];
    OrderLimbs(m);
    var t0, b0 := SubBorrow(r[0], m[0]);
    var t1, b1 := SubBorrow(r[1], b0 + m[1]);
    var t2, b2 := SubBorrow(r[2], b1 + m[2]);
    var t3, b3 := SubBorrow(r[3], b2 + m[3]);
    var pb: u64 := b3 + m[4];
    var b := Lt(r[4], pb);
    var t4 := Add64(Sub64(r[4], pb), b * TWO32);
    DifferenceVal(was, m, t0, t1, t2, t3, r[4] - pb);
    var mask := Sub64(b, 1);
    r[0] := Select(r[0], t0, mask);
    r[1] := Select(r[1], t1, mask);
    r[2] := Select(r[2], t2, mask);
    r[3] := Select(r[3], t3, mask);
    r[4] := Select(r[4], t4, mask);
    ValueOf(r[..]);
    if b == 1 {
      assert r[..] == was;
    }
  }

  lemma OrderLimbs(m: Limbs)
    requires m == [M0, M1, M2, M3, M4]
    ensures Proper(m) && Value(m) == L
  {
  }

  /** x with x >> 248 in q1 and x mod 2^264 in r1. */
  ghost predicate Splits(x: int, q1: Limbs, r1: Limbs) {
    && 0 <= x < TWO512 && Proper(q1) && q1[4] < TWO40 && Proper(r1) && r1[4] < TWO40
    && Value(q1) * TWO248 <= x < Value(q1) * TWO248 + TWO248
    && x == Value(r1) + (x / TWO264) * TWO264
  }

  /** r1 - r2 modulo 2^264 is x - q3 * L, which two conditional subtractions take to x mod L. */
  lemma Remainder(x: nat, q1: Limbs, r1: Limbs, q3: Limbs, r2: Limbs, d: int, b: int)
    requires Splits(x, q1, r1) && IsQuotient(q1, q3) && IsProduct(q3, r2)
    requires 0 <= d < TWO264 && d == Value(r1) - Value(r2) + b * TWO264
    ensures d == x - Value(q3) * L && 0 <= d < 3 * L
  {
    hide Value, IsQuotient, IsProduct;
    QuotientClose(q1, q3);
    var k := ProductMod(q3, r2);
    QuotientError(x, Value(q1), Value(q3));
    SameRemainder(d, x - Value(q3) * L, b + k - x / TWO264);
  }

  lemma ReducedTwice(x: nat, q: nat, d: int, d1: int, d2: int)
    requires 0 <= d < 3 * L && d == x - q * L
    requires d1 == (if d >= L then d - L else d) && d2 == (if d1 >= L then d1 - L else d1)
    ensures d2 == x % L
  {
    ModOrder(x, if d < L then q else if d < 2 * L then q + 1 else q + 2, d2);
  }

  /** r := x mod L; r may be the buffer r1. */
  method Barrett(r: array<u64>, q1: array<u64>, r1: array<u64>, ghost x: nat)
    requires r.Length == 5 && q1.Length == 5 && r1.Length == 5
    requires Splits(x, q1[..], r1[..])
    modifies r
    ensures Proper(r[..]) && Value(r[..]) == x % L
  {
    hide Value, Val5, IsQuotient, IsProduct, D3, C4, C5, C6, C7, C8, E0, F1, F2, F3, F4;
    ghost var q, s := q1[..], r1[..];
    ColumnBounds(q1[..]);
    var q3 := Quotient(q1[..]);
    ProductBounds(q3);
    var r2 := Product(q3);
    ProductProper(q3, r2);
    ghost var b := SubtractProduct(r, r1, r2);
    Remainder(x, q, s, q3, r2, Value(r[..]), b);
    ghost var d := Value(r[..]);
    Reduce256(r);
    ghost var d1 := Value(r[..]);
    Reduce256(r);
    ReducedTwice(x, Value(q3), d, d1, Value(r[..]));
  }

  lemma ProductProper(q: Limbs, r: Limbs)
    requires IsProduct(q, r)
    ensures Proper(r) && r[4] < TWO40
  {
    hide E0, F1, F2, F3, F4;
  }

  /** r := r1 - r2 modulo 2^264, limb by limb; r may be the buffer r1. */
  method SubtractProduct(r: array<u64>, r1: array<u64>, r2: Limbs) returns (ghost b: int)
    requires r.Length == 5 && r1.Length == 5 && Proper(r1[..]) && r1[4] < TWO40 && Proper(r2) && r2[4] < TWO40
    modifies r
    ensures Proper(r[..]) && 0 <= Value(r[..]) < TWO264
    ensures Value(r[..]) == old(Value(r1[..])) - Value(r2) + b * TWO264
  {
    hide Val5, Value, Df, Bw;
    ghost var s := r1[..];
    var b0, b1, b2, b3;
    r[0], b0 := SubBorrow(r1[0], r2[0]);
    r[1], b1 := SubBorrow(r1[1], b0 + r2[1]);
    r[2], b2 := SubBorrow(r1[2], b1 + r2[2]);
    r[3], b3 := SubBorrow(r1[3], b2 + r2[3]);
    var pb: u64 := b3 + r2[4];
    var borrow := Lt(r1[4], pb);
    ghost var top := s[4] - pb;
    r[4] := Add64(Sub64(r1[4], pb), borrow * TWO40);
    b := borrow;
    DifferenceVal(s, r2, r[0], r[1], r[2], r[3], top);
    TopBorrow(r[0], r[1], r[2], r[3], top, borrow);
    ValueOf(r[..]);
  }

  lemma TopBorrow(t0: int, t1: int, t2: int, t3: int, t4: int, b: int)
    ensures Val5(t0, t1, t2, t3, t4 + b * TWO40) == Val5(t0, t1, t2, t3, t4) + b * TWO264
    ensures 0 <= t0 < TWO56 && 0 <= t1 < TWO56 && 0 <= t2 < TWO56 && 0 <= t3 < TWO56 && 0 <= t4 + b * TWO40 < TWO40
      ==> 0 <= Val5(t0, t1, t2, t3, t4 + b * TWO40) < TWO264
  {
  }

  // ---- addition and multiplication ----

  // the limb sums of x + y with the carry from the limb below
  function S0(x: Limbs, y: Limbs): nat { (x[0] as int) + y[0] }
  function S1(x: Limbs, y: Limbs): nat { (x[1] as int) + y[1] + Carry(S0(x, y)) }
  function S2(x: Limbs, y: Limbs): nat { (x[2] as int) + y[2] + Carry(S1(x, y)) }
  function S3(x: Limbs, y: Limbs): nat { (x[3] as int) + y[3] + Carry(S2(x, y)) }
  function S4(x: Limbs, y: Limbs): nat { (x[4] as int) + y[4] + Carry(S3(x, y)) }

  ghost predicate IsSum(x: Limbs, y: Limbs, r: Limbs) {
    && r[0] == S0(x, y) % TWO56 && r[1] == S1(x, y) % TWO56 && r[2] == S2(x, y) % TWO56 && r[3] == S3(x, y) % TWO56
    && r[4] == S4(x, y)
  }

  lemma SumValue(x: Limbs, y: Limbs, r: Limbs)
    requires Proper(x) && Proper(y) && Value(x) < L && Value(y) < L && IsSum(x, y, r)
    ensures Proper(r) && Value(r) == Value(x) + Value(y)
  {
    hide Val5, Carry, Value;
    ValueOf(x);
    ValueOf(y);
    ValueOf(r);
    TopLimbSmall(x);
    TopLimbSmall(y);
    Digit(S0(x, y)); Digit(S1(x, y)); Digit(S2(x, y)); Digit(S3(x, y));
    CarryBound(S0(x, y)); CarryBound(S1(x, y)); CarryBound(S2(x, y)); CarryBound(S3(x, y));
    SumOf(x[0], x[1], x[2], x[3], x[4], y[0], y[1], y[2], y[3], y[4]);
    SumChain(x[0] + y[0], x[1] + y[1], x[2] + y[2], x[3] + y[3], x[4] + y[4],
             Carry(S0(x, y)), Carry(S1(x, y)), Carry(S2(x, y)), Carry(S3(x, y)), r[0], r[1], r[2], r[3], r[4]);
  }

  /** r := x + y, carried; r may be either operand. */
  method AddLimbs(r: array<u64>, x: array<u64>, y: array<u64>)
    requires r.Length == 5 && x.Length == 5 && y.Length == 5
    requires Proper(x[..]) && Proper(y[..])
    modifies r
    ensures IsSum(old(x[..]), old(y[..]), r[..])
  {
    hide Carry;
    var c: u64 := x[0] + y[0];
    var f;
    r[0], f := SplitSum(c);
    c := x[1] + y[1] + f;
    r[1], f := SplitSum(c);
    c := x[2] + y[2] + f;
    r[2], f := SplitSum(c);
    c := x[3] + y[3] + f;
    r[3], f := SplitSum(c);
    c := x[4] + y[4] + f;
    r[4] := c;
  }

  /** r := x + y mod L for reduced x and y; r may be either operand. */
  method Add256(r: array<u64>, x: array<u64>, y: array<u64>)
    requires r.Length == 5 && x.Length == 5 && y.Length == 5
    requires Proper(x[..]) && Proper(y[..]) && Value(x[..]) < L && Value(y[..]) < L
    modifies r
    ensures Proper(r[..]) && Value(r[..]) == old((Value(x[..]) + Value(y[..])) % L)
  {
    hide Value, IsSum;
    ghost var a, b := x[..], y[..];
    AddLimbs(r, x, y);
    SumValue(a, b, r[..]);
    ghost var total := Value(r[..]);
    Reduce256(r);
    ModOrder(total, if total < L then 0 else 1, Value(r[..]));
  }

  lemma TopLimbSmall(a: Limbs)
    requires Value(a) < L
    ensures a[4] <= M4
  {
  }

  /** c & 0xffffffffffffff and c >> 56 */
  method SplitSum(c: u64) returns (lo: u64, f: u64)
    requires c < TWO60
    ensures lo == c % TWO56 && f == Carry(c) < 16
  {
    lo := Mask56(c);
    f := c / TWO56;
  }

  lemma SumChain(e0: int, e1: int, e2: int, e3: int, e4: int, f0: int, f1: int, f2: int, f3: int, r0: int, r1: int,
      r2: int, r3: int, r4: int)
    requires e0 == f0 * TWO56 + r0 && e1 + f0 == f1 * TWO56 + r1 && e2 + f1 == f2 * TWO56 + r2
    requires e3 + f2 == f3 * TWO56 + r3 && e4 + f3 == r4
    ensures Val5(e0, e1, e2, e3, e4) == Val5(r0, r1, r2, r3, r4)
  {
  }

  lemma SumOf(a0: int, a1: int, a2: int, a3: int, a4: int, b0: int, b1: int, b2: int, b3: int, b4: int)
    ensures Val5(a0 + b0, a1 + b1, a2 + b2, a3 + b3, a4 + b4) == Val5(a0, a1, a2, a3, a4) + Val5(b0, b1, b2, b3, b4)
  {
  }

  // the columns of x * y, without and with the carry from the one below
  function P0(x: Limbs, y: Limbs): nat { Mul64(x[0], y[0]) }
  function P1(x: Limbs, y: Limbs): nat { Mul64(x[0], y[1]) + Mul64(x[1], y[0]) }
  function P2(x: Limbs, y: Limbs): nat { Mul64(x[0], y[2]) + Mul64(x[2], y[0]) + Mul64(x[1], y[1]) }
  function P3(x: Limbs, y: Limbs): nat { Mul64(x[0], y[3]) + Mul64(x[3], y[0]) + Mul64(x[1], y[2]) + Mul64(x[2], y[1]) }
  function P4(x: Limbs, y: Limbs): nat { Mul64(x[0], y[4]) + Mul64(x[4], y[0]) + Mul64(x[3], y[1]) +
      Mul64(x[1], y[3]) + Mul64(x[2], y[2]) }
  function P5(x: Limbs, y: Limbs): nat { Mul64(x[4], y[1]) + Mul64(x[1], y[4]) + Mul64(x[2], y[3]) + Mul64(x[3], y[2]) }
  function P6(x: Limbs, y: Limbs): nat { Mul64(x[4], y[2]) + Mul64(x[2], y[4]) + Mul64(x[3], y[3]) }
  function P7(x: Limbs, y: Limbs): nat { Mul64(x[4], y[3]) + Mul64(x[3], y[4]) }
  function P8(x: Limbs, y: Limbs): nat { Mul64(x[4], y[4]) }
  function G1(x: Limbs, y: Limbs): nat { P1(x, y) + Carry(P0(x, y)) }
  function G2(x: Limbs, y: Limbs): nat { P2(x, y) + Carry(G1(x, y)) }
  function G3(x: Limbs, y: Limbs): nat { P3(x, y) + Carry(G2(x, y)) }
  function G4(x: Limbs, y: Limbs): nat { P4(x, y) + Carry(G3(x, y)) }
  function G5(x: Limbs, y: Limbs): nat { P5(x, y) + Carry(G4(x, y)) }
  function G6(x: Limbs, y: Limbs): nat { P6(x, y) + Carry(G5(x, y)) }
  function G7(x: Limbs, y: Limbs): nat { P7(x, y) + Carry(G6(x, y)) }
  function G8(x: Limbs, y: Limbs): nat { P8(x, y) + Carry(G7(x, y)) }

  lemma {:induction false} Scale(a: int, y0: int, y1: int, y2: int, y3: int, y4: int)
    ensures a * Val5(y0, y1, y2, y3, y4) == Val5(a * y0, a * y1, a * y2, a * y3, a * y4)
  {
    Distribute(a, y0, y1 * R1, y2 * R2, y3 * R3, y4 * R4);
    Associate(a, y1, R1);
    Associate(a, y2, R2);
    Associate(a, y3, R3);
    Associate(a, y4, R4);
  }

  lemma TwentyFive(p00: int, p01: int, p02: int, p03: int, p04: int, p10: int, p11: int, p12: int, p13: int, p14: int,
      p20: int, p21: int, p22: int, p23: int, p24: int, p30: int, p31: int, p32: int, p33: int, p34: int, p40: int,
      p41: int, p42: int, p43: int, p44: int)
    ensures Val5(Val5(p00, p01, p02, p03, p04), Val5(p10, p11, p12, p13, p14), Val5(p20, p21, p22, p23, p24),
                 Val5(p30, p31, p32, p33, p34), Val5(p40, p41, p42, p43, p44)) ==
      Val5(p00, p01 + p10, p02 + p11 + p20, p03 + p12 + p21 + p30, p04 + p13 + p22 + p31 + p40)
      + Val5(p14 + p23 + p32 + p41, p24 + p33 + p42, p34 + p43, p44, 0) * R5
  {
  }

  lemma ProductOf(x: Limbs, y: Limbs)
    ensures Value(x) * Value(y) ==
      Val5(P0(x, y), P1(x, y), P2(x, y), P3(x, y), P4(x, y)) + Val5(P5(x, y), P6(x, y), P7(x, y), P8(x, y), 0) * R5
  {
    hide Val5, Value;
    ValueOf(x);
    ValueOf(y);
    var v := Value(y);
    Scale(v, x[0], x[1], x[2], x[3], x[4]);
    Scale(x[0], y[0], y[1], y[2], y[3], y[4]);
    Scale(x[1], y[0], y[1], y[2], y[3], y[4]);
    Scale(x[2], y[0], y[1], y[2], y[3], y[4]);
    Scale(x[3], y[0], y[1], y[2], y[3], y[4]);
    Scale(x[4], y[0], y[1], y[2], y[3], y[4]);
    TwentyFive(Mul64(x[0], y[0]), Mul64(x[0], y[1]), Mul64(x[0], y[2]), Mul64(x[0], y[3]), Mul64(x[0], y[4]),
        Mul64(x[1], y[0]), Mul64(x[1], y[1]), Mul64(x[1], y[2]), Mul64(x[1], y[3]), Mul64(x[1], y[4]),
        Mul64(x[2], y[0]), Mul64(x[2], y[1]), Mul64(x[2], y[2]), Mul64(x[2], y[3]), Mul64(x[2], y[4]),
        Mul64(x[3], y[0]), Mul64(x[3], y[1]), Mul64(x[3], y[2]), Mul64(x[3], y[3]), Mul64(x[3], y[4]),
        Mul64(x[4], y[0]), Mul64(x[4], y[1]), Mul64(x[4], y[2]), Mul64(x[4], y[3]), Mul64(x[4], y[4]));
  }

  /** The digits of x * y: its low 264 bits in r1, its bits from 248 up in q1. */
  ghost predicate IsWide(x: Limbs, y: Limbs, q1: Limbs, r1: Limbs) {
    && r1[0] == P0(x, y) % TWO56 && r1[1] == G1(x, y) % TWO56 && r1[2] == G2(x, y) % TWO56 && r1[3] == G3(x, y) % TWO56
    && r1[4] == G4(x, y) % TWO40
    && q1[0] == Bits24To55(G4(x, y)) + Shl32(Bits0To23(G5(x, y)))
    && q1[1] == Bits24To55(G5(x, y)) + Shl32(Bits0To23(G6(x, y)))
    && q1[2] == Bits24To55(G6(x, y)) + Shl32(Bits0To23(G7(x, y)))
    && q1[3] == Bits24To55(G7(x, y)) + Shl32(Bits0To23(G8(x, y)))
    && q1[4] == Bits24To55(G8(x, y)) + Shl32(Carry(G8(x, y)))
  }

  lemma Columns112(x: Limbs, y: Limbs)
    requires Proper(x) && Proper(y)
    ensures P0(x, y) < TWO115 && P1(x, y) < TWO115 && P2(x, y) < TWO115 && P3(x, y) < TWO115 && P4(x, y) < TWO115
    ensures P5(x, y) < TWO115 && P6(x, y) < TWO115 && P7(x, y) < TWO115 && P8(x, y) < TWO115
  {
    hide Mul64;
    forall i, j | 0 <= i < 5 && 0 <= j < 5
      ensures Mul64(x[i], y[j]) <= 0xff_ffff_ffff_ffff * 0xff_ffff_ffff_ffff
    {
      Mul64Bound(x[i], y[j], 0xff_ffff_ffff_ffff, 0xff_ffff_ffff_ffff);
    }
  }

  lemma TopColumn(x: Limbs, y: Limbs)
    requires x[4] < TWO32 && y[4] < TWO32
    ensures P8(x, y) <= TWO64
  {
    Mul64Bound(x[4], y[4], TWO32, TWO32);
  }

  lemma WideBounds(x: Limbs, y: Limbs)
    requires Proper(x) && Proper(y) && x[4] < TWO32 && y[4] < TWO32
    ensures P0(x, y) < TWO116 && G1(x, y) < TWO116 && G2(x, y) < TWO116 && G3(x, y) < TWO116 && G4(x, y) < TWO116
    ensures G5(x, y) < TWO116 && G6(x, y) < TWO116 && G7(x, y) < TWO116 && G8(x, y) < TWO80
  {
    hide Carry, P0, P1, P2, P3, P4, P5, P6, P7, P8;
    Columns112(x, y);
    TopColumn(x, y);
    CarryBound(P0(x, y));
    CarryBound(G1(x, y));
    CarryBound(G2(x, y));
    CarryBound(G3(x, y));
    CarryBound(G4(x, y));
    CarryBound(G5(x, y));
    CarryBound(G6(x, y));
    CarryBound(G7(x, y));
  }

  lemma WideLow(x: Limbs, y: Limbs, q1: Limbs, r1: Limbs) returns (k: int)
    requires IsWide(x, y, q1, r1)
    ensures Proper(r1) && r1[4] < TWO40 && Value(x) * Value(y) == Value(r1) + k * TWO264
  {
    hide P0, P1, P2, P3, P4, P5, P6, P7, P8, Carry, Val5, Value, G5, G6, G7, G8, Bits24To55, Bits0To23, Shl32;
    Digit(P0(x, y)); Digit(G1(x, y)); Digit(G2(x, y)); Digit(G3(x, y)); Digit(G4(x, y));
    ProductOf(x, y);
    ValueOf(r1);
    CarryChain(P0(x, y), P1(x, y), P2(x, y), P3(x, y), P4(x, y), Carry(P0(x, y)), Carry(G1(x, y)), Carry(G2(x, y)),
        Carry(G3(x, y)),
               G4(x, y) / TWO40, r1[0], r1[1], r1[2], r1[3], r1[4]);
    var high := Val5(P5(x, y), P6(x, y), P7(x, y), P8(x, y), 0);
    k := G4(x, y) / TWO40 + high * TWO16;
    TopColumns(Value(x) * Value(y), Value(r1), G4(x, y) / TWO40, high, k);
  }

  lemma LowChain(e0: int, e1: int, e2: int, e3: int, e4: int, high: int, f0: int, f1: int, f2: int, f3: int, r0: int,
      r1: int, r2: int, r3: int)
    requires e0 == f0 * TWO56 + r0 && e1 + f0 == f1 * TWO56 + r1 && e2 + f1 == f2 * TWO56 + r2 &&
        e3 + f2 == f3 * TWO56 + r3
    ensures Val5(e0, e1, e2, e3, e4) + high * R5 == Val5(r0, r1, r2, r3, 0) + (e4 + f3 + high * R1) * R4
  {
  }

  lemma Unshift(e4: int, c5: int, c6: int, c7: int, c8: int)
    ensures e4 + Val5(c5, c6, c7, c8, 0) * R1 == Val5(e4, c5, c6, c7, c8)
  {
  }

  lemma Shift24(c4: int, c5: int, c6: int, c7: int, c8: int, f4: int, f5: int, f6: int, f7: int, top: int,
                h4: int, h5: int, h6: int, h7: int, h8: int, a4: int, a5: int, a6: int, a7: int, a8: int)
    requires c4 == f4 * TWO56 + h4 * TWO24 + a4
    requires c5 + f4 == f5 * TWO56 + h5 * TWO24 + a5
    requires c6 + f5 == f6 * TWO56 + h6 * TWO24 + a6
    requires c7 + f6 == f7 * TWO56 + h7 * TWO24 + a7
    requires c8 + f7 == top * TWO56 + h8 * TWO24 + a8
    ensures Val5(c4, c5, c6, c7, c8) ==
      TWO24 * Val5(h4 + a5 * TWO32, h5 + a6 * TWO32, h6 + a7 * TWO32, h7 + a8 * TWO32, h8 + top * TWO32) + a4
  {
  }

  /** Columns 4 and up, the carry into column 4 included. */
  ghost function Upper(x: Limbs, y: Limbs): nat {
    Val5(G4(x, y), P5(x, y), P6(x, y), P7(x, y), P8(x, y))
  }

  lemma UpperShift(x: Limbs, y: Limbs, q1: Limbs, r1: Limbs)
    requires IsWide(x, y, q1, r1)
    ensures Upper(x, y) == TWO24 * Value(q1) + Bits0To23(G4(x, y))
  {
    hide Carry, Bits40To55, Bits0To39, Bits24To55, Bits0To23, P0, P1, P2, P3, P4, P5, P6, P7, P8, G1, G2, G3, G4, Value;
    var c4, c5, c6, c7, c8 := G4(x, y), G5(x, y), G6(x, y), G7(x, y), G8(x, y);
    Parts(c4); Parts(c5); Parts(c6); Parts(c7); Parts(c8);
    ValueOf(q1);
    Shift24(c4, P5(x, y), P6(x, y), P7(x, y), P8(x, y), Carry(c4), Carry(c5), Carry(c6), Carry(c7), Carry(c8),
            Bits24To55(c4), Bits24To55(c5), Bits24To55(c6), Bits24To55(c7), Bits24To55(c8),
            Bits0To23(c4), Bits0To23(c5), Bits0To23(c6), Bits0To23(c7), Bits0To23(c8));
  }

  lemma UpperValue(x: Limbs, y: Limbs)
    ensures Value(x) * Value(y) ==
      Val5(P0(x, y) % TWO56, G1(x, y) % TWO56, G2(x, y) % TWO56, G3(x, y) % TWO56, 0) + Upper(x, y) * R4
  {
    hide P0, P1, P2, P3, P4, P5, P6, P7, P8, Carry, Val5, Value;
    ProductOf(x, y);
    Digit(P0(x, y)); Digit(G1(x, y)); Digit(G2(x, y)); Digit(G3(x, y));
    var high := Val5(P5(x, y), P6(x, y), P7(x, y), P8(x, y), 0);
    LowChain(P0(x, y), P1(x, y), P2(x, y), P3(x, y), P4(x, y), high, Carry(P0(x, y)), Carry(G1(x, y)), Carry(G2(x, y)),
        Carry(G3(x, y)),
             P0(x, y) % TWO56, G1(x, y) % TWO56, G2(x, y) % TWO56, G3(x, y) % TWO56);
    Unshift(G4(x, y), P5(x, y), P6(x, y), P7(x, y), P8(x, y));
  }

  lemma WideHigh(x: Limbs, y: Limbs, q1: Limbs, r1: Limbs)
    requires IsWide(x, y, q1, r1)
    ensures Value(q1) * TWO248 <= Value(x) * Value(y) < Value(q1) * TWO248 + TWO248
  {
    hide *;
    UpperValue(x, y);
    UpperShift(x, y, q1, r1);
    Parts(G4(x, y));
    Digit(P0(x, y)); Digit(G1(x, y)); Digit(G2(x, y)); Digit(G3(x, y));
    LowPart(P0(x, y) % TWO56, G1(x, y) % TWO56, G2(x, y) % TWO56, G3(x, y) % TWO56, Bits0To23(G4(x, y)));
    Combine24(Value(x) * Value(y), Val5(P0(x, y) % TWO56, G1(x, y) % TWO56, G2(x, y) % TWO56, G3(x, y) % TWO56, 0),
              Upper(x, y), Value(q1), Bits0To23(G4(x, y)));
  }

  lemma LowPart(d0: int, d1: int, d2: int, d3: int, a: int)
    requires 0 <= d0 < TWO56 && 0 <= d1 < TWO56 && 0 <= d2 < TWO56 && 0 <= d3 < TWO56 && 0 <= a < TWO24
    ensures 0 <= Val5(d0, d1, d2, d3, 0) + a * R4 < TWO248
  {
  }

  lemma Combine24(x: int, low: int, upper: int, q: int, a: int)
    requires x == low + upper * R4 && upper == TWO24 * q + a && 0 <= low + a * R4 < TWO248
    ensures q * TWO248 <= x < q * TWO248 + TWO248
  {
  }

  lemma WideSplits(x: Limbs, y: Limbs, q1: Limbs, r1: Limbs)
    requires IsWide(x, y, q1, r1) && Proper(q1) && Value(x) * Value(y) < TWO512
    ensures Splits(Value(x) * Value(y), q1, r1)
  {
    hide Value, IsWide;
    WideHigh(x, y, q1, r1);
    var k := WideLow(x, y, q1, r1);
    Below264(r1);
    TopLimb40(q1, Value(x) * Value(y));
    DivModUnique(Value(x) * Value(y), TWO264, k, Value(r1));
  }

  lemma Below264(r: Limbs)
    requires Proper(r) && r[4] < TWO40
    ensures Value(r) < TWO264
  {
  }

  lemma TopLimb40(q: Limbs, x: int)
    requires Value(q) * TWO248 <= x < TWO512
    ensures q[4] < TWO40
  {
    assert Value(q) >= q[4] * R4;
  }

  /** r := x * y mod L for x and y below 2^256; r may be either operand. */
  method Mul256(r: array<u64>, x: array<u64>, y: array<u64>)
    requires r.Length == 5 && x.Length == 5 && y.Length == 5
    requires Proper(x[..]) && Proper(y[..]) && x[4] < TWO32 && y[4] < TWO32
    modifies r
    ensures Proper(r[..]) && Value(r[..]) == old((Value(x[..]) * Value(y[..])) % L)
  {
    hide Value, IsWide, Splits, P0, G1, G2, G3, G4, G5, G6, G7, G8;
    WideBounds(x[..], y[..]);
    SquareBound(x[..], y[..]);
    var q1s, r1s := Wide(x[..], y[..]);
    var q1 := new u64[5](i requires 0 <= i < 5 => q1s[i]);
    var r1 := new u64[5](i requires 0 <= i < 5 => r1s[i]);
    assert q1[..] == q1s && r1[..] == r1s;
    WideSplits(x[..], y[..], q1s, r1s);
    Barrett(r, q1, r1, Value(x[..]) * Value(y[..]));
  }

  lemma SquareBound(x: Limbs, y: Limbs)
    requires Proper(x) && Proper(y) && x[4] < TWO32 && y[4] < TWO32
    ensures Value(x) * Value(y) < TWO512
  {
    hide Value;
    Below256(x);
    Below256(y);
    MulLess(Value(x), Value(y), TWO256);
  }

  lemma Below256(x: Limbs)
    requires Proper(x) && x[4] < TWO32
    ensures Value(x) < TWO256
  {
  }

  lemma MulLess(a: nat, b: nat, m: nat)
    requires a < m && b < m
    ensures a * b < m * m
  {
    assert a * b <= a * m;
    assert a * m < m * m;
  }

  /** The 512-bit product of x and y, cut at bits 248 and 264. */
  method Wide(x: Limbs, y: Limbs) returns (q1: Limbs, r1: Limbs)
    requires P0(x, y) < TWO116 && G1(x, y) < TWO116 && G2(x, y) < TWO116 && G3(x, y) < TWO116 && G4(x, y) < TWO116
    requires G5(x, y) < TWO116 && G6(x, y) < TWO116 && G7(x, y) < TWO116 && G8(x, y) < TWO80
    ensures Proper(q1) && IsWide(x, y, q1, r1)
  {
    hide Carry, Bits24To55, Bits0To23, Shl32, P0, P1, P2, P3, P4, P5, P6, P7, P8;
    var a0, f := Split56(P0(x, y));
    var a1, a2, a3, h, q0, q1', q2, q3;
    var c := P1(x, y) + f;
    a1, f := Split56(c);
    c := P2(x, y) + f;
    a2, f := Split56(c);
    c := P3(x, y) + f;
    a3, f := Split56(c);
    c := P4(x, y) + f;
    assert c == G4(x, y);
    var a4 := Low40(c);
    q0, h, f := Step24(c, 0);
    c := P5(x, y) + f;
    assert c == G5(x, y);
    q0, h, f := Step24(c, h);
    c := P6(x, y) + f;
    assert c == G6(x, y);
    q1', h, f := Step24(c, h);
    c := P7(x, y) + f;
    assert c == G7(x, y);
    q2, h, f := Step24(c, h);
    c := P8(x, y) + f;
    assert c == G8(x, y);
    q3, h, f := Step24(c, h);
    FitsShl32(f);
    var q4 := Join32(h, Shl32(f), f);
    r1 := [a0, a1, a2, a3, a4];
    q1 := [q0, q1', q2, q3, q4];
  }

  lemma FitsShl32(f: nat)
    ensures f < TWO24 ==> Shl32(f) < TWO56
  {
  }

  /** Complete the limb below with the low 24 bits of a column, keep the 32 above, carry the rest. */
  method Step24(c: nat, below: u64) returns (limb: u64, h: u64, f: u64)
    requires c < TWO116 && below < TWO32
    ensures limb == below + Shl32(Bits0To23(c)) && limb < TWO56
    ensures h == Bits24To55(c) < TWO32 && f == Carry(c)
    ensures c < TWO80 ==> f < TWO24
  {
    hide Carry, Bits24To55, Bits0To23, Shl32;
    var l;
    h, l, f := Cut24(c);
    limb := Join32(below, l, Bits0To23(c));
  }
}
