/**
 Field elements to and from 32 little-endian bytes.
 */
module FieldBytes {
  import opened Words
  import opened Field25519
  import opened FieldBasic
  import MB = ModmBytes

  const S12: int := 0x1000
  const S13: int := 0x2000
  const S25: int := 0x200_0000
  const S26: int := 0x400_0000
  const S38: int := 0x40_0000_0000
  const S39: int := 0x80_0000_0000
  const MASK51: int := 0x7_ffff_ffff_ffff

  lemma Shifts()
    ensures Pow2(12) == S12 && Pow2(13) == S13 && Pow2(25) == S25 && Pow2(26) == S26 && Pow2(38) == S38 &&
        Pow2(39) == S39 && Pow2(51) == B1
  {
    Pow2Values();
    assert Pow2(4) == 16 && Pow2(5) == 32;
    Pow2Add(4, 8);
    Pow2Add(5, 8);
    Pow2Add(12, 13);
    Pow2Add(13, 13);
    Pow2Add(12, 26);
    Pow2Add(13, 26);
  }

  /** The limbs of the low 255 bits of four words. */
  ghost predicate IsExpanded(x0: u64, x1: u64, x2: u64, x3: u64, out: Fe) {
    && out[0] == x0 % B1
    && out[1] == x0 / B1 + S13 * (x1 % S38)
    && out[2] == x1 / S38 + S26 * (x2 % S25)
    && out[3] == x2 / S25 + S39 * (x3 % S12)
    && out[4] == (x3 / S12) % B1
  }

  lemma Cuts(x: nat)
    ensures x == (x / B1) * B1 + x % B1 && x % B1 < B1
    ensures x == (x / S38) * S38 + x % S38 && x % S38 < S38
    ensures x == (x / S25) * S25 + x % S25 && x % S25 < S25
    ensures x == (x / S12) * S12 + x % S12 && x % S12 < S12
    ensures x < TWO64 ==> x / B1 < S13 && x / S38 < S26 && x / S25 < S39 && x / S12 < 0x10_0000_0000_0000
  {
  }

  lemma ExpandLimbs(x0: int, x1: int, x2: int, x3: int, a0: int, b0: int, a1: int, b1: int, a2: int, b2: int, a3: int,
      b3: int, a4: int, top: int)
    requires x0 == b0 * B1 + a0 && x1 == b1 * S38 + a1 && x2 == b2 * S25 + a2 && x3 == b3 * S12 + a3 &&
        b3 == top * B1 + a4
    requires x0 >= 0 && x1 >= 0 && x2 >= 0 && x3 >= 0
    ensures MB.Up(x0, MB.Up(x1, MB.Up(x2, x3))) == Val51(a0, b0 + S13 * a1, b1 + S26 * a2, b2 + S39 * a3, a4) +
        top * TWO255
  {
  }

  lemma ExpandValue(x0: u64, x1: u64, x2: u64, x3: u64, out: Fe)
    requires IsExpanded(x0, x1, x2, x3, out)
    ensures Below(out, B1) && Val(out) == MB.Up(x0, MB.Up(x1, MB.Up(x2, x3))) % TWO255
  {
    hide Val51, Val, MB.Up;
    Cuts(x0); Cuts(x1); Cuts(x2); Cuts(x3); Cuts(x3 / S12);
    var top := x3 / S12 / B1;
    ExpandLimbs(x0, x1, x2, x3, x0 % B1, x0 / B1, x1 % S38, x1 / S38, x2 % S25, x2 / S25, x3 % S12, x3 / S12,
        (x3 / S12) % B1, top);
    ValIs(out);
    Below255(out);
    DivModUnique(MB.Up(x0, MB.Up(x1, MB.Up(x2, x3))), TWO255, top, Val(out));
  }

  lemma Below255(out: Fe)
    requires Below(out, B1)
    ensures 0 <= Val(out) < TWO255
  {
  }

  /** The field element in 32 little-endian bytes; bit 255 is ignored. */
  method Expand(input: seq<byte>) returns (out: Fe)
    requires |input| == 32
    ensures Below(out, B1) && Val(out) == MB.LE(input) % TWO255
  {
    hide Pow2, MB.LE, MB.Load64, IsExpanded, Val, MB.Up;
    var x0, x1, x2, x3 := MB.Load64(input[0..8]), MB.Load64(input[8..16]), MB.Load64(input[16..24]),
        MB.Load64(input[24..32]);
    FourLoads(input);
    out := ExpandWords(x0, x1, x2, x3);
    ExpandValue(x0, x1, x2, x3, out);
  }

  lemma FourLoads(input: seq<byte>)
    requires |input| == 32
    ensures MB.LE(input) == MB.Up(MB.Load64(input[0..8]),
        MB.Up(MB.Load64(input[8..16]), MB.Up(MB.Load64(input[16..24]), MB.Load64(input[24..32]))))
  {
    hide MB.LE, MB.Load64;
    MB.FourFrom(input, 0);
    MB.LEZeros([]);
    assert input[0..] == input && input[32..] == [];
  }

  method ExpandWords(x0: u64, x1: u64, x2: u64, x3: u64) returns (out: Fe)
    ensures IsExpanded(x0, x1, x2, x3, out)
  {
    hide Pow2;
    Shifts();
    var r0 := LowBits(x0, 51, MASK51);
    var r1 := MB.Funnel(x0, x1, 51, 13, S13, B1, S38, S13, MASK51);
    var r2 := MB.Funnel(x1, x2, 51, 26, S26, S38, S25, S13, MASK51);
    var r3 := MB.Funnel(x2, x3, 51, 39, S39, S25, S12, S13, MASK51);
    var r4 := LowBits(x3 / S12, 51, MASK51);
    out := [r0, r1, r2, r3, r4];
  }

  // ---- contraction ----

  lemma PassSum(a0: int, a1: int, a2: int, a3: int, a4: int, h0: int, h1: int, h2: int, h3: int, c: int, l0: int,
      l1: int, l2: int, l3: int, l4: int)
    requires a0 == h0 * B1 + l0 && a1 + h0 == h1 * B1 + l1 && a2 + h1 == h2 * B1 + l2 && a3 + h2 == h3 * B1 + l3 &&
        a4 + h3 == c * B1 + l4
    ensures Val51(a0, a1, a2, a3, a4) == Val51(l0, l1, l2, l3, l4) + c * TWO255
  {
  }

  lemma LowLimb(l0: int, l1: int, l2: int, l3: int, l4: int)
    requires 0 <= l0 < B1 && 0 <= l1 < B1 && 0 <= l2 < B1 && 0 <= l3 < B1 && 0 <= l4 < B1
    ensures l0 <= Val51(l0, l1, l2, l3, l4) < TWO255
    ensures Val51(l0, l1, l2, l3, l4) >= 0
  {
  }

  /** A full carry pass over a number less than 2^255 + 2^50: proper limbs, and p taken off when bit 255 was set. */
  lemma PassOnce(a: Fe, out: Fe)
    requires Folded(a[0], a[1], a[2], a[3], a[4], out) && Below(a, TWO54) && Val(a) < TWO255 + 0x4_0000_0000_0000
    ensures Below(out, B1) && Val(out) == if Val(a) < TWO255 then Val(a) else Val(a) - P
  {
    hide Lo, Hi, Val51, Val;
    var b1 := a[1] + Hi(a[0]);
    var b2 := a[2] + Hi(b1);
    var b3 := a[3] + Hi(b2);
    var b4 := a[4] + Hi(b3);
    var c := Hi(b4);
    LoHi(a[0]); LoHi(b1); LoHi(b2); LoHi(b3); LoHi(b4);
    PassSum(a[0], a[1], a[2], a[3], a[4], Hi(a[0]), Hi(b1), Hi(b2), Hi(b3), c, Lo(a[0]), Lo(b1), Lo(b2), Lo(b3),
        Lo(b4));
    LowLimb(Lo(a[0]), Lo(b1), Lo(b2), Lo(b3), Lo(b4));
    ValIs(a);
    ValIs(out);
    OneBit(Val(a), Val51(Lo(a[0]), Lo(b1), Lo(b2), Lo(b3), Lo(b4)), c);
    AddLow(Lo(a[0]), Lo(b1), Lo(b2), Lo(b3), Lo(b4), 19 * c);
  }

  lemma OneBit(v: int, low: int, c: int)
    requires v == low + c * TWO255 && 0 <= low < TWO255 && 0 <= v < TWO255 + 0x4_0000_0000_0000 && c >= 0
    ensures c == (if v < TWO255 then 0 else 1) && (c == 1 ==> low < 0x4_0000_0000_0000)
  {
  }

  lemma AddLow(l0: int, l1: int, l2: int, l3: int, l4: int, d: int)
    ensures Val51(l0 + d, l1, l2, l3, l4) == Val51(l0, l1, l2, l3, l4) + d
  {
  }

  /** The first pass brings any number with limbs below 2^54 under 2^255 + 2^50. */
  lemma PassWide(a: Fe, out: Fe)
    requires Folded(a[0], a[1], a[2], a[3], a[4], out) && Below(a, TWO54)
    ensures Below(out, TIGHT) && F(out) == F(a) && Val(out) < TWO255 + 0x4_0000_0000_0000
  {
    hide Val51, Val;
    var k := FoldedValue(a[0], a[1], a[2], a[3], a[4], out);
    ValIs(a);
    ModIs(Val(a), k, Val(out));
    TightUpper(a, out);
  }

  lemma TightUpper(a: Fe, out: Fe)
    requires Folded(a[0], a[1], a[2], a[3], a[4], out) && Below(out, TIGHT)
    ensures Val(out) < TWO255 + 0x4_0000_0000_0000
  {
    hide Hi, Lo;
    var b1 := a[1] + Hi(a[0]);
    var b2 := a[2] + Hi(b1);
    var b3 := a[3] + Hi(b2);
    var b4 := a[4] + Hi(b3);
    LoHi(b1); LoHi(b2); LoHi(b3); LoHi(b4);
  }

  /** contract_carry_full */
  method CarryFull(t: Fe) returns (r: Fe)
    requires Below(t, TWO54)
    ensures Folded(t[0], t[1], t[2], t[3], t[4], r)
  {
    hide Folded;
    r := CarryWords(t[0], t[1], t[2], t[3], t[4]);
  }

  /** contract_carry_final after the offset by 2^255: bit 255 is masked off. */
  ghost predicate FinalPass(a: Fe, out: Fe) {
    var b1 := a[1] + Hi(a[0]);
    var b2 := a[2] + Hi(b1);
    var b3 := a[3] + Hi(b2);
    var b4 := a[4] + Hi(b3);
    out[0] == Lo(a[0]) && out[1] == Lo(b1) && out[2] == Lo(b2) && out[3] == Lo(b3) && out[4] == Lo(b4)
  }

  lemma FinalValue(a: Fe, out: Fe)
    requires FinalPass(a, out) && TWO255 <= Val(a) < 2 * TWO255
    ensures Below(out, B1) && Val(out) == Val(a) - TWO255
  {
    hide Lo, Hi, Val51, Val;
    var b1 := a[1] + Hi(a[0]);
    var b2 := a[2] + Hi(b1);
    var b3 := a[3] + Hi(b2);
    var b4 := a[4] + Hi(b3);
    LoHi(a[0]); LoHi(b1); LoHi(b2); LoHi(b3); LoHi(b4);
    PassSum(a[0], a[1], a[2], a[3], a[4], Hi(a[0]), Hi(b1), Hi(b2), Hi(b3), Hi(b4), Lo(a[0]), Lo(b1), Lo(b2), Lo(b3),
        Lo(b4));
    LowLimb(Lo(a[0]), Lo(b1), Lo(b2), Lo(b3), Lo(b4));
    ValIs(a);
    ValIs(out);
    TopOne(Val(a), Val(out), Hi(b4));
  }

  lemma TopOne(v: int, low: int, c: int)
    requires v == low + c * TWO255 && 0 <= low < TWO255 && TWO255 <= v < 2 * TWO255
    ensures low == v - TWO255
  {
  }

  method CarryFinal(t: Fe) returns (r: Fe)
    requires Below(t, TWO54)
    ensures FinalPass(t, r)
  {
    hide Lo, Hi;
    var r0, c := Limb(t[0]);
    var r1, r2, r3, r4;
    r1, c := Limb(t[1] + c);
    r2, c := Limb(t[2] + c);
    r3, c := Limb(t[3] + c);
    r4, c := Limb(t[4] + c);
    r := [r0, r1, r2, r3, r4];
  }

  /** The fully reduced limbs: the representative in [0, p). */
  method Canonical(input: Fe) returns (t: Fe)
    requires Below(input, TWO54)
    ensures Below(t, B1) && Val(t) == F(input)
  {
    hide Val, F, Folded, FinalPass;
    t := CarryFull(input);
    PassWide(input, t);
    ghost var t1 := t;
    t := CarryFull(t);
    PassOnce(t1, t);
    SamePass(t1, t);
    ghost var t2 := t;
    t := [t[0] + 19, t[1], t[2], t[3], t[4]];
    ghost var t3 := t;
    PlusNineteen(t2, t3);
    t := CarryFull(t);
    PassOnce(t3, t);
    ghost var t4 := t;
    t := [t[0] + 0x7_ffff_ffff_ffed, t[1] + 0x7_ffff_ffff_ffff, t[2] + 0x7_ffff_ffff_ffff, t[3] + 0x7_ffff_ffff_ffff,
        t[4] + 0x7_ffff_ffff_ffff];
    ghost var t5 := t;
    Offset(t4, t5);
    Reduced(t2, Val(t4));
    t := CarryFinal(t);
    FinalValue(t5, t);
  }

  lemma SamePass(a: Fe, out: Fe)
    requires Val(out) == if Val(a) < TWO255 then Val(a) else Val(a) - P
    ensures F(out) == F(a)
  {
    hide Val;
    ModIs(Val(a), if Val(a) < TWO255 then 0 else 1, Val(out));
  }

  lemma PlusNineteen(a: Fe, b: Fe)
    requires Below(a, B1) && b == [a[0] + 19, a[1], a[2], a[3], a[4]]
    ensures Val(b) == Val(a) + 19 < TWO255 + 0x4_0000_0000_0000
  {
    Below255(a);
  }

  /** v + 19, with p taken off when it reaches 2^255, is v mod p + 19. */
  lemma Reduced(a: Fe, w: int)
    requires Val(a) < TWO255 && w == (if Val(a) + 19 < TWO255 then Val(a) + 19 else Val(a) + 19 - P)
    ensures w == F(a) + 19 && 19 <= w < TWO255
  {
    hide Val;
    DivModUnique(Val(a), P, if Val(a) < P then 0 else 1, w - 19);
  }

  lemma Offset(a: Fe, b: Fe)
    requires Below(a, B1) &&
        b == [a[0] + 0x7_ffff_ffff_ffed, a[1] + 0x7_ffff_ffff_ffff, a[2] + 0x7_ffff_ffff_ffff,
        a[3] + 0x7_ffff_ffff_ffff, a[4] + 0x7_ffff_ffff_ffff]
    ensures Val(b) == Val(a) + TWO255 - 19
  {
  }

  lemma ContractWords(t0: int, t1: int, t2: int, t3: int, t4: int, a1: int, b1: int, a2: int, b2: int, a3: int, b3: int)
    requires t1 == b1 * S13 + a1 && t2 == b2 * S26 + a2 && t3 == b3 * S39 + a3
    ensures (t0 + B1 * a1) + TWO64 * ((b1 + S38 * a2) + TWO64 * ((b2 + S25 * a3) + TWO64 * (b3 + S12 * t4))) ==
        Val51(t0, t1, t2, t3, t4)
  {
  }

  /** The 32 little-endian bytes of the representative in [0, p). */
  method Contract(input: Fe) returns (bytes: seq<byte>)
    requires Below(input, TWO54)
    ensures |bytes| == 32 && MB.LE(bytes) == F(input)
  {
    hide Pow2, Val, F, MB.LE, MB.Store, MB.Up, Val51;
    var t := Canonical(input);
    Shifts();
    Pieces(t);
    var w0 := MB.Glue(t[0], t[1], 51, B1, 1, S13);
    var w1 := MB.Glue(t[1], t[2], 38, S38, S13, S26);
    var w2 := MB.Glue(t[2], t[3], 25, S25, S26, S39);
    var w3 := MB.Glue(t[3], t[4], 12, S12, S39, 0x10_0000_0000_0000);
    bytes := MB.Store(w0, 8) + MB.Store(w1, 8) + MB.Store(w2, 8) + MB.Store(w3, 8);
    MB.FourWords(w0, w1, w2, w3);
    WordsValue(t, w0, w1, w2, w3);
  }

  lemma Pieces(t: Fe)
    requires Below(t, B1)
    ensures t[0] / 1 < B1 && t[1] / S13 < S38 && t[2] / S26 < S25 && t[3] / S39 < S12
  {
  }

  lemma WordsValue(t: Fe, w0: u64, w1: u64, w2: u64, w3: u64)
    requires Below(t, B1)
    requires w0 == t[0] / 1 + B1 * (t[1] % S13) && w1 == t[1] / S13 + S38 * (t[2] % S26)
    requires w2 == t[2] / S26 + S25 * (t[3] % S39) && w3 == t[3] / S39 + S12 * (t[4] % 0x10_0000_0000_0000)
    ensures MB.Up(w0, MB.Up(w1, MB.Up(w2, w3))) == Val(t)
  {
    hide Val, Val51;
    Cuts2(t[1], t[2], t[3]);
    SmallMod(t[4], 0x10_0000_0000_0000);
    ContractWords(t[0], t[1], t[2], t[3], t[4], t[1] % S13, t[1] / S13, t[2] % S26, t[2] / S26, t[3] % S39, t[3] / S39);
    ValIs(t);
  }

  lemma Cuts2(t1: int, t2: int, t3: int)
    ensures t1 == (t1 / S13) * S13 + t1 % S13 && t2 == (t2 / S26) * S26 + t2 % S26 && t3 == (t3 / S39) * S39 + t3 % S39
  {
  }

  // ---- round trips ----

  lemma {:induction false} LEInjective(a: seq<byte>, b: seq<byte>)
    requires |a| == |b| && MB.LE(a) == MB.LE(b)
    ensures a == b
  {
    if a != [] {
      assert a[0] == b[0] && MB.LE(a[1..]) == MB.LE(b[1..]);
      LEInjective(a[1..], b[1..]);
      assert a == [a[0]] + a[1..] && b == [b[0]] + b[1..];
    }
  }

  /** Contracting the expansion of bytes that encode a number below p gives the bytes back. */
  lemma ExpandThenContract(b: seq<byte>, x: Fe, c: seq<byte>)
    requires |b| == 32 && MB.LE(b) < P && Val(x) == MB.LE(b) % TWO255
    requires |c| == 32 && MB.LE(c) == F(x)
    ensures c == b
  {
    hide Val, MB.LE;
    SmallMod(MB.LE(b), TWO255);
    SmallMod(MB.LE(b), P);
    LEInjective(c, b);
  }

  /** Expanding a contraction gives the representative in [0, p). */
  lemma ContractThenExpand(x: Fe, c: seq<byte>, y: Fe)
    requires |c| == 32 && MB.LE(c) == F(x) && Val(y) == MB.LE(c) % TWO255
    ensures Val(y) == F(x) && F(y) == F(x)
  {
    hide Val, MB.LE;
    Quot(Val(x));
    SmallMod(F(x), TWO255);
    SmallMod(F(x), P);
  }
}
