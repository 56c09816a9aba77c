/**
 Points to and from 32 bytes: packing, and decompression to the negated point.
 */
module PointBytes {
  import opened Words
  import opened Field25519
  import opened FieldBasic
  import opened FieldPowers
  import opened FieldBytes
  import opened Edwards
  import opened Points
  import MB = ModmBytes

  const ONE: Fe := [1, 0, 0, 0, 0]
  const ECD: Fe := [0x3_4dca_1359_78a3, 0x1_a828_3b15_6ebd, 0x5_e7a2_6001_c029, 0x7_39c6_63a0_3cbb, 0x5_2036_cee2_b6ff]
  const SQRTNEG1: Fe := [0x6_1b27_4a0e_a0b0, 0xd5a5_fc8f_189d, 0x7_ef5e_9cbd_0c60, 0x7_8595_a680_4c9e,
      0x2_b832_4804_fc1d]

  /** A square root of -1. */
  const I: int := 0x2b83_2480_4fc1_df0b_2b4d_0099_3dfb_d7a7_2f43_1806_ad2f_e478_c4ee_1b27_4a0e_a0b0

  lemma ConstantsAre()
    ensures Is(ONE, 1) && Below(ONE, TIGHT) && Is(ECD, D) && Below(ECD, TWO54) && Is(SQRTNEG1, I) &&
        Below(SQRTNEG1, TWO54)
  {
    assert Val(ONE) == 1 && Val(ECD) == D && Val(SQRTNEG1) == I;
  }

  lemma ISquared()
    ensures Same(ED25519, I * I, -1)
  {
    assert I * I == -1 + Scaled(ED25519, (I * I + 1) / P);
  }

  /** d = -121665 / 121666 */
  lemma CurveConstant()
    ensures Same(ED25519, 121666 * D, -121665)
  {
    assert 121666 * D == -121665 + Scaled(ED25519, (121666 * D + 121665) / P);
  }

  // ---- comparing byte strings ----

  lemma {:induction false} OrBound(a: nat, b: nat, k: nat)
    requires a < Pow2(k) && b < Pow2(k)
    ensures Or(a, b) < Pow2(k)
  {
    if k > 0 && a > 0 && b > 0 {
      OrBound(a / 2, b / 2, k - 1);
    }
  }

  /** ed25519_verify: whether the strings agree, without an early exit. */
  method VerifyEqual(x: seq<byte>, y: seq<byte>) returns (equal: u64)
    requires |x| == |y|
    ensures equal == if x == y then 1 else 0
  {
    hide Or, Xor, Pow2;
    Pow2Values();
    var differentbits: u64 := 0;
    for i := 0 to |x|
      invariant differentbits < 256 && (differentbits == 0 <==> x[..i] == y[..i])
    {
      XorZero(x[i], y[i]);
      XorBound(x[i], y[i], 8);
      OrZero(differentbits, Xor(x[i], y[i]));
      OrBound(differentbits, Xor(x[i], y[i]), 8);
      assert x[..i + 1] == x[..i] + [x[i]] && y[..i + 1] == y[..i] + [y[i]];
      differentbits := Or(differentbits, Xor(x[i], y[i]));
    }
    assert x[..|x|] == x && y[..|x|] == y;
    equal := (Sub64(differentbits, 1) / 256) % 2;
  }

  /** Whether a field element is zero, by its bytes. */
  method IsZeroElement(a: Fe, ghost v: int) returns (zero: bool)
    requires Below(a, TWO54) && Is(a, v)
    ensures zero <==> Same(ED25519, v, 0)
  {
    hide MB.LE, F;
    SameIff(v, 0);
    SmallMod(0, P);
    var check := Contract(a);
    var zeros := MB.Zeros(32);
    MB.LEZeros(zeros);
    var equal := VerifyEqual(check, zeros);
    if MB.LE(check) == 0 {
      LEInjective(check, zeros);
    }
    zero := equal == 1;
  }

  /** ge25519_is_neutral_vartime: X = 0 and Y = Z */
  method IsNeutral(p: Ge, ghost v: Point) returns (neutral: bool)
    requires p.Partial(v)
    ensures neutral <==> v.X % P == 0 && v.Y % P == v.Z % P
  {
    hide MB.LE, F;
    IsResidue(p.x, v.X);
    IsResidue(p.y, v.Y);
    IsResidue(p.z, v.Z);
    var zero := MB.Zeros(32);
    MB.LEZeros(zero);
    var x := Contract(p.x);
    var y := Contract(p.y);
    var z := Contract(p.z);
    if MB.LE(x) == 0 {
      LEInjective(x, zero);
    }
    if MB.LE(y) == MB.LE(z) {
      LEInjective(y, z);
    }
    neutral := x == zero && y == z;
  }

  // ---- decompression ----

  /** (p - 5) / 8 */
  ghost function RootExponent(): nat {
    assert Pow2(252) == 4 * Pow2(250);
    Pow2(252) - 3
  }

  /** The candidate u v^3 (u v^7)^((p-5)/8) for the square root of u / v, section 5.1.3 of RFC 8032. */
  ghost function Candidate(u: int, v: int): int {
    var v3 := Times(Times(v, v), v);
    Times(Times(Pow(Times(Times(Times(v3, v3), v), u), RootExponent()), v3), u)
  }

  /** u / v is the square of x, or its negative is. */
  ghost predicate RootUpToSign(x: int, u: int, v: int) {
    Times(Times(x, x), v) == u || Times(Times(x, x), v) == Minus(0, u)
  }

  /** y^2 - 1 and d y^2 + 1, whose quotient is x^2 */
  ghost function Numerator(y: int): int {
    Minus(Times(y, y), 1)
  }

  ghost function Denominator(y: int): int {
    Plus(Times(Times(y, y), D), 1)
  }

  lemma FractionIs(y: int)
    ensures Numerator(y) == (y * y - 1) % P && Denominator(y) == ((y * y) * D + 1) % P
  {
    hide Times, Plus, Minus;
    TimesIs(y, y);
    TimesReduce(y * y, D);
    MinusMod(y * y, 1);
    PlusMod((y * y) * D, 1);
    SmallMod(1, P);
  }

  lemma RootIff(x: int, u: int, v: int)
    requires 0 <= u < P
    ensures RootUpToSign(x, u, v) <==> Same(ED25519, (x * x) * v, u) || Same(ED25519, (x * x) * v, -u)
  {
    hide Times, Same;
    TimesIs(x, x);
    TimesReduce(x * x, v);
    SameIff((x * x) * v, u);
    SameIff((x * x) * v, -u);
    SmallMod(u, P);
  }

  ghost function Encoded(b: seq<byte>): int {
    MB.LE(b) % TWO255
  }

  lemma PowSame(x: int, y: int, n: nat)
    requires x % P == y % P
    ensures Pow(x, n) == Pow(y, n)
  {
    hide Times;
    if n > 0 {
      PowSame(x, y, n - 1);
      TimesReduce(x, Pow(x, n - 1));
      TimesReduce(y, Pow(x, n - 1));
      TimesComm(x, Pow(x, n - 1));
      TimesComm(y, Pow(x, n - 1));
      TimesIs(x, Pow(x, n - 1));
      TimesIs(y, Pow(x, n - 1));
    }
  }

  /** sqrt(u / v) up to sign and a factor sqrt(-1) */
  method RootCandidate(num: Fe, den: Fe) returns (x: Fe)
    requires Below(num, TIGHT) && Below(den, TWO54)
    ensures Below(x, TIGHT) && F(x) == Candidate(F(num), F(den))
  {
    hide F, Pow, Times;
    var t := Square(den);
    var d3 := Mul(t, den);
    x := Square(d3);
    x := Mul(x, den);
    x := Mul(x, num);
    x := PowTwo252m3(x);
    x := Mul(x, d3);
    x := Mul(x, num);
  }

  /** Corrects the candidate to a root of u / v if there is one among it and sqrt(-1) times it. */
  method CheckRoot(x0: Fe, num: Fe, den: Fe, ghost c: int, ghost u: int, ghost v: int) returns (ok: bool, x: Fe,
      ghost r: int)
    requires Below(x0, TIGHT) && Below(num, TIGHT) && Below(den, TWO54) && Is(x0, c) && Is(num, u) && Is(den, v) &&
        0 <= u < P
    ensures ok <==> RootUpToSign(c, u, v)
    ensures Below(x, TIGHT)
    ensures ok ==> (r == c || r == c * I) && Is(x, r) && Same(ED25519, (r * r) * v, u)
  {
    hide Is, Same, RootUpToSign;
    ConstantsAre();
    RootIff(c, u, v);
    x, r := x0, c;
    var t := SquareIs(x, c);
    t := MulIs(t, den, c * c, v);
    ghost var w := (c * c) * v;
    var root := SubReduceIs(t, num, w, u);
    var good := IsZeroElement(root, w - u);
    ZeroIff(ED25519, w, u);
    if !good {
      t := AddReduceIs(t, num, w, u);
      good := IsZeroElement(t, w + u);
      ZeroIff(ED25519, w, -u);
      if !good {
        ok := false;
        return;
      }
      x := MulIs(x, SQRTNEG1, c, I);
      r := c * I;
      ISquared();
      OtherRoot(ED25519, I, c, u, v);
    }
    ok := true;
  }

  /** The bytes are accepted: the candidate for x is a root of (y^2 - 1) / (d y^2 + 1), perhaps after a factor
      sqrt(-1). */
  ghost predicate Decodable(p: seq<byte>) {
    var u, v := Numerator(Encoded(p)), Denominator(Encoded(p));
    RootUpToSign(Candidate(u, v), u, v)
  }

  /** v is the point that accepted bytes stand for, negated: affine, on the curve, with the encoded y and the other
      parity of x. */
  ghost predicate DecodedAs(p: seq<byte>, v: Point)
    requires |p| == 32
  {
    && Decodable(p) && OnEd25519(v) && v.Z == 1 && v.Y == Encoded(p) && v.T == v.X * v.Y
    && (v.X % P != 0 ==> (v.X % P) % 2 != p[31] / 128)
  }

  lemma {:induction false} LowBit(b: seq<byte>)
    requires b != []
    ensures MB.LE(b) % 2 == b[0] % 2
  {
    assert MB.LE(b) == b[0] + 2 * (128 * MB.LE(b[1..]));
  }

  /** The lowest bit of the representative in [0, p). */
  method Parity(a: Fe) returns (bit: nat)
    requires Below(a, TWO54)
    ensures bit == F(a) % 2
  {
    hide F, MB.LE;
    var check := Contract(a);
    LowBit(check);
    SmallPow2();
    bit := LowBits(check[0], 1, 1);
  }

  lemma SmallPow2()
    ensures Pow2(1) == 2 && Pow2(7) == 128
  {
    Pow2Values();
    assert Pow2(8) == 2 * Pow2(7);
  }

  /** -x has the other parity, p being odd. */
  lemma NegativeParity(x: int, y: int)
    requires 0 < x < P && 0 <= y < P && y == (-x) % P
    ensures y % 2 != x % 2
  {
    DivModUnique(-x, P, -1, P - x);
  }

  /** The negative of the root with the encoded sign. */
  method ChooseSign(x0: Fe, parity: nat, ghost r0: int) returns (x: Fe, ghost r: int)
    requires Below(x0, TIGHT) && Is(x0, r0) && parity <= 1
    ensures Below(x, TIGHT) && Is(x, r) && (r == r0 || r == -r0) && (F(x) != 0 ==> F(x) % 2 != parity)
  {
    hide F;
    x, r := x0, r0;
    var bit := Parity(x);
    if bit == parity {
      x := NegIs(x0, r0);
      r := -r0;
      FRange(x0);
      FRange(x);
      NegatedParity(F(x0), F(x), r0);
    }
  }

  lemma NegatedParity(a: int, b: int, v: int)
    requires 0 <= a < P && 0 <= b < P && a == v % P && b == (-v) % P
    ensures b != 0 ==> b % 2 != a % 2
  {
    hide Minus;
    MinusMod(0, v);
    SmallMod(0, P);
    NegateResidue(a);
    if a == 0 {
      NegateZero();
    } else {
      NegativeParity(a, b);
    }
  }

  lemma NegateResidue(a: int)
    ensures Minus(0, a) == (-a) % P
  {
  }

  lemma NegateZero()
    ensures (-0) % P == 0
  {
  }

  method UnpackNegative(r: Ge, p: seq<byte>) returns (ok: bool)
    requires |p| == 32
    modifies r
    ensures ok <==> Decodable(p)
    ensures ok ==> r.z == ONE && exists v :: DecodedAs(p, v) && r.Holds(v)
  {
    hide Is, OnEd25519, F, Same, Candidate, MB.LE, Val, Encoded, Numerator, Denominator, RootUpToSign;
    ConstantsAre();
    var parity := p[31] / 128;
    r.y := Expand(p);
    ghost var y := Encoded(p);
    ExpandedIs(r.y, p);
    r.z := ONE;
    var num := SquareIs(r.y, y);
    var den := MulIs(num, ECD, y * y, D);
    num := SubReduceIs(num, r.z, y * y, 1);
    den := AddIs(den, r.z, (y * y) * D, 1);
    ghost var u, v := Numerator(y), Denominator(y);
    FractionElements(num, den, y);
    r.x := RootCandidate(num, den);
    ghost var c, d;
    ResidueOf(r.x);
    ok, r.x, c := CheckRoot(r.x, num, den, F(r.x), u, v);
    if ok {
      r.x, d := ChooseSign(r.x, parity, c);
      SquareEither(ED25519, d, c, u, v);
      RootIsPoint(d, y);
      r.t := MulIs(r.x, r.y, d, y);
      ghost var point := Point(d, y, 1, d * y);
      IsResidue(r.x, d);
      assert DecodedAs(p, point) && r.Holds(point);
    }
  }

  lemma FractionElements(num: Fe, den: Fe, y: int)
    requires Is(num, y * y - 1) && Is(den, (y * y) * D + 1)
    ensures F(num) == Numerator(y) && F(den) == Denominator(y) && 0 <= Numerator(y) < P
    ensures Is(num, Numerator(y)) && Is(den, Denominator(y))
  {
    hide F, Numerator, Denominator;
    FractionIs(y);
    FRange(num);
    FRange(den);
    SmallMod(F(num), P);
    SmallMod(F(den), P);
  }

  lemma ResidueOf(a: Fe)
    ensures Is(a, F(a))
  {
    hide F;
    FRange(a);
    SmallMod(F(a), P);
  }

  /** A root of the fraction gives a point of the curve. */
  lemma RootIsPoint(x: int, y: int)
    requires Same(ED25519, (x * x) * Denominator(y), Numerator(y))
    ensures OnEd25519(Point(x, y, 1, x * y))
  {
    hide Same, Numerator, Denominator, OnEd25519, OnCurve;
    FractionIs(y);
    Quot((y * y) * D + 1);
    Quot(y * y - 1);
    SmallMod(Denominator(y), P);
    SmallMod(Numerator(y), P);
    SameIff(Denominator(y), (y * y) * D + 1);
    SameIff(Numerator(y), y * y - 1);
    Substitute(ED25519, x * x, Denominator(y), (y * y) * D + 1, Numerator(y), y * y - 1);
    RootOnCurve(ED25519, x, y);
    OnEd25519Iff(Point(x, y, 1, x * y));
  }

  lemma IsResidue(a: Fe, v: int)
    requires Is(a, v)
    ensures F(a) == v % P
  {
  }

  lemma ExpandedIs(a: Fe, p: seq<byte>)
    requires |p| == 32 && Val(a) == MB.LE(p) % TWO255
    ensures Is(a, Encoded(p))
  {
  }

  // ---- packing ----

  /** p - 2 */
  ghost function InverseExponent(): nat {
    assert Pow2(255) == 32 * Pow2(250);
    Pow2(255) - 21
  }

  /** z^(p - 2) */
  ghost function Inverse(z: int): int {
    Pow(z, InverseExponent())
  }

  method RecipIs(z: Fe, ghost v: int) returns (r: Fe)
    requires Below(z, TWO54) && Is(z, v)
    ensures Below(r, TIGHT) && Is(r, Inverse(v))
  {
    hide F, Pow;
    r := Recip(z);
    Quot(v);
    SmallMod(v % P, P);
    PowSame(F(z), v, InverseExponent());
    PowRange(v, InverseExponent());
    SmallMod(Inverse(v), P);
  }

  lemma TopByte(b: seq<byte>)
    requires |b| == 32
    ensures MB.LE(b) == MB.LE(b[..31]) + Pow2(248) * b[31] && MB.LE(b[..31]) < Pow2(248) && TWO255 == 128 * Pow2(248)
  {
    hide MB.LE, Pow2;
    MB.LEAppend(b[..31], b[31..]);
    assert b == b[..31] + b[31..] && b[31..] == [b[31]];
    MB.LEOne(b[31]);
    MB.LEBound(b[..31]);
    Top255();
  }

  lemma Top255()
    ensures TWO255 == 128 * Pow2(248)
  {
    hide Pow2;
    SmallPow2();
    Pow2Values();
    Pow2Add(64, 64);
    Pow2Add(128, 64);
    Pow2Add(192, 56);
  }

  /** r[31] ^= bit << 7 */
  method SetTopBit(b: seq<byte>, bit: nat) returns (r: seq<byte>)
    requires |b| == 32 && MB.LE(b) < TWO255 && bit <= 1
    ensures |r| == 32 && MB.LE(r) == MB.LE(b) + TWO255 * bit
  {
    hide MB.LE, Pow2;
    TopByte(b);
    Small(Pow2(248), b[31], MB.LE(b[..31]), MB.LE(b));
    XorTop(b[31], bit);
    var top := Xor(b[31], bit * 128);
    r := b[31 := top];
    TopByte(r);
    assert r[..31] == b[..31];
    assert Pow2(248) * (b[31] + 128 * bit) == Pow2(248) * b[31] + (128 * Pow2(248)) * bit;
  }

  lemma Small(m: int, t: int, low: int, v: int)
    requires m > 0 && 0 <= low && v == low + m * t && v < 128 * m
    ensures t < 128
  {
    MulSign(m, t - 127);
  }

  lemma XorTop(a: nat, bit: nat)
    requires a < 128 && bit <= 1
    ensures Xor(a, bit * 128) == a + bit * 128
  {
    XorSelf(a);
    SmallPow2();
    XorDisjoint(a, bit, 7);
  }

  lemma {:induction false} XorDisjoint(a: nat, b: nat, k: nat)
    requires a < Pow2(k)
    ensures Xor(a, b * Pow2(k)) == a + b * Pow2(k)
    decreases k
  {
    if k > 0 && a > 0 && b > 0 {
      XorDisjoint(a / 2, b, k - 1);
      HalfShift(b, Pow2(k - 1));
    }
  }

  /** The number a point is encoded by: y, with the parity of x in bit 255, for x = X / Z and y = Y / Z. */
  ghost function Encoding(v: Point): int {
    (v.Y * Inverse(v.Z)) % P + TWO255 * ((v.X * Inverse(v.Z)) % P % 2)
  }

  /** ge25519_pack */
  method Pack(p: Ge, ghost v: Point) returns (r: seq<byte>)
    requires p.Partial(v)
    ensures |r| == 32 && MB.LE(r) == Encoding(v)
  {
    hide F, MB.LE, Inverse;
    var zi := RecipIs(p.z, v.Z);
    var tx := MulIs(p.x, zi, v.X, Inverse(v.Z));
    var ty := MulIs(p.y, zi, v.Y, Inverse(v.Z));
    r := Contract(ty);
    var bit := Parity(tx);
    FRange(ty);
    r := SetTopBit(r, bit);
  }

  lemma {:induction false} PowOfOne(n: nat)
    ensures Pow(1, n) == 1
  {
    PowRange(1, n);
    if n > 0 {
      PowOfOne(n - 1);
    }
  }

  /** The sign bit and the rest. */
  lemma EncodedParts(p: seq<byte>)
    requires |p| == 32
    ensures MB.LE(p) == Encoded(p) + TWO255 * (p[31] / 128) && 0 <= Encoded(p) < TWO255
  {
    hide MB.LE, Pow2;
    TopByte(p);
    var m, h, l := Pow2(248), p[31] / 128, p[31] % 128;
    assert m * p[31] == (128 * m) * h + m * l;
    assert m * l <= m * 127;
    DivModUnique(MB.LE(p), TWO255, h, MB.LE(p[..31]) + m * l);
  }

  lemma EncodingOfNegative(v: Point)
    requires v.Z == 1
    ensures Encoding(Negative(v)) == v.Y % P + TWO255 * ((-v.X) % P % 2)
  {
    hide Pow, InverseExponent;
    PowOfOne(InverseExponent());
    assert v.Y * 1 == v.Y && (-v.X) * 1 == -v.X;
  }

  /**
   Packing the negative of a decompressed point gives the bytes back if and only if y is below p and the sign bit is
   clear for x = 0.
   */
  lemma UnpackThenPack(p: seq<byte>, v: Point, r: seq<byte>)
    requires |p| == 32 && DecodedAs(p, v)
    requires |r| == 32 && MB.LE(r) == Encoding(Negative(v))
    ensures r == p <==> Encoded(p) < P && (v.X % P != 0 || p[31] < 128)
  {
    hide MB.LE, Encoding, Decodable, OnEd25519;
    EncodingOfNegative(v);
    EncodedParts(p);
    if v.X % P != 0 {
      SignBits(v.X, p[31] / 128);
    } else {
      ZeroBit(v.X);
    }
    PartsUnique(v.Y, (-v.X) % P % 2, Encoded(p), p[31] / 128);
    if MB.LE(r) == MB.LE(p) {
      LEInjective(r, p);
    }
  }

  lemma ZeroBit(x: int)
    requires x % P == 0
    ensures (-x) % P % 2 == 0
  {
    Quot(x);
    ModIs(-x, -(x / P), 0);
  }

  lemma PartsUnique(y: int, bit: int, e: int, h: int)
    requires 0 <= bit <= 1 && 0 <= h <= 1 && 0 <= e < TWO255 && y == e
    ensures y % P + TWO255 * bit == e + TWO255 * h <==> e < P && bit == h
  {
    Quot(y);
    if e < P {
      SmallMod(e, P);
    }
  }

  lemma SignBits(x: int, bit: nat)
    requires x % P != 0 && (x % P) % 2 != bit && bit <= 1
    ensures (-x) % P % 2 == bit
  {
    Quot(x);
    Quot(-x);
    NegatedParity(x % P, (-x) % P, x);
    NonzeroNegative(x);
  }

  lemma NonzeroNegative(x: int)
    requires x % P != 0
    ensures (-x) % P != 0
  {
    if (-x) % P == 0 {
      ModIs(x, -((-x) / P), 0);
    }
  }
}
