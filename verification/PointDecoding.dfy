/**
 Which byte strings decode to a point, compared with section 5.1.3 of RFC 8032.
 */
module PointDecoding {
  import opened Words
  import opened Field25519
  import opened Edwards
  import opened Points
  import opened PointBytes
  import MB = ModmBytes

  // ---- residues ----

  /** A product depends on the residues of its factors only. */
  lemma TimesOf(x: int, a: int, y: int, b: int)
    requires x % P == a % P && y % P == b % P
    ensures Times(x, y) == (a * b) % P == Times(x, y) % P
  {
    hide Times;
    TimesIs(x, y);
    TimesMod(x, y);
    TimesMod(a, b);
    ModTwice(a * b);
  }

  lemma ModTwice(x: int)
    ensures x % P % P == x % P
  {
    Quot(x);
    SmallMod(x % P, P);
  }

  /** Congruent factors give the same product. */
  lemma SameProducts(x: int, y: int, k: int)
    requires x % P == y % P
    ensures Times(x, k) == Times(y, k)
  {
    hide Times;
    TimesOf(x, x, k, k);
    TimesOf(y, x, k, k);
  }

  // ---- the field has no zero divisors, if Fermat's theorem holds for p ----

  /** p - 1 */
  ghost function FermatExponent(): (n: nat)
    ensures n == P - 1
  {
    hide Pow2;
    Pow252();
    8 * RootExponent() + 4
  }

  lemma Pow252()
    ensures Pow2(252) == 0x1000_0000_0000_0000_0000_0000_0000_0000_0000_0000_0000_0000_0000_0000_0000_0000
  {
    hide Pow2;
    Pow2Values();
    Top255();
    assert Pow2(248) == TWO255 / 128;
    Pow2Add(4, 248);
    Pow2Four();
  }

  lemma Pow2Four()
    ensures Pow2(4) == 16
  {
    assert Pow2(2) == 4;
  }

  ghost predicate FermatAt(a: int) {
    a % P != 0 ==> Pow(a, FermatExponent()) == 1
  }

  /** a^(p-1) = 1 for every nonzero a: p is prime. */
  ghost predicate Fermat() {
    forall a: int :: FermatAt(a)
  }

  /** A product is zero only if a factor is. */
  lemma NoZeroDivisors(a: int, b: int)
    requires Fermat() && (a * b) % P == 0
    ensures a % P == 0 || b % P == 0
  {
    hide Times, Pow, FermatExponent;
    if a % P != 0 {
      assert FermatAt(a);
      var n := FermatExponent() - 1;
      assert Pow(a, n + 1) == Times(Pow(a, n), a) by { PowStep(a, n); }
      // b = (a^(p-2) a) b = a^(p-2) (a b) = 0
      TimesIs(1, b);
      TimesAssoc(Pow(a, n), a, b);
      TimesIs(a, b);
      TimesIs(Pow(a, n), 0);
    }
  }

  lemma PowStep(a: int, n: nat)
    ensures Pow(a, n + 1) == Times(Pow(a, n), a)
  {
  }

  // ---- the candidate ----

  ghost predicate IsRoot(z: int, u: int, v: int) {
    Times(Times(z, z), v) == u % P
  }

  lemma RootTimes(z: int, v: int)
    ensures Times(Times(z, z), v) == ((z * z) * v) % P
  {
    hide Times;
    TimesIs(z, z);
    TimesReduce(z * z, v);
  }

  /** u / v is a square modulo p. */
  ghost predicate HasRoot(u: int, v: int) {
    exists z :: IsRoot(z, u, v)
  }

  /** u v^7 */
  ghost function Radicand(u: int, v: int): int {
    var t := (v * v) * v;
    ((t * t) * v) * u
  }

  lemma CandidateIs(u: int, v: int, w: int)
    requires w == Pow(Radicand(u, v), RootExponent())
    ensures Candidate(u, v) == ((w * ((v * v) * v)) * u) % P
  {
    hide Times, Pow, RootExponent;
    var t := (v * v) * v;
    TimesOf(v, v, v, v);
    TimesOf(Times(v, v), v * v, v, v);
    var v3 := Times(Times(v, v), v);
    TimesOf(v3, t, v3, t);
    TimesOf(Times(v3, v3), t * t, v, v);
    TimesOf(Times(Times(v3, v3), v), (t * t) * v, u, u);
    PowSame(Times(Times(Times(v3, v3), v), u), Radicand(u, v), RootExponent());
    TimesOf(w, w, v3, t);
    TimesOf(Times(w, v3), w * t, u, u);
  }

  /** The square of the candidate, times v, is u times the ((p-1)/4)-th power of u v^7. */
  lemma CandidateSquared(u: int, v: int)
    ensures var x, c := Candidate(u, v), Pow(Radicand(u, v), 2 * RootExponent() + 1);
      Times(Times(x, x), v) == (c * u) % P
  {
    hide Times, Pow, RootExponent, Candidate, Radicand;
    var r, e := Radicand(u, v), RootExponent();
    var w, x, t := Pow(r, e), Candidate(u, v), (v * v) * v;
    CandidateIs(u, v, w);
    ModTwice((w * t) * u);
    TimesOf(x, (w * t) * u, x, (w * t) * u);
    TimesOf(Times(x, x), ((w * t) * u) * ((w * t) * u), v, v);
    // c = (w w) r
    PowAdd(r, e, e);
    PowStep(r, 2 * e);
    TimesOf(w, w, w, w);
    TimesOf(Times(w, w), w * w, r, r);
    var c := Pow(r, 2 * e + 1);
    SameProducts(c, (w * w) * r, u);
    TimesIs(c, u);
    TimesIs((w * w) * r, u);
    RadicandIs(u, v);
    Regrouped(w, t, u, v);
  }

  lemma RadicandIs(u: int, v: int)
    ensures var t := (v * v) * v; Radicand(u, v) == ((t * t) * v) * u
  {
  }

  lemma Regrouped(w: int, t: int, u: int, v: int)
    ensures (((w * t) * u) * ((w * t) * u)) * v == ((w * w) * (((t * t) * v) * u)) * u
  {
    Regroup(w * t, u, w * t, u);
    Regroup(w, t, w, t);
    var a, b, c := w * w, t * t, u * u;
    assert ((a * b) * c) * v == (a * b) * (c * v);
    assert (a * ((b * v) * u)) * u == (a * b) * (c * v) by {
      assert ((b * v) * u) * u == (b * v) * c;
      assert a * ((b * v) * c) == (a * b) * (v * c);
    }
  }

  // ---- accepted if and only if there is a square root ----

  lemma RootFromCandidate(u: int, v: int)
    requires 0 <= u < P && RootUpToSign(Candidate(u, v), u, v)
    ensures HasRoot(u, v)
  {
    hide Times, Same, Candidate, RootUpToSign, IsRoot;
    var x := Candidate(u, v);
    RootIff(x, u, v);
    if Same(ED25519, (x * x) * v, u) {
      RootOf(x, u, v);
    } else {
      ISquared();
      OtherRoot(ED25519, I, x, u, v);
      RootOf(x * I, u, v);
    }
  }

  lemma RootOf(x: int, u: int, v: int)
    ensures IsRoot(x, u, v) <==> Same(ED25519, (x * x) * v, u)
  {
    hide Same, Times;
    RootTimes(x, v);
    SameIff((x * x) * v, u);
  }

  lemma ZeroProduct(x: int, y: int)
    requires x % P == 0
    ensures (x * y) % P == 0 == (y * x) % P
  {
    hide Times;
    SameProducts(x, 0, y);
    TimesIs(x, y);
    TimesIs(0, y);
    assert 0 * y == 0 && y * x == x * y;
  }

  lemma NonzeroProduct(x: int, y: int)
    requires Fermat() && x % P != 0 && y % P != 0
    ensures (x * y) % P != 0
  {
    if (x * y) % P == 0 {
      NoZeroDivisors(x, y);
    }
  }

  lemma RootFactors(z: int, u: int, v: int)
    requires IsRoot(z, u, v) && u % P != 0
    ensures z % P != 0 && v % P != 0
  {
    hide Times;
    RootTimes(z, v);
    if z % P == 0 {
      ZeroProduct(z, z);
      ZeroProduct(z * z, v);
    }
    if v % P == 0 {
      ZeroProduct(v, z * z);
    }
  }

  /** z v^4 */
  ghost function RootTerm(z: int, v: int): int {
    (z * ((v * v) * v)) * v
  }

  ghost function Seventh(v: int): int {
    var t := (v * v) * v;
    (t * t) * v
  }

  /** u v^7, and (z v^4)^2 = z^2 v v^7 */
  lemma SeventhPowers(z: int, u: int, v: int)
    ensures Radicand(u, v) == u * Seventh(v)
    ensures RootTerm(z, v) * RootTerm(z, v) == ((z * z) * v) * Seventh(v)
  {
    var t := (v * v) * v;
    RadicandIs(u, v);
    Regroup(z * t, v, z * t, v);
    Regroup(z, t, z, t);
    SquaresTogether(z * z, t * t, v);
  }

  lemma EqualMultiples(w: int, u: int, s: int, r: int, c: int)
    requires w % P == u % P && r == u * s && c == w * s
    ensures r % P == c % P
  {
    hide Times;
    SameProducts(w, u, s);
    TimesIs(w, s);
    TimesIs(u, s);
  }

  lemma SquaresTogether(a: int, b: int, v: int)
    ensures (a * b) * (v * v) == (a * v) * (b * v)
  {
    Regroup(a, b, v, v);
  }

  /** The (2 e + 1)-th power of a nonzero square is 1 or -1, where 4 (2 e + 1) = p - 1. */
  lemma QuarterPower(r: int, b: int)
    requires Fermat() && r % P == (b * b) % P && b % P != 0
    ensures var c := Pow(r, 2 * RootExponent() + 1); c == 1 || c == P - 1
  {
    hide Times, Pow, RootExponent, FermatExponent;
    var k := 2 * RootExponent() + 1;
    var c := Pow(r, k);
    assert FermatAt(b);
    QuarterExponent();
    PowRange(b, 1);
    PowStep(b, 1);
    ModTwice(b);
    TimesOf(Pow(b, 1), b, b, b);
    PowSame(r, Pow(b, 2), k);
    PowPow(b, 2, k);
    PowAdd(b, 2 * k, 2 * k);
    TimesOf(c, c, c, c);
    PowRange(r, k);
    OneOrMinusOne(c);
  }

  lemma QuarterExponent()
    ensures FermatExponent() == (2 * (2 * RootExponent() + 1)) + (2 * (2 * RootExponent() + 1))
  {
  }

  lemma OneOrMinusOne(c: int)
    requires Fermat() && 0 <= c < P && (c * c) % P == 1
    ensures c == 1 || c == P - 1
  {
    hide Fermat;
    DifferenceOfSquares(c);
    OneIff(c * c);
    NoZeroDivisors(c - 1, c + 1);
    if (c - 1) % P == 0 {
      SmallOrWraps(c - 1);
    } else {
      SmallOrWraps(c + 1);
    }
  }

  lemma DifferenceOfSquares(c: int)
    ensures (c - 1) * (c + 1) == c * c - 1
  {
  }

  lemma OneIff(w: int)
    ensures (w - 1) % P == 0 <==> w % P == 1
  {
    if (w - 1) % P == 0 {
      Quot(w - 1);
      ModIs(w, (w - 1) / P, 1);
    }
    if w % P == 1 {
      Quot(w);
      ModIs(w - 1, w / P, 0);
    }
  }

  lemma SmallOrWraps(x: int)
    requires -1 <= x <= P && x % P == 0
    ensures x == 0 || x == P
  {
  }

  lemma RootTermIs(z: int, v: int)
    ensures RootTerm(z, v) == (z * ((v * v) * v)) * v
  {
  }

  lemma CandidateFromRoot(z: int, u: int, v: int)
    requires Fermat() && 0 <= u < P && IsRoot(z, u, v)
    ensures RootUpToSign(Candidate(u, v), u, v)
  {
    hide Times, Pow, RootExponent, FermatExponent, Candidate, Radicand, RootTerm, Seventh, Fermat;
    SmallMod(u, P);
    var r := Radicand(u, v);
    CandidateSquared(u, v);
    var c := Pow(r, 2 * RootExponent() + 1);
    if u == 0 {
      assert c * u == 0;
    } else {
      RootFactors(z, u, v);
      var b := RootTerm(z, v);
      assert b % P != 0 by {
        NonzeroProduct(v, v);
        NonzeroProduct(v * v, v);
        NonzeroProduct(z, (v * v) * v);
        NonzeroProduct(z * ((v * v) * v), v);
        RootTermIs(z, v);
      }
      // the radicand u v^7 is the square of b = z v^4
      RootTimes(z, v);
      ModTwice((z * z) * v);
      SeventhPowers(z, u, v);
      EqualMultiples((z * z) * v, u, Seventh(v), r, b * b);
      QuarterPower(r, b);
      if c == P - 1 {
        assert c * u == -u + u * P;
        ModIs(c * u, u, -u);
      }
    }
  }

  /**
   The decoder accepts exactly the encodings for which (y^2 - 1) / (d y^2 + 1) has a square root modulo p: its
   exponentiation finds a root whenever there is one.
   */
  lemma DecodableIff(p: seq<byte>)
    requires Fermat()
    ensures Decodable(p) <==> HasRoot(Numerator(Encoded(p)), Denominator(Encoded(p)))
  {
    hide RootUpToSign, Candidate, Fermat, IsRoot, Encoded, Numerator, Denominator;
    var u, v := Numerator(Encoded(p)), Denominator(Encoded(p));
    assert 0 <= u < P by { FractionIs(Encoded(p)); }
    if RootUpToSign(Candidate(u, v), u, v) {
      RootFromCandidate(u, v);
    }
    if z :| IsRoot(z, u, v) {
      CandidateFromRoot(z, u, v);
    }
  }

  // ---- section 5.1.3 of RFC 8032 ----

  /** -x^2 + y^2 = 1 + d x^2 y^2 */
  ghost predicate OnCurveAt(x: int, y: int) {
    IsRoot(x, Numerator(y), Denominator(y))
  }

  /** y is below p, and some x in [0, p) with x^2 = (y^2 - 1) / (d y^2 + 1) has the given parity. */
  ghost predicate StandardAt(y: int, bit: nat) {
    y < P && exists x :: 0 <= x < P && OnCurveAt(x, y) && x % 2 == bit
  }

  ghost predicate StandardDecodes(p: seq<byte>)
    requires |p| == 32
  {
    StandardAt(Encoded(p), p[31] / 128)
  }

  lemma OppositeRoot(x: int, y: int)
    requires 0 < x < P && OnCurveAt(x, y)
    ensures OnCurveAt(P - x, y) && (P - x) % 2 != x % 2
  {
    hide Times, Numerator, Denominator;
    OppositeSquare(P, x);
    OppositeParity(P, x);
    ModIs((P - x) * (P - x), P - 2 * x, x * x);
    TimesIs(x, x);
    TimesIs(P - x, P - x);
  }

  lemma OppositeSquare(m: int, x: int)
    ensures (m - x) * (m - x) == x * x + (m - 2 * x) * m
  {
  }

  lemma OppositeParity(m: int, x: int)
    requires m % 2 == 1
    ensures (m - x) % 2 != x % 2
  {
  }

  lemma ResidueRoot(x: int, y: int)
    requires OnCurveAt(x, y)
    ensures OnCurveAt(x % P, y)
  {
    hide Times, Numerator, Denominator;
    TimesMod(x, x);
    TimesIs(x, x);
  }

  /** The only points with x = 0 are those with y = 1 and y = -1. */
  lemma ZeroRoot(y: int)
    requires Fermat() && 0 <= y < P
    ensures OnCurveAt(0, y) <==> y == 1 || y == P - 1
  {
    hide Fermat, OnCurveAt, Numerator;
    ZeroAt(y);
    FractionIs(y);
    OneIff(y * y);
    if y == 1 {
      SmallMod(1, P);
    } else if y == P - 1 {
      OppositeSquare(P, 1);
      ModIs(y * y, P - 2, 1);
    } else if (y * y) % P == 1 {
      OneOrMinusOne(y);
    }
  }

  lemma ZeroAt(y: int)
    ensures OnCurveAt(0, y) <==> Numerator(y) == 0
  {
    hide Times, Numerator, Denominator;
    TimesIs(0, 0);
    TimesIs(0, Denominator(y));
    assert 0 * Denominator(y) == 0;
    FractionIs(y);
    SmallMod(Numerator(y), P);
  }

  /** At y = 1 and y = -1 there is no other x, as d + 1 is not zero. */
  lemma OnlyZeroRoot(x: int, y: int)
    requires Fermat() && 0 <= x < P && (y == 1 || y == P - 1) && OnCurveAt(x, y)
    ensures x == 0
  {
    hide Fermat, Times, Numerator, Denominator;
    ZeroRoot(y);
    ZeroAt(y);
    SmallMod(0, P);
    DenominatorAtOne(y);
    if x != 0 {
      SmallMod(x, P);
      NonzeroSquareTimes(x, Denominator(y));
    }
  }

  lemma NonzeroSquareTimes(x: int, v: int)
    requires Fermat() && x % P != 0 && v % P != 0
    ensures Times(Times(x, x), v) != 0
  {
    hide Fermat, Times;
    TimesIs(x, x);
    NonzeroProduct(x, x);
    ModTwice(x * x);
    NonzeroProduct(Times(x, x), v);
    TimesIs(Times(x, x), v);
  }

  lemma DenominatorAtOne(y: int)
    requires y == 1 || y == P - 1
    ensures Denominator(y) % P != 0
  {
    hide Denominator;
    FractionIs(y);
    OneMoreThanD();
    if y == P - 1 {
      OppositeSquare(P, 1);
      MovedOut(P - 2, P, D);
      ModIs((y * y) * D + 1, (P - 2) * D, D + 1);
    }
    ModTwice((y * y) * D + 1);
  }

  lemma OneMoreThanD()
    ensures (D + 1) % P != 0
  {
  }

  lemma MovedOut(a: int, m: int, d: int)
    ensures (1 + a * m) * d + 1 == d + 1 + (a * d) * m
  {
    assert (a * m) * d == (a * d) * m;
  }

  lemma StandardFromRoot(z: int, y: int, bit: nat)
    requires Fermat() && 0 <= y < P && bit <= 1 && OnCurveAt(z, y) && (bit == 0 || (y != 1 && y != P - 1))
    ensures StandardAt(y, bit)
  {
    hide Fermat, OnCurveAt;
    ResidueRoot(z, y);
    Quot(z);
    var x := z % P;
    if x == 0 {
      ZeroRoot(y);
      assert OnCurveAt(0, y) && 0 % 2 == bit;
    } else {
      OppositeRoot(x, y);
      assert x % 2 == bit || (P - x) % 2 == bit;
    }
  }

  lemma NoNegativeZero(y: int)
    requires Fermat() && (y == 1 || y == P - 1)
    ensures !StandardAt(y, 1)
  {
    hide Fermat, OnCurveAt;
    forall x | 0 <= x < P && OnCurveAt(x, y)
      ensures x == 0
    {
      OnlyZeroRoot(x, y);
    }
  }

  /**
   The decoder accepts what the standard decodes and two families more: y from p on, and the sign bit set on x = 0,
   which is y = 1 or y = -1.
   */
  lemma StandardIff(p: seq<byte>)
    requires Fermat() && |p| == 32
    ensures StandardDecodes(p) <==>
      Decodable(p) && Encoded(p) < P && !(Encoded(p) in {1, P - 1} && p[31] >= 128)
  {
    hide Fermat, OnCurveAt, Encoded, Decodable, HasRoot, StandardAt;
    var y, bit := Encoded(p), p[31] / 128;
    EncodedParts(p);
    DecodableIff(p);
    if StandardAt(y, bit) {
      StandardRoot(y, bit);
      if bit == 1 && (y == 1 || y == P - 1) {
        NoNegativeZero(y);
      }
    }
    if Decodable(p) && y < P && !(y in {1, P - 1} && p[31] >= 128) {
      var z := RootAt(y);
      StandardFromRoot(z, y, bit);
    }
  }

  lemma StandardRoot(y: int, bit: nat)
    requires StandardAt(y, bit)
    ensures y < P && HasRoot(Numerator(y), Denominator(y))
  {
    hide IsRoot, Numerator, Denominator;
    var x :| 0 <= x < P && OnCurveAt(x, y);
  }

  lemma RootAt(y: int) returns (z: int)
    requires HasRoot(Numerator(y), Denominator(y))
    ensures OnCurveAt(z, y)
  {
    hide Numerator, Denominator;
    z :| IsRoot(z, Numerator(y), Denominator(y));
  }

  /** What is decoded is the negative of a point with the encoded y and the encoded parity of x. */
  lemma DecodedIsNegative(p: seq<byte>, v: Point)
    requires |p| == 32 && DecodedAs(p, v)
    ensures OnCurveAt((-v.X) % P, Encoded(p))
    ensures StandardDecodes(p) && Fermat() ==> (-v.X) % P % 2 == p[31] / 128
  {
    hide Times, Plus, Minus, Same, Encoded, Decodable, Fermat, OnCurveAt, OnEd25519;
    var x, y := v.X, v.Y;
    PointIsRoot(v);
    ResidueRoot(-x, y);
    EncodedParts(p);
    if StandardDecodes(p) && Fermat() {
      if x % P != 0 {
        SignBits(x, p[31] / 128);
      } else {
        ZeroDecoded(p, x);
      }
    }
  }

  lemma PointIsRoot(v: Point)
    requires OnEd25519(v) && v.Z == 1 && v.T == v.X * v.Y
    ensures OnCurveAt(-v.X, v.Y)
  {
    hide Times, Plus, Minus, Same, Numerator, Denominator;
    var x, y := v.X, v.Y;
    OnEd25519Iff(v);
    SameIff(y * y - x * x, 1 * 1 + D * ((x * y) * (x * y)));
    Regroup(x, y, x, y);
    TwoTerms(x * x, y * y, D);
    CurveEquation(x * x, y * y, D * ((x * x) * (y * y)));
    assert (-x) * (-x) == x * x;
    RootTimes(-x, Denominator(y));
    FractionIs(y);
    ModTwice(y * y - 1);
    ModTwice((y * y) * D + 1);
    SameProducts(Denominator(y), (y * y) * D + 1, x * x);
    TimesComm(Denominator(y), x * x);
    TimesComm((y * y) * D + 1, x * x);
    TimesIs(x * x, Denominator(y));
    TimesIs(x * x, (y * y) * D + 1);
  }

  lemma CurveEquation(a: int, b: int, k: int)
    requires (b - a) % P == (1 + k) % P
    ensures (k + a) % P == (b - 1) % P
  {
    Quot(b - a);
    Quot(1 + k);
    assert ((b - a) / P) * P - ((1 + k) / P) * P == ((b - a) / P - (1 + k) / P) * P;
    ModIs(b - 1, (b - a) / P - (1 + k) / P, k + a);
  }

  lemma ZeroDecoded(p: seq<byte>, x: int)
    requires |p| == 32 && Fermat() && StandardDecodes(p) && x % P == 0 && OnCurveAt((-x) % P, Encoded(p))
    requires 0 <= Encoded(p)
    ensures (-x) % P % 2 == p[31] / 128
  {
    hide Fermat, OnCurveAt, Encoded;
    var y := Encoded(p);
    Quot(x);
    ModIs(-x, -(x / P), 0);
    ZeroRoot(y);
    if p[31] / 128 == 1 {
      NoNegativeZero(y);
    }
  }

  // ---- two accepted encodings that packing never produces ----

  /** y = 1 modulo p is always accepted, with x = 0. */
  lemma OneDecodes(p: seq<byte>)
    requires Encoded(p) == 1 || Encoded(p) == P + 1
    ensures Decodable(p)
  {
    hide Times, Encoded, Pow, Denominator, RootExponent, Radicand;
    var y := Encoded(p);
    var v := Denominator(y);
    FractionIs(y);
    assert Numerator(y) == 0 by {
      OppositeSquare(P, -1);
      ModIs(y * y - 1, if y == 1 then 0 else P + 2, 0);
    }
    var w := Pow(Radicand(0, v), RootExponent());
    CandidateIs(0, v, w);
    TimesOf(0, 0, 0, 0);
    TimesOf(0, 0, v, v);
  }

  /** The 32 bytes low, thirty times middle, top. */
  function Framed(low: byte, middle: byte, top: byte): seq<byte> {
    [low] + seq(30, i => middle) + [top]
  }

  /** p + 1 in 255 bits */
  const P_PLUS_ONE: seq<byte> := Framed(238, 255, 127)

  /** y = 1 with the sign bit set */
  const MINUS_ZERO: seq<byte> := Framed(1, 0, 128)

  lemma {:induction false} LEOnes(n: nat)
    ensures MB.LE(seq(n, i => 255)) == Pow2(8 * n) - 1
  {
    if n > 0 {
      LEOnes(n - 1);
      assert seq(n, i => 255)[1..] == seq(n - 1, i => 255);
      Pow2Add(8, 8 * (n - 1));
      Pow2Values();
    }
  }

  lemma FramedValue(low: byte, middle: byte, top: byte)
    ensures MB.LE(Framed(low, middle, top)) == low + 256 * MB.LE(seq(30, i => middle)) + Pow2(248) * top
  {
    hide MB.LE, Pow2;
    var m := seq(30, i => middle);
    assert Framed(low, middle, top) == [low] + (m + [top]);
    MB.LEAppend([low], m + [top]);
    MB.LEAppend(m, [top]);
    MB.LEOne(low);
    MB.LEOne(top);
    Pow2Values();
    Pow2Add(8, 240);
    assert Pow2(8) * (Pow2(240) * top) == (Pow2(8) * Pow2(240)) * top;
  }

  lemma ValuesAre()
    ensures MB.LE(P_PLUS_ONE) == P + 1 && MB.LE(MINUS_ZERO) == TWO255 + 1
  {
    hide MB.LE, Pow2;
    FramedValue(238, 255, 127);
    FramedValue(1, 0, 128);
    LEOnes(30);
    MB.LEZeros(seq(30, i => 0));
    Pow2Values();
    Pow2Add(8, 240);
    Top255();
  }

  /** Both are accepted; the standard rejects both, and neither comes back from packing. */
  lemma AcceptedBeyondStandard(p: seq<byte>, v: Point, r: seq<byte>)
    requires Fermat() && (p == P_PLUS_ONE || p == MINUS_ZERO)
    ensures Decodable(p) && !StandardDecodes(p)
    ensures DecodedAs(p, v) && |r| == 32 && MB.LE(r) == Encoding(Negative(v)) ==> r != p
  {
    hide MB.LE, Encoding, Decodable, OnEd25519, Fermat, StandardDecodes, OnCurveAt;
    ValuesAre();
    SmallMod(P + 1, TWO255);
    DivModUnique(TWO255 + 1, TWO255, 1, 1);
    OneDecodes(p);
    StandardIff(p);
    if DecodedAs(p, v) && |r| == 32 && MB.LE(r) == Encoding(Negative(v)) {
      UnpackThenPack(p, v, r);
      if p == MINUS_ZERO {
        DecodedIsNegative(p, v);
        Quot(-v.X);
        OnlyZeroRoot((-v.X) % P, 1);
        if v.X % P != 0 {
          NonzeroNegative(v.X);
        }
      }
    }
  }
}
