/**
 The last step of multi-scalar multiplication: double-and-add over the bits of the one scalar that
 the Bos-Coster loop leaves.
 */
module MultiScalarFinal {
  import opened Words
  import opened ModmBatch
  import opened AbelianGroup
  import BH = BatchHeap

  // which limb is the 128th bit in
  const LIMB_128_BITS: nat := (128 + 56 - 1) / 56

  /** The number formed by the bits of s at bit f of the given limb and above, over limbs 0..3. */
  ghost function Prefix(s: Limbs, limb: nat, f: nat): nat
    requires f <= 56
    decreases 4 - limb, 56 - f
  {
    if limb >= 4 then 0
    else if f == 56 then Prefix(s, limb + 1, 0)
    else 2 * Prefix(s, limb, f + 1) + (s[limb] / Pow2(f)) % 2
  }

  lemma PrefixUnfold(s: Limbs, limb: nat, f: nat)
    requires limb < 4 && f <= 56
    ensures f == 56 ==> Prefix(s, limb, f) == Prefix(s, limb + 1, 0)
    ensures f < 56 ==> Prefix(s, limb, f) == 2 * Prefix(s, limb, f + 1) + (s[limb] / Pow2(f)) % 2
  {
  }

  lemma Pow2Step(k: nat)
    ensures Pow2(k + 1) == 2 * Pow2(k) && Pow2(0) == 1
  {
  }

  lemma SmallQuotient(x: nat, d: nat)
    requires x < d
    ensures x / d == 0
  {
    DivModUnique(x, d, 0, x);
  }

  lemma {:induction false} PrefixLimb(s: Limbs, limb: nat, f: nat)
    requires Proper(s) && limb < 4 && f <= 56
    ensures Prefix(s, limb, f) == Prefix(s, limb + 1, 0) * Pow2(56 - f) + s[limb] / Pow2(f)
    decreases 56 - f
  {
    hide Prefix, Pow2;
    var above := Prefix(s, limb + 1, 0);
    PrefixUnfold(s, limb, f);
    if f == 56 {
      Pow2Values();
      Pow2Step(0);
      SmallQuotient(s[limb], Pow2(56));
    } else {
      PrefixLimb(s, limb, f + 1);
      Pow2Step(55 - f);
      Pow2Step(f);
      HalfShift(above, Pow2(55 - f));
      DivTwice(s[limb], Pow2(f));
    }
  }

  lemma DivTwice(x: nat, p: nat)
    requires p > 0
    ensures x / p == 2 * (x / (2 * p)) + (x / p) % 2
  {
    var q, r := x / p, x % p;
    assert x == p * q + r;
    assert p * q == (2 * p) * (q / 2) + p * (q % 2) by {
      assert q == 2 * (q / 2) + q % 2;
      assert p * (2 * (q / 2)) == (2 * p) * (q / 2);
      assert p * (2 * (q / 2) + q % 2) == p * (2 * (q / 2)) + p * (q % 2);
    }
    assert 0 <= p * (q % 2) <= p by {
      assert q % 2 == 0 || q % 2 == 1;
    }
    DivModUnique(x, 2 * p, q / 2, p * (q % 2) + r);
  }

  lemma PrefixStep(s: Limbs, limb: nat)
    requires Proper(s) && limb < 4
    ensures Prefix(s, limb, 0) == Prefix(s, limb + 1, 0) * TWO56 + s[limb]
    ensures Prefix(s, limb, 56) == Prefix(s, limb + 1, 0)
  {
    hide Prefix, Pow2;
    PrefixLimb(s, limb, 0);
    PrefixUnfold(s, limb, 56);
    Pow2Values();
    Pow2Step(0);
    assert s[limb] / 1 == s[limb];
  }

  lemma PrefixBit(s: Limbs, limb: nat, f: nat)
    requires limb < 4 && f < 56
    ensures Prefix(s, limb, f) == 2 * Prefix(s, limb, f + 1) + if And(s[limb], Pow2(f)) != 0 then 1 else 0
  {
    AndBit(s[limb], f);
  }

  lemma PrefixTop(s: Limbs)
    ensures Prefix(s, 4, 0) == 0
  {
  }

  /** The bits of limbs 0..3 are the value modulo 2^224. */
  lemma PrefixValue(s: Limbs)
    requires Proper(s)
    ensures Prefix(s, 0, 0) == Value(s) % R4 == Low(s, 4) && Prefix(s, 4, 0) == 0
  {
    hide Prefix;
    PrefixTop(s);
    PrefixStep(s, 3);
    PrefixStep(s, 2);
    PrefixStep(s, 1);
    PrefixStep(s, 0);
    LowBound(s, 4);
    DivModUnique(Value(s), R4, s[4], Low(s, 4));
  }

  /** x & (1 << f) */
  lemma {:induction false} AndBit(x: nat, f: nat)
    ensures And(x, Pow2(f)) != 0 <==> (x / Pow2(f)) % 2 == 1
    decreases f
  {
    if f == 0 {
      assert x / 1 == x;
      assert And(x / 2, 0) == 0;
    } else {
      AndBit(x / 2, f - 1);
      assert x / Pow2(f) == (x / 2) / Pow2(f - 1) by { HalfDiv(x, Pow2(f - 1)); }
    }
  }

  lemma HalfDiv(x: nat, p: nat)
    requires p > 0
    ensures x / (2 * p) == (x / 2) / p
  {
    var q, r := (x / 2) / p, (x / 2) % p;
    assert x / 2 == p * q + r;
    assert 2 * (p * q) == (2 * p) * q;
    DivModUnique(x, 2 * p, q, 2 * r + x % 2);
  }

  /** is a == 1 */
  method IsOne256(a: Limbs) returns (r: bool)
    ensures r <==> a[0] == 1 && a[1] == a[2] == a[3] == a[4] == 0
  {
    for i := 0 to 5
      invariant i > 0 ==> a[0] == 1
      invariant forall j :: 1 <= j < i ==> a[j] == 0
    {
      if a[i] != (if i != 0 then 0 else 1) {
        return false;
      }
    }
    return true;
  }

  /** [2]([k]p) and [2]([k]p) + p */
  lemma DoubleAndAdd<T(!new)>(g: Group<T>, k: nat, p: T)
    requires Abelian(g)
    ensures g.add(Mul(g, k, p), Mul(g, k, p)) == Mul(g, 2 * k, p)
    ensures g.add(Mul(g, 2 * k, p), p) == Mul(g, 2 * k + 1, p)
  {
    MulAdd(g, k, k, p);
    MulSucc(g, 2 * k, p);
  }

  /** Pow2(f) halves to Pow2(f - 1), and to 0 at f == 0. */
  lemma HalfFlag(f: nat)
    ensures Pow2(f) / 2 == if f == 0 then 0 else Pow2(f - 1)
    ensures Pow2(f) > 0 && Pow2(f + 1) == 2 * Pow2(f) && (f > 0 ==> Pow2(f) == 2 * Pow2(f - 1))
  {
  }

  lemma TopFlag()
    ensures Pow2(55) == 0x80_0000_0000_0000 && Pow2(0) == 1
  {
    Pow2Values();
  }

  /** A point, or a read below limb 0 of the scalar. */
  datatype Outcome<T> = Returned(value: T) | OutOfBounds

  /** No bit set in the four limbs that are searched, and neither 0 nor 1. */
  ghost predicate Outside(s: nat) {
    s > 1 && s % R4 == 0
  }

  /** The least power of two above n. */
  ghost function Above(n: nat): (p: nat)
    ensures p > n && (n > 0 ==> p <= 2 * n)
  {
    if n == 0 then 1 else 2 * Above(n / 2)
  }

  lemma {:induction false} AboveIsPower(n: nat) returns (bits: nat)
    ensures Above(n) == Pow2(bits)
  {
    bits := 0;
    if n > 0 {
      var k := AboveIsPower(n / 2);
      bits := k + 1;
    }
  }

  /** What the last step adds to a scalar: the power of two above its low 224 bits, less the bits above those. */
  ghost function Excess(s: nat): int {
    if s <= 1 then 0 else Above(s % R4) - (s - s % R4)
  }

  lemma AboveIs(n: nat, bits: nat)
    requires bits > 0 && Pow2(bits - 1) <= n < Pow2(bits)
    ensures Above(n) == Pow2(bits)
    decreases bits
  {
    if bits > 1 {
      AboveIs(n / 2, bits - 1);
    } else {
      assert Pow2(0) == 1;
      assert Above(0) == 1;
    }
  }

  /**
   Computes [s + Excess(s)]point: the accumulator already holds the point when the leading bit is processed, and
   limb 4 is not looked at.
   */
  method Final<T(!new)>(g: Group<T>, point: T, scalar: Limbs) returns (r: Outcome<T>)
    requires Abelian(g) && Proper(scalar)
    ensures r.OutOfBounds? <==> Outside(Value(scalar))
    ensures r.Returned? ==> r.value == Mul(g, Value(scalar) + Excess(Value(scalar)), point)
  {
    hide Prefix, Pow2, And, Abelian, Above;
    var one := IsOne256(scalar);
    var zero := IsZero256(scalar);
    PrefixValue(scalar);
    Unit(g, point);
    if one {
      return Returned(point);
    } else if zero {
      return Returned(g.zero);
    }
    AboveOne(scalar);
    r := DoubleAndAddBits(g, point, scalar);
  }

  lemma AboveOne(s: Limbs)
    requires Proper(s) && Value(s) != 0 && !(s[0] == 1 && s[1] == s[2] == s[3] == s[4] == 0)
    ensures Value(s) > 1
  {
    if Value(s) == 1 {
      FitsLow(s, 1);
    }
  }

  method DoubleAndAddBits<T(!new)>(g: Group<T>, point: T, scalar: Limbs) returns (result: Outcome<T>)
    requires Abelian(g) && Proper(scalar) && Value(scalar) > 1
    ensures result.OutOfBounds? <==> Value(scalar) % R4 == 0
    ensures result.Returned? ==> result.value == Mul(g, Value(scalar) % R4 + Above(Value(scalar) % R4), point)
  {
    hide Prefix, Pow2, And, Abelian, Above, Value, Mul, Proper, Low;
    PrefixValue(scalar);
    TopFlag();
    var found: bool, limb: nat, flag: nat;
    ghost var f: nat;
    found, limb, flag, f := FirstBit(scalar);
    if !found {
      return OutOfBounds;
    }
    var r := point;
    ghost var bits: nat := 0;
    PrefixBit(scalar, limb, f);
    ghost var done := Prefix(scalar, limb, f + 1);
    assert r == Mul(g, 1, point) by { Unit(g, point); }
    while true
      invariant limb < 4 && f < 56 && flag == Pow2(f) && done == Prefix(scalar, limb, f + 1)
      invariant r == Mul(g, Pow2(bits) + done, point)
      invariant bits == 0 ==> done == 0 && Prefix(scalar, limb, f) == 1
      invariant bits > 0 ==> Pow2(bits - 1) <= done < Pow2(bits)
      decreases limb, f
    {
      PrefixBit(scalar, limb, f);
      DoubleAndAdd(g, Pow2(bits) + done, point);
      HalfFlag(bits);
      r := g.add(r, r);
      if And(scalar[limb], flag) != 0 {
        r := g.add(r, point);
      }
      bits := bits + 1;
      done := Prefix(scalar, limb, f);
      HalfFlag(f);
      flag := flag / 2;
      if flag == 0 {
        if limb == 0 {
          break;
        }
        PrefixStep(scalar, limb - 1);
        limb, flag, f := limb - 1, 0x80_0000_0000_0000, 55;
      } else {
        f := f - 1;
      }
    }
    AboveIs(done, bits);
    result := Returned(r);
  }

  /** The limb and flag of the leading set bit of limbs 0..3; none found when all four limbs are zero. */
  method FirstBit(scalar: Limbs) returns (found: bool, limb: nat, flag: nat, ghost f: nat)
    requires Proper(scalar)
    ensures found <==> Prefix(scalar, 0, 0) > 0
    ensures found ==> limb < 4 && f < 56 && flag == Pow2(f) && Prefix(scalar, limb, f) == 1
  {
    hide Prefix, Pow2, And;
    PrefixValue(scalar);
    TopFlag();
    limb, flag, f := LIMB_128_BITS, 0x80_0000_0000_0000, 55;
    while scalar[limb] == 0
      invariant limb < 4 && Prefix(scalar, limb + 1, 0) == 0
      decreases limb
    {
      PrefixStep(scalar, limb);
      if limb == 0 {
        return false, limb, flag, f;
      }
      limb := limb - 1;
    }
    found := true;
    PrefixStep(scalar, limb);
    AnyLimb(scalar, limb);
    while And(scalar[limb], flag) == 0
      invariant f < 56 && flag == Pow2(f) && Prefix(scalar, limb, f + 1) == 0 && Prefix(scalar, limb, 0) > 0
      decreases f
    {
      PrefixBit(scalar, limb, f);
      HalfFlag(f);
      flag := flag / 2;
      f := f - 1;
    }
    PrefixBit(scalar, limb, f);
  }

  lemma AnyLimb(s: Limbs, limb: nat)
    requires Proper(s) && limb < 4 && s[limb] > 0
    ensures Prefix(s, 0, 0) > 0
  {
    hide Prefix;
    PrefixValue(s);
  }

  /** The last step returns [s]point, or [s]point plus some rest, exactly when its excess yields that rest. */
  lemma FinalIsExactIff<T(!new)>(g: Group<T>, point: T, s: nat, rest: T)
    requires Abelian(g)
    ensures Mul(g, s + Excess(s), point) == g.add(Mul(g, s, point), rest) <==> Mul(g, Excess(s), point) == rest
  {
    hide Abelian, Mul, Excess;
    var x, y := Mul(g, s, point), Mul(g, Excess(s), point);
    MulAdd(g, s, Excess(s), point);
    Swap(g, x, y);
    Swap(g, x, rest);
    if g.add(x, y) == g.add(x, rest) {
      CancelRight(g, y, rest, x);
    }
  }

  /** How many terms the loop works on: all of them, unless it is stuck on the first half. */
  ghost function Reach(v: seq<nat>, count: nat): (n: nat)
    requires 5 <= count <= |v|
    ensures n <= count
  {
    if BH.Stuck(v, BH.FirstHalf(count)) then BH.FirstHalf(count) else count
  }

  /** The sum of the terms the loop never comes to. */
  ghost function Rest<T(!new)>(g: Group<T>, v: seq<nat>, ps: seq<T>, count: nat): T
    requires 5 <= count <= |v| && count <= |ps|
  {
    BH.Combination(g, v, ps, Reach(v, count), count)
  }

  /**
   The whole multi-scalar multiplication, on every input. With s the greatest common divisor of the scalars the loop
   reaches, and p the sum of their terms divided by s, it returns [s + Excess(s)]p.
   */
  method MultiScalarmult<T(!new)>(h: BH.Heap<T>, count: nat) returns (r: Outcome<T>, ghost s: nat, ghost p: T)
    requires Abelian(h.g) && h.Shape() && 5 <= count <= h.heap.Length && count % 2 == 1
    requires forall i :: BH.FirstHalf(count) <= i < count ==> h.v[i] < TWO128
    modifies h, h.heap, h.scalars, h.points
    ensures BH.Remains(h.g, old(h.v), old(h.points[..]), Reach(old(h.v), count), s, p)
    ensures BH.Combination(h.g, old(h.v), old(h.points[..]), 0, count) ==
        h.g.add(Mul(h.g, s, p), Rest(h.g, old(h.v), old(h.points[..]), count))
    ensures r.OutOfBounds? <==> Outside(s)
    ensures r.Returned? ==> r.value == Mul(h.g, s + Excess(s), p)
    ensures r == Returned(BH.Combination(h.g, old(h.v), old(h.points[..]), 0, count)) <==>
        !Outside(s) && Mul(h.g, Excess(s), p) == Rest(h.g, old(h.v), old(h.points[..]), count)
  {
    hide BH.Combination, BH.Stuck, Abelian, BH.Remains, Excess, Outside;
    ghost var v, ps := h.v, h.points[..];
    var max1, _ := h.BosCoster(count);
    assert h.Row(max1);
    s, p := h.v[max1], h.points[max1];
    r := Final(h.g, h.points[max1], h.scalars[max1]);
    EmptySum(h.g, v, ps, count);
    Unit(h.g, Mul(h.g, s, p));
    FinalIsExactIff(h.g, p, s, Rest(h.g, v, ps, count));
  }

  lemma EmptySum<T(!new)>(g: Group<T>, v: seq<nat>, ps: seq<T>, n: nat)
    requires n <= |v| && n <= |ps|
    ensures BH.Combination(g, v, ps, n, n) == g.zero
  {
  }

  // ---- what the greatest common divisor says to a caller ----

  /** s is 0 only if all scalars are, and above 1 only if they have a common divisor above 1 and are not all zero. */
  lemma DivisorMeaning(v: seq<nat>, n: nat, s: nat)
    requires n <= |v| && BH.GreatestDivisor(v, n, s)
    ensures s == 0 <==> forall i :: 0 <= i < n ==> v[i] == 0
    ensures s > 1 <==> (exists i :: 0 <= i < n && v[i] > 0) && exists d :: d > 1 && BH.DividesAll(d, v, n)
  {
    hide BH.DividesAll;
    if s == 0 {
      forall i | 0 <= i < n
        ensures v[i] == 0
      {
        DivModUnique(0, v[i] + 1, 0, 0);
        assert BH.Divides(v[i] + 1, 0);
        Member(v[i] + 1, v, n, i);
        SmallMod(v[i], v[i] + 1);
      }
    } else {
      DivModUnique(s, s, 1, 0);
      assert BH.Divides(s, s);
      if forall i :: 0 <= i < n ==> v[i] == 0 {
        AllZero(s + 1, v, n);
        SmallMod(s, s + 1);
      }
      if s == 1 {
        forall d: nat | d > 1
          ensures !BH.DividesAll(d, v, n)
        {
          SmallMod(1, d);
          assert !BH.Divides(d, 1);
        }
      }
    }
  }

  lemma Member(d: nat, v: seq<nat>, n: nat, i: nat)
    requires d > 0 && i < n <= |v| && BH.DividesAll(d, v, n)
    ensures v[i] % d == 0
  {
    assert BH.Divides(d, v[i]);
  }

  lemma AllZero(d: nat, v: seq<nat>, n: nat)
    requires d > 0 && n <= |v| && forall i :: 0 <= i < n ==> v[i] == 0
    ensures BH.DividesAll(d, v, n)
  {
    DivModUnique(0, d, 0, 0);
  }

  /** There is only one greatest common divisor. */
  lemma DivisorUnique(v: seq<nat>, n: nat, s: nat, t: nat)
    requires n <= |v| && BH.GreatestDivisor(v, n, s) && BH.GreatestDivisor(v, n, t)
    ensures s == t
  {
    hide BH.DividesAll;
    DivisorMeaning(v, n, s);
    DivisorMeaning(v, n, t);
    if s > 0 {
      DivModUnique(s, s, 1, 0);
      DivModUnique(t, t, 1, 0);
      assert BH.Divides(s, s) && BH.Divides(t, t);
      assert BH.DividesAll(s, v, n) && BH.DividesAll(t, v, n);
      assert BH.Divides(s, t) && BH.Divides(t, s);
      if s < t {
        SmallMod(s, t);
      } else if t < s {
        SmallMod(t, s);
      }
    }
  }

  // ---- inputs on which the result is not the sum ----

  function Integers(): Group<int> {
    Group(0, (a, b) => a + b, a => -a)
  }

  lemma {:induction false} IntegerMul(k: int, p: int)
    ensures Abelian(Integers()) && Mul(Integers(), k, p) == k * p
    decreases if k < 0 then -k else k
  {
    if k > 0 {
      IntegerMul(k - 1, p);
      assert (k - 1) * p + p == k * p;
    } else if k < 0 {
      IntegerMul(k + 1, p);
      assert (k + 1) * p - p == k * p;
    }
  }

  /** On the point 1 of the integers: scalar 2 gives 6, scalar 2^224 + 1 gives 3, scalar 2^224 is out of bounds. */
  method FinalFails() returns (two: Outcome<int>, high: Outcome<int>, outside: Outcome<int>)
    ensures two == Returned(6) && high == Returned(3) && outside == OutOfBounds
  {
    hide Abelian;
    IntegerMul(6, 1);
    IntegerMul(3, 1);
    SmallExcess();
    two := Final(Integers(), 1, [2, 0, 0, 0, 0]);
    high := Final(Integers(), 1, [1, 0, 0, 0, 1]);
    outside := Final(Integers(), 1, [0, 0, 0, 0, 1]);
  }

  lemma SmallExcess()
    ensures Excess(2) == 4 && R4 + 1 + Excess(R4 + 1) == 3 && Outside(R4) && !Outside(2) && !Outside(R4 + 1)
  {
    assert Above(0) == 1 && Above(1) == 2 && Above(2) == 4;
    assert (R4 + 1) % R4 == 1 && R4 % R4 == 0 && 2 % R4 == 2;
  }

  /** Scalars 0, 0, 0, 1, 0: the loop exits at once on an all-zero first half and misses the term 1. */
  method StuckFails() returns (r: Outcome<int>, ghost sum: int)
    ensures sum == BH.Combination(Integers(), [0, 0, 0, 1, 0], [0, 0, 0, 1, 0], 0, 5) == 1
    ensures r == Returned(0)
  {
    hide Abelian, Excess, Outside;
    IntegerMul(0, 0);
    StuckInput();
    var zero: Limbs := [0, 0, 0, 0, 0];
    var one: Limbs := [1, 0, 0, 0, 0];
    var h := new BH.Heap<int>(Integers(), [0, 0, 0, 1, 0], [zero, zero, zero, one, zero]);
    assert h.Row(0) && h.Row(1) && h.Row(2) && h.Row(3) && h.Row(4);
    assert h.v == [0, 0, 0, 1, 0];
    ghost var s, p;
    r, s, p := MultiScalarmult(h, 5);
    DivisorMeaning([0, 0, 0, 1, 0], 3, s);
    ZeroExcess();
    sum := 1;
    IntegerMul(0, p);
  }

  lemma ZeroExcess()
    ensures Excess(0) == 0 && !Outside(0)
  {
  }

  lemma StuckInput()
    ensures BH.FirstHalf(5) == 3 && Reach([0, 0, 0, 1, 0], 5) == 3
    ensures BH.Combination(Integers(), [0, 0, 0, 1, 0], [0, 0, 0, 1, 0], 0, 5) == 1
  {
    var v: seq<nat> := [0, 0, 0, 1, 0];
    var ts := BH.Terms(Integers(), v, [0, 0, 0, 1, 0], 0, 5);
    IntegerMul(0, 0);
    IntegerMul(1, 1);
    assert ts == [0, 0, 0, 1, 0];
    SumOfZeros(Integers(), ts, 3);
    assert BH.AtMostOneNonzero(v, 3);
  }
}
