/**
 The equation of batch verification: a random linear combination of the errors of the single signatures.
 */
module BatchEquation {
  import opened Words
  import opened AbelianGroup
  import BH = BatchHeap
  import Ed25519
  import M = Modm
  import MO = ModmBatch
  import MF = MultiScalarFinal

  // ---- elements that the group order annihilates ----

  ghost predicate Killed<T(!new)>(g: Group<T>, x: T) {
    Mul(g, M.L, x) == g.zero
  }

  /** L has no divisors but 1 and itself. */
  ghost predicate PrimeOrder() {
    forall d: nat :: 1 < d < M.L ==> !BH.Divides(d, M.L)
  }

  lemma KilledMul<T(!new)>(g: Group<T>, k: nat, x: T)
    requires Abelian(g) && Killed(g, x)
    ensures Killed(g, Mul(g, k, x))
  {
    hide Abelian, Mul;
    MulMul(g, M.L, k, x);
    MulMul(g, k, M.L, x);
    MulZero(g, k);
    assert M.L * k == k * M.L;
  }

  lemma KilledAdd<T(!new)>(g: Group<T>, x: T, y: T)
    requires Abelian(g) && Killed(g, x) && Killed(g, y)
    ensures Killed(g, g.add(x, y))
  {
    hide Abelian, Mul;
    MulDistributes(g, M.L, x, y);
    Unit(g, g.zero);
  }

  lemma KilledZero<T(!new)>(g: Group<T>)
    requires Abelian(g)
    ensures Killed(g, g.zero)
  {
    hide Abelian, Mul;
    MulZero(g, M.L);
  }

  lemma KilledNeg<T(!new)>(g: Group<T>, x: T)
    requires Abelian(g) && Killed(g, x)
    ensures Killed(g, g.neg(x))
  {
    hide Abelian, Mul;
    var minusOne: int := -1;
    MulNeg(g, 1, x);
    Unit(g, x);
    MulMul(g, M.L, minusOne, x);
    MulMul(g, minusOne, M.L, x);
    MulZero(g, minusOne);
  }

  lemma {:induction false} KilledSum<T(!new)>(g: Group<T>, ts: seq<T>)
    requires Abelian(g) && forall i :: 0 <= i < |ts| ==> Killed(g, ts[i])
    ensures Killed(g, Sum(g, ts))
  {
    hide Abelian, Mul, Killed;
    KilledZero(g);
    if ts != [] {
      KilledSum(g, ts[..|ts| - 1]);
      KilledAdd(g, Sum(g, ts[..|ts| - 1]), ts[|ts| - 1]);
    }
  }

  lemma KilledCombination<T(!new)>(g: Group<T>, v: seq<nat>, ps: seq<T>, n: nat)
    requires Abelian(g) && n <= |v| && n <= |ps| && forall i :: 0 <= i < n ==> Killed(g, ps[i])
    ensures Killed(g, BH.Combination(g, v, ps, 0, n))
  {
    hide Abelian, Mul, Killed;
    var ts := BH.Terms(g, v, ps, 0, n);
    forall i | 0 <= i < n
      ensures Killed(g, ts[i])
    {
      KilledMul(g, v[i], ps[i]);
    }
    KilledSum(g, ts);
  }

  lemma DividesRemainder(d: nat, a: nat, c: nat)
    requires d > 0 && c > 0 && BH.Divides(d, c)
    ensures BH.Divides(d, a) <==> BH.Divides(d, a % c)
  {
    var k, n := c / d, a / c;
    assert c == d * k && a == c * n + a % c;
    assert (d * k) * n == d * (k * n);
    DivModUnique(c * n, d, k * n, 0);
    assert BH.Divides(d, c * n);
    BH.DividesDifference(d, a, c * n);
  }

  /** Two multiples that vanish have a common divisor that does (Euclid's algorithm). */
  lemma {:induction false} Euclid<T(!new)>(g: Group<T>, a: nat, c: nat, x: T) returns (d: nat)
    requires Abelian(g) && a > 0 && Mul(g, a, x) == g.zero == Mul(g, c, x)
    ensures d > 0 && BH.Divides(d, a) && BH.Divides(d, c) && Mul(g, d, x) == g.zero
    decreases c
  {
    hide Abelian, Mul;
    if c == 0 {
      d := a;
      DivModUnique(a, a, 1, 0);
      DivModUnique(0, a, 0, 0);
    } else {
      var n, r := a / c, a % c;
      assert a == n * c + r;
      MulMul(g, n, c, x);
      MulZero(g, n);
      MulAdd(g, n * c, r, x);
      Unit(g, Mul(g, r, x));
      d := Euclid(g, c, r, x);
      DividesRemainder(d, a, c);
    }
  }

  lemma DivisorBelow(d: nat, k: nat)
    requires d > 0 && k > 0 && BH.Divides(d, k)
    ensures d <= k
  {
    if d > k {
      SmallMod(k, d);
    }
  }

  /** In the subgroup of prime order, a multiple below the order vanishes only for the neutral element. */
  lemma OnlyZeroVanishes<T(!new)>(g: Group<T>, k: nat, x: T)
    requires Abelian(g) && PrimeOrder() && Killed(g, x) && 0 < k < M.L && Mul(g, k, x) == g.zero
    ensures x == g.zero
  {
    hide Abelian, Mul;
    var d := Euclid(g, k, M.L, x);
    DivisorBelow(d, k);
    assert d == 1;
    Unit(g, x);
  }

  /** Multiplier below L: [k]x is neutral exactly when k is 0 or x is neutral. */
  lemma VanishesIff<T(!new)>(g: Group<T>, k: nat, x: T)
    requires Abelian(g) && PrimeOrder() && Killed(g, x) && k < M.L
    ensures Mul(g, k, x) == g.zero <==> k == 0 || x == g.zero
  {
    hide Abelian, PrimeOrder, Killed;
    if k > 0 && Mul(g, k, x) == g.zero {
      OnlyZeroVanishes(g, k, x);
    }
    MulZero(g, k);
  }

  // ---- the last step of multi-scalar multiplication does no harm to the neutral test ----

  lemma {:induction false} SumTimesScalar<T(!new)>(g: Group<T>, s: nat, ts: seq<T>, us: seq<T>)
    requires Abelian(g) && |us| == |ts| && forall i :: 0 <= i < |ts| ==> us[i] == Mul(g, s, ts[i])
    ensures Sum(g, us) == Mul(g, s, Sum(g, ts))
    decreases |ts|
  {
    hide Abelian, Mul;
    if ts == [] {
      MulZero(g, s);
    } else {
      var n := |ts| - 1;
      SumTimesScalar(g, s, ts[..n], us[..n]);
      MulDistributes(g, s, Sum(g, ts[..n]), ts[n]);
    }
  }

  /** The sum of the first n terms is [s]p. */
  lemma RemainsSum<T(!new)>(g: Group<T>, v: seq<nat>, ps: seq<T>, n: nat, s: nat, p: T)
    requires Abelian(g) && n <= |v| && n <= |ps| && BH.Remains(g, v, ps, n, s, p) && s > 0
    ensures BH.Combination(g, v, ps, 0, n) == Mul(g, s, p)
  {
    hide Abelian, Mul, BH.DividesAll;
    var ts, us := BH.Terms(g, BH.Over(v, s), ps, 0, n), BH.Terms(g, v, ps, 0, n);
    DivModUnique(s, s, 1, 0);
    assert BH.Divides(s, s);
    forall i | 0 <= i < n
      ensures us[i] == Mul(g, s, ts[i])
    {
      MF.Member(s, v, n, i);
      MulMul(g, s, v[i] / s, ps[i]);
    }
    SumTimesScalar(g, s, ts, us);
  }

  /** On an input that is not stuck the greatest common divisor has at most 128 bits. */
  lemma DivisorSmall(v: seq<nat>, half: nat, count: nat, s: nat)
    requires half <= count <= |v| && !BH.Stuck(v, half) && BH.GreatestDivisor(v, count, s)
    ensures 0 < s < TWO128
  {
    hide BH.DividesAll;
    MF.DivisorMeaning(v, count, s);
    NotAllZero(v, half);
    DivModUnique(s, s, 1, 0);
    assert BH.Divides(s, s);
    FewerToDivide(s, v, half, count);
  }

  lemma NotAllZero(v: seq<nat>, half: nat)
    requires half <= |v| && !BH.Stuck(v, half)
    ensures exists i :: 0 <= i < half && v[i] > 0
  {
    assert !BH.AtMostOneNonzero(v, half);
  }

  lemma FewerToDivide(d: nat, v: seq<nat>, half: nat, count: nat)
    requires d > 0 && half <= count <= |v| && BH.DividesAll(d, v, count)
    ensures BH.DividesAll(d, v, half)
  {
  }

  lemma ExcessSmall(s: nat)
    requires 0 < s < TWO128
    ensures !MF.Outside(s) && 0 < s + MF.Excess(s) < M.L
  {
    hide MF.Above;
    SmallMod(s, MO.R4);
  }

  /**
   In the subgroup of prime order, what the multi-scalar multiplication returns is neutral if and only if the sum of
   all terms is: the excess of the last step does not matter there.
   */
  lemma NeutralIff<T(!new)>(g: Group<T>, v: seq<nat>, ps: seq<T>, count: nat, s: nat, p: T)
    requires Abelian(g) && PrimeOrder() && 5 <= count <= |v| && count <= |ps|
    requires forall i :: 0 <= i < count ==> Killed(g, ps[i])
    requires !BH.Stuck(v, BH.FirstHalf(count)) && BH.Remains(g, v, ps, count, s, p)
    ensures !MF.Outside(s)
    ensures Mul(g, s + MF.Excess(s), p) == g.zero <==> BH.Combination(g, v, ps, 0, count) == g.zero
  {
    hide Abelian, PrimeOrder, Killed, BH.Stuck, BH.GreatestDivisor, BH.Combination, Mul, MF.Excess, MF.Outside;
    DivisorSmall(v, BH.FirstHalf(count), count, s);
    KilledCombination(g, BH.Over(v, s), ps, count);
    ExcessSmall(s);
    RemainsSum(g, v, ps, count, s, p);
    VanishesIff(g, s, p);
    VanishesIff(g, s + MF.Excess(s), p);
  }

  // ---- the sum as a combination of errors ----

  /** What a signature claims: with challenge h, response s, negated key a and negated commitment r. */
  datatype Claim<T> = Claim(h: nat, s: nat, a: T, r: T)

  /** [s]B + [h](-A) + (-R), neutral for a valid signature. */
  ghost function Error<T(!new)>(g: Group<T>, b: T, c: Claim<T>): T {
    g.add(g.add(Mul(g, c.s, b), Mul(g, c.h, c.a)), c.r)
  }

  ghost function Errors<T(!new)>(g: Group<T>, b: T, cs: seq<Claim<T>>, zs: seq<nat>): (ts: seq<T>)
    requires |cs| == |zs|
    ensures |ts| == |cs|
  {
    seq(|cs|, i requires 0 <= i < |cs| => Mul(g, zs[i], Error(g, b, cs[i])))
  }

  /** The errors, each times its random factor. */
  ghost function Weighted<T(!new)>(g: Group<T>, b: T, cs: seq<Claim<T>>, zs: seq<nat>): T
    requires |cs| == |zs|
  {
    Sum(g, Errors(g, b, cs, zs))
  }

  ghost function Responses<T>(cs: seq<Claim<T>>, zs: seq<nat>): nat
    requires |cs| == |zs|
  {
    if cs == [] then 0 else Responses(cs[..|cs| - 1], zs[..|cs| - 1]) + cs[|cs| - 1].s * zs[|cs| - 1]
  }

  /** The scalars of a batch: the sum of all z s, then each h z, both modulo L, then each z. */
  ghost function BatchScalars<T>(cs: seq<Claim<T>>, zs: seq<nat>): (v: seq<nat>)
    requires |cs| == |zs|
    ensures |v| == 2 * |cs| + 1
  {
    [Responses(cs, zs) % M.L] + seq(|cs|, i requires 0 <= i < |cs| => (cs[i].h * zs[i]) % M.L) + zs
  }

  /** The points of a batch: the base point, the negated keys, the negated commitments. */
  ghost function BatchPoints<T>(b: T, cs: seq<Claim<T>>): (ps: seq<T>)
    ensures |ps| == 2 * |cs| + 1
  {
    [b] + seq(|cs|, i requires 0 <= i < |cs| => cs[i].a) + seq(|cs|, i requires 0 <= i < |cs| => cs[i].r)
  }

  ghost function KeyTerms<T(!new)>(g: Group<T>, cs: seq<Claim<T>>, zs: seq<nat>): (ts: seq<T>)
    requires |cs| == |zs|
    ensures |ts| == |cs|
  {
    seq(|cs|, i requires 0 <= i < |cs| => Mul(g, cs[i].h * zs[i], cs[i].a))
  }

  ghost function CommitmentTerms<T(!new)>(g: Group<T>, cs: seq<Claim<T>>, zs: seq<nat>): (ts: seq<T>)
    requires |cs| == |zs|
    ensures |ts| == |cs|
  {
    seq(|cs|, i requires 0 <= i < |cs| => Mul(g, zs[i], cs[i].r))
  }

  lemma SumOfOne<T(!new)>(g: Group<T>, x: T)
    requires Abelian(g)
    ensures Sum(g, [x]) == x
  {
    Unit(g, x);
    assert [x][..0] == [];
  }

  /** [z]e is the sum of its three terms. */
  lemma ErrorTerms<T(!new)>(g: Group<T>, b: T, c: Claim<T>, z: nat)
    requires Abelian(g)
    ensures Mul(g, z, Error(g, b, c)) ==
      g.add(g.add(Mul(g, c.s * z, b), Mul(g, c.h * z, c.a)), Mul(g, z, c.r))
  {
    hide Abelian, Mul;
    MulDistributes(g, z, g.add(Mul(g, c.s, b), Mul(g, c.h, c.a)), c.r);
    MulDistributes(g, z, Mul(g, c.s, b), Mul(g, c.h, c.a));
    MulMul(g, z, c.s, b);
    MulMul(g, z, c.h, c.a);
    assert z * c.s == c.s * z && z * c.h == c.h * z;
  }

  /** Summing by columns or by rows. */
  lemma {:induction false} ByRows<T(!new)>(g: Group<T>, b: T, cs: seq<Claim<T>>, zs: seq<nat>)
    requires Abelian(g) && |cs| == |zs|
    ensures g.add(g.add(Mul(g, Responses(cs, zs), b), Sum(g, KeyTerms(g, cs, zs))), Sum(g, CommitmentTerms(g, cs, zs)))
        == Weighted(g, b, cs, zs)
    decreases |cs|
  {
    hide Abelian, Mul, Error;
    if cs == [] {
      Unit(g, g.zero);
      MulNone(g, b);
    } else {
      var n := |cs| - 1;
      var cs', zs', c, z := cs[..n], zs[..n], cs[n], zs[n];
      ByRows(g, b, cs', zs');
      assert KeyTerms(g, cs, zs)[..n] == KeyTerms(g, cs', zs');
      assert CommitmentTerms(g, cs, zs)[..n] == CommitmentTerms(g, cs', zs');
      assert Errors(g, b, cs, zs)[..n] == Errors(g, b, cs', zs');
      MulAdd(g, Responses(cs', zs'), c.s * z, b);
      ErrorTerms(g, b, c, z);
      var d, a := Mul(g, Responses(cs', zs'), b), Sum(g, KeyTerms(g, cs', zs'));
      var r := Sum(g, CommitmentTerms(g, cs', zs'));
      var x, y, w := Mul(g, c.s * z, b), Mul(g, c.h * z, c.a), Mul(g, z, c.r);
      Interchange(g, d, x, a, y);
      Interchange(g, g.add(d, a), g.add(x, y), r, w);
    }
  }

  lemma MulNone<T(!new)>(g: Group<T>, x: T)
    ensures Mul(g, 0, x) == g.zero
  {
  }

  /** The sum of a batch is the weighted sum of its errors, for keys and a base point that the order annihilates. */
  lemma SumOfErrors<T(!new)>(g: Group<T>, b: T, cs: seq<Claim<T>>, zs: seq<nat>)
    requires Abelian(g) && |cs| == |zs| && Killed(g, b) && forall i :: 0 <= i < |cs| ==> Killed(g, cs[i].a)
    ensures BH.Combination(g, BatchScalars(cs, zs), BatchPoints(b, cs), 0, 2 * |cs| + 1) == Weighted(g, b, cs, zs)
  {
    hide Abelian, Mul, Weighted;
    var n, total := |cs|, Responses(cs, zs);
    var first, keys, rest := [Mul(g, total, b)], KeyTerms(g, cs, zs), CommitmentTerms(g, cs, zs);
    TermsSplit(g, b, cs, zs);
    BH.SumAppend(g, first + keys, rest);
    BH.SumAppend(g, first, keys);
    SumOfOne(g, Mul(g, total, b));
    ByRows(g, b, cs, zs);
  }

  lemma Entries<T>(b: T, cs: seq<Claim<T>>, zs: seq<nat>, i: nat)
    requires |cs| == |zs| && i < |cs|
    ensures var v, ps, n := BatchScalars(cs, zs), BatchPoints(b, cs), |cs|;
      && v[0] == Responses(cs, zs) % M.L && v[1 + i] == (cs[i].h * zs[i]) % M.L && v[1 + n + i] == zs[i]
      && ps[0] == b && ps[1 + i] == cs[i].a && ps[1 + n + i] == cs[i].r
  {
    hide Responses;
  }

  ghost function BatchTerms<T(!new)>(g: Group<T>, b: T, cs: seq<Claim<T>>, zs: seq<nat>): (ts: seq<T>)
    requires |cs| == |zs|
    ensures |ts| == 2 * |cs| + 1
  {
    BH.Terms(g, BatchScalars(cs, zs), BatchPoints(b, cs), 0, 2 * |cs| + 1)
  }

  lemma TermAt<T(!new)>(g: Group<T>, b: T, cs: seq<Claim<T>>, zs: seq<nat>, k: nat)
    requires |cs| == |zs| && k < 2 * |cs| + 1
    ensures BatchTerms(g, b, cs, zs)[k] == Mul(g, BatchScalars(cs, zs)[k], BatchPoints(b, cs)[k])
  {
    hide Mul, BatchScalars, BatchPoints;
  }

  lemma TermEntry<T(!new)>(g: Group<T>, b: T, cs: seq<Claim<T>>, zs: seq<nat>, i: nat)
    requires Abelian(g) && |cs| == |zs| && i < |cs| && Killed(g, cs[i].a)
    ensures BatchTerms(g, b, cs, zs)[1 + i] == KeyTerms(g, cs, zs)[i]
    ensures BatchTerms(g, b, cs, zs)[1 + |cs| + i] == CommitmentTerms(g, cs, zs)[i]
  {
    hide Abelian, Mul, BatchScalars, BatchPoints, KeyTerms, CommitmentTerms, BatchTerms;
    TermAt(g, b, cs, zs, 1 + i);
    TermAt(g, b, cs, zs, 1 + |cs| + i);
    Entries(b, cs, zs, i);
    EntryTerms(g, cs, zs, i);
    Ed25519.MulMod(g, cs[i].h * zs[i], cs[i].a);
  }

  lemma TermsSplit<T(!new)>(g: Group<T>, b: T, cs: seq<Claim<T>>, zs: seq<nat>)
    requires Abelian(g) && |cs| == |zs| && Killed(g, b) && forall i :: 0 <= i < |cs| ==> Killed(g, cs[i].a)
    ensures BatchTerms(g, b, cs, zs) ==
      [Mul(g, Responses(cs, zs), b)] + KeyTerms(g, cs, zs) + CommitmentTerms(g, cs, zs)
  {
    hide Abelian, Mul, Responses, BatchScalars, BatchPoints, KeyTerms, CommitmentTerms, BatchTerms;
    FirstEntry(b, cs, zs);
    TermAt(g, b, cs, zs, 0);
    Ed25519.MulMod(g, Responses(cs, zs), b);
    forall i | 0 <= i < |cs|
      ensures BatchTerms(g, b, cs, zs)[1 + i] == KeyTerms(g, cs, zs)[i]
      ensures BatchTerms(g, b, cs, zs)[1 + |cs| + i] == CommitmentTerms(g, cs, zs)[i]
    {
      TermEntry(g, b, cs, zs, i);
    }
    Joined(BatchTerms(g, b, cs, zs), [Mul(g, Responses(cs, zs), b)], KeyTerms(g, cs, zs), CommitmentTerms(g, cs, zs));
  }

  lemma FirstEntry<T>(b: T, cs: seq<Claim<T>>, zs: seq<nat>)
    requires |cs| == |zs|
    ensures BatchScalars(cs, zs)[0] == Responses(cs, zs) % M.L && BatchPoints(b, cs)[0] == b
  {
    hide Responses;
  }

  lemma EntryTerms<T(!new)>(g: Group<T>, cs: seq<Claim<T>>, zs: seq<nat>, i: nat)
    requires |cs| == |zs| && i < |cs|
    ensures KeyTerms(g, cs, zs)[i] == Mul(g, cs[i].h * zs[i], cs[i].a)
    ensures CommitmentTerms(g, cs, zs)[i] == Mul(g, zs[i], cs[i].r)
  {
    hide Mul;
  }

  lemma Joined<T>(ts: seq<T>, a: seq<T>, b: seq<T>, c: seq<T>)
    requires |a| == 1 && |b| == |c| && |ts| == 2 * |b| + 1 && ts[0] == a[0]
    requires forall i :: 0 <= i < |b| ==> ts[1 + i] == b[i] && ts[1 + |b| + i] == c[i]
    ensures ts == a + b + c
  {
    forall k | 0 <= k < |ts|
      ensures ts[k] == (a + b + c)[k]
    {
      if 0 < k <= |b| {
        assert ts[1 + (k - 1)] == b[k - 1];
      } else if k > |b| {
        assert ts[1 + |b| + (k - 1 - |b|)] == c[k - 1 - |b|];
      }
    }
  }

  /** Without errors the sum is neutral, whatever the random factors. */
  lemma NoErrors<T(!new)>(g: Group<T>, b: T, cs: seq<Claim<T>>, zs: seq<nat>)
    requires Abelian(g) && |cs| == |zs| && forall i :: 0 <= i < |cs| ==> Error(g, b, cs[i]) == g.zero
    ensures Weighted(g, b, cs, zs) == g.zero
  {
    hide Abelian, Mul, Error;
    var ts := Errors(g, b, cs, zs);
    forall i | 0 <= i < |cs|
      ensures ts[i] == g.zero
    {
      MulZero(g, zs[i]);
    }
    if |cs| > 0 {
      SumOfZeros(g, ts, 0);
    }
  }

  /**
   With an error anywhere, and the other random factors fixed, at most one 128-bit factor for it makes the sum
   neutral: a batch with an invalid signature passes with probability at most 2^-128.
   */
  lemma OneFactorPasses<T(!new)>(g: Group<T>, b: T, cs: seq<Claim<T>>, zs: seq<nat>, j: nat, z: nat)
    requires Abelian(g) && PrimeOrder() && |cs| == |zs| && j < |cs| && zs[j] < TWO128 && z < TWO128
    requires Killed(g, Error(g, b, cs[j])) && Error(g, b, cs[j]) != g.zero
    requires Weighted(g, b, cs, zs) == g.zero == Weighted(g, b, cs, zs[j := z])
    ensures z == zs[j]
  {
    hide Abelian, Mul, Error, PrimeOrder, Killed;
    var e := Error(g, b, cs[j]);
    var x, y := Mul(g, zs[j], e), Mul(g, z, e);
    assert Errors(g, b, cs, zs[j := z]) == Errors(g, b, cs, zs)[j := y];
    SumUpdate(g, Errors(g, b, cs, zs), j, y);
    Unit(g, x);
    Unit(g, y);
    if zs[j] < z {
      DifferenceVanishes(g, zs[j], z, e);
    } else if z < zs[j] {
      DifferenceVanishes(g, z, zs[j], e);
    }
  }

  lemma DifferenceVanishes<T(!new)>(g: Group<T>, k: nat, l: nat, e: T)
    requires Abelian(g) && PrimeOrder() && Killed(g, e) && k < l < M.L && Mul(g, k, e) == Mul(g, l, e)
    ensures e == g.zero
  {
    hide Abelian, Mul, PrimeOrder, Killed;
    MulAdd(g, l - k, k, e);
    Unit(g, Mul(g, k, e));
    CancelRight(g, Mul(g, l - k, e), g.zero, Mul(g, k, e));
    VanishesIff(g, l - k, e);
  }

  lemma KilledError<T(!new)>(g: Group<T>, b: T, c: Claim<T>)
    requires Abelian(g) && Killed(g, b) && Killed(g, c.a) && Killed(g, c.r)
    ensures Killed(g, Error(g, b, c))
  {
    hide Abelian, Mul, Killed;
    KilledMul(g, c.s, b);
    KilledMul(g, c.h, c.a);
    KilledAdd(g, Mul(g, c.s, b), Mul(g, c.h, c.a));
    KilledAdd(g, g.add(Mul(g, c.s, b), Mul(g, c.h, c.a)), c.r);
  }

  // ---- the two numbers that a run leaves exist for every input ----

  lemma {:induction false} PairDivisor(a: nat, c: nat) returns (s: nat)
    ensures forall d: nat :: d > 0 ==> (BH.Divides(d, a) && BH.Divides(d, c) <==> BH.Divides(d, s))
    decreases c
  {
    if c == 0 {
      s := a;
      forall d: nat | d > 0
        ensures BH.Divides(d, 0)
      {
        DivModUnique(0, d, 0, 0);
      }
    } else {
      s := PairDivisor(c, a % c);
      forall d: nat | d > 0
        ensures BH.Divides(d, a) && BH.Divides(d, c) <==> BH.Divides(d, c) && BH.Divides(d, a % c)
      {
        if BH.Divides(d, c) {
          DividesRemainder(d, a, c);
        }
      }
    }
  }

  lemma {:induction false} DivisorExists(v: seq<nat>, n: nat) returns (s: nat)
    requires n <= |v|
    ensures BH.GreatestDivisor(v, n, s)
  {
    if n == 0 {
      s := 0;
      forall d: nat | d > 0
        ensures BH.Divides(d, 0)
      {
        DivModUnique(0, d, 0, 0);
      }
    } else {
      var rest := DivisorExists(v, n - 1);
      s := PairDivisor(rest, v[n - 1]);
      forall d: nat | d > 0
        ensures BH.DividesAll(d, v, n) <==> BH.Divides(d, s)
      {
        assert BH.DividesAll(d, v, n) <==> BH.DividesAll(d, v, n - 1) && BH.Divides(d, v[n - 1]);
      }
    }
  }

  lemma RemainsExists<T(!new)>(g: Group<T>, v: seq<nat>, ps: seq<T>, n: nat) returns (s: nat, p: T)
    requires n <= |v| && n <= |ps|
    ensures BH.Remains(g, v, ps, n, s, p)
  {
    hide BH.Combination, BH.GreatestDivisor;
    s := DivisorExists(v, n);
    p := if s > 0 then BH.Combination(g, BH.Over(v, s), ps, 0, n) else g.zero;
  }
}
