/**
 Abelian groups as values, and integer multiples of a group element.

 The scalar-multiplication code only relies on the laws below, so it is modelled over an
 arbitrary group. Each law is wrapped in a predicate of its own: a law is instantiated by naming it.
 */
module AbelianGroup {

  datatype Group<!T> = Group(zero: T, add: (T, T) -> T, neg: T -> T)

  ghost predicate Commutes<T(!new)>(g: Group<T>, a: T, b: T) {
    g.add(a, b) == g.add(b, a)
  }

  ghost predicate Associates<T(!new)>(g: Group<T>, a: T, b: T, c: T) {
    g.add(g.add(a, b), c) == g.add(a, g.add(b, c))
  }

  ghost predicate Cancels<T(!new)>(g: Group<T>, a: T) {
    g.add(a, g.zero) == a && g.add(a, g.neg(a)) == g.zero
  }

  ghost predicate Abelian<T(!new)>(g: Group<T>) {
    && (forall a, b :: Commutes(g, a, b))
    && (forall a, b, c :: Associates(g, a, b, c))
    && (forall a :: Cancels(g, a))
  }

  /** The `k`-fold sum of `p`, for any integer `k`. */
  ghost function Mul<T(!new)>(g: Group<T>, k: int, p: T): T
    decreases if k < 0 then -k else k
  {
    if k == 0 then g.zero
    else if k > 0 then g.add(Mul(g, k - 1, p), p)
    else g.add(Mul(g, k + 1, p), g.neg(p))
  }

  lemma Unit<T(!new)>(g: Group<T>, a: T)
    requires Abelian(g)
    ensures g.add(a, g.zero) == a && g.add(g.zero, a) == a
    ensures Mul(g, 1, a) == a
  {
    assert Cancels(g, a);
    assert Commutes(g, g.zero, a);
    assert Mul(g, 0, a) == g.zero;
  }

  lemma Swap<T(!new)>(g: Group<T>, a: T, b: T)
    requires Abelian(g)
    ensures g.add(a, b) == g.add(b, a)
  {
    assert Commutes(g, a, b);
  }

  lemma Assoc<T(!new)>(g: Group<T>, a: T, b: T, c: T)
    requires Abelian(g)
    ensures g.add(g.add(a, b), c) == g.add(a, g.add(b, c))
  {
    assert Associates(g, a, b, c);
  }

  /** (a + b) + c == (a + c) + b */
  lemma SwapRight<T(!new)>(g: Group<T>, a: T, b: T, c: T)
    requires Abelian(g)
    ensures g.add(g.add(a, b), c) == g.add(g.add(a, c), b)
  {
    Assoc(g, a, b, c);
    Swap(g, b, c);
    Assoc(g, a, c, b);
  }

  /** (a + b) + (c + d) == (a + c) + (b + d) */
  lemma Interchange<T(!new)>(g: Group<T>, a: T, b: T, c: T, d: T)
    requires Abelian(g)
    ensures g.add(g.add(a, b), g.add(c, d)) == g.add(g.add(a, c), g.add(b, d))
  {
    Assoc(g, g.add(a, b), c, d);
    SwapRight(g, a, b, c);
    Assoc(g, g.add(a, c), b, d);
  }

  lemma CancelRight<T(!new)>(g: Group<T>, a: T, b: T, c: T)
    requires Abelian(g)
    requires g.add(a, c) == g.add(b, c)
    ensures a == b
  {
    assert Cancels(g, c);
    Assoc(g, a, c, g.neg(c));
    Assoc(g, b, c, g.neg(c));
    Unit(g, a);
    Unit(g, b);
  }

  lemma MulSucc<T(!new)>(g: Group<T>, k: int, p: T)
    requires Abelian(g)
    ensures Mul(g, k + 1, p) == g.add(Mul(g, k, p), p)
  {
    if k < 0 {
      Assoc(g, Mul(g, k + 1, p), g.neg(p), p);
      Swap(g, g.neg(p), p);
      assert Cancels(g, p);
      Unit(g, Mul(g, k + 1, p));
    }
  }

  /** [j + k]p == [j]p + [k]p */
  lemma {:induction false} MulAdd<T(!new)>(g: Group<T>, j: int, k: int, p: T)
    requires Abelian(g)
    ensures Mul(g, j + k, p) == g.add(Mul(g, j, p), Mul(g, k, p))
    decreases if k < 0 then -k else k
  {
    if k == 0 {
      Unit(g, Mul(g, j, p));
    } else if k > 0 {
      MulAdd(g, j, k - 1, p);
      MulSucc(g, j + k - 1, p);
      Assoc(g, Mul(g, j, p), Mul(g, k - 1, p), p);
    } else {
      MulAdd(g, j, k + 1, p);
      MulSucc(g, j + k, p);
      MulSucc(g, k, p);
      Assoc(g, Mul(g, j, p), Mul(g, k, p), p);
      CancelRight(g, Mul(g, j + k, p), g.add(Mul(g, j, p), Mul(g, k, p)), p);
    }
  }

  lemma MulZero<T(!new)>(g: Group<T>, k: int)
    requires Abelian(g)
    ensures Mul(g, k, g.zero) == g.zero
    decreases if k < 0 then -k else k
  {
    Unit(g, g.zero);
    if k > 0 {
      MulZero(g, k - 1);
    } else if k < 0 {
      MulZero(g, k + 1);
      MulSucc(g, k, g.zero);
      Unit(g, Mul(g, k, g.zero));
    }
  }

  /** [k](p + q) == [k]p + [k]q */
  lemma {:induction false} MulDistributes<T(!new)>(g: Group<T>, k: int, p: T, q: T)
    requires Abelian(g)
    ensures Mul(g, k, g.add(p, q)) == g.add(Mul(g, k, p), Mul(g, k, q))
    decreases if k < 0 then -k else k
  {
    if k == 0 {
      Unit(g, g.zero);
    } else if k > 0 {
      MulDistributes(g, k - 1, p, q);
      Interchange(g, Mul(g, k - 1, p), Mul(g, k - 1, q), p, q);
    } else {
      MulDistributes(g, k + 1, p, q);
      MulSucc(g, k, p);
      MulSucc(g, k, q);
      MulSucc(g, k, g.add(p, q));
      Interchange(g, Mul(g, k, p), Mul(g, k, q), p, q);
      CancelRight(g, Mul(g, k, g.add(p, q)), g.add(Mul(g, k, p), Mul(g, k, q)), g.add(p, q));
    }
  }

  /** [j]([k]p) == [j * k]p */
  lemma {:induction false} MulMul<T(!new)>(g: Group<T>, j: int, k: int, p: T)
    requires Abelian(g)
    ensures Mul(g, j, Mul(g, k, p)) == Mul(g, j * k, p)
    decreases if j < 0 then -j else j
  {
    if j == 0 {
      assert j * k == 0;
    } else if j > 0 {
      MulMul(g, j - 1, k, p);
      MulAdd(g, (j - 1) * k, k, p);
      assert (j - 1) * k + k == j * k;
    } else {
      MulMul(g, j + 1, k, p);
      MulSucc(g, j, Mul(g, k, p));
      MulAdd(g, j * k, k, p);
      assert j * k + k == (j + 1) * k;
      CancelRight(g, Mul(g, j, Mul(g, k, p)), Mul(g, j * k, p), Mul(g, k, p));
    }
  }

  lemma MulNeg<T(!new)>(g: Group<T>, k: int, p: T)
    requires Abelian(g)
    ensures Mul(g, -k, p) == g.neg(Mul(g, k, p))
  {
    var q := Mul(g, k, p);
    MulAdd(g, -k, k, p);
    assert Cancels(g, q);
    Swap(g, q, g.neg(q));
    CancelRight(g, Mul(g, -k, p), g.neg(q), q);
  }

  /** The sum of a finite family of elements. */
  ghost function Sum<T(!new)>(g: Group<T>, ts: seq<T>): T {
    if ts == [] then g.zero else g.add(Sum(g, ts[..|ts| - 1]), ts[|ts| - 1])
  }

  /** Replacing one summand: Sum(ts[i := x]) + ts[i] == Sum(ts) + x */
  lemma {:induction false} SumUpdate<T(!new)>(g: Group<T>, ts: seq<T>, i: nat, x: T)
    requires Abelian(g) && i < |ts|
    ensures g.add(Sum(g, ts[i := x]), ts[i]) == g.add(Sum(g, ts), x)
  {
    var n := |ts| - 1;
    var rest := ts[..n];
    if i == n {
      assert ts[i := x][..n] == rest;
      SwapRight(g, Sum(g, rest), ts[i], x);
    } else {
      assert ts[i := x][..n] == rest[i := x];
      SumUpdate(g, rest, i, x);
      SwapRight(g, Sum(g, rest[i := x]), ts[n], ts[i]);
      SwapRight(g, Sum(g, rest), ts[n], x);
    }
  }

  /** Replacing two summands by two others with the same total keeps the sum. */
  lemma SumTrade<T(!new)>(g: Group<T>, ts: seq<T>, i: nat, j: nat, x: T, y: T)
    requires Abelian(g) && i < |ts| && j < |ts| && i != j
    requires g.add(x, y) == g.add(ts[i], ts[j])
    ensures Sum(g, ts[i := x][j := y]) == Sum(g, ts)
  {
    var us := ts[i := x];
    var s, s1, s2 := Sum(g, ts), Sum(g, us), Sum(g, us[j := y]);
    SumUpdate(g, ts, i, x);
    SumUpdate(g, us, j, y);
    // s1 + ts[i] == s + x and s2 + ts[j] == s1 + y
    SwapRight(g, s2, ts[j], ts[i]);
    SwapRight(g, s1, y, ts[i]);
    Assoc(g, s2, ts[i], ts[j]);
    Assoc(g, s, x, y);
    CancelRight(g, s2, s, g.add(ts[i], ts[j]));
  }

  lemma {:induction false} SumOfZeros<T(!new)>(g: Group<T>, ts: seq<T>, k: nat)
    requires Abelian(g) && k < |ts|
    requires forall i :: 0 <= i < |ts| && i != k ==> ts[i] == g.zero
    ensures Sum(g, ts) == ts[k]
    decreases |ts|
  {
    var n := |ts| - 1;
    Unit(g, ts[k]);
    Unit(g, g.zero);
    if k < n {
      SumOfZeros(g, ts[..n], k);
    } else if n > 0 {
      assert ts[0] == g.zero;
      SumOfZeros(g, ts[..n], 0);
    }
  }
}
