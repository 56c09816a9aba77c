/**
 The index heap of batch verification and the Bos-Coster loop that runs on it.
 */
module BatchHeap {
  import opened Words
  import opened ModmBatch
  import opened AbelianGroup

  function Parent(k: nat): nat
    requires k > 0
  {
    (k - 1) / 2
  }

  // ---- heap order on values: h lists indices, v[h[k]] is the weight at position k ----

  /** h[0..n-1] is a permutation of 0..n-1: in range and without repetition. */
  ghost predicate Indices(h: seq<nat>, n: nat) {
    && n <= |h|
    && (forall k :: 0 <= k < n ==> h[k] < n)
    && (forall j, k :: 0 <= j < k < n ==> h[j] != h[k])
  }

  ghost function W(h: seq<nat>, v: seq<nat>, k: nat): nat
    requires k < |h| && h[k] < |v|
  {
    v[h[k]]
  }

  /** Max-heap order over positions 0..n-1. */
  ghost predicate Ordered(h: seq<nat>, v: seq<nat>, n: nat)
    requires Indices(h, n) && n <= |v|
  {
    forall k :: 1 <= k < n ==> W(h, v, k) <= W(h, v, Parent(k))
  }

  /** Heap order except between `node` and its parent, which also dominates the children of `node`. */
  ghost predicate OrderedButUp(h: seq<nat>, v: seq<nat>, n: nat, node: nat)
    requires Indices(h, n) && n <= |v|
  {
    && node < n
    && (forall k :: 1 <= k < n && k != node ==> W(h, v, k) <= W(h, v, Parent(k)))
    && (forall k :: 1 <= k < n && Parent(k) == node && node > 0 ==> W(h, v, k) <= W(h, v, Parent(node)))
  }

  /** Heap order except on the edges at `hole`, whose parent also dominates the children of `hole`. */
  ghost predicate OrderedButAt(h: seq<nat>, v: seq<nat>, n: nat, hole: nat)
    requires Indices(h, n) && n <= |v|
  {
    && hole < n
    && (forall k :: 1 <= k < n && k != hole && Parent(k) != hole ==> W(h, v, k) <= W(h, v, Parent(k)))
    && (forall k :: 1 <= k < n && Parent(k) == hole && hole > 0 ==> W(h, v, k) <= W(h, v, Parent(hole)))
  }

  lemma InsertedLast(h: seq<nat>, v: seq<nat>, n: nat)
    requires Indices(h, n) && n < |v| && n < |h| && Ordered(h, v, n)
    ensures Indices(h[n := n], n + 1) && OrderedButUp(h[n := n], v, n + 1, n)
  {
    var h' := h[n := n];
    assert forall k :: 0 <= k < n ==> W(h', v, k) == W(h, v, k);
    forall k | 1 <= k < n
      ensures W(h', v, k) <= W(h', v, Parent(k))
    {
      assert W(h, v, k) <= W(h, v, Parent(k));
    }
  }

  function Swapped(h: seq<nat>, a: nat, b: nat): seq<nat>
    requires a < |h| && b < |h|
  {
    h[a := h[b]][b := h[a]]
  }

  lemma SwapIndices(h: seq<nat>, n: nat, a: nat, b: nat)
    requires Indices(h, n) && a < n && b < n
    ensures Indices(Swapped(h, a, b), n)
  {
  }

  lemma SiftUpStep(h: seq<nat>, v: seq<nat>, n: nat, node: nat)
    requires Indices(h, n) && n <= |v| && 0 < node < n
    requires OrderedButUp(h, v, n, node) && W(h, v, Parent(node)) <= W(h, v, node)
    ensures Indices(Swapped(h, Parent(node), node), n)
    ensures OrderedButUp(Swapped(h, Parent(node), node), v, n, Parent(node))
  {
    var p := Parent(node);
    var h' := Swapped(h, p, node);
    SwapIndices(h, n, p, node);
    assert W(h', v, p) == W(h, v, node) && W(h', v, node) == W(h, v, p);
    forall k | 1 <= k < n
      ensures k != p ==> W(h', v, k) <= W(h', v, Parent(k))
      ensures Parent(k) == p && p > 0 ==> W(h', v, k) <= W(h', v, Parent(p))
    {
      assert k != node ==> W(h, v, k) <= W(h, v, Parent(k));
      assert p > 0 ==> W(h, v, p) <= W(h, v, Parent(p));
    }
  }

  lemma UpNode(h: seq<nat>, v: seq<nat>, n: nat, node: nat)
    requires Indices(h, n) && n <= |v| && OrderedButUp(h, v, n, node)
    ensures node < n <= |h| && (forall k :: 0 <= k < n ==> h[k] < n)
    ensures W(h, v, node) == v[h[node]]
    ensures node > 0 ==> W(h, v, Parent(node)) == v[h[Parent(node)]]
  {
  }

  lemma Weights(h: seq<nat>, v: seq<nat>, n: nat, k: nat)
    requires Indices(h, n) && n <= |v| && k < n
    ensures k < |h| && h[k] < n && W(h, v, k) == v[h[k]]
  {
  }

  /** With the node not above its parent, or at the root, nothing is out of order. */
  lemma UpDone(h: seq<nat>, v: seq<nat>, n: nat, node: nat)
    requires Indices(h, n) && n <= |v| && OrderedButUp(h, v, n, node) && node < n
    requires node > 0 ==> W(h, v, node) <= W(h, v, Parent(node))
    ensures Ordered(h, v, n)
  {
  }

  lemma SiftDownStep(h: seq<nat>, v: seq<nat>, n: nat, hole: nat, child: nat)
    requires Indices(h, n) && n <= |v| && hole < n && 2 * hole + 2 < n
    requires OrderedButAt(h, v, n, hole) && (child == 2 * hole + 1 || child == 2 * hole + 2)
    requires W(h, v, 2 * hole + 1) <= W(h, v, child) && W(h, v, 2 * hole + 2) <= W(h, v, child)
    ensures Indices(Swapped(h, hole, child), n)
    ensures OrderedButAt(Swapped(h, hole, child), v, n, child)
  {
    var h' := Swapped(h, hole, child);
    SwapIndices(h, n, hole, child);
    assert W(h', v, hole) == W(h, v, child);
    forall k | 1 <= k < n
      ensures k != child && Parent(k) != child ==> W(h', v, k) <= W(h', v, Parent(k))
      ensures Parent(k) == child ==> W(h', v, k) <= W(h', v, Parent(child))
    {
      if Parent(k) == hole {
        assert k == 2 * hole + 1 || k == 2 * hole + 2;
      } else if k == hole {
        assert Parent(child) == hole;
        assert W(h, v, child) <= W(h, v, Parent(hole));
      } else {
        assert W(h, v, k) <= W(h, v, Parent(k));
      }
    }
  }

  /** A leaf has no edges below it, so a hole sifted to a leaf is only out of order upwards. */
  lemma LeafHole(h: seq<nat>, v: seq<nat>, n: nat, hole: nat)
    requires Indices(h, n) && n <= |v| && hole < n <= 2 * hole + 2 && n % 2 == 1
    requires OrderedButAt(h, v, n, hole)
    ensures OrderedButUp(h, v, n, hole)
  {
  }

  /** Weights never grow on the way down. */
  lemma {:induction false} RootIsLargest(h: seq<nat>, v: seq<nat>, n: nat, k: nat)
    requires Indices(h, n) && n <= |v| && Ordered(h, v, n) && k < n
    ensures W(h, v, k) <= W(h, v, 0)
    ensures 3 <= n && 0 < k ==> W(h, v, k) <= W(h, v, 1) || W(h, v, k) <= W(h, v, 2)
  {
    if k > 0 {
      assert W(h, v, k) <= W(h, v, Parent(k));
      RootIsLargest(h, v, n, Parent(k));
    }
  }

  /** Changing the root's weight leaves every edge below the root alone. */
  lemma RootChanged(h: seq<nat>, v: seq<nat>, v': seq<nat>, n: nat)
    requires Indices(h, n) && 0 < n <= |v| == |v'| && Ordered(h, v, n)
    requires forall i :: 0 <= i < |v| && i != h[0] ==> v'[i] == v[i]
    ensures OrderedButAt(h, v', n, 0)
  {
    forall k | 1 <= k < n && Parent(k) != 0
      ensures W(h, v', k) <= W(h, v', Parent(k))
    {
      assert W(h, v, k) <= W(h, v, Parent(k));
    }
  }

  // ---- the sum that the loop keeps ----

  /** The sum of [v[i]]ps[i] over lo <= i < hi. */
  ghost function Combination<T(!new)>(g: Group<T>, v: seq<nat>, ps: seq<T>, lo: nat, hi: nat): T
    requires lo <= hi <= |v| && hi <= |ps|
  {
    Sum(g, Terms(g, v, ps, lo, hi))
  }

  ghost function Terms<T(!new)>(g: Group<T>, v: seq<nat>, ps: seq<T>, lo: nat, hi: nat): (ts: seq<T>)
    requires lo <= hi <= |v| && hi <= |ps|
  {
    seq(hi - lo, i requires 0 <= i < hi - lo => Mul(g, v[lo + i], ps[lo + i]))
  }

  /** [va - vb]Pa + [vb](Pb + Pa) == [va]Pa + [vb]Pb */
  lemma Trade<T(!new)>(g: Group<T>, va: nat, vb: nat, pa: T, pb: T)
    requires Abelian(g) && vb <= va
    ensures g.add(Mul(g, va - vb, pa), Mul(g, vb, g.add(pb, pa))) == g.add(Mul(g, va, pa), Mul(g, vb, pb))
  {
    var x, y, z := Mul(g, va - vb, pa), Mul(g, vb, pb), Mul(g, vb, pa);
    MulDistributes(g, vb, pb, pa);
    MulAdd(g, va - vb, vb, pa);
    AbelianGroup.Swap(g, y, z);
    Assoc(g, x, z, y);
  }

  lemma TradeKeepsSum<T(!new)>(g: Group<T>, v: seq<nat>, ps: seq<T>, n: nat, a: nat, b: nat)
    requires Abelian(g) && n <= |v| && n <= |ps| && a < n && b < n && a != b && v[b] <= v[a]
    ensures Combination(g, v[a := v[a] - v[b]], ps[b := g.add(ps[b], ps[a])], 0, n) == Combination(g, v, ps, 0, n)
  {
    var ts := Terms(g, v, ps, 0, n);
    var x, y := Mul(g, v[a] - v[b], ps[a]), Mul(g, v[b], g.add(ps[b], ps[a]));
    Trade(g, v[a], v[b], ps[a], ps[b]);
    SumTrade(g, ts, a, b, x, y);
    assert Terms(g, v[a := v[a] - v[b]], ps[b := g.add(ps[b], ps[a])], 0, n) == ts[a := x][b := y];
  }

  lemma {:induction false} SumAppend<T(!new)>(g: Group<T>, a: seq<T>, b: seq<T>)
    requires Abelian(g)
    ensures Sum(g, a + b) == g.add(Sum(g, a), Sum(g, b))
    decreases |b|
  {
    if b == [] {
      Unit(g, Sum(g, a));
      assert a + b == a;
    } else {
      var n := |b| - 1;
      SumAppend(g, a, b[..n]);
      assert (a + b)[..|a + b| - 1] == a + b[..n];
      Assoc(g, Sum(g, a), Sum(g, b[..n]), b[n]);
    }
  }

  /** With one nonzero scalar left below `half`, the sum is its term plus what lies above. */
  lemma ExitSum<T(!new)>(g: Group<T>, v: seq<nat>, ps: seq<T>, half: nat, n: nat, k: nat)
    requires Abelian(g) && k < half <= n <= |v| && n <= |ps|
    requires forall i :: 0 <= i < half && i != k ==> v[i] == 0
    ensures Combination(g, v, ps, 0, n) == g.add(Mul(g, v[k], ps[k]), Combination(g, v, ps, half, n))
    ensures half == n ==> Combination(g, v, ps, 0, n) == Mul(g, v[k], ps[k])
  {
    var below, above := Terms(g, v, ps, 0, half), Terms(g, v, ps, half, n);
    assert Terms(g, v, ps, 0, n) == below + above;
    SumAppend(g, below, above);
    SumOfZeros(g, below, k);
    Unit(g, below[k]);
  }

  lemma AboveUnchanged<T(!new)>(g: Group<T>, v: seq<nat>, v0: seq<nat>, ps: seq<T>, ps0: seq<T>, half: nat, n: nat)
    requires half <= n <= |v| == |v0| && |ps| == |ps0| == |v|
    requires v[half..] == v0[half..] && ps[half..] == ps0[half..]
    ensures Combination(g, v, ps, half, n) == Combination(g, v0, ps0, half, n)
  {
    forall i | half <= i < n
      ensures v[i] == v0[i] && ps[i] == ps0[i]
    {
      assert v[i] == v[half..][i - half] && v0[i] == v0[half..][i - half];
      assert ps[i] == ps[half..][i - half] && ps0[i] == ps0[half..][i - half];
    }
    assert Terms(g, v, ps, half, n) == Terms(g, v0, ps0, half, n);
  }

  // ---- termination ----

  ghost function Total(v: seq<nat>, n: nat): nat
    requires n <= |v|
  {
    if n == 0 then 0 else Total(v, n - 1) + v[n - 1]
  }

  lemma {:induction false} TotalDecreases(v: seq<nat>, n: nat, a: nat, d: nat)
    requires a < n <= |v| && d <= v[a]
    ensures Total(v[a := v[a] - d], n) == Total(v, n) - d
  {
    if a < n - 1 {
      TotalDecreases(v, n - 1, a, d);
    } else {
      TotalFrame(v, v[a := v[a] - d], n - 1);
    }
  }

  lemma {:induction false} TotalFrame(v: seq<nat>, v': seq<nat>, n: nat)
    requires n <= |v| && n <= |v'| && forall i :: 0 <= i < n ==> v[i] == v'[i]
    ensures Total(v, n) == Total(v', n)
  {
    if n > 0 {
      TotalFrame(v, v', n - 1);
    }
  }

  // ---- when the loop exits before the 128-bit scalars join ----

  /** The scalars the heap starts with: an odd number, about half of `count`. */
  function FirstHalf(count: nat): nat {
    if ((count + 1) / 2) % 2 == 1 then (count + 1) / 2 else (count + 1) / 2 + 1
  }

  ghost predicate Divides(d: nat, x: nat)
    requires d > 0
  {
    x % d == 0
  }

  ghost predicate DividesAll(d: nat, v: seq<nat>, n: nat)
    requires d > 0 && n <= |v|
  {
    forall i :: 0 <= i < n ==> Divides(d, v[i])
  }

  ghost predicate AtMostOneNonzero(v: seq<nat>, n: nat)
    requires n <= |v|
  {
    forall i, j :: 0 <= i < j < n ==> v[i] == 0 || v[j] == 0
  }

  /** The first n scalars have at most one nonzero among them, or a common divisor of more than 128 bits. */
  ghost predicate Stuck(v: seq<nat>, n: nat)
    requires n <= |v|
  {
    AtMostOneNonzero(v, n) || exists d :: d >= TWO128 && DividesAll(d, v, n)
  }

  datatype Trail = None | Some(a: nat, b: nat)

  /** What holds before extension; `trail` names the pair of the last reduction, whose sum was its larger scalar. */
  ghost predicate Unextended(v0: seq<nat>, v: seq<nat>, half: nat, trail: Trail)
    requires half <= |v| == |v0|
  {
    && v[half..] == v0[half..]
    && (forall d: nat :: d > 0 ==> (DividesAll(d, v, half) <==> DividesAll(d, v0, half)))
    && match trail
       case None => v == v0
       case Some(a, b) =>
         && !AtMostOneNonzero(v0, half)
         && a < half && b < half && a != b && v[b] > 0 && v[a] + v[b] >= TWO128
  }

  lemma DividesDifference(d: nat, x: nat, y: nat)
    requires d > 0 && y <= x && Divides(d, y)
    ensures Divides(d, x) <==> Divides(d, x - y)
  {
    var q := y / d;
    assert y == d * q;
    var r := (x - y) % d;
    var k := (x - y) / d;
    assert x == d * (k + q) + r by {
      assert x - y == d * k + r;
      assert d * (k + q) == d * k + d * q;
    }
    DivModUnique(x, d, k + q, r);
  }

  lemma ReduceKeepsDivisors(d: nat, v: seq<nat>, n: nat, a: nat, b: nat)
    requires d > 0 && n <= |v| && a < n && b < n && a != b && v[b] <= v[a]
    ensures DividesAll(d, v, n) <==> DividesAll(d, v[a := v[a] - v[b]], n)
  {
    var v' := v[a := v[a] - v[b]];
    if Divides(d, v[b]) {
      DividesDifference(d, v[a], v[b]);
      assert Divides(d, v[a]) <==> Divides(d, v'[a]);
      assert forall i :: 0 <= i < n && i != a ==> v'[i] == v[i];
    } else {
      assert !Divides(d, v'[b]);
    }
  }

  /** s is the greatest common divisor of the first n scalars: it has the same divisors as they have in common. */
  ghost predicate GreatestDivisor(v: seq<nat>, n: nat, s: nat)
    requires n <= |v|
  {
    forall d: nat :: d > 0 ==> (DividesAll(d, v, n) <==> Divides(d, s))
  }

  /** The scalars divided by d. */
  ghost function Over(v: seq<nat>, d: nat): (q: seq<nat>)
    requires d > 0
    ensures |q| == |v|
  {
    seq(|v|, i requires 0 <= i < |v| => v[i] / d)
  }

  /** Common divisors of the first n scalars are kept, and so is the sum of their quotients times the points. */
  ghost predicate KeepsFor<T(!new)>(g: Group<T>, v0: seq<nat>, ps0: seq<T>, v: seq<nat>, ps: seq<T>, n: nat, d: nat)
    requires n <= |v| == |v0| && n <= |ps| == |ps0| && d > 0
  {
    && (DividesAll(d, v, n) <==> DividesAll(d, v0, n))
    && (DividesAll(d, v0, n) ==> Combination(g, Over(v, d), ps, 0, n) == Combination(g, Over(v0, d), ps0, 0, n))
  }

  ghost predicate Keeps<T(!new)>(g: Group<T>, v0: seq<nat>, ps0: seq<T>, v: seq<nat>, ps: seq<T>, n: nat)
    requires n <= |v| == |v0| && n <= |ps| == |ps0|
  {
    forall d: nat :: d > 0 ==> KeepsFor(g, v0, ps0, v, ps, n, d)
  }

  lemma QuotientDifference(d: nat, x: nat, y: nat)
    requires d > 0 && y <= x && Divides(d, x) && Divides(d, y)
    ensures (x - y) / d == x / d - y / d && y / d <= x / d
  {
    var q, r := x / d, y / d;
    assert x == d * q && y == d * r;
    assert d * (q - r) == x - y;
    DivModUnique(x - y, d, q - r, 0);
  }

  lemma ReduceOver(d: nat, v: seq<nat>, n: nat, a: nat, b: nat)
    requires d > 0 && n <= |v| && a < n && b < n && a != b && v[b] <= v[a] && DividesAll(d, v, n)
    ensures var q := Over(v, d);
      q[b] <= q[a] && Over(v[a := v[a] - v[b]], d) == q[a := q[a] - q[b]]
  {
    assert Divides(d, v[a]) && Divides(d, v[b]);
    QuotientDifference(d, v[a], v[b]);
  }

  lemma KeepsStep<T(!new)>(g: Group<T>, v0: seq<nat>, ps0: seq<T>, v: seq<nat>, ps: seq<T>, n: nat, a: nat, b: nat)
    requires Abelian(g) && n <= |v| == |v0| && n <= |ps| == |ps0| && Keeps(g, v0, ps0, v, ps, n)
    requires a < n && b < n && a != b && v[b] <= v[a]
    ensures Keeps(g, v0, ps0, v[a := v[a] - v[b]], ps[b := g.add(ps[b], ps[a])], n)
  {
    hide Abelian, Combination, DividesAll;
    var v', ps' := v[a := v[a] - v[b]], ps[b := g.add(ps[b], ps[a])];
    forall d: nat | d > 0
      ensures KeepsFor(g, v0, ps0, v', ps', n, d)
    {
      assert KeepsFor(g, v0, ps0, v, ps, n, d);
      ReduceKeepsDivisors(d, v, n, a, b);
      if DividesAll(d, v, n) {
        ReduceOver(d, v, n, a, b);
        TradeKeepsSum(g, Over(v, d), ps, n, a, b);
      }
    }
  }

  /** Divisor 1: the sum itself. */
  lemma KeepsSum<T(!new)>(g: Group<T>, v0: seq<nat>, ps0: seq<T>, v: seq<nat>, ps: seq<T>, n: nat)
    requires n <= |v| == |v0| && n <= |ps| == |ps0| && Keeps(g, v0, ps0, v, ps, n)
    ensures Combination(g, v, ps, 0, n) == Combination(g, v0, ps0, 0, n)
  {
    hide Combination;
    assert KeepsFor(g, v0, ps0, v, ps, n, 1);
    assert Over(v, 1) == v && Over(v0, 1) == v0;
    assert DividesAll(1, v0, n);
  }

  /** One nonzero scalar left: it is the greatest common divisor, and its point the sum of the quotients' terms. */
  lemma KeepsExit<T(!new)>(g: Group<T>, v0: seq<nat>, ps0: seq<T>, v: seq<nat>, ps: seq<T>, n: nat, k: nat)
    requires Abelian(g) && n <= |v| == |v0| && n <= |ps| == |ps0| && Keeps(g, v0, ps0, v, ps, n) && k < n
    requires forall i :: 0 <= i < n && i != k ==> v[i] == 0
    ensures GreatestDivisor(v0, n, v[k])
    ensures v[k] > 0 ==> Combination(g, Over(v0, v[k]), ps0, 0, n) == ps[k]
  {
    hide Abelian, Combination;
    forall d: nat | d > 0
      ensures DividesAll(d, v0, n) <==> Divides(d, v[k])
    {
      assert KeepsFor(g, v0, ps0, v, ps, n, d);
      DivModUnique(0, d, 0, 0);
      assert DividesAll(d, v, n) <==> Divides(d, v[k]);
    }
    var s := v[k];
    if s > 0 {
      assert KeepsFor(g, v0, ps0, v, ps, n, s);
      DivModUnique(s, s, 1, 0);
      DivModUnique(0, s, 0, 0);
      assert Divides(s, s);
      var q := Over(v, s);
      assert forall i :: 0 <= i < n ==> q[i] == if i == k then 1 else 0;
      ExitSum(g, q, ps, n, n, k);
      Unit(g, ps[k]);
    }
  }

  lemma UnextendedStep(v0: seq<nat>, v: seq<nat>, half: nat, trail: Trail, a: nat, b: nat)
    requires half <= |v| == |v0| && Unextended(v0, v, half, trail)
    requires a < half && b < half && a != b && 0 < v[b] <= v[a] && v[a] >= TWO128
    ensures Unextended(v0, v[a := v[a] - v[b]], half, Some(a, b))
  {
    var v' := v[a := v[a] - v[b]];
    forall d: nat | d > 0
      ensures DividesAll(d, v', half) <==> DividesAll(d, v0, half)
    {
      ReduceKeepsDivisors(d, v, half, a, b);
    }
    assert v'[half..] == v[half..];
    if trail.None? {
      assert v0[a] > 0 && v0[b] > 0;
      assert !AtMostOneNonzero(v0, half);
    }
  }

  /** Reaching 128 bits with two nonzero scalars rules out being stuck. */
  lemma NotStuck(v0: seq<nat>, v: seq<nat>, half: nat, trail: Trail, a: nat, b: nat)
    requires half <= |v| == |v0| && Unextended(v0, v, half, trail)
    requires a < half && b < half && a != b && 0 < v[b] <= v[a] < TWO128
    ensures !Stuck(v0, half)
  {
    if trail.None? {
      assert !AtMostOneNonzero(v0, half);
    }
    forall d | d >= TWO128
      ensures !DividesAll(d, v0, half)
    {
      SmallMod(v[a], d);
      assert !Divides(d, v[a]);
      assert !DividesAll(d, v, half);
    }
  }

  /** What the loop keeps, on values: divisors and sums always, and before extension everything above the first
      half. */
  ghost predicate Progress<T(!new)>(g: Group<T>, v0: seq<nat>, ps0: seq<T>, v: seq<nat>, ps: seq<T>, count: nat,
      extended: bool, trail: Trail) {
    && |ps0| == |ps| == |v0| == |v| && 5 <= count <= |v| && count % 2 == 1
    && Keeps(g, v0, ps0, v, ps, count)
    && (forall i :: FirstHalf(count) <= i < count ==> v0[i] < TWO128)
    && if extended then !Stuck(v0, FirstHalf(count)) && forall i :: 0 <= i < count ==> v[i] < TWO128 else
         && Unextended(v0, v, FirstHalf(count), trail) && ps[FirstHalf(count)..] == ps0[FirstHalf(count)..]
         && Keeps(g, v0, ps0, v, ps, FirstHalf(count))
  }

  lemma ProgressExtend<T(!new)>(g: Group<T>, v0: seq<nat>, ps0: seq<T>, v: seq<nat>, ps: seq<T>, count: nat,
      trail: Trail, a: nat, b: nat)
    requires Progress(g, v0, ps0, v, ps, count, false, trail)
    requires a < FirstHalf(count) && b < FirstHalf(count) && a != b && 0 < v[b] <= v[a] < TWO128
    requires forall i :: 0 <= i < FirstHalf(count) ==> v[i] <= v[a]
    ensures Progress(g, v0, ps0, v, ps, count, true, trail)
  {
    NotStuck(v0, v, FirstHalf(count), trail, a, b);
    BeforeExtension(g, v0, ps0, v, ps, count, trail, a);
  }

  /** Before extension the 128-bit scalars are untouched, and after a reduction the largest has at least 127 bits. */
  lemma BeforeExtension<T(!new)>(g: Group<T>, v0: seq<nat>, ps0: seq<T>, v: seq<nat>, ps: seq<T>, count: nat,
      trail: Trail, k: nat)
    requires Progress(g, v0, ps0, v, ps, count, false, trail) && k < FirstHalf(count)
    requires forall i :: 0 <= i < FirstHalf(count) ==> v[i] <= v[k]
    ensures trail.Some? ==> 2 * v[k] >= TWO128
    ensures forall i :: FirstHalf(count) <= i < count ==> v[i] < TWO128
  {
    var half := FirstHalf(count);
    if trail.Some? {
      assert v[trail.a] <= v[k] && v[trail.b] <= v[k];
    }
    forall i | half <= i < count
      ensures v[i] < TWO128
    {
      assert v[i] == v[half..][i - half] == v0[half..][i - half] == v0[i];
    }
  }

  lemma ProgressReduce<T(!new)>(g: Group<T>, v0: seq<nat>, ps0: seq<T>, v: seq<nat>, ps: seq<T>, count: nat,
      extended: bool, trail: Trail, a: nat, b: nat)
    requires Abelian(g) && Progress(g, v0, ps0, v, ps, count, extended, trail)
    requires a < count && b < count && a != b && 0 < v[b] <= v[a]
    requires !extended ==> a < FirstHalf(count) && b < FirstHalf(count) && v[a] >= TWO128
    ensures Progress(g, v0, ps0, v[a := v[a] - v[b]], ps[b := g.add(ps[b], ps[a])], count, extended, Some(a, b))
    ensures Total(v[a := v[a] - v[b]], count) < Total(v, count)
  {
    hide Keeps, Unextended, Stuck, Abelian;
    KeepsStep(g, v0, ps0, v, ps, count, a, b);
    TotalDecreases(v, count, a, v[b]);
    if !extended {
      KeepsStep(g, v0, ps0, v, ps, FirstHalf(count), a, b);
      UnextendedStep(v0, v, FirstHalf(count), trail, a, b);
      assert ps[b := g.add(ps[b], ps[a])][FirstHalf(count)..] == ps[FirstHalf(count)..];
    }
  }

  /** A loop that runs out of nonzero scalars before extension was stuck from the start. */
  lemma ExitIsStuck(v0: seq<nat>, v: seq<nat>, half: nat, trail: Trail, k: nat)
    requires half <= |v| == |v0| && Unextended(v0, v, half, trail) && k < half
    requires forall i :: 0 <= i < half && i != k ==> v[i] == 0
    ensures Stuck(v0, half)
  {
    if trail.Some? {
      var d := v[k];
      assert k == trail.b && v[trail.a] == 0;
      assert d >= TWO128;
      assert Divides(d, d) && Divides(d, 0) by { DivModUnique(d, d, 1, 0); DivModUnique(0, d, 0, 0); }
      assert DividesAll(d, v, half);
      assert DividesAll(d, v0, half);
    }
  }

  lemma ProgressStep<T(!new)>(g: Group<T>, v0: seq<nat>, ps0: seq<T>, v: seq<nat>, ps: seq<T>, v': seq<nat>,
      ps': seq<T>,
                              count: nat, was: bool, extended: bool, trail: Trail, m1: nat, m2: nat, a: nat, b: nat)
    requires Abelian(g) && Progress(g, v0, ps0, v, ps, count, was, trail)
    requires a < count && b < count && a != b && 0 < v[b] <= v[a]
    requires !was ==> m1 < FirstHalf(count) && m2 < FirstHalf(count) && m1 != m2 && 0 < v[m2] <= v[m1]
    requires !was ==> forall i :: 0 <= i < FirstHalf(count) ==> v[i] <= v[m1]
    requires extended <==> was || v[m1] < TWO128
    requires !extended ==> a == m1 && b == m2
    requires v' == v[a := v[a] - v[b]] && ps' == ps[b := g.add(ps[b], ps[a])]
    ensures Progress(g, v0, ps0, v', ps', count, extended, Some(a, b))
    ensures Total(v', count) < Total(v, count)
  {
    if extended && !was {
      ProgressExtend(g, v0, ps0, v, ps, count, trail, m1, m2);
    }
    ProgressReduce(g, v0, ps0, v, ps, count, extended, trail, a, b);
  }

  lemma ProgressStart<T(!new)>(g: Group<T>, v: seq<nat>, ps: seq<T>, count: nat)
    requires |ps| == |v| && 5 <= count <= |v| && count % 2 == 1
    requires forall i :: FirstHalf(count) <= i < count ==> v[i] < TWO128
    ensures Progress(g, v, ps, v, ps, count, false, None)
  {
  }

  /** What remains of the first n terms: their greatest common divisor s, and the sum of [v[i] / s]ps[i]. */
  ghost predicate Remains<T(!new)>(g: Group<T>, v: seq<nat>, ps: seq<T>, n: nat, s: nat, p: T)
    requires n <= |v| && n <= |ps|
  {
    GreatestDivisor(v, n, s) && (s > 0 ==> p == Combination(g, Over(v, s), ps, 0, n))
  }

  /** At exit: the whole sum after extension; before it, the first half's sum plus the untouched rest. */
  lemma ProgressExit<T(!new)>(g: Group<T>, v0: seq<nat>, ps0: seq<T>, v: seq<nat>, ps: seq<T>, count: nat,
      extended: bool, trail: Trail, k: nat)
    requires Abelian(g) && Progress(g, v0, ps0, v, ps, count, extended, trail)
    requires k < if extended then count else FirstHalf(count)
    requires forall i :: 0 <= i < (if extended then count else FirstHalf(count)) && i != k ==> v[i] == 0
    ensures extended <==> !Stuck(v0, FirstHalf(count))
    ensures extended ==> v[k] < TWO128 && Combination(g, v0, ps0, 0, count) == Mul(g, v[k], ps[k])
    ensures !extended ==>
      Combination(g, v0, ps0, 0, count) ==
      g.add(Mul(g, v[k], ps[k]), Combination(g, v0, ps0, FirstHalf(count), count))
    ensures Remains(g, v0, ps0, if extended then count else FirstHalf(count), v[k], ps[k])
  {
    hide Keeps, Combination, Abelian;
    var half := FirstHalf(count);
    KeepsSum(g, v0, ps0, v, ps, count);
    KeepsExit(g, v0, ps0, v, ps, if extended then count else half, k);
    if extended {
      ExitSum(g, v, ps, count, count, k);
    } else {
      ExitSum(g, v, ps, half, count, k);
      ExitIsStuck(v0, v, half, trail, k);
      AboveUnchanged(g, v, v0, ps, ps0, half, count);
    }
  }

  /**
   `heap` holds indices into the parallel buffers `scalars` and `points`; `v` is the ghost list of
   the scalars' values, which is what heap order is about.
   */
  class Heap<T(!new)> {
    const g: Group<T>
    const points: array<T>
    const scalars: array<Limbs>
    const heap: array<nat>
    var size: nat
    ghost var v: seq<nat>

    constructor (g: Group<T>, ps: seq<T>, ss: seq<Limbs>)
      requires |ps| == |ss| && forall i :: 0 <= i < |ss| ==> Proper(ss[i])
      ensures this.g == g && Shape() && points[..] == ps && scalars[..] == ss && size == 0
      ensures fresh(points) && fresh(scalars) && fresh(heap)
    {
      this.g := g;
      points := new T[|ps|](i requires 0 <= i < |ps| => ps[i]);
      scalars := new Limbs[|ss|](i requires 0 <= i < |ss| => ss[i]);
      heap := new nat[|ps|];
      size := 0;
      v := seq(|ss|, i requires 0 <= i < |ss| => Value(ss[i]));
    }

    /** Row i holds the value v[i], in limbs below 2^56. */
    ghost predicate Row(i: nat)
      requires i < scalars.Length && i < |v|
      reads this, scalars
    {
      Proper(scalars[i]) && v[i] == Value(scalars[i])
    }

    /** Three parallel buffers of the same capacity that do not overlap, and v in step with the scalars. */
    ghost predicate Shape()
      reads this, scalars
    {
      && points.Length == scalars.Length == heap.Length == |v| && size <= heap.Length
      && points as object != scalars as object && points as object != heap as object &&
          scalars as object != heap as object
      && forall i :: 0 <= i < |v| ==> Row(i)
    }

    /** Every heap scalar fits in limbs 0..limbsize. */
    ghost predicate Fits(n: nat, limbsize: nat)
      requires limbsize < 5 && n <= |v|
      reads this
    {
      forall i :: 0 <= i < n ==> v[i] < Radix(limbsize + 1)
    }

    ghost predicate Valid()
      reads this, heap, scalars
    {
      Shape() && Indices(heap[..], size) && Ordered(heap[..], v, size)
    }

    /** Truncated comparison agrees with full-width comparison on values that fit. */
    method Less(i: nat, j: nat, limbsize: nat) returns (r: bool)
      requires Shape() && limbsize < 5 && i < |v| && j < |v|
      requires v[i] < Radix(limbsize + 1) && v[j] < Radix(limbsize + 1)
      ensures r <==> v[i] < v[j]
    {
      assert Row(i) && Row(j);
      FitsLow(scalars[i], limbsize + 1);
      FitsLow(scalars[j], limbsize + 1);
      r := Lt256(scalars[i], scalars[j], limbsize);
    }

    method LessOrEqual(i: nat, j: nat, limbsize: nat) returns (r: bool)
      requires Shape() && limbsize < 5 && i < |v| && j < |v|
      requires v[i] < Radix(limbsize + 1) && v[j] < Radix(limbsize + 1)
      ensures r <==> v[i] <= v[j]
    {
      assert Row(i) && Row(j);
      FitsLow(scalars[i], limbsize + 1);
      FitsLow(scalars[j], limbsize + 1);
      r := Lte256(scalars[i], scalars[j], limbsize);
    }

    lemma FullWidth(i: nat)
      requires Shape() && i < |v|
      ensures v[i] < Radix(5)
    {
      assert Row(i);
      LowBound(scalars[i], 5);
    }

    method Swap(a: nat, b: nat)
      requires a < heap.Length && b < heap.Length
      modifies heap
      ensures heap[..] == Swapped(old(heap[..]), a, b)
    {
      var temp := heap[a];
      heap[a] := heap[b];
      heap[b] := temp;
    }

    /** Add the scalar at the end of the list to the heap. */
    method InsertNext()
      requires Valid() && size < heap.Length
      modifies this`size, heap
      ensures Valid() && size == old(size) + 1
    {
      var node := size;
      heap[node] := node;
      assert heap[..] == old(heap[..])[size := size];
      InsertedLast(old(heap[..]), v, size);
      SiftUp(node, size + 1);
      label sifted:
      size := size + 1;
      forall i | 0 <= i < |v|
        ensures Row(i)
      {
        assert old@sifted(Row(i));
      }
    }

    /** Swap a node with a parent that is not larger. */
    method SwapUp(parent: nat, node: nat, ghost n: nat)
      requires Shape() && n <= heap.Length && Indices(heap[..], n) && OrderedButUp(heap[..], v, n, node)
      requires 0 < node && parent == Parent(node) && W(heap[..], v, parent) <= W(heap[..], v, node)
      modifies heap
      ensures Shape() && Indices(heap[..], n) && OrderedButUp(heap[..], v, n, parent)
    {
      hide Indices, OrderedButUp, W;
      UpNode(heap[..], v, n, node);
      SiftUpStep(heap[..], v, n, node);
      Swap(parent, node);
      forall i | 0 <= i < |v|
        ensures Row(i)
      {
        assert old(Row(i));
      }
    }

    /** Sift node up to its sorted spot, comparing at full width. */
    method SiftUp(start: nat, ghost n: nat)
      requires Shape() && n <= heap.Length && Indices(heap[..], n) && OrderedButUp(heap[..], v, n, start)
      modifies heap
      ensures Shape() && Indices(heap[..], n) && Ordered(heap[..], v, n)
    {
      hide Shape, OrderedButUp, Indices, Ordered, W;
      ShapeSizes();
      var node: nat := start;
      while node > 0
        invariant Shape() && n <= |v| && Indices(heap[..], n) && OrderedButUp(heap[..], v, n, node)
      {
        var parent := (node - 1) / 2;
        ShapeSizes();
        UpNode(heap[..], v, n, node);
        FullWidth(heap[parent]);
        FullWidth(heap[node]);
        var less := Less(heap[parent], heap[node], 4);
        if !less {
          UpDone(heap[..], v, n, node);
          return;
        }
        SwapUp(parent, node, n);
        node := parent;
      }
      ShapeSizes();
      UpNode(heap[..], v, n, node);
      UpDone(heap[..], v, n, node);
    }

    lemma ShapeSizes()
      requires Shape()
      ensures points.Length == scalars.Length == heap.Length == |v| && size <= heap.Length
    {
    }

    /** Swap a hole with the larger of its two children. */
    method SwapDown(hole: nat, child: nat)
      requires Shape() && Indices(heap[..], size) && OrderedButAt(heap[..], v, size, hole)
      requires 2 * hole + 2 < size && (child == 2 * hole + 1 || child == 2 * hole + 2)
      requires W(heap[..], v, 2 * hole + 1) <= W(heap[..], v, child)
      requires W(heap[..], v, 2 * hole + 2) <= W(heap[..], v, child)
      modifies heap
      ensures Shape() && Indices(heap[..], size) && OrderedButAt(heap[..], v, size, child)
    {
      hide Indices, OrderedButAt, W;
      SiftDownStep(heap[..], v, size, hole, child);
      Swap(hole, child);
      forall i | 0 <= i < |v|
        ensures Row(i)
      {
        assert old(Row(i));
      }
    }

    /** Restore the order after the root's scalar was changed. */
    method UpdatedRoot(limbsize: nat)
      requires Shape() && 3 <= size && size % 2 == 1
      requires Indices(heap[..], size) && OrderedButAt(heap[..], v, size, 0)
      requires limbsize < 5 && Fits(size, limbsize)
      modifies heap
      ensures Valid()
    {
      hide Shape, OrderedButUp, OrderedButAt, Indices, Ordered, W;
      ShapeSizes();
      // sift the root to the bottom
      var parent, node, childl, childr := 0, 1, 1, 2;
      while childr < size
        invariant childl == 2 * parent + 1 && childr == childl + 1
        invariant parent == 0 || node == parent
        invariant Shape() && size <= |v| && Indices(heap[..], size) && OrderedButAt(heap[..], v, size, parent)
        invariant parent < size && childr <= 2 * size && (parent == 0 ==> childr < size)
        decreases size - parent
      {
        ShapeSizes();
        Weights(heap[..], v, size, childl);
        Weights(heap[..], v, size, childr);
        var less := Less(heap[childl], heap[childr], limbsize);
        node := if less then childr else childl;
        SwapDown(parent, node);
        parent := node;
        childl := parent * 2 + 1;
        childr := childl + 1;
      }
      LeafHole(heap[..], v, size, node);
      SiftBackUp(node, limbsize);
    }

    /** Sift the old root back up to its sorted spot. */
    method SiftBackUp(start: nat, limbsize: nat)
      requires Shape() && Indices(heap[..], size) && OrderedButUp(heap[..], v, size, start)
      requires limbsize < 5 && Fits(size, limbsize)
      modifies heap
      ensures Valid()
    {
      hide Shape, OrderedButUp, Indices, Ordered, W;
      ShapeSizes();
      var node: nat := start;
      while node > 0
        invariant Shape() && size <= |v| && Indices(heap[..], size) && OrderedButUp(heap[..], v, size, node)
      {
        var parent := (node - 1) / 2;
        ShapeSizes();
        UpNode(heap[..], v, size, node);
        var lte := LessOrEqual(heap[parent], heap[node], limbsize);
        if !lte {
          UpDone(heap[..], v, size, node);
          return;
        }
        SwapUp(parent, node, size);
        node := parent;
      }
      ShapeSizes();
      UpNode(heap[..], v, size, node);
      UpDone(heap[..], v, size, node);
    }

    /** Build the heap with count elements. */
    method Build(count: nat)
      requires Shape() && 1 <= count <= heap.Length
      modifies this`size, heap
      ensures Valid() && size == count
    {
      heap[0] := 0;
      size := 0;
      forall i | 0 <= i < |v|
        ensures Row(i)
      {
        assert old(Row(i));
      }
      while size < count
        invariant size <= count && Valid()
      {
        InsertNext();
      }
    }

    /** Extend the heap to contain newCount elements. */
    method Extend(newCount: nat)
      requires Valid() && size <= newCount <= heap.Length
      modifies this`size, heap
      ensures Valid() && size == newCount
    {
      while size < newCount
        invariant size <= newCount && Valid()
      {
        InsertNext();
      }
    }

    /** The two largest scalars of the heap, at two distinct indices. */
    method GetTop2(limbsize: nat) returns (max1: nat, max2: nat)
      requires Valid() && 3 <= size && limbsize < 5 && Fits(size, limbsize)
      ensures Top2(max1, max2)
    {
      var h0, h1, h2 := heap[0], heap[1], heap[2];
      var less := Less(h1, h2, limbsize);
      if less {
        h1 := h2;
      }
      max1, max2 := h0, h1;
      forall i | 0 <= i < size
        ensures v[i] <= v[max1]
        ensures i != max1 ==> v[i] <= v[max2]
      {
        Pigeonhole(heap[..size], i);
        var k :| 0 <= k < size && heap[k] == i;
        RootIsLargest(heap[..], v, size, k);
      }
    }

    /** scalars[max1] -= scalars[max2], on limbs 0..limbsize. */
    method SubtractRow(max1: nat, max2: nat, limbsize: nat)
      requires Shape() && limbsize < 5 && max1 < |v| && max2 < |v| && max1 != max2
      requires v[max2] <= v[max1] < Radix(limbsize + 1)
      modifies this`v, scalars
      ensures Shape() && v == old(v)[max1 := old(v)[max1] - old(v)[max2]]
    {
      assert Row(max1) && Row(max2);
      FitsLow(scalars[max1], limbsize + 1);
      FitsLow(scalars[max2], limbsize + 1);
      Sub256(scalars, max1, max1, max2, limbsize);
      FitsLow(scalars[max1], limbsize + 1);
      v := v[max1 := v[max1] - v[max2]];
      assert Row(max1);
      forall i | 0 <= i < |v| && i != max1
        ensures Row(i)
      {
        assert old(Row(i));
      }
    }

    /** scalars[max1] -= scalars[max2] and points[max2] += points[max1], then restore the heap. */
    method Reduce(max1: nat, max2: nat, limbsize: nat)
      requires Valid() && 3 <= size && size % 2 == 1 && limbsize < 5 && Fits(size, limbsize) && Top2(max1, max2)
      modifies this`v, heap, scalars, points
      ensures Valid() && Fits(size, limbsize)
      ensures v == old(v)[max1 := old(v)[max1] - old(v)[max2]]
      ensures points[..] == old(points[..])[max2 := g.add(old(points[..])[max2], old(points[..])[max1])]
    {
      SubtractRow(max1, max2, limbsize);
      points[max2] := g.add(points[max2], points[max1]);
      RootChanged(heap[..], old(v), v, size);
      UpdatedRoot(limbsize);
    }

    /** A zero top limb lets the comparisons look at one limb less. */
    method Shorten(max1: nat, limbsize: nat) returns (l: nat)
      requires Shape() && limbsize < 5 && Fits(size, limbsize) && max1 < size && v[max1] > 0
      requires forall i :: 0 <= i < size ==> v[i] <= v[max1]
      ensures l < 5 && Fits(size, l) && limbsize - 1 <= l <= limbsize
    {
      l := limbsize;
      var zero := LimbIsZero(max1, limbsize);
      if zero {
        l := l - 1;
      }
    }

    /** The two largest scalars, the first at the root. */
    ghost predicate Top2(max1: nat, max2: nat)
      reads this, heap
    {
      && max1 < size && max2 < size && max1 != max2 && size <= heap.Length && size <= |v| && max1 == heap[0]
      && (forall i :: 0 <= i < size ==> v[i] <= v[max1])
      && (forall i :: 0 <= i < size && i != max1 ==> v[i] <= v[max2])
    }

    /** An odd heap whose scalars fit in limbs 0..limbsize. */
    ghost predicate Running(n: nat, limbsize: nat)
      reads this, heap, scalars
    {
      Valid() && size == n && 3 <= n && n % 2 == 1 && limbsize < 5 && Fits(n, limbsize)
    }

    /**
     Extend the heap to all scalars once its largest has at most 128 bits. Limbs 0..limbsize still
     hold them all, because the largest has at least 127 bits or no limb was dropped before.
     */
    method TryExtend(count: nat, limbsize: nat, was: bool, m1: nat, m2: nat) returns (max1: nat, max2: nat,
        extended: bool)
      requires Running(size, limbsize) && Top2(m1, m2) && v[m2] > 0 && size <= count <= heap.Length && count % 2 == 1
      requires !was ==> (limbsize >= 3 || 2 * v[m1] >= TWO128) && forall i :: size <= i < count ==> v[i] < TWO128
      modifies this`size, heap
      ensures extended <==> was || v[m1] < TWO128
      ensures Running(if extended && !was then count else old(size), limbsize) && Top2(max1, max2) && v[max2] > 0
      ensures was == extended ==> max1 == m1 && max2 == m2
    {
      max1, max2, extended := m1, m2, was;
      var small := AtMost128(max1);
      if !extended && small {
        Extend(count);
        extended := true;
        max1, max2 := GetTop2(limbsize);
        assert max1 != m1 || max1 != m2;
      }
    }

    /** One iteration with a nonzero second scalar; max1 and max2 are the pair that was reduced. */
    method Iterate(count: nat, limbsize: nat, was: bool, m1: nat, m2: nat)
      returns (l: nat, extended: bool, max1: nat, max2: nat)
      requires Running(size, limbsize) && Top2(m1, m2) && v[m2] > 0 && size <= count <= heap.Length && count % 2 == 1
      requires !was ==> (limbsize == 4 || 2 * v[m1] >= TWO128) && forall i :: size <= i < count ==> v[i] < TWO128
      modifies this, heap, scalars, points
      ensures extended <==> was || old(v)[m1] < TWO128
      ensures Running(if extended && !was then count else old(size), l)
      ensures max1 < size && max2 < size && max1 != max2 && 0 < old(v)[max2] <= old(v)[max1]
      ensures was == extended ==> max1 == m1 && max2 == m2
      ensures v == old(v)[max1 := old(v)[max1] - old(v)[max2]]
      ensures points[..] == old(points[..])[max2 := g.add(old(points[..])[max2], old(points[..])[max1])]
    {
      l := Shorten(m1, limbsize);
      hide Fits, Radix;
      max1, max2, extended := TryExtend(count, l, was, m1, m2);
      Reduce(max1, max2, l);
    }

    /** The same iteration, seen from the start of the loop: the sum stays, the scalars' total strictly drops. */
    method Advance(ghost v0: seq<nat>, ghost ps0: seq<T>, count: nat, limbsize: nat, was: bool, ghost trail: Trail,
        m1: nat, m2: nat)
      returns (l: nat, extended: bool, ghost trail': Trail)
      requires Abelian(g) && Running(if was then count else FirstHalf(count), limbsize) && Top2(m1, m2) && v[m2] > 0
      requires Progress(g, v0, ps0, v, points[..], count, was, trail)
      requires trail.None? && !was ==> limbsize == 4
      modifies this, heap, scalars, points
      ensures Running(if extended then count else FirstHalf(count), l) && trail'.Some?
      ensures Progress(g, v0, ps0, v, points[..], count, extended, trail')
      ensures Total(v, count) < old(Total(v, count))
    {
      hide Combination, Unextended, Stuck, Abelian, Radix;
      if !was {
        BeforeExtension(g, v0, ps0, v, points[..], count, trail, m1);
      }
      var max1, max2;
      l, extended, max1, max2 := Iterate(count, limbsize, was, m1, m2);
      ProgressStep(g, v0, ps0, old(v), old(points[..]), v, points[..], count, was, extended, trail, m1, m2, max1, max2);
      trail' := Some(max1, max2);
    }

    /**
     The Bos-Coster loop up to its exit. `extended` tells whether the loop exits after the 128-bit
     scalars joined the heap.
     */
    method BosCoster(count: nat) returns (max1: nat, extended: bool)
      requires Abelian(g) && Shape() && 5 <= count <= heap.Length && count % 2 == 1
      requires forall i :: FirstHalf(count) <= i < count ==> v[i] < TWO128
      modifies this, heap, scalars, points
      ensures Valid() && max1 < count
      ensures extended <==> !Stuck(old(v), FirstHalf(count))
      ensures extended ==> Combination(g, old(v), old(points[..]), 0, count) == Mul(g, v[max1], points[max1])
      ensures extended ==> v[max1] < TWO128 && forall i :: 0 <= i < count && i != max1 ==> v[i] == 0
      ensures !extended ==>
        Combination(g, old(v), old(points[..]), 0, count) ==
        g.add(Mul(g, v[max1], points[max1]), Combination(g, old(v), old(points[..]), FirstHalf(count), count))
      ensures Remains(g, old(v), old(points[..]), if extended then count else FirstHalf(count), v[max1], points[max1])
    {
      hide Combination, Unextended, Stuck, Abelian, Radix, Remains, Keeps, Progress, Ordered, Indices;
      var max2;
      var limbsize: nat := 4;
      extended := false;
      var half := Odd((count + 1) / 2);
      Build(half);
      FullFits();
      ghost var trail: Trail, v0, ps0 := None, v, points[..];
      ProgressStart(g, v, points[..], count);
      while true
        invariant Running(if extended then count else half, limbsize)
        invariant Progress(g, v0, ps0, v, points[..], count, extended, trail)
        invariant trail.None? && !extended ==> limbsize == 4
        decreases Total(v, count)
      {
        max1, max2 := GetTop2(limbsize);
        var done := IsZero(max2);
        if done {
          break;
        }
        limbsize, extended, trail := Advance(v0, ps0, count, limbsize, extended, trail, max1, max2);
      }
      ProgressExit(g, v0, ps0, v, points[..], count, extended, trail, max1);
    }

    lemma FullFits()
      requires Shape()
      ensures Fits(size, 4)
    {
      forall i | 0 <= i < size
        ensures v[i] < Radix(5)
      {
        FullWidth(i);
      }
    }

    /** n | 1 */
    method Odd(n: nat) returns (r: nat)
      ensures r == if n % 2 == 1 then n else n + 1
    {
      assert Or(n / 2, 0) == n / 2;
      r := Or(n, 1);
    }

    method IsZero(i: nat) returns (r: bool)
      requires Shape() && i < |v|
      ensures r <==> v[i] == 0
    {
      assert Row(i);
      r := IsZero256(scalars[i]);
    }

    method AtMost128(i: nat) returns (r: bool)
      requires Shape() && i < |v|
      ensures r <==> v[i] < TWO128
    {
      assert Row(i);
      r := IsAtMost128Bits(scalars[i]);
    }

    method LimbIsZero(i: nat, limbsize: nat) returns (r: bool)
      requires Shape() && limbsize < 5 && i < |v| && v[i] < Radix(limbsize + 1)
      ensures r <==> v[i] < Radix(limbsize)
    {
      assert Row(i);
      FitsLow(scalars[i], limbsize);
      FitsLow(scalars[i], limbsize + 1);
      r := scalars[i][limbsize] == 0;
    }
  }

  /** n distinct naturals below n are all the naturals below n. */
  lemma {:induction false} Pigeonhole(h: seq<nat>, i: nat)
    requires i < |h| && (forall k :: 0 <= k < |h| ==> h[k] < |h|)
    requires forall j, k :: 0 <= j < k < |h| ==> h[j] != h[k]
    ensures exists k :: 0 <= k < |h| && h[k] == i
  {
    var image := Elements(h);
    ImageSize(h);
    if i !in image {
      assert forall x :: x in image + {i} ==> x < |h|;
      assert |image + {i}| == |h| + 1;
      Below(image + {i}, |h|);
      assert false;
    }
  }

  /** A set of naturals below n has at most n members. */
  lemma {:induction false} Below(s: set<nat>, n: nat)
    requires forall x :: x in s ==> x < n
    ensures |s| <= n
  {
    if s != {} {
      Below(s - {n - 1}, n - 1);
      assert s <= (s - {n - 1}) + {n - 1};
      if n - 1 !in s {
        assert s - {n - 1} == s;
      }
    }
  }

  ghost function Elements(h: seq<nat>): set<nat> {
    set x: nat | x in h
  }

  lemma {:induction false} ImageSize(h: seq<nat>)
    requires forall j, k :: 0 <= j < k < |h| ==> h[j] != h[k]
    ensures |Elements(h)| == |h|
  {
    if h == [] {
      assert Elements(h) == {};
    } else {
      var n := |h| - 1;
      ImageSize(h[..n]);
      assert h == h[..n] + [h[n]];
      assert Elements(h) == Elements(h[..n]) + {h[n]};
      assert h[n] !in h[..n];
    }
  }
}
