/**
 The double scalar multiplication on limb vectors: every point operation of the run has its bounds met and an
 up-to-date T where it reads one, and the result stands for [s1]P + [s2]B.
 */
module PointScalarMult {
  import opened Words
  import opened ModmBatch
  import AG = AbelianGroup
  import SW = SlidingWindow
  import F = Field25519
  import opened Edwards
  import opened Points
  import SM = ScalarMult

  /** Which group element a point in extended coordinates stands for. */
  datatype Reading<!T> = Reading(g: AG.Group<T>, stands: (Point, T) -> bool)

  ghost predicate Adds<T(!new)>(m: Reading<T>, p: Point, q: Point, a: T, b: T) {
    m.stands(p, a) && m.stands(q, b) ==> m.stands(Full(Sum(ED25519, p, q)), m.g.add(a, b))
  }

  ghost predicate Doubles<T(!new)>(m: Reading<T>, p: Point, a: T) {
    m.stands(p, a) ==> m.stands(Full(Flipped(Twice(p))), m.g.add(a, a))
  }

  ghost predicate Negates<T(!new)>(m: Reading<T>, p: Point, a: T) {
    m.stands(p, a) ==> m.stands(Negative(p), m.g.neg(a))
  }

  /** Projective coordinates: a common factor 2 does not change the point. */
  ghost predicate Scales<T(!new)>(m: Reading<T>, p: Point, a: T) {
    m.stands(p, a) ==> m.stands(Point(2 * p.X, 2 * p.Y, 2 * p.Z, 2 * p.T), a)
  }

  const NEUTRAL: Point := Point(0, 1, 1, 0)

  /** The addition, doubling and negation formulas are those of an abelian group. */
  ghost predicate Faithful<T(!new)>(m: Reading<T>) {
    && AG.Abelian(m.g) && m.stands(NEUTRAL, m.g.zero)
    && (forall p, q, a, b :: Adds(m, p, q, a, b))
    && (forall p, a :: Doubles(m, p, a))
    && (forall p, a :: Negates(m, p, a))
    && (forall p, a :: Scales(m, p, a))
  }

  // ---- staying on the curve, as one such reading ----

  ghost function OnCurveReading(): Reading<()> {
    Reading(AG.Group((), (a: (), b: ()) => (), (a: ()) => ()), (p: Point, a: ()) => OnEd25519(p))
  }

  lemma SumStays(p: Point, q: Point)
    requires OnEd25519(p) && OnEd25519(q)
    ensures OnEd25519(Full(Sum(ED25519, p, q)))
  {
    hide OnCurve, OnEd25519;
    OnEd25519Iff(p);
    OnEd25519Iff(q);
    SumOnCurve(ED25519, p, q);
    OnEd25519Iff(Full(Sum(ED25519, p, q)));
  }

  lemma DoubleStays(p: Point)
    requires OnEd25519(p)
    ensures OnEd25519(Full(Flipped(Twice(p))))
  {
    hide OnCurve, OnEd25519;
    OnEd25519Iff(p);
    TwiceOnCurve(ED25519, p);
    FlippedFull(Twice(p));
    MultipleOnCurve(ED25519, Full(Twice(p)), -1);
    OnEd25519Iff(Full(Flipped(Twice(p))));
  }

  lemma NegativeStays(p: Point)
    requires OnEd25519(p)
    ensures OnEd25519(Negative(p)) && OnEd25519(Point(2 * p.X, 2 * p.Y, 2 * p.Z, 2 * p.T))
  {
    hide OnCurve, OnEd25519;
    OnEd25519Iff(p);
    NegativeOnCurve(ED25519, p);
    MultipleOnCurve(ED25519, p, 2);
    OnEd25519Iff(Negative(p));
    OnEd25519Iff(Point(2 * p.X, 2 * p.Y, 2 * p.Z, 2 * p.T));
  }

  lemma NeutralOnCurve()
    ensures OnEd25519(NEUTRAL)
  {
    hide Same, OnEd25519;
    SameRefl(ED25519, 0);
    SameRefl(ED25519, 1);
    OnEd25519Iff(NEUTRAL);
  }

  /** Points of the curve are closed under the formulas. */
  lemma OnCurveFaithful()
    ensures Faithful(OnCurveReading())
  {
    hide OnEd25519;
    var m := OnCurveReading();
    NeutralOnCurve();
    assert AG.Abelian(m.g) by {
      assert forall a, b :: AG.Commutes(m.g, a, b);
      assert forall a, b, c :: AG.Associates(m.g, a, b, c);
      forall a
        ensures AG.Cancels(m.g, a)
      {
        match a { case () => }
      }
    }
    forall p, q, a, b
      ensures Adds(m, p, q, a, b)
    {
      if OnEd25519(p) && OnEd25519(q) {
        SumStays(p, q);
      }
    }
    forall p, a
      ensures Doubles(m, p, a) && Negates(m, p, a) && Scales(m, p, a)
    {
      if OnEd25519(p) {
        DoubleStays(p);
        NegativeStays(p);
      }
    }
  }

  // ---- tables ----

  /** What the entries of the two tables stand for. */
  datatype Tables<T> = Tables(ws: seq<Point>, xs: seq<T>, a: T, us: seq<Point>, ys: seq<T>, b: T)

  ghost predicate FirstReady<T(!new)>(m: Reading<T>, pre1: seq<Pniels>, ws: seq<Point>, xs: seq<T>, a: T)
    reads pre1
  {
    && |pre1| == |ws| == |xs| && SM.OddMultiples(m.g, xs, a)
    && forall k :: 0 <= k < |pre1| ==> pre1[k].Holds(ws[k]) && m.stands(ws[k], xs[k])
  }

  ghost predicate SecondReady<T(!new)>(m: Reading<T>, table: seq<Niels>, us: seq<Point>, ys: seq<T>, b: T) {
    && |table| == |us| == |ys| == 32 && SM.OddMultiples(m.g, ys, b)
    && forall k :: 0 <= k < 32 ==> table[k].Holds(us[k]) && m.stands(us[k], ys[k])
  }

  lemma OddNext<T(!new)>(g: AG.Group<T>, xs: seq<T>, a: T)
    requires AG.Abelian(g) && SM.OddMultiples(g, xs, a) && xs != []
    ensures SM.OddMultiples(g, xs + [g.add(g.add(a, a), xs[|xs| - 1])], a)
  {
    hide AG.Abelian;
    var n := |xs|;
    AG.Unit(g, a);
    AG.MulAdd(g, 1, 1, a);
    AG.MulAdd(g, 2, 2 * (n - 1) + 1, a);
    assert xs[n - 1] == AG.Mul(g, 2 * (n - 1) + 1, a);
  }

  /** pre1[i] = (2i + 1) p1, by repeatedly adding 2 p1. */
  method BuildTable<T(!new)>(ghost m: Reading<T>, p1: Ge, ghost v: Point, ghost a: T)
    returns (pre1: seq<Pniels>, ghost ws: seq<Point>, ghost xs: seq<T>)
    requires Faithful(m) && p1.Holds(v) && m.stands(v, a)
    ensures |pre1| == 8 && FirstReady(m, pre1, ws, xs, a)
  {
    hide AG.Abelian, AG.Mul, Faithful, FirstReady, Is;
    var d1 := new Ge();
    Doubled(m, v, a);
    Double(d1, p1, v);
    ghost var d := Full(Flipped(Twice(v)));
    ghost var aa := m.g.add(a, a);
    var first := new Pniels();
    FullToPniels(first, p1, v);
    pre1, ws, xs := [first], [v], [a];
    FirstReadyStart(m, first, v, a);
    for i := 0 to 7
      invariant |pre1| == |ws| == |xs| == i + 1 && FirstReady(m, pre1, ws, xs, a) && d1.Holds(d) && m.stands(d, aa)
    {
      var next := new Pniels();
      ghost var w, x := ws[i], xs[i];
      FirstReadyAt(m, pre1, ws, xs, a, i);
      Summed(m, d, w, aa, x);
      PnielsAdd(next, d1, pre1[i], d, w);
      FirstReadyNext(m, pre1, ws, xs, a, next, Full(Sum(ED25519, d, w)));
      pre1, ws, xs := pre1 + [next], ws + [Full(Sum(ED25519, d, w))], xs + [m.g.add(aa, x)];
    }
  }

  lemma FirstReadyStart<T(!new)>(m: Reading<T>, e: Pniels, v: Point, a: T)
    requires Faithful(m) && e.Holds(v) && m.stands(v, a)
    ensures FirstReady(m, [e], [v], [a], a)
  {
    AG.Unit(m.g, a);
  }

  lemma FirstReadyAt<T(!new)>(m: Reading<T>, pre1: seq<Pniels>, ws: seq<Point>, xs: seq<T>, a: T, k: nat)
    requires FirstReady(m, pre1, ws, xs, a) && k < |pre1|
    ensures |ws| == |xs| == |pre1| && pre1[k].Holds(ws[k]) && m.stands(ws[k], xs[k])
  {
  }

  lemma FirstReadyNext<T(!new)>(m: Reading<T>, pre1: seq<Pniels>, ws: seq<Point>, xs: seq<T>, a: T, e: Pniels, w: Point)
    requires Faithful(m) && FirstReady(m, pre1, ws, xs, a) && pre1 != [] && e.Holds(w)
    requires |xs| == |pre1| && m.stands(w, m.g.add(m.g.add(a, a), xs[|xs| - 1]))
    ensures FirstReady(m, pre1 + [e], ws + [w], xs + [m.g.add(m.g.add(a, a), xs[|xs| - 1])], a)
  {
    hide AG.Abelian, Adds, Doubles, Negates, SM.OddMultiples;
    OddNext(m.g, xs, a);
  }

  /** The group element that the addition of table entry |d| / 2 with the sign of d adds. */
  lemma SignedEntry<T(!new)>(m: Reading<T>, w: Point, x: T, signbit: nat)
    requires Faithful(m) && m.stands(w, x)
    ensures m.stands(Signed(w, signbit), if signbit == 0 then x else m.g.neg(x))
  {
    assert Negates(m, w, x);
  }

  lemma Summed<T(!new)>(m: Reading<T>, p: Point, q: Point, a: T, b: T)
    requires Faithful(m) && m.stands(p, a) && m.stands(q, b)
    ensures m.stands(Full(Sum(ED25519, p, q)), m.g.add(a, b))
  {
    assert Adds(m, p, q, a, b);
  }

  lemma Doubled<T(!new)>(m: Reading<T>, p: Point, a: T)
    requires Faithful(m) && m.stands(p, a)
    ensures m.stands(Full(Flipped(Twice(p))), m.g.add(a, a))
  {
    assert Doubles(m, p, a);
  }

  // ---- the main loop ----

  /** t stands for c in completed form. */
  ghost predicate Completes<T(!new)>(m: Reading<T>, t: P1p1, c: Completed, x: T)
    reads t
  {
    t.Holds(c) && m.stands(Full(c), x)
  }

  /** if (slide1[i]): to full form, then the signed addition from the first table */
  method AddFirst<T(!new)>(ghost m: Reading<T>, r: Ge, t: P1p1, pre1: seq<Pniels>, d: SW.i8, ghost ws: seq<Point>,
      ghost xs: seq<T>, ghost a: T, ghost c: Completed, ghost x: T)
    returns (ghost c2: Completed)
    requires Faithful(m) && |pre1| == 8 && FirstReady(m, pre1, ws, xs, a) && Completes(m, t, c, x)
    requires d != 0 ==> d % 2 != 0 && SM.Magnitude(d) / 2 < 8
    modifies r, t
    ensures Completes(m, t, c2, m.g.add(x, AG.Mul(m.g, d, a)))
    ensures FirstReady(m, pre1, ws, xs, a)
  {
    hide Faithful, AG.Abelian, AG.Mul, SM.OddMultiples;
    c2 := c;
    FaithfulAbelian(m);
    if d != 0 {
      P1p1ToFull(r, t, c);
      var k, s := SM.Magnitude(d) / 2, SM.SignBit(d);
      SM.DigitEntry(m.g, xs, a, d);
      SignedEntry(m, ws[k], xs[k], s);
      PnielsAddP1p1(t, r, pre1[k], s, Full(c), ws[k]);
      Summed(m, Full(c), Signed(ws[k], s), x, AG.Mul(m.g, d, a));
      c2 := Sum(ED25519, Full(c), Signed(ws[k], s));
    } else {
      Nothing(m.g, x, a);
    }
  }

  lemma FaithfulAbelian<T(!new)>(m: Reading<T>)
    requires Faithful(m)
    ensures AG.Abelian(m.g) && m.stands(NEUTRAL, m.g.zero)
  {
  }

  lemma Nothing<T(!new)>(g: AG.Group<T>, x: T, a: T)
    requires AG.Abelian(g)
    ensures g.add(x, AG.Mul(g, 0, a)) == x
  {
    AG.Unit(g, x);
  }

  /** if (slide2[i]): to full form, then the signed addition from the second table */
  method AddSecond<T(!new)>(ghost m: Reading<T>, r: Ge, t: P1p1, table: seq<Niels>, d: SW.i8, ghost us: seq<Point>,
      ghost ys: seq<T>, ghost b: T, ghost c: Completed, ghost x: T)
    returns (ghost c2: Completed)
    requires Faithful(m) && SecondReady(m, table, us, ys, b) && Completes(m, t, c, x)
    requires d != 0 ==> d % 2 != 0 && SM.Magnitude(d) / 2 < 32
    modifies r, t
    ensures Completes(m, t, c2, m.g.add(x, AG.Mul(m.g, d, b)))
  {
    hide Faithful, AG.Abelian, AG.Mul, SM.OddMultiples;
    c2 := c;
    FaithfulAbelian(m);
    if d != 0 {
      P1p1ToFull(r, t, c);
      var k, s := SM.Magnitude(d) / 2, SM.SignBit(d);
      SM.DigitEntry(m.g, ys, b, d);
      SignedEntry(m, us[k], ys[k], s);
      NielsAdd2P1p1(t, r, table[k], s, Full(c), us[k]);
      Summed(m, Full(c), Signed(us[k], s), x, AG.Mul(m.g, d, b));
      c2 := Sum(ED25519, Full(c), Signed(us[k], s));
    } else {
      Nothing(m.g, x, b);
    }
  }

  /** One position of the main loop. */
  method OnePosition<T(!new)>(ghost m: Reading<T>, r: Ge, pre1: seq<Pniels>, table: seq<Niels>, d1: SW.i8, d2: SW.i8,
      ghost tab: Tables<T>, ghost v: Point, ghost x: T)
    returns (ghost v2: Point)
    requires Faithful(m) && |pre1| == 8 && FirstReady(m, pre1, tab.ws, tab.xs, tab.a) &&
        SecondReady(m, table, tab.us, tab.ys, tab.b)
    requires r.Partial(v) && m.stands(v, x)
    requires d1 != 0 ==> d1 % 2 != 0 && SM.Magnitude(d1) / 2 < 8
    requires d2 != 0 ==> d2 % 2 != 0 && SM.Magnitude(d2) / 2 < 32
    modifies r
    ensures r.Partial(v2) &&
        m.stands(v2, m.g.add(m.g.add(m.g.add(x, x), AG.Mul(m.g, d1, tab.a)), AG.Mul(m.g, d2, tab.b)))
    ensures FirstReady(m, pre1, tab.ws, tab.xs, tab.a)
  {
    hide Faithful, AG.Mul, SecondReady, FirstReady, Is;
    var t := new P1p1();
    DoubleP1p1(t, r, v);
    Doubled(m, v, x);
    ghost var c := Flipped(Twice(v));
    ghost var c1 := AddFirst(m, r, t, pre1, d1, tab.ws, tab.xs, tab.a, c, m.g.add(x, x));
    ghost var c2 := AddSecond(m, r, t, table, d2, tab.us, tab.ys, tab.b, c1,
        m.g.add(m.g.add(x, x), AG.Mul(m.g, d1, tab.a)));
    P1p1ToPartial(r, t, c2);
    v2 := Full(c2);
  }

  /** memset(r, 0, sizeof(ge25519)); r->y[0] = 1; r->z[0] = 1 */
  method SetNeutral(r: Ge)
    modifies r
    ensures r.Holds(NEUTRAL)
  {
    r.x, r.y, r.z, r.t := [0, 0, 0, 0, 0], [1, 0, 0, 0, 0], [1, 0, 0, 0, 0], [0, 0, 0, 0, 0];
    assert F.Val(r.x) == 0 && F.Val(r.y) == 1;
  }

  /** The highest position with a digit, -1 if there is none. */
  method FirstPosition(slide1: seq<SW.i8>, slide2: seq<SW.i8>) returns (i: int)
    requires |slide1| == |slide2| == 256
    ensures -1 <= i <= 255 && SW.V(slide1, i + 1) == 0 && SW.V(slide2, i + 1) == 0
  {
    hide SW.V;
    i := 255;
    SW.VEnd(slide1);
    SW.VEnd(slide2);
    while i >= 0 && slide1[i] == 0 && slide2[i] == 0
      invariant -1 <= i <= 255 && SW.V(slide1, i + 1) == 0 && SW.V(slide2, i + 1) == 0
    {
      SM.VNext(slide1, i);
      SM.VNext(slide2, i);
      i := i - 1;
    }
  }

  /** The element that the digits from position i on make. */
  ghost function Remaining<T(!new)>(g: AG.Group<T>, slide1: seq<SW.i8>, slide2: seq<SW.i8>, i: nat, a: T, b: T): T
    requires i <= |slide1| && i <= |slide2|
  {
    g.add(AG.Mul(g, SW.V(slide1, i), a), AG.Mul(g, SW.V(slide2, i), b))
  }

  lemma RemainingStep<T(!new)>(g: AG.Group<T>, slide1: seq<SW.i8>, slide2: seq<SW.i8>, i: nat, a: T, b: T)
    requires AG.Abelian(g) && i < |slide1| && i < |slide2|
    ensures var x := Remaining(g, slide1, slide2, i + 1, a, b);
      Remaining(g, slide1, slide2, i, a, b) ==
          g.add(g.add(g.add(x, x), AG.Mul(g, slide1[i], a)), AG.Mul(g, slide2[i], b))
  {
    hide AG.Abelian, AG.Mul, SW.V;
    SM.HornerStep(g, SW.V(slide1, i + 1), SW.V(slide2, i + 1), slide1[i], slide2[i], a, b);
    SM.VNext(slide1, i);
    SM.VNext(slide2, i);
  }

  lemma NothingRemains<T(!new)>(g: AG.Group<T>, slide1: seq<SW.i8>, slide2: seq<SW.i8>, i: nat, a: T, b: T)
    requires AG.Abelian(g) && i <= |slide1| && i <= |slide2| && SW.V(slide1, i) == 0 && SW.V(slide2, i) == 0
    ensures Remaining(g, slide1, slide2, i, a, b) == g.zero
  {
    hide AG.Abelian, AG.Mul, SW.V;
    SM.Nothing(g, a, b);
  }

  method EvaluatePoints<T(!new)>(ghost m: Reading<T>, r: Ge, slide1: seq<SW.i8>, slide2: seq<SW.i8>, pre1: seq<Pniels>,
      table: seq<Niels>, ghost tab: Tables<T>)
    returns (ghost v: Point)
    requires Faithful(m) && |pre1| == 8 && FirstReady(m, pre1, tab.ws, tab.xs, tab.a) &&
        SecondReady(m, table, tab.us, tab.ys, tab.b)
    requires |slide1| == |slide2| == 256 && SW.Digits(slide1, 256, 5) && SW.Digits(slide2, 256, 7)
    modifies r
    ensures r.Partial(v) && m.stands(v, Remaining(m.g, slide1, slide2, 0, tab.a, tab.b))
  {
    hide Faithful, AG.Mul, SecondReady, FirstReady, SW.V, SW.Digits, AG.Abelian, Remaining, Is;
    FaithfulAbelian(m);
    SetNeutral(r);
    v := NEUTRAL;
    var i := FirstPosition(slide1, slide2);
    NothingRemains(m.g, slide1, slide2, i + 1, tab.a, tab.b);
    while i >= 0
      invariant -1 <= i <= 255 && FirstReady(m, pre1, tab.ws, tab.xs, tab.a)
      invariant r.Partial(v) && m.stands(v, Remaining(m.g, slide1, slide2, i + 1, tab.a, tab.b))
    {
      SM.DigitRange(slide1, i, 5);
      SM.DigitRange(slide2, i, 7);
      RemainingStep(m.g, slide1, slide2, i, tab.a, tab.b);
      v := OnePosition(m, r, pre1, table, slide1[i], slide2[i], tab, v,
          Remaining(m.g, slide1, slide2, i + 1, tab.a, tab.b));
      i := i - 1;
    }
  }

  /** ge25519_double_scalarmult_vartime, for a table of odd multiples of b; r may be p1 */
  method DoubleScalarmultPoints<T(!new)>(ghost m: Reading<T>, r: Ge, p1: Ge, s1: Limbs, s2: Limbs, table: seq<Niels>,
                                         ghost v1: Point, ghost a: T, ghost us: seq<Point>, ghost ys: seq<T>,
                                             ghost b: T)
    returns (ghost v: Point)
    requires Faithful(m) && p1.Holds(v1) && m.stands(v1, a) && SecondReady(m, table, us, ys, b)
    requires Proper(s1) && Proper(s2) && Value(s1) < Pow2(253) && Value(s2) < Pow2(253)
    modifies r
    ensures r.Partial(v) && m.stands(v, m.g.add(AG.Mul(m.g, Value(s1), a), AG.Mul(m.g, Value(s2), b)))
  {
    hide Faithful, AG.Mul, SecondReady, FirstReady, SW.V, Value, Pow2, SW.Digits;
    var slide1, slide2 := new SW.i8[256], new SW.i8[256];
    SW.Recode(slide1, s1, 5);
    SW.Recode(slide2, s2, 7);
    var pre1;
    ghost var ws, xs;
    pre1, ws, xs := BuildTable(m, p1, v1, a);
    v := EvaluatePoints(m, r, slide1[..], slide2[..], pre1, table, Tables(ws, xs, a, us, ys, b));
  }
}
