/**
 Twisted Edwards curves -x^2 + y^2 = 1 + d x^2 y^2 modulo p, in extended coordinates, on integers.

 The algebra needs nothing of the modulus or of d, so it is done for any curve of this shape;
 `Points` takes p = 2^255 - 19 and d = -121665/121666.
 */
module Edwards {

  datatype Curve = Curve(p: int, d: int)
  datatype Point = Point(X: int, Y: int, Z: int, T: int)

  /** Equal modulo p. */
  ghost predicate Same(cv: Curve, a: int, b: int) {
    exists k {:trigger Scaled(cv, k)} :: a == b + Scaled(cv, k)
  }

  function Scaled(cv: Curve, k: int): int {
    k * cv.p
  }

  lemma SameAdd(cv: Curve, a: int, b: int, c: int, d: int)
    requires Same(cv, a, b) && Same(cv, c, d)
    ensures Same(cv, a + c, b + d)
  {
    var k :| a == b + Scaled(cv, k);
    var l :| c == d + Scaled(cv, l);
    DistributeK(cv, k, l);
    assert a + c == b + d + Scaled(cv, k + l);
  }

  lemma SameSub(cv: Curve, a: int, b: int, c: int, d: int)
    requires Same(cv, a, b) && Same(cv, c, d)
    ensures Same(cv, a - c, b - d)
  {
    var k :| a == b + Scaled(cv, k);
    var l :| c == d + Scaled(cv, l);
    DistributeK(cv, k, l);
    assert a - c == b - d + Scaled(cv, k - l);
  }

  lemma DistributeK(cv: Curve, k: int, l: int)
    ensures Scaled(cv, k + l) == Scaled(cv, k) + Scaled(cv, l) && Scaled(cv, k - l) == Scaled(cv, k) - Scaled(cv, l)
  {
  }

  lemma SameMul(cv: Curve, a: int, b: int, c: int, d: int)
    requires Same(cv, a, b) && Same(cv, c, d)
    ensures Same(cv, a * c, b * d)
  {
    var k :| a == b + Scaled(cv, k);
    var l :| c == d + Scaled(cv, l);
    ProductK(cv, b, k, d, l);
    assert a * c == b * d + Scaled(cv, k * d + b * l + k * Scaled(cv, l));
  }

  lemma ProductK(cv: Curve, b: int, k: int, d: int, l: int)
    ensures (b + Scaled(cv, k)) * (d + Scaled(cv, l)) == b * d + Scaled(cv, k * d + b * l + k * Scaled(cv, l))
  {
    var m := cv.p;
    assert (b + k * m) * (d + l * m) == b * d + b * (l * m) + (k * m) * d + (k * m) * (l * m);
    assert (k * d + b * l + k * (l * m)) * m == (k * d) * m + (b * l) * m + (k * (l * m)) * m;
  }

  /** X Y = Z T: the fourth coordinate is the product of the affine ones. */
  ghost predicate Extended(cv: Curve, p: Point) {
    Same(cv, p.X * p.Y, p.Z * p.T)
  }

  ghost predicate OnCurve(cv: Curve, p: Point) {
    Extended(cv, p) && Same(cv, p.Y * p.Y - p.X * p.X, p.Z * p.Z + cv.d * (p.T * p.T))
  }

  function Negative(p: Point): Point {
    Point(-p.X, p.Y, p.Z, -p.T)
  }

  /** The completed form (E, H, G, F) between an addition and its final products. */
  datatype Completed = Completed(E: int, H: int, G: int, F: int)

  function Full(c: Completed): Point {
    Point(c.E * c.F, c.H * c.G, c.G * c.F, c.E * c.H)
  }

  /** Addition, section 5.1.4 of RFC 8032. */
  function Sum(cv: Curve, p: Point, q: Point): Completed {
    var A := (p.Y - p.X) * (q.Y - q.X);
    var B := (p.Y + p.X) * (q.Y + q.X);
    var C := p.T * (2 * cv.d * q.T);
    var D2 := 2 * (p.Z * q.Z);
    Completed(B - A, B + A, D2 + C, D2 - C)
  }

  /** Doubling, section 5.1.4 of RFC 8032. */
  function Twice(p: Point): Completed {
    var A := p.X * p.X;
    var B := p.Y * p.Y;
    var C := 2 * (p.Z * p.Z);
    var H := A + B;
    var E := H - (p.X + p.Y) * (p.X + p.Y);
    var G := A - B;
    Completed(E, H, G, C + G)
  }

  // ---- closure ----

  /** Half of the completed form of a sum. */
  lemma SumHalves(cv: Curve, p: Point, q: Point)
    ensures var s := Sum(cv, p, q);
      && s.E == 2 * (p.X * q.Y + q.X * p.Y) && s.H == 2 * (p.Y * q.Y + p.X * q.X)
      && s.G == 2 * (p.Z * q.Z + cv.d * (p.T * q.T)) && s.F == 2 * (p.Z * q.Z - cv.d * (p.T * q.T))
  {
    Cross(p.X, p.Y, q.X, q.Y);
    Product3(p.T, cv.d, q.T);
  }

  lemma Cross(x1: int, y1: int, x2: int, y2: int)
    ensures (y1 + x1) * (y2 + x2) - (y1 - x1) * (y2 - x2) == 2 * (x1 * y2 + x2 * y1)
    ensures (y1 + x1) * (y2 + x2) + (y1 - x1) * (y2 - x2) == 2 * (y1 * y2 + x1 * x2)
  {
    assert (y1 + x1) * (y2 + x2) == y1 * y2 + y1 * x2 + x1 * y2 + x1 * x2;
    assert (y1 - x1) * (y2 - x2) == y1 * y2 - y1 * x2 - x1 * y2 + x1 * x2;
  }

  lemma Product3(t: int, d: int, u: int)
    ensures t * (2 * d * u) == 2 * (d * (t * u))
  {
  }

  /** e^2, h^2 and their difference, from the squares of the coordinates. */
  lemma Squares(x1: int, y1: int, x2: int, y2: int)
    ensures var e, h := x1 * y2 + x2 * y1, y1 * y2 + x1 * x2;
      && h * h == (y1 * y1) * (y2 * y2) + (x1 * x1) * (x2 * x2) + 2 * ((x1 * y1) * (x2 * y2))
      && e * e == (x1 * x1) * (y2 * y2) + (x2 * x2) * (y1 * y1) + 2 * ((x1 * y1) * (x2 * y2))
  {
    SquareOfSum(y1 * y2, x1 * x2);
    SquareOfSum(x1 * y2, x2 * y1);
    Regroup(y1, y2, y1, y2);
    Regroup(x1, x2, x1, x2);
    Regroup(x1, y2, x1, y2);
    Regroup(x2, y1, x2, y1);
    Regroup(y1, y2, x1, x2);
    Regroup(x1, y2, y1, x2);
  }

  lemma SquareOfSum(a: int, b: int)
    ensures (a + b) * (a + b) == a * a + b * b + 2 * (a * b)
  {
  }

  lemma Regroup(a: int, b: int, c: int, d: int)
    ensures (a * b) * (c * d) == (a * c) * (b * d)
  {
  }

  lemma DifferenceOfProducts(a1: int, b1: int, a2: int, b2: int)
    ensures (b1 * b2 + a1 * a2) - (a1 * b2 + a2 * b1) == (b1 - a1) * (b2 - a2)
  {
  }

  /** M N for M = b1 b2 + a1 a2 and N = a1 b2 + a2 b1. */
  lemma ProductOfSums(a1: int, b1: int, a2: int, b2: int)
    ensures (b1 * b2 + a1 * a2) * (a1 * b2 + a2 * b1)
      == (a1 * b1) * ((b2 - a2) * (b2 - a2) + 2 * (a2 * b2)) + (a2 * b2) * ((b1 - a1) * (b1 - a1) + 2 * (a1 * b1))
  {
  }

  lemma ExpandedProduct(c1: int, t1: int, c2: int, t2: int, d: int)
    ensures (c1 * t1) * ((c2 + d * t2) * (c2 + d * t2) + 2 * (c2 * t2)) +
        (c2 * t2) * ((c1 + d * t1) * (c1 + d * t1) + 2 * (c1 * t1))
      == (c1 * c2 + (d * d) * (t1 * t2)) * (c1 * t2 + t1 * c2) + (4 + 4 * d) * ((c1 * c2) * (t1 * t2))
  {
    OneProduct(c1, t1, c2, t2, d, d * d);
    OneProduct(c2, t2, c1, t1, d, d * d);
    ProductOfLinears(c1 * c2, t1 * t2, c1 * t2, t1 * c2, d * d);
    Commutes(c1, c2);
    Commutes(t1, t2);
    Commutes(c1, t2);
    Commutes(t1, c2);
    Halves(d, (c1 * c2) * (t1 * t2));
  }

  lemma Commutes(a: int, b: int)
    ensures a * b == b * a
  {
  }

  lemma Halves(d: int, q: int)
    ensures (2 + 2 * d) * q + (2 + 2 * d) * q == (4 + 4 * d) * q
  {
  }

  lemma OneProduct(c1: int, t1: int, c2: int, t2: int, d: int, dd: int)
    requires dd == d * d
    ensures (c1 * t1) * ((c2 + d * t2) * (c2 + d * t2) + 2 * (c2 * t2))
      == (c1 * c2) * (t1 * c2) + dd * ((t1 * t2) * (c1 * t2)) + (2 + 2 * d) * ((c1 * c2) * (t1 * t2))
  {
    SquareOfLinear(c2, t2, d);
    SplitFactor(c1 * t1, c2, t2, d);
    Regroup(c1, t1, c2, c2);
    Regroup(c1, t1, t2, t2);
    Regroup(c1, t1, c2, t2);
    Commutes(c1 * t2, t1 * t2);
  }

  lemma SquareOfLinear(c: int, t: int, d: int)
    ensures (c + d * t) * (c + d * t) == c * c + (d * d) * (t * t) + 2 * (d * (c * t))
  {
    SquareOfSum(c, d * t);
    Regroup(d, t, d, t);
  }

  lemma SplitFactor(k: int, c: int, t: int, d: int)
    ensures k * (c * c + (d * d) * (t * t) + 2 * (d * (c * t)) + 2 * (c * t)) == k * (c * c) +
        (d * d) * (k * (t * t)) + (2 + 2 * d) * (k * (c * t))
  {
  }

  lemma ProductOfLinears(a: int, b: int, u: int, v: int, d: int)
    ensures (a + d * b) * (u + v) == a * u + a * v + d * (b * u) + d * (b * v)
  {
  }

  /** The curve equation of a sum, in the squares of its completed form, up to two relations. */
  lemma SquaresIdentity(S: int, q: int, m: int, n: int, d: int, k: int)
    ensures (S + 2 * (d * q)) * (m + 2 * q) - (S - 2 * (d * q)) * (n + 2 * q)
      - ((S - 2 * (d * q)) * (S + 2 * (d * q)) + d * ((n + 2 * q) * (m + 2 * q)))
      == S * ((m - n) - (S + d * k)) - d * (m * n - (S * k + (4 + 4 * d) * (q * q)))
  {
    var r := d * q;
    FourProducts(S, r, m, n, q);
    DistributeD(d, m * n, q * m, q * n, q * q, S * k);
    SplitS(S, m, n, d, k);
    ThreeFactors(d, q, m);
    ThreeFactors(d, q, n);
    ThreeFactors(d, q, q);
    ThreeFactors(d, q, r);
    assert q * r == d * (q * q);
  }

  lemma FourProducts(S: int, r: int, m: int, n: int, q: int)
    ensures (S + 2 * r) * (m + 2 * q) == S * m + 2 * (S * q) + 2 * (r * m) + 4 * (r * q)
    ensures (S - 2 * r) * (n + 2 * q) == S * n + 2 * (S * q) - 2 * (r * n) - 4 * (r * q)
    ensures (S - 2 * r) * (S + 2 * r) == S * S - 4 * (r * r)
    ensures (n + 2 * q) * (m + 2 * q) == m * n + 2 * (q * m) + 2 * (q * n) + 4 * (q * q)
  {
  }

  lemma ThreeFactors(a: int, b: int, c: int)
    ensures (a * b) * c == a * (b * c)
  {
  }

  lemma DistributeD(d: int, mn: int, qm: int, qn: int, qq: int, sk: int)
    ensures d * (mn + 2 * qm + 2 * qn + 4 * qq) == d * mn + 2 * (d * qm) + 2 * (d * qn) + 4 * (d * qq)
    ensures d * (mn - (sk + (4 + 4 * d) * qq)) == d * mn - d * sk - 4 * (d * qq) - 4 * (d * (d * qq))
  {
  }

  lemma SplitS(S: int, m: int, n: int, d: int, k: int)
    ensures S * ((m - n) - (S + d * k)) == S * m - S * n - S * S - d * (S * k)
  {
  }

  lemma SquaresCongruent(cv: Curve, S: int, q: int, m: int, n: int, k: int)
    requires Same(cv, m - n, S + cv.d * k) && Same(cv, m * n, S * k + (4 + 4 * cv.d) * (q * q))
    ensures Same(cv, (S + 2 * (cv.d * q)) * (m + 2 * q) - (S - 2 * (cv.d * q)) * (n + 2 * q),
                 (S - 2 * (cv.d * q)) * (S + 2 * (cv.d * q)) + cv.d * ((n + 2 * q) * (m + 2 * q)))
  {
    hide Same;
    SquaresIdentity(S, q, m, n, cv.d, k);
    Combined(cv, (S + 2 * (cv.d * q)) * (m + 2 * q) - (S - 2 * (cv.d * q)) * (n + 2 * q),
             (S - 2 * (cv.d * q)) * (S + 2 * (cv.d * q)) + cv.d * ((n + 2 * q) * (m + 2 * q)),
             S, m - n, S + cv.d * k, cv.d, m * n, S * k + (4 + 4 * cv.d) * (q * q));
  }

  lemma Combined(cv: Curve, l: int, r: int, s: int, x: int, y: int, t: int, u: int, v: int)
    requires Same(cv, x, y) && Same(cv, u, v) && l - r == s * (x - y) - t * (u - v)
    ensures Same(cv, l, r)
  {
    hide Same;
    DifferenceZero(cv, x, y);
    DifferenceZero(cv, u, v);
    MultiplesOfZero(cv, s, x - y, t, u - v);
    ZeroDifference(cv, l, r);
  }

  lemma DifferenceZero(cv: Curve, a: int, b: int)
    requires Same(cv, a, b)
    ensures Same(cv, a - b, 0)
  {
    SameRefl(cv, b);
    SameSub(cv, a, b, b, b);
  }

  lemma ZeroDifference(cv: Curve, a: int, b: int)
    requires Same(cv, a - b, 0)
    ensures Same(cv, a, b)
  {
    SameRefl(cv, b);
    SameAdd(cv, a - b, 0, b, b);
  }

  lemma MultiplesOfZero(cv: Curve, s: int, x: int, d: int, y: int)
    requires Same(cv, x, 0) && Same(cv, y, 0)
    ensures Same(cv, s * x - d * y, 0)
  {
    hide Same;
    SameRefl(cv, s);
    SameRefl(cv, d);
    SameMul(cv, s, s, x, 0);
    SameMul(cv, d, d, y, 0);
    assert s * 0 == 0 && d * 0 == 0;
    SameSub(cv, s * x, 0, d * y, 0);
  }

  lemma SameRefl(cv: Curve, a: int)
    ensures Same(cv, a, a)
  {
    assert a == a + Scaled(cv, 0);
  }

  lemma SameSym(cv: Curve, a: int, b: int)
    requires Same(cv, a, b)
    ensures Same(cv, b, a)
  {
    var k :| a == b + Scaled(cv, k);
    DistributeK(cv, 0, k);
    assert b == a + Scaled(cv, -k);
  }

  lemma SameTrans(cv: Curve, a: int, b: int, c: int)
    requires Same(cv, a, b) && Same(cv, b, c)
    ensures Same(cv, a, c) && Same(cv, b, a)
  {
    var k :| a == b + Scaled(cv, k);
    var l :| b == c + Scaled(cv, l);
    DistributeK(cv, k, l);
    assert a == c + Scaled(cv, k + l);
    SameSym(cv, a, b);
  }

  lemma TwoLinears(c1: int, s1: int, c2: int, s2: int, d: int)
    ensures (c1 + d * s1) * (c2 + d * s2) == (c1 * c2 + (d * d) * (s1 * s2)) + d * (c1 * s2 + s1 * c2)
  {
    assert (c1 + d * s1) * (c2 + d * s2) == c1 * c2 + c1 * (d * s2) + (d * s1) * c2 + (d * s1) * (d * s2);
    Regroup(d, s1, d, s2);
    assert c1 * (d * s2) == d * (c1 * s2) && (d * s1) * c2 == d * (s1 * c2);
  }

  /** What two curve equations say about the squares a = x^2, b = y^2, c = z^2, s = t^2. */
  lemma SquareRelations(cv: Curve, a1: int, b1: int, c1: int, s1: int, a2: int, b2: int, c2: int, s2: int)
    requires Same(cv, b1 - a1, c1 + cv.d * s1) && Same(cv, a1 * b1, c1 * s1) && Same(cv, b2 - a2, c2 + cv.d * s2) &&
        Same(cv, a2 * b2, c2 * s2)
    ensures var m, n, S, k := b1 * b2 + a1 * a2, a1 * b2 + a2 * b1, c1 * c2 + (cv.d * cv.d) * (s1 * s2),
        c1 * s2 + s1 * c2;
      Same(cv, m - n, S + cv.d * k) && Same(cv, m * n, S * k + (4 + 4 * cv.d) * ((c1 * c2) * (s1 * s2)))
  {
    hide Same;
    DifferenceOfProducts(a1, b1, a2, b2);
    SameMul(cv, b1 - a1, c1 + cv.d * s1, b2 - a2, c2 + cv.d * s2);
    TwoLinears(c1, s1, c2, s2, cv.d);
    ProductOfSums(a1, b1, a2, b2);
    ExpandedProduct(c1, t1 := s1, c2 := c2, t2 := s2, d := cv.d);
    OneFactor(cv, a1, b1, c1, s1, a2, b2, c2, s2);
    OneFactor(cv, a2, b2, c2, s2, a1, b1, c1, s1);
    SameAdd(cv, (a1 * b1) * ((b2 - a2) * (b2 - a2) + 2 * (a2 * b2)),
        (c1 * s1) * ((c2 + cv.d * s2) * (c2 + cv.d * s2) + 2 * (c2 * s2)),
            (a2 * b2) * ((b1 - a1) * (b1 - a1) + 2 * (a1 * b1)),
                (c2 * s2) * ((c1 + cv.d * s1) * (c1 + cv.d * s1) + 2 * (c1 * s1)));
  }

  lemma OneFactor(cv: Curve, a1: int, b1: int, c1: int, s1: int, a2: int, b2: int, c2: int, s2: int)
    requires Same(cv, a1 * b1, c1 * s1) && Same(cv, b2 - a2, c2 + cv.d * s2) && Same(cv, a2 * b2, c2 * s2)
    ensures Same(cv, (a1 * b1) * ((b2 - a2) * (b2 - a2) + 2 * (a2 * b2)),
        (c1 * s1) * ((c2 + cv.d * s2) * (c2 + cv.d * s2) + 2 * (c2 * s2)))
  {
    hide Same;
    SameMul(cv, b2 - a2, c2 + cv.d * s2, b2 - a2, c2 + cv.d * s2);
    SameRefl(cv, 2);
    SameMul(cv, 2, 2, a2 * b2, c2 * s2);
    SameAdd(cv, (b2 - a2) * (b2 - a2), (c2 + cv.d * s2) * (c2 + cv.d * s2), 2 * (a2 * b2), 2 * (c2 * s2));
    SameMul(cv, a1 * b1, c1 * s1, (b2 - a2) * (b2 - a2) + 2 * (a2 * b2),
        (c2 + cv.d * s2) * (c2 + cv.d * s2) + 2 * (c2 * s2));
  }

  /** The curve equation of Full(c), in squares. */
  ghost predicate Balanced(cv: Curve, ee: int, hh: int, gg: int, ff: int) {
    Same(cv, gg * hh - ff * ee, ff * gg + cv.d * (ee * hh))
  }

  lemma BalancedFull(cv: Curve, c: Completed)
    requires Balanced(cv, c.E * c.E, c.H * c.H, c.G * c.G, c.F * c.F)
    ensures OnCurve(cv, Full(c))
  {
    hide Same;
    Regroup(c.H, c.G, c.H, c.G);
    Regroup(c.E, c.F, c.E, c.F);
    Regroup(c.G, c.F, c.G, c.F);
    Regroup(c.E, c.H, c.E, c.H);
    Regroup(c.E, c.F, c.H, c.G);
    assert (c.H * c.H) * (c.G * c.G) == (c.G * c.G) * (c.H * c.H);
    assert (c.E * c.E) * (c.F * c.F) == (c.F * c.F) * (c.E * c.E);
    assert (c.G * c.G) * (c.F * c.F) == (c.F * c.F) * (c.G * c.G);
    assert (c.E * c.H) * (c.F * c.G) == (c.G * c.F) * (c.E * c.H);
    SameRefl(cv, (c.E * c.F) * (c.H * c.G));
  }

  lemma BalancedSame(cv: Curve, ee: int, hh: int, gg: int, ff: int, e2: int, h2: int, g2: int, f2: int)
    requires Balanced(cv, ee, hh, gg, ff) && Same(cv, e2, ee) && Same(cv, h2, hh) && Same(cv, g2, gg) &&
        Same(cv, f2, ff)
    ensures Balanced(cv, e2, h2, g2, f2)
  {
    SameMul(cv, g2, gg, h2, hh);
    SameMul(cv, f2, ff, e2, ee);
    SameMul(cv, f2, ff, g2, gg);
    SameMul(cv, e2, ee, h2, hh);
    hide Same;
    SameSub(cv, g2 * h2, gg * hh, f2 * e2, ff * ee);
    SameRefl(cv, cv.d);
    SameMul(cv, cv.d, cv.d, e2 * h2, ee * hh);
    SameAdd(cv, f2 * g2, ff * gg, cv.d * (e2 * h2), cv.d * (ee * hh));
    SameTrans(cv, g2 * h2 - f2 * e2, gg * hh - ff * ee, ff * gg + cv.d * (ee * hh));
    SameTrans(cv, f2 * g2 + cv.d * (e2 * h2), ff * gg + cv.d * (ee * hh), ff * gg + cv.d * (ee * hh));
    SameTrans(cv, g2 * h2 - f2 * e2, ff * gg + cv.d * (ee * hh), f2 * g2 + cv.d * (e2 * h2));
  }

  /** Half of the completed form of a sum. */
  function Half(cv: Curve, p: Point, q: Point): Completed {
    Completed(p.X * q.Y + q.X * p.Y, p.Y * q.Y + p.X * q.X, p.Z * q.Z + cv.d * (p.T * q.T),
        p.Z * q.Z - cv.d * (p.T * q.T))
  }

  lemma SquareOfDifference(c: int, t: int, d: int)
    ensures (c - d * t) * (c - d * t) == c * c + (d * d) * (t * t) - 2 * (d * (c * t))
  {
    assert (c - d * t) * (c - d * t) == c * c - 2 * (c * (d * t)) + (d * t) * (d * t);
    Regroup(d, t, d, t);
    assert c * (d * t) == d * (c * t);
  }

  lemma SquaredRelation(cv: Curve, p: Point)
    requires OnCurve(cv, p)
    ensures Same(cv, (p.X * p.X) * (p.Y * p.Y), (p.Z * p.Z) * (p.T * p.T))
  {
    hide Same;
    SameMul(cv, p.X * p.Y, p.Z * p.T, p.X * p.Y, p.Z * p.T);
    Regroup(p.X, p.Y, p.X, p.Y);
    Regroup(p.Z, p.T, p.Z, p.T);
  }

  lemma HalfBalanced(cv: Curve, p: Point, q: Point)
    requires OnCurve(cv, p) && OnCurve(cv, q)
    ensures var c := Half(cv, p, q); Balanced(cv, c.E * c.E, c.H * c.H, c.G * c.G, c.F * c.F)
  {
    hide Same;
    var a1, b1, c1, s1 := p.X * p.X, p.Y * p.Y, p.Z * p.Z, p.T * p.T;
    var a2, b2, c2, s2 := q.X * q.X, q.Y * q.Y, q.Z * q.Z, q.T * q.T;
    SquaredRelation(cv, p);
    SquaredRelation(cv, q);
    SquareRelations(cv, a1, b1, c1, s1, a2, b2, c2, s2);
    var m, n, S, k := b1 * b2 + a1 * a2, a1 * b2 + a2 * b1, c1 * c2 + (cv.d * cv.d) * (s1 * s2), c1 * s2 + s1 * c2;
    var u, v, w := p.Z * q.Z, p.T * q.T, (p.X * p.Y) * (q.X * q.Y);
    var r := u * v;
    Regroup(p.Z, q.Z, p.Z, q.Z);
    Regroup(p.T, q.T, p.T, q.T);
    Regroup(u, v, u, v);
    assert u * u == c1 * c2 && v * v == s1 * s2;
    SquaresCongruent(cv, S, r, m, n, k);
    Squares(p.X, p.Y, q.X, q.Y);
    SquareOfLinear(u, v, cv.d);
    SquareOfDifference(u, v, cv.d);
    SameMul(cv, p.X * p.Y, p.Z * p.T, q.X * q.Y, q.Z * q.T);
    Regroup(p.Z, p.T, q.Z, q.T);
    DoubleAdd(cv, m, w, r);
    DoubleAdd(cv, n, w, r);
    SameRefl(cv, S + 2 * (cv.d * r));
    SameRefl(cv, S - 2 * (cv.d * r));
    BalancedSame(cv, n + 2 * r, m + 2 * r, S + 2 * (cv.d * r), S - 2 * (cv.d * r), n + 2 * w, m + 2 * w,
        S + 2 * (cv.d * r), S - 2 * (cv.d * r));
  }

  lemma DoubleAdd(cv: Curve, m: int, w: int, r: int)
    requires Same(cv, w, r)
    ensures Same(cv, m + 2 * w, m + 2 * r)
  {
    SameRefl(cv, m);
    SameAdd(cv, w, r, w, r);
    SameAdd(cv, m, m, 2 * w, 2 * r);
  }

  lemma BalancedDoubled(cv: Curve, ee: int, hh: int, gg: int, ff: int)
    requires Balanced(cv, ee, hh, gg, ff)
    ensures Balanced(cv, 4 * ee, 4 * hh, 4 * gg, 4 * ff)
  {
    hide Same;
    SameRefl(cv, 16);
    SameMul(cv, 16, 16, gg * hh - ff * ee, ff * gg + cv.d * (ee * hh));
    Sixteen(gg, hh);
    Sixteen(ff, ee);
    Sixteen(ff, gg);
    Sixteen(ee, hh);
    assert cv.d * (16 * (ee * hh)) == 16 * (cv.d * (ee * hh));
  }

  lemma Sixteen(a: int, b: int)
    ensures (4 * a) * (4 * b) == 16 * (a * b)
  {
  }

  /** The sum of two points of the curve is on the curve. */
  lemma SumOnCurve(cv: Curve, p: Point, q: Point)
    requires OnCurve(cv, p) && OnCurve(cv, q)
    ensures OnCurve(cv, Full(Sum(cv, p, q)))
  {
    hide OnCurve, Balanced, Same;
    HalfBalanced(cv, p, q);
    var c := Half(cv, p, q);
    SumHalves(cv, p, q);
    BalancedDoubled(cv, c.E * c.E, c.H * c.H, c.G * c.G, c.F * c.F);
    Four(c.E); Four(c.H); Four(c.G); Four(c.F);
    BalancedFull(cv, Sum(cv, p, q));
  }

  lemma Four(a: int)
    ensures (2 * a) * (2 * a) == 4 * (a * a)
  {
  }

  /** On the curve, the doubling formula yields half the completed form of p + p, with E and G negated. */
  lemma TwiceIsHalf(cv: Curve, p: Point)
    requires OnCurve(cv, p)
    ensures var c, d := Half(cv, p, p), Twice(p); d.E == -c.E && d.H == c.H && Same(cv, d.G, -c.G) && Same(cv, d.F, c.F)
  {
    hide Same;
    SquareOfSum(p.X, p.Y);
    var x, y := p.Y * p.Y - p.X * p.X, p.Z * p.Z + cv.d * (p.T * p.T);
    SameRefl(cv, 0);
    SameSub(cv, 0, 0, x, y);
    SameRefl(cv, 2 * (p.Z * p.Z));
    SameSub(cv, 2 * (p.Z * p.Z), 2 * (p.Z * p.Z), x, y);
  }

  lemma SquareSame(cv: Curve, a: int, b: int)
    requires Same(cv, a, b) || Same(cv, a, -b)
    ensures Same(cv, a * a, b * b)
  {
    hide Same;
    if Same(cv, a, b) {
      SameMul(cv, a, b, a, b);
    } else {
      SameMul(cv, a, -b, a, -b);
      assert (-b) * (-b) == b * b;
    }
  }

  /** Doubling a point of the curve stays on the curve. */
  lemma TwiceOnCurve(cv: Curve, p: Point)
    requires OnCurve(cv, p)
    ensures OnCurve(cv, Full(Twice(p)))
  {
    hide OnCurve, Balanced, Same;
    HalfBalanced(cv, p, p);
    TwiceIsHalf(cv, p);
    var c, d := Half(cv, p, p), Twice(p);
    SameRefl(cv, d.E);
    SameRefl(cv, d.H);
    SquareSame(cv, d.E, c.E);
    SquareSame(cv, d.H, c.H);
    SquareSame(cv, d.G, c.G);
    SquareSame(cv, d.F, c.F);
    BalancedSame(cv, c.E * c.E, c.H * c.H, c.G * c.G, c.F * c.F, d.E * d.E, d.H * d.H, d.G * d.G, d.F * d.F);
    BalancedFull(cv, d);
  }

  /** The same projective point, with factor k between the coordinates. */
  ghost predicate Multiple(cv: Curve, p: Point, k: int, q: Point) {
    Same(cv, p.X, k * q.X) && Same(cv, p.Y, k * q.Y) && Same(cv, p.Z, k * q.Z) && Same(cv, p.T, k * q.T)
  }

  /** On the curve, adding a point to itself and doubling it give the same projective point. */
  lemma SumIsTwice(cv: Curve, p: Point)
    requires OnCurve(cv, p)
    ensures Multiple(cv, Full(Sum(cv, p, p)), -4, Full(Twice(p)))
  {
    hide OnCurve, Same;
    TwiceIsHalf(cv, p);
    SumHalves(cv, p, p);
    var c, d, s := Half(cv, p, p), Twice(p), Sum(cv, p, p);
    SameRefl(cv, s.H);
    SameRefl(cv, s.E);
    TimesConst(cv, d.G, -c.G, -2);
    TimesConst(cv, d.F, c.F, 2);
    FactorOfProduct(cv, s.E, -2, d.E, s.F, 2, d.F);
    FactorOfProduct(cv, s.H, 2, d.H, s.G, -2, d.G);
    FactorOfProduct(cv, s.G, -2, d.G, s.F, 2, d.F);
    FactorOfProduct(cv, s.E, -2, d.E, s.H, 2, d.H);
  }

  lemma TimesConst(cv: Curve, a: int, b: int, k: int)
    requires Same(cv, a, b)
    ensures Same(cv, k * b, k * a)
  {
    hide Same;
    SameRefl(cv, k);
    SameMul(cv, k, k, a, b);
    SameSym(cv, k * a, k * b);
  }

  lemma FactorOfProduct(cv: Curve, a: int, j: int, x: int, b: int, k: int, y: int)
    requires Same(cv, a, j * x) && Same(cv, b, k * y)
    ensures Same(cv, a * b, (j * k) * (x * y))
  {
    hide Same;
    SameMul(cv, a, j * x, b, k * y);
    Regroup(j, x, k, y);
  }

  /**
   The affine addition law x3 = (x1 y2 + x2 y1) / (1 + d x1 x2 y1 y2) and
   y3 = (y1 y2 + x1 x2) / (1 - d x1 x2 y1 y2), cleared of denominators.
   */
  ghost predicate AdditionLaw(cv: Curve, p: Point, q: Point, r: Point) {
    var u, w := p.Z * q.Z, (p.X * p.Y) * (q.X * q.Y);
    && Same(cv, r.X * (u * u + cv.d * w), r.Z * (u * (p.X * q.Y + q.X * p.Y)))
    && Same(cv, r.Y * (u * u - cv.d * w), r.Z * (u * (p.Y * q.Y + p.X * q.X)))
  }

  lemma SumLaw(cv: Curve, p: Point, q: Point)
    requires Extended(cv, p) && Extended(cv, q)
    ensures AdditionLaw(cv, p, q, Full(Sum(cv, p, q)))
  {
    hide Same;
    SumHalves(cv, p, q);
    var s, c := Sum(cv, p, q), Half(cv, p, q);
    var u, v, w := p.Z * q.Z, p.T * q.T, (p.X * p.Y) * (q.X * q.Y);
    SameMul(cv, p.X * p.Y, p.Z * p.T, q.X * q.Y, q.Z * q.T);
    Regroup(p.Z, p.T, q.Z, q.T);
    SameRefl(cv, cv.d);
    SameMul(cv, cv.d, cv.d, w, u * v);
    SameRefl(cv, u * u);
    SameAdd(cv, u * u, u * u, cv.d * w, cv.d * (u * v));
    SameSub(cv, u * u, u * u, cv.d * w, cv.d * (u * v));
    Unfactor(u, v, cv.d);
    SameRefl(cv, s.E * s.F);
    SameRefl(cv, s.H * s.G);
    SameMul(cv, s.E * s.F, s.E * s.F, u * u + cv.d * w, u * c.G);
    SameMul(cv, s.H * s.G, s.H * s.G, u * u - cv.d * w, u * c.F);
    FourFactors(c.E, c.F, c.G, u);
    FourFactors(c.H, c.G, c.F, u);
    assert s.G * s.F == s.F * s.G;
  }

  lemma Unfactor(u: int, v: int, d: int)
    ensures u * u + d * (u * v) == u * (u + d * v) && u * u - d * (u * v) == u * (u - d * v)
  {
  }

  lemma FourFactors(e: int, f: int, g: int, u: int)
    ensures ((2 * e) * (2 * f)) * (u * g) == ((2 * g) * (2 * f)) * (u * e)
  {
    var a, b := 2 * f, u;
    assert ((2 * e) * a) * (b * g) == 2 * ((e * g) * (a * b));
    assert ((2 * g) * a) * (b * e) == 2 * ((e * g) * (a * b));
  }

  lemma NegativeOnCurve(cv: Curve, p: Point)
    requires OnCurve(cv, p)
    ensures OnCurve(cv, Negative(p))
  {
    hide Same;
    SameRefl(cv, 0);
    SameSub(cv, 0, 0, p.X * p.Y, p.Z * p.T);
    assert (-p.X) * p.Y == -(p.X * p.Y) && p.Z * (-p.T) == -(p.Z * p.T);
    assert (-p.X) * (-p.X) == p.X * p.X && (-p.T) * (-p.T) == p.T * p.T;
  }

  /** The curve equation does not change when every coordinate is multiplied by the same factor. */
  lemma MultipleOnCurve(cv: Curve, p: Point, k: int)
    requires OnCurve(cv, p)
    ensures OnCurve(cv, Point(k * p.X, k * p.Y, k * p.Z, k * p.T))
  {
    hide Same;
    SameRefl(cv, k * k);
    Regroup(k, p.X, k, p.Y);
    Regroup(k, p.Z, k, p.T);
    SameMul(cv, k * k, k * k, p.X * p.Y, p.Z * p.T);
    Regroup(k, p.X, k, p.X);
    Regroup(k, p.Y, k, p.Y);
    Regroup(k, p.Z, k, p.Z);
    Regroup(k, p.T, k, p.T);
    SameMul(cv, k * k, k * k, p.Y * p.Y - p.X * p.X, p.Z * p.Z + cv.d * (p.T * p.T));
    Distribution(k * k, p.X * p.X, p.Y * p.Y, p.Z * p.Z, p.T * p.T, cv.d);
  }

  lemma Distribution(k: int, a: int, b: int, c: int, s: int, d: int)
    ensures k * (b - a) == k * b - k * a && k * (c + d * s) == k * c + d * (k * s)
  {
  }

  // ---- points from one coordinate ----

  lemma ZeroIff(cv: Curve, a: int, b: int)
    ensures Same(cv, a - b, 0) <==> Same(cv, a, b)
  {
    hide Same;
    if Same(cv, a, b) {
      DifferenceZero(cv, a, b);
    }
    if Same(cv, a - b, 0) {
      ZeroDifference(cv, a, b);
    }
  }

  /** A root of -u / v times a square root of -1 is a root of u / v. */
  lemma OtherRoot(cv: Curve, i: int, c: int, u: int, v: int)
    requires Same(cv, i * i, -1) && Same(cv, (c * c) * v, -u)
    ensures Same(cv, ((c * i) * (c * i)) * v, u)
  {
    hide Same;
    Regroup(c, i, c, i);
    TakeOut(c * c, i * i, v);
    SameMul(cv, i * i, -1, (c * c) * v, -u);
    assert (-1) * (-u) == u;
  }

  lemma TakeOut(a: int, b: int, v: int)
    ensures (a * b) * v == b * (a * v)
  {
  }

  lemma SquareEither(cv: Curve, r: int, r0: int, u: int, v: int)
    requires (r == r0 || r == -r0) && Same(cv, (r0 * r0) * v, u)
    ensures Same(cv, (r * r) * v, u)
  {
    hide Same;
    assert r * r == r0 * r0;
  }

  /** A root of (y^2 - 1) / (d y^2 + 1) gives a point of the curve. */
  lemma RootOnCurve(cv: Curve, x: int, y: int)
    requires Same(cv, (x * x) * ((y * y) * cv.d + 1), y * y - 1)
    ensures OnCurve(cv, Point(x, y, 1, x * y))
  {
    hide Same;
    var a, b := x * x, y * y;
    TwoTerms(a, b, cv.d);
    Regroup(x, y, x, y);
    SameRefl(cv, 1 - a);
    SameAdd(cv, a * (b * cv.d + 1), b - 1, 1 - a, 1 - a);
    SameSym(cv, 1 + cv.d * (a * b), b - a);
    SameRefl(cv, x * y);
    assert 1 * (x * y) == x * y;
  }

  lemma TwoTerms(a: int, b: int, d: int)
    ensures a * (b * d + 1) == d * (a * b) + a
  {
  }

  lemma Substitute(cv: Curve, q: int, v: int, v2: int, u: int, u2: int)
    requires Same(cv, q * v, u) && Same(cv, v, v2) && Same(cv, u, u2)
    ensures Same(cv, q * v2, u2)
  {
    hide Same;
    SameRefl(cv, q);
    SameMul(cv, q, q, v, v2);
    SameSym(cv, q * v, q * v2);
    SameTrans(cv, q * v2, q * v, u);
    SameTrans(cv, q * v2, u, u2);
  }
}
