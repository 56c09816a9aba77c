/**
 Point operations on limb vectors: extended, completed and precomputed coordinates.
 */
module Points {
  import opened Words
  import opened Field25519
  import opened FieldBasic
  import opened Edwards

  /** The curve constant, -121665/121666. */
  const D: int := 0x5203_6cee_2b6f_fe73_8cc7_4079_7779_e898_0070_0a4d_4141_d8ab_75eb_4dca_1359_78a3

  const ED25519: Curve := Curve(P, D)

  /** Limbs of a sum of two products. */
  const WIDE: int := 0x10_0000_0002_0000

  /** The limbs stand for v modulo p. */
  ghost predicate Is(a: Fe, v: int) {
    F(a) == v % P
  }

  // the constant 2d
  const EC2D: Fe := [0x6_9b94_26b2_f159, 0x3_5050_762a_dd7a, 0x3_cf44_c003_8052, 0x6_738c_c740_7977, 0x2_406d_9dc5_6dff]

  lemma Ec2dIs()
    ensures Is(EC2D, 2 * D) && Below(EC2D, TWO54)
  {
    assert Val(EC2D) == 2 * D - P;
    ModIs(2 * D, 1, Val(EC2D));
  }

  lemma SameIff(a: int, b: int)
    ensures Same(ED25519, a, b) <==> a % P == b % P
  {
    if k :| a == b + Scaled(ED25519, k) {
      ModIs(a, k, b);
    }
    if a % P == b % P {
      Quot(a);
      Quot(b);
      assert (a / P) * P - (b / P) * P == (a / P - b / P) * P;
      assert a == b + Scaled(ED25519, a / P - b / P);
    }
  }

  /** The curve equation in the field, with T the product of the affine coordinates. */
  ghost predicate OnEd25519(v: Point) {
    && Times(v.X, v.Y) == Times(v.Z, v.T)
    && Minus(Times(v.Y, v.Y), Times(v.X, v.X)) == Plus(Times(v.Z, v.Z), Times(D, Times(v.T, v.T)))
  }

  lemma OnEd25519Iff(v: Point)
    ensures OnEd25519(v) <==> OnCurve(ED25519, v)
  {
    hide Times, Plus, Minus, Same;
    TimesIs(v.X, v.Y); TimesIs(v.Z, v.T); TimesIs(v.Y, v.Y); TimesIs(v.X, v.X); TimesIs(v.Z, v.Z); TimesIs(v.T, v.T);
    TimesReduce(v.T * v.T, D);
    MinusMod(v.Y * v.Y, v.X * v.X);
    PlusMod(v.Z * v.Z, (v.T * v.T) * D);
    Swapped(v.T * v.T, D);
    SameIff(v.X * v.Y, v.Z * v.T);
    SameIff(v.Y * v.Y - v.X * v.X, v.Z * v.Z + D * (v.T * v.T));
  }

  lemma Swapped(a: int, b: int)
    ensures a * b == b * a
  {
  }

  // ---- field operations, tracking what the limbs stand for ----

  method MulIs(a: Fe, b: Fe, ghost x: int, ghost y: int) returns (r: Fe)
    requires Below(a, TWO54) && Below(b, TWO54) && Is(a, x) && Is(b, y)
    ensures Below(r, TIGHT) && Is(r, x * y)
  {
    hide F, Times;
    r := Mul(a, b);
    TimesMod(x, y);
  }

  method SquareIs(a: Fe, ghost x: int) returns (r: Fe)
    requires Below(a, TWO54) && Is(a, x)
    ensures Below(r, TIGHT) && Is(r, x * x)
  {
    hide F, Times;
    r := Square(a);
    TimesMod(x, x);
  }

  method AddIs(a: Fe, b: Fe, ghost x: int, ghost y: int) returns (r: Fe)
    requires Below(a, WIDE) && Below(b, WIDE) && Is(a, x) && Is(b, y)
    ensures Below(r, TWO54) && Is(r, x + y) && (Below(a, TIGHT) && Below(b, TIGHT) ==> Below(r, WIDE))
  {
    hide F, Plus;
    r := Add(a, b);
    PlusMod(x, y);
  }

  method SubIs(a: Fe, b: Fe, ghost x: int, ghost y: int) returns (r: Fe)
    requires Below(a, TIGHT) && Below(b, TIGHT) && Is(a, x) && Is(b, y)
    ensures Below(r, TIGHT + TWO_P1234) && Is(r, x - y)
  {
    hide F, Minus;
    r := Sub(a, b);
    MinusMod(x, y);
  }

  method SubAfterBasicIs(a: Fe, b: Fe, ghost x: int, ghost y: int) returns (r: Fe)
    requires Below(a, WIDE) && Below(b, TIGHT + TWO_P1234) && Is(a, x) && Is(b, y)
    ensures Below(r, TWO54) && Is(r, x - y)
  {
    hide F, Minus;
    r := SubAfterBasic(a, b);
    MinusMod(x, y);
  }

  method AddReduceIs(a: Fe, b: Fe, ghost x: int, ghost y: int) returns (r: Fe)
    requires Below(a, TWO54) && Below(b, TWO54) && Is(a, x) && Is(b, y)
    ensures Below(r, TIGHT) && Is(r, x + y)
  {
    hide F, Plus;
    var u, v := new u64[5](i requires 0 <= i < 5 => a[i]), new u64[5](i requires 0 <= i < 5 => b[i]);
    assert u[..] == a && v[..] == b;
    AddReduce(u, u, v);
    r := u[..];
    PlusMod(x, y);
  }

  method SubReduceIs(a: Fe, b: Fe, ghost x: int, ghost y: int) returns (r: Fe)
    requires Below(a, TWO54) && Below(b, TIGHT + TWO_P1234) && Is(a, x) && Is(b, y)
    ensures Below(r, TIGHT) && Is(r, x - y)
  {
    hide F, Minus;
    var u, v := new u64[5](i requires 0 <= i < 5 => a[i]), new u64[5](i requires 0 <= i < 5 => b[i]);
    assert u[..] == a && v[..] == b;
    SubReduce(u, u, v);
    r := u[..];
    MinusMod(x, y);
  }

  method NegIs(a: Fe, ghost x: int) returns (r: Fe)
    requires Below(a, TIGHT) && Is(a, x)
    ensures Below(r, TIGHT) && Is(r, -x)
  {
    hide F, Minus;
    var u := new u64[5](i requires 0 <= i < 5 => a[i]);
    assert u[..] == a;
    Neg(u, u);
    r := u[..];
    MinusMod(0, x);
    assert 0 % P == 0;
  }

  // ---- points ----

  /** ge25519 */
  class Ge {
    var x: Fe
    var y: Fe
    var z: Fe
    var t: Fe

    /** Uninitialized. */
    constructor () {
    }

    /** X, Y and Z are up to date; T may be stale. */
    ghost predicate Partial(p: Point)
      reads this
    {
      && Below(x, TIGHT) && Below(y, TIGHT) && Below(z, TIGHT)
      && Is(x, p.X) && Is(y, p.Y) && Is(z, p.Z)
    }

    ghost predicate Holds(p: Point)
      reads this
    {
      Partial(p) && Below(t, TIGHT) && Is(t, p.T)
    }
  }

  /** ge25519_p1p1: x, y, z, t are E, H, G, F. */
  class P1p1 {
    var x: Fe
    var y: Fe
    var z: Fe
    var t: Fe

    constructor () {
    }

    ghost predicate Holds(c: Completed)
      reads this
    {
      && Below(x, TWO54) && Below(y, TWO54) && Below(z, TWO54) && Below(t, TWO54)
      && Is(x, c.E) && Is(y, c.H) && Is(z, c.G) && Is(t, c.F)
    }
  }

  /** ge25519_niels: a precomputed affine point. */
  datatype Niels = Niels(ysubx: Fe, xaddy: Fe, t2d: Fe) {
    ghost predicate Holds(p: Point) {
      && Below(ysubx, TWO54) && Below(xaddy, TWO54) && Below(t2d, TWO54)
      && Is(ysubx, p.Y - p.X) && Is(xaddy, p.Y + p.X) && Is(t2d, 2 * D * p.T) && p.Z == 1
    }
  }

  /** ge25519_pniels */
  class Pniels {
    var ysubx: Fe
    var xaddy: Fe
    var z: Fe
    var t2d: Fe

    constructor () {
    }

    ghost predicate Holds(p: Point)
      reads this
    {
      && Below(ysubx, TWO54) && Below(xaddy, TWO54) && Below(z, TWO54) && Below(t2d, TWO54)
      && Is(ysubx, p.Y - p.X) && Is(xaddy, p.Y + p.X) && Is(z, p.Z) && Is(t2d, 2 * D * p.T)
    }
  }

  method P1p1ToPartial(r: Ge, p: P1p1, ghost c: Completed)
    requires p.Holds(c)
    modifies r
    ensures r.Partial(Full(c))
  {
    hide Is;
    r.x := MulIs(p.x, p.t, c.E, c.F);
    r.y := MulIs(p.y, p.z, c.H, c.G);
    r.z := MulIs(p.z, p.t, c.G, c.F);
  }

  method P1p1ToFull(r: Ge, p: P1p1, ghost c: Completed)
    requires p.Holds(c)
    modifies r
    ensures r.Holds(Full(c))
  {
    hide Is;
    r.x := MulIs(p.x, p.t, c.E, c.F);
    r.y := MulIs(p.y, p.z, c.H, c.G);
    r.z := MulIs(p.z, p.t, c.G, c.F);
    r.t := MulIs(p.x, p.y, c.E, c.H);
  }

  method FullToPniels(p: Pniels, r: Ge, ghost a: Point)
    requires r.Holds(a)
    modifies p
    ensures p.Holds(a)
  {
    hide Is;
    Ec2dIs();
    p.ysubx := SubIs(r.y, r.x, a.Y, a.X);
    p.xaddy := AddIs(r.y, r.x, a.Y, a.X);
    p.z := r.z;
    p.t2d := MulIs(r.t, EC2D, a.T, 2 * D);
    assert a.T * (2 * D) == 2 * D * a.T;
  }

  method AddP1p1(r: P1p1, p: Ge, q: Ge, ghost v: Point, ghost w: Point)
    requires p.Holds(v) && q.Holds(w)
    modifies r
    ensures r.Holds(Sum(ED25519, v, w))
  {
    hide Is;
    Ec2dIs();
    var a := SubIs(p.y, p.x, v.Y, v.X);
    var b := AddIs(p.y, p.x, v.Y, v.X);
    var t := SubIs(q.y, q.x, w.Y, w.X);
    var u := AddIs(q.y, q.x, w.Y, w.X);
    ghost var sum := Sum(ED25519, v, w);
    ghost var A, B := (v.Y - v.X) * (w.Y - w.X), (v.Y + v.X) * (w.Y + w.X);
    a := MulIs(a, t, v.Y - v.X, w.Y - w.X);
    b := MulIs(b, u, v.Y + v.X, w.Y + w.X);
    var c := MulIs(p.t, q.t, v.T, w.T);
    c := MulIs(c, EC2D, v.T * w.T, 2 * D);
    Product(v.T, w.T, 2 * D);
    ghost var C := v.T * (2 * D * w.T);
    var d := MulIs(p.z, q.z, v.Z, w.Z);
    d := AddIs(d, d, v.Z * w.Z, v.Z * w.Z);
    ghost var D2 := 2 * (v.Z * w.Z);
    r.x := SubIs(b, a, B, A);
    r.y := AddIs(b, a, B, A);
    r.z := AddIs(d, c, D2, C);
    r.t := SubAfterBasicIs(d, c, D2, C);
  }

  lemma Product(t: int, u: int, d: int)
    ensures (t * u) * d == t * (d * u)
  {
  }

  /** The doubling formula with E and G negated, which negates all four coordinates of the point. */
  function Flipped(c: Completed): Completed {
    Completed(-c.E, c.H, -c.G, c.F)
  }

  lemma FlippedFull(c: Completed)
    ensures var p, q := Full(Flipped(c)), Full(c); p == Point(-q.X, -q.Y, -q.Z, -q.T)
  {
  }

  /** T of p is not read. */
  method DoubleP1p1(r: P1p1, p: Ge, ghost v: Point)
    requires p.Partial(v)
    modifies r
    ensures r.Holds(Flipped(Twice(v)))
  {
    hide Is;
    ghost var A, B, C := v.X * v.X, v.Y * v.Y, v.Z * v.Z;
    var a := SquareIs(p.x, v.X);
    var b := SquareIs(p.y, v.Y);
    var c := SquareIs(p.z, v.Z);
    c := AddReduceIs(c, c, C, C);
    r.x := AddIs(p.x, p.y, v.X, v.Y);
    r.x := SquareIs(r.x, v.X + v.Y);
    r.y := AddIs(b, a, B, A);
    r.z := SubIs(b, a, B, A);
    r.x := SubAfterBasicIs(r.x, r.y, (v.X + v.Y) * (v.X + v.Y), B + A);
    r.t := SubAfterBasicIs(c, r.z, C + C, B - A);
  }

  /** q for sign bit 0, -q for sign bit 1 */
  function Signed(q: Point, signbit: nat): Point {
    if signbit == 0 then q else Negative(q)
  }

  /** The shared body of the two signed additions, after 2 Z1 Z2 is in both r.z and r.t. */
  method FinishSigned(r: P1p1, b: Fe, a: Fe, c: Fe, d: Fe, signbit: nat, ghost v: Point, ghost q: Point)
    requires signbit <= 1 && Below(a, TIGHT) && Below(b, TIGHT) && Below(c, TIGHT) && Below(d, TIGHT)
    requires var w := Signed(q, signbit); Is(a, (v.Y - v.X) * (w.Y - w.X)) && Is(b, (v.Y + v.X) * (w.Y + w.X))
    requires Is(c, v.T * (2 * D * q.T)) && Is(d, 2 * (v.Z * q.Z))
    modifies r
    ensures r.Holds(Sum(ED25519, v, Signed(q, signbit)))
  {
    hide Is;
    ghost var w := Signed(q, signbit);
    ghost var A, B := (v.Y - v.X) * (w.Y - w.X), (v.Y + v.X) * (w.Y + w.X);
    r.y := AddIs(b, a, B, A);
    r.x := SubIs(b, a, B, A);
    r.t := d;
    r.z := d;
    ghost var C, D2 := v.T * (2 * D * q.T), 2 * (v.Z * q.Z);
    if signbit == 0 {
      r.z := AddIs(r.z, c, D2, C);
      r.t := SubIs(r.t, c, D2, C);
    } else {
      NegativeT(v.T, q.T);
      r.t := AddIs(r.t, c, D2, C);
      r.z := SubIs(r.z, c, D2, C);
    }
  }

  lemma NegativeT(t: int, u: int)
    ensures t * (2 * D * (-u)) == -(t * (2 * D * u))
  {
    assert 2 * D * (-u) == -(2 * D * u);
    NegativeProduct(t, 2 * D * u);
  }

  lemma NegativeProduct(t: int, u: int)
    ensures t * (-u) == -(t * u)
  {
  }

  /** p + q or p - q for a precomputed affine q */
  method NielsAdd2P1p1(r: P1p1, p: Ge, q: Niels, signbit: nat, ghost v: Point, ghost w: Point)
    requires p.Holds(v) && q.Holds(w) && signbit <= 1
    modifies r
    ensures r.Holds(Sum(ED25519, v, Signed(w, signbit)))
  {
    hide Is;
    var a := SubIs(p.y, p.x, v.Y, v.X);
    var b := AddIs(p.y, p.x, v.Y, v.X);
    ghost var s := Signed(w, signbit);
    a := MulIs(a, if signbit == 0 then q.ysubx else q.xaddy, v.Y - v.X, s.Y - s.X);
    b := MulIs(b, if signbit == 0 then q.xaddy else q.ysubx, v.Y + v.X, s.Y + s.X);
    var c := MulIs(p.t, q.t2d, v.T, 2 * D * w.T);
    var d := AddReduceIs(p.z, p.z, v.Z, v.Z);
    assert v.Z + v.Z == 2 * (v.Z * w.Z);
    FinishSigned(r, b, a, c, d, signbit, v, w);
  }

  /** p + q or p - q for a precomputed projective q */
  method PnielsAddP1p1(r: P1p1, p: Ge, q: Pniels, signbit: nat, ghost v: Point, ghost w: Point)
    requires p.Holds(v) && q.Holds(w) && signbit <= 1
    modifies r
    ensures r.Holds(Sum(ED25519, v, Signed(w, signbit)))
  {
    hide Is;
    var a := SubIs(p.y, p.x, v.Y, v.X);
    var b := AddIs(p.y, p.x, v.Y, v.X);
    ghost var s := Signed(w, signbit);
    a := MulIs(a, if signbit == 0 then q.ysubx else q.xaddy, v.Y - v.X, s.Y - s.X);
    b := MulIs(b, if signbit == 0 then q.xaddy else q.ysubx, v.Y + v.X, s.Y + s.X);
    var c := MulIs(p.t, q.t2d, v.T, 2 * D * w.T);
    var d := MulIs(p.z, q.z, v.Z, w.Z);
    d := AddReduceIs(d, d, v.Z * w.Z, v.Z * w.Z);
    FinishSigned(r, b, a, c, d, signbit, v, w);
  }

  /** r may be p; the result's T is stale. */
  method DoublePartial(r: Ge, p: Ge, ghost v: Point)
    requires p.Partial(v)
    modifies r
    ensures r.Partial(Full(Flipped(Twice(v))))
  {
    hide Is;
    var t := new P1p1();
    DoubleP1p1(t, p, v);
    P1p1ToPartial(r, t, Flipped(Twice(v)));
  }

  /** r may be p. */
  method Double(r: Ge, p: Ge, ghost v: Point)
    requires p.Partial(v)
    modifies r
    ensures r.Holds(Full(Flipped(Twice(v))))
  {
    hide Is;
    var t := new P1p1();
    DoubleP1p1(t, p, v);
    P1p1ToFull(r, t, Flipped(Twice(v)));
  }

  /** r may be p or q. */
  method AddPoints(r: Ge, p: Ge, q: Ge, ghost v: Point, ghost w: Point)
    requires p.Holds(v) && q.Holds(w)
    modifies r
    ensures r.Holds(Full(Sum(ED25519, v, w)))
  {
    hide Is;
    var t := new P1p1();
    AddP1p1(t, p, q, v, w);
    P1p1ToFull(r, t, Sum(ED25519, v, w));
  }

  /** r := r + q for a precomputed affine q */
  method NielsAdd2(r: Ge, q: Niels, ghost v: Point, ghost w: Point)
    requires r.Holds(v) && q.Holds(w)
    modifies r
    ensures r.Holds(Full(Sum(ED25519, v, w)))
  {
    hide Is;
    ghost var sum := Sum(ED25519, v, w);
    ghost var A, B, C, D2 := (v.Y - v.X) * (w.Y - w.X), (v.Y + v.X) * (w.Y + w.X), v.T * (2 * D * w.T), 2 * (v.Z * w.Z);
    var a := SubIs(r.y, r.x, v.Y, v.X);
    var b := AddIs(r.y, r.x, v.Y, v.X);
    a := MulIs(a, q.ysubx, v.Y - v.X, w.Y - w.X);
    var e := MulIs(b, q.xaddy, v.Y + v.X, w.Y + w.X);
    var h := AddIs(e, a, B, A);
    e := SubIs(e, a, B, A);
    var c := MulIs(r.t, q.t2d, v.T, 2 * D * w.T);
    var f := AddIs(r.z, r.z, v.Z, v.Z);
    assert v.Z + v.Z == D2;
    var g := AddIs(f, c, D2, C);
    f := SubAfterBasicIs(f, c, D2, C);
    r.x := MulIs(e, f, sum.E, sum.F);
    r.y := MulIs(h, g, sum.H, sum.G);
    r.z := MulIs(g, f, sum.G, sum.F);
    r.t := MulIs(e, h, sum.E, sum.H);
  }

  /** r := p + q in precomputed projective form; r may be q */
  method PnielsAdd(r: Pniels, p: Ge, q: Pniels, ghost v: Point, ghost w: Point)
    requires p.Holds(v) && q.Holds(w)
    modifies r
    ensures r.Holds(Full(Sum(ED25519, v, w)))
  {
    hide Is;
    Ec2dIs();
    ghost var sum := Sum(ED25519, v, w);
    ghost var A, B, C, D2 := (v.Y - v.X) * (w.Y - w.X), (v.Y + v.X) * (w.Y + w.X), v.T * (2 * D * w.T), 2 * (v.Z * w.Z);
    var a := SubIs(p.y, p.x, v.Y, v.X);
    var b := AddIs(p.y, p.x, v.Y, v.X);
    a := MulIs(a, q.ysubx, v.Y - v.X, w.Y - w.X);
    var x := MulIs(b, q.xaddy, v.Y + v.X, w.Y + w.X);
    var y := AddIs(x, a, B, A);
    x := SubIs(x, a, B, A);
    var c := MulIs(p.t, q.t2d, v.T, 2 * D * w.T);
    var t := MulIs(p.z, q.z, v.Z, w.Z);
    t := AddIs(t, t, v.Z * w.Z, v.Z * w.Z);
    var z := AddIs(t, c, D2, C);
    t := SubAfterBasicIs(t, c, D2, C);
    r.xaddy := MulIs(x, t, sum.E, sum.F);
    r.ysubx := MulIs(y, z, sum.H, sum.G);
    r.z := MulIs(z, t, sum.G, sum.F);
    r.t2d := MulIs(x, y, sum.E, sum.H);
    y := r.ysubx;
    r.ysubx := SubIs(r.ysubx, r.xaddy, sum.H * sum.G, sum.E * sum.F);
    r.xaddy := AddIs(r.xaddy, y, sum.E * sum.F, sum.H * sum.G);
    r.t2d := MulIs(r.t2d, EC2D, sum.E * sum.H, 2 * D);
    assert (sum.E * sum.H) * (2 * D) == 2 * D * (sum.E * sum.H);
  }
}
