/**
 The fixed-base scalar multiplication on limb vectors, from a packed table of multiples of the base point.
 */
module BasepointMult {
  import opened Words
  import opened ModmBatch
  import opened Edwards
  import opened Points
  import opened PointScalarMult
  import opened Window4
  import AG = AbelianGroup
  import SM = ScalarMult
  import SW = SlidingWindow
  import F = Field25519
  import FB = FieldBasic
  import FY = FieldBytes
  import PB = PointBytes
  import MB = ModmBytes

  // ---- packed entries ----

  ghost predicate Encodes(bytes: seq<byte>, v: int) {
    |bytes| == 32 && (MB.LE(bytes) % F.TWO255) % F.P == v % F.P
  }

  /** The third coordinate of an entry: row 0 leaves out the factor d. */
  function Third(w: Point, withD: bool): int {
    if withD then 2 * D * w.T else 2 * w.T
  }

  /** ysubx, xaddy and t2d of an affine point, in 32 bytes each. */
  ghost predicate Packed(e: seq<byte>, w: Point, withD: bool) {
    && |e| == 96 && w.Z == 1
    && Encodes(e[0..32], w.Y - w.X) && Encodes(e[32..64], w.Y + w.X) && Encodes(e[64..96], Third(w, withD))
  }

  ghost predicate Entry<T(!new)>(m: Reading<T>, e: seq<byte>, w: Point, x: T, withD: bool) {
    Packed(e, w, withD) && m.stands(w, x)
  }

  /** Row pos holds 1..8 times 256^pos b; row 0 keeps T without the curve constant. */
  ghost predicate BaseTable<T(!new)>(m: Reading<T>, table: seq<seq<byte>>, ws: seq<Point>, b: T) {
    |table| == |ws| == 256 && forall pos, k :: 0 <= pos < 32 && 0 <= k < 8 ==> RowEntry(m, table, ws, b, pos, k)
  }

  ghost predicate RowEntry<T(!new)>(m: Reading<T>, table: seq<seq<byte>>, ws: seq<Point>, b: T, pos: nat, k: nat)
    requires |table| == |ws| == 256 && pos < 32 && k < 8
  {
    Entry(m, table[pos * 8 + k], ws[pos * 8 + k], AG.Mul(m.g, (k + 1) * Pow2(8 * pos), b), pos != 0)
  }

  /** A precomputed point, with or without the factor d in its third coordinate. */
  ghost predicate Precomputed(t: Niels, w: Point, withD: bool) {
    && F.Below(t.ysubx, F.TIGHT) && F.Below(t.xaddy, F.TIGHT) && F.Below(t.t2d, F.TIGHT)
    && Is(t.ysubx, w.Y - w.X) && Is(t.xaddy, w.Y + w.X) && Is(t.t2d, Third(w, withD)) && w.Z == 1
  }

  // ---- choosing an entry ----

  lemma MaskByte(x: byte, y: byte)
    ensures Or(And(x, 255), And(y, 0)) == x && Or(And(x, 0), And(y, 255)) == y
  {
    Pow2Values();
    AndLow(x, 8);
    AndLow(y, 8);
    SmallMod(x, 256);
    SmallMod(y, 256);
  }

  /** curve25519_move_conditional_bytes: out = flag ? input : out, by masks */
  method MoveConditional(out: array<byte>, input: seq<byte>, flag: nat)
    requires out.Length == 96 && |input| == 96 && flag <= 1
    modifies out
    ensures out[..] == if flag == 1 then input else old(out[..])
  {
    hide And, Or;
    var nb := if flag == 0 then 255 else 0;
    var b := 255 - nb;
    for i := 0 to 96
      invariant forall k :: 0 <= k < 96 ==> out[k] == if k < i && flag == 1 then input[k] else old(out[k])
    {
      MaskByte(out[i], input[i]);
      out[i] := Or(And(out[i], nb), And(input[i], b));
    }
  }

  method ExpandIs(bytes: seq<byte>, ghost v: int) returns (r: F.Fe)
    requires Encodes(bytes, v)
    ensures F.Below(r, F.TIGHT) && Is(r, v)
  {
    hide MB.LE;
    r := FY.Expand(bytes);
  }

  method SwapIs(a: F.Fe, b: F.Fe, iswap: u64) returns (x: F.Fe, y: F.Fe)
    requires iswap <= 1
    ensures (x, y) == if iswap == 1 then (b, a) else (a, b)
  {
    var u, v := new u64[5](i requires 0 <= i < 5 => a[i]), new u64[5](i requires 0 <= i < 5 => b[i]);
    assert u[..] == a && v[..] == b;
    FB.SwapConditional(u, v, iswap);
    x, y := u[..], v[..];
  }

  lemma NeutralPacked(e: seq<byte>, withD: bool)
    requires |e| == 96 && e[0] == 1 && e[32] == 1 && forall i :: 0 <= i < 96 && i != 0 && i != 32 ==> e[i] == 0
    ensures Packed(e, NEUTRAL, withD)
  {
    hide MB.LE;
    OneThenZeros(e[0..32]);
    OneThenZeros(e[32..64]);
    MB.LEZeros(e[64..96]);
    SmallMod(1, F.TWO255);
    SmallMod(0, F.TWO255);
  }

  lemma OneThenZeros(b: seq<byte>)
    requires |b| == 32 && b[0] == 1 && forall i :: 1 <= i < 32 ==> b[i] == 0
    ensures MB.LE(b) == 1
  {
    MB.LEZeros(b[1..]);
  }

  /** ge25519_scalarmult_base_choose_niels: the entry for digit d of row pos, found by scanning the whole row */
  method ChooseNiels<T(!new)>(ghost m: Reading<T>, table: seq<seq<byte>>, pos: nat, d: SW.i8, ghost ws: seq<Point>,
      ghost b: T)
    returns (t: Niels, ghost w: Point)
    requires Faithful(m) && BaseTable(m, table, ws, b) && pos < 32 && -8 <= d <= 8
    ensures Precomputed(t, w, pos != 0) && m.stands(w, AG.Mul(m.g, d * Pow2(8 * pos), b))
  {
    hide AG.Abelian, Faithful, SM.Abs32, SM.WindowbEqual, Pow2, Packed, BaseTable, Precomputed, AG.Mul;
    var sign, u := SM.SignBit(d), SM.Abs32(d);
    SM.Abs32Meaning(d);
    var packed;
    packed, w := ScanRow(m, table, pos, u, ws, b);
    t := UnpackEntry(packed, w, pos != 0);
    t := AdjustSign(t, sign, w, pos != 0);
    SignedEntry(m, w, AG.Mul(m.g, u * Pow2(8 * pos), b), sign);
    w := Signed(w, sign);
    if sign == 1 {
      FaithfulAbelian(m);
      AG.MulNeg(m.g, u * Pow2(8 * pos), b);
      SM.NegTimes(u, Pow2(8 * pos));
    }
  }

  method ScanRow<T(!new)>(ghost m: Reading<T>, table: seq<seq<byte>>, pos: nat, u: nat, ghost ws: seq<Point>,
      ghost b: T)
    returns (bytes: seq<byte>, ghost w: Point)
    requires Faithful(m) && BaseTable(m, table, ws, b) && pos < 32 && u <= 8
    ensures Packed(bytes, w, pos != 0) && m.stands(w, AG.Mul(m.g, u * Pow2(8 * pos), b))
  {
    hide AG.Abelian, Faithful, SM.WindowbEqual, Pow2, Packed, AG.Mul;
    var packed := new byte[96](i => if i == 0 || i == 32 then 1 else 0);
    w := NEUTRAL;
    NeutralPacked(packed[..], pos != 0);
    FaithfulAbelian(m);
    SM.ZeroTimes(m.g, Pow2(8 * pos), b);
    for i := 0 to 8
      invariant Packed(packed[..], w, pos != 0) &&
          m.stands(w, AG.Mul(m.g, (if 1 <= u <= i then u else 0) * Pow2(8 * pos), b))
    {
      SM.WindowbEqualMeaning(u, i + 1);
      assert RowEntry(m, table, ws, b, pos, i);
      PackedLength(table[pos * 8 + i], ws[pos * 8 + i], pos != 0);
      MoveConditional(packed, table[pos * 8 + i], SM.WindowbEqual(u, i + 1));
      if u == i + 1 {
        w := ws[pos * 8 + i];
      }
    }
    bytes := packed[..];
  }

  lemma PackedLength(e: seq<byte>, w: Point, withD: bool)
    requires Packed(e, w, withD)
    ensures |e| == 96
  {
  }

  method UnpackEntry(packed: seq<byte>, ghost w: Point, ghost withD: bool) returns (t: Niels)
    requires Packed(packed, w, withD)
    ensures Precomputed(t, w, withD)
  {
    hide Encodes, Is, Third;
    var ysubx := ExpandIs(packed[0..32], w.Y - w.X);
    var xaddy := ExpandIs(packed[32..64], w.Y + w.X);
    var t2d := ExpandIs(packed[64..96], Third(w, withD));
    t := Niels(ysubx, xaddy, t2d);
  }

  method AdjustSign(t: Niels, sign: u64, ghost w: Point, ghost withD: bool) returns (r: Niels)
    requires Precomputed(t, w, withD) && sign <= 1
    ensures Precomputed(r, Signed(w, sign), withD)
  {
    hide Is;
    var ysubx, xaddy := SwapIs(t.ysubx, t.xaddy, sign);
    var neg := NegIs(t.t2d, Third(w, withD));
    var t2d;
    t2d, neg := SwapIs(t.t2d, neg, sign);
    NegativeThird(w, withD);
    r := Niels(ysubx, xaddy, t2d);
  }

  lemma NegativeThird(w: Point, withD: bool)
    ensures Third(Negative(w), withD) == -Third(w, withD)
  {
  }

  // ---- the sum over the digits ----

  ghost predicate At<T(!new)>(m: Reading<T>, r: Ge, v: Point, x: T)
    reads r
  {
    r.Holds(v) && m.stands(v, x)
  }

  /** A row-0 entry as a point: twice its affine coordinates, over Z = 2, with T taken as it is. */
  method FromEntry<T(!new)>(ghost m: Reading<T>, r: Ge, t: Niels, ghost w: Point, ghost x: T) returns (ghost v: Point)
    requires Faithful(m) && Precomputed(t, w, false) && m.stands(w, x)
    modifies r
    ensures At(m, r, v, x)
  {
    hide AG.Abelian;
    v := Point(2 * w.X, 2 * w.Y, 2 * w.Z, 2 * w.T);
    assert Scales(m, w, x);
    r.x := SubReduceIs(t.xaddy, t.ysubx, w.Y + w.X, w.Y - w.X);
    r.y := AddReduceIs(t.xaddy, t.ysubx, w.Y + w.X, w.Y - w.X);
    r.t := t.t2d;
    r.z := [2, 0, 0, 0, 0];
    assert F.Val(r.z) == 2;
  }

  lemma PrecomputedHolds(t: Niels, w: Point)
    requires Precomputed(t, w, true)
    ensures t.Holds(w)
  {
  }

  /** ge25519_nielsadd2 with what the points stand for */
  method AddEntry<T(!new)>(ghost m: Reading<T>, r: Ge, t: Niels, ghost v: Point, ghost w: Point, ghost x: T,
      ghost y: T) returns (ghost v2: Point)
    requires Faithful(m) && At(m, r, v, x) && Precomputed(t, w, true) && m.stands(w, y)
    modifies r
    ensures At(m, r, v2, m.g.add(x, y))
  {
    hide Faithful, Precomputed;
    PrecomputedHolds(t, w);
    NielsAdd2(r, t, v, w);
    Summed(m, v, w, x, y);
    v2 := Full(Sum(ED25519, v, w));
  }

  method OddDigits<T(!new)>(ghost m: Reading<T>, r: Ge, table: seq<seq<byte>>, d: seq<SW.i8>, ghost ws: seq<Point>,
      ghost b: T) returns (ghost v: Point)
    requires Faithful(m) && BaseTable(m, table, ws, b) && Signed16(d)
    modifies r
    ensures At(m, r, v, AG.Mul(m.g, SM.Odds(d, 32), b))
  {
    hide AG.Abelian, AG.Mul, Pow2, BaseTable, SM.Odds, Faithful, Precomputed, At;
    var t;
    ghost var w;
    FaithfulAbelian(m);
    t, w := ChooseNiels(m, table, 0, d[1], ws, b);
    v := FromEntry(m, r, t, w, AG.Mul(m.g, d[1] * Pow2(8 * 0), b));
    SM.OddsNext(d, 0);
    var i := 3;
    while i < 64
      invariant 3 <= i <= 65 && i % 2 == 1 && At(m, r, v, AG.Mul(m.g, SM.Odds(d, i / 2), b))
    {
      t, w := ChooseNiels(m, table, i / 2, d[i], ws, b);
      AG.MulAdd(m.g, SM.Odds(d, i / 2), d[i] * Pow2(8 * (i / 2)), b);
      SM.OddsNext(d, i / 2);
      v := AddEntry(m, r, t, v, w, AG.Mul(m.g, SM.Odds(d, i / 2), b), AG.Mul(m.g, d[i] * Pow2(8 * (i / 2)), b));
      i := i + 2;
    }
  }

  /** curve25519_mul(t.t2d, t.t2d, ge25519_ecd) */
  method MultiplyByD(t: Niels, ghost w: Point) returns (r: Niels)
    requires Precomputed(t, w, false)
    ensures Precomputed(r, w, true)
  {
    hide Is;
    PB.ConstantsAre();
    var t2d := MulIs(t.t2d, PB.ECD, 2 * w.T, D);
    assert (2 * w.T) * D == 2 * D * w.T;
    r := t.(t2d := t2d);
  }

  method EvenDigits<T(!new)>(ghost m: Reading<T>, r: Ge, table: seq<seq<byte>>, d: seq<SW.i8>, ghost ws: seq<Point>,
      ghost b: T, ghost v0: Point, ghost x: int) returns (ghost v: Point)
    requires Faithful(m) && BaseTable(m, table, ws, b) && Signed16(d) && At(m, r, v0, AG.Mul(m.g, x, b))
    modifies r
    ensures At(m, r, v, AG.Mul(m.g, SM.Evens(d, 32) + x, b))
  {
    hide AG.Abelian, AG.Mul, Pow2, BaseTable, SM.Evens, Faithful, Precomputed, At;
    var t;
    ghost var w;
    FaithfulAbelian(m);
    t, w := ChooseNiels(m, table, 0, d[0], ws, b);
    t := MultiplyByD(t, w);
    AG.MulAdd(m.g, x, d[0] * Pow2(8 * 0), b);
    SM.EvensNext(d, 0);
    v := AddEntry(m, r, t, v0, w, AG.Mul(m.g, x, b), AG.Mul(m.g, d[0] * Pow2(8 * 0), b));
    var i := 2;
    while i < 64
      invariant 2 <= i <= 64 && i % 2 == 0 && At(m, r, v, AG.Mul(m.g, x + SM.Evens(d, i / 2), b))
    {
      t, w := ChooseNiels(m, table, i / 2, d[i], ws, b);
      AG.MulAdd(m.g, x + SM.Evens(d, i / 2), d[i] * Pow2(8 * (i / 2)), b);
      SM.EvensNext(d, i / 2);
      v := AddEntry(m, r, t, v, w, AG.Mul(m.g, x + SM.Evens(d, i / 2), b), AG.Mul(m.g, d[i] * Pow2(8 * (i / 2)), b));
      i := i + 2;
    }
  }

  /** Three doublings that leave T stale and one that brings it up to date. */
  method FourDoublings<T(!new)>(ghost m: Reading<T>, r: Ge, ghost v0: Point, ghost k: int,
      ghost b: T) returns (ghost v: Point)
    requires Faithful(m) && At(m, r, v0, AG.Mul(m.g, k, b))
    modifies r
    ensures At(m, r, v, AG.Mul(m.g, 16 * k, b))
  {
    hide AG.Abelian, AG.Mul, Faithful, Is;
    FaithfulAbelian(m);
    SM.Doublings(m.g, k, b);
    v := v0;
    DoublePartial(r, r, v);
    Doubled(m, v, AG.Mul(m.g, k, b));
    v := Full(Flipped(Twice(v)));
    DoublePartial(r, r, v);
    Doubled(m, v, AG.Mul(m.g, 2 * k, b));
    v := Full(Flipped(Twice(v)));
    DoublePartial(r, r, v);
    Doubled(m, v, AG.Mul(m.g, 4 * k, b));
    v := Full(Flipped(Twice(v)));
    Double(r, r, v);
    Doubled(m, v, AG.Mul(m.g, 8 * k, b));
    v := Full(Flipped(Twice(v)));
  }

  /** ge25519_scalarmult_base_niels: r stands for [s]b */
  method ScalarmultBasePoints<T(!new)>(ghost m: Reading<T>, r: Ge, table: seq<seq<byte>>, s: Limbs,
      ghost ws: seq<Point>, ghost b: T) returns (ghost v: Point)
    requires Faithful(m) && BaseTable(m, table, ws, b) && Proper(s) && s[4] < 0x8000_0000
    modifies r
    ensures r.Holds(v) && m.stands(v, AG.Mul(m.g, Value(s), b))
  {
    hide AG.Abelian, AG.Mul, Value, Fold16, Pow2, BaseTable, Faithful, SM.Odds, SM.Evens;
    var digits := new SW.i8[64];
    Recode4(digits, s);
    v := OddDigits(m, r, table, digits[..], ws, b);
    v := FourDoublings(m, r, v, SM.Odds(digits[..], 32), b);
    v := EvenDigits(m, r, table, digits[..], ws, b, v, 16 * SM.Odds(digits[..], 32));
    SM.EvensAndOdds(digits[..], 32);
    assert digits[..][..64] == digits[..];
  }
}
