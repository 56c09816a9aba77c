/**
 Keys, signatures and their verification.
 */
module Ed25519 {
  import opened Words
  import opened ModmBatch
  import opened Points
  import opened PointScalarMult
  import opened BasepointMult
  import Ed = Edwards
  import M = Modm
  import MB = ModmBytes
  import PB = PointBytes
  import AG = AbelianGroup
  import FY = FieldBytes

  const TWO32: int := 0x1_0000_0000

  type Bytes = seq<byte>
  type Hash = Bytes -> Bytes

  ghost predicate Hash512(hash: Hash) {
    forall x :: |hash(x)| == 64
  }

  /**
   The group the points stand for, its base point, and its encoding. `dec` gives the negative of the element that
   accepted bytes encode. Tables and what their entries stand for complete the setting.
   */
  datatype Setting<!T> = Setting(m: Reading<T>, b: T, enc: T -> Bytes, dec: Bytes -> T, us: seq<Ed.Point>, ys: seq<T>,
      ws: seq<Ed.Point>)

  /** A point packs to the encoding of the element it stands for. */
  ghost predicate PacksTo<T(!new)>(q: Setting<T>, v: Ed.Point, a: T) {
    q.m.stands(v, a) ==> |q.enc(a)| == 32 && MB.LE(q.enc(a)) == PB.Encoding(v)
  }

  ghost predicate UnpacksTo<T(!new)>(q: Setting<T>, p: Bytes, v: Ed.Point) {
    |p| == 32 && PB.DecodedAs(p, v) ==> q.m.stands(v, q.dec(p))
  }

  /** Encodings are accepted, and decode to the negated element. */
  ghost predicate RoundTrips<T(!new)>(q: Setting<T>, a: T) {
    |q.enc(a)| == 32 && PB.Decodable(q.enc(a)) && q.dec(q.enc(a)) == q.m.g.neg(a)
  }

  ghost predicate Encodes<T(!new)>(q: Setting<T>) {
    && (forall v, a :: PacksTo(q, v, a))
    && (forall p, v :: UnpacksTo(q, p, v))
    && (forall a :: RoundTrips(q, a))
  }

  /** The facts about the curve group that signatures rest on: the group laws, the order of the base point, the
      encoding. */
  ghost predicate Sound<T(!new)>(q: Setting<T>) {
    Faithful(q.m) && AG.Mul(q.m.g, M.L, q.b) == q.m.g.zero && Encodes(q)
  }

  // ---- scalars ----

  /** extsk[0] &= 248; extsk[31] &= 127; extsk[31] |= 64 */
  function Clamped(h: Bytes): (c: Bytes)
    requires |h| == 64
    ensures |c| == 64
  {
    AndOrByte(h[0], h[31]);
    h[0 := And(h[0], 248)][31 := Or(And(h[31], 127), 64)]
  }

  lemma {:induction false} AndBelow(a: nat, b: nat)
    ensures And(a, b) <= a && And(a, b) <= b
  {
    if a > 0 && b > 0 {
      AndBelow(a / 2, b / 2);
    }
  }

  lemma AndOrByte(x: byte, y: byte)
    ensures And(x, 248) < 256 && Or(And(y, 127), 64) < 256
  {
    AndBelow(x, 248);
    AndBelow(y, 127);
    Pow2Values();
    PB.OrBound(And(y, 127), 64, 8);
  }

  /** Section 5.1.5 of RFC 8032, on the number the 32 bytes stand for: bits 0 to 2 and 255 off, bit 254 on. */
  ghost function ClampedNumber(n: nat): nat {
    TWO254 + 8 * ((n % TWO254) / 8)
  }

  const TWO254: int := 0x4000_0000_0000_0000_0000_0000_0000_0000_0000_0000_0000_0000_0000_0000_0000_0000

  /** A clamped number is a multiple of the cofactor 8 and has bit 254 as its highest bit. */
  lemma ClampedRange(n: nat)
    ensures ClampedNumber(n) % 8 == 0 && TWO254 <= ClampedNumber(n) < 2 * TWO254
    ensures 0 <= n % TWO254 - (ClampedNumber(n) - TWO254) < 8
  {
    var k := (n % TWO254) / 8;
    assert n % TWO254 < TWO254;
    DivModUnique(TWO254 + 8 * k, 8, TWO254 / 8 + k, 0);
  }

  /** Three low bits off. */
  lemma AndTop(x: byte)
    ensures And(x, 248) == 8 * (x / 8)
  {
    hide And, Pow2;
    AndDouble(x, 124);
    AndDouble(x / 2, 62);
    AndDouble(x / 4, 31);
    SmallPowers();
    AndLow(x / 8, 5);
    assert (x / 2) / 2 == x / 4 && (x / 4) / 2 == x / 8;
    SmallMod(x / 8, 32);
  }

  lemma AndDouble(x: nat, m: nat)
    ensures And(x, 2 * m) == 2 * And(x / 2, m)
  {
    if x == 0 || m == 0 {
      assert x / 2 == 0 || m == 0;
    }
  }

  /** Bit 7 off, bit 6 on. */
  lemma OrTop(x: byte)
    ensures Or(And(x, 127), 64) == 64 + x % 64
  {
    hide And, Or, Pow2;
    Pow2Values();
    SevenBits();
    AndLow(x, 7);
    var y := x % 128;
    assert y % 64 == x % 64;
    OrDouble(y, 32);
    OrDouble(y / 2, 16);
    OrDouble(y / 4, 8);
    OrDouble(y / 8, 4);
    OrDouble(y / 16, 2);
    OrDouble(y / 32, 1);
    assert (y / 2) / 2 == y / 4 && (y / 4) / 2 == y / 8 && (y / 8) / 2 == y / 16 && (y / 16) / 2 == y / 32 &&
        (y / 32) / 2 == y / 64;
    OrOne(y / 64);
  }

  lemma SevenBits()
    ensures Pow2(7) == 128
  {
    assert Pow2(6) == 64;
  }

  lemma OrDouble(x: nat, m: nat)
    ensures Or(x, 2 * m) == 2 * Or(x / 2, m) + x % 2
  {
  }

  lemma OrOne(x: nat)
    requires x <= 1
    ensures Or(x, 1) == 1
  {
  }

  /** The bytes of the clamped hash stand for the clamped number; the other half is not touched. */
  lemma ClampedIs(h: Bytes)
    requires |h| == 64
    ensures MB.LE(Clamped(h)[..32]) == ClampedNumber(MB.LE(h[..32]))
    ensures Clamped(h)[32..] == h[32..]
  {
    hide And, Or, MB.LE, Pow2;
    AndTop(h[0]);
    OrTop(h[31]);
    var a, c := h[..32], Clamped(h)[..32];
    PB.TopByte(a);
    PB.TopByte(c);
    assert a[..31] == [h[0]] + h[1..31] && c[..31] == [And(h[0], 248)] + h[1..31];
    FirstByte(h[0], h[1..31]);
    FirstByte(And(h[0], 248), h[1..31]);
    PowerIs248();
    ClampedDigits(MB.LE(a), h[0], MB.LE(h[1..31]), h[31], Pow2(248));
  }

  lemma PowerIs248()
    ensures TWO254 == 64 * Pow2(248) && Pow2(248) == 256 * (Pow2(248) / 256)
  {
    hide Pow2;
    Pow2Values();
    PB.Top255();
    Pow2Add(8, 240);
  }

  lemma FirstByte(b: byte, rest: Bytes)
    ensures MB.LE([b] + rest) == b + 256 * MB.LE(rest)
  {
    assert ([b] + rest)[1..] == rest;
  }

  /** The number without bits 254 and 255. */
  lemma WithoutTopBits(n: nat, rest: nat, top: nat, m: nat)
    requires n == rest + m * top && rest < m
    ensures n % (64 * m) == rest + m * (top % 64)
  {
    var q, r := top / 64, top % 64;
    TwoParts(m, top, q, r);
    Below64(m, r);
    DivModUnique(n, 64 * m, q, rest + m * r);
  }

  lemma TwoParts(m: int, top: int, q: int, r: int)
    requires top == 64 * q + r
    ensures m * top == (64 * m) * q + m * r
  {
    assert m * (64 * q + r) == m * (64 * q) + m * r;
    assert m * (64 * q) == (64 * m) * q;
  }

  lemma Below64(m: int, r: int)
    requires m > 0 && 0 <= r <= 63
    ensures 0 <= m * r <= 63 * m
  {
    MulSign(m, r);
    MulSign(m, 63 - r);
  }

  /** Clearing the low three bits only touches the low byte. */
  lemma WithoutLowBits(low: nat, k: nat)
    ensures 8 * ((low + 256 * k) / 8) == 8 * (low / 8) + 256 * k
  {
    DivModUnique(low + 256 * k, 8, low / 8 + 32 * k, low % 8);
  }

  lemma ClampedDigits(n: nat, low: nat, mid: nat, top: nat, m: nat)
    requires n == low + 256 * mid + m * top && low < 256 && low + 256 * mid < m && m % 256 == 0 && top < 256
    requires m > 0
    ensures 8 * (low / 8) + 256 * mid + m * (64 + top % 64) == 64 * m + 8 * ((n % (64 * m)) / 8)
  {
    var k, r := m / 256, top % 64;
    WithoutTopBits(n, low + 256 * mid, top, m);
    Scaled256(m, k, r);
    WithoutLowBits(low, mid + k * r);
    assert m * (64 + r) == 64 * m + m * r;
  }

  lemma Scaled256(m: nat, k: nat, r: nat)
    requires m == 256 * k
    ensures m * r == 256 * (k * r)
  {
  }

  /** The secret scalar: the clamped first half of the hash of the secret key. */
  ghost function Secret(hash: Hash, sk: Bytes): nat
    requires Hash512(hash)
  {
    ClampedNumber(MB.LE(hash(sk)[..32])) % M.L
  }

  /** The nonce: the hash of the second half and the message. */
  ghost function Nonce(hash: Hash, sk: Bytes, msg: Bytes): nat
    requires Hash512(hash)
  {
    MB.LE(hash(hash(sk)[32..] + msg)) % M.L
  }

  ghost function Challenge(hash: Hash, r: Bytes, pk: Bytes, msg: Bytes): nat {
    MB.LE(hash(r + pk + msg)) % M.L
  }

  /** h a + r modulo L */
  ghost function Answer(h: nat, a: nat, r: nat): nat {
    ((h * a) % M.L + r) % M.L
  }

  lemma ReducedLimbs(s: Limbs)
    requires Value(s) < M.L
    ensures Value(s) < Pow2(253) && s[4] < 0x8000_0000
  {
    OrderBelow();
    TopLimbSmall(s);
  }

  lemma OrderBelow()
    ensures M.L < Pow2(253) && Pow2(253) == 32 * Pow2(248) && Pow2(253) == Pow2(224) * 0x2000_0000
  {
    hide Pow2;
    Pow2Values();
    Pow2Add(16, 8);
    Pow2Add(64, 64);
    Pow2Add(128, 64);
    Pow2Add(192, 32);
    Pow2Add(224, 24);
    SmallPowers();
    Pow2Add(5, 248);
    Pow2Add(224, 29);
    Pow2Add(24, 5);
  }

  lemma SmallPowers()
    ensures Pow2(3) == 8 && Pow2(5) == 32 && Pow2(8) == 256
  {
    assert Pow2(4) == 16;
    assert Pow2(6) == 64;
  }

  lemma TopLimbSmall(s: Limbs)
    requires Value(s) < 0x20000000_00000000_00000000_00000000_00000000_00000000_00000000_00000000
    ensures s[4] < 0x8000_0000
  {
  }

  method ExpandScalar(input: Bytes) returns (s: Limbs)
    requires |input| == 16 || |input| == 32 || |input| == 64
    ensures Proper(s) && Value(s) == MB.LE(input) % M.L && Value(s) < M.L
    ensures |input| == 16 ==> Value(s) == MB.LE(input) < TWO128
  {
    hide Value, MB.LE, Pow2;
    var a := new u64[5];
    MB.Expand256(a, input);
    s := a[..];
    if |input| == 16 {
      MB.LEBound(input);
      Pow2Values();
      SmallMod(MB.LE(input), M.L);
    }
  }

  // ---- key generation and signing ----

  method PackElement<T(!new)>(ghost q: Setting<T>, r: Ge, ghost v: Ed.Point, ghost x: T) returns (bytes: Bytes)
    requires Sound(q) && r.Partial(v) && q.m.stands(v, x)
    ensures bytes == q.enc(x)
  {
    hide MB.LE, Faithful, PB.Encoding;
    bytes := PB.Pack(r, v);
    assert PacksTo(q, v, x);
    FY.LEInjective(bytes, q.enc(x));
  }

  /** The encoding of [s]b. */
  method PackMultiple<T(!new)>(ghost q: Setting<T>, base: seq<Bytes>, s: Limbs) returns (bytes: Bytes)
    requires Sound(q) && BaseTable(q.m, base, q.ws, q.b) && Proper(s) && Value(s) < M.L
    ensures bytes == q.enc(AG.Mul(q.m.g, Value(s), q.b))
  {
    hide Sound, BaseTable, Value, AG.Mul, Faithful;
    SoundFaithful(q);
    ReducedLimbs(s);
    var r := new Ge();
    ghost var v := ScalarmultBasePoints(q.m, r, base, s, q.ws, q.b);
    bytes := PackElement(q, r, v, AG.Mul(q.m.g, Value(s), q.b));
  }

  lemma SoundFaithful<T(!new)>(q: Setting<T>)
    requires Sound(q)
    ensures Faithful(q.m) && AG.Abelian(q.m.g) && AG.Mul(q.m.g, M.L, q.b) == q.m.g.zero
  {
    FaithfulAbelian(q.m);
  }

  /** ed25519_publickey */
  method PublicKey<T(!new)>(hash: Hash, sk: Bytes, base: seq<Bytes>, ghost q: Setting<T>) returns (pk: Bytes)
    requires Hash512(hash) && Sound(q) && BaseTable(q.m, base, q.ws, q.b)
    ensures pk == q.enc(AG.Mul(q.m.g, Secret(hash, sk), q.b))
  {
    hide Sound, BaseTable, Value, AG.Mul, Clamped, MB.LE;
    var extsk := Clamped(hash(sk));
    ClampedIs(hash(sk));
    var a := ExpandScalar(extsk[..32]);
    pk := PackMultiple(q, base, a);
  }

  method MulScalars(h: Limbs, a: Limbs) returns (s: Limbs)
    requires Proper(h) && Proper(a) && h[4] < TWO32 && a[4] < TWO32
    ensures Proper(s) && Value(s) == (Value(h) * Value(a)) % M.L
  {
    hide Value;
    var x, y := new u64[5](i requires 0 <= i < 5 => h[i]), new u64[5](i requires 0 <= i < 5 => a[i]);
    assert x[..] == h && y[..] == a;
    M.Mul256(x, x, y);
    s := x[..];
  }

  method AddScalars(h: Limbs, a: Limbs) returns (s: Limbs)
    requires Proper(h) && Proper(a) && Value(h) < M.L && Value(a) < M.L
    ensures Proper(s) && Value(s) == (Value(h) + Value(a)) % M.L
  {
    hide Value;
    var x, y := new u64[5](i requires 0 <= i < 5 => h[i]), new u64[5](i requires 0 <= i < 5 => a[i]);
    assert x[..] == h && y[..] == a;
    M.Add256(x, x, y);
    s := x[..];
  }

  method ContractScalar(s: Limbs) returns (bytes: Bytes)
    requires Proper(s) && s[4] < TWO32
    ensures |bytes| == 32 && MB.LE(bytes) == Value(s)
  {
    hide Value, MB.LE;
    var out := new byte[32];
    MB.Contract256(out, s);
    bytes := out[..];
  }

  lemma ModRange(x: int)
    ensures 0 <= x % M.L < M.L
  {
  }

  /** S = h a + r modulo L */
  method Response(h: Limbs, a: Limbs, r: Limbs) returns (bytes: Bytes)
    requires Proper(h) && Proper(a) && Proper(r) && Value(h) < M.L && Value(a) < M.L && Value(r) < M.L
    ensures |bytes| == 32 && MB.LE(bytes) == Answer(Value(h), Value(a), Value(r))
  {
    hide Value, MB.LE;
    ReducedLimbs(h);
    ReducedLimbs(a);
    ModRange(Value(h) * Value(a));
    var s := MulScalars(h, a);
    ModRange(Value(s) + Value(r));
    s := AddScalars(s, r);
    ReducedLimbs(s);
    bytes := ContractScalar(s);
  }

  /** ed25519_sign */
  method Sign<T(!new)>(hash: Hash, msg: Bytes, sk: Bytes, pk: Bytes, base: seq<Bytes>,
      ghost q: Setting<T>) returns (rs: Bytes)
    requires Hash512(hash) && Sound(q) && BaseTable(q.m, base, q.ws, q.b)
    ensures |rs| == 64 && rs[..32] == q.enc(AG.Mul(q.m.g, Nonce(hash, sk, msg), q.b))
    ensures var h, a, r := Challenge(hash, rs[..32], pk, msg), Secret(hash, sk), Nonce(hash, sk, msg);
      MB.LE(rs[32..]) == Answer(h, a, r)
  {
    hide Sound, BaseTable, Value, AG.Mul, Clamped, MB.LE, Answer;
    var extsk := Clamped(hash(sk));
    ClampedIs(hash(sk));
    var r := ExpandScalar(hash(extsk[32..] + msg));
    var top := PackMultiple(q, base, r);
    EncodingLength(q, AG.Mul(q.m.g, Value(r), q.b));
    var hram := hash(top + pk + msg);
    var s := ExpandScalar(hram);
    var a := ExpandScalar(extsk[..32]);
    var bottom := Response(s, a, r);
    rs := top + bottom;
    assert rs[..32] == top && rs[32..] == bottom;
  }

  lemma EncodingLength<T(!new)>(q: Setting<T>, a: T)
    requires Sound(q)
    ensures |q.enc(a)| == 32 && PB.Decodable(q.enc(a)) && q.dec(q.enc(a)) == q.m.g.neg(a)
  {
    hide Faithful, PB.Decodable;
    assert RoundTrips(q, a);
  }

  // ---- verification ----

  /** The key decodes, and R encodes [S]B - [h]A. */
  ghost predicate Matches<T(!new)>(q: Setting<T>, hash: Hash, msg: Bytes, pk: Bytes, rs: Bytes)
    requires |rs| == 64
  {
    var h, s := Challenge(hash, rs[..32], pk, msg), MB.LE(rs[32..]) % M.L;
    && PB.Decodable(pk)
    && rs[..32] == q.enc(q.m.g.add(AG.Mul(q.m.g, h, q.dec(pk)), AG.Mul(q.m.g, s, q.b)))
  }

  /** The signature is accepted: S is below 2^253, and the rest matches. */
  ghost predicate Accepted<T(!new)>(q: Setting<T>, hash: Hash, msg: Bytes, pk: Bytes, rs: Bytes)
    requires |rs| == 64
  {
    rs[63] < 32 && Matches(q, hash, msg, pk, rs)
  }

  /** Everything after the range check of S. */
  method CheckSignature<T(!new)>(hash: Hash, msg: Bytes, pk: Bytes, rs: Bytes, sliding: seq<Niels>,
      ghost q: Setting<T>) returns (valid: bool)
    requires Hash512(hash) && |pk| == 32 && |rs| == 64 && Sound(q) && SecondReady(q.m, sliding, q.us, q.ys, q.b)
    ensures valid <==> Matches(q, hash, msg, pk, rs)
  {
    hide Sound, SecondReady, Value, AG.Mul, MB.LE, PB.Decodable, Faithful;
    var point := new Ge();
    var ok := PB.UnpackNegative(point, pk);
    if !ok {
      return false;
    }
    ghost var v :| PB.DecodedAs(pk, v) && point.Holds(v);
    DecodedStands(q, pk, v);
    SoundFaithful(q);
    var hram := ExpandScalar(hash(rs[..32] + pk + msg));
    var s := ExpandScalar(rs[32..]);
    ReducedLimbs(hram);
    ReducedLimbs(s);
    var r := new Ge();
    ghost var w := DoubleScalarmultPoints(q.m, r, point, hram, s, sliding, v, q.dec(pk), q.us, q.ys, q.b);
    var checkR := PackElement(q, r, w, q.m.g.add(AG.Mul(q.m.g, Value(hram), q.dec(pk)), AG.Mul(q.m.g, Value(s), q.b)));
    EncodingLength(q, q.m.g.add(AG.Mul(q.m.g, Value(hram), q.dec(pk)), AG.Mul(q.m.g, Value(s), q.b)));
    var equal := PB.VerifyEqual(rs[..32], checkR);
    valid := equal == 1;
  }

  /** ed25519_sign_open, true for a valid signature */
  method SignOpen<T(!new)>(hash: Hash, msg: Bytes, pk: Bytes, rs: Bytes, sliding: seq<Niels>,
      ghost q: Setting<T>) returns (valid: bool)
    requires Hash512(hash) && |pk| == 32 && |rs| == 64 && Sound(q) && SecondReady(q.m, sliding, q.us, q.ys, q.b)
    ensures valid <==> Accepted(q, hash, msg, pk, rs)
  {
    hide Sound, SecondReady, Matches;
    ThreeHighBits(rs[63]);
    if And(rs[63], 224) != 0 {
      return false;
    }
    valid := CheckSignature(hash, msg, pk, rs, sliding, q);
  }

  /** The range check on byte 63 is S < 2^253 for the number S that the second half stands for. */
  lemma AcceptedIff<T(!new)>(q: Setting<T>, hash: Hash, msg: Bytes, pk: Bytes, rs: Bytes)
    requires |rs| == 64
    ensures Accepted(q, hash, msg, pk, rs) <==> MB.LE(rs[32..]) < TWO254 / 2 && Matches(q, hash, msg, pk, rs)
  {
    hide MB.LE, Pow2, Matches;
    var s := rs[32..];
    PB.TopByte(s);
    PowerIs248();
    if s[31] < 32 {
      TopAtMost(Pow2(248), s[31], MB.LE(s[..31]), MB.LE(s));
    } else {
      TopAtLeast(Pow2(248), s[31], MB.LE(s[..31]), MB.LE(s));
    }
  }

  lemma TopAtMost(m: int, t: int, low: int, v: int)
    requires m > 0 && 0 <= low < m && v == low + m * t && t <= 31
    ensures v < 32 * m
  {
    MulSign(m, 31 - t);
    assert m * (31 - t) == m * 31 - m * t;
  }

  lemma TopAtLeast(m: int, t: int, low: int, v: int)
    requires m > 0 && 0 <= low < m && v == low + m * t && t >= 32
    ensures v >= 32 * m
  {
    MulSign(m, t - 32);
    assert m * (t - 32) == m * t - m * 32;
  }

  lemma ThreeHighBits(x: byte)
    ensures And(x, 224) == 0 <==> x < 32
  {
    SmallPowers();
    AndHigh(x, 224, 3, 5);
  }

  lemma DecodedStands<T(!new)>(q: Setting<T>, pk: Bytes, v: Ed.Point)
    requires Sound(q) && |pk| == 32 && PB.DecodedAs(pk, v)
    ensures q.m.stands(v, q.dec(pk))
  {
    hide Faithful, PB.DecodedAs;
    assert UnpacksTo(q, pk, v);
  }

  // ---- a signature made by the owner of the key is valid ----

  lemma MulMod<T(!new)>(g: AG.Group<T>, k: nat, b: T)
    requires AG.Abelian(g) && AG.Mul(g, M.L, b) == g.zero
    ensures AG.Mul(g, k % M.L, b) == AG.Mul(g, k, b)
  {
    hide AG.Abelian, AG.Mul;
    var n, r := k / M.L, k % M.L;
    assert k == n * M.L + r;
    AG.MulMul(g, n, M.L, b);
    AG.MulZero(g, n);
    AG.MulAdd(g, n * M.L, r, b);
    AG.Unit(g, AG.Mul(g, r, b));
  }

  /** [h](-[a]B) + [h a + r]B = [r]B */
  lemma VerificationEquation<T(!new)>(g: AG.Group<T>, h: nat, a: nat, r: nat, b: T)
    requires AG.Abelian(g) && AG.Mul(g, M.L, b) == g.zero
    ensures g.add(AG.Mul(g, h, g.neg(AG.Mul(g, a, b))), AG.Mul(g, Answer(h, a, r) % M.L, b)) == AG.Mul(g, r, b)
  {
    hide AG.Abelian, AG.Mul;
    var x := (h * a) % M.L + r;
    MulMod(g, x % M.L, b);
    MulMod(g, x, b);
    AG.MulAdd(g, (h * a) % M.L, r, b);
    MulMod(g, h * a, b);
    AG.MulAdd(g, h * a, r, b);
    var negative: int := -(a as int);
    AG.MulNeg(g, a, b);
    AG.MulMul(g, h, negative, b);
    AG.MulAdd(g, h * negative, h * a + r, b);
    assert h * negative == -((h as int) * a);
  }

  lemma AnswerReduced(h: nat, a: nat, r: nat)
    ensures 0 <= Answer(h, a, r) < M.L
  {
    ModRange((h * a) % M.L + r);
  }

  lemma ReducedTopByte(s: Bytes)
    requires |s| == 32 && MB.LE(s) < M.L
    ensures s[31] < 32
  {
    hide MB.LE, Pow2;
    PB.TopByte(s);
    OrderBelow();
    TopBelow(Pow2(248), s[31], MB.LE(s[..31]), MB.LE(s));
  }

  lemma TopBelow(m: int, t: int, low: int, v: int)
    requires m > 0 && low >= 0 && v == low + m * t && v < 32 * m
    ensures t < 32
  {
    MulSign(m, t - 31);
  }

  lemma OwnSignatureAccepted<T(!new)>(q: Setting<T>, hash: Hash, msg: Bytes, sk: Bytes, pk: Bytes, rs: Bytes)
    requires Hash512(hash) && Sound(q) && |rs| == 64
    requires pk == q.enc(AG.Mul(q.m.g, Secret(hash, sk), q.b)) &&
        rs[..32] == q.enc(AG.Mul(q.m.g, Nonce(hash, sk, msg), q.b))
    requires var h, a, r := Challenge(hash, rs[..32], pk, msg), Secret(hash, sk), Nonce(hash, sk, msg);
      MB.LE(rs[32..]) == Answer(h, a, r)
    ensures Accepted(q, hash, msg, pk, rs)
  {
    hide Sound, AG.Mul, MB.LE, PB.Decodable, Faithful, Secret, Nonce, Challenge, Hash512, AG.Abelian, Answer;
    var h, a, r := Challenge(hash, rs[..32], pk, msg), Secret(hash, sk), Nonce(hash, sk, msg);
    SoundFaithful(q);
    EncodingLength(q, AG.Mul(q.m.g, a, q.b));
    AnswerReduced(h, a, r);
    ReducedTopByte(rs[32..]);
    assert rs[32..][31] == rs[63];
    VerificationEquation(q.m.g, h, a, r, q.b);
  }

  /** Key generation, signing and verification together: every signature so made is valid. */
  method SignThenOpen<T(!new)>(hash: Hash, msg: Bytes, sk: Bytes, base: seq<Bytes>, sliding: seq<Niels>,
      ghost q: Setting<T>) returns (valid: bool)
    requires Hash512(hash) && Sound(q) && BaseTable(q.m, base, q.ws, q.b) && SecondReady(q.m, sliding, q.us, q.ys, q.b)
    ensures valid
  {
    hide Sound, BaseTable, SecondReady, AG.Mul, MB.LE, Secret, Nonce, Challenge, Hash512, Accepted, Answer;
    var pk := PublicKey(hash, sk, base, q);
    EncodingLength(q, AG.Mul(q.m.g, Secret(hash, sk), q.b));
    var rs := Sign(hash, msg, sk, pk, base, q);
    OwnSignatureAccepted(q, hash, msg, sk, pk, rs);
    valid := SignOpen(hash, msg, pk, rs, sliding, q);
  }
}
