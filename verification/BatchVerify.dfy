/**
 Verifying one signature, and many at once.
 */
module BatchVerify {
  import opened Words
  import opened ModmBatch
  import opened Points
  import opened PointScalarMult
  import opened Ed25519
  import opened BatchEquation
  import AG = AbelianGroup
  import BH = BatchHeap
  import M = Modm
  import MB = ModmBytes
  import MF = MultiScalarFinal
  import PB = PointBytes
  import FY = FieldBytes

  const MAX_BATCH_SIZE := 64

  /** SignatureInput, its buffers joined */
  datatype Input = Input(key: Bytes, msg: Bytes, sig: Bytes)

  type SignatureInput = x: Input | |x.key| == 32 && |x.sig| == 64 witness Input(seq(32, _ => 0), [], seq(64, _ => 0))

  // ---- one signature ----

  /** S is neither zero nor as large as the group order. */
  ghost predicate Canonical(s: Bytes) {
    0 < MB.LE(s) < M.L
  }

  ghost predicate Usable(x: SignatureInput) {
    Canonical(x.sig[32..]) && x.key != MB.Zeros(32)
  }

  /** A usable signature whose key decodes and whose R encodes [S]B - [h]A. */
  ghost predicate Verified<T(!new)>(q: Setting<T>, hash: Hash, x: SignatureInput) {
    Usable(x) && Matches(q, hash, x.msg, x.key, x.sig)
  }

  lemma ZeroBytes(s: Bytes)
    requires |s| == 32
    ensures s == MB.Zeros(32) <==> MB.LE(s) == 0
  {
    hide MB.LE;
    MB.LEZeros(MB.Zeros(32));
    if MB.LE(s) == 0 {
      FY.LEInjective(s, MB.Zeros(32));
    }
  }

  lemma TopLimbOf(s: Limbs)
    requires Proper(s) && Value(s) < Pow2(256)
    ensures s[4] < Ed25519.TWO32
  {
    assert Pow2(256) == R4 * Ed25519.TWO32 by {
      hide Pow2;
      Pow2Values();
      Pow2Add(128, 128);
    }
  }

  /** ValidateEncodedSPart: 1 for reduced, 2 for zero */
  method ValidateEncodedSPart(s: Bytes) returns (flags: nat)
    requires |s| == 32
    ensures flags == if MB.LE(s) == 0 then 3 else if MB.LE(s) < M.L then 1 else 0
  {
    hide MB.LE, Value, Pow2;
    ZeroBytes(s);
    if s == MB.Zeros(32) {
      return 3;
    }
    var raw := MB.ExpandRaw256(s);
    var temp := new u64[5](i requires 0 <= i < 5 => raw[i]);
    assert temp[..] == raw;
    M.Reduce256(temp);
    MB.LEBound(s);
    TopLimbOf(temp[..]);
    var reduced := ContractScalar(temp[..]);
    if MB.LE(reduced) == MB.LE(s) {
      FY.LEInjective(reduced, s);
    }
    flags := if reduced == s then 1 else 0;
  }

  method IsCanonicalS(s: Bytes) returns (canonical: bool)
    requires |s| == 32
    ensures canonical <==> Canonical(s)
  {
    hide MB.LE;
    var flags := ValidateEncodedSPart(s);
    canonical := flags == 1;
  }

  method Verify<T(!new)>(hash: Hash, x: SignatureInput, sliding: seq<Niels>, ghost q: Setting<T>) returns (ok: bool)
    requires Hash512(hash) && Sound(q) && SecondReady(q.m, sliding, q.us, q.ys, q.b)
    ensures ok <==> Verified(q, hash, x)
  {
    hide Sound, SecondReady, Matches, Canonical;
    ok := IsCanonicalS(x.sig[32..]);
    if !ok || x.key == MB.Zeros(32) {
      return false;
    }
    ok := CheckSignature(hash, x.msg, x.key, x.sig, sliding, q);
  }

  /** Verification, spelled out on the bytes. */
  lemma VerifiedIff<T(!new)>(q: Setting<T>, hash: Hash, x: SignatureInput)
    ensures Verified(q, hash, x) <==>
      && 0 < MB.LE(x.sig[32..]) < M.L
      && (exists k :: 0 <= k < 32 && x.key[k] != 0)
      && PB.Decodable(x.key)
      && x.sig[..32] == q.enc(q.m.g.add(
        AG.Mul(q.m.g, MB.LE(hash(x.sig[..32] + x.key + x.msg)) % M.L, q.dec(x.key)),
        AG.Mul(q.m.g, MB.LE(x.sig[32..]), q.b)))
  {
    hide MB.LE, PB.Decodable, AG.Mul;
    ZeroKey(x.key);
    if 0 < MB.LE(x.sig[32..]) < M.L {
      SmallMod(MB.LE(x.sig[32..]), M.L);
    }
  }

  lemma ZeroKey(key: Bytes)
    requires |key| == 32
    ensures key == MB.Zeros(32) <==> forall k :: 0 <= k < 32 ==> key[k] == 0
  {
  }

  /** Key, message and the first half of a verified signature determine the second half: there is no other S. */
  lemma SignatureUnique<T(!new)>(q: Setting<T>, hash: Hash, x: SignatureInput, y: SignatureInput)
    requires Sound(q) && PrimeOrder() && q.b != q.m.g.zero && Verified(q, hash, x) && Verified(q, hash, y)
    requires x.key == y.key && x.msg == y.msg && x.sig[..32] == y.sig[..32]
    ensures x.sig == y.sig
  {
    hide Sound, PrimeOrder, MB.LE, PB.Decodable, AG.Mul, AG.Abelian, Verified, Killed;
    SoundFaithful(q);
    VerifiedIff(q, hash, x);
    VerifiedIff(q, hash, y);
    var g, s, r := q.m.g, MB.LE(x.sig[32..]), MB.LE(y.sig[32..]);
    var c := AG.Mul(g, MB.LE(hash(x.sig[..32] + x.key + x.msg)) % M.L, q.dec(x.key));
    var u, w := AG.Mul(g, s, q.b), AG.Mul(g, r, q.b);
    EncodingLength(q, g.add(c, u));
    EncodingLength(q, g.add(c, w));
    NegInjective(g, g.add(c, u), g.add(c, w));
    AG.Swap(g, c, u);
    AG.Swap(g, c, w);
    AG.CancelRight(g, u, w, c);
    KilledIs(g, q.b);
    if s < r {
      DifferenceVanishes(g, s, r, q.b);
    } else if r < s {
      DifferenceVanishes(g, r, s, q.b);
    }
    FY.LEInjective(x.sig[32..], y.sig[32..]);
    assert x.sig == x.sig[..32] + x.sig[32..] && y.sig == y.sig[..32] + y.sig[32..];
  }

  lemma NegInjective<T(!new)>(g: AG.Group<T>, x: T, y: T)
    requires AG.Abelian(g) && g.neg(x) == g.neg(y)
    ensures x == y
  {
    hide AG.Abelian;
    Opposite(g, x);
    Opposite(g, y);
    AG.CancelRight(g, x, y, g.neg(x));
  }

  /** A signature made by the owner of the key is verified unless its S is zero or the key is the zero key. */
  lemma OwnSignatureVerifiedIff<T(!new)>(q: Setting<T>, hash: Hash, sk: Bytes, x: SignatureInput)
    requires Hash512(hash) && Sound(q)
    requires x.key == q.enc(AG.Mul(q.m.g, Secret(hash, sk), q.b))
    requires x.sig[..32] == q.enc(AG.Mul(q.m.g, Nonce(hash, sk, x.msg), q.b))
    requires var h, a, r := Challenge(hash, x.sig[..32], x.key, x.msg), Secret(hash, sk), Nonce(hash, sk, x.msg);
      MB.LE(x.sig[32..]) == Answer(h, a, r)
    ensures Verified(q, hash, x) <==> MB.LE(x.sig[32..]) != 0 && x.key != MB.Zeros(32)
  {
    hide Sound, AG.Mul, MB.LE, Secret, Nonce, Challenge, Hash512, Answer, Matches;
    var h, a, r := Challenge(hash, x.sig[..32], x.key, x.msg), Secret(hash, sk), Nonce(hash, sk, x.msg);
    AnswerReduced(h, a, r);
    OwnSignatureAccepted(q, hash, x.msg, sk, x.key, x.sig);
  }

  /** CheckForCanonicalFormAndNonzeroKeys */
  method CheckUsable(inputs: seq<SignatureInput>) returns (valid: array<bool>, aggregate: bool)
    ensures fresh(valid) && valid.Length == |inputs|
    ensures forall i :: 0 <= i < |inputs| ==> (valid[i] <==> Usable(inputs[i]))
    ensures aggregate <==> forall i :: 0 <= i < |inputs| ==> Usable(inputs[i])
  {
    hide Canonical;
    aggregate := true;
    valid := new bool[|inputs|](_ => true);
    for i := 0 to |inputs|
      invariant forall j :: 0 <= j < i ==> (valid[j] <==> Usable(inputs[j]))
      invariant forall j :: i <= j < |inputs| ==> valid[j]
      invariant aggregate <==> forall j :: 0 <= j < i ==> Usable(inputs[j])
    {
      var canonical := IsCanonicalS(inputs[i].sig[32..]);
      if !canonical || MB.Zeros(32) == inputs[i].key {
        aggregate := false;
        valid[i] := false;
      }
    }
  }

  /**
   VerifySingle fills the verdicts from offset on. It reads the inputs from the first one on, whatever the offset, and
   so does the model.
   */
  method VerifySingle<T(!new)>(hash: Hash, inputs: seq<SignatureInput>, offset: nat, count: nat, valid: array<bool>,
      sliding: seq<Niels>, ghost q: Setting<T>)
    returns (aggregate: bool)
    requires Hash512(hash) && Sound(q) && SecondReady(q.m, sliding, q.us, q.ys, q.b)
    requires offset + count <= |inputs| == valid.Length
    modifies valid
    ensures forall i :: 0 <= i < valid.Length && !(offset <= i < offset + count) ==> valid[i] == old(valid[i])
    ensures forall i :: offset <= i < offset + count ==> (valid[i] <==> Verified(q, hash, inputs[i - offset]))
    ensures aggregate <==> forall i :: offset <= i < offset + count ==> valid[i]
  {
    hide Sound, SecondReady, Verified;
    aggregate := true;
    for i := 0 to count
      invariant forall j :: 0 <= j < valid.Length && !(offset <= j < offset + i) ==> valid[j] == old(valid[j])
      invariant forall j :: offset <= j < offset + i ==> (valid[j] <==> Verified(q, hash, inputs[j - offset]))
      invariant aggregate <==> forall j :: offset <= j < offset + i ==> valid[j]
    {
      var ok := Verify(hash, inputs[i], sliding, q);
      assert inputs[offset + i - offset] == inputs[i];
      valid[offset + i] := ok;
      aggregate := aggregate && ok;
    }
  }

  // ---- the scalars and points of a batch ----

  ghost function ClaimOf<T(!new)>(q: Setting<T>, hash: Hash, x: SignatureInput): Claim<T> {
    Claim(Challenge(hash, x.sig[..32], x.key, x.msg), MB.LE(x.sig[32..]) % M.L, q.dec(x.key), q.dec(x.sig[..32]))
  }

  ghost function Claims<T(!new)>(q: Setting<T>, hash: Hash, xs: seq<SignatureInput>): (cs: seq<Claim<T>>)
    ensures |cs| == |xs| && forall i :: 0 <= i < |xs| ==> cs[i] == ClaimOf(q, hash, xs[i])
  {
    seq(|xs|, i requires 0 <= i < |xs| => ClaimOf(q, hash, xs[i]))
  }

  /** The random bytes as numbers. */
  ghost function Factors(random: seq<Bytes>): (zs: seq<nat>)
    ensures |zs| == |random| && forall i :: 0 <= i < |random| ==> zs[i] == MB.LE(random[i])
  {
    seq(|random|, i requires 0 <= i < |random| => MB.LE(random[i]))
  }

  ghost predicate Random16(random: seq<Bytes>) {
    forall i :: 0 <= i < |random| ==> |random[i]| == 16
  }

  /** Every limb vector is proper and holds the listed value. */
  ghost predicate Hold(limbs: seq<Limbs>, v: seq<nat>) {
    |limbs| == |v| && forall i :: 0 <= i < |v| ==> Proper(limbs[i]) && Value(limbs[i]) == v[i]
  }

  lemma SmallTop(s: Limbs)
    requires Proper(s) && (Value(s) < TWO128 || Value(s) < M.L)
    ensures s[4] < Ed25519.TWO32
  {
  }

  /** One more response in the sum. */
  lemma NextResponse<T>(cs: seq<Claim<T>>, zs: seq<nat>, i: nat)
    requires |cs| == |zs| && i < |cs|
    ensures Responses(cs[..i + 1], zs[..i + 1]) == Responses(cs[..i], zs[..i]) + cs[i].s * zs[i]
    ensures Responses(cs[..i + 1], zs[..i + 1]) % M.L ==
      (Responses(cs[..i], zs[..i]) % M.L + (cs[i].s * zs[i]) % M.L) % M.L
    ensures Responses(cs[..0], zs[..0]) == 0
  {
    assert cs[..i + 1][..i] == cs[..i] && zs[..i + 1][..i] == zs[..i];
    SumMod(Responses(cs[..i], zs[..i]), cs[i].s * zs[i]);
  }

  lemma SumMod(a: nat, b: nat)
    ensures (a + b) % M.L == (a % M.L + b % M.L) % M.L
  {
    var k := a / M.L + b / M.L;
    var r := a % M.L + b % M.L;
    assert a + b == M.L * k + r;
    assert r == M.L * (r / M.L) + r % M.L;
    DivModUnique(a + b, M.L, k + r / M.L, r % M.L);
  }

  /** r[i], and s[i] r[i] modulo the group order */
  method ScaledResponse(x: SignatureInput, random: Bytes) returns (z: Limbs, s: Limbs)
    requires |random| == 16
    ensures Proper(z) && Value(z) == MB.LE(random)
    ensures Proper(s) && Value(s) == ((MB.LE(x.sig[32..]) % M.L) * MB.LE(random)) % M.L
  {
    hide Value, MB.LE;
    z := ExpandScalar(random);
    s := ExpandScalar(x.sig[32..]);
    SmallTop(z);
    SmallTop(s);
    s := MulScalars(s, z);
  }

  /** H(R[i], A[i], m[i]) r[i] modulo the group order */
  method ScaledChallenge(hash: Hash, x: SignatureInput, z: Limbs) returns (h: Limbs)
    requires Hash512(hash) && Proper(z) && Value(z) < TWO128
    ensures Proper(h) && Value(h) == (Challenge(hash, x.sig[..32], x.key, x.msg) * Value(z)) % M.L
  {
    hide Value, MB.LE;
    h := ExpandScalar(hash(x.sig[..32] + x.key + x.msg));
    SmallTop(h);
    SmallTop(z);
    h := MulScalars(h, z);
  }

  /** The random factors, and the sum of the responses times them modulo the group order. */
  method FactorsAndSum<T(!new)>(xs: seq<SignatureInput>, random: seq<Bytes>, scalars: array<Limbs>,
      ghost q: Setting<T>, ghost hash: Hash)
    requires |random| == |xs| > 0 && Random16(random) && scalars.Length == 2 * |xs| + 1
    requires forall i :: 0 <= i < scalars.Length ==> Proper(scalars[i])
    modifies scalars
    ensures var n, cs, zs := |xs|, Claims(q, hash, xs), Factors(random);
      && (forall i :: 0 <= i < scalars.Length ==> Proper(scalars[i]))
      && Value(scalars[0]) == Responses(cs, zs) % M.L
      && forall i :: 0 <= i < n ==> Value(scalars[n + 1 + i]) == zs[i]
  {
    hide Value, MB.LE, Proper, Challenge, Responses;
    ghost var cs, zs := Claims(q, hash, xs), Factors(random);
    var n := |xs|;
    for i := 0 to n
      invariant forall j :: 0 <= j < scalars.Length ==> Proper(scalars[j])
      invariant i > 0 ==> Value(scalars[0]) == Responses(cs[..i], zs[..i]) % M.L
      invariant forall j :: 0 <= j < i ==> Value(scalars[n + 1 + j]) == zs[j]
    {
      var z, s := ScaledResponse(xs[i], random[i]);
      scalars[n + 1 + i] := z;
      scalars[i] := s;
      NextResponse(cs, zs, i);
      if 0 < i {
        ModRange(Responses(cs[..i], zs[..i]));
        ModRange(cs[i].s * zs[i]);
        var sum := AddScalars(scalars[0], scalars[i]);
        scalars[0] := sum;
      } else {
        ModTwice(cs[i].s * zs[i]);
      }
    }
    assert cs[..n] == cs && zs[..n] == zs;
  }

  lemma ModTwice(x: nat)
    ensures (0 + x) % M.L == x % M.L
  {
  }

  /** The challenges times the random factors. */
  method ChallengesTimesFactors<T(!new)>(hash: Hash, xs: seq<SignatureInput>, scalars: array<Limbs>,
      ghost q: Setting<T>, ghost zs: seq<nat>)
    requires Hash512(hash) && |zs| == |xs| && scalars.Length == 2 * |xs| + 1
    requires forall i :: 0 <= i < scalars.Length ==> Proper(scalars[i])
    requires forall i :: 0 <= i < |xs| ==> zs[i] < TWO128
    requires forall i :: 0 <= i < |xs| ==> Value(scalars[|xs| + 1 + i]) == zs[i]
    modifies scalars
    ensures scalars[0] == old(scalars[0])
    ensures var n, cs := |xs|, Claims(q, hash, xs);
      && (forall i :: 0 <= i < scalars.Length ==> Proper(scalars[i]))
      && (forall i :: 0 <= i < n ==> Value(scalars[1 + i]) == (cs[i].h * zs[i]) % M.L)
      && (forall i :: 0 <= i < n ==> Value(scalars[n + 1 + i]) == zs[i])
  {
    hide Value, MB.LE, Proper, Challenge, Hash512;
    ghost var cs := Claims(q, hash, xs);
    var n := |xs|;
    for i := 0 to n
      invariant scalars[0] == old(scalars[0])
      invariant forall j :: 0 <= j < scalars.Length ==> Proper(scalars[j])
      invariant forall j :: 0 <= j < i ==> Value(scalars[1 + j]) == (cs[j].h * zs[j]) % M.L
      invariant forall j :: 0 <= j < n ==> Value(scalars[n + 1 + j]) == zs[j]
    {
      assert Value(scalars[n + 1 + i]) == zs[i];
      var h := ScaledChallenge(hash, xs[i], scalars[n + 1 + i]);
      scalars[i + 1] := h;
    }
  }

  lemma BatchScalarsStart<T>(cs: seq<Claim<T>>, zs: seq<nat>)
    requires |cs| == |zs|
    ensures BatchScalars(cs, zs)[0] == Responses(cs, zs) % M.L
  {
    hide Responses;
  }

  lemma ScalarEntry<T>(cs: seq<Claim<T>>, zs: seq<nat>, i: nat)
    requires |cs| == |zs| && i < |cs|
    ensures BatchScalars(cs, zs)[1 + i] == (cs[i].h * zs[i]) % M.L && BatchScalars(cs, zs)[1 + |cs| + i] == zs[i]
  {
    hide Responses;
  }

  lemma HoldsAt<T>(x: nat, cs: seq<Claim<T>>, zs: seq<nat>, k: nat)
    requires |cs| == |zs| && k < 2 * |cs| + 1
    requires k == 0 ==> x == Responses(cs, zs) % M.L
    requires 0 < k <= |cs| ==> x == (cs[k - 1].h * zs[k - 1]) % M.L
    requires k > |cs| ==> x == zs[k - 1 - |cs|]
    ensures x == BatchScalars(cs, zs)[k]
  {
    hide Responses, BatchScalars;
    if k == 0 {
      BatchScalarsStart(cs, zs);
    } else {
      ScalarEntry(cs, zs, if k <= |cs| then k - 1 else k - 1 - |cs|);
    }
  }

  lemma ScalarsHold<T>(limbs: seq<Limbs>, cs: seq<Claim<T>>, zs: seq<nat>)
    requires |cs| == |zs| && |limbs| == 2 * |cs| + 1 && forall i :: 0 <= i < |limbs| ==> Proper(limbs[i])
    requires Value(limbs[0]) == Responses(cs, zs) % M.L
    requires forall i :: 0 <= i < |cs| ==> Value(limbs[1 + i]) == (cs[i].h * zs[i]) % M.L
    requires forall i :: 0 <= i < |cs| ==> Value(limbs[|cs| + 1 + i]) == zs[i]
    ensures Hold(limbs, BatchScalars(cs, zs))
  {
    hide Value, Proper, Responses, BatchScalars;
    forall k | 0 <= k < |limbs|
      ensures Value(limbs[k]) == BatchScalars(cs, zs)[k]
    {
      assert 0 < k <= |cs| ==> limbs[k] == limbs[1 + (k - 1)];
      assert k > |cs| ==> limbs[k] == limbs[|cs| + 1 + (k - 1 - |cs|)];
      HoldsAt(Value(limbs[k]), cs, zs, k);
    }
  }

  lemma FactorsSmall(random: seq<Bytes>)
    requires Random16(random)
    ensures forall i :: 0 <= i < |random| ==> Factors(random)[i] < TWO128
  {
    hide Pow2, MB.LE;
    Pow2Values();
    forall i | 0 <= i < |random|
      ensures Factors(random)[i] < TWO128
    {
      MB.LEBound(random[i]);
    }
  }

  lemma ZeroIsProper(zero: Limbs)
    requires zero == [0, 0, 0, 0, 0]
    ensures Proper(zero)
  {
  }

  method ComputeScalars<T(!new)>(hash: Hash, xs: seq<SignatureInput>, random: seq<Bytes>, ghost q: Setting<T>)
    returns (scalars: array<Limbs>)
    requires Hash512(hash) && |random| == |xs| > 0 && Random16(random)
    ensures Hold(scalars[..], BatchScalars(Claims(q, hash, xs), Factors(random)))
  {
    hide Value, MB.LE, BatchScalars, Proper, Challenge, Responses;
    var zero: Limbs := [0, 0, 0, 0, 0];
    ZeroIsProper(zero);
    scalars := new Limbs[2 * |xs| + 1](_ => zero);
    FactorsSmall(random);
    FactorsAndSum(xs, random, scalars, q, hash);
    ChallengesTimesFactors(hash, xs, scalars, q, Factors(random));
    ScalarsHold(scalars[..], Claims(q, hash, xs), Factors(random));
  }

  /** All keys and all commitments decode. */
  ghost predicate AllDecode(xs: seq<SignatureInput>) {
    forall i :: 0 <= i < |xs| ==> PB.Decodable(xs[i].key) && PB.Decodable(xs[i].sig[..32])
  }

  /** ge25519_unpack_negative_vartime, seen as group elements */
  method UnpackElement<T(!new)>(p: Bytes, q: Setting<T>) returns (ok: bool, x: T)
    requires |p| == 32
    ensures ok <==> PB.Decodable(p)
    ensures x == q.dec(p)
  {
    var point := new Ge();
    ok := PB.UnpackNegative(point, p);
    x := q.dec(p);
  }

  method ComputePoints<T(!new)>(xs: seq<SignatureInput>, q: Setting<T>, ghost hash: Hash)
    returns (success: bool, points: array<T>)
    ensures points.Length == 2 * |xs| + 1 && (success <==> AllDecode(xs))
    ensures success ==> points[..] == BatchPoints(q.b, Claims(q, hash, xs))
  {
    hide PB.Decodable, MB.LE, Challenge;
    ghost var cs := Claims(q, hash, xs);
    var n := |xs|;
    points := new T[2 * n + 1](_ => q.b);
    success := true;
    for i := 0 to n
      invariant success && points[0] == q.b
      invariant forall j :: 0 <= j < i ==> PB.Decodable(xs[j].key) && PB.Decodable(xs[j].sig[..32])
      invariant forall j :: 0 <= j < i ==> points[j + 1] == cs[j].a && points[n + j + 1] == cs[j].r
    {
      var ok, x := UnpackElement(xs[i].key, q);
      points[i + 1] := x;
      success := success && ok;
      ok, x := UnpackElement(xs[i].sig[..32], q);
      points[n + i + 1] := x;
      success := success && ok;
      if !success {
        return;
      }
    }
    PointsAre(points[..], q.b, cs);
  }

  lemma PointsAre<T>(ps: seq<T>, b: T, cs: seq<Claim<T>>)
    requires |ps| == 2 * |cs| + 1 && ps[0] == b
    requires forall j :: 0 <= j < |cs| ==> ps[j + 1] == cs[j].a && ps[|cs| + j + 1] == cs[j].r
    ensures ps == BatchPoints(b, cs)
  {
    var n := |cs|;
    var keys, rest := seq(n, i requires 0 <= i < n => cs[i].a), seq(n, i requires 0 <= i < n => cs[i].r);
    forall i | 0 <= i < n
      ensures ps[1 + i] == keys[i] && ps[1 + n + i] == rest[i]
    {
      assert ps[i + 1] == cs[i].a && ps[n + i + 1] == cs[i].r;
    }
    Joined(ps, [b], keys, rest);
  }

  // ---- one batch ----

  ghost function ScalarsOf<T(!new)>(q: Setting<T>, hash: Hash, xs: seq<SignatureInput>, random: seq<Bytes>)
      : (v: seq<nat>)
    requires |random| == |xs|
    ensures |v| == 2 * |xs| + 1
  {
    BatchScalars(Claims(q, hash, xs), Factors(random))
  }

  ghost function PointsOf<T(!new)>(q: Setting<T>, hash: Hash, xs: seq<SignatureInput>): (ps: seq<T>)
    ensures |ps| == 2 * |xs| + 1
  {
    BatchPoints(q.b, Claims(q, hash, xs))
  }

  /** The multi-scalar multiplication of the batch can leave s and p. */
  ghost predicate Leaves<T(!new)>(q: Setting<T>, hash: Hash, xs: seq<SignatureInput>, random: seq<Bytes>, s: nat, p: T)
    requires |random| == |xs| >= 4
  {
    var v := ScalarsOf(q, hash, xs, random);
    BH.Remains(q.m.g, v, PointsOf(q, hash, xs), MF.Reach(v, 2 * |xs| + 1), s, p)
  }

  /** Everything decodes, and the multi-scalar multiplication returns the neutral element. */
  ghost predicate Passes<T(!new)>(q: Setting<T>, hash: Hash, xs: seq<SignatureInput>, random: seq<Bytes>)
    requires |random| == |xs| >= 4
  {
    && AllDecode(xs)
    && exists s: nat, p :: Leaves(q, hash, xs, random, s, p) && !MF.Outside(s) &&
        AG.Mul(q.m.g, s + MF.Excess(s), p) == q.m.g.zero
  }

  /** Everything decodes, and the multi-scalar multiplication reads out of bounds. */
  ghost predicate Crashes<T(!new)>(q: Setting<T>, hash: Hash, xs: seq<SignatureInput>, random: seq<Bytes>)
    requires |random| == |xs| >= 4
  {
    AllDecode(xs) && exists s: nat, p :: Leaves(q, hash, xs, random, s, p) && MF.Outside(s)
  }

  /** Whatever s and p a run leaves, the verdict on them is the same. */
  lemma OneVerdict<T(!new)>(q: Setting<T>, hash: Hash, xs: seq<SignatureInput>, random: seq<Bytes>, s: nat, p: T)
    requires |random| == |xs| >= 4 && AllDecode(xs) && Leaves(q, hash, xs, random, s, p)
    ensures Crashes(q, hash, xs, random) <==> MF.Outside(s)
    ensures Passes(q, hash, xs, random) <==>
        !MF.Outside(s) && AG.Mul(q.m.g, s + MF.Excess(s), p) == q.m.g.zero
  {
    hide AllDecode, BH.GreatestDivisor, BH.Combination, ScalarsOf, PointsOf, AG.Mul;
    var v := ScalarsOf(q, hash, xs, random);
    forall s': nat, p' | Leaves(q, hash, xs, random, s', p')
      ensures s' == s && AG.Mul(q.m.g, s' + MF.Excess(s'), p') == AG.Mul(q.m.g, s + MF.Excess(s), p)
    {
      MF.DivisorUnique(v, MF.Reach(v, 2 * |xs| + 1), s, s');
      if s == 0 {
        MulNone(q.m.g, p);
        MulNone(q.m.g, p');
      }
    }
  }

  lemma CommitmentScalarsSmall<T(!new)>(q: Setting<T>, hash: Hash, xs: seq<SignatureInput>, random: seq<Bytes>)
    requires |random| == |xs| >= 4 && Random16(random)
    ensures var v, count := ScalarsOf(q, hash, xs, random), 2 * |xs| + 1;
      forall i :: BH.FirstHalf(count) <= i < count ==> v[i] < TWO128
  {
    hide BatchScalars;
    FactorsSmall(random);
    var v, n, cs, zs := ScalarsOf(q, hash, xs, random), |xs|, Claims(q, hash, xs), Factors(random);
    forall i | BH.FirstHalf(2 * n + 1) <= i < 2 * n + 1
      ensures v[i] < TWO128
    {
      ScalarEntry(cs, zs, i - 1 - n);
    }
  }

  lemma LeavesIs<T(!new)>(q: Setting<T>, hash: Hash, xs: seq<SignatureInput>, random: seq<Bytes>, v: seq<nat>,
      ps: seq<T>, s: nat, p: T)
    requires |random| == |xs| >= 4
    requires v == BatchScalars(Claims(q, hash, xs), Factors(random)) && ps == BatchPoints(q.b, Claims(q, hash, xs))
    requires BH.Remains(q.m.g, v, ps, MF.Reach(v, 2 * |xs| + 1), s, p)
    ensures Leaves(q, hash, xs, random, s, p)
  {
    hide BatchScalars, BatchPoints, BH.Remains, MF.Reach;
  }

  lemma HeapHolds<T(!new)>(h: BH.Heap<T>, v: seq<nat>)
    requires h.Shape() && Hold(h.scalars[..], v)
    ensures h.v == v
  {
    hide Value, Proper;
    forall i | 0 <= i < |v|
      ensures h.v[i] == v[i]
    {
      assert h.Row(i);
      assert h.scalars[..][i] == h.scalars[i];
    }
  }

  /** The multi-scalar multiplication on the batch. */
  method RunSum<T(!new)>(hash: Hash, xs: seq<SignatureInput>, random: seq<Bytes>, scalars: seq<Limbs>, points: seq<T>,
      q: Setting<T>) returns (sum: MF.Outcome<T>, ghost s: nat, ghost p: T)
    requires AG.Abelian(q.m.g) && |random| == |xs| >= 4 && Random16(random)
    requires Hold(scalars, BatchScalars(Claims(q, hash, xs), Factors(random)))
    requires points == BatchPoints(q.b, Claims(q, hash, xs))
    ensures Leaves(q, hash, xs, random, s, p)
    ensures sum.OutOfBounds? <==> MF.Outside(s)
    ensures sum.Returned? ==> sum.value == AG.Mul(q.m.g, s + MF.Excess(s), p)
  {
    hide Value, Proper, BH.Stuck, BH.Remains, BH.Combination, BatchScalars, BatchPoints, AG.Mul, AG.Abelian, Leaves,
        MF.Excess, MF.Outside, MF.Reach;
    var batch := new BH.Heap<T>(q.m.g, points, scalars);
    HeapHolds(batch, BatchScalars(Claims(q, hash, xs), Factors(random)));
    CommitmentScalarsSmall(q, hash, xs, random);
    ghost var v := batch.v;
    assert v == ScalarsOf(q, hash, xs, random);
    sum, s, p := MF.MultiScalarmult(batch, |xs| * 2 + 1);
    LeavesIs(q, hash, xs, random, v, points, s, p);
  }

  /** One round of VerifyBatches, up to its fallback. */
  method RunBatch<T(==, !new)>(hash: Hash, xs: seq<SignatureInput>, random: seq<Bytes>, q: Setting<T>)
    returns (r: MF.Outcome<bool>)
    requires Hash512(hash) && Sound(q) && |random| == |xs| && 4 <= |xs| <= MAX_BATCH_SIZE && Random16(random)
    ensures r.OutOfBounds? <==> Crashes(q, hash, xs, random)
    ensures r.Returned? ==> (r.value <==> Passes(q, hash, xs, random))
  {
    hide Sound, AllDecode, BatchScalars, BatchPoints, AG.Mul, Leaves, MF.Excess, MF.Outside, Hold;
    var scalars := ComputeScalars(hash, xs, random, q);
    var success, points := ComputePoints(xs, q, hash);
    if !success {
      return MF.Returned(false);
    }
    SoundFaithful(q);
    var sum;
    ghost var s, p;
    sum, s, p := RunSum(hash, xs, random, scalars[..], points[..], q);
    OneVerdict(q, hash, xs, random, s, p);
    r := match sum
      case OutOfBounds => MF.OutOfBounds
      case Returned(x) => MF.Returned(x == q.m.g.zero);
  }

  // ---- when a batch passes ----

  /** The bases of the batch's factors are annihilated by the group order. */
  ghost predicate InSubgroup<T(!new)>(q: Setting<T>, x: SignatureInput) {
    Killed(q.m.g, q.dec(x.key)) && Killed(q.m.g, q.dec(x.sig[..32]))
  }

  /** The loop on the batch's scalars reaches all of them. */
  ghost predicate Unstuck<T(!new)>(q: Setting<T>, hash: Hash, xs: seq<SignatureInput>, random: seq<Bytes>)
    requires |random| == |xs| >= 4
  {
    !BH.Stuck(ScalarsOf(q, hash, xs, random), BH.FirstHalf(2 * |xs| + 1))
  }

  lemma PointsKilled<T(!new)>(g: AG.Group<T>, b: T, cs: seq<Claim<T>>)
    requires Killed(g, b) && forall i :: 0 <= i < |cs| ==> Killed(g, cs[i].a) && Killed(g, cs[i].r)
    ensures forall k :: 0 <= k < 2 * |cs| + 1 ==> Killed(g, BatchPoints(b, cs)[k])
  {
    hide Killed, BatchPoints;
    forall k | 0 <= k < 2 * |cs| + 1
      ensures Killed(g, BatchPoints(b, cs)[k])
    {
      if k > 0 {
        Entries(b, cs, seq(|cs|, i => 0), if k <= |cs| then k - 1 else k - 1 - |cs|);
      } else {
        FirstEntry(b, cs, seq(|cs|, i => 0));
      }
    }
  }

  /**
   A batch of points of prime order whose scalars the loop reaches passes if and only if the random combination of
   the errors of its signatures is neutral.
   */
  lemma PassesIff<T(!new)>(q: Setting<T>, hash: Hash, xs: seq<SignatureInput>, random: seq<Bytes>)
    requires Sound(q) && PrimeOrder() && |random| == |xs| >= 4 && AllDecode(xs) && Unstuck(q, hash, xs, random)
    requires forall i :: 0 <= i < |xs| ==> InSubgroup(q, xs[i])
    ensures !Crashes(q, hash, xs, random)
    ensures Passes(q, hash, xs, random) <==>
        Weighted(q.m.g, q.b, Claims(q, hash, xs), Factors(random)) == q.m.g.zero
  {
    hide Sound, PrimeOrder, AllDecode, Killed, BH.Stuck, BH.Remains, BH.Combination, BatchScalars, BatchPoints, AG.Mul,
        Weighted, Crashes, Passes, MF.Excess, MF.Outside;
    SoundFaithful(q);
    var g, cs, zs, count := q.m.g, Claims(q, hash, xs), Factors(random), 2 * |xs| + 1;
    var v, ps := ScalarsOf(q, hash, xs, random), PointsOf(q, hash, xs);
    assert Killed(g, q.b) by { KilledIs(g, q.b); }
    PointsKilled(g, q.b, cs);
    var s, p := RemainsExists(g, v, ps, count);
    NeutralIff(g, v, ps, count, s, p);
    SumOfErrors(g, q.b, cs, zs);
    OneVerdict(q, hash, xs, random, s, p);
  }

  lemma KilledIs<T(!new)>(g: AG.Group<T>, x: T)
    ensures Killed(g, x) <==> AG.Mul(g, M.L, x) == g.zero
  {
    hide AG.Mul;
  }

  /** A valid signature decodes, has no error, and its commitment is in the subgroup of its key. */
  lemma ValidClaim<T(!new)>(q: Setting<T>, hash: Hash, x: SignatureInput)
    requires Sound(q) && Verified(q, hash, x) && Killed(q.m.g, q.dec(x.key))
    ensures PB.Decodable(x.key) && PB.Decodable(x.sig[..32]) && InSubgroup(q, x)
    ensures Error(q.m.g, q.b, ClaimOf(q, hash, x)) == q.m.g.zero
  {
    hide Sound, AG.Mul, Killed, MB.LE, PB.Decodable, Challenge, Usable, AG.Abelian;
    SoundFaithful(q);
    var g, c := q.m.g, ClaimOf(q, hash, x);
    var u, w := AG.Mul(g, c.h, c.a), AG.Mul(g, c.s, q.b);
    EncodingLength(q, g.add(u, w));
    KilledIs(g, q.b);
    KilledMul(g, c.h, c.a);
    KilledMul(g, c.s, q.b);
    KilledAdd(g, u, w);
    KilledNeg(g, g.add(u, w));
    AG.Swap(g, u, w);
    Opposite(g, g.add(u, w));
  }

  lemma Opposite<T(!new)>(g: AG.Group<T>, x: T)
    requires AG.Abelian(g)
    ensures g.add(x, g.neg(x)) == g.zero
  {
    assert AG.Cancels(g, x);
  }

  /** Valid signatures under keys of prime order pass as a batch. */
  lemma ValidBatchPasses<T(!new)>(q: Setting<T>, hash: Hash, xs: seq<SignatureInput>, random: seq<Bytes>)
    requires Sound(q) && PrimeOrder() && |random| == |xs| >= 4 && Unstuck(q, hash, xs, random)
    requires forall i :: 0 <= i < |xs| ==> Verified(q, hash, xs[i]) && Killed(q.m.g, q.dec(xs[i].key))
    ensures Passes(q, hash, xs, random) && !Crashes(q, hash, xs, random)
  {
    hide Sound, PrimeOrder, Killed, Unstuck, Verified, Passes, Crashes, Error, InSubgroup, Weighted, PB.Decodable;
    forall i | 0 <= i < |xs|
      ensures PB.Decodable(xs[i].key) && PB.Decodable(xs[i].sig[..32]) && InSubgroup(q, xs[i])
      ensures Error(q.m.g, q.b, Claims(q, hash, xs)[i]) == q.m.g.zero
    {
      ValidClaim(q, hash, xs[i]);
    }
    SoundFaithful(q);
    PassesIff(q, hash, xs, random);
    NoErrors(q.m.g, q.b, Claims(q, hash, xs), Factors(random));
  }

  /** If one signature does not satisfy its equation, at most one value of its random factor lets the batch pass. */
  lemma ErrorRarelyPasses<T(!new)>(q: Setting<T>, hash: Hash, xs: seq<SignatureInput>, random: seq<Bytes>, j: nat,
      other: Bytes)
    requires Sound(q) && PrimeOrder() && |random| == |xs| >= 4 && j < |xs| && AllDecode(xs)
    requires Random16(random) && |other| == 16
    requires forall i :: 0 <= i < |xs| ==> InSubgroup(q, xs[i])
    requires Error(q.m.g, q.b, ClaimOf(q, hash, xs[j])) != q.m.g.zero
    requires Unstuck(q, hash, xs, random) && Unstuck(q, hash, xs, random[j := other])
    requires Passes(q, hash, xs, random) && Passes(q, hash, xs, random[j := other])
    ensures other == random[j]
  {
    hide Sound, PrimeOrder, Killed, Unstuck, AllDecode, Passes, Crashes, Error, Weighted, MB.LE, ClaimOf;
    SoundFaithful(q);
    var g, cs, zs := q.m.g, Claims(q, hash, xs), Factors(random);
    PassesIff(q, hash, xs, random);
    PassesIff(q, hash, xs, random[j := other]);
    assert Factors(random[j := other]) == zs[j := MB.LE(other)];
    FactorsSmall(random);
    FactorsSmall([other]);
    assert Factors([other])[0] == MB.LE(other);
    KilledIs(g, q.b);
    ClaimKilled(q, hash, xs[j]);
    KilledError(g, q.b, cs[j]);
    OneFactorPasses(g, q.b, cs, zs, j, MB.LE(other));
    FY.LEInjective(other, random[j]);
  }

  lemma ClaimKilled<T(!new)>(q: Setting<T>, hash: Hash, x: SignatureInput)
    requires InSubgroup(q, x)
    ensures Killed(q.m.g, ClaimOf(q, hash, x).a) && Killed(q.m.g, ClaimOf(q, hash, x).r)
  {
    hide Killed, Challenge;
  }

  // ---- many signatures ----

  function BatchSize(count: nat): nat {
    if count > MAX_BATCH_SIZE then MAX_BATCH_SIZE else count
  }

  /** Where the batch of the i-th input starts. */
  function Start(i: nat): (start: nat)
    ensures start <= i
  {
    i / MAX_BATCH_SIZE * MAX_BATCH_SIZE
  }

  /** The batch from `start` on. */
  function Slice<A>(xs: seq<A>, start: nat): (batch: seq<A>)
    requires start <= |xs|
    ensures |batch| == BatchSize(|xs| - start)
  {
    xs[start..start + BatchSize(|xs| - start)]
  }

  /** The i-th of n inputs is verified in a batch; at most three at the end are not. */
  predicate InBatch(n: nat, i: nat)
    requires i < n
  {
    n - Start(i) > 3
  }

  lemma StartIs(offset: nat, i: nat)
    requires offset % MAX_BATCH_SIZE == 0 && offset <= i < offset + MAX_BATCH_SIZE
    ensures Start(i) == offset
  {
    DivModUnique(i, MAX_BATCH_SIZE, offset / MAX_BATCH_SIZE, i - offset);
  }

  ghost predicate BatchPasses<T(!new)>(q: Setting<T>, hash: Hash, inputs: seq<SignatureInput>, random: seq<Bytes>,
      i: nat)
    requires |random| == |inputs| && i < |inputs| && InBatch(|inputs|, i)
  {
    Passes(q, hash, Slice(inputs, Start(i)), Slice(random, Start(i)))
  }

  ghost predicate BatchCrashes<T(!new)>(q: Setting<T>, hash: Hash, inputs: seq<SignatureInput>, random: seq<Bytes>,
      i: nat)
    requires |random| == |inputs| && i < |inputs| && InBatch(|inputs|, i)
  {
    Crashes(q, hash, Slice(inputs, Start(i)), Slice(random, Start(i)))
  }

  /** The input that is verified by itself for the i-th verdict: with the same place in the first batch. */
  function Looked(inputs: seq<SignatureInput>, i: nat): SignatureInput
    requires i < |inputs|
  {
    inputs[i - Start(i)]
  }

  /** The i-th verdict: usable in a batch that passes, or else what verifying a single input says. */
  ghost predicate Verdict<T(!new)>(q: Setting<T>, hash: Hash, inputs: seq<SignatureInput>, random: seq<Bytes>, i: nat)
    requires |random| == |inputs| && i < |inputs|
  {
    if InBatch(|inputs|, i) && BatchPasses(q, hash, inputs, random, i) then Usable(inputs[i])
    else Verified(q, hash, Looked(inputs, i))
  }

  /** The verdict when all batches have to pass. */
  ghost predicate StrictVerdict<T(!new)>(q: Setting<T>, hash: Hash, inputs: seq<SignatureInput>, random: seq<Bytes>,
      i: nat)
    requires |random| == |inputs| && i < |inputs|
  {
    Usable(inputs[i]) &&
    if InBatch(|inputs|, i) then BatchPasses(q, hash, inputs, random, i) else Verified(q, hash, Looked(inputs, i))
  }

  /** What to do with a batch that does not pass. */
  datatype Fallback = VerifyEach | GiveUp

  /** Some batch reads out of bounds. */
  ghost predicate AnyCrash<T(!new)>(q: Setting<T>, hash: Hash, inputs: seq<SignatureInput>, random: seq<Bytes>)
    requires |random| == |inputs|
  {
    exists i :: 0 <= i < |inputs| && InBatch(|inputs|, i) && BatchCrashes(q, hash, inputs, random, i)
  }

  /** The verdicts on one more batch. */
  lemma BatchVerdicts<T(!new)>(q: Setting<T>, hash: Hash, inputs: seq<SignatureInput>, random: seq<Bytes>,
      offset: nat, i: nat)
    requires |random| == |inputs| && offset + 3 < |inputs| && offset % MAX_BATCH_SIZE == 0
    requires offset <= i < offset + BatchSize(|inputs| - offset)
    ensures i < |inputs| && InBatch(|inputs|, i)
    ensures BatchPasses(q, hash, inputs, random, i) <==> Passes(q, hash, Slice(inputs, offset), Slice(random, offset))
    ensures BatchCrashes(q, hash, inputs, random, i) <==> Crashes(q, hash, Slice(inputs, offset), Slice(random, offset))
    ensures Verdict(q, hash, inputs, random, i) <==>
      if Passes(q, hash, Slice(inputs, offset), Slice(random, offset)) then Usable(inputs[i])
      else Verified(q, hash, inputs[i - offset])
    ensures StrictVerdict(q, hash, inputs, random, i) <==>
      Usable(inputs[i]) && Passes(q, hash, Slice(inputs, offset), Slice(random, offset))
  {
    hide Passes, Crashes, Usable, Verified, Slice;
    StartIs(offset, i);
  }

  lemma TailVerdict<T(!new)>(q: Setting<T>, hash: Hash, inputs: seq<SignatureInput>, random: seq<Bytes>, offset: nat,
      i: nat)
    requires |random| == |inputs| <= offset + 3 && offset % MAX_BATCH_SIZE == 0 && offset <= i < |inputs|
    ensures !InBatch(|inputs|, i)
    ensures Verdict(q, hash, inputs, random, i) <==> Verified(q, hash, inputs[i - offset])
    ensures StrictVerdict(q, hash, inputs, random, i) <==>
      Usable(inputs[i]) && Verified(q, hash, inputs[i - offset])
  {
    hide Passes, Crashes, Usable, Verified;
    StartIs(offset, i);
  }

  lemma VerifiedIsUsable<T(!new)>(q: Setting<T>, hash: Hash, x: SignatureInput)
    ensures Verified(q, hash, x) ==> Usable(x)
  {
  }

  ghost predicate AllUsable(inputs: seq<SignatureInput>) {
    forall i :: 0 <= i < |inputs| ==> Usable(inputs[i])
  }

  /** What holds after the batches before offset. */
  ghost predicate Done<T(!new)>(q: Setting<T>, hash: Hash, inputs: seq<SignatureInput>, random: seq<Bytes>,
      fallback: Fallback, valid: seq<bool>, aggregate: bool, offset: nat)
    requires |random| == |inputs| == |valid| && offset <= |inputs|
  {
    && (offset % MAX_BATCH_SIZE == 0 || offset == |inputs|)
    && (forall i :: 0 <= i < offset ==> InBatch(|inputs|, i) && !BatchCrashes(q, hash, inputs, random, i))
    && (forall i :: 0 <= i < offset ==> (valid[i] <==> Verdict(q, hash, inputs, random, i)))
    && (forall i :: offset <= i < |inputs| ==> (valid[i] <==> Usable(inputs[i])))
    && (fallback == GiveUp ==> forall i :: 0 <= i < offset ==> BatchPasses(q, hash, inputs, random, i))
    && (aggregate <==> AllUsable(inputs) && forall i :: 0 <= i < offset ==> valid[i])
  }

  lemma OffsetAligned<T(!new)>(q: Setting<T>, hash: Hash, inputs: seq<SignatureInput>, random: seq<Bytes>,
      fallback: Fallback, valid: seq<bool>, aggregate: bool, offset: nat)
    requires |random| == |inputs| == |valid| && offset <= |inputs|
    requires Done(q, hash, inputs, random, fallback, valid, aggregate, offset)
    ensures offset % MAX_BATCH_SIZE == 0 || offset == |inputs|
  {
    hide Verdict, BatchPasses, BatchCrashes, InBatch, Usable;
  }

  lemma SliceRandom(random: seq<Bytes>, start: nat)
    requires Random16(random) && start <= |random|
    ensures Random16(Slice(random, start))
  {
  }

  /** What one round changes: nothing when the batch passes, the verdicts of the batch otherwise. */
  ghost predicate Round<T(!new)>(q: Setting<T>, hash: Hash, inputs: seq<SignatureInput>, was: seq<bool>,
      before: bool, valid: seq<bool>, aggregate: bool, offset: nat, end: nat, passes: bool)
    requires |inputs| == |was| == |valid| && offset <= end <= |inputs|
  {
    if passes then valid == was && aggregate == before else
      && (forall i :: 0 <= i < |inputs| && !(offset <= i < end) ==> valid[i] == was[i])
      && (forall i :: offset <= i < end ==> (valid[i] <==> Verified(q, hash, inputs[i - offset])))
      && (aggregate <==> before && forall i :: offset <= i < end ==> valid[i])
  }

  lemma RoundIs<T(!new)>(q: Setting<T>, hash: Hash, inputs: seq<SignatureInput>, was: seq<bool>, before: bool,
      valid: seq<bool>, all: bool, offset: nat, end: nat)
    requires |inputs| == |was| == |valid| && offset <= end <= |inputs|
    requires forall i :: 0 <= i < |inputs| && !(offset <= i < end) ==> valid[i] == was[i]
    requires forall i :: offset <= i < end ==> (valid[i] <==> Verified(q, hash, inputs[i - offset]))
    requires all <==> forall i :: offset <= i < end ==> valid[i]
    ensures Round(q, hash, inputs, was, before, valid, before && all, offset, end, false)
  {
    hide Verified;
  }

  /** The aggregate stays the conjunction of all verdicts so far and of the first check. */
  lemma StillAll<T(!new)>(q: Setting<T>, hash: Hash, inputs: seq<SignatureInput>, was: seq<bool>, before: bool,
      valid: seq<bool>, aggregate: bool, offset: nat, end: nat, passes: bool)
    requires |inputs| == |was| == |valid| && offset <= end <= |inputs|
    requires Round(q, hash, inputs, was, before, valid, aggregate, offset, end, passes)
    requires forall i :: offset <= i < end ==> (was[i] <==> Usable(inputs[i]))
    requires before <==> AllUsable(inputs) && forall i :: 0 <= i < offset ==> was[i]
    ensures aggregate <==> AllUsable(inputs) && forall i :: 0 <= i < end ==> valid[i]
  {
    hide Verified, Usable;
    if passes {
      forall i | offset <= i < end && AllUsable(inputs)
        ensures was[i]
      {
      }
    } else {
      forall i | 0 <= i < offset
        ensures valid[i] == was[i]
      {
      }
    }
  }

  lemma DoneNext<T(!new)>(q: Setting<T>, hash: Hash, inputs: seq<SignatureInput>, random: seq<Bytes>,
      fallback: Fallback, was: seq<bool>, before: bool, valid: seq<bool>, aggregate: bool, offset: nat)
    requires |random| == |inputs| == |was| == |valid| && offset + 3 < |inputs|
    requires Done(q, hash, inputs, random, fallback, was, before, offset)
    requires var end, xs, zs := offset + BatchSize(|inputs| - offset), Slice(inputs, offset), Slice(random, offset);
      && Round(q, hash, inputs, was, before, valid, aggregate, offset, end, Passes(q, hash, xs, zs))
      && !Crashes(q, hash, xs, zs) && (fallback == GiveUp ==> Passes(q, hash, xs, zs))
    ensures Done(q, hash, inputs, random, fallback, valid, aggregate, offset + BatchSize(|inputs| - offset))
  {
    hide Verified, Usable, Passes, Crashes, Verdict, StrictVerdict, BatchPasses, BatchCrashes, InBatch, Slice,
        AllUsable;
    var end := offset + BatchSize(|inputs| - offset);
    var passes := Passes(q, hash, Slice(inputs, offset), Slice(random, offset));
    StillAll(q, hash, inputs, was, before, valid, aggregate, offset, end, passes);
    forall i | offset <= i < end
      ensures InBatch(|inputs|, i) && !BatchCrashes(q, hash, inputs, random, i)
      ensures valid[i] <==> Verdict(q, hash, inputs, random, i)
      ensures fallback == GiveUp ==> BatchPasses(q, hash, inputs, random, i)
    {
      BatchVerdicts(q, hash, inputs, random, offset, i);
    }
  }

  lemma DoneTail<T(!new)>(q: Setting<T>, hash: Hash, inputs: seq<SignatureInput>, random: seq<Bytes>,
      fallback: Fallback, was: seq<bool>, before: bool, valid: seq<bool>, aggregate: bool, offset: nat)
    requires |random| == |inputs| == |was| == |valid| && offset <= |inputs| <= offset + 3
    requires Done(q, hash, inputs, random, fallback, was, before, offset)
    requires Round(q, hash, inputs, was, before, valid, aggregate, offset, |inputs|, false)
    ensures !AnyCrash(q, hash, inputs, random)
    ensures forall i :: 0 <= i < |inputs| ==> (valid[i] <==> Verdict(q, hash, inputs, random, i))
    ensures aggregate <==> AllUsable(inputs) && forall i :: 0 <= i < |inputs| ==> valid[i]
    ensures fallback == GiveUp && AllUsable(inputs) ==> forall i :: 0 <= i < |inputs| ==>
        (StrictVerdict(q, hash, inputs, random, i) <==> valid[i])
  {
    hide Verified, Usable, Passes, Crashes, Verdict, StrictVerdict, BatchPasses, BatchCrashes, InBatch, Slice;
    StillAll(q, hash, inputs, was, before, valid, aggregate, offset, |inputs|, false);
    forall i | offset <= i < |inputs|
      ensures !InBatch(|inputs|, i)
      ensures valid[i] <==> Verdict(q, hash, inputs, random, i)
      ensures Usable(inputs[i]) ==> (StrictVerdict(q, hash, inputs, random, i) <==> valid[i])
    {
      TailVerdict(q, hash, inputs, random, offset, i);
    }
    if fallback == GiveUp {
      forall i | 0 <= i < offset
        ensures StrictVerdict(q, hash, inputs, random, i) <==> valid[i]
      {
        PassingVerdicts(q, hash, inputs, random, i);
      }
    }
  }

  lemma PassingVerdicts<T(!new)>(q: Setting<T>, hash: Hash, inputs: seq<SignatureInput>, random: seq<Bytes>, i: nat)
    requires |random| == |inputs| && i < |inputs| && InBatch(|inputs|, i) && BatchPasses(q, hash, inputs, random, i)
    ensures Verdict(q, hash, inputs, random, i) <==> StrictVerdict(q, hash, inputs, random, i)
  {
    hide Verified, Usable, BatchPasses, InBatch;
  }

  lemma DoneStart<T(!new)>(q: Setting<T>, hash: Hash, inputs: seq<SignatureInput>, random: seq<Bytes>,
      fallback: Fallback, valid: seq<bool>, aggregate: bool)
    requires |random| == |inputs| == |valid| && Done(q, hash, inputs, random, fallback, valid, aggregate, 0)
    ensures aggregate <==> AllUsable(inputs)
  {
    hide Verdict, BatchPasses, BatchCrashes, InBatch, Usable;
  }

  lemma AllStrict<T(!new)>(q: Setting<T>, hash: Hash, inputs: seq<SignatureInput>, random: seq<Bytes>,
      valid: seq<bool>)
    requires |random| == |inputs| == |valid|
    requires forall i :: 0 <= i < |inputs| ==> (StrictVerdict(q, hash, inputs, random, i) <==> valid[i])
    ensures (forall i :: 0 <= i < |inputs| ==> StrictVerdict(q, hash, inputs, random, i)) <==>
      forall i :: 0 <= i < |inputs| ==> valid[i]
  {
    hide StrictVerdict;
    if forall i :: 0 <= i < |inputs| ==> valid[i] {
      forall i | 0 <= i < |inputs|
        ensures StrictVerdict(q, hash, inputs, random, i)
      {
        assert valid[i];
      }
    }
  }

  method VerifyBatches<T(==, !new)>(hash: Hash, inputs: seq<SignatureInput>, random: seq<Bytes>, valid: array<bool>,
      aggregateBefore: bool, fallback: Fallback, sliding: seq<Niels>, q: Setting<T>)
    returns (r: MF.Outcome<bool>)
    requires Hash512(hash) && Sound(q) && SecondReady(q.m, sliding, q.us, q.ys, q.b)
    requires |random| == |inputs| == valid.Length && Random16(random)
    requires Done(q, hash, inputs, random, fallback, valid[..], aggregateBefore, 0)
    modifies valid
    ensures r.OutOfBounds? ==> AnyCrash(q, hash, inputs, random)
    ensures fallback == VerifyEach && AnyCrash(q, hash, inputs, random) ==> r.OutOfBounds?
    ensures fallback == VerifyEach && r.Returned? ==>
      && (forall i :: 0 <= i < |inputs| ==> (valid[i] <==> Verdict(q, hash, inputs, random, i)))
      && (r.value <==> AllUsable(inputs) && forall i :: 0 <= i < |inputs| ==> valid[i])
    ensures fallback == GiveUp && r.Returned? && aggregateBefore ==>
      (r.value <==> forall i :: 0 <= i < |inputs| ==> StrictVerdict(q, hash, inputs, random, i))
  {
    hide Sound, SecondReady, Verified, Usable, Passes, Crashes, Verdict, StrictVerdict, BatchPasses, BatchCrashes,
        InBatch, Done, Slice, AllUsable;
    DoneStart(q, hash, inputs, random, fallback, valid[..], aggregateBefore);
    var aggregate := aggregateBefore;
    var count: nat, offset: nat := |inputs|, 0;
    while count > 3
      invariant count + offset == |inputs|
      invariant Done(q, hash, inputs, random, fallback, valid[..], aggregate, offset)
      invariant fallback == GiveUp && aggregateBefore ==> aggregate
    {
      var batchSize := BatchSize(count);
      var xs, zs := Slice(inputs, offset), Slice(random, offset);
      OffsetAligned(q, hash, inputs, random, fallback, valid[..], aggregate, offset);
      SliceRandom(random, offset);
      var result := RunBatch(hash, xs, zs, q);
      BatchVerdicts(q, hash, inputs, random, offset, offset);
      if result.OutOfBounds? {
        return MF.OutOfBounds;
      }
      ghost var was, before := valid[..], aggregate;
      if !result.value {
        if fallback == GiveUp {
          return MF.Returned(false);
        }
        var all := VerifySingle(hash, inputs, offset, batchSize, valid, sliding, q);
        RoundIs(q, hash, inputs, was, before, valid[..], all, offset, offset + batchSize);
        aggregate := aggregate && all;
      }
      DoneNext(q, hash, inputs, random, fallback, was, before, valid[..], aggregate, offset);
      count := count - batchSize;
      offset := offset + batchSize;
    }
    ghost var was := valid[..];
    var all := VerifySingle(hash, inputs, offset, count, valid, sliding, q);
    RoundIs(q, hash, inputs, was, aggregate, valid[..], all, offset, |inputs|);
    DoneTail(q, hash, inputs, random, fallback, was, aggregate, valid[..], aggregate && all, offset);
    if fallback == GiveUp && aggregateBefore {
      AllStrict(q, hash, inputs, random, valid[..]);
    }
    r := MF.Returned(aggregate && all);
  }

  // ---- which lists the verdicts are right for ----

  /** What the i-th verdict is meant to be: about the i-th input. */
  ghost predicate MeantVerdict<T(!new)>(q: Setting<T>, hash: Hash, inputs: seq<SignatureInput>, random: seq<Bytes>,
      i: nat)
    requires |random| == |inputs| && i < |inputs|
  {
    if InBatch(|inputs|, i) && BatchPasses(q, hash, inputs, random, i) then Usable(inputs[i])
    else Verified(q, hash, inputs[i])
  }

  ghost predicate Right<T(!new)>(q: Setting<T>, hash: Hash, inputs: seq<SignatureInput>, random: seq<Bytes>)
    requires |random| == |inputs|
  {
    forall i :: 0 <= i < |inputs| ==>
      (Verdict(q, hash, inputs, random, i) <==> MeantVerdict(q, hash, inputs, random, i))
  }

  /** All verdicts are right, for every list of n inputs and all random factors. */
  ghost predicate RightFor<T(!new)>(q: Setting<T>, hash: Hash, n: nat) {
    forall inputs: seq<SignatureInput>, random: seq<Bytes> ::
      |inputs| == n && |random| == n && Random16(random) ==> Right(q, hash, inputs, random)
  }

  /** n - 1 times x, then y. */
  function LastDiffers(x: SignatureInput, y: SignatureInput, n: nat): (inputs: seq<SignatureInput>)
    requires n > 0
    ensures |inputs| == n
  {
    seq(n - 1, i => x) + [y]
  }

  lemma LastIsY(x: SignatureInput, y: SignatureInput, n: nat)
    requires n > 0
    ensures forall i :: 0 <= i < n ==> LastDiffers(x, y, n)[i] == if i == n - 1 then y else x
  {
  }

  lemma LookedIsFirst(x: SignatureInput, y: SignatureInput, n: nat, i: nat)
    requires n > MAX_BATCH_SIZE && i < n
    ensures Looked(LastDiffers(x, y, n), i) == x
  {
    hide LastDiffers;
    LastIsY(x, y, n);
    StartIs(i / MAX_BATCH_SIZE * MAX_BATCH_SIZE, i);
    assert i - Start(i) < n - 1;
  }

  lemma LastInBatch<A>(xs: seq<A>)
    requires |xs| > 0
    ensures |Slice(xs, Start(|xs| - 1))| > 0
    ensures Slice(xs, Start(|xs| - 1))[|Slice(xs, Start(|xs| - 1))| - 1] == xs[|xs| - 1]
  {
    assert |xs| - Start(|xs| - 1) <= MAX_BATCH_SIZE;
  }

  lemma UndecodableFails<T(!new)>(q: Setting<T>, hash: Hash, xs: seq<SignatureInput>, random: seq<Bytes>, i: nat)
    requires |random| == |xs| >= 4 && i < |xs| && !PB.Decodable(xs[i].key)
    ensures !Passes(q, hash, xs, random)
  {
    hide PB.Decodable;
  }

  /**
   With more than 64 inputs, the last of them is never verified by itself: a valid x repeated and an invalid y at the
   end, whose key does not decode, give nothing but positive verdicts.
   */
  lemma LastIsNotVerified<T(!new)>(q: Setting<T>, hash: Hash, x: SignatureInput, y: SignatureInput, n: nat,
      random: seq<Bytes>)
    requires n == |random| > 64 && Verified(q, hash, x) && !PB.Decodable(y.key)
    ensures var inputs := LastDiffers(x, y, n);
      && inputs[n - 1] == y && !Verified(q, hash, y)
      && (forall i :: 0 <= i < n ==> Verdict(q, hash, inputs, random, i))
      && !MeantVerdict(q, hash, inputs, random, n - 1)
      && (Usable(y) ==> AllUsable(inputs))
  {
    hide LastDiffers, PB.Decodable, Usable, Passes, Looked, InBatch, Slice;
    var inputs := LastDiffers(x, y, n);
    LastIsY(x, y, n);
    VerifiedIsUsable(q, hash, x);
    LastInBatch(inputs);
    if InBatch(n, n - 1) {
      InBatchSlice(inputs, random);
      UndecodableFails(q, hash, Slice(inputs, Start(n - 1)), Slice(random, Start(n - 1)),
        |Slice(inputs, Start(n - 1))| - 1);
    }
    forall i | 0 <= i < n
      ensures Verdict(q, hash, inputs, random, i)
    {
      LookedIsFirst(x, y, n, i);
    }
  }

  lemma InBatchSlice(inputs: seq<SignatureInput>, random: seq<Bytes>)
    requires |random| == |inputs| > 0 && InBatch(|inputs|, |inputs| - 1)
    ensures |Slice(inputs, Start(|inputs| - 1))| == |Slice(random, Start(|inputs| - 1))| >= 4
  {
  }

  /**
   The verdicts are right for every list of n inputs if and only if n is at most 64, given a valid input and one whose
   key does not decode.
   */
  lemma RightForIff<T(!new)>(q: Setting<T>, hash: Hash, x: SignatureInput, y: SignatureInput, n: nat)
    requires Verified(q, hash, x) && !PB.Decodable(y.key)
    ensures RightFor(q, hash, n) <==> n <= 64
  {
    hide LastDiffers, PB.Decodable, Verified, Usable, BatchPasses, InBatch, MeantVerdict, Verdict;
    if n <= MAX_BATCH_SIZE {
      forall inputs: seq<SignatureInput>, random: seq<Bytes> | |inputs| == n && |random| == n && Random16(random)
        ensures Right(q, hash, inputs, random)
      {
        forall i | 0 <= i < n
          ensures Verdict(q, hash, inputs, random, i) <==> MeantVerdict(q, hash, inputs, random, i)
        {
          FirstBatchIsRight(q, hash, inputs, random, i);
        }
      }
    } else {
      var random: seq<Bytes> := seq(n, i => seq(16, j => 0));
      LastIsNotVerified(q, hash, x, y, n, random);
      var inputs := LastDiffers(x, y, n);
      assert Verdict(q, hash, inputs, random, n - 1) && !MeantVerdict(q, hash, inputs, random, n - 1);
      assert !Right(q, hash, inputs, random);
      assert Random16(random);
    }
  }

  lemma FirstBatchIsRight<T(!new)>(q: Setting<T>, hash: Hash, inputs: seq<SignatureInput>, random: seq<Bytes>, i: nat)
    requires |random| == |inputs| && i < |inputs| && i < MAX_BATCH_SIZE
    ensures Verdict(q, hash, inputs, random, i) <==> MeantVerdict(q, hash, inputs, random, i)
  {
    hide Verified, Usable, BatchPasses, InBatch;
    StartIs(0, i);
  }

  /** Valid signatures get positive verdicts whether or not their batches pass. */
  lemma AllVerifiedAllValid<T(!new)>(q: Setting<T>, hash: Hash, inputs: seq<SignatureInput>, random: seq<Bytes>)
    requires |random| == |inputs| && forall i :: 0 <= i < |inputs| ==> Verified(q, hash, inputs[i])
    ensures AllUsable(inputs) && forall i :: 0 <= i < |inputs| ==> Verdict(q, hash, inputs, random, i)
  {
    hide Matches, Usable, InBatch, BatchPasses;
    forall i | 0 <= i < |inputs|
      ensures Usable(inputs[i])
    {
      VerifiedIsUsable(q, hash, inputs[i]);
    }
  }

  /** VerifyMulti: a batch that does not pass is verified one by one. */
  method VerifyMulti<T(==, !new)>(hash: Hash, inputs: seq<SignatureInput>, random: seq<Bytes>, sliding: seq<Niels>,
      q: Setting<T>) returns (valid: array<bool>, r: MF.Outcome<bool>)
    requires Hash512(hash) && Sound(q) && SecondReady(q.m, sliding, q.us, q.ys, q.b)
    requires |random| == |inputs| && Random16(random)
    ensures valid.Length == |inputs| && (r.OutOfBounds? <==> AnyCrash(q, hash, inputs, random))
    ensures r.Returned? ==>
      && (forall i :: 0 <= i < |inputs| ==> (valid[i] <==> Verdict(q, hash, inputs, random, i)))
      && (r.value <==> AllUsable(inputs) && forall i :: 0 <= i < |inputs| ==> valid[i])
    ensures r.Returned? && (forall i :: 0 <= i < |inputs| ==> Verified(q, hash, inputs[i])) ==> r.value
  {
    hide Sound, SecondReady, Verified, Usable, Verdict, AnyCrash, InBatch;
    var aggregate;
    valid, aggregate := CheckUsable(inputs);
    r := VerifyBatches(hash, inputs, random, valid, aggregate, VerifyEach, sliding, q);
    if forall i :: 0 <= i < |inputs| ==> Verified(q, hash, inputs[i]) {
      AllVerifiedAllValid(q, hash, inputs, random);
    }
  }

  lemma StrictIsUsable<T(!new)>(q: Setting<T>, hash: Hash, inputs: seq<SignatureInput>, random: seq<Bytes>, i: nat)
    requires |random| == |inputs| && i < |inputs|
    ensures StrictVerdict(q, hash, inputs, random, i) ==> Usable(inputs[i])
  {
    hide InBatch, BatchPasses, Verified;
  }

  /** All keys are of prime order, and the random factors leave no batch stuck. */
  ghost predicate Regular<T(!new)>(q: Setting<T>, hash: Hash, inputs: seq<SignatureInput>, random: seq<Bytes>)
    requires |random| == |inputs|
  {
    && (forall i :: 0 <= i < |inputs| ==> Killed(q.m.g, q.dec(inputs[i].key)))
    && (forall i :: 0 <= i < |inputs| && InBatch(|inputs|, i) ==>
      Unstuck(q, hash, Slice(inputs, Start(i)), Slice(random, Start(i))))
  }

  /** Valid signatures are accepted as a whole. */
  lemma ValidInputsAccepted<T(!new)>(q: Setting<T>, hash: Hash, inputs: seq<SignatureInput>, random: seq<Bytes>)
    requires Sound(q) && PrimeOrder() && |random| == |inputs| && Regular(q, hash, inputs, random)
    requires forall i :: 0 <= i < |inputs| ==> Verified(q, hash, inputs[i])
    ensures !AnyCrash(q, hash, inputs, random)
    ensures forall i :: 0 <= i < |inputs| ==> StrictVerdict(q, hash, inputs, random, i)
  {
    hide Sound, PrimeOrder, Killed, Unstuck, Matches, Usable, Passes, Crashes;
    forall i | 0 <= i < |inputs|
      ensures InBatch(|inputs|, i) ==> !BatchCrashes(q, hash, inputs, random, i)
      ensures StrictVerdict(q, hash, inputs, random, i)
    {
      VerifiedIsUsable(q, hash, inputs[i]);
      if InBatch(|inputs|, i) {
        ValidBatchPasses(q, hash, Slice(inputs, Start(i)), Slice(random, Start(i)));
      }
    }
  }

  /** VerifyMultiShortCircuit: the first batch that does not pass decides. */
  method VerifyMultiShortCircuit<T(==, !new)>(hash: Hash, inputs: seq<SignatureInput>, random: seq<Bytes>,
      sliding: seq<Niels>, q: Setting<T>) returns (r: MF.Outcome<bool>)
    requires Hash512(hash) && Sound(q) && SecondReady(q.m, sliding, q.us, q.ys, q.b)
    requires |random| == |inputs| && Random16(random)
    ensures r.OutOfBounds? ==> AnyCrash(q, hash, inputs, random)
    ensures r.Returned? ==>
      (r.value <==> forall i :: 0 <= i < |inputs| ==> StrictVerdict(q, hash, inputs, random, i))
    ensures PrimeOrder() && Regular(q, hash, inputs, random) ==>
      (forall i :: 0 <= i < |inputs| ==> Verified(q, hash, inputs[i])) ==> r == MF.Returned(true)
  {
    hide Sound, SecondReady, Verified, Usable, AnyCrash, InBatch, BatchPasses, PrimeOrder, Regular, StrictVerdict;
    if PrimeOrder() && Regular(q, hash, inputs, random) &&
        forall i :: 0 <= i < |inputs| ==> Verified(q, hash, inputs[i]) {
      ValidInputsAccepted(q, hash, inputs, random);
    }
    var valid, aggregate := CheckUsable(inputs);
    if !aggregate {
      ghost var i :| 0 <= i < |inputs| && !Usable(inputs[i]);
      StrictIsUsable(q, hash, inputs, random, i);
      return MF.Returned(false);
    }
    r := VerifyBatches(hash, inputs, random, valid, aggregate, GiveUp, sliding, q);
  }
}
