/**
 Digits and multiples: what the digit-by-digit scalar multiplications add up to in any abelian group.
 */
module ScalarMult {
  import opened Words
  import opened ModmBatch
  import opened AbelianGroup
  import opened SlidingWindow
  import opened Window4

  // ---- [s1]P + [s2]B ----

  /** table[i] holds (2i + 1) times p. */
  ghost predicate OddMultiples<T(!new)>(g: Group<T>, table: seq<T>, p: T) {
    forall i :: 0 <= i < |table| ==> table[i] == Mul(g, 2 * i + 1, p)
  }

  function SignBit(d: i8): nat {
    if d < 0 then 1 else 0
  }

  function Magnitude(d: i8): nat {
    if d < 0 then -(d as int) else d
  }

  /** For an odd digit the table entry at |d| / 2, with the sign bit, is [d]p. */
  lemma DigitEntry<T(!new)>(g: Group<T>, table: seq<T>, p: T, d: i8)
    requires Abelian(g) && OddMultiples(g, table, p) && d % 2 != 0 && Magnitude(d) / 2 < |table|
    ensures Mul(g, d, p) == if SignBit(d) == 0 then table[Magnitude(d) / 2] else g.neg(table[Magnitude(d) / 2])
  {
    hide Abelian, Mul;
    var i := Magnitude(d) / 2;
    assert table[i] == Mul(g, 2 * i + 1, p);
    if d < 0 {
      MulNeg(g, 2 * i + 1, p);
    }
  }

  /** Doubling and adding one digit of each scalar. */
  lemma HornerStep<T(!new)>(g: Group<T>, a: int, b: int, d: int, e: int, p: T, q: T)
    requires Abelian(g)
    ensures var r := g.add(Mul(g, a, p), Mul(g, b, q));
      g.add(g.add(g.add(r, r), Mul(g, d, p)), Mul(g, e, q)) == g.add(Mul(g, d + 2 * a, p), Mul(g, e + 2 * b, q))
  {
    hide Abelian, Mul;
    var x, y := Mul(g, a, p), Mul(g, b, q);
    Interchange(g, x, y, x, y);
    MulAdd(g, a, a, p);
    MulAdd(g, b, b, q);
    var x2, y2 := g.add(x, x), g.add(y, y);
    Assoc(g, g.add(x2, y2), Mul(g, d, p), Mul(g, e, q));
    Interchange(g, x2, y2, Mul(g, d, p), Mul(g, e, q));
    MulAdd(g, 2 * a, d, p);
    MulAdd(g, 2 * b, e, q);
  }

  lemma VNext(r: seq<i8>, i: nat)
    requires i < |r|
    ensures V(r, i) == r[i] + 2 * V(r, i + 1)
  {
  }

  lemma Nothing<T(!new)>(g: Group<T>, p: T, b: T)
    requires Abelian(g)
    ensures g.zero == g.add(Mul(g, 0, p), Mul(g, 0, b))
  {
    Unit(g, g.zero);
  }

  /** Digits of window 5 index eight table entries, of window 7 thirty-two. */
  lemma DigitRange(r: seq<i8>, i: nat, w: nat)
    requires |r| == 256 && i < 256 && (w == 5 || w == 7) && Digits(r, 256, w)
    ensures r[i] != 0 ==> r[i] % 2 != 0 && Magnitude(r[i]) / 2 < if w == 5 then 8 else 32
  {
    if r[i] != 0 {
      assert Digit(r, i, w);
      SmallPowers();
    }
  }

  // ---- [s]B from a table ----

  const U32: int := 0x1_0000_0000

  /** ((b ^ c) - 1) >> 31 on 32-bit words */
  function WindowbEqual(b: nat, c: nat): nat {
    ((Xor(b, c) - 1) % U32) / 0x8000_0000
  }

  lemma WindowbEqualMeaning(b: nat, c: nat)
    requires b < 0x8000_0000 && c < 0x8000_0000
    ensures WindowbEqual(b, c) == if b == c then 1 else 0
  {
    XorZero(b, c);
    TopBit31();
    XorBound(b, c, 31);
    hide Xor;
  }

  lemma TopBit31()
    ensures Pow2(31) == 0x8000_0000 && Pow2(32) == U32
  {
    Pow2Values();
    Pow2Add(1, 31);
    assert Pow2(1) == 2;
  }

  /** (b + mask) ^ mask with mask = ~(sign - 1), on 32-bit words */
  function Abs32(b: i8): nat {
    var sign := SignBit(b);
    var mask := U32 - 1 - (sign - 1) % U32;
    Xor((b + mask) % U32, mask)
  }

  lemma Abs32Meaning(b: i8)
    ensures Abs32(b) == Magnitude(b)
  {
    TopBit31();
    if b < 0 {
      assert (b as int + (U32 - 1)) % U32 == U32 + b - 1;
      XorOnes(U32 + b - 1, 32);
    } else {
      XorSelf(b);
    }
  }

  lemma ZeroTimes<T(!new)>(g: Group<T>, k: int, b: T)
    ensures Mul(g, 0 * k, b) == g.zero
  {
    assert 0 * k == 0;
  }

  lemma NegTimes(u: int, k: int)
    ensures (-u) * k == -(u * k)
  {
  }

  /** The digits at even positions below 2n at weights 256^k, and those at odd positions. */
  ghost function Evens(d: seq<i8>, n: nat): int
    requires 2 * n <= |d|
  {
    if n == 0 then 0 else Evens(d, n - 1) + d[2 * n - 2] * Pow2(8 * (n - 1))
  }

  ghost function Odds(d: seq<i8>, n: nat): int
    requires 2 * n <= |d|
  {
    if n == 0 then 0 else Odds(d, n - 1) + d[2 * n - 1] * Pow2(8 * (n - 1))
  }

  lemma {:induction false} EvensAndOdds(d: seq<i8>, n: nat)
    requires 2 * n <= |d|
    ensures Fold16(d[..2 * n], 0) == Evens(d, n) + 16 * Odds(d, n)
  {
    hide Fold16, Pow2;
    if n == 0 {
      Fold16Empty(0);
      assert d[..0] == [];
    } else {
      var head, x: int, y: int := d[..2 * n - 2], d[2 * n - 2], d[2 * n - 1];
      EvensAndOdds(d, n - 1);
      assert d[..2 * n] == head + [x] + [y];
      Fold16Push(head + [x], y, 0);
      Fold16Push(head, x, y);
      Fold16Linear(head, x + 16 * y);
      assert 4 * |head| == 8 * (n - 1);
      TwoDigits(Pow2(8 * (n - 1)), x, y);
    }
  }

  lemma TwoDigits(p: int, x: int, y: int)
    ensures p * (x + 16 * y) == x * p + 16 * (y * p)
  {
    assert p * (x + 16 * y) == p * x + p * (16 * y);
    assert p * (16 * y) == 16 * (y * p);
  }

  lemma OddsNext(d: seq<i8>, n: nat)
    requires 2 * n + 2 <= |d|
    ensures Odds(d, n + 1) == Odds(d, n) + d[2 * n + 1] * Pow2(8 * n) && Odds(d, 0) == 0
  {
  }

  lemma EvensNext(d: seq<i8>, n: nat)
    requires 2 * n + 2 <= |d|
    ensures Evens(d, n + 1) == Evens(d, n) + d[2 * n] * Pow2(8 * n) && Evens(d, 0) == 0
  {
  }

  lemma Doublings<T(!new)>(g: Group<T>, k: int, b: T)
    requires Abelian(g)
    ensures g.add(Mul(g, k, b), Mul(g, k, b)) == Mul(g, 2 * k, b)
    ensures g.add(Mul(g, 2 * k, b), Mul(g, 2 * k, b)) == Mul(g, 4 * k, b)
    ensures g.add(Mul(g, 4 * k, b), Mul(g, 4 * k, b)) == Mul(g, 8 * k, b)
    ensures g.add(Mul(g, 8 * k, b), Mul(g, 8 * k, b)) == Mul(g, 16 * k, b)
  {
    MulAdd(g, k, k, b);
    MulAdd(g, 2 * k, 2 * k, b);
    MulAdd(g, 4 * k, 4 * k, b);
    MulAdd(g, 8 * k, 8 * k, b);
  }
}
