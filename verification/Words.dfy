/**
 Machine words as bounded integers.

 Values of type u64 and u128 are checked to be in range wherever they are produced, so every plain
 `+`, `-` and `*` that yields one is thereby shown not to wrap. Where the program relies on
 wrap-around it goes through `Sub64`. Bitwise operators are defined bit by bit on naturals.
 */
module Words {

  const TWO51: int := 0x8_0000_0000_0000
  const TWO56: int := 0x100_0000_0000_0000
  const TWO63: int := 0x8000_0000_0000_0000
  const TWO64: int := 0x1_0000_0000_0000_0000
  const TWO128: int := 0x1_0000_0000_0000_0000_0000_0000_0000_0000

  type u64 = x: int | 0 <= x < 0x1_0000_0000_0000_0000
  type u128 = x: int | 0 <= x < 0x1_0000_0000_0000_0000_0000_0000_0000_0000
  type byte = x: int | 0 <= x < 256

  /** a - b modulo 2^64 */
  function Sub64(a: u64, b: u64): u64 {
    if a >= b then a - b else a - b + TWO64
  }

  /** a + b modulo 2^64 */
  function Add64(a: u64, b: u64): u64 {
    if a + b < TWO64 then a + b else a + b - TWO64
  }

  /** The full product of two words. */
  function Mul64(a: u64, b: u64): nat {
    (a as int) * (b as int)
  }

  lemma Mul64Bound(a: u64, b: u64, m: nat, n: nat)
    requires a <= m && b <= n
    ensures Mul64(a, b) <= m * n
  {
    assert a as int * b as int <= m * (b as int) <= m * n;
  }

  function Pow2(k: nat): (r: nat)
    ensures r > 0
  {
    if k == 0 then 1 else 2 * Pow2(k - 1)
  }

  function And(a: nat, b: nat): nat {
    if a == 0 || b == 0 then 0
    else 2 * And(a / 2, b / 2) + (if a % 2 == 1 && b % 2 == 1 then 1 else 0)
  }

  function Or(a: nat, b: nat): nat {
    if a == 0 then b else if b == 0 then a
    else 2 * Or(a / 2, b / 2) + (if a % 2 == 1 || b % 2 == 1 then 1 else 0)
  }

  function Xor(a: nat, b: nat): nat
    decreases a + b
  {
    if a == 0 then b else if b == 0 then a
    else 2 * Xor(a / 2, b / 2) + (if a % 2 != b % 2 then 1 else 0)
  }

  lemma {:induction false} Pow2Add(j: nat, k: nat)
    ensures Pow2(j + k) == Pow2(j) * Pow2(k)
  {
    if j > 0 {
      Pow2Add(j - 1, k);
      assert Pow2(j + k) == 2 * Pow2(j - 1 + k) == 2 * (Pow2(j - 1) * Pow2(k));
    }
  }

  lemma Pow2Small()
    ensures Pow2(3) == 8 && Pow2(8) == 256
  {
    assert Pow2(4) == 16 && Pow2(6) == 64;
  }

  lemma Pow2Values()
    ensures Pow2(8) == 256 && Pow2(16) == 0x1_0000 && Pow2(32) == 0x1_0000_0000
    ensures Pow2(40) == 0x100_0000_0000 && Pow2(51) == TWO51 && Pow2(56) == TWO56
    ensures Pow2(64) == TWO64 && Pow2(128) == TWO128
  {
    hide Pow2;
    Pow2Small();
    Pow2Add(8, 8);
    Pow2Add(16, 16);
    Pow2Add(8, 32);
    Pow2Add(3, 8);
    Pow2Add(11, 40);
    Pow2Add(16, 40);
    Pow2Add(32, 32);
    Pow2Add(64, 64);
  }

  /** Masking with 2^k - 1 is reduction modulo 2^k. */
  lemma {:induction false} AndLow(x: nat, k: nat)
    ensures And(x, Pow2(k) - 1) == x % Pow2(k)
    decreases k
  {
    if k > 0 {
      var m := Pow2(k - 1);
      AndLow(x / 2, k - 1);
      assert (Pow2(k) - 1) / 2 == m - 1 && (Pow2(k) - 1) % 2 == 1;
      ModDouble(x, m);
    } else {
      assert And(x, 0) == 0;
    }
  }

  lemma ModDouble(x: nat, m: nat)
    requires m > 0
    ensures x % (2 * m) == 2 * ((x / 2) % m) + x % 2
  {
    var q, r := (x / 2) / m, (x / 2) % m;
    assert x / 2 == q * m + r;
    assert x == (2 * m) * q + (2 * r + x % 2) by {
      assert 2 * (q * m) == (2 * m) * q;
    }
    DivModUnique(x, 2 * m, q, 2 * r + x % 2);
  }

  lemma DivModUnique(x: int, d: int, q: int, r: int)
    requires d > 0 && 0 <= r < d && x == d * q + r
    ensures x / d == q && x % d == r
  {
    var e := x / d - q;
    assert d * e == r - x % d by {
      assert x == d * (x / d) + x % d;
      assert d * (x / d) - d * q == d * e;
    }
    MulSign(d, e);
  }

  lemma MulSign(d: int, e: int)
    requires d > 0
    ensures e >= 1 ==> d * e >= d
    ensures e <= -1 ==> d * e <= -d
  {
  }

  /** The `|` of words with no bit in common is their sum. */
  lemma {:induction false} OrDisjoint(a: nat, b: nat, k: nat)
    requires a < Pow2(k)
    ensures Or(a, b * Pow2(k)) == a + b * Pow2(k)
    decreases k
  {
    if k > 0 && a > 0 && b > 0 {
      var m := Pow2(k - 1);
      OrDisjoint(a / 2, b, k - 1);
      HalfShift(b, m);
    }
  }

  lemma HalfShift(a: nat, b: nat)
    ensures (a * (2 * b)) / 2 == a * b && (a * (2 * b)) % 2 == 0 && a * (2 * b) == 2 * (a * b)
    ensures a > 0 && b > 0 ==> a * b > 0
  {
    assert a * (2 * b) == 2 * (a * b);
  }

  lemma {:induction false} XorTwice(a: nat, b: nat)
    ensures Xor(a, Xor(a, b)) == b
    decreases a + b
  {
    if a > 0 && b > 0 {
      XorTwice(a / 2, b / 2);
      var x := Xor(a, b);
      assert x / 2 == Xor(a / 2, b / 2) && x % 2 == (if a % 2 != b % 2 then 1 else 0);
    } else {
      XorSelf(a);
    }
  }

  lemma {:induction false} XorSelf(a: nat)
    ensures Xor(a, a) == 0 && Xor(a, 0) == a
  {
    if a > 0 {
      XorSelf(a / 2);
    }
  }

  lemma {:induction false} XorBound(a: nat, b: nat, k: nat)
    requires a < Pow2(k) && b < Pow2(k)
    ensures Xor(a, b) < Pow2(k)
  {
    if k > 0 && a > 0 && b > 0 {
      XorBound(a / 2, b / 2, k - 1);
    }
  }

  lemma {:induction false} XorZero(a: nat, b: nat)
    ensures Xor(a, b) == 0 <==> a == b
    decreases a + b
  {
    if a > 0 && b > 0 {
      XorZero(a / 2, b / 2);
    }
  }

  /** Flipping all of k bits. */
  lemma {:induction false} XorOnes(x: nat, k: nat)
    requires x < Pow2(k)
    ensures Xor(x, Pow2(k) - 1) == Pow2(k) - 1 - x
  {
    if k > 0 {
      XorOnes(x / 2, k - 1);
      var m := Pow2(k - 1);
      assert (2 * m - 1) / 2 == m - 1 && (2 * m - 1) % 2 == 1;
    }
  }

  lemma {:induction false} OrZero(a: nat, b: nat)
    ensures Or(a, b) == 0 <==> a == 0 && b == 0
  {
    if a > 0 && b > 0 {
      OrZero(a / 2, b / 2);
    }
  }

  lemma Associate(a: int, b: int, c: int)
    ensures a * (b * c) == (a * b) * c
  {
  }

  lemma Distribute(a: int, u: int, v: int, w: int, x: int, y: int)
    ensures a * (u + v + w + x + y) == a * u + a * v + a * w + a * x + a * y
  {
  }

  // ---- the operators the arithmetic code uses, with their meaning on integers ----

  /** x & (2^k - 1) */
  method LowBits(x: nat, ghost k: nat, mask: nat) returns (r: nat)
    requires mask == Pow2(k) - 1
    ensures r == x % Pow2(k)
  {
    AndLow(x, k);
    r := And(x, mask);
  }

  /** a ^ (mask & (a ^ b)): keeps a for mask 0, takes b for mask ~0 */
  method Select(a: u64, b: u64, mask: u64) returns (r: u64)
    requires mask == 0 || mask == TWO64 - 1
    ensures r == if mask == 0 then a else b
  {
    SelectMeaning(a, b, mask);
    r := Xor(a, And(Xor(a, b), mask));
  }

  lemma SelectMeaning(a: u64, b: u64, mask: u64)
    requires mask == 0 || mask == TWO64 - 1
    ensures Xor(a, And(Xor(a, b), mask)) == if mask == 0 then a else b
  {
    var x := Xor(a, b);
    assert And(x, mask) == if mask == 0 then 0 else x by {
      Pow2Values();
      XorBound(a, b, 64);
      AndLow(x, 64);
      SmallMod(x, TWO64);
    }
    XorSelf(a);
    XorTwice(a, b);
  }

  lemma SmallMod(x: nat, m: nat)
    requires x < m
    ensures x % m == x
  {
  }
}
