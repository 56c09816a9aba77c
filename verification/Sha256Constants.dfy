/**
 Where the constants of SHA-256 come from: the square roots and cube roots of the first primes.
 */
module Sha256Constants {
  import opened Words
  import opened Sha256Compress
  import opened Sha256

  // ---- the first 64 primes ----

  ghost predicate Prime(n: nat) {
    n > 1 && forall d :: 1 < d < n ==> n % d != 0
  }

  /** q is the next prime after p. */
  ghost predicate NextPrime(p: nat, q: nat) {
    Prime(p) && Prime(q) && p < q && forall n :: p < n < q ==> !Prime(n)
  }

  /** The t-th prime, from t = 0 on. */
  function NthPrime(t: nat): nat
    requires t < 64
  {
    PrimeRow(t / 8)[t % 8]
  }

  function PrimeRow(r: nat): (row: seq<nat>)
    ensures |row| == 8
  {
    if r == 0 then [2, 3, 5, 7, 11, 13, 17, 19]
    else if r == 1 then [23, 29, 31, 37, 41, 43, 47, 53]
    else if r == 2 then [59, 61, 67, 71, 73, 79, 83, 89]
    else if r == 3 then [97, 101, 103, 107, 109, 113, 127, 131]
    else if r == 4 then [137, 139, 149, 151, 157, 163, 167, 173]
    else if r == 5 then [179, 181, 191, 193, 197, 199, 211, 223]
    else if r == 6 then [227, 229, 233, 239, 241, 251, 257, 263]
    else [269, 271, 277, 281, 283, 293, 307, 311]
  }

  /** No prime of at most 17 divides n, unless it is n. */
  ghost predicate Sieved(n: nat) {
    && (n % 2 != 0 || n == 2) && (n % 3 != 0 || n == 3) && (n % 5 != 0 || n == 5) && (n % 7 != 0 || n == 7)
    && (n % 11 != 0 || n == 11) && (n % 13 != 0 || n == 13) && (n % 17 != 0 || n == 17)
  }

  lemma DividesThrough(n: nat, e: nat, k: nat)
    requires e > 0 && k > 0 && n % e == 0 && e % k == 0
    ensures n % k == 0
  {
    var a, b := n / e, e / k;
    assert n == e * a && e == k * b;
    assert (k * b) * a == k * (b * a);
    DivModUnique(n, k, b * a, 0);
  }

  lemma NotSieved(n: nat, k: nat)
    requires (k == 2 || k == 3 || k == 5 || k == 7 || k == 11 || k == 13 || k == 17) && k < n && n % k == 0
    ensures !Sieved(n)
  {
  }

  /** A divisor below 18 brings a prime divisor of at most 17 with it. */
  lemma SmallDivisor(n: nat, e: nat)
    requires 1 < e < 18 && e < n && n % e == 0
    ensures !Sieved(n)
  {
    hide Sieved;
    if e % 2 == 0 {
      DividesThrough(n, e, 2);
      NotSieved(n, 2);
    } else if e % 3 == 0 {
      DividesThrough(n, e, 3);
      NotSieved(n, 3);
    } else {
      NotSieved(n, e);
    }
  }

  /** Below 18^2 the sieve leaves exactly the primes. */
  lemma PrimeIff(n: nat)
    requires 1 < n < 324
    ensures Prime(n) <==> Sieved(n)
  {
    if Sieved(n) {
      forall d | 1 < d < n
        ensures n % d != 0
      {
        if n % d == 0 {
          var e := n / d;
          assert n == d * e;
          Smaller(n, d, e);
          SmallDivisor(n, if d < 18 then d else e);
        }
      }
    }
  }

  lemma TwoFactors(d: nat, e: nat)
    requires d > 1
    ensures e > 1 ==> e < d * e && d < d * e
    ensures e <= 1 ==> d * e <= d
    ensures d >= 18 && e >= 18 ==> d * e >= 324
  {
    if d >= 18 && e >= 18 {
      assert d * e >= 18 * e;
    }
  }

  lemma Smaller(n: nat, d: nat, e: nat)
    requires n == d * e && n < 324 && 1 < d < n
    ensures 1 < e < n && (d < 18 || e < 18) && n % e == 0
  {
    TwoFactors(d, e);
    assert n == e * d;
    DivModUnique(n, e, d, 0);
  }

  lemma Gap(p: nat, q: nat)
    requires 1 < p < q < 324 && Sieved(p) && Sieved(q) && NoneBetween(p, q)
    ensures NextPrime(p, q)
  {
    hide Sieved, Prime;
    PrimeIff(p);
    PrimeIff(q);
    forall n | p < n < q
      ensures !Prime(n)
    {
      NotBetween(p, q, n);
      PrimeIff(n);
    }
  }

  ghost predicate NoneBetween(p: nat, q: nat)
    decreases q - p
  {
    p + 1 >= q || (!Sieved(p + 1) && NoneBetween(p + 1, q))
  }

  lemma {:induction false} NotBetween(p: nat, q: nat, n: nat)
    requires NoneBetween(p, q) && p < n < q
    ensures !Sieved(n)
    decreases q - p
  {
    hide Sieved;
    if p + 1 < n {
      NotBetween(p + 1, q, n);
    }
  }

  lemma Gaps1()
    ensures forall t :: 0 <= t < 9 ==> NextPrime(NthPrime(t), NthPrime(t + 1))
  {
    hide NextPrime;
    Gap(2, 3);
    Gap(3, 5);
    Gap(5, 7);
    Gap(7, 11);
    Gap(11, 13);
    Gap(13, 17);
    Gap(17, 19);
    Gap(19, 23);
    Gap(23, 29);
  }

  lemma Gaps2()
    ensures forall t :: 9 <= t < 18 ==> NextPrime(NthPrime(t), NthPrime(t + 1))
  {
    hide NextPrime;
    Gap(29, 31);
    Gap(31, 37);
    Gap(37, 41);
    Gap(41, 43);
    Gap(43, 47);
    Gap(47, 53);
    Gap(53, 59);
    Gap(59, 61);
    Gap(61, 67);
  }

  lemma Gaps3()
    ensures forall t :: 18 <= t < 27 ==> NextPrime(NthPrime(t), NthPrime(t + 1))
  {
    hide NextPrime;
    Gap(67, 71);
    Gap(71, 73);
    Gap(73, 79);
    Gap(79, 83);
    Gap(83, 89);
    Gap(89, 97);
    Gap(97, 101);
    Gap(101, 103);
    Gap(103, 107);
  }

  lemma Gaps4()
    ensures forall t :: 27 <= t < 36 ==> NextPrime(NthPrime(t), NthPrime(t + 1))
  {
    hide NextPrime;
    Gap(107, 109);
    Gap(109, 113);
    Gap(113, 127);
    Gap(127, 131);
    Gap(131, 137);
    Gap(137, 139);
    Gap(139, 149);
    Gap(149, 151);
    Gap(151, 157);
  }

  lemma Gaps5()
    ensures forall t :: 36 <= t < 45 ==> NextPrime(NthPrime(t), NthPrime(t + 1))
  {
    hide NextPrime;
    Gap(157, 163);
    Gap(163, 167);
    Gap(167, 173);
    Gap(173, 179);
    Gap(179, 181);
    Gap(181, 191);
    Gap(191, 193);
    Gap(193, 197);
    Gap(197, 199);
  }

  lemma Gaps6()
    ensures forall t :: 45 <= t < 54 ==> NextPrime(NthPrime(t), NthPrime(t + 1))
  {
    hide NextPrime;
    Gap(199, 211);
    Gap(211, 223);
    Gap(223, 227);
    Gap(227, 229);
    Gap(229, 233);
    Gap(233, 239);
    Gap(239, 241);
    Gap(241, 251);
    Gap(251, 257);
  }

  lemma Gaps7()
    ensures forall t :: 54 <= t < 63 ==> NextPrime(NthPrime(t), NthPrime(t + 1))
  {
    hide NextPrime;
    Gap(257, 263);
    Gap(263, 269);
    Gap(269, 271);
    Gap(271, 277);
    Gap(277, 281);
    Gap(281, 283);
    Gap(283, 293);
    Gap(293, 307);
    Gap(307, 311);
  }

  /** The list starts with 2 and leaves out no prime. */
  lemma PrimesInOrder(t: nat)
    requires t < 63
    ensures NthPrime(0) == 2 && NextPrime(NthPrime(t), NthPrime(t + 1))
  {
    hide NextPrime;
    Gaps1(); Gaps2(); Gaps3(); Gaps4(); Gaps5(); Gaps6(); Gaps7();
  }

  // ---- roots ----

  /** x is the whole part of 2^32 times the cube root of p, and k its last 32 bits. */
  ghost predicate CubeRoot(p: nat, x: nat, k: bv32) {
    x * x * x <= 0x1_00000000_00000000_00000000 * p < (x + 1) * (x + 1) * (x + 1) && x % 0x1_0000_0000 == k as nat
  }

  /** x is the whole part of 2^32 times the square root of p, and k its last 32 bits. */
  ghost predicate SquareRoot(p: nat, x: nat, k: bv32) {
    x * x <= 0x1_00000000_00000000 * p < (x + 1) * (x + 1) && x % 0x1_0000_0000 == k as nat
  }

  /** k is the first 32 bits of the fractional part of the cube root of p. */
  ghost predicate FromCubeRoot(p: nat, k: bv32) {
    exists x :: CubeRoot(p, x, k)
  }

  lemma RootIs(p: nat, x: nat, k: bv32)
    requires CubeRoot(p, x, k)
    ensures FromCubeRoot(p, k)
  {
  }

  lemma Roots1(t: nat)
    requires 0 <= t < 8
    ensures FromCubeRoot(NthPrime(t), K(t))
  {
    hide FromCubeRoot;
    if t == 0 {
      RootIs(2, 0x1428a2f98, 0x428a2f98);
    } else if t == 1 {
      RootIs(3, 0x171374491, 0x71374491);
    } else if t == 2 {
      RootIs(5, 0x1b5c0fbcf, 0xb5c0fbcf);
    } else if t == 3 {
      RootIs(7, 0x1e9b5dba5, 0xe9b5dba5);
    } else if t == 4 {
      RootIs(11, 0x23956c25b, 0x3956c25b);
    } else if t == 5 {
      RootIs(13, 0x259f111f1, 0x59f111f1);
    } else if t == 6 {
      RootIs(17, 0x2923f82a4, 0x923f82a4);
    } else {
      RootIs(19, 0x2ab1c5ed5, 0xab1c5ed5);
    }
  }

  lemma Roots2(t: nat)
    requires 8 <= t < 16
    ensures FromCubeRoot(NthPrime(t), K(t))
  {
    hide FromCubeRoot;
    if t == 8 {
      RootIs(23, 0x2d807aa98, 0xd807aa98);
    } else if t == 9 {
      RootIs(29, 0x312835b01, 0x12835b01);
    } else if t == 10 {
      RootIs(31, 0x3243185be, 0x243185be);
    } else if t == 11 {
      RootIs(37, 0x3550c7dc3, 0x550c7dc3);
    } else if t == 12 {
      RootIs(41, 0x372be5d74, 0x72be5d74);
    } else if t == 13 {
      RootIs(43, 0x380deb1fe, 0x80deb1fe);
    } else if t == 14 {
      RootIs(47, 0x39bdc06a7, 0x9bdc06a7);
    } else {
      RootIs(53, 0x3c19bf174, 0xc19bf174);
    }
  }

  lemma Roots3(t: nat)
    requires 16 <= t < 24
    ensures FromCubeRoot(NthPrime(t), K(t))
  {
    hide FromCubeRoot;
    if t == 16 {
      RootIs(59, 0x3e49b69c1, 0xe49b69c1);
    } else if t == 17 {
      RootIs(61, 0x3efbe4786, 0xefbe4786);
    } else if t == 18 {
      RootIs(67, 0x40fc19dc6, 0x0fc19dc6);
    } else if t == 19 {
      RootIs(71, 0x4240ca1cc, 0x240ca1cc);
    } else if t == 20 {
      RootIs(73, 0x42de92c6f, 0x2de92c6f);
    } else if t == 21 {
      RootIs(79, 0x44a7484aa, 0x4a7484aa);
    } else if t == 22 {
      RootIs(83, 0x45cb0a9dc, 0x5cb0a9dc);
    } else {
      RootIs(89, 0x476f988da, 0x76f988da);
    }
  }

  lemma Roots4(t: nat)
    requires 24 <= t < 32
    ensures FromCubeRoot(NthPrime(t), K(t))
  {
    hide FromCubeRoot;
    if t == 24 {
      RootIs(97, 0x4983e5152, 0x983e5152);
    } else if t == 25 {
      RootIs(101, 0x4a831c66d, 0xa831c66d);
    } else if t == 26 {
      RootIs(103, 0x4b00327c8, 0xb00327c8);
    } else if t == 27 {
      RootIs(107, 0x4bf597fc7, 0xbf597fc7);
    } else if t == 28 {
      RootIs(109, 0x4c6e00bf3, 0xc6e00bf3);
    } else if t == 29 {
      RootIs(113, 0x4d5a79147, 0xd5a79147);
    } else if t == 30 {
      RootIs(127, 0x506ca6351, 0x06ca6351);
    } else {
      RootIs(131, 0x514292967, 0x14292967);
    }
  }

  lemma Roots5(t: nat)
    requires 32 <= t < 40
    ensures FromCubeRoot(NthPrime(t), K(t))
  {
    hide FromCubeRoot;
    if t == 32 {
      RootIs(137, 0x527b70a85, 0x27b70a85);
    } else if t == 33 {
      RootIs(139, 0x52e1b2138, 0x2e1b2138);
    } else if t == 34 {
      RootIs(149, 0x54d2c6dfc, 0x4d2c6dfc);
    } else if t == 35 {
      RootIs(151, 0x553380d13, 0x53380d13);
    } else if t == 36 {
      RootIs(157, 0x5650a7354, 0x650a7354);
    } else if t == 37 {
      RootIs(163, 0x5766a0abb, 0x766a0abb);
    } else if t == 38 {
      RootIs(167, 0x581c2c92e, 0x81c2c92e);
    } else {
      RootIs(173, 0x592722c85, 0x92722c85);
    }
  }

  lemma Roots6(t: nat)
    requires 40 <= t < 48
    ensures FromCubeRoot(NthPrime(t), K(t))
  {
    hide FromCubeRoot;
    if t == 40 {
      RootIs(179, 0x5a2bfe8a1, 0xa2bfe8a1);
    } else if t == 41 {
      RootIs(181, 0x5a81a664b, 0xa81a664b);
    } else if t == 42 {
      RootIs(191, 0x5c24b8b70, 0xc24b8b70);
    } else if t == 43 {
      RootIs(193, 0x5c76c51a3, 0xc76c51a3);
    } else if t == 44 {
      RootIs(197, 0x5d192e819, 0xd192e819);
    } else if t == 45 {
      RootIs(199, 0x5d6990624, 0xd6990624);
    } else if t == 46 {
      RootIs(211, 0x5f40e3585, 0xf40e3585);
    } else {
      RootIs(223, 0x6106aa070, 0x106aa070);
    }
  }

  lemma Roots7(t: nat)
    requires 48 <= t < 56
    ensures FromCubeRoot(NthPrime(t), K(t))
  {
    hide FromCubeRoot;
    if t == 48 {
      RootIs(227, 0x619a4c116, 0x19a4c116);
    } else if t == 49 {
      RootIs(229, 0x61e376c08, 0x1e376c08);
    } else if t == 50 {
      RootIs(233, 0x62748774c, 0x2748774c);
    } else if t == 51 {
      RootIs(239, 0x634b0bcb5, 0x34b0bcb5);
    } else if t == 52 {
      RootIs(241, 0x6391c0cb3, 0x391c0cb3);
    } else if t == 53 {
      RootIs(251, 0x64ed8aa4a, 0x4ed8aa4a);
    } else if t == 54 {
      RootIs(257, 0x65b9cca4f, 0x5b9cca4f);
    } else {
      RootIs(263, 0x6682e6ff3, 0x682e6ff3);
    }
  }

  lemma Roots8(t: nat)
    requires 56 <= t < 64
    ensures FromCubeRoot(NthPrime(t), K(t))
  {
    hide FromCubeRoot;
    if t == 56 {
      RootIs(269, 0x6748f82ee, 0x748f82ee);
    } else if t == 57 {
      RootIs(271, 0x678a5636f, 0x78a5636f);
    } else if t == 58 {
      RootIs(277, 0x684c87814, 0x84c87814);
    } else if t == 59 {
      RootIs(281, 0x68cc70208, 0x8cc70208);
    } else if t == 60 {
      RootIs(283, 0x690befffa, 0x90befffa);
    } else if t == 61 {
      RootIs(293, 0x6a4506ceb, 0xa4506ceb);
    } else if t == 62 {
      RootIs(307, 0x6bef9a3f7, 0xbef9a3f7);
    } else {
      RootIs(311, 0x6c67178f2, 0xc67178f2);
    }
  }

  /** Constant t comes from the cube root of the t-th prime, section 4.2.2 of FIPS 180-4. */
  lemma KIsCubeRoot(t: nat)
    requires t < 64
    ensures FromCubeRoot(NthPrime(t), K(t))
  {
    hide FromCubeRoot, NthPrime, K;
    if t < 8 {
      Roots1(t);
    } else if t < 16 {
      Roots2(t);
    } else if t < 24 {
      Roots3(t);
    } else if t < 32 {
      Roots4(t);
    } else if t < 40 {
      Roots5(t);
    } else if t < 48 {
      Roots6(t);
    } else if t < 56 {
      Roots7(t);
    } else {
      Roots8(t);
    }
  }

  /** The initial hash words come from the square roots of the first eight primes, section 5.3.3 of FIPS 180-4. */
  lemma InitialIsSquareRoot()
    ensures var v := INITIAL;
      && (exists x :: SquareRoot(NthPrime(0), x, v.a)) && (exists x :: SquareRoot(NthPrime(1), x, v.b))
      && (exists x :: SquareRoot(NthPrime(2), x, v.c)) && (exists x :: SquareRoot(NthPrime(3), x, v.d))
      && (exists x :: SquareRoot(NthPrime(4), x, v.e)) && (exists x :: SquareRoot(NthPrime(5), x, v.f))
      && (exists x :: SquareRoot(NthPrime(6), x, v.g)) && (exists x :: SquareRoot(NthPrime(7), x, v.h))
  {
    assert SquareRoot(NthPrime(0), 0x16a09e667, INITIAL.a);
    assert SquareRoot(NthPrime(1), 0x1bb67ae85, INITIAL.b);
    assert SquareRoot(NthPrime(2), 0x23c6ef372, INITIAL.c);
    assert SquareRoot(NthPrime(3), 0x2a54ff53a, INITIAL.d);
    assert SquareRoot(NthPrime(4), 0x3510e527f, INITIAL.e);
    assert SquareRoot(NthPrime(5), 0x39b05688c, INITIAL.f);
    assert SquareRoot(NthPrime(6), 0x41f83d9ab, INITIAL.g);
    assert SquareRoot(NthPrime(7), 0x45be0cd19, INITIAL.h);
  }
}
