/**
 The exponent chains: z^(2^255 - 21), the reciprocal, and z^(2^252 - 3), used for square roots.
 */
module FieldPowers {
  import opened Words
  import opened Field25519

  /** a^(2^n) for a = z^e */
  method SquareChain(a: Fe, n: nat, ghost z: int, ghost e: nat) returns (out: Fe)
    requires Below(a, TWO54) && n >= 1 && F(a) == Pow(z, e)
    ensures Below(out, TIGHT) && F(out) == Pow(z, e * Pow2(n))
  {
    hide F, Pow, Pow2;
    out := SquareTimes(a, n);
    PowPow(z, e, Pow2(n));
  }

  /** a * b for a = z^d and b = z^e */
  method MulChain(a: Fe, b: Fe, ghost z: int, ghost d: nat, ghost e: nat) returns (out: Fe)
    requires Below(a, TWO54) && Below(b, TWO54) && F(a) == Pow(z, d) && F(b) == Pow(z, e)
    ensures Below(out, TIGHT) && F(out) == Pow(z, d + e)
  {
    hide F, Pow;
    out := Mul(a, b);
    PowAdd(z, d, e);
  }

  ghost function Ones(k: nat): nat {
    Pow2(k) - 1
  }

  lemma OnesAdd(m: nat, n: nat)
    ensures Ones(m) * Pow2(n) + Ones(n) == Ones(m + n)
  {
    Pow2Add(m, n);
    assert (Pow2(m) - 1) * Pow2(n) == Pow2(m) * Pow2(n) - Pow2(n);
  }

  /** From z^(2^m - 1) and z^(2^n - 1) to z^(2^(m+n) - 1). */
  method Stretch(x: Fe, y: Fe, ghost m: nat, n: nat, ghost z: int) returns (out: Fe)
    requires Below(x, TWO54) && Below(y, TWO54) && n >= 1 && F(x) == Pow(z, Ones(m)) && F(y) == Pow(z, Ones(n))
    ensures Below(out, TIGHT) && F(out) == Pow(z, Ones(m + n))
  {
    hide F, Pow, Pow2, Ones;
    var t0 := SquareChain(x, n, z, Ones(m));
    out := MulChain(t0, y, z, Ones(m) * Pow2(n), Ones(n));
    OnesAdd(m, n);
  }

  /** From b = z^(2^5 - 1) to z^(2^250 - 1). */
  method PowTwo5ToTwo250(b0: Fe, ghost z: int) returns (b: Fe)
    requires Below(b0, TWO54) && F(b0) == Pow(z, Ones(5))
    ensures Below(b, TIGHT) && F(b) == Pow(z, Ones(250))
  {
    hide F, Pow, Pow2, Ones;
    b := Stretch(b0, b0, 5, 5, z);
    var c := Stretch(b, b, 10, 10, z);
    var t0 := Stretch(c, c, 20, 20, z);
    b := Stretch(t0, b, 40, 10, z);
    c := Stretch(b, b, 50, 50, z);
    t0 := Stretch(c, c, 100, 100, z);
    b := Stretch(t0, b, 200, 50, z);
  }

  /** z^11 and z^(2^250 - 1), the common part of both chains. */
  method Prefix(x: Fe) returns (a: Fe, b: Fe)
    requires Below(x, TWO54)
    ensures Below(a, TIGHT) && Below(b, TIGHT) && F(a) == Pow(F(x), 11) && F(b) == Pow(F(x), Ones(250))
  {
    hide F, Pow, Pow2, Ones;
    ghost var z := F(x);
    SmallExponents();
    FRange(x);
    Pow2Start(z);
    a := SquareChain(x, 1, z, 1);
    var t0 := SquareChain(a, 2, z, 2);
    b := MulChain(t0, x, z, 8, 1);
    a := MulChain(b, a, z, 9, 2);
    t0 := SquareChain(a, 1, z, 11);
    b := MulChain(t0, b, z, 22, 9);
    b := PowTwo5ToTwo250(b, z);
  }

  lemma SmallExponents()
    ensures Pow2(1) == 2 && Pow2(2) == 4 && Pow2(5) == 32 && Ones(5) == 31
  {
    assert Pow2(3) == 8;
  }

  /** z^(p - 2) = z^(2^255 - 21) */
  method Recip(z: Fe) returns (out: Fe)
    requires Below(z, TWO54)
    ensures Below(out, TIGHT) && F(out) == Pow(F(z), Pow2(255) - 21)
  {
    hide F, Pow, Pow2, Ones;
    var a, b := Prefix(z);
    SmallExponents();
    b := SquareChain(b, 5, F(z), Ones(250));
    out := MulChain(b, a, F(z), Ones(250) * Pow2(5), 11);
    TopExponents();
  }

  lemma TopExponents()
    ensures Ones(250) * Pow2(5) + 11 == Pow2(255) - 21 && Ones(250) * Pow2(2) + 1 == Pow2(252) - 3
  {
    hide Pow2;
    OnesAdd(250, 5);
    OnesAdd(250, 2);
    SmallExponents();
  }

  /** z^((p - 5) / 8) = z^(2^252 - 3) */
  method PowTwo252m3(z: Fe) returns (out: Fe)
    requires Below(z, TWO54)
    ensures Below(out, TIGHT) && F(out) == Pow(F(z), Pow2(252) - 3)
  {
    hide F, Pow, Pow2, Ones;
    var _, b := Prefix(z);
    FRange(z);
    Pow2Start(F(z));
    b := SquareChain(b, 2, F(z), Ones(250));
    out := MulChain(b, z, F(z), Ones(250) * Pow2(2), 1);
    TopExponents();
  }
}
