/**
 Scalars as five 56-bit limbs, and the comparison and subtraction helpers of batch verification,
 which look only at limbs 0..limbsize.
 */
module ModmBatch {
  import opened Words

  type Limbs = s: seq<u64> | |s| == 5 witness [0, 0, 0, 0, 0]

  // 2^(56 n) for n = 1..5
  const R1: int := 0x100_0000_0000_0000
  const R2: int := 0x1_0000_0000_0000_0000_0000_0000_0000
  const R3: int := 0x100_0000_0000_0000_0000_0000_0000_0000_0000_0000_0000
  const R4: int := 0x1_0000_0000_0000_0000_0000_0000_0000_0000_0000_0000_0000_0000_0000_0000
  const R5: int := 0x100_0000_0000_0000_0000_0000_0000_0000_0000_0000_0000_0000_0000_0000_0000_0000_0000_0000

  function Radix(n: nat): nat
    requires n <= 5
  {
    if n == 0 then 1 else if n == 1 then R1 else if n == 2 then R2 else if n == 3 then R3 else if n == 4 then R4 else R5
  }

  /** The number held by limbs 0..n-1. */
  function Low(a: Limbs, n: nat): nat
    requires n <= 5
  {
    (if n > 0 then a[0] else 0) + (if n > 1 then a[1] * R1 else 0) + (if n > 2 then a[2] * R2 else 0)
    + (if n > 3 then a[3] * R3 else 0) + (if n > 4 then a[4] * R4 else 0)
  }

  function Value(a: Limbs): nat {
    Low(a, 5)
  }

  /** Every limb below 2^56, as all operations modulo the group order leave them. */
  predicate Proper(a: Limbs) {
    a[0] < TWO56 && a[1] < TWO56 && a[2] < TWO56 && a[3] < TWO56 && a[4] < TWO56
  }

  lemma LowBound(a: Limbs, n: nat)
    requires n <= 5 && Proper(a)
    ensures Low(a, n) < Radix(n)
  {
  }

  /** A value fits in its first n limbs exactly when the limbs above are zero. */
  lemma FitsLow(a: Limbs, n: nat)
    requires n <= 5 && Proper(a)
    ensures Value(a) < Radix(n) <==> forall i :: n <= i < 5 ==> a[i] == 0
    ensures Value(a) < Radix(n) ==> Low(a, n) == Value(a)
  {
    if forall i :: n <= i < 5 ==> a[i] == 0 {
      LowBound(a, n);
      assert Low(a, n) == Value(a);
    } else {
      var i :| n <= i < 5 && a[i] != 0;
      assert a[i] >= 1;
    }
  }

  /** The borrow left by subtracting limbs 0..n-1 of b from those of a. */
  function Borrow(a: Limbs, b: Limbs, n: nat): (carry: u64)
    requires n <= 5 && Proper(a) && Proper(b)
    ensures carry == if Low(a, n) < Low(b, n) then 1 else 0
  {
    if n == 0 then 0 else
      var t := Sub64(Sub64(a[n - 1], b[n - 1]), Borrow(a, b, n - 1));
      BorrowStep(a, b, n);
      t / TWO63
  }

  lemma BorrowStep(a: Limbs, b: Limbs, n: nat)
    requires 0 < n <= 5 && Proper(a) && Proper(b)
    ensures a[n - 1] < b[n - 1] ==> Low(a, n) < Low(b, n)
    ensures a[n - 1] > b[n - 1] ==> Low(a, n) > Low(b, n)
    ensures a[n - 1] == b[n - 1] ==> (Low(a, n) < Low(b, n) <==> Low(a, n - 1) < Low(b, n - 1))
  {
    LowBound(a, n - 1);
    LowBound(b, n - 1);
  }

  /** is a < b, on limbs 0..limbsize */
  function Lt256(a: Limbs, b: Limbs, limbsize: nat): (r: bool)
    requires limbsize < 5 && Proper(a) && Proper(b)
    ensures r <==> Low(a, limbsize + 1) < Low(b, limbsize + 1)
  {
    Borrow(a, b, limbsize + 1) == 1
  }

  /** is a <= b, on limbs 0..limbsize */
  function Lte256(a: Limbs, b: Limbs, limbsize: nat): (r: bool)
    requires limbsize < 5 && Proper(a) && Proper(b)
    ensures r <==> Low(a, limbsize + 1) <= Low(b, limbsize + 1)
  {
    !(Borrow(b, a, limbsize + 1) == 1)
  }

  /** is a == 0 */
  method IsZero256(a: Limbs) returns (r: bool)
    ensures r <==> Value(a) == 0
  {
    for i := 0 to 5
      invariant forall j :: 0 <= j < i ==> a[j] == 0
    {
      if a[i] != 0 {
        return false;
      }
    }
    return true;
  }

  /** can a fit into (at most) 128 bits */
  function IsAtMost128Bits(a: Limbs): (r: bool)
    requires Proper(a)
    ensures r <==> Value(a) < TWO128
  {
    AtMost128(a);
    var mask := Or(Or(a[4], a[3]), And(a[2], 0xff_ffff_ffff_0000));
    mask == 0
  }

  lemma AtMost128(a: Limbs)
    requires Proper(a)
    ensures Or(Or(a[4], a[3]), And(a[2], 0xff_ffff_ffff_0000)) == 0 <==> Value(a) < TWO128
  {
    OrZero(a[4], a[3]);
    OrZero(Or(a[4], a[3]), And(a[2], 0xff_ffff_ffff_0000));
    HighBits(a[2]);
  }

  /** A mask of high bits selects nothing exactly when no bit reaches it. */
  lemma {:induction false} AndHigh(x: nat, mask: nat, j: nat, k: nat)
    requires x < Pow2(j + k) && mask == (Pow2(j) - 1) * Pow2(k)
    ensures And(x, mask) == 0 <==> x < Pow2(k)
    decreases k
  {
    if k == 0 {
      AndLow(x, j);
      SmallMod(x, Pow2(j));
    } else {
      var m := (Pow2(j) - 1) * Pow2(k - 1);
      AndHigh(x / 2, m, j, k - 1);
      HalfShift(Pow2(j) - 1, Pow2(k - 1));
    }
  }

  /** Masking away the low 16 bits of a limb. */
  lemma HighBits(x: nat)
    requires x < TWO56
    ensures And(x, 0xff_ffff_ffff_0000) == 0 <==> x < 0x1_0000
  {
    Pow2Values();
    AndHigh(x, 0xff_ffff_ffff_0000, 40, 16);
  }

  /** The limbs of `out` once limbs 0..n-1 have been replaced by those of a - b. */
  ghost function Difference(out: Limbs, a: Limbs, b: Limbs, n: nat): (r: Limbs)
    requires n <= 5 && Proper(a) && Proper(b)
    ensures forall k :: n <= k < 5 ==> r[k] == out[k]
  {
    if n == 0 then out else Difference(out, a, b, n - 1)[n - 1 := DifferenceLimb(a, b, n - 1)]
  }

  ghost function DifferenceLimb(a: Limbs, b: Limbs, i: nat): u64
    requires i < 5 && Proper(a) && Proper(b)
  {
    Sub64(Sub64(a[i], b[i]), Borrow(a, b, i)) % TWO56
  }

  lemma {:induction false} DifferenceValue(out: Limbs, a: Limbs, b: Limbs, n: nat)
    requires n <= 5 && Proper(a) && Proper(b) && Proper(out)
    ensures Proper(Difference(out, a, b, n))
    ensures Low(Difference(out, a, b, n), n) == Low(a, n) - Low(b, n) + Borrow(a, b, n) * Radix(n)
  {
    if n > 0 {
      DifferenceValue(out, a, b, n - 1);
      var t := DifferenceLimb(a, b, n - 1);
      DifferenceLimbValue(a, b, n - 1);
      SubLimb(a, b, Difference(out, a, b, n - 1), Borrow(a, b, n - 1), t, Borrow(a, b, n), n - 1);
    }
  }

  lemma DifferenceLimbValue(a: Limbs, b: Limbs, i: nat)
    requires i < 5 && Proper(a) && Proper(b)
    ensures DifferenceLimb(a, b, i) == a[i] - b[i] - Borrow(a, b, i) + Borrow(a, b, i + 1) * TWO56
  {
    assert a[i] < TWO56 && b[i] < TWO56;
    LimbDifference(a[i], b[i], Borrow(a, b, i));
  }

  lemma LimbDifference(x: u64, y: u64, borrow: u64)
    requires x < TWO56 && y < TWO56 && borrow <= 1
    ensures var t := Sub64(Sub64(x, y), borrow); t % TWO56 == x - y - borrow + (t / TWO63) * TWO56
  {
  }

  lemma SubLimb(a: Limbs, b: Limbs, out: Limbs, borrow: u64, t: u64, carry: u64, i: nat)
    requires i < 5 && borrow <= 1 && carry <= 1
    requires t == a[i] - b[i] - borrow + carry * TWO56
    requires Low(out, i) == Low(a, i) - Low(b, i) + borrow * Radix(i)
    ensures Low(out[i := t], i + 1) == Low(a, i + 1) - Low(b, i + 1) + carry * Radix(i + 1)
  {
  }

  /**
   scalars[out] = scalars[a] - scalars[b] on limbs 0..limbsize, limb by limb in place; `out` may be
   the row `a` or `b` itself.
   */
  method Sub256(scalars: array<Limbs>, out: nat, a: nat, b: nat, limbsize: nat)
    requires limbsize < 5 && out < scalars.Length && a < scalars.Length && b < scalars.Length
    requires Proper(scalars[a]) && Proper(scalars[b]) && Proper(scalars[out])
    requires Low(scalars[b], limbsize + 1) <= Low(scalars[a], limbsize + 1)
    modifies scalars
    ensures forall i :: 0 <= i < scalars.Length && i != out ==> scalars[i] == old(scalars[i])
    ensures Proper(scalars[out])
    ensures Low(scalars[out], limbsize + 1) == old(Low(scalars[a], limbsize + 1) - Low(scalars[b], limbsize + 1))
    ensures forall i :: limbsize < i < 5 ==> scalars[out][i] == old(scalars[out][i])
  {
    ghost var x, y, z := scalars[a], scalars[b], scalars[out];
    var carry: u64 := 0;
    var i := 0;
    while i < limbsize
      invariant i <= limbsize && carry == Borrow(x, y, i)
      invariant forall k :: 0 <= k < scalars.Length && k != out ==> scalars[k] == old(scalars[k])
      invariant scalars[out] == Difference(z, x, y, i)
    {
      var t := Sub64(Sub64(scalars[a][i], scalars[b][i]), carry);
      carry := t / TWO63;
      t := Mask56(t);
      scalars[out] := scalars[out][i := t];
      i := i + 1;
    }
    NoTopBorrow(x, y, limbsize);
    scalars[out] := scalars[out][i := Sub64(Sub64(scalars[a][i], scalars[b][i]), carry)];
    DifferenceValue(z, x, y, limbsize + 1);
    assert scalars[out] == Difference(z, x, y, limbsize + 1);
  }

  /** The top limb needs no mask: a >= b leaves no borrow there. */
  lemma NoTopBorrow(a: Limbs, b: Limbs, i: nat)
    requires i < 5 && Proper(a) && Proper(b) && Low(b, i + 1) <= Low(a, i + 1)
    ensures Borrow(a, b, i + 1) == 0
    ensures DifferenceLimb(a, b, i) == Sub64(Sub64(a[i], b[i]), Borrow(a, b, i))
  {
    BorrowStep(a, b, i + 1);
  }

  method Mask56(t: u64) returns (r: u64)
    ensures r == t % TWO56
  {
    Pow2Values();
    r := LowBits(t, 56, 0xff_ffff_ffff_ffff);
  }
}
