/**
 Signed sliding-window recoding of a scalar: the bits are regrouped in place into odd digits.
 */
module SlidingWindow {
  import opened Words
  import opened ModmBatch

  type i8 = x: int | -128 <= x < 128

  /** The number with digits r[i], r[i + 1], ... at weights 1, 2, 4, ... */
  ghost function V(r: seq<i8>, i: nat): int
    requires i <= |r|
    decreases |r| - i
  {
    if i == |r| then 0 else r[i] + 2 * V(r, i + 1)
  }

  ghost predicate Bits(r: seq<i8>, lo: nat, hi: nat)
    requires lo <= hi <= |r|
  {
    forall i :: lo <= i < hi ==> r[i] == 0 || r[i] == 1
  }

  ghost predicate Zeros(r: seq<i8>, lo: nat, hi: nat)
    requires hi <= |r|
  {
    forall i :: lo <= i < hi ==> r[i] == 0
  }

  lemma {:induction false} VFrame(r: seq<i8>, s: seq<i8>, i: nat)
    requires |r| == |s| && i <= |r| && r[i..] == s[i..]
    ensures V(r, i) == V(s, i)
    decreases |r| - i
  {
    if i < |r| {
      assert r[i] == r[i..][0] == s[i..][0] == s[i];
      assert r[i + 1..] == r[i..][1..] == s[i..][1..] == s[i + 1..];
      VFrame(r, s, i + 1);
    }
  }

  /** The digits below i do not matter to what lies above: equal numbers from i on, equal in all. */
  lemma {:induction false} VBelow(r: seq<i8>, s: seq<i8>, lo: nat, i: nat)
    requires |r| == |s| && lo <= i <= |r| && r[lo..i] == s[lo..i] && V(r, i) == V(s, i)
    ensures V(r, lo) == V(s, lo)
    decreases i - lo
  {
    if lo < i {
      assert r[lo] == r[lo..i][0] == s[lo..i][0] == s[lo];
      assert r[lo + 1..i] == r[lo..i][1..] == s[lo..i][1..] == s[lo + 1..i];
      VBelow(r, s, lo + 1, i);
    }
  }

  lemma {:induction false} VSkip(r: seq<i8>, i: nat, n: nat)
    requires i + n <= |r| && Zeros(r, i, i + n)
    ensures V(r, i) == Pow2(n) * V(r, i + n)
    decreases n
  {
    if n > 0 {
      VSkip(r, i + 1, n - 1);
      Double(V(r, i + 1), Pow2(n - 1), V(r, i + n));
    }
  }

  lemma Double(v: int, p: int, u: int)
    requires v == p * u
    ensures 2 * v == (2 * p) * u
  {
  }

  lemma {:induction false} VBits(r: seq<i8>, i: nat)
    requires i <= |r| && Bits(r, i, |r|)
    ensures 0 <= V(r, i) < Pow2(|r| - i)
    decreases |r| - i
  {
    if i < |r| {
      VBits(r, i + 1);
    }
  }

  /** Add one at position k of a binary number, in place. */
  method Increment(r: array<i8>, k: nat)
    requires k < r.Length && Bits(r[..], k, r.Length)
    requires V(r[..], k) + 1 < Pow2(r.Length - k)
    modifies r
    ensures Bits(r[..], k, r.Length) && V(r[..], k) == old(V(r[..], k)) + 1
    ensures forall i :: 0 <= i < k ==> r[i] == old(r[i])
    ensures r[k] == 1 - old(r[k])
  {
    ghost var was := r[..];
    var i := k;
    while i < r.Length
      invariant k <= i <= r.Length
      invariant r[..] == was[..k] + seq(i - k, _ => 0) + was[i..]
      invariant forall j :: k <= j < i ==> was[j] == 1
      invariant V(was, k) + 1 == Pow2(i - k) * (V(was, i) + 1)
    {
      if r[i] == 0 {
        r[i] := 1;
        break;
      }
      OneMore(was, i, Pow2(i - k));
      r[i] := 0;
      i := i + 1;
    }
    VBits(was, k);
    assert i < r.Length;
    Incremented(was, r[..], k, i);
  }

  lemma OneMore(r: seq<i8>, i: nat, p: nat)
    requires i < |r| && r[i] == 1
    ensures p * (V(r, i) + 1) == (2 * p) * (V(r, i + 1) + 1)
  {
    Double(V(r, i + 1) + 1, 1, V(r, i + 1) + 1);
    assert V(r, i) + 1 == 2 * (V(r, i + 1) + 1);
  }

  lemma Incremented(was: seq<i8>, now: seq<i8>, k: nat, i: nat)
    requires k <= i < |was| == |now| && was[i] == 0 && now[i] == 1 && now[i + 1..] == was[i + 1..]
    requires Zeros(now, k, i) && V(was, k) + 1 == Pow2(i - k) * (V(was, i) + 1)
    ensures V(now, k) == V(was, k) + 1
  {
    VFrame(was, now, i + 1);
    VSkip(now, k, i - k);
  }

  // ---- one digit ----

  /** What is left from position i on is at most 2^253. */
  ghost predicate Room(r: seq<i8>, i: nat)
    requires i <= |r|
  {
    0 <= V(r, i) && if i <= 253 then V(r, i) <= Pow2(253 - i) else V(r, i) == 0
  }

  function Largest(w: nat): int
    requires w > 0
  {
    Pow2(w - 1) - 1
  }

  lemma {:induction false} Pow2Less(a: nat, b: nat)
    requires a < b
    ensures 2 * Pow2(a) <= Pow2(b)
  {
    if a + 1 < b {
      Pow2Less(a, b - 1);
    }
  }

  lemma CancelLess(p: int, a: int, b: int)
    requires p > 0 && p * a < p * b
    ensures a < b
  {
  }

  /** The window's top bit may be carried: the carry stops below position 256. */
  lemma CarryFits(r: seq<i8>, j: nat, w: nat)
    requires |r| == 256 && 2 <= w <= 7 && j + w - 1 < 256 && Zeros(r, j + 1, j + w - 1) && Bits(r, j + 1, 256)
    requires 0 < r[j] && r[j + w - 1] == 1 && Room(r, j)
    ensures V(r, j + w - 1) + 1 < Pow2(256 - (j + w - 1))
    ensures V(r, j) == r[j] + Pow2(w - 1) * V(r, j + w - 1)
  {
    hide Pow2;
    var k := j + w - 1;
    var x := V(r, k);
    DigitSplit(r, j, w - 1);
    VBits(r, k + 1);
    assert x >= 1;
    MulAtLeast(Pow2(w - 1), x);
    if 253 - j <= w - 1 {
      Pow2Order(253 - j, w - 1);
    }
    Pow2Add(w - 1, 253 - k);
    CancelLess(Pow2(w - 1), x, Pow2(253 - k));
    Pow2Less(253 - k, 256 - k);
  }

  lemma MulAtLeast(p: int, x: int)
    requires p > 0 && x >= 1
    ensures p * x >= p
  {
  }

  lemma Pow2Order(a: int, b: nat)
    requires a <= b
    ensures a >= 0 ==> Pow2(a) <= Pow2(b)
  {
    if 0 <= a < b {
      Pow2Less(a, b);
    }
  }

  /** V(r, j) == r[j] + 2^n V(r, j + n) over zeros in between. */
  lemma DigitSplit(r: seq<i8>, j: nat, n: nat)
    requires 0 < n && j + n <= |r| && Zeros(r, j + 1, j + n)
    ensures V(r, j) == r[j] + Pow2(n) * V(r, j + n)
  {
    VSkip(r, j + 1, n - 1);
    Double(V(r, j + 1), Pow2(n - 1), V(r, j + n));
  }

  lemma RoomNext(r: seq<i8>, j: nat, w: nat)
    requires |r| == 256 && 2 <= w <= 7 && j < 256 && Bits(r, j + 1, 256) && Room(r, j) && V(r, j) >= 1
    requires r[j] != 0 && -Largest(w) <= r[j] && (r[j] < 0 ==> j + w <= 256 && Zeros(r, j + 1, j + w))
    ensures Room(r, j + 1)
  {
    hide Pow2;
    VBits(r, j + 1);
    if r[j] > 0 {
      if j < 253 {
        Pow2Step(252 - j);
      } else {
        Pow2Step(0);
      }
    } else {
      var q := V(r, j + w);
      DigitSplit(r, j, w);
      VBits(r, j + w);
      Pow2Step(w - 1);
      QuotientPositive(Pow2(w), q);
      if 253 - j < w {
        MulAtLeast(Pow2(w), q);
        Pow2Order(253 - j, w - 1);
        assert false;
      }
      Pow2Add(w, 253 - j - w);
      Pow2Step(252 - j);
      AtMostNext(Pow2(w), q, Pow2(253 - j - w));
    }
  }

  lemma Pow2Step(a: nat)
    ensures Pow2(a + 1) == 2 * Pow2(a) && Pow2(a) >= 1 && Pow2(0) == 1
  {
  }

  lemma QuotientPositive(p: int, q: int)
    requires p > 0 && p * q > 0
    ensures q >= 1
  {
  }

  lemma AtMostNext(p: int, q: int, t: int)
    requires p > 0 && p * q < p * t + p
    ensures q <= t && p * q <= p * t
  {
    assert p * (t + 1) == p * t + p;
    CancelLess(p, q, t + 1);
    assert p * (t - q) == p * t - p * q;
    assert t - q >= 0;
  }

  /** An odd digit of magnitude below 2^(w-1), followed by w - 1 zeros. */
  ghost predicate Digit(r: seq<i8>, i: nat, w: nat)
    requires i < |r| && w > 0
  {
    && r[i] % 2 != 0 && -Largest(w) <= r[i] <= Largest(w)
    && forall k :: i < k < i + w && k < |r| ==> r[k] == 0
  }

  /** r[j] holds the bits of its window up to b - 1, which are cleared; nothing else of the number changed. */
  ghost predicate Absorbing(r: seq<i8>, j: nat, b: nat, w: nat, v: int) {
    && |r| == 256 && 1 <= b <= 7 && 2 <= w <= 7 && j + b <= 256
    && V(r, j) == v && Bits(r, j + 1, 256) && Zeros(r, j + 1, if b <= w then j + b else j + w)
    && r[j] % 2 != 0 && (if b < w then 0 < r[j] < Pow2(b) else -Largest(w) <= r[j] <= Largest(w))
  }

  lemma AbsorbAdd(was: seq<i8>, now: seq<i8>, j: nat, b: nat, w: nat, v: int)
    requires Absorbing(was, j, b, w, v) && b <= 6 && j + b < 256
    requires was[j + b] == 0 || (b < w - 1 && was[j + b] == 1)
    requires |now| == 256 && now == was[j := now[j]][j + b := 0] && now[j] == was[j] + was[j + b] * Pow2(b)
    ensures Absorbing(now, j, b + 1, w, v)
  {
    hide V, Pow2;
    Powers(b, w);
    if was[j + b] == 0 {
      assert was[j + b] * Pow2(b) == 0;
      assert now == was;
    } else {
      assert was[j + b] * Pow2(b) == Pow2(b);
      Absorbed(was, now, j, b);
      OddPlusEven(was[j], Pow2(b));
    }
  }

  lemma OddPlusEven(a: int, b: int)
    requires a % 2 != 0 && b % 2 == 0
    ensures (a + b) % 2 != 0
  {
  }

  lemma AbsorbCarry(was: seq<i8>, now: seq<i8>, j: nat, b: nat, w: nat, v: int)
    requires Absorbing(was, j, b, w, v) && b <= 6 && j + b < 256 && b == w - 1 && was[j + b] == 1
    requires |now| == 256 && now[j] == was[j] - Pow2(b) && Zeros(now, j + 1, j + b + 1) && Bits(now, j + b, 256)
    requires V(now, j + b) == V(was, j + b) + 1
    ensures Absorbing(now, j, b + 1, w, v)
  {
    hide V, Pow2;
    Powers(b, w);
    Carried(was, now, j, b);
  }

  /** Which branch a set bit takes: added inside the window, carried at its top, left alone beyond. */
  lemma Branches(r: seq<i8>, j: nat, b: nat, w: nat, v: int)
    requires Absorbing(r, j, b, w, v) && b <= 6 && j + b < 256
    ensures r[j] <= Largest(w) && r[j + b] * Pow2(b) == (if r[j + b] == 0 then 0 else Pow2(b)) && r[j + b] in {0, 1}
    ensures r[j + b] == 1 && b < w - 1 ==> r[j] + Pow2(b) <= Largest(w)
    ensures r[j + b] == 1 && b == w - 1 ==> r[j] + Pow2(b) > Largest(w) && r[j] - Pow2(b) >= -Largest(w)
    ensures r[j + b] == 1 && b > w - 1 ==> r[j] + Pow2(b) > Largest(w) && r[j] - Pow2(b) < -Largest(w)
    ensures -128 <= r[j] - Pow2(b) && r[j] + Pow2(b) < 128
  {
    hide V, Pow2;
    Powers(b, w);
  }

  /** Turn the bit r[j] == 1 into a digit that absorbs the bits of its window. */
  method Absorb(r: array<i8>, j: nat, w: nat)
    requires r.Length == 256 && 2 <= w <= 7 && j < 256 && r[j] == 1 && Bits(r[..], j, 256) && Room(r[..], j)
    modifies r
    ensures forall i :: 0 <= i < j ==> r[i] == old(r[i])
    ensures V(r[..], j) == old(V(r[..], j))
    ensures Digit(r[..], j, w) && Bits(r[..], j + 1, 256) && Room(r[..], j + 1)
  {
    hide V, Pow2, Largest, Room, Absorbing;
    ghost var v := V(r[..], j);
    AbsorbStart(r[..], j, w);
    var m := Largest(w);
    var b := 1;
    while b < 256 - j && b <= 6
      invariant 1 <= b <= 7 && j + b <= 256
      invariant forall i :: 0 <= i < j ==> r[i] == old(r[i])
      invariant Absorbing(r[..], j, b, w, v)
      decreases 7 - b
    {
      ghost var was := r[..];
      Branches(was, j, b, w, v);
      if r[j] + r[j + b] * Pow2(b) <= m {
        r[j] := r[j] + r[j + b] * Pow2(b);
        r[j + b] := 0;
        AbsorbAdd(was, r[..], j, b, w, v);
      } else if r[j] - r[j + b] * Pow2(b) >= -m {
        CarryStep(r, j, b, w, v, old(r[..]));
      } else if r[j + b] != 0 {
        break;
      }
      b := b + 1;
    }
    AbsorbEnd(r[..], j, b, w, v, old(r[..]));
  }

  /** r[j] -= 1 << b, and carry the bit into the positions above. */
  method CarryStep(r: array<i8>, j: nat, b: nat, ghost w: nat, ghost v: int, ghost start: seq<i8>)
    requires r.Length == 256 && b <= 6 && j + b < 256 && Absorbing(r[..], j, b, w, v) && r[j + b] == 1 && b == w - 1
    requires |start| == 256 && Room(start, j) && V(start, j) == v
    modifies r
    ensures forall i :: 0 <= i < j ==> r[i] == old(r[i])
    ensures Absorbing(r[..], j, b + 1, w, v)
  {
    hide V, Pow2, Largest;
    ghost var was := r[..];
    Branches(was, j, b, w, v);
    SameRoom(start, was, j);
    CarryFits(was, j, w);
    r[j] := r[j] - r[j + b] * Pow2(b);
    VFrame(was, r[..], j + b);
    Increment(r, j + b);
    AbsorbCarry(was, r[..], j, b, w, v);
  }

  lemma SameRoom(start: seq<i8>, r: seq<i8>, j: nat)
    requires |start| == |r| && j <= |r| && V(start, j) == V(r, j) && Room(start, j)
    ensures Room(r, j)
  {
  }

  lemma AbsorbStart(r: seq<i8>, j: nat, w: nat)
    requires |r| == 256 && 2 <= w <= 7 && j < 256 && r[j] == 1 && Bits(r, j, 256)
    ensures Absorbing(r, j, 1, w, V(r, j))
  {
    hide V;
    Windows(w);
  }

  lemma AbsorbEnd(r: seq<i8>, j: nat, b: nat, w: nat, v: int, start: seq<i8>)
    requires Absorbing(r, j, b, w, v) && |start| == 256 && start[j] == 1 && Bits(start, j, 256) && Room(start, j) &&
        V(start, j) == v
    requires b >= w || j + b == 256
    ensures V(r, j) == v && Digit(r, j, w) && Bits(r, j + 1, 256) && Room(r, j + 1)
  {
    hide Pow2;
    VBits(start, j + 1);
    SameRoom(start, r, j);
    if b < w {
      Powers(b, w);
    }
    RoomNext(r, j, w);
  }

  lemma Windows(w: nat)
    requires 2 <= w <= 7
    ensures 1 <= Largest(w) <= 63 && Pow2(1) == 2
  {
    Powers(1, w);
  }

  /** Powers of two up to 64 against the window. */
  lemma Powers(b: nat, w: nat)
    requires 1 <= b <= 6 && 2 <= w <= 7
    ensures 2 <= Pow2(b) <= 64 && Pow2(b) % 2 == 0 && Pow2(b + 1) == 2 * Pow2(b)
    ensures Largest(w) <= 63
    ensures b < w - 1 ==> 2 * Pow2(b) <= Largest(w) + 1
    ensures b == w - 1 ==> Pow2(b) == Largest(w) + 1
    ensures b > w - 1 ==> Pow2(b) >= 2 * Largest(w) + 2
  {
    hide Pow2;
    SmallPowers();
  }

  lemma SmallPowers()
    ensures Pow2(0) == 1 && Pow2(1) == 2 && Pow2(2) == 4 && Pow2(3) == 8 && Pow2(4) == 16 && Pow2(5) == 32 &&
        Pow2(6) == 64 && Pow2(7) == 128
  {
    assert Pow2(1) == 2 * Pow2(0);
    assert Pow2(3) == 8;
    assert Pow2(5) == 32;
  }

  lemma Absorbed(was: seq<i8>, now: seq<i8>, j: nat, b: nat)
    requires |was| == |now| && 0 < b && j + b < |was| && Zeros(was, j + 1, j + b)
    requires now == was[j := now[j]][j + b := 0] && now[j] == was[j] + was[j + b] * Pow2(b)
    ensures V(now, j) == V(was, j)
  {
    DigitSplit(was, j, b);
    DigitSplit(now, j, b);
    VFrame(was, now, j + b + 1);
    Shifted(Pow2(b), V(was, j + b), was[j + b]);
  }

  lemma Shifted(p: int, v: int, t: int)
    ensures t * p + p * (v - t) == p * v && p * (v + t) - t * p == p * v
  {
  }

  lemma Carried(was: seq<i8>, now: seq<i8>, j: nat, b: nat)
    requires |was| == |now| && 0 < b && j + b < |was| && Zeros(was, j + 1, j + b) && Zeros(now, j + 1, j + b)
    requires was[j + b] == 1 && now[j] == was[j] - Pow2(b) && V(now, j + b) == V(was, j + b) + 1
    ensures V(now, j) == V(was, j)
  {
    DigitSplit(was, j, b);
    DigitSplit(now, j, b);
    Shifted(Pow2(b), V(was, j + b), 1);
  }

  // ---- the binary expansion ----

  ghost predicate HasBits(r: seq<i8>, k: nat, x: nat, n: nat)
    requires k + n <= |r|
  {
    forall i :: 0 <= i < n ==> r[k + i] == BitOf(x, i)
  }

  ghost function BitOf(x: nat, i: nat): int {
    (x / Pow2(i)) % 2
  }

  lemma HalfBit(x: nat, i: nat)
    ensures BitOf(x, i + 1) == BitOf(x / 2, i) && x / Pow2(i) / 2 == x / Pow2(i + 1)
    ensures BitOf(x, 0) == x % 2
  {
    DivDiv(x, Pow2(i));
    assert x / Pow2(0) == x;
  }

  lemma DivDiv(x: nat, p: nat)
    requires p > 0
    ensures x / p / 2 == x / (2 * p) == x / 2 / p
  {
    var q, r := x / (2 * p), x % (2 * p);
    var h := r / p;
    HalfRange(p, r);
    assert x == p * (2 * q + h) + r % p by {
      assert x == (2 * p) * q + r;
      assert p * (2 * q + h) == (2 * p) * q + p * h;
    }
    DivModUnique(x, p, 2 * q + h, r % p);
    HalfOf(x, p, q, r);
    DivModUnique(x / 2, p, q, r / 2);
  }

  lemma HalfOf(x: nat, p: nat, q: nat, r: nat)
    requires x == (2 * p) * q + r && r < 2 * p
    ensures x / 2 == p * q + r / 2 && r / 2 < p
  {
    assert (2 * p) * q == 2 * (p * q);
  }

  lemma HalfRange(p: nat, r: nat)
    requires p > 0 && r < 2 * p
    ensures 0 <= r / p <= 1 && r == p * (r / p) + r % p
  {
    if r < p {
      DivModUnique(r, p, 0, r);
    } else {
      DivModUnique(r, p, 1, r - p);
    }
  }

  /** n bits of x from position k on: the number there is x mod 2^n plus 2^n times what follows. */
  lemma {:induction false} BitsValue(r: seq<i8>, k: nat, x: nat, n: nat)
    requires k + n <= |r| && HasBits(r, k, x, n)
    ensures V(r, k) == x % Pow2(n) + Pow2(n) * V(r, k + n)
    decreases n
  {
    hide Pow2, BitOf;
    Pow2Step(0);
    if n == 0 {
      assert x % 1 == 0;
    } else {
      forall i | 0 <= i < n - 1
        ensures r[k + 1 + i] == BitOf(x / 2, i)
      {
        HalfBit(x, i);
        assert r[k + (i + 1)] == BitOf(x, i + 1);
      }
      BitsValue(r, k + 1, x / 2, n - 1);
      HalfBit(x, 0);
      assert r[k + 0] == BitOf(x, 0);
      Pow2Step(n - 1);
      ModDouble(x, Pow2(n - 1));
      Double(Pow2(n - 1) * V(r, k + n), 1, Pow2(n - 1) * V(r, k + n));
      DoubleOut(Pow2(n - 1), V(r, k + n));
    }
  }

  lemma DoubleOut(p: int, v: int)
    ensures (2 * p) * v == 2 * (p * v)
  {
  }

  /** Write the n low bits of x at position k. */
  method WriteBits(r: array<i8>, k: nat, x: u64, n: nat)
    requires k + n <= r.Length
    modifies r
    ensures HasBits(r[..], k, x, n)
    ensures forall i :: 0 <= i < r.Length && !(k <= i < k + n) ==> r[i] == old(r[i])
  {
    hide Pow2, BitOf;
    Pow2Step(0);
    var v: nat := x;
    for j := 0 to n
      invariant v == x / Pow2(j)
      invariant forall i :: 0 <= i < j ==> r[k + i] == BitOf(x, i)
      invariant forall i :: 0 <= i < r.Length && !(k <= i < k + j) ==> r[i] == old(r[i])
    {
      var bit := LowBits(v, 1, 1);
      BitValue(x, j, bit);
      r[k + j] := bit;
      HalfBit(x, j);
      v := v / 2;
    }
  }

  lemma BitValue(x: nat, j: nat, bit: nat)
    requires bit == (x / Pow2(j)) % Pow2(1)
    ensures bit == BitOf(x, j) <= 1
  {
    assert Pow2(1) == 2;
  }

  /** Put the binary expansion of s into r. */
  method BinaryExpansion(r: array<i8>, s: Limbs)
    requires r.Length == 256 && Proper(s) && s[4] < 0x1_0000_0000
    modifies r
    ensures Bits(r[..], 0, 256) && V(r[..], 0) == Value(s)
  {
    hide Pow2, BitOf, V, Value;
    for i := 0 to 4
      invariant forall l :: 0 <= l < i ==> HasBits(r[..], 56 * l, s[l], 56)
    {
      ghost var was := r[..];
      WriteBits(r, 56 * i, s[i], 56);
      forall l | 0 <= l < i
        ensures HasBits(r[..], 56 * l, s[l], 56)
      {
        KeepBits(was, r[..], 56 * l, s[l], 56);
      }
    }
    ghost var was := r[..];
    WriteBits(r, 224, s[4], 32);
    forall l | 0 <= l < 4
      ensures HasBits(r[..], 56 * l, s[l], 56)
    {
      KeepBits(was, r[..], 56 * l, s[l], 56);
    }
    ExpansionValue(r[..], s);
  }

  lemma KeepBits(was: seq<i8>, now: seq<i8>, k: nat, x: nat, n: nat)
    requires k + n <= |was| == |now| && HasBits(was, k, x, n)
    requires forall i :: k <= i < k + n ==> now[i] == was[i]
    ensures HasBits(now, k, x, n)
  {
  }

  lemma ExpansionValue(r: seq<i8>, s: Limbs)
    requires |r| == 256 && Proper(s) && s[4] < 0x1_0000_0000
    requires HasBits(r, 0, s[0], 56) && HasBits(r, 56, s[1], 56) && HasBits(r, 112, s[2], 56) &&
        HasBits(r, 168, s[3], 56)
    requires HasBits(r, 224, s[4], 32)
    ensures Bits(r, 0, 256) && V(r, 0) == Value(s)
  {
    hide Pow2, BitOf, V;
    BitsAre(r, 0, s[0], 56); BitsAre(r, 56, s[1], 56); BitsAre(r, 112, s[2], 56); BitsAre(r, 168, s[3], 56);
    BitsAre(r, 224, s[4], 32);
    BitsValue(r, 0, s[0], 56); BitsValue(r, 56, s[1], 56); BitsValue(r, 112, s[2], 56); BitsValue(r, 168, s[3], 56);
    BitsValue(r, 224, s[4], 32);
    Pow2Values();
    VEnd(r);
    SmallMod(s[0], TWO56); SmallMod(s[1], TWO56); SmallMod(s[2], TWO56); SmallMod(s[3], TWO56);
    SmallMod(s[4], 0x1_0000_0000);
  }

  lemma VEnd(r: seq<i8>)
    ensures V(r, |r|) == 0
  {
  }

  lemma BitsAre(r: seq<i8>, k: nat, x: nat, n: nat)
    requires k + n <= |r| && HasBits(r, k, x, n)
    ensures Bits(r, k, k + n)
  {
    forall i | k <= i < k + n
      ensures r[i] == 0 || r[i] == 1
    {
      assert r[k + (i - k)] == BitOf(x, i - k);
    }
  }

  // ---- the whole recoding ----

  ghost predicate Digits(r: seq<i8>, n: nat, w: nat)
    requires n <= |r| && w > 0
  {
    forall i :: 0 <= i < n && r[i] != 0 ==> Digit(r, i, w)
  }

  lemma DigitsKept(was: seq<i8>, now: seq<i8>, j: nat, w: nat)
    requires |was| == |now| && j < |was| && w > 0 && Digits(was, j, w) && was[j] != 0
    requires forall i :: 0 <= i < j ==> now[i] == was[i]
    requires Digit(now, j, w)
    ensures Digits(now, j + 1, w)
  {
    forall i | 0 <= i < j && now[i] != 0
      ensures Digit(now, i, w)
    {
      assert Digit(was, i, w);
      assert i + w <= j;
    }
  }

  lemma RoomZero(r: seq<i8>, j: nat)
    requires |r| == 256 && j < 256 && Room(r, j) && r[j] == 0
    ensures Room(r, j + 1)
  {
    if j < 253 {
      Pow2Step(252 - j);
    } else {
      Pow2Step(0);
    }
  }

  /** The sliding-window form of s: same value, odd digits below 2^(w-1), no two within w positions. */
  method Recode(r: array<i8>, s: Limbs, w: nat)
    requires r.Length == 256 && Proper(s) && Value(s) < Pow2(253) && 2 <= w <= 7
    modifies r
    ensures V(r[..], 0) == Value(s)
    ensures Digits(r[..], 256, w)
  {
    hide V, Pow2, Value, Room, Digit;
    TopSmall(s);
    BinaryExpansion(r, s);
    RoomStart(r[..]);
    for j := 0 to 256
      invariant V(r[..], 0) == Value(s) && Bits(r[..], j, 256) && Room(r[..], j) && Digits(r[..], j, w)
    {
      if r[j] == 0 {
        RoomZero(r[..], j);
        continue;
      }
      ghost var was := r[..];
      Absorb(r, j, w);
      DigitsKept(was, r[..], j, w);
      assert was[0..j] == r[..][0..j];
      VBelow(was, r[..], 0, j);
    }
  }

  lemma TopSmall(s: Limbs)
    requires Value(s) < Pow2(253)
    ensures s[4] < 0x1_0000_0000
  {
    hide Pow2;
    Pow2Values();
    Pow2Less(253, 256);
    Pow2Add(128, 128);
  }

  lemma RoomStart(r: seq<i8>)
    requires |r| == 256 && 0 <= V(r, 0) < Pow2(253)
    ensures Room(r, 0)
  {
  }
}
