/**
 Signed radix-16 recoding of a scalar.
 */
module Window4 {
  import opened Words
  import opened ModmBatch
  import opened SlidingWindow

  /** The number with radix-16 digits ds, on top of which x continues. */
  ghost function Fold16(ds: seq<i8>, x: int): int {
    if ds == [] then x else ds[0] + 16 * Fold16(ds[1..], x)
  }

  lemma {:induction false} Fold16Append(a: seq<i8>, b: seq<i8>, x: int)
    ensures Fold16(a + b, x) == Fold16(a, Fold16(b, x))
  {
    if a == [] {
      assert a + b == b;
    } else {
      Fold16Append(a[1..], b, x);
      assert (a + b)[1..] == a[1..] + b;
    }
  }

  lemma Fold16One(d: i8, x: int)
    ensures Fold16([d], x) == d + 16 * x
  {
    assert [d][1..] == [];
  }

  /** One digit split off the continuation. */
  lemma Fold16Push(a: seq<i8>, d: i8, x: int)
    ensures Fold16(a + [d], x) == Fold16(a, d + 16 * x)
  {
    Fold16Append(a, [d], x);
    Fold16One(d, x);
  }

  lemma {:induction false} Fold16Linear(ds: seq<i8>, x: int)
    ensures Fold16(ds, x) == Fold16(ds, 0) + Pow2(4 * |ds|) * x
  {
    hide Fold16, Pow2;
    Fold16Unfold(ds, x);
    Fold16Unfold(ds, 0);
    Pow2Start();
    if ds != [] {
      Fold16Linear(ds[1..], x);
      Pow2Add(4, 4 * |ds[1..]|);
      Scale16(Pow2(4 * |ds[1..]|), x);
    }
  }

  lemma Fold16Unfold(ds: seq<i8>, x: int)
    ensures Fold16(ds, x) == if ds == [] then x else ds[0] as int + 16 * Fold16(ds[1..], x)
  {
  }

  lemma Pow2Start()
    ensures Pow2(0) == 1 && Pow2(4) == 16
  {
  }

  lemma Scale16(p: int, x: int)
    ensures 16 * (p * x) == (16 * p) * x
  {
  }

  /** Write the n radix-16 digits of x at position k. */
  method WriteQuads(r: array<i8>, k: nat, x: u64, n: nat)
    requires k + n <= r.Length && x < Pow2(4 * n)
    modifies r
    ensures Fold16(r[k..k + n], 0) == x && (forall i :: k <= i < k + n ==> 0 <= r[i] <= 15)
    ensures n > 0 ==> r[k + n - 1] as int * Pow2(4 * (n - 1)) <= x
    ensures forall i :: 0 <= i < r.Length && !(k <= i < k + n) ==> r[i] == old(r[i])
  {
    hide Pow2, Fold16;
    Pow2Step(0);
    Fold16Empty(x);
    assert r[k..k] == [];
    var v: nat := x;
    for j := 0 to n
      invariant Fold16(r[k..k + j], v) == x && v < Pow2(4 * (n - j)) && v * Pow2(4 * j) <= x
      invariant forall i :: k <= i < k + j ==> 0 <= r[i] <= 15
      invariant j == n > 0 ==> r[k + n - 1] as int * Pow2(4 * (n - 1)) <= x
      invariant forall i :: 0 <= i < r.Length && !(k <= i < k + j) ==> r[i] == old(r[i])
    {
      ghost var done := r[k..k + j];
      var quad := Low4(v);
      r[k + j] := quad;
      assert r[k..k + j] == done;
      assert r[k..k + (j + 1)] == done + [quad];
      Fold16Push(done, quad, v / 16);
      NextQuad(v, j, n, x);
      v := v / 16;
    }
  }

  lemma Fold16Empty(x: int)
    ensures Fold16([], x) == x
  {
  }

  /** v & 15 */
  method Low4(v: nat) returns (r: nat)
    ensures r == v % 16
  {
    assert Pow2(4) == 16;
    r := LowBits(v, 4, 15);
  }

  lemma NextQuad(v: nat, j: nat, n: nat, x: nat)
    requires j < n && v < Pow2(4 * (n - j)) && v * Pow2(4 * j) <= x
    ensures v / 16 < Pow2(4 * (n - (j + 1))) && (v / 16) * Pow2(4 * (j + 1)) <= x
    ensures j + 1 == n ==> (v % 16) * Pow2(4 * (n - 1)) <= x
  {
    Pow2Add(4, 4 * (n - j - 1));
    Pow2Add(4, 4 * j);
    assert Pow2(4) == 16;
    hide Pow2;
    var p := Pow2(4 * j);
    assert (v / 16) * (16 * p) == (16 * (v / 16)) * p;
    assert 16 * (v / 16) <= v;
    MulLe(16 * (v / 16), v, p);
    MulLe(v % 16, v, p);
  }

  lemma MulLe(a: int, b: int, p: int)
    requires a <= b && p >= 0
    ensures a * p <= b * p
  {
  }

  /** The radix-16 expansion of s, 14 digits a limb and 8 for the last. */
  method Quads(r: array<i8>, s: Limbs)
    requires r.Length == 64 && Proper(s) && s[4] < 0x8000_0000
    modifies r
    ensures Fold16(r[..], 0) == Value(s) && (forall i :: 0 <= i < 64 ==> 0 <= r[i] <= 15) && r[63] <= 7
  {
    hide Pow2, Fold16, Value;
    QuadPowers();
    for i := 0 to 4
      invariant forall l :: 0 <= l < i ==> Fold16(r[14 * l..14 * l + 14], 0) == s[l]
      invariant forall k :: 0 <= k < 14 * i ==> 0 <= r[k] <= 15
    {
      ghost var was := r[..];
      WriteQuads(r, 14 * i, s[i], 14);
      forall l | 0 <= l < i
        ensures Fold16(r[14 * l..14 * l + 14], 0) == s[l]
      {
        assert r[14 * l..14 * l + 14] == was[14 * l..14 * l + 14];
      }
    }
    ghost var was := r[..];
    WriteQuads(r, 56, s[4], 8);
    forall l | 0 <= l < 4
      ensures Fold16(r[14 * l..14 * l + 14], 0) == s[l]
    {
      assert r[14 * l..14 * l + 14] == was[14 * l..14 * l + 14];
    }
    TopQuad(r[63], s[4]);
    QuadsValue(r[..], s);
  }

  lemma QuadPowers()
    ensures Pow2(4 * 14) == TWO56 && Pow2(4 * 8) == 0x1_0000_0000 && Pow2(4 * (8 - 1)) == 0x1000_0000
  {
    Pow2Values();
    assert Pow2(4) == 16;
    Pow2Add(4, 28);
  }

  lemma TopQuad(top: i8, x: u64)
    requires top as int * 0x1000_0000 <= x < 0x8000_0000
    ensures top <= 7
  {
  }

  lemma QuadsValue(r: seq<i8>, s: Limbs)
    requires |r| == 64
    requires Fold16(r[0..14], 0) == s[0] && Fold16(r[14..28], 0) == s[1] && Fold16(r[28..42], 0) == s[2] &&
        Fold16(r[42..56], 0) == s[3]
    requires Fold16(r[56..64], 0) == s[4]
    ensures Fold16(r, 0) == Value(s)
  {
    hide Fold16, Pow2;
    var d0, d1, d2, d3, d4 := r[0..14], r[14..28], r[28..42], r[42..56], r[56..64];
    assert r == d0 + (d1 + (d2 + (d3 + d4)));
    Fold16Append(d0, d1 + (d2 + (d3 + d4)), 0);
    Fold16Append(d1, d2 + (d3 + d4), 0);
    Fold16Append(d2, d3 + d4, 0);
    Fold16Append(d3, d4, 0);
    QuadPowers();
    Fold16Linear(d3, Fold16(d4, 0));
    Fold16Linear(d2, Fold16(d3 + d4, 0));
    Fold16Linear(d1, Fold16(d2 + (d3 + d4), 0));
    Fold16Linear(d0, Fold16(d1 + (d2 + (d3 + d4)), 0));
  }

  /** Digits -8..7 but for the top one in 0..8. */
  ghost predicate Signed16(r: seq<i8>) {
    |r| == 64 && (forall i :: 0 <= i < 63 ==> -8 <= r[i] <= 7) && 0 <= r[63] <= 8
  }

  /** The signed radix-16 form of s. */
  method Recode4(r: array<i8>, s: Limbs)
    requires r.Length == 64 && Proper(s) && s[4] < 0x8000_0000
    modifies r
    ensures Fold16(r[..], 0) == Value(s) && Signed16(r[..])
  {
    hide Fold16, Value;
    Quads(r, s);
    var carry: i8 := 0;
    Fold16Empty(Fold16(r[..], 0));
    assert r[..0] == [] && r[0..] == r[..];
    for i := 0 to 63
      invariant Fold16(r[..i], carry + Fold16(r[i..], 0)) == Value(s)
      invariant 0 <= carry <= 1 && 0 <= r[i] + carry <= 16 && r[i] >= 0
      invariant forall k :: 0 <= k < i ==> -8 <= r[k] <= 7
      invariant forall k :: i < k < 64 ==> 0 <= r[k] <= 15
      invariant if i < 63 then r[63] <= 7 else r[63] + carry <= 8
    {
      ghost var was, c := r[..], carry;
      var a: i8 := r[i] + carry;
      r[i] := a;
      r[i + 1] := r[i + 1] + a / 16;
      r[i] := a % 16;
      carry := r[i] / 8;
      r[i] := r[i] - carry * 16;
      CarryQuad(was, r[..], i, c, carry);
    }
    LastQuad(r[..], carry);
    ghost var was := r[..];
    r[63] := r[63] + carry;
    assert r[..] == was[..63] + [was[63] + carry];
    Fold16Push(was[..63], r[63], 0);
  }

  lemma CarryQuad(was: seq<i8>, now: seq<i8>, i: nat, c: int, c': int)
    requires |was| == |now| == 64 && i < 63
    requires was[..i] == now[..i] && was[i + 2..] == now[i + 2..]
    requires now[i] as int + 16 * (c' + now[i + 1]) == was[i] as int + c + 16 * (was[i + 1] as int)
    ensures Fold16(now[..i + 1], c' + Fold16(now[i + 1..], 0)) == Fold16(was[..i], c + Fold16(was[i..], 0))
  {
    hide Fold16;
    var rest := Fold16(was[i + 2..], 0);
    assert was[i..] == [was[i]] + ([was[i + 1]] + was[i + 2..]);
    Fold16Append([was[i]], [was[i + 1]] + was[i + 2..], 0);
    Fold16Append([was[i + 1]], was[i + 2..], 0);
    Fold16One(was[i + 1], rest);
    Fold16One(was[i], was[i + 1] + 16 * rest);
    assert now[i + 1..] == [now[i + 1]] + now[i + 2..];
    Fold16Append([now[i + 1]], now[i + 2..], 0);
    Fold16One(now[i + 1], rest);
    assert now[..i + 1] == now[..i] + [now[i]];
    Fold16Push(now[..i], now[i], c' + now[i + 1] + 16 * rest);
  }

  lemma LastQuad(r: seq<i8>, carry: i8)
    requires |r| == 64
    ensures carry + Fold16(r[63..], 0) == carry + r[63]
  {
    hide Fold16;
    assert r[63..] == [r[63]];
    Fold16One(r[63], 0);
  }
}
