/**
 Field addition, subtraction, negation and their reducing variants.
 */
module FieldBasic {
  import opened Words
  import opened Field25519

  // the limbs of 2p and 4p
  const TWO_P0: int := 0xf_ffff_ffff_ffda
  const TWO_P1234: int := 0xf_ffff_ffff_fffe
  const FOUR_P0: int := 0x1f_ffff_ffff_ffb4
  const FOUR_P1234: int := 0x1f_ffff_ffff_fffc

  /** out = a + b */
  function Add(a: Fe, b: Fe): (r: Fe)
    requires Below(a, TWO63) && Below(b, TWO63)
    ensures F(r) == Plus(F(a), F(b))
    ensures forall i :: 0 <= i < 5 ==> r[i] == a[i] as int + b[i]
  {
    var r: Fe := [a[0] + b[0], a[1] + b[1], a[2] + b[2], a[3] + b[3], a[4] + b[4]];
    AddValue(a, b, r);
    r
  }

  lemma AddValue(a: Fe, b: Fe, r: Fe)
    requires r[0] == a[0] as int + b[0] && r[1] == a[1] as int + b[1] && r[2] == a[2] as int + b[2] &&
        r[3] == a[3] as int + b[3] && r[4] == a[4] as int + b[4]
    ensures Val(r) == Val(a) + Val(b) && F(r) == Plus(F(a), F(b))
  {
    PlusMod(Val(a), Val(b));
  }

  /** out = a - b, offset by 2p to stay positive */
  function Sub(a: Fe, b: Fe): (r: Fe)
    requires Below(a, TWO63) && b[0] <= TWO_P0 && b[1] <= TWO_P1234 && b[2] <= TWO_P1234 && b[3] <= TWO_P1234 &&
        b[4] <= TWO_P1234
    ensures F(r) == Minus(F(a), F(b))
    ensures forall i :: 0 <= i < 5 ==> r[i] <= a[i] as int + TWO_P1234
  {
    var r: Fe := [a[0] + 0xf_ffff_ffff_ffda - b[0], a[1] + 0xf_ffff_ffff_fffe - b[1], a[2] + 0xf_ffff_ffff_fffe - b[2],
        a[3] + 0xf_ffff_ffff_fffe - b[3], a[4] + 0xf_ffff_ffff_fffe - b[4]];
    SubValue(a, b, Val51(r[0], r[1], r[2], r[3], r[4]), 2);
    r
  }

  lemma SubValue(a: Fe, b: Fe, v: int, k: int)
    requires v == Val51(a[0], a[1], a[2], a[3], a[4]) - Val51(b[0], b[1], b[2], b[3], b[4]) + k * P
    ensures v % P == Minus(F(a), F(b))
  {
    hide Val51, Val, Minus;
    ValIs(a);
    ValIs(b);
    MinusMod(Val(a), Val(b));
    ModIs(v, k, Val(a) - Val(b));
  }

  /** out = a - b, offset by 4p, for a b that is itself a sum or difference */
  function SubAfterBasic(a: Fe, b: Fe): (r: Fe)
    requires Below(a, TWO63) && b[0] <= FOUR_P0 && b[1] <= FOUR_P1234 && b[2] <= FOUR_P1234 && b[3] <= FOUR_P1234 &&
        b[4] <= FOUR_P1234
    ensures F(r) == Minus(F(a), F(b))
    ensures forall i :: 0 <= i < 5 ==> r[i] <= a[i] as int + FOUR_P1234
  {
    var r: Fe := [a[0] + 0x1f_ffff_ffff_ffb4 - b[0], a[1] + 0x1f_ffff_ffff_fffc - b[1],
        a[2] + 0x1f_ffff_ffff_fffc - b[2], a[3] + 0x1f_ffff_ffff_fffc - b[3], a[4] + 0x1f_ffff_ffff_fffc - b[4]];
    SubValue(a, b, Val51(r[0], r[1], r[2], r[3], r[4]), 4);
    r
  }

  /** out = a + b, carried; out may be either operand */
  method AddReduce(out: array<u64>, a: array<u64>, b: array<u64>)
    requires out.Length == 5 && a.Length == 5 && b.Length == 5 && Below(a[..], TWO54) && Below(b[..], TWO54)
    modifies out
    ensures Below(out[..], TIGHT) && F(out[..]) == old(Plus(F(a[..]), F(b[..])))
  {
    hide F, Plus, Val, Val51, Lo, Hi;
    ghost var x, y := a[..], b[..];
    var c;
    out[0], c := Limb(a[0] + b[0]);
    out[1], c := Limb(a[1] + b[1] + c);
    out[2], c := Limb(a[2] + b[2] + c);
    out[3], c := Limb(a[3] + b[3] + c);
    out[4], c := Limb(a[4] + b[4] + c);
    out[0] := out[0] + c * 19;
    AddReduced(x, y, out[..]);
  }

  /** x & reduce_mask_51 and x >> 51 */
  method Limb(x: u64) returns (lo: u64, c: u64)
    ensures lo == Lo(x) < B1 && c == Hi(x) < 0x2000
  {
    LoHi(x);
    lo, c := Split51(x);
  }

  lemma FoldedElement(a0: nat, a1: nat, a2: nat, a3: nat, a4: nat, out: Fe)
    requires Folded(a0, a1, a2, a3, a4, out) && a0 < 3 * TWO54 && a1 < 3 * TWO54 && a2 < 3 * TWO54 && a3 < 3 * TWO54 &&
        a4 < 3 * TWO54
    ensures Below(out, TIGHT) && F(out) == Val51(a0, a1, a2, a3, a4) % P
  {
    hide Folded, Val, Val51;
    var k := FoldedValue(a0, a1, a2, a3, a4, out);
    ModIs(Val51(a0, a1, a2, a3, a4), k, Val(out));
  }

  lemma AddReduced(a: Fe, b: Fe, out: Fe)
    requires Below(a, TWO54) && Below(b, TWO54)
    requires Folded(a[0] as int + b[0], a[1] as int + b[1], a[2] as int + b[2], a[3] as int + b[3], a[4] as int + b[4],
        out)
    ensures Below(out, TIGHT) && F(out) == Plus(F(a), F(b))
  {
    hide Folded, Plus;
    var r: Fe := [a[0] + b[0], a[1] + b[1], a[2] + b[2], a[3] + b[3], a[4] + b[4]];
    AddValue(a, b, r);
    FoldedElement(r[0], r[1], r[2], r[3], r[4], out);
    ValIs(r);
  }

  /** out = a - b, offset by 4p and carried; out may be either operand */
  method SubReduce(out: array<u64>, a: array<u64>, b: array<u64>)
    requires out.Length == 5 && a.Length == 5 && b.Length == 5 && Below(a[..], TWO54)
    requires b[0] <= FOUR_P0 && b[1] <= FOUR_P1234 && b[2] <= FOUR_P1234 && b[3] <= FOUR_P1234 && b[4] <= FOUR_P1234
    modifies out
    ensures Below(out[..], TIGHT) && F(out[..]) == old(Minus(F(a[..]), F(b[..])))
  {
    hide F, Minus, Val, Val51, Lo, Hi;
    ghost var x, y := a[..], b[..];
    var c;
    out[0], c := Limb(a[0] + 0x1f_ffff_ffff_ffb4 - b[0]);
    out[1], c := Limb(a[1] + 0x1f_ffff_ffff_fffc - b[1] + c);
    out[2], c := Limb(a[2] + 0x1f_ffff_ffff_fffc - b[2] + c);
    out[3], c := Limb(a[3] + 0x1f_ffff_ffff_fffc - b[3] + c);
    out[4], c := Limb(a[4] + 0x1f_ffff_ffff_fffc - b[4] + c);
    out[0] := out[0] + c * 19;
    SubReduced(x, y, out[..]);
  }

  lemma SubReduced(a: Fe, b: Fe, out: Fe)
    requires Below(a, TWO54) && b[0] <= FOUR_P0 && b[1] <= FOUR_P1234 && b[2] <= FOUR_P1234 && b[3] <= FOUR_P1234 &&
        b[4] <= FOUR_P1234
    requires Folded(a[0] as int + 0x1f_ffff_ffff_ffb4 - b[0], a[1] as int + 0x1f_ffff_ffff_fffc - b[1],
        a[2] as int + 0x1f_ffff_ffff_fffc - b[2], a[3] as int + 0x1f_ffff_ffff_fffc - b[3],
                    a[4] as int + 0x1f_ffff_ffff_fffc - b[4], out)
    ensures Below(out, TIGHT) && F(out) == Minus(F(a), F(b))
  {
    hide Folded, Minus, F, Val;
    var r := SubAfterBasic(a, b);
    FoldedElement(a[0] as int + 0x1f_ffff_ffff_ffb4 - b[0], a[1] as int + 0x1f_ffff_ffff_fffc - b[1],
        a[2] as int + 0x1f_ffff_ffff_fffc - b[2], a[3] as int + 0x1f_ffff_ffff_fffc - b[3],
                  a[4] as int + 0x1f_ffff_ffff_fffc - b[4], out);
    FIs(r);
  }

  lemma FIs(r: Fe)
    ensures F(r) == Val51(r[0], r[1], r[2], r[3], r[4]) % P
  {
    hide Val51, Val;
    ValIs(r);
  }

  /** out = -a, offset by 2p and carried; out may be a */
  method Neg(out: array<u64>, a: array<u64>)
    requires out.Length == 5 && a.Length == 5
    requires a[0] <= TWO_P0 && a[1] <= TWO_P1234 && a[2] <= TWO_P1234 && a[3] <= TWO_P1234 && a[4] <= TWO_P1234
    modifies out
    ensures Below(out[..], TIGHT) && F(out[..]) == old(Minus(0, F(a[..])))
  {
    hide F, Minus, Val, Val51, Lo, Hi;
    ghost var x := a[..];
    var c;
    out[0], c := Limb(0xf_ffff_ffff_ffda - a[0]);
    out[1], c := Limb(0xf_ffff_ffff_fffe - a[1] + c);
    out[2], c := Limb(0xf_ffff_ffff_fffe - a[2] + c);
    out[3], c := Limb(0xf_ffff_ffff_fffe - a[3] + c);
    out[4], c := Limb(0xf_ffff_ffff_fffe - a[4] + c);
    out[0] := out[0] + c * 19;
    Negated(x, out[..]);
  }

  lemma Negated(a: Fe, out: Fe)
    requires a[0] <= TWO_P0 && a[1] <= TWO_P1234 && a[2] <= TWO_P1234 && a[3] <= TWO_P1234 && a[4] <= TWO_P1234
    requires Folded(0xf_ffff_ffff_ffda - a[0], 0xf_ffff_ffff_fffe - a[1], 0xf_ffff_ffff_fffe - a[2],
        0xf_ffff_ffff_fffe - a[3], 0xf_ffff_ffff_fffe - a[4], out)
    ensures Below(out, TIGHT) && F(out) == Minus(0, F(a))
  {
    hide Folded, Minus, F, Val;
    var zero: Fe := [0, 0, 0, 0, 0];
    var r := Sub(zero, a);
    FoldedElement(0xf_ffff_ffff_ffda - a[0], 0xf_ffff_ffff_fffe - a[1], 0xf_ffff_ffff_fffe - a[2],
        0xf_ffff_ffff_fffe - a[3], 0xf_ffff_ffff_fffe - a[4], out);
    FIs(r);
    FZero(zero);
  }

  lemma FZero(z: Fe)
    requires z == [0, 0, 0, 0, 0]
    ensures F(z) == 0
  {
    DivModUnique(0, P, 0, 0);
  }

  /** if (iswap) swap(a, b), by masks */
  method SwapConditional(a: array<u64>, b: array<u64>, iswap: u64)
    requires a.Length == 5 && b.Length == 5 && a != b && iswap <= 1
    modifies a, b
    ensures iswap == 1 ==> a[..] == old(b[..]) && b[..] == old(a[..])
    ensures iswap == 0 ==> a[..] == old(a[..]) && b[..] == old(b[..])
  {
    var swap := Sub64(0, iswap);
    for i := 0 to 5
      invariant forall k :: 0 <= k < i ==>
        a[k] == (if iswap == 1 then old(b[k]) else old(a[k])) && b[k] == (if iswap == 1 then old(a[k]) else old(b[k]))
      invariant forall k :: i <= k < 5 ==> a[k] == old(a[k]) && b[k] == old(b[k])
    {
      var x, y := a[i], b[i];
      a[i] := Select(x, y, swap);
      b[i] := Select(y, x, swap);
    }
  }
}
