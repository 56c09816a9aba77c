/**
 Transaction fees, and the search for the prefix of transactions that pays the most.
 */
module Fees {
  import opened Words

  const TWO32: int := 0x1_0000_0000

  type u32 = x: int | 0 <= x < 0x1_0000_0000

  /** What fee selection reads of a transaction; its size includes a header and so is not zero. */
  datatype Transaction = Transaction(hash: nat, signer: nat, size: u32, maxFee: u64) {
    predicate Sized() {
      size > 0
    }
  }

  /** CalculateTransactionFee: a 32-bit product */
  function Fee(multiplier: u32, t: Transaction): u64 {
    ((multiplier as int) * (t.size as int)) % TWO32
  }

  /** CalculateTransactionMaxFeeMultiplier */
  function MaxMultiplier(t: Transaction): u32
    requires t.Sized()
  {
    var raw := t.maxFee / t.size;
    if raw < TWO32 - 1 then raw else TWO32 - 1
  }

  lemma TimesMonotone(a: int, b: int, s: int)
    requires 0 <= a <= b && s >= 0
    ensures 0 <= a * s <= b * s
  {
  }

  /** A multiplier up to the transaction's own maximum never asks for more than its maximum fee. */
  lemma FeeWithinMax(multiplier: u32, t: Transaction)
    requires t.Sized() && multiplier <= MaxMultiplier(t)
    ensures multiplier as int * t.size as int <= t.maxFee
    ensures Fee(multiplier, t) <= t.maxFee
  {
    TimesMonotone(multiplier, t.maxFee / t.size, t.size);
    QuotientTimes(t.maxFee, t.size);
    ModSmaller(multiplier as int * t.size as int);
  }

  lemma QuotientTimes(x: nat, d: nat)
    requires d > 0
    ensures (x / d) * d <= x
  {
  }

  lemma ModSmaller(x: nat)
    ensures x % TWO32 <= x
  {
  }

  /** The 32-bit product is the fee exactly when the true product fits. */
  lemma FeeExactIff(multiplier: u32, t: Transaction)
    ensures Fee(multiplier, t) == multiplier as int * t.size as int <==> multiplier as int * t.size as int < TWO32
  {
    if multiplier as int * t.size as int < TWO32 {
      SmallMod(multiplier as int * t.size as int, TWO32);
    }
  }

  /** The multipliers that a transaction can pay are those up to its maximum multiplier. */
  lemma MaxMultiplierIff(multiplier: u32, t: Transaction)
    requires t.Sized()
    ensures multiplier <= MaxMultiplier(t) <==> multiplier as int * t.size as int <= t.maxFee
  {
    var q := t.maxFee / t.size;
    QuotientTimes(t.maxFee, t.size);
    if multiplier <= q {
      TimesMonotone(multiplier, q, t.size);
    } else {
      TimesMonotone(q + 1, multiplier, t.size);
      QuotientNext(t.maxFee, t.size);
    }
  }

  lemma QuotientNext(x: nat, d: nat)
    requires d > 0
    ensures x < (x / d + 1) * d
  {
  }

  /** The fee differs from the true product by a multiple of 2^32. */
  lemma FeeCongruent(multiplier: u32, t: Transaction) returns (k: nat)
    ensures multiplier as int * t.size as int == Fee(multiplier, t) + k * TWO32 && Fee(multiplier, t) < TWO32
  {
    var x: nat := multiplier as int * t.size as int;
    k := x / TWO32;
  }

  // ---- fee policies ----

  datatype FeePolicy = FeePolicy(numTransactions: u32, feeMultiplier: u32, baseFee: u64)

  /** CalculateTotalFee: a 64-bit product */
  function Total(p: FeePolicy): u64 {
    ((p.feeMultiplier as int) * (p.baseFee as int)) % TWO64
  }

  ghost function SizeSum(ts: seq<Transaction>): nat {
    if ts == [] then 0 else SizeSum(ts[..|ts| - 1]) + ts[|ts| - 1].size
  }

  lemma {:induction false} SizeSumBound(ts: seq<Transaction>)
    ensures SizeSum(ts) <= |ts| * (TWO32 - 1)
  {
    if ts != [] {
      SizeSumBound(ts[..|ts| - 1]);
    }
  }

  ghost predicate AllSized(ts: seq<Transaction>) {
    forall i :: 0 <= i < |ts| ==> ts[i].Sized()
  }

  /** Taking all of ts, at the multiplier of the last. */
  ghost function Policy(ts: seq<Transaction>): FeePolicy
    requires AllSized(ts) && |ts| < TWO32
  {
    SizeSumBound(ts);
    assert |ts| * (TWO32 - 1) < TWO64 by { TimesMonotone(|ts|, TWO32 - 1, TWO32 - 1); }
    FeePolicy(|ts|, if ts == [] then 0 else MaxMultiplier(ts[|ts| - 1]), SizeSum(ts))
  }

  /** Whole-number total of a policy; the 64-bit total is the same exactly when it fits. */
  ghost function ExactTotal(p: FeePolicy): nat {
    (p.feeMultiplier as int) * (p.baseFee as int)
  }

  lemma TotalExactIff(p: FeePolicy)
    ensures Total(p) == ExactTotal(p) <==> ExactTotal(p) < TWO64
  {
    if ExactTotal(p) < TWO64 {
      SmallMod(ExactTotal(p), TWO64);
    }
  }

  /** The total differs from the true product by a multiple of 2^64. */
  lemma TotalCongruent(p: FeePolicy) returns (k: nat)
    ensures ExactTotal(p) == Total(p) + k * TWO64 && Total(p) < TWO64
  {
    k := ExactTotal(p) / TWO64;
  }

  /** Transactions of less than 2^32 bytes in all give exact totals. */
  lemma TotalExact(p: FeePolicy)
    requires p.baseFee < TWO32
    ensures Total(p) == ExactTotal(p)
  {
    TimesMonotone(p.baseFee, TWO32 - 1, p.feeMultiplier);
    TimesMonotone(p.feeMultiplier, TWO32 - 1, TWO32 - 1);
    TotalExactIff(p);
  }

  ghost predicate Descending(ts: seq<Transaction>)
    requires AllSized(ts)
  {
    forall i, j :: 0 <= i < j < |ts| ==> MaxMultiplier(ts[i]) >= MaxMultiplier(ts[j])
  }

  /** best is the policy of a prefix of ts with the highest total, and the longest of those. */
  ghost predicate IsBest(best: FeePolicy, ts: seq<Transaction>)
    requires AllSized(ts) && |ts| < TWO32
  {
    && best.numTransactions <= |ts|
    && best == Policy(ts[..best.numTransactions])
    && forall k {:trigger ts[..k]} :: 0 <= k <= |ts| ==>
      && Total(Policy(ts[..k])) <= Total(best)
      && (Total(Policy(ts[..k])) == Total(best) ==> k <= best.numTransactions)
  }

  lemma BestNext(best: FeePolicy, ts: seq<Transaction>, t: Transaction, next: FeePolicy)
    requires AllSized(ts) && t.Sized() && |ts| + 1 < TWO32 && IsBest(best, ts)
    requires var current := Policy(ts + [t]); next == if Total(best) <= Total(current) then current else best
    ensures IsBest(next, ts + [t])
  {
    hide Policy, Total;
    var all := ts + [t];
    assert all[..|all|] == all;
    forall k {:trigger all[..k]} | 0 <= k <= |all|
      ensures Total(Policy(all[..k])) <= Total(next) &&
          (Total(Policy(all[..k])) == Total(next) ==> k <= next.numTransactions)
    {
      if k <= |ts| {
        assert all[..k] == ts[..k];
        PolicyCount(all);
      }
      PolicyCount(all[..k]);
    }
    assert all[..best.numTransactions] == ts[..best.numTransactions];
    PolicyCount(all);
  }

  lemma PolicyCount(ts: seq<Transaction>)
    requires AllSized(ts) && |ts| < TWO32
    ensures Policy(ts).numTransactions == |ts|
  {
  }

  lemma PolicyNext(ts: seq<Transaction>, t: Transaction)
    requires AllSized(ts) && t.Sized() && |ts| + 1 < TWO32
    ensures Policy(ts + [t]) == FeePolicy(|ts| + 1, MaxMultiplier(t), Policy(ts).baseFee + t.size)
  {
    assert (ts + [t])[..|ts|] == ts;
  }

  /** TransactionFeeMaximizer */
  class Maximizer {
    var current: FeePolicy
    var best: FeePolicy

    /** Everything applied so far. */
    ghost predicate Applied(ts: seq<Transaction>)
      reads this
    {
      AllSized(ts) && |ts| < TWO32 && current == Policy(ts) && IsBest(best, ts) &&
          (best.numTransactions == 0 <==> ts == [])
    }

    constructor ()
      ensures Applied([])
    {
      current := FeePolicy(0, 0, 0);
      best := FeePolicy(0, 0, 0);
      new;
      assert Policy([]) == FeePolicy(0, 0, 0);
    }

    /** apply; it throws when a multiplier is higher than the one before */
    method Apply(t: Transaction, ghost ts: seq<Transaction>) returns (thrown: bool)
      requires Applied(ts) && t.Sized() && |ts| + 1 < TWO32
      modifies this
      ensures thrown <==> ts != [] && MaxMultiplier(ts[|ts| - 1]) < MaxMultiplier(t)
      ensures !thrown ==> Applied(ts + [t])
    {
      hide IsBest, Total, MaxMultiplier;
      var last := current.feeMultiplier;
      PolicyNext(ts, t);
      LastMultiplier(ts);
      SizeIsFee(t);
      current := FeePolicy(current.numTransactions + 1, MaxMultiplier(t), current.baseFee + Fee(1, t));
      if best.numTransactions != 0 && last < current.feeMultiplier {
        return true;
      }
      thrown := false;
      BestNext(best, ts, t, if Total(best) <= Total(current) then current else best);
      FirstCounts(best, ts, current);
      if Total(best) <= Total(current) {
        best := current;
      }
    }
  }

  lemma SizeIsFee(t: Transaction)
    ensures Fee(1, t) == t.size
  {
    SmallMod(1 * (t.size as int), TWO32);
  }

  lemma LastMultiplier(ts: seq<Transaction>)
    requires AllSized(ts) && |ts| < TWO32
    ensures ts != [] ==> Policy(ts).feeMultiplier == MaxMultiplier(ts[|ts| - 1])
  {
  }

  /** The very first transaction is always taken, if only for a total of zero. */
  lemma FirstCounts(best: FeePolicy, ts: seq<Transaction>, current: FeePolicy)
    requires AllSized(ts) && |ts| < TWO32 && IsBest(best, ts)
    ensures ts == [] ==> Total(best) <= Total(current)
  {
    if ts == [] {
      assert best == Policy([]) by { assert ts[..0] == []; }
      assert Total(best) == 0;
    }
  }

  // ---- optimality over all choices ----

  /** The total size of the chosen transactions. */
  ghost function ChosenSize(ts: seq<Transaction>, chosen: seq<bool>): nat
    requires |chosen| == |ts|
  {
    if ts == [] then 0 else
      ChosenSize(ts[..|ts| - 1], chosen[..|ts| - 1]) + if chosen[|ts| - 1] then ts[|ts| - 1].size else 0
  }

  lemma {:induction false} ChosenWithin(ts: seq<Transaction>, chosen: seq<bool>)
    requires |chosen| == |ts|
    ensures ChosenSize(ts, chosen) <= SizeSum(ts)
  {
    if ts != [] {
      ChosenWithin(ts[..|ts| - 1], chosen[..|ts| - 1]);
    }
  }

  lemma {:induction false} SizeSumPrefix(ts: seq<Transaction>, k: nat)
    requires k <= |ts|
    ensures SizeSum(ts[..k]) <= SizeSum(ts)
  {
    if k < |ts| {
      SizeSumPrefix(ts[..|ts| - 1], k);
      assert ts[..|ts| - 1][..k] == ts[..k];
    } else {
      assert ts[..k] == ts;
    }
  }

  /** No choice of transactions, at any multiplier all of them can pay, collects more than some prefix does. */
  lemma {:induction false} ChoiceWithinPrefix(ts: seq<Transaction>, chosen: seq<bool>, multiplier: u32) returns (k: nat)
    requires AllSized(ts) && |ts| < TWO32 && |chosen| == |ts|
    requires forall i :: 0 <= i < |ts| && chosen[i] ==> multiplier <= MaxMultiplier(ts[i])
    ensures k <= |ts| && multiplier as int * ChosenSize(ts, chosen) <= ExactTotal(Policy(ts[..k]))
  {
    hide MaxMultiplier;
    if ts == [] {
      k := 0;
      assert multiplier as int * 0 == 0;
    } else if chosen[|ts| - 1] {
      k := |ts|;
      assert ts[..k] == ts;
      ChosenWithin(ts, chosen);
      TimesBoth(multiplier, Policy(ts).feeMultiplier, ChosenSize(ts, chosen), SizeSum(ts));
    } else {
      k := ChoiceWithinPrefix(ts[..|ts| - 1], chosen[..|ts| - 1], multiplier);
      assert ts[..|ts| - 1][..k] == ts[..k];
    }
  }

  lemma TimesBoth(a: int, b: int, x: int, y: int)
    requires 0 <= a <= b && 0 <= x <= y
    ensures a * x <= b * y
  {
    TimesMonotone(a, b, x);
    TimesMonotone(x, y, b);
  }

  /** The chosen transactions, in order. */
  ghost function Chosen(ts: seq<Transaction>, chosen: seq<bool>): seq<Transaction>
    requires |chosen| == |ts|
  {
    if ts == [] then [] else
      Chosen(ts[..|ts| - 1], chosen[..|ts| - 1]) + if chosen[|ts| - 1] then [ts[|ts| - 1]] else []
  }

  lemma {:induction false} ChosenSizes(ts: seq<Transaction>, chosen: seq<bool>)
    requires |chosen| == |ts|
    ensures SizeSum(Chosen(ts, chosen)) == ChosenSize(ts, chosen)
  {
    if ts != [] {
      ChosenSizes(ts[..|ts| - 1], chosen[..|ts| - 1]);
      var rest := Chosen(ts[..|ts| - 1], chosen[..|ts| - 1]);
      assert (rest + [ts[|ts| - 1]])[..|rest|] == rest;
      assert rest + [] == rest;
    }
  }

  /** Every prefix has a true total below 2^64, so that the 64-bit comparisons are comparisons of true totals. */
  ghost predicate TotalsFit(ts: seq<Transaction>)
    requires AllSized(ts) && |ts| < TWO32
  {
    forall k {:trigger ts[..k]} :: 0 <= k <= |ts| ==> ExactTotal(Policy(ts[..k])) < TWO64
  }

  /** Transactions of less than 2^32 bytes in all are enough. */
  lemma SmallTotalsFit(ts: seq<Transaction>)
    requires AllSized(ts) && |ts| < TWO32 && SizeSum(ts) < TWO32
    ensures TotalsFit(ts)
  {
    hide MaxMultiplier, ExactTotal;
    forall k {:trigger ts[..k]} | 0 <= k <= |ts|
      ensures ExactTotal(Policy(ts[..k])) < TWO64
    {
      SizeSumPrefix(ts, k);
      TotalExact(Policy(ts[..k]));
      TotalExactIff(Policy(ts[..k]));
    }
  }

  /** The best policy has the highest true total of all choices among the transactions, at any multiplier they can
      pay. */
  lemma BestOfAll(best: FeePolicy, ts: seq<Transaction>, chosen: seq<bool>, multiplier: u32)
    requires AllSized(ts) && |ts| < TWO32 && IsBest(best, ts) && |chosen| == |ts| && TotalsFit(ts)
    requires forall i :: 0 <= i < |ts| && chosen[i] ==> multiplier <= MaxMultiplier(ts[i])
    ensures multiplier as int * ChosenSize(ts, chosen) <= ExactTotal(best)
  {
    hide MaxMultiplier, Total, ExactTotal, Policy;
    var k := ChoiceWithinPrefix(ts, chosen, multiplier);
    TotalExactIff(Policy(ts[..k]));
    TotalExactIff(best);
  }

  // ---- what a block collects ----

  /** CalculateBlockTransactionsInfo: the fees of all transactions, at the block's multiplier */
  ghost function Paid(ts: seq<Transaction>, multiplier: u32): nat {
    if ts == [] then 0 else Paid(ts[..|ts| - 1], multiplier) + Fee(multiplier, ts[|ts| - 1])
  }

  /** Every fee is below 2^32. */
  ghost predicate ProductsFit(ts: seq<Transaction>, multiplier: u32) {
    forall i :: 0 <= i < |ts| ==> multiplier as int * ts[i].size as int < TWO32
  }

  /** What is paid never exceeds multiplier times size, and equals it if and only if every product fits 32 bits. */
  lemma {:induction false} PaidExactIff(ts: seq<Transaction>, multiplier: u32)
    ensures Paid(ts, multiplier) <= multiplier as int * SizeSum(ts)
    ensures Paid(ts, multiplier) == multiplier as int * SizeSum(ts) <==> ProductsFit(ts, multiplier)
  {
    hide Fee;
    if ts != [] {
      var rest, t := ts[..|ts| - 1], ts[|ts| - 1];
      PaidExactIff(rest, multiplier);
      FeeExactIff(multiplier, t);
      FeeWithinProduct(multiplier, t);
      SumTimes(multiplier, SizeSum(rest), t.size);
      assert ts == rest + [t];
    } else {
      assert multiplier as int * 0 == 0;
    }
  }

  lemma SumTimes(m: int, a: int, b: int)
    ensures m * (a + b) == m * a + m * b
  {
  }

  lemma FeeWithinProduct(multiplier: u32, t: Transaction)
    ensures Fee(multiplier, t) <= multiplier as int * t.size as int
  {
    ModSmaller(multiplier as int * t.size as int);
  }

  /** The kept prefix pays its policy's total exactly when each of its fees is below 2^32. */
  lemma BestPaysTotalIff(best: FeePolicy, ts: seq<Transaction>)
    requires AllSized(ts) && |ts| < TWO32 && IsBest(best, ts)
    ensures Paid(ts[..best.numTransactions], best.feeMultiplier) <= ExactTotal(best)
    ensures Paid(ts[..best.numTransactions], best.feeMultiplier) == ExactTotal(best) <==>
        ProductsFit(ts[..best.numTransactions], best.feeMultiplier)
  {
    hide MaxMultiplier, Total, Paid, ProductsFit;
    PaidExactIff(ts[..best.numTransactions], best.feeMultiplier);
  }

  /**
   The kept prefix pays at least what any choice among the transactions pays, at any multiplier they can pay,
   provided its own fees and the prefixes' totals do not wrap.
   */
  lemma BestPaysMost(best: FeePolicy, ts: seq<Transaction>, chosen: seq<bool>, multiplier: u32)
    requires AllSized(ts) && |ts| < TWO32 && IsBest(best, ts) && |chosen| == |ts| && TotalsFit(ts)
    requires forall i :: 0 <= i < |ts| && chosen[i] ==> multiplier <= MaxMultiplier(ts[i])
    requires ProductsFit(ts[..best.numTransactions], best.feeMultiplier)
    ensures Paid(Chosen(ts, chosen), multiplier) <= Paid(ts[..best.numTransactions], best.feeMultiplier)
  {
    hide MaxMultiplier, Total, Paid, ProductsFit, IsBest, TotalsFit, ExactTotal;
    BestOfAll(best, ts, chosen, multiplier);
    PaidExactIff(Chosen(ts, chosen), multiplier);
    ChosenSizes(ts, chosen);
    assert best.numTransactions <= |ts| by { IsBestPrefix(best, ts); }
    BestPaysTotalIff(best, ts);
  }

  lemma IsBestPrefix(best: FeePolicy, ts: seq<Transaction>)
    requires AllSized(ts) && |ts| < TWO32 && IsBest(best, ts)
    ensures best.numTransactions <= |ts|
  {
  }

  // ---- inputs on which the products wrap ----

  lemma PrefixesOfTwo(a: Transaction, b: Transaction)
    ensures [a, b][..0] == [] && [a, b][..1] == [a] && [a, b][..2] == [a, b]
    ensures SizeSum([]) == 0 && SizeSum([a]) == a.size && SizeSum([a, b]) == a.size + b.size
  {
    assert [a][..0] == [];
  }

  lemma PaidByTwo(a: Transaction, b: Transaction, multiplier: u32)
    ensures Paid([a], multiplier) == Fee(multiplier, a)
    ensures Paid([a, b], multiplier) == Fee(multiplier, a) + Fee(multiplier, b)
  {
    hide Fee;
    assert [a, b][..1] == [a] && [a][..0] == [];
  }

  /**
   Sizes 100 and 200 with maximum multipliers 2^32 - 1 and 2^31: both are kept at 2^31, where both 32-bit fees are
   zero, although the first alone would pay 4294967196.
   */
  lemma BestPaysNothing()
    ensures var a, b := Transaction(1, 1, 100, 429496729500), Transaction(2, 2, 200, 429496729600);
      && MaxMultiplier(a) == 0xffff_ffff && MaxMultiplier(b) == 0x8000_0000
      && IsBest(FeePolicy(2, 0x8000_0000, 300), [a, b]) && TotalsFit([a, b])
      && Paid([a, b], 0x8000_0000) == 0 && Paid([a], 0xffff_ffff) == 4294967196
  {
    hide Paid, SizeSum;
    var a, b := Transaction(1, 1, 100, 429496729500), Transaction(2, 2, 200, 429496729600);
    PrefixesOfTwo(a, b);
    PaidByTwo(a, b, 0x8000_0000);
    PaidByTwo(a, b, 0xffff_ffff);
  }

  /** Two transactions of 2^32 - 1 bytes at the highest multiplier: the second one would double the true total. */
  lemma TotalWraps()
    ensures var a, b := Transaction(1, 1, 0xffff_ffff, 0xffff_ffff_ffff_ffff),
          Transaction(2, 2, 0xffff_ffff, 0xffff_ffff_ffff_ffff);
      && IsBest(FeePolicy(1, 0xffff_ffff, 0xffff_ffff), [a, b])
      && ExactTotal(Policy([a, b])) == 2 * ExactTotal(Policy([a]))
      && !TotalsFit([a, b])
  {
    hide SizeSum;
    var a, b := Transaction(1, 1, 0xffff_ffff, 0xffff_ffff_ffff_ffff),
        Transaction(2, 2, 0xffff_ffff, 0xffff_ffff_ffff_ffff);
    PrefixesOfTwo(a, b);
    assert [a, b][..2] == [a, b];
  }

  /** The multiplier of a prefix of descending transactions can be paid by all of them. */
  lemma PrefixPays(ts: seq<Transaction>, k: nat)
    requires AllSized(ts) && Descending(ts) && k <= |ts| < TWO32
    ensures forall i :: 0 <= i < k ==> Policy(ts[..k]).feeMultiplier <= MaxMultiplier(ts[i])
  {
    hide MaxMultiplier;
  }
}
