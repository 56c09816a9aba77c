/**
 Choosing the transactions and the fee multiplier of a block.
 */
module TransactionSelection {
  import opened Words
  import opened Fees
  import opened HarvestingFacade

  datatype TransactionsInfo = TransactionsInfo(feeMultiplier: u32, transactions: seq<Transaction>)
  datatype Strategy = Oldest | MinimizeFee | MaximizeFee

  /** The first `count` transactions that can be applied, each on top of those taken before. */
  ghost function Selected<S(!new),
      N(!new)>(m: Machine<S, N>, w: World<S>, order: seq<Transaction>, count: nat): seq<Transaction> {
    if order == [] then [] else
      var s, t := Selected(m, w, order[..|order| - 1], count), order[|order| - 1];
      if |s| < count && CanApply(m, AfterAll(m, w, s), t) then s + [t] else s
  }

  /** The positions of the selected transactions in the order they were offered. */
  ghost function Positions<S(!new),
      N(!new)>(m: Machine<S, N>, w: World<S>, order: seq<Transaction>, count: nat): (p: seq<nat>)
    ensures |p| == |Selected(m, w, order, count)|
  {
    if order == [] then [] else
      var s, p := Selected(m, w, order[..|order| - 1], count), Positions(m, w, order[..|order| - 1], count);
      if |s| < count && CanApply(m, AfterAll(m, w, s), order[|order| - 1]) then p + [|order| - 1] else p
  }

  /** The selection is a subsequence. */
  lemma {:induction false} SelectedInOrder<S(!new),
      N(!new)>(m: Machine<S, N>, w: World<S>, order: seq<Transaction>, count: nat)
    ensures var s, p := Selected(m, w, order, count), Positions(m, w, order, count);
      && |s| <= count
      && (forall i :: 0 <= i < |s| ==> p[i] < |order| && s[i] == order[p[i]])
      && (forall i, j :: 0 <= i < j < |s| ==> p[i] < p[j])
  {
    if order != [] {
      SelectedInOrder(m, w, order[..|order| - 1], count);
    }
  }

  /** A transaction is taken exactly when there is room and it can be applied after those taken before it. */
  lemma {:induction false} TakenIff<S(!new), N(!new)>(m: Machine<S, N>, w: World<S>, order: seq<Transaction>,
      count: nat, i: nat)
    requires i < |order|
    ensures var s := Selected(m, w, order[..i], count);
      i in Positions(m, w, order, count) <==> |s| < count && CanApply(m, AfterAll(m, w, s), order[i])
    decreases |order|
  {
    hide CanApply, AfterAll;
    var n := |order| - 1;
    SelectedInOrder(m, w, order[..n], count);
    var p := Positions(m, w, order[..n], count);
    forall x | x in p
      ensures x < n
    {
      var k :| 0 <= k < |p| && p[k] == x;
      assert Selected(m, w, order[..n], count)[k] == order[..n][p[k]];
    }
    assert order[..n][..n] == order[..n];
    if i < n {
      assert order[..n][..i] == order[..i];
      TakenIff(m, w, order[..n], count, i);
    }
  }

  lemma SelectedFrom<S(!new), N(!new)>(m: Machine<S, N>, w: World<S>, order: seq<Transaction>, count: nat)
    ensures var s := Selected(m, w, order, count);
      && |s| <= count
      && (forall i :: 0 <= i < |s| ==> s[i] in order)
      && (AllSized(order) ==> AllSized(s))
  {
    SelectedInOrder(m, w, order, count);
  }

  lemma SelectedDescending<S(!new), N(!new)>(m: Machine<S, N>, w: World<S>, order: seq<Transaction>, count: nat)
    requires AllSized(order) && Descending(order)
    ensures AllSized(Selected(m, w, order, count)) && Descending(Selected(m, w, order, count))
  {
    hide MaxMultiplier;
    SelectedInOrder(m, w, order, count);
  }

  ghost predicate Ascending(ts: seq<Transaction>)
    requires AllSized(ts)
  {
    forall i, j :: 0 <= i < j < |ts| ==> MaxMultiplier(ts[i]) <= MaxMultiplier(ts[j])
  }

  lemma SelectedAscending<S(!new), N(!new)>(m: Machine<S, N>, w: World<S>, order: seq<Transaction>, count: nat)
    requires AllSized(order) && Ascending(order)
    ensures AllSized(Selected(m, w, order, count)) && Ascending(Selected(m, w, order, count))
  {
    hide MaxMultiplier;
    SelectedInOrder(m, w, order, count);
  }

  lemma {:induction false} SelectedFull<S(!new),
      N(!new)>(m: Machine<S, N>, w: World<S>, order: seq<Transaction>, i: nat, count: nat)
    requires i <= |order| && |Selected(m, w, order[..i], count)| == count
    ensures Selected(m, w, order, count) == Selected(m, w, order[..i], count)
    decreases |order|
  {
    if i < |order| {
      assert order[..|order| - 1][..i] == order[..i];
      SelectedFull(m, w, order[..|order| - 1], i, count);
    } else {
      assert order[..i] == order;
    }
  }

  lemma SelectedNext<S(!new), N(!new)>(m: Machine<S, N>, w: World<S>, order: seq<Transaction>, i: nat, count: nat)
    requires i < |order|
    ensures var s := Selected(m, w, order[..i], count);
      Selected(m, w, order[..i + 1], count) == if |s| < count &&
          CanApply(m, AfterAll(m, w, s), order[i]) then s + [order[i]] else s
  {
    assert order[..i + 1][..i] == order[..i];
  }

  /** Every kept transaction can pay the multiplier. */
  ghost predicate Payable(info: TransactionsInfo) {
    AllSized(info.transactions) && forall i :: 0 <= i < |info.transactions| ==>
        info.feeMultiplier <= MaxMultiplier(info.transactions[i])
  }

  /** GetFirstTransactionInfoPointers with the facade as the filter, over transactions already in order */
  method TakeFirst<S(!new),
      N(!new)>(order: seq<Transaction>, facade: Facade<S, N>, count: u32) returns (candidates: seq<Transaction>)
    requires facade.Valid() && facade.transactionInfos == []
    modifies facade
    ensures facade.Valid() &&
        candidates == facade.transactionInfos == Selected(facade.m, old(facade.world), order, count)
  {
    hide Leaves, AllValid, Reversible, Consistent, CanApply;
    ghost var w := facade.world;
    candidates := [];
    var i := 0;
    while i < |order|
      invariant 0 <= i <= |order| && facade.Valid() && facade.initial == w
      invariant candidates == facade.transactionInfos == Selected(facade.m, w, order[..i], count)
    {
      SelectedFrom(facade.m, w, order[..i], count);
      if count == |candidates| {
        SelectedFull(facade.m, w, order, i, count);
        return;
      }
      SelectedNext(facade.m, w, order, i, count);
      var accepted := facade.Apply(order[i]);
      if accepted {
        candidates := candidates + [order[i]];
      }
      i := i + 1;
    }
    assert order[..|order|] == order;
  }

  /** SupplyOldest, over the transactions of the cache in order of arrival */
  method SupplyOldest<S(!new),
      N(!new)>(view: seq<Transaction>, facade: Facade<S, N>, count: u32) returns (info: TransactionsInfo)
    requires facade.Valid() && facade.transactionInfos == [] && AllSized(view)
    modifies facade
    ensures facade.Valid() &&
        info.transactions == facade.transactionInfos == Selected(facade.m, old(facade.world), view, count)
    ensures Payable(info)
    ensures info.transactions == [] ==> info.feeMultiplier == 0
    ensures info.transactions != [] ==>
      exists i :: 0 <= i < |info.transactions| && info.feeMultiplier == MaxMultiplier(info.transactions[i])
  {
    hide Leaves, AllValid, Reversible, Consistent, CanApply, MaxMultiplier, AfterAll;
    ghost var w := facade.world;
    var candidates := TakeFirst(view, facade, count);
    SelectedFrom(facade.m, w, view, count);
    var smallest: u32 := 0;
    if candidates != [] {
      var min := 0;
      for i := 1 to |candidates|
        invariant 0 <= min < i && forall j :: 0 <= j < i ==>
            MaxMultiplier(candidates[min]) <= MaxMultiplier(candidates[j])
      {
        if MaxMultiplier(candidates[i]) < MaxMultiplier(candidates[min]) {
          min := i;
        }
      }
      smallest := MaxMultiplier(candidates[min]);
    }
    info := TransactionsInfo(smallest, candidates);
  }

  /** SupplyMinimumFee; order is the cache's content as std::sort leaves it, lowest multiplier first */
  method SupplyMinimumFee<S(!new),
      N(!new)>(order: seq<Transaction>, facade: Facade<S, N>, count: u32) returns (info: TransactionsInfo)
    requires facade.Valid() && facade.transactionInfos == [] && AllSized(order) && Ascending(order)
    modifies facade
    ensures facade.Valid() &&
        info.transactions == facade.transactionInfos == Selected(facade.m, old(facade.world), order, count)
    ensures Payable(info)
    ensures info.transactions == [] ==> info.feeMultiplier == 0
    ensures info.transactions != [] ==> info.feeMultiplier == MaxMultiplier(info.transactions[0])
  {
    hide Leaves, AllValid, Reversible, Consistent, CanApply, MaxMultiplier, AfterAll;
    ghost var w := facade.world;
    var candidates := TakeFirst(order, facade, count);
    SelectedAscending(facade.m, w, order, count);
    info := TransactionsInfo(if candidates == [] then 0 else MaxMultiplier(candidates[0]), candidates);
  }

  /** The first half of SupplyMaximumFee: transactions accepted by the facade are also shown to the maximizer. */
  method TakeAndMaximize<S(!new), N(!new)>(order: seq<Transaction>, facade: Facade<S, N>, count: u32)
    returns (candidates: seq<Transaction>, maximizer: Maximizer)
    requires facade.Valid() && facade.transactionInfos == [] && AllSized(order) && Descending(order)
    modifies facade
    ensures fresh(maximizer) && facade.Valid() && facade.initial == old(facade.world)
    ensures candidates == facade.transactionInfos == Selected(facade.m, old(facade.world), order, count)
    ensures maximizer.Applied(candidates)
  {
    hide Leaves, AllValid, Reversible, Consistent, CanApply, MaxMultiplier, IsBest, Policy;
    ghost var w := facade.world;
    candidates := [];
    maximizer := new Maximizer();
    var i := 0;
    while i < |order|
      invariant 0 <= i <= |order| && facade.Valid() && facade.initial == w && fresh(maximizer)
      invariant candidates == facade.transactionInfos == Selected(facade.m, w, order[..i], count) &&
          maximizer.Applied(candidates)
    {
      SelectedFrom(facade.m, w, order[..i], count);
      if count == |candidates| {
        SelectedFull(facade.m, w, order, i, count);
        return;
      }
      SelectedNext(facade.m, w, order, i, count);
      var accepted := facade.Apply(order[i]);
      if accepted {
        StillDescending(facade.m, w, order, i, count);
        var thrown := maximizer.Apply(order[i], candidates);
        candidates := candidates + [order[i]];
      }
      i := i + 1;
    }
    assert order[..|order|] == order;
  }

  /** The maximizer's sortedness check never fires. */
  lemma StillDescending<S(!new), N(!new)>(m: Machine<S, N>, w: World<S>, order: seq<Transaction>, i: nat, count: nat)
    requires AllSized(order) && Descending(order) && i < |order|
    ensures order[i].Sized()
    ensures var s := Selected(m, w, order[..i], count);
      AllSized(s) && (s != [] ==> MaxMultiplier(s[|s| - 1]) >= MaxMultiplier(order[i]))
  {
    hide MaxMultiplier;
    SelectedInOrder(m, w, order[..i], count);
  }

  /** SupplyMaximumFee; order is the cache's content as std::sort leaves it, highest multiplier first */
  method SupplyMaximumFee<S(!new), N(!new)>(order: seq<Transaction>, facade: Facade<S, N>, count: u32)
    returns (info: TransactionsInfo, best: FeePolicy)
    requires facade.Valid() && facade.transactionInfos == [] && AllSized(order) && Descending(order)
    modifies facade
    ensures facade.Valid() && info.transactions == facade.transactionInfos
    ensures var accepted := Selected(facade.m, old(facade.world), order, count);
      && AllSized(accepted) && |accepted| < TWO32 && IsBest(best, accepted)
      && info == TransactionsInfo(best.feeMultiplier, accepted[..best.numTransactions])
    ensures Payable(info)
  {
    hide Leaves, AllValid, Reversible, Consistent, CanApply, MaxMultiplier, AfterAll, Policy, Total;
    ghost var w := facade.world;
    var candidates, maximizer := TakeAndMaximize(order, facade, count);
    SelectedDescending(facade.m, w, order, count);
    ghost var accepted := candidates;
    best := maximizer.best;
    candidates := candidates[..best.numTransactions];
    while |facade.transactionInfos| > best.numTransactions
      invariant facade.Valid() && best.numTransactions <= |facade.transactionInfos| <= |accepted|
      invariant facade.transactionInfos == accepted[..|facade.transactionInfos|]
      decreases |facade.transactionInfos|
    {
      var thrown := facade.Unapply();
    }
    PrefixPays(accepted, best.numTransactions);
    info := TransactionsInfo(best.feeMultiplier, candidates);
  }

  // ---- the surplus step of commit ----

  /** What of the maximum fees of one account's transactions is not needed. */
  ghost function SurplusFor(ts: seq<Transaction>, multiplier: u32, account: nat): int {
    if ts == [] then 0 else
      var t := ts[|ts| - 1];
      SurplusFor(ts[..|ts| - 1], multiplier, account) + if t.signer ==
          account then t.maxFee as int - Fee(multiplier, t) else 0
  }

  ghost function FeesFor(ts: seq<Transaction>, multiplier: u32, account: nat): nat {
    if ts == [] then 0 else
      var t := ts[|ts| - 1];
      FeesFor(ts[..|ts| - 1], multiplier, account) + if t.signer == account then Fee(multiplier, t) else 0
  }

  ghost function MaxFeesFor(ts: seq<Transaction>, account: nat): nat {
    if ts == [] then 0 else
      var t := ts[|ts| - 1];
      MaxFeesFor(ts[..|ts| - 1], account) + if t.signer == account then t.maxFee else 0
  }

  /** What an account put up is what it pays plus what it gets back. */
  lemma {:induction false} FeesConserved(ts: seq<Transaction>, multiplier: u32, account: nat)
    ensures MaxFeesFor(ts, account) == FeesFor(ts, multiplier, account) + SurplusFor(ts, multiplier, account)
  {
    if ts != [] {
      FeesConserved(ts[..|ts| - 1], multiplier, account);
    }
  }

  /** Step 2 of commit: the subtraction never goes below zero, and each signer gets its surpluses back. */
  method AddBackSurpluses(info: TransactionsInfo, balances: map<nat, nat>) returns (credited: map<nat, nat>)
    requires Payable(info) && forall i :: 0 <= i < |info.transactions| ==> info.transactions[i].signer in balances
    ensures credited.Keys == balances.Keys
    ensures forall a :: a in balances ==>
        credited[a] == balances[a] + SurplusFor(info.transactions, info.feeMultiplier, a)
  {
    hide MaxMultiplier, Fee;
    var ts := info.transactions;
    credited := balances;
    for i := 0 to |ts|
      invariant credited.Keys == balances.Keys
      invariant forall a :: a in balances ==> credited[a] == balances[a] + SurplusFor(ts[..i], info.feeMultiplier, a)
    {
      var t := ts[i];
      FeeWithinMax(info.feeMultiplier, t);
      var surplus: u64 := t.maxFee - Fee(info.feeMultiplier, t);
      assert ts[..i + 1][..i] == ts[..i];
      if surplus != 0 {
        credited := credited[t.signer := credited[t.signer] + surplus];
      }
    }
    assert ts[..|ts|] == ts;
  }

  /** Selection followed by the surplus step, for each strategy. */
  method Harvest<S(!new), N(!new)>(strategy: Strategy, order: seq<Transaction>, facade: Facade<S, N>, count: u32,
      balances: map<nat, nat>)
    returns (info: TransactionsInfo, credited: map<nat, nat>)
    requires facade.Valid() && facade.transactionInfos == [] && AllSized(order)
    requires strategy == MinimizeFee ==> Ascending(order)
    requires strategy == MaximizeFee ==> Descending(order)
    requires forall i :: 0 <= i < |order| ==> order[i].signer in balances
    modifies facade
    ensures facade.Valid() && facade.transactionInfos == info.transactions && Payable(info)
    ensures credited.Keys == balances.Keys
    ensures forall a :: a in balances ==>
      credited[a] + FeesFor(info.transactions, info.feeMultiplier, a) == balances[a] + MaxFeesFor(info.transactions, a)
  {
    hide Leaves, AllValid, Reversible, Consistent, CanApply, MaxMultiplier, AfterAll, Policy, Total, Payable;
    hide SurplusFor, FeesFor, MaxFeesFor;
    ghost var w := facade.world;
    SelectedFrom(facade.m, w, order, count);
    match strategy {
      case Oldest => info := SupplyOldest(order, facade, count);
      case MinimizeFee => info := SupplyMinimumFee(order, facade, count);
      case MaximizeFee =>
        var best;
        info, best := SupplyMaximumFee(order, facade, count);
    }
    assert forall i :: 0 <= i < |info.transactions| ==> info.transactions[i] in order;
    credited := AddBackSurpluses(info, balances);
    forall a | a in balances
      ensures credited[a] + FeesFor(info.transactions, info.feeMultiplier, a) == balances[a] +
          MaxFeesFor(info.transactions, a)
    {
      FeesConserved(info.transactions, info.feeMultiplier, a);
    }
  }
}
