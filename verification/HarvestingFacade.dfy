/**
 The facade that applies transactions to a detached cache, one notification at a time, and can take them back.
 */
module HarvestingFacade {
  import opened Words
  import opened Fees

  /** A receipt, tagged with the primary source id under which it was raised. */
  datatype Receipt = Receipt(source: nat, value: nat)

  /** The cache, the active primary source id and the receipts of the block statement builder. */
  datatype World<S> = World(cache: S, primary: nat, receipts: seq<Receipt>)

  /**
   What the publisher, the validators and the observers do. A transaction publishes a source change first;
   `publish` gives the notifications after it.
   */
  datatype Machine<!S(!new), !N(!new)> = Machine(
    publish: Transaction -> seq<N>,
    forValidator: N -> bool,
    forObserver: N -> bool,
    valid: (S, N) -> bool,
    commit: (S, N) -> S,
    rollback: (S, N) -> S,
    raise: (S, N) -> seq<nat>,
    withReceipts: bool)

  /** An observer in rollback mode undoes what it did in commit mode. */
  ghost predicate Reversible<S(!new), N(!new)>(m: Machine<S, N>) {
    forall s, n :: m.rollback(m.commit(s, n), n) == s
  }

  function Tagged(source: nat, values: seq<nat>): seq<Receipt> {
    seq(|values|, i requires 0 <= i < |values| => Receipt(source, values[i]))
  }

  function Observed<S(!new), N(!new)>(m: Machine<S, N>, w: World<S>, n: N): World<S> {
    if m.forObserver(n) then
      World(m.commit(w.cache, n), w.primary,
          if m.withReceipts then w.receipts + Tagged(w.primary, m.raise(w.cache, n)) else w.receipts)
    else w
  }

  ghost function ObservedAll<S(!new), N(!new)>(m: Machine<S, N>, w: World<S>, ns: seq<N>): World<S> {
    if ns == [] then w else Observed(m, ObservedAll(m, w, ns[..|ns| - 1]), ns[|ns| - 1])
  }

  /** Every notification that goes to the validators is valid when its turn comes. */
  ghost predicate Accepts<S(!new), N(!new)>(m: Machine<S, N>, w: World<S>, ns: seq<N>) {
    forall k :: 0 <= k < |ns| && m.forValidator(ns[k]) ==> m.valid(ObservedAll(m, w, ns[..k]).cache, ns[k])
  }

  /** The source change that comes first. */
  function Started<S(!new), N(!new)>(m: Machine<S, N>, w: World<S>): World<S> {
    if m.withReceipts then w.(primary := w.primary + 1) else w
  }

  ghost predicate CanApply<S(!new), N(!new)>(m: Machine<S, N>, w: World<S>, t: Transaction) {
    Accepts(m, Started(m, w), m.publish(t))
  }

  ghost function After<S(!new), N(!new)>(m: Machine<S, N>, w: World<S>, t: Transaction): World<S> {
    ObservedAll(m, Started(m, w), m.publish(t))
  }

  ghost function AfterAll<S(!new), N(!new)>(m: Machine<S, N>, w: World<S>, ts: seq<Transaction>): World<S> {
    if ts == [] then w else After(m, AfterAll(m, w, ts[..|ts| - 1]), ts[|ts| - 1])
  }

  // ---- what applying a transaction leaves, part by part ----

  /** The cache after the observers have seen the notifications. */
  ghost function Committed<S(!new), N(!new)>(m: Machine<S, N>, s: S, ns: seq<N>): S {
    if ns == [] then s else
      var before, n := Committed(m, s, ns[..|ns| - 1]), ns[|ns| - 1];
      if m.forObserver(n) then m.commit(before, n) else before
  }

  /** The receipts of one notification, raised on the cache before it: none when it does not reach the observers. */
  ghost function RaisedBy<S(!new), N(!new)>(m: Machine<S, N>, s: S, source: nat, n: N): (rs: seq<Receipt>)
    ensures |rs| == if m.forObserver(n) then |m.raise(s, n)| else 0
    ensures forall i :: 0 <= i < |rs| ==> rs[i].source == source && rs[i].value == m.raise(s, n)[i]
  {
    if m.forObserver(n) then seq(|m.raise(s, n)|, i requires 0 <= i < |m.raise(s, n)| =>
        Receipt(source, m.raise(s, n)[i])) else []
  }

  /** One group of receipts for each notification, in order. */
  ghost function Raised<S(!new), N(!new)>(m: Machine<S, N>, s: S, source: nat, ns: seq<N>): seq<Receipt> {
    if ns == [] then [] else
      var k := |ns| - 1;
      Raised(m, s, source, ns[..k]) + RaisedBy(m, Committed(m, s, ns[..k]), source, ns[k])
  }

  /** Every notification for the validators is valid on the cache that those before it leave. */
  ghost predicate AllValid<S(!new), N(!new)>(m: Machine<S, N>, s: S, ns: seq<N>) {
    forall k :: 0 <= k < |ns| && m.forValidator(ns[k]) ==> m.valid(Committed(m, s, ns[..k]), ns[k])
  }

  lemma {:induction false} ObservedParts<S(!new), N(!new)>(m: Machine<S, N>, w: World<S>, ns: seq<N>)
    ensures var x := ObservedAll(m, w, ns);
      && x.cache == Committed(m, w.cache, ns) && x.primary == w.primary
      && x.receipts == if m.withReceipts then w.receipts + Raised(m, w.cache, w.primary, ns) else w.receipts
  {
    if ns != [] {
      var k := |ns| - 1;
      ObservedParts(m, w, ns[..k]);
      var before := Committed(m, w.cache, ns[..k]);
      var rs := Raised(m, w.cache, w.primary, ns[..k]);
      assert m.forObserver(ns[k]) ==>
        RaisedBy(m, before, w.primary, ns[k]) == Tagged(w.primary, m.raise(before, ns[k]));
      assert (w.receipts + rs) + RaisedBy(m, before, w.primary, ns[k]) ==
          w.receipts + (rs + RaisedBy(m, before, w.primary, ns[k]));
    }
  }

  /** The transaction takes w to x: all commits on the cache; with receipts on, one more source id, under which a
      group of receipts for each notification is added at the end. */
  ghost predicate Leaves<S(!new), N(!new)>(m: Machine<S, N>, w: World<S>, x: World<S>, t: Transaction) {
    && x.cache == Committed(m, w.cache, m.publish(t))
    && x.primary == (if m.withReceipts then w.primary + 1 else w.primary)
    && x.receipts ==
      w.receipts + (if m.withReceipts then Raised(m, w.cache, w.primary + 1, m.publish(t)) else [])
  }

  /** When applying succeeds, and the cache, source id and receipts that it leaves. */
  lemma AppliedParts<S(!new), N(!new)>(m: Machine<S, N>, w: World<S>, t: Transaction)
    ensures CanApply(m, w, t) <==> AllValid(m, w.cache, m.publish(t))
    ensures Leaves(m, w, After(m, w, t), t)
  {
    var ns := m.publish(t);
    ObservedParts(m, Started(m, w), ns);
    forall k | 0 <= k < |ns|
      ensures ObservedAll(m, Started(m, w), ns[..k]).cache == Committed(m, w.cache, ns[..k])
    {
      ObservedParts(m, Started(m, w), ns[..k]);
    }
  }

  // ---- undoing ----

  /** The observers in rollback mode, last notification first. */
  ghost function RolledBack<S(!new), N(!new)>(m: Machine<S, N>, s: S, ns: seq<N>): S {
    if ns == [] then s else
      var n := ns[|ns| - 1];
      RolledBack(m, if m.forObserver(n) then m.rollback(s, n) else s, ns[..|ns| - 1])
  }

  lemma {:induction false} RollbackUndoes<S(!new), N(!new)>(m: Machine<S, N>, w: World<S>, ns: seq<N>)
    requires Reversible(m)
    ensures RolledBack(m, ObservedAll(m, w, ns).cache, ns) == w.cache
  {
    if ns != [] {
      var k := |ns| - 1;
      var before := ObservedAll(m, w, ns[..k]);
      assert m.rollback(m.commit(before.cache, ns[k]), ns[k]) == before.cache;
      RollbackUndoes(m, w, ns[..k]);
    }
  }

  /** The receipts raised under a source id up to `source`. */
  function Truncated(rs: seq<Receipt>, source: nat): seq<Receipt> {
    if rs == [] then [] else
      var kept := Truncated(rs[..|rs| - 1], source);
      if rs[|rs| - 1].source > source then kept else kept + [rs[|rs| - 1]]
  }

  function PopSource<S>(w: World<S>): World<S> {
    if w.primary == 0 then w else World(w.cache, w.primary - 1, Truncated(w.receipts, w.primary - 1))
  }

  ghost predicate TagsUpTo(rs: seq<Receipt>, source: nat) {
    forall i :: 0 <= i < |rs| ==> rs[i].source <= source
  }

  lemma {:induction false} TruncatedAll(rs: seq<Receipt>, source: nat)
    requires TagsUpTo(rs, source)
    ensures Truncated(rs, source) == rs
  {
    if rs != [] {
      var n := |rs| - 1;
      TagsPrefix(rs, n, source);
      TruncatedAll(rs[..n], source);
      assert rs == rs[..n] + [rs[n]];
    }
  }

  lemma TagsPrefix(rs: seq<Receipt>, n: nat, source: nat)
    requires TagsUpTo(rs, source) && n <= |rs|
    ensures TagsUpTo(rs[..n], source)
  {
  }

  ghost predicate TagsAbove(rs: seq<Receipt>, source: nat) {
    forall i :: 0 <= i < |rs| ==> rs[i].source > source
  }

  lemma {:induction false} TruncatedKeeps(rs: seq<Receipt>, more: seq<Receipt>, source: nat)
    requires TagsUpTo(rs, source) && TagsAbove(more, source)
    ensures Truncated(rs + more, source) == rs
  {
    hide TagsUpTo;
    var all := rs + more;
    if more == [] {
      assert all == rs;
      TruncatedAll(rs, source);
    } else {
      var n := |more| - 1;
      assert all[..|all| - 1] == rs + more[..n] && all[|all| - 1] == more[n];
      assert TagsAbove(more[..n], source);
      TruncatedKeeps(rs, more[..n], source);
    }
  }

  /** Observing adds receipts only, all under the active source. */
  lemma {:induction false} ObservedReceipts<S(!new), N(!new)>(m: Machine<S, N>, w: World<S>, ns: seq<N>)
    ensures var x := ObservedAll(m, w, ns);
      && x.primary == w.primary && |w.receipts| <= |x.receipts| && x.receipts[..|w.receipts|] == w.receipts
      && (forall i :: |w.receipts| <= i < |x.receipts| ==> x.receipts[i].source == w.primary)
      && (!m.withReceipts ==> x.receipts == w.receipts)
  {
    if ns != [] {
      ObservedReceipts(m, w, ns[..|ns| - 1]);
    }
  }

  /** Rolling the cache back and popping the source undoes the observed part of a transaction completely. */
  lemma PopUndoes<S(!new), N(!new)>(m: Machine<S, N>, w: World<S>, ns: seq<N>)
    requires m.withReceipts && TagsUpTo(w.receipts, w.primary)
    ensures PopSource(ObservedAll(m, Started(m, w), ns).(cache := w.cache)) == w
  {
    var x := ObservedAll(m, Started(m, w), ns);
    ObservedReceipts(m, Started(m, w), ns);
    var more := x.receipts[|w.receipts|..];
    assert x.receipts == w.receipts + more;
    assert TagsAbove(more, w.primary);
    TruncatedKeeps(w.receipts, more, w.primary);
  }

  /** The builder after a number of transactions. */
  ghost predicate Consistent<S(!new), N(!new)>(m: Machine<S, N>, w: World<S>, count: nat) {
    TagsUpTo(w.receipts, w.primary) && w.primary == (if m.withReceipts then count else 0)
  }

  lemma AfterConsistent<S(!new), N(!new)>(m: Machine<S, N>, w: World<S>, t: Transaction, count: nat)
    requires Consistent(m, w, count)
    ensures Consistent(m, After(m, w, t), count + 1)
  {
    var x := After(m, w, t);
    ObservedReceipts(m, Started(m, w), m.publish(t));
    forall i | 0 <= i < |x.receipts|
      ensures x.receipts[i].source <= x.primary
    {
      if i < |w.receipts| {
        assert x.receipts[i] == x.receipts[..|w.receipts|][i] == w.receipts[i];
      }
    }
  }

  lemma {:induction false} AfterAllConsistent<S(!new), N(!new)>(m: Machine<S, N>, w: World<S>, ts: seq<Transaction>)
    requires Consistent(m, w, 0)
    ensures Consistent(m, AfterAll(m, w, ts), |ts|)
  {
    if ts != [] {
      AfterAllConsistent(m, w, ts[..|ts| - 1]);
      AfterConsistent(m, AfterAll(m, w, ts[..|ts| - 1]), ts[|ts| - 1], |ts| - 1);
    }
  }

  /** HarvestingUtFacade */
  class Facade<S(!new), N(!new)> {
    const m: Machine<S, N>
    ghost const initial: World<S>
    var world: World<S>
    var transactionInfos: seq<Transaction>

    /** The world is what applying exactly the held transactions, in order, makes of the initial one. */
    ghost predicate Valid()
      reads this
    {
      && Reversible(m) && Consistent(m, initial, 0) && initial.primary == 0 && initial.receipts == []
      && world == AfterAll(m, initial, transactionInfos)
    }

    constructor (machine: Machine<S, N>, cache: S)
      requires Reversible(machine)
      ensures Valid() && m == machine && world == World(cache, 0, []) && transactionInfos == []
    {
      m := machine;
      initial := World(cache, 0, []);
      world := World(cache, 0, []);
      transactionInfos := [];
    }

    /** Publishes to a subscriber that validates, observes and stops doing either at the first failure. */
    method Process(ns: seq<N>, ghost w: World<S>) returns (success: bool, buffers: seq<N>)
      requires world == w
      modifies this`world
      ensures success <==> Accepts(m, w, ns)
      ensures success ==> world == ObservedAll(m, w, ns)
      ensures exists k :: 0 <= k <= |ns| && buffers == OnlyObserved(m, ns[..k]) && world == ObservedAll(m, w, ns[..k])
    {
      success, buffers := true, [];
      ghost var done := 0;
      for i := 0 to |ns|
        invariant 0 <= done <= i && (success ==> done == i) && buffers == OnlyObserved(m, ns[..done]) &&
            world == ObservedAll(m, w, ns[..done])
        invariant success ==> Accepts(m, w, ns[..i])
        invariant !success ==> !Accepts(m, w, ns)
      {
        if !success {
          continue;
        }
        PrefixStep(m, w, ns, i);
        if m.forValidator(ns[i]) {
          success := m.valid(world.cache, ns[i]);
        }
        if !success {
          continue;
        }
        if m.forObserver(ns[i]) {
          buffers := buffers + [ns[i]];
        }
        world := Observed(m, world, ns[i]);
        done := done + 1;
      }
      assert ns[..|ns|] == ns;
    }

    /** ProcessingUndoNotificationSubscriber::undo on the observed notifications of ns */
    method Undo(buffers: seq<N>, ghost ns: seq<N>)
      requires buffers == OnlyObserved(m, ns)
      modifies this`world
      ensures world == old(world).(cache := RolledBack(m, old(world).cache, ns))
    {
      RollbackObserved(m, world.cache, ns);
      var i := |buffers|;
      assert buffers[..i] == buffers;
      while i > 0
        invariant 0 <= i <= |buffers| && world == old(world).(cache := world.cache)
        invariant RolledBack(m, world.cache, buffers[..i]) == RolledBack(m, old(world).cache, ns)
      {
        i := i - 1;
        assert buffers[..i + 1][..i] == buffers[..i];
        AllObserved(m, ns, i);
        world := world.(cache := m.rollback(world.cache, buffers[i]));
      }
    }

    /** apply: a transaction that fails validation leaves no trace */
    method Apply(t: Transaction) returns (success: bool)
      requires Valid()
      modifies this
      ensures Valid() && success == CanApply(m, old(world), t)
      ensures success ==> transactionInfos == old(transactionInfos) + [t] && world == After(m, old(world), t)
      ensures !success ==> transactionInfos == old(transactionInfos) && world == old(world)
      ensures success <==> AllValid(m, old(world.cache), m.publish(t))
      ensures success ==> Leaves(m, old(world), world, t)
    {
      hide Reversible, Committed, Raised, AllValid, Leaves;
      AppliedParts(m, world, t);
      ghost var was := world;
      AfterAllConsistent(m, initial, transactionInfos);
      var originalPrimary := world.primary;
      world := Started(m, world);
      var buffers;
      success, buffers := Process(m.publish(t), Started(m, was));
      if success {
        assert (transactionInfos + [t])[..|transactionInfos|] == transactionInfos;
        transactionInfos := transactionInfos + [t];
        return;
      }
      ghost var k :| 0 <= k <= |m.publish(t)| && buffers == OnlyObserved(m, m.publish(t)[..k]) &&
          world == ObservedAll(m, Started(m, was), m.publish(t)[..k]);
      ghost var ns := m.publish(t)[..k];
      Undo(buffers, ns);
      RollbackUndoes(m, Started(m, was), ns);
      ObservedReceipts(m, Started(m, was), ns);
      if originalPrimary != world.primary {
        PopUndoes(m, was, ns);
        world := PopSource(world);
      }
    }

    /** unapply: throws when there is nothing to take back */
    method Unapply() returns (thrown: bool)
      requires Valid()
      modifies this
      ensures Valid() && (thrown <==> old(transactionInfos) == [])
      ensures thrown ==> transactionInfos == [] && world == old(world)
      ensures !thrown ==> transactionInfos == old(transactionInfos)[..|old(transactionInfos)| - 1]
    {
      hide Reversible;
      if transactionInfos == [] {
        return true;
      }
      var n := |transactionInfos| - 1;
      var t := transactionInfos[n];
      ghost var was := AfterAll(m, initial, transactionInfos[..n]);
      AfterAllConsistent(m, initial, transactionInfos[..n]);
      AfterAllConsistent(m, initial, transactionInfos);
      var buffers := Buffered(m, m.publish(t));
      Undo(buffers, m.publish(t));
      RollbackUndoes(m, Started(m, was), m.publish(t));
      ObservedReceipts(m, Started(m, was), m.publish(t));
      if m.withReceipts {
        PopUndoes(m, was, m.publish(t));
      }
      world := PopSource(world);
      transactionInfos := transactionInfos[..n];
      return false;
    }
  }

  /** The notifications that reach the observers. */
  ghost function OnlyObserved<S(!new), N(!new)>(m: Machine<S, N>, ns: seq<N>): seq<N> {
    if ns == [] then [] else
      var rest := OnlyObserved(m, ns[..|ns| - 1]);
      if m.forObserver(ns[|ns| - 1]) then rest + [ns[|ns| - 1]] else rest
  }

  lemma PrefixStep<S(!new), N(!new)>(m: Machine<S, N>, w: World<S>, ns: seq<N>, i: nat)
    requires i < |ns|
    ensures ObservedAll(m, w, ns[..i + 1]) == Observed(m, ObservedAll(m, w, ns[..i]), ns[i])
    ensures OnlyObserved(m, ns[..i + 1]) == OnlyObserved(m, ns[..i]) + if m.forObserver(ns[i]) then [ns[i]] else []
    ensures var ok := m.forValidator(ns[i]) ==> m.valid(ObservedAll(m, w, ns[..i]).cache, ns[i]);
      (Accepts(m, w, ns[..i]) && ok ==> Accepts(m, w, ns[..i + 1])) && (!ok ==> !Accepts(m, w, ns))
  {
    assert ns[..i + 1][..i] == ns[..i];
    var ms := ns[..i + 1];
    if Accepts(m, w, ns[..i]) && (m.forValidator(ns[i]) ==> m.valid(ObservedAll(m, w, ns[..i]).cache, ns[i])) {
      forall k | 0 <= k < |ms| && m.forValidator(ms[k])
        ensures m.valid(ObservedAll(m, w, ms[..k]).cache, ms[k])
      {
        assert ms[..k] == ns[..k];
        if k < i {
          assert ns[..i][..k] == ns[..k] && ns[..i][k] == ns[k];
        }
      }
    }
  }

  lemma {:induction false} RollbackObserved<S(!new), N(!new)>(m: Machine<S, N>, s: S, ns: seq<N>)
    ensures RolledBack(m, s, OnlyObserved(m, ns)) == RolledBack(m, s, ns)
  {
    if ns != [] {
      var k := |ns| - 1;
      var n, rest := ns[k], OnlyObserved(m, ns[..k]);
      if m.forObserver(n) {
        assert (rest + [n])[..|rest|] == rest;
        RollbackObserved(m, m.rollback(s, n), ns[..k]);
      } else {
        RollbackObserved(m, s, ns[..k]);
      }
    }
  }

  lemma {:induction false} AllObserved<S(!new), N(!new)>(m: Machine<S, N>, ns: seq<N>, i: nat)
    requires i < |OnlyObserved(m, ns)|
    ensures m.forObserver(OnlyObserved(m, ns)[i])
  {
    if i < |OnlyObserved(m, ns[..|ns| - 1])| {
      AllObserved(m, ns[..|ns| - 1], i);
    }
  }

  /** ProcessingUndoNotificationSubscriber::notify for each notification: stored, not executed */
  method Buffered<S(!new), N(!new)>(m: Machine<S, N>, ns: seq<N>) returns (buffers: seq<N>)
    ensures buffers == OnlyObserved(m, ns)
  {
    buffers := [];
    for i := 0 to |ns|
      invariant buffers == OnlyObserved(m, ns[..i])
    {
      assert ns[..i + 1][..i] == ns[..i];
      if m.forObserver(ns[i]) {
        buffers := buffers + [ns[i]];
      }
    }
    assert ns[..|ns|] == ns;
  }
}
