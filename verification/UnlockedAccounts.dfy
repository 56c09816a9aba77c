/**
 The bounded container of unlocked accounts, kept in decreasing order of priority.
 */
module UnlockedAccounts {

  datatype Entry<K> = Entry(key: K, score: nat)
  datatype AddResult = SuccessNew | SuccessRedundant | FailureServerLimit

  // ---- what every operation keeps ----

  ghost predicate DistinctKeys<K(!new)>(s: seq<Entry<K>>) {
    forall i, j :: 0 <= i < j < |s| ==> s[i].key != s[j].key
  }

  ghost predicate Decreasing<K(!new)>(s: seq<Entry<K>>) {
    forall i, j :: 0 <= i < j < |s| ==> s[i].score >= s[j].score
  }

  ghost predicate Good<K(!new)>(s: seq<Entry<K>>, limit: nat) {
    DistinctKeys(s) && Decreasing(s) && |s| <= limit
  }

  ghost predicate HasKey<K(!new)>(s: seq<Entry<K>>, key: K) {
    exists i :: 0 <= i < |s| && s[i].key == key
  }

  // ---- the operations on values ----

  /** The first position whose score is lower. */
  function Place<K>(s: seq<Entry<K>>, score: nat): (p: nat)
    ensures p <= |s|
  {
    if s == [] || score > s[0].score then 0 else 1 + Place(s[1..], score)
  }

  function Insert<K>(s: seq<Entry<K>>, e: Entry<K>): seq<Entry<K>> {
    s[..Place(s, e.score)] + [e] + s[Place(s, e.score)..]
  }

  ghost function Added<K(!new)>(s: seq<Entry<K>>, limit: nat, e: Entry<K>): (seq<Entry<K>>, AddResult)
    requires 1 <= limit
  {
    if HasKey(s, e.key) then (s, SuccessRedundant)
    else if |s| == limit && s[limit - 1].score >= e.score then (s, FailureServerLimit)
    else (Insert(if |s| == limit then s[..limit - 1] else s, e), SuccessNew)
  }

  /** The entries whose key does not satisfy the predicate, in order. */
  function Kept<K>(s: seq<Entry<K>>, p: K -> bool): seq<Entry<K>> {
    if s == [] then [] else
      var rest := Kept(s[..|s| - 1], p);
      if p(s[|s| - 1].key) then rest else rest + [s[|s| - 1]]
  }

  // ---- lemmas ----

  lemma {:induction false} PlaceMeaning<K(!new)>(s: seq<Entry<K>>, score: nat)
    requires Decreasing(s)
    ensures forall i :: 0 <= i < |s| ==> (i < Place(s, score) <==> s[i].score >= score)
  {
    if s != [] {
      assert forall i, j :: 0 <= i < j < |s[1..]| ==> s[1..][i] == s[i + 1] && s[1..][j] == s[j + 1];
      PlaceMeaning(s[1..], score);
      forall i | 0 <= i < |s|
        ensures i < Place(s, score) <==> s[i].score >= score
      {
        if i > 0 {
          assert s[i] == s[1..][i - 1];
          assert s[0].score >= s[i].score;
        }
      }
    }
  }

  lemma {:induction false} PlacePrefix<K(!new)>(s: seq<Entry<K>>, n: nat, score: nat)
    requires n <= |s|
    ensures Place(s[..n], score) == if Place(s, score) < n then Place(s, score) else n
  {
    if n > 0 && score <= s[0].score {
      PlacePrefix(s[1..], n - 1, score);
      assert s[..n][1..] == s[1..][..n - 1];
    }
  }

  lemma InsertGood<K(!new)>(s: seq<Entry<K>>, e: Entry<K>)
    requires DistinctKeys(s) && Decreasing(s) && !HasKey(s, e.key)
    ensures DistinctKeys(Insert(s, e)) && Decreasing(Insert(s, e))
  {
    PlaceMeaning(s, e.score);
    var p, t := Place(s, e.score), Insert(s, e);
    forall i, j | 0 <= i < j < |t|
      ensures t[i].key != t[j].key && t[i].score >= t[j].score
    {
      var x := if i < p then i else i - 1;
      var y := if j < p then j else j - 1;
      assert i != p ==> t[i] == s[x];
      assert j != p ==> t[j] == s[y];
    }
  }

  lemma PrefixGood<K(!new)>(s: seq<Entry<K>>, n: nat)
    requires DistinctKeys(s) && Decreasing(s) && n <= |s|
    ensures DistinctKeys(s[..n]) && Decreasing(s[..n])
  {
  }

  /** Adding keeps keys distinct, scores decreasing and the limit. */
  lemma AddedGood<K(!new)>(s: seq<Entry<K>>, limit: nat, e: Entry<K>)
    requires 1 <= limit && Good(s, limit)
    ensures Good(Added(s, limit, e).0, limit)
    ensures Added(s, limit, e).1 == SuccessNew <==> Added(s, limit, e).0 != s
    ensures Added(s, limit, e).1 != FailureServerLimit ==> HasKey(Added(s, limit, e).0, e.key)
  {
    if !HasKey(s, e.key) && !(|s| == limit && s[limit - 1].score >= e.score) {
      var t := if |s| == limit then s[..limit - 1] else s;
      PrefixGood(s, |t|);
      assert t == s[..|t|];
      InsertGood(t, e);
      var r, p := Insert(t, e), Place(t, e.score);
      assert r[p] == e;
      assert HasKey(r, e.key);
    }
  }

  lemma {:induction false} KeptGood<K(!new)>(s: seq<Entry<K>>, p: K -> bool)
    requires DistinctKeys(s) && Decreasing(s)
    ensures DistinctKeys(Kept(s, p)) && Decreasing(Kept(s, p)) && |Kept(s, p)| <= |s|
    ensures forall e :: e in Kept(s, p) <==> e in s && !p(e.key)
  {
    if s != [] {
      var n := |s| - 1;
      PrefixGood(s, n);
      KeptGood(s[..n], p);
      var rest := Kept(s[..n], p);
      assert forall e :: e in s <==> e in s[..n] || e == s[n];
      forall i | 0 <= i < |rest|
        ensures rest[i].key != s[n].key && rest[i].score >= s[n].score
      {
        assert rest[i] in s[..n];
        var k :| 0 <= k < n && s[k] == rest[i];
      }
    }
  }

  // ---- whole runs ----

  datatype Operation<!K> = Add(entry: Entry<K>) | Remove(key: K) | RemoveIf(p: K -> bool)

  ghost function Step<K(!new)>(s: seq<Entry<K>>, limit: nat, op: Operation<K>): seq<Entry<K>>
    requires 1 <= limit
  {
    match op
    case Add(e) => Added(s, limit, e).0
    case Remove(key) => Kept(s, k => k == key)
    case RemoveIf(p) => Kept(s, p)
  }

  ghost function Run<K(!new)>(ops: seq<Operation<K>>, limit: nat): seq<Entry<K>>
    requires 1 <= limit
  {
    if ops == [] then [] else Step(Run(ops[..|ops| - 1], limit), limit, ops[|ops| - 1])
  }

  /** Every run of additions and removals keeps the three properties, whatever scores the prioritizer gives over time.
      */
  lemma {:induction false} RunGood<K(!new)>(ops: seq<Operation<K>>, limit: nat)
    requires 1 <= limit
    ensures Good(Run(ops, limit), limit)
  {
    if ops != [] {
      var s, op := Run(ops[..|ops| - 1], limit), ops[|ops| - 1];
      RunGood(ops[..|ops| - 1], limit);
      match op
      case Add(e) => AddedGood(s, limit, e);
      case Remove(key) => KeptGood(s, k => k == key);
      case RemoveIf(p) => KeptGood(s, p);
    }
  }

  // ---- runs of additions with fixed scores ----

  ghost function AddAll<K(!new)>(keys: seq<K>, score: K -> nat, limit: nat): seq<Entry<K>>
    requires 1 <= limit
  {
    if keys == [] then [] else
      var k := keys[|keys| - 1];
      Added(AddAll(keys[..|keys| - 1], score, limit), limit, Entry(k, score(k))).0
  }

  /** The distinct keys, in order of first arrival. */
  ghost function Arrivals<K>(keys: seq<K>): seq<K> {
    if keys == [] then [] else
      var d, k := Arrivals(keys[..|keys| - 1]), keys[|keys| - 1];
      if k in d then d else d + [k]
  }

  /** Insertion sort of the arrivals: each goes after those of the same score. */
  ghost function Sorted<K>(d: seq<K>, score: K -> nat): seq<Entry<K>> {
    if d == [] then [] else Insert(Sorted(d[..|d| - 1], score), Entry(d[|d| - 1], score(d[|d| - 1])))
  }

  ghost function Top<K>(s: seq<Entry<K>>, limit: nat): seq<Entry<K>> {
    if |s| <= limit then s else s[..limit]
  }

  ghost predicate Unique<K(!new)>(d: seq<K>) {
    forall i, j :: 0 <= i < j < |d| ==> d[i] != d[j]
  }

  lemma {:induction false} ArrivalsUnique<K(!new)>(keys: seq<K>)
    ensures Unique(Arrivals(keys)) && forall k :: k in Arrivals(keys) <==> k in keys
  {
    if keys != [] {
      ArrivalsUnique(keys[..|keys| - 1]);
      assert keys == keys[..|keys| - 1] + [keys[|keys| - 1]];
    }
  }

  /** s lists exactly the keys of d with their scores. */
  ghost predicate Lists<K(!new)>(s: seq<Entry<K>>, d: seq<K>, score: K -> nat) {
    && |s| == |d|
    && (forall i :: 0 <= i < |s| ==> s[i].key in d && s[i].score == score(s[i].key))
    && (forall i :: 0 <= i < |d| ==> Entry(d[i], score(d[i])) in s)
  }

  ghost function Index<K(!new)>(d: seq<K>, k: K): (i: nat)
    requires k in d
    ensures i < |d| && d[i] == k
  {
    var i :| 0 <= i < |d| && d[i] == k;
    i
  }

  /** x has the higher score, or the same score and arrived first. */
  ghost predicate Precedes<K(!new)>(d: seq<K>, x: Entry<K>, y: Entry<K>) {
    x.key in d && y.key in d ==>
      x.score > y.score || (x.score == y.score && Index(d, x.key) < Index(d, y.key))
  }

  /** The order of a stable descending sort: higher scores first, ties by arrival. */
  ghost predicate Ordered<K(!new)>(s: seq<Entry<K>>, d: seq<K>) {
    forall i, j :: 0 <= i < j < |s| ==> Precedes(d, s[i], s[j])
  }

  lemma IndexPrefix<K(!new)>(d: seq<K>, k: K)
    requires Unique(d) && d != [] && k in d[..|d| - 1]
    ensures k in d && Index(d, k) == Index(d[..|d| - 1], k) && Index(d, d[|d| - 1]) == |d| - 1
  {
    var i := Index(d[..|d| - 1], k);
    assert d[i] == k;
  }

  lemma UniquePrefix<K(!new)>(d: seq<K>, n: nat)
    requires Unique(d) && n + 1 == |d|
    ensures Unique(d[..n]) && d[n] !in d[..n] && d == d[..n] + [d[n]]
  {
  }

  lemma NotListed<K(!new)>(s: seq<Entry<K>>, d: seq<K>, score: K -> nat, k: K)
    requires Lists(s, d, score) && k !in d
    ensures !HasKey(s, k)
  {
  }

  lemma SortedNone<K(!new)>(d: seq<K>, score: K -> nat)
    requires d == []
    ensures DistinctKeys(Sorted(d, score)) && Decreasing(Sorted(d, score)) && Lists(Sorted(d, score), d, score)
    ensures Ordered(Sorted(d, score), d)
  {
  }

  lemma {:induction false} SortedIsStableSort<K(!new)>(d: seq<K>, score: K -> nat)
    requires Unique(d)
    ensures DistinctKeys(Sorted(d, score)) && Decreasing(Sorted(d, score)) && Lists(Sorted(d, score), d, score)
    ensures Ordered(Sorted(d, score), d)
  {
    hide Unique, DistinctKeys, Decreasing, Lists, Ordered, Insert, HasKey;
    if d == [] {
      SortedNone(d, score);
    } else {
      var n := |d| - 1;
      var d0, k := d[..n], d[n];
      UniquePrefix(d, n);
      SortedIsStableSort(d0, score);
      var s, e := Sorted(d0, score), Entry(k, score(k));
      NotListed(s, d0, score, k);
      InsertGood(s, e);
      InsertLists(s, d0, k, score);
      InsertOrdered(s, d, score);
    }
  }

  lemma InsertLists<K(!new)>(s: seq<Entry<K>>, d0: seq<K>, k: K, score: K -> nat)
    requires Lists(s, d0, score)
    ensures Lists(Insert(s, Entry(k, score(k))), d0 + [k], score)
  {
    var e := Entry(k, score(k));
    var t := Insert(s, e);
    InsertMembers(s, e);
    forall i | 0 <= i < |t|
      ensures t[i].key in d0 + [k] && t[i].score == score(t[i].key)
    {
      assert t[i] in t;
    }
  }

  lemma InsertMembers<K(!new)>(s: seq<Entry<K>>, e: Entry<K>)
    ensures |Insert(s, e)| == |s| + 1 && forall x :: x in Insert(s, e) <==> x in s || x == e
  {
    var p := Place(s, e.score);
    assert s == s[..p] + s[p..];
  }

  lemma StillPrecedes<K(!new)>(d: seq<K>, x: Entry<K>, y: Entry<K>)
    requires d != [] && Unique(d) && x.key in d[..|d| - 1] && y.key in d[..|d| - 1] && Precedes(d[..|d| - 1], x, y)
    ensures Precedes(d, x, y)
  {
    hide Unique;
    IndexPrefix(d, x.key);
    IndexPrefix(d, y.key);
  }

  lemma PrecedesLast<K(!new)>(d: seq<K>, x: Entry<K>, e: Entry<K>)
    requires d != [] && Unique(d) && x.key in d[..|d| - 1] && e.key == d[|d| - 1]
    ensures x.score >= e.score ==> Precedes(d, x, e)
    ensures x.score < e.score ==> Precedes(d, e, x)
  {
    hide Unique;
    IndexPrefix(d, x.key);
  }

  lemma InsertOrdered<K(!new)>(s: seq<Entry<K>>, d: seq<K>, score: K -> nat)
    requires d != [] && Unique(d) && Lists(s, d[..|d| - 1], score) && Decreasing(s) && Ordered(s, d[..|d| - 1])
    ensures Ordered(Insert(s, Entry(d[|d| - 1], score(d[|d| - 1]))), d)
  {
    hide Unique, Precedes, Place, Decreasing;
    var n := |d| - 1;
    var e := Entry(d[n], score(d[n]));
    var p, t := Place(s, e.score), Insert(s, e);
    PlaceMeaning(s, e.score);
    forall i, j | 0 <= i < j < |t|
      ensures Precedes(d, t[i], t[j])
    {
      var x := if i < p then i else i - 1;
      var y := if j < p then j else j - 1;
      if i != p && j != p {
        assert t[i] == s[x] && t[j] == s[y];
        StillPrecedes(d, s[x], s[y]);
      } else if i != p {
        assert t[i] == s[x] && t[j] == e;
        PrecedesLast(d, s[x], e);
      } else {
        assert t[i] == e && t[j] == s[y];
        PrecedesLast(d, s[y], e);
      }
    }
  }

  lemma NoKeyInTop<K(!new)>(s: seq<Entry<K>>, limit: nat, key: K)
    requires !HasKey(s, key)
    ensures !HasKey(Top(s, limit), key)
  {
    var t := Top(s, limit);
    assert forall i :: 0 <= i < |t| ==> t[i] == s[i];
  }

  lemma InsertBelow<K(!new)>(s: seq<Entry<K>>, n: nat, e: Entry<K>)
    requires n <= Place(s, e.score)
    ensures n <= |s| && Insert(s, e)[..n] == s[..n]
  {
  }

  lemma InsertAbove<K(!new)>(s: seq<Entry<K>>, n: nat, e: Entry<K>)
    requires Place(s, e.score) <= n < |s|
    ensures Insert(s, e)[..n + 1] == Insert(s[..n], e)
  {
    hide Place;
    PlacePrefix(s, n, e.score);
    var p := Place(s, e.score);
    assert Place(s[..n], e.score) == p;
    assert s[..n][..p] == s[..p] && s[..n][p..] == s[p..n];
    assert Insert(s, e)[..n + 1] == s[..p] + [e] + s[p..n];
  }

  /** A container that holds the top of a sorted list, after one more key. */
  lemma AddedTop<K(!new)>(s: seq<Entry<K>>, limit: nat, e: Entry<K>)
    requires 1 <= limit && DistinctKeys(s) && Decreasing(s) && !HasKey(s, e.key)
    ensures Added(Top(s, limit), limit, e).0 == Top(Insert(s, e), limit)
  {
    hide HasKey, DistinctKeys, Decreasing, Place;
    NoKeyInTop(s, limit, e.key);
    PlaceMeaning(s, e.score);
    if |s| >= limit {
      var t := Top(s, limit);
      assert t == s[..limit] && t[limit - 1] == s[limit - 1];
      assert limit - 1 < Place(s, e.score) <==> s[limit - 1].score >= e.score;
      if s[limit - 1].score >= e.score {
        InsertBelow(s, limit, e);
      } else {
        InsertAbove(s, limit - 1, e);
        assert t[..limit - 1] == s[..limit - 1];
      }
    }
  }

  /** A key that arrived before changes nothing. */
  lemma AddedAgain<K(!new)>(s: seq<Entry<K>>, limit: nat, e: Entry<K>)
    requires 1 <= limit && Decreasing(s) && e in s
    ensures Added(Top(s, limit), limit, e).0 == Top(s, limit)
  {
    var t := Top(s, limit);
    var i :| 0 <= i < |s| && s[i] == e;
    if i < |t| {
      assert t[i].key == e.key;
    } else {
      assert s[limit - 1].score >= s[i].score;
    }
  }

  /** Additions alone leave the first `limit` entries of the stable descending sort of the distinct keys by first
      arrival. */
  lemma {:induction false} AddAllIsTop<K(!new)>(keys: seq<K>, score: K -> nat, limit: nat)
    requires 1 <= limit
    ensures AddAll(keys, score, limit) == Top(Sorted(Arrivals(keys), score), limit)
  {
    if keys != [] {
      var n := |keys| - 1;
      var d, k := Arrivals(keys[..n]), keys[n];
      AddAllIsTop(keys[..n], score, limit);
      ArrivalsUnique(keys[..n]);
      SortedIsStableSort(d, score);
      var s, e := Sorted(d, score), Entry(k, score(k));
      if k in d {
        AddedAgain(s, limit, e);
      } else {
        AddedTop(s, limit, e);
        assert (d + [k])[..|d|] == d;
      }
    }
  }

  // ---- the container ----

  class Container<K(==,!new)> {
    const limit: nat
    var entries: seq<Entry<K>>

    ghost predicate Valid()
      reads this
    {
      1 <= limit && Good(entries, limit)
    }

    constructor (max: nat)
      requires 1 <= max
      ensures Valid() && limit == max && entries == []
    {
      limit := max;
      entries := [];
    }

    method Contains(key: K) returns (found: bool)
      ensures found <==> HasKey(entries, key)
    {
      var i := 0;
      while i < |entries|
        invariant 0 <= i <= |entries| && forall j :: 0 <= j < i ==> entries[j].key != key
      {
        if entries[i].key == key {
          return true;
        }
        i := i + 1;
      }
      return false;
    }

    /** The first position with a lower score. */
    method FindPlace(score: nat) returns (i: nat)
      ensures i == Place(entries, score)
    {
      i := 0;
      while i < |entries|
        invariant 0 <= i <= |entries| && Place(entries, score) == i + Place(entries[i..], score)
      {
        assert entries[i..][1..] == entries[i + 1..];
        if score > entries[i].score {
          break;
        }
        i := i + 1;
      }
    }

    /** UnlockedAccountsModifier::add; score is what the prioritizer says of the key */
    method AddKey(key: K, score: nat) returns (result: AddResult)
      requires Valid()
      modifies this
      ensures Valid() && (entries, result) == Added(old(entries), limit, Entry(key, score))
    {
      AddedGood(entries, limit, Entry(key, score));
      var found := Contains(key);
      if found {
        return SuccessRedundant;
      }
      if limit == |entries| {
        if entries[|entries| - 1].score >= score {
          return FailureServerLimit;
        }
        entries := entries[..|entries| - 1];
      }
      var i := FindPlace(score);
      entries := entries[..i] + [Entry(key, score)] + entries[i..];
      return SuccessNew;
    }

    /**
     std::remove_if: moves the kept entries to the front and returns their number;
     what is left behind them is unspecified.
     */
    method Compact(p: K -> bool) returns (end: nat)
      modifies this
      ensures end == |Kept(old(entries), p)| <= |entries| == |old(entries)| && entries[..end] == Kept(old(entries), p)
    {
      ghost var was := entries;
      end := 0;
      for i := 0 to |entries|
        invariant |entries| == |was| && end <= i && entries[..end] == Kept(was[..i], p) && entries[i..] == was[i..]
      {
        assert was[..i + 1][..i] == was[..i] && was[..i + 1][i] == was[i] == entries[i..][0] == entries[i];
        if !p(entries[i].key) {
          ghost var before := entries;
          entries := entries[end := entries[i]];
          assert entries[..end + 1] == before[..end] + [was[i]];
          assert entries[i + 1..] == before[i + 1..] == before[i..][1..];
          end := end + 1;
        } else {
          assert entries[i + 1..] == entries[i..][1..];
        }
      }
      assert was[..|was|] == was;
    }

    /** UnlockedAccountsModifier::remove: erases at most the one entry at the new end */
    method RemoveKey(key: K)
      requires Valid()
      modifies this
      ensures Valid() && entries == Kept(old(entries), k => k == key)
    {
      ghost var was, p := entries, k => k == key;
      KeptGood(was, p);
      AtMostOne(was, key);
      var end := Compact(k => k == key);
      KeptSame(was, k => k == key, p);
      if |entries| != end {
        entries := entries[..end] + entries[end + 1..];
      }
    }

    /** UnlockedAccountsModifier::removeIf: erases everything from the new end on */
    method RemoveKeysIf(p: K -> bool)
      requires Valid()
      modifies this
      ensures Valid() && entries == Kept(old(entries), p)
    {
      KeptGood(entries, p);
      var end := Compact(p);
      entries := entries[..end];
    }
  }

  lemma {:induction false} KeptSame<K(!new)>(s: seq<Entry<K>>, p: K -> bool, q: K -> bool)
    requires forall k :: p(k) == q(k)
    ensures Kept(s, p) == Kept(s, q)
  {
    if s != [] {
      KeptSame(s[..|s| - 1], p, q);
    }
  }

  lemma {:induction false} NoneMatches<K(!new)>(s: seq<Entry<K>>, key: K)
    requires !HasKey(s, key)
    ensures Kept(s, k => k == key) == s
  {
    if s != [] {
      var n := |s| - 1;
      assert s[n].key != key;
      assert !HasKey(s[..n], key) by {
        assert forall i :: 0 <= i < n ==> s[..n][i] == s[i];
      }
      NoneMatches(s[..n], key);
      assert s == s[..n] + [s[n]];
    }
  }

  /** Keys being distinct, at most one entry goes. */
  lemma {:induction false} AtMostOne<K(!new)>(s: seq<Entry<K>>, key: K)
    requires DistinctKeys(s)
    ensures |Kept(s, k => k == key)| == if HasKey(s, key) then |s| - 1 else |s|
  {
    if s != [] {
      var n := |s| - 1;
      assert forall i :: 0 <= i < n ==> s[..n][i] == s[i];
      if s[n].key == key {
        assert !HasKey(s[..n], key);
        NoneMatches(s[..n], key);
      } else {
        AtMostOne(s[..n], key);
        assert HasKey(s, key) <==> HasKey(s[..n], key) by {
          if HasKey(s, key) {
            var i :| 0 <= i < |s| && s[i].key == key;
            assert s[..n][i].key == key;
          }
          if HasKey(s[..n], key) {
            var i :| 0 <= i < n && s[..n][i].key == key;
            assert s[i].key == key;
          }
        }
      }
    }
  }
}
