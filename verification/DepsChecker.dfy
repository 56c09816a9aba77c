/**
 Closing dependency rules under transitivity by peeling off rules whose dependencies are all settled.
 */
module DepsChecker {

  datatype Rule<K> = Rule(src: K, dest: K)
  type Graph<K> = map<K, set<K>>

  // ---- reachability ----

  /** Consecutive nodes are joined by rules. */
  ghost predicate Path<K(!new)>(g: Graph<K>, p: seq<K>) {
    forall i :: 0 <= i < |p| - 1 ==> p[i] in g && p[i + 1] in g[p[i]]
  }

  ghost predicate PathFrom<K(!new)>(g: Graph<K>, a: K, b: K, p: seq<K>) {
    |p| >= 2 && Path(g, p) && p[0] == a && p[|p| - 1] == b
  }

  /** b is reachable from a in one or more steps. */
  ghost predicate Reaches<K(!new)>(g: Graph<K>, a: K, b: K) {
    exists p :: PathFrom(g, a, b, p)
  }

  ghost predicate Cyclic<K(!new)>(g: Graph<K>) {
    exists a :: Reaches(g, a, a)
  }

  lemma OneStep<K(!new)>(g: Graph<K>, a: K, b: K)
    requires a in g && b in g[a]
    ensures Reaches(g, a, b)
  {
    assert PathFrom(g, a, b, [a, b]);
  }

  lemma FirstThen<K(!new)>(g: Graph<K>, a: K, d: K, b: K)
    requires a in g && d in g[a] && Reaches(g, d, b)
    ensures Reaches(g, a, b)
  {
    var p :| PathFrom(g, d, b, p);
    var q := [a] + p;
    forall i | 0 <= i < |q| - 1
      ensures q[i] in g && q[i + 1] in g[q[i]]
    {
      if i > 0 {
        assert q[i] == p[i - 1] && q[i + 1] == p[i];
      }
    }
    assert PathFrom(g, a, b, q);
  }

  /** Every way to b starts with a rule of a. */
  lemma ByFirstStep<K(!new)>(g: Graph<K>, a: K, b: K) returns (d: K)
    requires Reaches(g, a, b)
    ensures a in g && d in g[a] && (d == b || Reaches(g, d, b))
  {
    var p :| PathFrom(g, a, b, p);
    d := p[1];
    if |p| > 2 {
      var q := p[1..];
      forall i | 0 <= i < |q| - 1
        ensures q[i] in g && q[i + 1] in g[q[i]]
      {
        assert q[i] == p[i + 1] && q[i + 1] == p[i + 2];
      }
      assert PathFrom(g, d, b, q);
    }
  }

  // ---- loops ----

  ghost predicate NoRepeats<K(!new)>(p: seq<K>) {
    forall i, j :: 0 <= i < j < |p| ==> p[i] != p[j]
  }

  lemma {:induction false} LengthWithin<K(!new)>(p: seq<K>, r: set<K>)
    requires NoRepeats(p) && forall i :: 0 <= i < |p| ==> p[i] in r
    ensures |p| <= |r|
  {
    if p != [] {
      var x := p[|p| - 1];
      LengthWithin(p[..|p| - 1], r - {x});
    }
  }

  /** a has a rule that stays inside r. */
  ghost predicate StaysInside<K(!new)>(g: Graph<K>, r: set<K>, a: K) {
    a in g && exists b :: b in g[a] && b in r
  }

  /** A path inside r that visits no node twice. */
  ghost predicate Walk<K(!new)>(g: Graph<K>, r: set<K>, p: seq<K>) {
    p != [] && Path(g, p) && NoRepeats(p) && forall i :: 0 <= i < |p| ==> p[i] in r
  }

  lemma WalkOn<K(!new)>(g: Graph<K>, r: set<K>, p: seq<K>, next: K)
    requires Walk(g, r, p) && p[|p| - 1] in g && next in g[p[|p| - 1]]
    ensures Path(g, p + [next])
  {
  }

  lemma PathSuffix<K(!new)>(g: Graph<K>, q: seq<K>, i: nat)
    requires Path(g, q) && i <= |q|
    ensures Path(g, q[i..])
  {
    var c := q[i..];
    forall k | 0 <= k < |c| - 1
      ensures c[k] in g && c[k + 1] in g[c[k]]
    {
      assert c[k] == q[i + k] && c[k + 1] == q[i + k + 1];
    }
  }

  /** Where every node has a rule that stays inside, a walk must come back to where it was. */
  lemma {:induction false} WalkCloses<K(!new)>(g: Graph<K>, r: set<K>, p: seq<K>)
    requires (forall a :: a in r ==> StaysInside(g, r, a)) && Walk(g, r, p)
    ensures Cyclic(g)
    decreases |r| - |p|
  {
    hide Path;
    var last := p[|p| - 1];
    assert StaysInside(g, r, last);
    var next :| next in g[last] && next in r;
    var q := p + [next];
    WalkOn(g, r, p, next);
    LengthWithin(p, r);
    if next in p {
      var i :| 0 <= i < |p| && p[i] == next;
      PathSuffix(g, q, i);
      assert PathFrom(g, next, next, q[i..]);
      assert Reaches(g, next, next);
    } else {
      LengthWithin(q, r);
      WalkCloses(g, r, q);
    }
  }

  // ---- the algorithm ----

  /** The graph of a list of rules. */
  function GraphOf<K(!new)>(rules: seq<Rule<K>>): Graph<K> {
    if rules == [] then map[] else AddEdge(GraphOf(rules[..|rules| - 1]), rules[|rules| - 1])
  }

  function AddEdge<K(!new)>(g: Graph<K>, r: Rule<K>): Graph<K> {
    g[r.src := (if r.src in g then g[r.src] else {}) + {r.dest}]
  }

  lemma {:induction false} GraphOfMeaning<K(!new)>(rules: seq<Rule<K>>)
    ensures forall a, b :: a in GraphOf(rules) && b in GraphOf(rules)[a] <==> Rule(a, b) in rules
    ensures forall a :: a in GraphOf(rules) ==> GraphOf(rules)[a] != {}
  {
    if rules != [] {
      GraphOfMeaning(rules[..|rules| - 1]);
      assert rules == rules[..|rules| - 1] + [rules[|rules| - 1]];
    }
  }

  function SelfContained<K(!new)>(rules: Graph<K>, deps: set<K>): bool {
    forall dep :: dep in deps ==> dep !in rules
  }

  /** What one node can reach, as far as settled. */
  ghost predicate Exact<K(!new)>(g: Graph<K>, a: K, reached: set<K>) {
    forall b :: b in reached <==> Reaches(g, a, b)
  }

  /** The peeled nodes have their exact reachable sets, and nothing they reach is still to be peeled. */
  ghost predicate Settled<K(!new)>(g: Graph<K>, pending: Graph<K>, rules: Graph<K>) {
    && rules.Keys + pending.Keys == g.Keys && rules.Keys !! pending.Keys
    && (forall a :: a in pending ==> pending[a] == g[a] != {})
    && (forall a :: a in rules ==> Exact(g, a, rules[a]))
    && (forall a, b :: a in rules && b in rules[a] ==> b !in pending && b != a)
  }

  /** The set of a node, empty if it has none yet. */
  function Of<K(!new)>(rules: Graph<K>, a: K): set<K> {
    if a in rules then rules[a] else {}
  }

  ghost function Closure<K(!new)>(rules: Graph<K>, deps: set<K>): set<K> {
    deps + set d, b | d in deps && b in Of(rules, d) :: b
  }

  /** addRule: rules[name] gains dep and everything under it */
  method AddRule<K(==,!new)>(rules: Graph<K>, name: K, dep: K) returns (next: Graph<K>)
    requires dep != name
    ensures next == rules[name := Of(rules, name) + Of(rules, dep) + {dep}]
  {
    hide Of;
    OfIs(rules, dep);
    var mine := Of(rules, name);
    if dep in rules {
      var rest := rules[dep];
      while rest != {}
        invariant mine + rest == Of(rules, name) + Of(rules, dep)
        decreases |rest|
      {
        var subdep :| subdep in rest;
        MoveOne(mine, rest, subdep);
        mine := mine + {subdep};
        rest := rest - {subdep};
      }
    }
    assert mine == Of(rules, name) + Of(rules, dep);
    next := rules[name := mine + {dep}];
  }

  lemma OfIs<K(!new)>(rules: Graph<K>, a: K)
    ensures Of(rules, a) == if a in rules then rules[a] else {}
  {
  }

  lemma MoveOne<K(!new)>(mine: set<K>, rest: set<K>, x: K)
    requires x in rest
    ensures (mine + {x}) + (rest - {x}) == mine + rest
  {
  }

  lemma InClosure<K(!new)>(rules: Graph<K>, deps: set<K>, b: K)
    ensures b in Closure(rules, deps) <==> b in deps || exists d :: d in deps && b in Of(rules, d)
  {
    if d :| d in deps && b in Of(rules, d) {
      assert b in Closure(rules, deps);
    }
  }

  lemma ClosureNext<K(!new)>(rules: Graph<K>, next: Graph<K>, name: K, deps: set<K>, dep: K)
    requires dep != name && name !in rules && next == if deps == {} then rules else rules[name := Closure(rules, deps)]
    ensures Of(next, name) + Of(next, dep) + {dep} == Closure(rules, deps + {dep})
  {
    forall b
      ensures b in Of(next, name) + Of(next, dep) + {dep} <==> b in Closure(rules, deps + {dep})
    {
      InClosure(rules, deps, b);
      InClosure(rules, deps + {dep}, b);
      assert dep in deps + {dep};
    }
  }

  /** addRules, whatever the order in which the set is traversed */
  method AddRules<K(==,!new)>(rules: Graph<K>, name: K, deps: set<K>) returns (next: Graph<K>)
    requires name !in deps && deps != {} && name !in rules
    ensures next == rules[name := Closure(rules, deps)]
  {
    hide Closure, Of;
    next := rules;
    var rest := deps;
    ghost var done: set<K> := {};
    while rest != {}
      invariant rest + done == deps && next == if done == {} then rules else rules[name := Closure(rules, done)]
      decreases |rest|
    {
      var dep :| dep in rest;
      ClosureNext(rules, next, name, done, dep);
      next := AddRule(next, name, dep);
      rest := rest - {dep};
      done := done + {dep};
    }
  }

  /** A node all of whose dependencies are settled gets its exact reachable set. */
  lemma PeelExact<K(!new)>(g: Graph<K>, pending: Graph<K>, rules: Graph<K>, name: K)
    requires Settled(g, pending, rules) && name in pending && SelfContained(pending, pending[name])
    ensures Exact(g, name, Closure(rules, pending[name]))
    ensures forall b :: b in Closure(rules, pending[name]) ==> b !in pending
  {
    var deps := pending[name];
    forall b
      ensures b in Closure(rules, deps) <==> Reaches(g, name, b)
    {
      InClosure(rules, deps, b);
      if b in Closure(rules, deps) {
        if b in deps {
          OneStep(g, name, b);
        } else {
          var d :| d in deps && b in Of(rules, d);
          assert Exact(g, d, rules[d]);
          FirstThen(g, name, d, b);
        }
      }
      if Reaches(g, name, b) {
        var d := ByFirstStep(g, name, b);
        if d != b {
          var e := ByFirstStep(g, d, b);
          assert d in g && d in rules;
          assert Exact(g, d, rules[d]);
          assert b in Of(rules, d);
        }
      }
    }
    forall b | b in Closure(rules, deps)
      ensures b !in pending
    {
      InClosure(rules, deps, b);
    }
  }

  lemma PeelSettled<K(!new)>(g: Graph<K>, pending: Graph<K>, rules: Graph<K>, name: K)
    requires Settled(g, pending, rules) && name in pending && SelfContained(pending, pending[name])
    ensures Settled(g, pending - {name}, rules[name := Closure(rules, pending[name])])
  {
    PeelExact(g, pending, rules, name);
  }

  lemma NotSelfContained<K(!new)>(g: Graph<K>, pending: Graph<K>, rules: Graph<K>, a: K)
    requires Settled(g, pending, rules) && a in pending && !SelfContained(pending, pending[a])
    ensures StaysInside(g, pending.Keys, a)
  {
  }

  lemma WalkStarts<K(!new)>(g: Graph<K>, r: set<K>, a: K)
    requires a in r
    ensures Walk(g, r, [a])
  {
  }

  /** Nothing left to peel although nodes are pending: there is a loop. */
  lemma StuckIsCyclic<K(!new)>(g: Graph<K>, pending: Graph<K>, rules: Graph<K>)
    requires Settled(g, pending, rules) && pending != map[] && forall a :: a in pending ==>
        !SelfContained(pending, pending[a])
    ensures Cyclic(g)
  {
    hide Exact, Cyclic, SelfContained, StaysInside, Settled, Walk;
    var a :| a in pending;
    forall x | x in pending.Keys
      ensures StaysInside(g, pending.Keys, x)
    {
      NotSelfContained(g, pending, rules, x);
    }
    WalkStarts(g, pending.Keys, a);
    WalkCloses(g, pending.Keys, [a]);
  }

  /** Nothing pending: no node reaches itself. */
  lemma DoneIsAcyclic<K(!new)>(g: Graph<K>, rules: Graph<K>)
    requires Settled(g, map[], rules)
    ensures !Cyclic(g)
  {
    if Cyclic(g) {
      var a :| Reaches(g, a, a);
      var d := ByFirstStep(g, a, a);
      NotThroughItself(g, rules, a);
    }
  }

  lemma NotThroughItself<K(!new)>(g: Graph<K>, rules: Graph<K>, a: K)
    requires Settled(g, map[], rules) && a in g
    ensures !Reaches(g, a, a)
  {
    assert a in rules && Exact(g, a, rules[a]);
  }

  datatype Outcome<K> = LoopDetected | Rules(closed: Graph<K>)

  /** for rule in expandedRules: transitiveRules[rule.src].add(rule.dest) */
  method BuildGraph<K(==,!new)>(expandedRules: seq<Rule<K>>) returns (g: Graph<K>)
    ensures g == GraphOf(expandedRules)
  {
    g := map[];
    for i := 0 to |expandedRules|
      invariant g == GraphOf(expandedRules[..i])
    {
      assert expandedRules[..i + 1][..i] == expandedRules[..i];
      g := AddEdge(g, expandedRules[i]);
    }
    assert expandedRules[..|expandedRules|] == expandedRules;
  }

  datatype Found<K> = Nothing | Name(name: K)

  /** The first self-contained rule in some order of iteration, if any. */
  method FindSelfContained<K(==,!new)>(pending: Graph<K>) returns (found: Found<K>)
    ensures found.Name? ==> found.name in pending && SelfContained(pending, pending[found.name])
    ensures found.Nothing? ==> forall a :: a in pending ==> !SelfContained(pending, pending[a])
  {
    var rest := pending.Keys;
    while rest != {}
      invariant rest <= pending.Keys && forall a :: a in pending && a !in rest ==> !SelfContained(pending, pending[a])
      decreases |rest|
    {
      var a :| a in rest;
      if SelfContained(pending, pending[a]) {
        return Name(a);
      }
      rest := rest - {a};
    }
    return Nothing;
  }

  lemma SettledStart<K(!new)>(expandedRules: seq<Rule<K>>)
    ensures Settled(GraphOf(expandedRules), GraphOf(expandedRules), map[])
  {
    GraphOfMeaning(expandedRules);
  }

  lemma Disjoint<K(!new)>(g: Graph<K>, pending: Graph<K>, rules: Graph<K>, a: K)
    requires Settled(g, pending, rules) && a in pending && SelfContained(pending, pending[a])
    ensures a !in pending[a] && a !in rules && pending[a] != {} && |(pending - {a}).Keys| < |pending.Keys|
  {
    assert (pending - {a}).Keys == pending.Keys - {a};
  }

  lemma SettledEnd<K(!new)>(g: Graph<K>, rules: Graph<K>)
    requires Settled(g, map[], rules)
    ensures rules.Keys == g.Keys && forall a, b :: a in rules ==> (b in rules[a] <==> Reaches(g, a, b))
  {
    hide Reaches;
    forall a, b | a in rules
      ensures b in rules[a] <==> Reaches(g, a, b)
    {
      assert Exact(g, a, rules[a]);
    }
  }

  /** processRules: the closed rules, or an error exactly when the rules have a loop */
  method ProcessRules<K(==,!new)>(expandedRules: seq<Rule<K>>) returns (outcome: Outcome<K>)
    ensures outcome.LoopDetected? <==> Cyclic(GraphOf(expandedRules))
    ensures outcome.Rules? ==> outcome.closed.Keys == GraphOf(expandedRules).Keys
    ensures outcome.Rules? ==> forall a, b :: a in outcome.closed ==>
        (b in outcome.closed[a] <==> Reaches(GraphOf(expandedRules), a, b))
  {
    hide Reaches, Cyclic, GraphOf, Settled, Exact, Closure, SelfContained;
    var pending := BuildGraph(expandedRules);
    ghost var g := pending;
    SettledStart(expandedRules);
    var rules: Graph<K> := map[];
    while pending != map[]
      invariant Settled(g, pending, rules)
      decreases |pending.Keys|
    {
      var found := FindSelfContained(pending);
      if found.Nothing? {
        StuckIsCyclic(g, pending, rules);
        return LoopDetected;
      }
      var a := found.name;
      PeelSettled(g, pending, rules, a);
      Disjoint(g, pending, rules, a);
      rules := AddRules(rules, a, pending[a]);
      pending := pending - {a};
    }
    DoneIsAcyclic(g, rules);
    SettledEnd(g, rules);
    outcome := Rules(rules);
  }
}
