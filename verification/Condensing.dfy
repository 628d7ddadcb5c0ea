/**
 * What happens to the bounds of a graph when nodes are merged again and again: every node ends
 * with the meet of the upper and the join of the lower bounds of all the nodes it stands for.
 */
module Condensing {
  import opened Lattice
  import opened CongruenceClosure
  import opened Quotients
  import opened MappingGraphs

  /** The nodes that node m stands for. */
  function Sources(to: map<nat, nat>, m: nat): set<nat> {
    set x | x in to && to[x] == m
  }

  ghost predicate WeightsIn<T>(weights: map<nat, Bounds<T>>, dom: set<T>) {
    forall x | x in weights :: weights[x].upper in dom && weights[x].lower in dom
  }

  /** Every node is sent to one that stands for it, and no other nodes are left. */
  ghost predicate Covers<T>(weights: map<nat, Bounds<T>>, to: map<nat, nat>, weights': map<nat, Bounds<T>>) {
    && to.Keys == weights.Keys
    && (forall x | x in to :: to[x] in weights')
    && (forall m | m in weights' :: Sources(to, m) != {})
  }

  ghost predicate Condensed<T>(dom: set<T>, o: Ops<T>, weights: map<nat, Bounds<T>>, S: set<nat>, w: Bounds<T>)
    requires S <= weights.Keys
  {
    IsGlb(dom, o, UppersAt(weights, S), w.upper) && IsLub(dom, o, LowersAt(weights, S), w.lower)
  }

  /** Over any lattice, each bound is exactly what the bounds of the merged nodes amount to. */
  ghost predicate Condenses<T(!new)>(o: Ops<T>, weights: map<nat, Bounds<T>>, to: map<nat, nat>,
                                     weights': map<nat, Bounds<T>>) {
    && Covers(weights, to, weights')
    && (forall dom: set<T> | IsLattice(dom, o) && WeightsIn(weights, dom) ::
         AllCondensed(dom, o, weights, to, weights'))
  }

  ghost predicate AllCondensed<T(!new)>(dom: set<T>, o: Ops<T>, weights: map<nat, Bounds<T>>, to: map<nat, nat>,
                                        weights': map<nat, Bounds<T>>)
    requires Covers(weights, to, weights')
  {
    forall m | m in weights' :: Condensed(dom, o, weights, Sources(to, m), weights'[m])
  }

  function Same<T>(weights: map<nat, Bounds<T>>): map<nat, nat> {
    map x | x in weights :: x
  }

  lemma CondensesSame<T(!new)>(o: Ops<T>, weights: map<nat, Bounds<T>>)
    ensures Condenses(o, weights, Same(weights), weights)
  {
    hide IsLattice, Leq;
    forall m | m in weights ensures Sources(Same(weights), m) == {m} {
    }
    forall dom: set<T> | IsLattice(dom, o) && WeightsIn(weights, dom)
      ensures AllCondensed(dom, o, weights, Same(weights), weights)
    {
      forall m | m in weights ensures Condensed(dom, o, weights, Sources(Same(weights), m), weights[m]) {
        LeqReflexive(dom, o, weights[m].upper);
        LeqReflexive(dom, o, weights[m].lower);
        assert UppersAt(weights, {m}) == {weights[m].upper} && LowersAt(weights, {m}) == {weights[m].lower};
      }
    }
  }

  lemma CondensesQuotient<T(!new)>(o: Ops<T>, weights: map<nat, Bounds<T>>, groups: Groups, home: map<nat, nat>,
                                   weights': map<nat, Bounds<T>>)
    requires IsGroupWeights(o, weights, groups, weights') && IsHome(groups, home, weights.Keys)
    requires IsPartition(groups, weights.Keys)
    ensures Condenses(o, weights, home, weights')
  {
    hide IsLattice, FoldOf, IsGlb, IsLub, IsPartition;
    forall k | k in weights' ensures Sources(home, k) == groups[k] && groups[k] != {} {
      GroupAt(groups, weights.Keys, k);
    }
    forall dom: set<T> | IsLattice(dom, o) && WeightsIn(weights, dom)
      ensures AllCondensed(dom, o, weights, home, weights')
    {
      forall k | k in weights' ensures Condensed(dom, o, weights, Sources(home, k), weights'[k]) {
        FoldOfIsTight(dom, o, weights, groups[k], weights'[k]);
      }
    }
  }

  function Then(to: map<nat, nat>, to': map<nat, nat>): map<nat, nat>
    requires forall x | x in to :: to[x] in to'
  {
    map x | x in to :: to'[to[x]]
  }

  function SourcesOf(to: map<nat, nat>, S: set<nat>): set<nat> {
    set x | x in to && to[x] in S
  }

  function UpperMap<T>(weights: map<nat, Bounds<T>>, S: set<nat>): map<nat, T>
    requires S <= weights.Keys
  {
    map y | y in S :: weights[y].upper
  }

  function LowerMap<T>(weights: map<nat, Bounds<T>>, S: set<nat>): map<nat, T>
    requires S <= weights.Keys
  {
    map y | y in S :: weights[y].lower
  }

  function UpperParts<T>(weights: map<nat, Bounds<T>>, to: map<nat, nat>, S: set<nat>): map<nat, set<T>>
    requires to.Keys == weights.Keys
  {
    map y | y in S :: UppersAt(weights, Sources(to, y))
  }

  function LowerParts<T>(weights: map<nat, Bounds<T>>, to: map<nat, nat>, S: set<nat>): map<nat, set<T>>
    requires to.Keys == weights.Keys
  {
    map y | y in S :: LowersAt(weights, Sources(to, y))
  }

  lemma CondensedThen<T(!new)>(dom: set<T>, o: Ops<T>, weights: map<nat, Bounds<T>>, to: map<nat, nat>,
                               weights': map<nat, Bounds<T>>, S: set<nat>, w: Bounds<T>)
    requires IsLattice(dom, o) && WeightsIn(weights, dom) && Covers(weights, to, weights')
    requires AllCondensed(dom, o, weights, to, weights')
    requires S <= weights'.Keys && Condensed(dom, o, weights', S, w)
    ensures Condensed(dom, o, weights, SourcesOf(to, S), w)
  {
    hide IsLattice, IsGlb, IsLub, IsUnion, IsRange;
    var R := SourcesOf(to, S);
    forall y | y in S ensures IsGlb(dom, o, UpperParts(weights, to, S)[y], UpperMap(weights', S)[y])
                              && IsLub(dom, o, LowerParts(weights, to, S)[y], LowerMap(weights', S)[y]) {
      assert Condensed(dom, o, weights, Sources(to, y), weights'[y]);
    }
    UpperRange(weights', S);
    LowerRange(weights', S);
    UpperUnion(weights, to, S);
    LowerUnion(weights, to, S);
    GlbOfGlbs(dom, o, UpperParts(weights, to, S), UpperMap(weights', S), UppersAt(weights', S), UppersAt(weights, R),
              w.upper);
    LubOfLubs(dom, o, LowerParts(weights, to, S), LowerMap(weights', S), LowersAt(weights', S), LowersAt(weights, R),
              w.lower);
  }

  lemma UpperRange<T>(weights: map<nat, Bounds<T>>, S: set<nat>)
    requires S <= weights.Keys
    ensures IsRange(UpperMap(weights, S), UppersAt(weights, S))
  {
    forall x | x in S ensures UpperMap(weights, S)[x] in UppersAt(weights, S) {
      assert weights[x].upper in UppersAt(weights, S);
    }
    forall v | v in UppersAt(weights, S) ensures exists x :: x in UpperMap(weights, S) && UpperMap(weights, S)[x] == v {
      var x :| x in S && weights[x].upper == v;
      assert UpperMap(weights, S)[x] == v;
    }
  }

  lemma LowerRange<T>(weights: map<nat, Bounds<T>>, S: set<nat>)
    requires S <= weights.Keys
    ensures IsRange(LowerMap(weights, S), LowersAt(weights, S))
  {
    forall x | x in S ensures LowerMap(weights, S)[x] in LowersAt(weights, S) {
      assert weights[x].lower in LowersAt(weights, S);
    }
    forall v | v in LowersAt(weights, S) ensures exists x :: x in LowerMap(weights, S) && LowerMap(weights, S)[x] == v {
      var x :| x in S && weights[x].lower == v;
      assert LowerMap(weights, S)[x] == v;
    }
  }

  lemma UpperUnion<T>(weights: map<nat, Bounds<T>>, to: map<nat, nat>, S: set<nat>)
    requires to.Keys == weights.Keys
    ensures IsUnion(UpperParts(weights, to, S), UppersAt(weights, SourcesOf(to, S)))
  {
    var parts := UpperParts(weights, to, S);
    forall u | u in UppersAt(weights, SourcesOf(to, S)) ensures exists y :: y in parts && u in parts[y] {
      var x :| x in SourcesOf(to, S) && weights[x].upper == u;
      assert x in Sources(to, to[x]) && u in parts[to[x]];
    }
  }

  lemma LowerUnion<T>(weights: map<nat, Bounds<T>>, to: map<nat, nat>, S: set<nat>)
    requires to.Keys == weights.Keys
    ensures IsUnion(LowerParts(weights, to, S), LowersAt(weights, SourcesOf(to, S)))
  {
    var parts := LowerParts(weights, to, S);
    forall u | u in LowersAt(weights, SourcesOf(to, S)) ensures exists y :: y in parts && u in parts[y] {
      var x :| x in SourcesOf(to, S) && weights[x].lower == u;
      assert x in Sources(to, to[x]) && u in parts[to[x]];
    }
  }

  lemma CondensedIn<T(!new)>(dom: set<T>, o: Ops<T>, weights: map<nat, Bounds<T>>, to: map<nat, nat>,
                             weights': map<nat, Bounds<T>>)
    requires Covers(weights, to, weights') && AllCondensed(dom, o, weights, to, weights')
    ensures WeightsIn(weights', dom)
  {
    forall m | m in weights' ensures weights'[m].upper in dom && weights'[m].lower in dom {
      assert Condensed(dom, o, weights, Sources(to, m), weights'[m]);
    }
  }

  /** Merging twice is merging once. */
  lemma CondensesThen<T(!new)>(o: Ops<T>, a: map<nat, Bounds<T>>, to: map<nat, nat>, b: map<nat, Bounds<T>>,
                               to': map<nat, nat>, c: map<nat, Bounds<T>>)
    requires Condenses(o, a, to, b) && Condenses(o, b, to', c)
    ensures (forall x | x in to :: to[x] in to') && Condenses(o, a, Then(to, to'), c)
  {
    hide IsLattice, Condensed, WeightsIn;
    var both := Then(to, to');
    forall m | m in c ensures Sources(both, m) == SourcesOf(to, Sources(to', m)) && Sources(both, m) != {} {
      var y :| y in Sources(to', m);
      var x :| x in Sources(to, y);
      assert x in Sources(both, m);
    }
    forall dom: set<T> | IsLattice(dom, o) && WeightsIn(a, dom) ensures AllCondensed(dom, o, a, both, c) {
      CondensedIn(dom, o, a, to, b);
      forall m | m in c ensures Condensed(dom, o, a, Sources(both, m), c[m]) {
        CondensedThen(dom, o, a, to, b, Sources(to', m), c[m]);
      }
    }
  }
}
