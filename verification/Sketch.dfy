/** Sketches and their meet and join (src/solver/type_sketch.rs, binop_sketch, intersect, union). */
module Sketches {
  import opened Graphs
  import opened Constraints
  import opened Lattice
  import opened BoundsLattice
  import opened CongruenceClosure
  import opened Quotients
  import opened MappingGraphs
  import opened DfaOperations
  import opened SketchDfa
  import opened SketchCombine

  // ----- the final quotient -----

  /** q is g with the nodes merged that have to agree, and nothing else merged. */
  ghost predicate IsRequotient<T>(g: SketchValue<T>, o: Ops<T>, groups: Groups, n: nat, home: map<nat, nat>,
                                  q: SketchValue<T>) {
    && g.Wf() && ExactGroups(g.weights.Keys, g.edges, {}, groups, n) && IsHome(groups, home, g.weights.Keys)
    && EndsIn(g.edges, home.Keys) && g.entry in home
    && q.edges == Image(home, g.edges) && q.entry == home[g.entry] && IsGroupWeights(o, g.weights, groups, q.weights)
  }

  lemma RequotientAgrees<T>(g: SketchValue<T>, o: Ops<T>, groups: Groups, n: nat, home: map<nat, nat>,
                            q: SketchValue<T>)
    requires IsRequotient(g, o, groups, n, home, q)
    ensures Agreeing(q.edges) && q.Wf()
  {
    hide FoldOf, Congruent, SameGroup, IsPartition;
    QuotientAgrees(g.weights.Keys, g.edges, {}, groups, n, home);
    QuotientLive(groups, home, g.weights.Keys, g.edges, q.weights.Keys);
  }

  lemma RequotientHas<T>(g: SketchValue<T>, o: Ops<T>, groups: Groups, n: nat, home: map<nat, nat>, q: SketchValue<T>,
                         w: Word)
    requires IsRequotient(g, o, groups, n, home, q) && g.Has(w)
    ensures q.Has(w)
  {
    hide Congruent, SameGroup, IsPartition, FoldOf;
    RequotientAgrees(g, o, groups, n, home, q);
    var x :| x in g.At(w);
    QuotientKeepsPaths(g.edges, home, g.entry, w, x);
    assert home[x] in q.At(w);
  }

  /** The quotient loses no path, and the merged bounds are at least as tight. */
  lemma RequotientKeepsPath<T(!new)>(g: SketchValue<T>, o: Ops<T>, groups: Groups, n: nat, home: map<nat, nat>,
                                     q: SketchValue<T>, dom: set<T>, w: Word, default: Bounds<T>)
    requires IsRequotient(g, o, groups, n, home, q) && g.Has(w)
    requires IsLattice(dom, o) && BoundsIn(g, dom)
    ensures q.Wf() && q.Has(w)
    ensures Leq(o, q.BoundsAt(w, default).upper, g.BoundsAt(w, default).upper)
    ensures Leq(o, g.BoundsAt(w, default).lower, q.BoundsAt(w, default).lower)
  {
    hide Congruent, SameGroup, IsPartition, IsLattice, Leq, FoldOf;
    RequotientAgrees(g, o, groups, n, home, q);
    g.AtLive(w);
    var x :| x in g.At(w);
    QuotientKeepsPaths(g.edges, home, g.entry, w, x);
    assert home[x] in q.At(w);
    NodeBounds(g, w, x, default);
    NodeBounds(q, w, home[x], default);
    var S := groups[home[x]];
    assert x in S && S <= g.weights.Keys && FoldOf(o, g.weights, S, q.weights[home[x]]);
    FoldOfIsTight(dom, o, g.weights, S, q.weights[home[x]]);
    assert g.weights[x].upper in UppersAt(g.weights, S) && g.weights[x].lower in LowersAt(g.weights, S);
  }

  /** A graph that agrees already is only renumbered: same paths, same bounds. */
  lemma RequotientOfAgreeing<T>(g: SketchValue<T>, o: Ops<T>, groups: Groups, n: nat, home: map<nat, nat>,
                                q: SketchValue<T>, w: Word, default: Bounds<T>)
    requires IsRequotient(g, o, groups, n, home, q) && Agreeing(g.edges)
    ensures q.Wf() && (q.Has(w) <==> g.Has(w)) && q.BoundsAt(w, default) == g.BoundsAt(w, default)
  {
    hide FoldOf, Congruent, SameGroup, IsPartition, Agreeing;
    RequotientAgrees(g, o, groups, n, home, q);
    HomeInjective(g, o, groups, n, home, q);
    NamedRun(home, g.edges, {g.entry}, w);
    assert Image(home, g.edges) == NamedArcs(home, g.edges);
    assert Named(home, {g.entry}) == {q.entry};
    if g.Has(w) {
      var x :| x in g.At(w);
      assert home[x] in q.At(w);
      NodeBounds(g, w, x, default);
      NodeBounds(q, w, home[x], default);
      SingletonWeight(o, g.weights, groups, home, q.weights, x);
    }
  }

  lemma HomeInjective<T>(g: SketchValue<T>, o: Ops<T>, groups: Groups, n: nat, home: map<nat, nat>, q: SketchValue<T>)
    requires IsRequotient(g, o, groups, n, home, q) && Agreeing(g.edges)
    ensures Injective(home)
  {
    hide FoldOf, Congruent, SameGroup, IsPartition;
    var same := map x | x in g.weights :: x;
    forall x, y | x in home && y in home && home[x] == home[y] ensures x == y {
      QuotientIsLeast(g.weights.Keys, g.edges, {}, groups, n, home, same, x, y);
    }
  }

  lemma SingletonWeight<T>(o: Ops<T>, weights: map<nat, Bounds<T>>, groups: Groups, home: map<nat, nat>,
                           weights': map<nat, Bounds<T>>, x: nat)
    requires IsHome(groups, home, weights.Keys) && Injective(home) && IsGroupWeights(o, weights, groups, weights')
    requires x in weights
    ensures home[x] in weights' && weights'[home[x]] == weights[x]
  {
    var S := groups[home[x]];
    assert S == {x};
    var order :| Enumerates(order, S) && weights'[home[x]] == FoldBounds(o, WeightsAlong(weights, order));
    assert |order| == 1 && order[0] == x;
  }

  // ----- exactly when the quotient gains no path -----

  /** The same words lead on from both nodes. */
  ghost predicate SameAhead(E: set<SketchEdge>, x: nat, y: nat) {
    forall w: Word :: Run(E, {x}, w) != {} <==> Run(E, {y}, w) != {}
  }

  ghost predicate IsLeastAhead(live: set<nat>, E: set<SketchEdge>, x: nat, y: nat) {
    y in live && SameAhead(E, x, y) && forall z | z in live && SameAhead(E, x, z) :: y <= z
  }

  /** The least node from which the same words lead on. */
  ghost function Least(live: set<nat>, E: set<SketchEdge>, x: nat): (y: nat)
    requires x in live
    ensures IsLeastAhead(live, E, x, y)
  {
    assert SameAhead(E, x, x);
    LeastFrom(live, E, x, x)
  }

  ghost function LeastFrom(live: set<nat>, E: set<SketchEdge>, x: nat, m: nat): (y: nat)
    requires m in live && SameAhead(E, x, m)
    ensures IsLeastAhead(live, E, x, y)
    decreases m
  {
    if z: nat :| z in live && z < m && SameAhead(E, x, z) then LeastFrom(live, E, x, z) else m
  }

  lemma AheadSymmetric(E: set<SketchEdge>, x: nat, y: nat, z: nat)
    requires SameAhead(E, x, y) && SameAhead(E, x, z)
    ensures SameAhead(E, y, z)
  {
    forall w: Word ensures Run(E, {y}, w) != {} <==> Run(E, {z}, w) != {} {
      assert Run(E, {x}, w) != {} <==> Run(E, {y}, w) != {};
    }
  }

  lemma LeastAgrees(live: set<nat>, E: set<SketchEdge>, x: nat, y: nat)
    requires x in live && y in live
    ensures Least(live, E, x) == Least(live, E, y) <==> SameAhead(E, x, y)
  {
    hide SameAhead;
    AheadSelf(E, x);
    AheadSelf(E, y);
    var a, b := Least(live, E, x), Least(live, E, y);
    if a == b {
      AheadSymmetric(E, y, b, y);
      AheadTrans(E, x, a, y);
    } else if SameAhead(E, x, y) {
      AheadSymmetric(E, x, y, a);
      AheadTrans(E, x, y, b);
    }
  }

  lemma AheadSelf(E: set<SketchEdge>, x: nat)
    ensures SameAhead(E, x, x)
  {
  }

  lemma AheadTrans(E: set<SketchEdge>, x: nat, y: nat, z: nat)
    requires SameAhead(E, x, y) && SameAhead(E, y, z)
    ensures SameAhead(E, x, z)
  {
    forall w: Word ensures Run(E, {x}, w) != {} <==> Run(E, {z}, w) != {} {
      assert Run(E, {x}, w) != {} <==> Run(E, {y}, w) != {};
    }
  }

  lemma RunAlong(E: set<SketchEdge>, e: SketchEdge, w: Word)
    requires Deterministic(E) && e in E
    ensures Run(E, {e.src}, [e.lab] + w) == Run(E, {e.dst}, w)
  {
    assert Step(E, {e.src}, e.lab) == {e.dst};
    assert ([e.lab] + w)[1..] == w;
  }

  /** Nodes with the same words ahead still have them after equal labels. */
  lemma AheadAfter(E: set<SketchEdge>, e: SketchEdge, f: SketchEdge)
    requires Deterministic(E) && e in E && f in E && e.lab == f.lab && SameAhead(E, e.src, f.src)
    ensures SameAhead(E, e.dst, f.dst)
  {
    forall w: Word ensures Run(E, {e.dst}, w) != {} <==> Run(E, {f.dst}, w) != {} {
      RunAlong(E, e, w);
      RunAlong(E, f, w);
      assert Run(E, {e.src}, [e.lab] + w) != {} <==> Run(E, {f.src}, [e.lab] + w) != {};
    }
  }

  /** Wherever a path goes on by a load and by a store, the same paths go on behind both. */
  ghost predicate LoadsMatchStores<T>(g: SketchValue<T>) {
    forall u: Word, v: Word | g.Has(u + [Load]) && g.Has(u + [Store]) :: g.Has(u + [Load] + v)
           <==> g.Has(u + [Store] + v)
  }

  lemma RunAfter<T>(g: SketchValue<T>, u: Word, e: SketchEdge, v: Word)
    requires g.Wf() && g.At(u) == {e.src} && e in g.edges
    ensures g.Has(u + [e.lab]) && (g.Has(u + [e.lab] + v) <==> Run(g.edges, {e.dst}, v) != {})
  {
    RunConcat(g.edges, {g.entry}, u, [e.lab]);
    RunConcat(g.edges, {g.entry}, u + [e.lab], v);
    RunAlong(g.edges, e, []);
    assert [e.lab] + [] == [e.lab];
  }

  lemma AheadOfPointers<T>(g: SketchValue<T>, e: SketchEdge, f: SketchEdge)
    requires g.Wf() && LoadsMatchStores(g) && Reachable(g.edges, g.entry, e.src)
    requires e in g.edges && f in g.edges && e.src == f.src && e.lab == Load && f.lab == Store
    ensures SameAhead(g.edges, e.dst, f.dst)
  {
    hide SketchValue.Has;
    var u: Word :| e.src in Run(g.edges, {g.entry}, u);
    g.AtLive(u);
    assert g.At(u) == {e.src};
    forall v: Word ensures Run(g.edges, {e.dst}, v) != {} <==> Run(g.edges, {f.dst}, v) != {} {
      RunAfter(g, u, e, v);
      RunAfter(g, u, f, v);
    }
  }

  lemma EdgeAt(E: set<SketchEdge>, x: nat, f: SketchEdge) returns (e: SketchEdge)
    requires Deterministic(E) && f in E && SameAhead(E, x, f.src)
    ensures e in E && e.src == x && e.lab == f.lab
  {
    RunAlong(E, f, []);
    assert [f.lab] + [] == [f.lab];
    assert Run(E, {x}, [f.lab]) != {};
    RunOne(E, {x}, f.lab);
    e :| e in E && e.src == x && e.lab == f.lab;
  }

  ghost function LeastMap(live: set<nat>, E: set<SketchEdge>): map<nat, nat> {
    map x | x in live :: Least(live, E, x)
  }

  lemma AlikeAhead<T>(g: SketchValue<T>, e: SketchEdge, f: SketchEdge)
    requires g.Wf() && LoadsMatchStores(g) && Reachable(g.edges, g.entry, e.src)
    requires e in g.edges && f in g.edges && Alike(e.lab, f.lab) && SameAhead(g.edges, e.src, f.src)
    ensures SameAhead(g.edges, e.dst, f.dst)
  {
    hide SameAhead, LoadsMatchStores, Reachable;
    if e.lab == f.lab {
      AheadAfter(g.edges, e, f);
    } else {
      var k := EdgeAt(g.edges, e.src, f);
      AheadSelf(g.edges, f.src);
      AheadAfter(g.edges, k, f);
      AheadOfPointers(g, e, k);
      AheadTrans(g.edges, e.dst, k.dst, f.dst);
    }
  }

  /** Then the least nodes respect what the quotient has to merge. */
  lemma LeastRespects<T>(g: SketchValue<T>)
    requires g.Wf() && LoadsMatchStores(g) && forall x | x in g.weights :: Reachable(g.edges, g.entry, x)
    ensures Respects(LeastMap(g.weights.Keys, g.edges), g.weights.Keys, g.edges, {})
  {
    hide SameAhead, LoadsMatchStores, Reachable, Alike, IsLeastAhead, Least;
    var live, E := g.weights.Keys, g.edges;
    var h := LeastMap(live, E);
    forall e, f | e in E && f in E && Alike(e.lab, f.lab) && e.src in h && f.src in h && h[e.src] == h[f.src]
      ensures e.dst in h && f.dst in h && h[e.dst] == h[f.dst]
    {
      LeastAgrees(live, E, e.src, f.src);
      AlikeAhead(g, e, f);
      LeastAgrees(live, E, e.dst, f.dst);
    }
  }

  /** Where merged nodes have the same words ahead, the quotient has no others. */
  lemma {:induction false} ImageAhead(E: set<SketchEdge>, home: map<nat, nat>, x: nat, w: Word)
    requires Deterministic(E) && EndsIn(E, home.Keys) && x in home
    requires forall y, z | y in home && z in home && home[y] == home[z] :: SameAhead(E, y, z)
    requires Run(Image(home, E), {home[x]}, w) != {}
    ensures Run(E, {x}, w) != {}
    decreases |w|
  {
    if w != [] {
      var I := Image(home, E);
      var z :| z in Run(I, {home[x]}, w);
      var q := RunFrom(I, Step(I, {home[x]}, w[0]), w[1..], z);
      var e' :| e' in I && e'.src == home[x] && e'.lab == w[0] && e'.dst == q;
      var e :| e in E && e' == ImageEdge(home, e);
      ImageAhead(E, home, e.dst, w[1..]);
      RunAlong(E, e, w[1..]);
      assert w == [e.lab] + w[1..] && SameAhead(E, e.src, x);
    }
  }

  /** The quotient gains no path if and only if loads and stores have the same paths behind them. */
  lemma RequotientExactly<T>(g: SketchValue<T>, o: Ops<T>, groups: Groups, n: nat, home: map<nat, nat>,
                             q: SketchValue<T>)
    requires IsRequotient(g, o, groups, n, home, q) && forall x | x in g.weights :: Reachable(g.edges, g.entry, x)
    ensures q.Wf() && ((forall w: Word :: q.Has(w) <==> g.Has(w)) <==> LoadsMatchStores(g))
  {
    hide FoldOf, SameGroup, Congruent, IsPartition, SameAhead, Reachable;
    RequotientAgrees(g, o, groups, n, home, q);
    if forall w: Word :: q.Has(w) <==> g.Has(w) {
      forall u: Word, v: Word | g.Has(u + [Load]) && g.Has(u + [Store]) ensures g.Has(u + [Load] + v)
             <==> g.Has(u + [Store] + v) {
        AlikePlaces(q, u, Load, Store);
        RunConcat(q.edges, {q.entry}, u + [Load], v);
        RunConcat(q.edges, {q.entry}, u + [Store], v);
      }
    }
    if LoadsMatchStores(g) {
      LeastRespects(g);
      MergedAhead(g, o, groups, n, home, q);
      forall w: Word ensures q.Has(w) <==> g.Has(w) {
        if q.Has(w) {
          ImageAhead(g.edges, home, g.entry, w);
        }
        if g.Has(w) {
          RequotientHas(g, o, groups, n, home, q, w);
        }
      }
    }
  }

  lemma MergedAhead<T>(g: SketchValue<T>, o: Ops<T>, groups: Groups, n: nat, home: map<nat, nat>, q: SketchValue<T>)
    requires IsRequotient(g, o, groups, n, home, q)
    requires Respects(LeastMap(g.weights.Keys, g.edges), g.weights.Keys, g.edges, {})
    ensures forall y, z | y in home && z in home && home[y] == home[z] :: SameAhead(g.edges, y, z)
  {
    hide FoldOf, SameGroup, Congruent, IsPartition, SameAhead, Respects;
    forall y, z | y in home && z in home && home[y] == home[z] ensures SameAhead(g.edges, y, z) {
      QuotientIsLeast(g.weights.Keys, g.edges, {}, groups, n, home, LeastMap(g.weights.Keys, g.edges), y, z);
      LeastAgrees(g.weights.Keys, g.edges, y, z);
    }
  }

  // ----- which paths the quotient has -----

  type Words = iset<Word>

  type WordPairs = iset<(Word, Word)>

  ghost predicate IsEquivalence(R: WordPairs) {
    && (forall u, v | (u, v) in R :: (v, u) in R)
    && (forall u, v, w | (u, v) in R && (v, w) in R :: (u, w) in R)
  }

  /** Related paths go on alike: by the same labels, and by load and store to related paths. */
  ghost predicate GoesOn(Q: Words, R: WordPairs) {
    && (forall u: Word, v: Word, a: FieldLabel | (u, v) in R && v + [a] in Q :: u + [a] in Q)
    && (forall u: Word, v: Word, a: FieldLabel, b: FieldLabel |
          (u, v) in R && u + [a] in Q && v + [b] in Q && (a == b || (a == Load && b == Store)) ::
          (u + [a], v + [b]) in R)
  }

  /** Q holds the paths of g, R relates those that end at one place, and related paths go on alike. */
  ghost predicate ClosedOver<T>(g: SketchValue<T>, Q: Words, R: WordPairs) {
    && (forall w | g.Has(w) :: w in Q)
    && (forall u, v | g.Has(u) && g.Has(v) && g.At(u) == g.At(v) :: (u, v) in R)
    && IsEquivalence(R) && GoesOn(Q, R)
  }

  /** Some, and therefore any, paths to the two nodes are related. */
  ghost predicate RelatedNodes<T>(g: SketchValue<T>, R: WordPairs, x: nat, y: nat) {
    exists u, v :: g.At(u) == {x} && g.At(v) == {y} && (u, v) in R
  }

  lemma RelatedPaths<T>(g: SketchValue<T>, Q: Words, R: WordPairs, x: nat, y: nat, u: Word, v: Word)
    requires ClosedOver(g, Q, R) && RelatedNodes(g, R, x, y) && g.At(u) == {x} && g.At(v) == {y}
    ensures (u, v) in R
  {
    hide GoesOn;
    var u', v' :| g.At(u') == {x} && g.At(v') == {y} && (u', v') in R;
    assert g.Has(u) && g.Has(u') && g.Has(v) && g.Has(v');
    assert (u, u') in R && (v', v) in R;
    assert (u, v') in R;
  }

  ghost function NodePairs<T>(g: SketchValue<T>, R: WordPairs, n: nat): set<(nat, nat)> {
    set i, j | 0 <= i < n && 0 <= j < n && (i == j || RelatedNodes(g, R, i, j)) :: (i, j)
  }

  lemma PathTo<T>(g: SketchValue<T>, x: nat) returns (u: Word)
    requires g.Wf() && Reachable(g.edges, g.entry, x)
    ensures g.Has(u) && g.At(u) == {x}
  {
    u :| x in Run(g.edges, {g.entry}, u);
    g.AtLive(u);
  }

  lemma RelatedTargets<T>(g: SketchValue<T>, Q: Words, R: WordPairs, e: SketchEdge, f: SketchEdge)
    requires g.Wf() && ClosedOver(g, Q, R) && e in g.edges && f in g.edges && Alike(e.lab, f.lab)
    requires RelatedNodes(g, R, e.src, f.src)
    ensures RelatedNodes(g, R, e.dst, f.dst)
  {
    var u, v :| g.At(u) == {e.src} && g.At(v) == {f.src} && (u, v) in R;
    Arrives(g, u, e);
    Arrives(g, v, f);
    assert u + [e.lab] in Q && v + [f.lab] in Q;
  }

  lemma NodesAreCongruence<T>(g: SketchValue<T>, Q: Words, R: WordPairs, n: nat)
    requires g.Wf() && ClosedOver(g, Q, R) && forall x | x in g.weights :: Reachable(g.edges, g.entry, x) && x < n
    ensures IsCongruence(NodePairs(g, R, n), n, {}, g.edges)
  {
    hide GoesOn, SketchValue.Has, Reachable, ClosedOver;
    var S := NodePairs(g, R, n);
    forall i, j | (i, j) in S ensures (j, i) in S {
      if i != j {
        RelatedBack(g, Q, R, i, j);
      }
    }
    forall i, j, k | (i, j) in S && (j, k) in S ensures (i, k) in S {
      if i != j && j != k {
        RelatedOn(g, Q, R, i, j, k);
      }
    }
    forall e, f | e in g.edges && f in g.edges && Alike(e.lab, f.lab) && (e.src, f.src) in S
      ensures (e.dst, f.dst) in S
    {
      if e.src == f.src {
        RelatedSelf(g, Q, R, e.src);
      }
      RelatedTargets(g, Q, R, e, f);
    }
  }

  lemma RelatedSelf<T>(g: SketchValue<T>, Q: Words, R: WordPairs, x: nat)
    requires g.Wf() && ClosedOver(g, Q, R) && Reachable(g.edges, g.entry, x)
    ensures RelatedNodes(g, R, x, x)
  {
    hide GoesOn, IsEquivalence;
    var u := PathTo(g, x);
    assert (u, u) in R;
  }

  lemma RelatedBack<T>(g: SketchValue<T>, Q: Words, R: WordPairs, x: nat, y: nat)
    requires ClosedOver(g, Q, R) && RelatedNodes(g, R, x, y)
    ensures RelatedNodes(g, R, y, x)
  {
    hide GoesOn;
    var u, v :| g.At(u) == {x} && g.At(v) == {y} && (u, v) in R;
    assert (v, u) in R;
  }

  lemma RelatedOn<T>(g: SketchValue<T>, Q: Words, R: WordPairs, x: nat, y: nat, z: nat)
    requires ClosedOver(g, Q, R) && RelatedNodes(g, R, x, y) && RelatedNodes(g, R, y, z)
    ensures RelatedNodes(g, R, x, z)
  {
    hide GoesOn, ClosedOver;
    var u, v :| g.At(u) == {x} && g.At(v) == {y} && (u, v) in R;
    var v', w :| g.At(v') == {y} && g.At(w) == {z} && (v', w) in R;
    RelatedPaths(g, Q, R, y, z, v, w);
    assert (u, w) in R by { Chained(g, Q, R, u, v, w); }
  }

  lemma Chained<T>(g: SketchValue<T>, Q: Words, R: WordPairs, u: Word, v: Word, w: Word)
    requires ClosedOver(g, Q, R) && (u, v) in R && (v, w) in R
    ensures (u, w) in R
  {
    hide GoesOn;
  }

  lemma TurnedAround<T>(g: SketchValue<T>, Q: Words, R: WordPairs, u: Word, v: Word)
    requires ClosedOver(g, Q, R) && (u, v) in R
    ensures (v, u) in R
  {
    hide GoesOn;
  }

  /** Merged nodes are related by every closed relation. */
  lemma MergedIsRelated<T>(g: SketchValue<T>, o: Ops<T>, groups: Groups, n: nat, home: map<nat, nat>, q: SketchValue<T>,
                           Q: Words, R: WordPairs, x: nat, y: nat)
    requires IsRequotient(g, o, groups, n, home, q) && forall x | x in g.weights :: Reachable(g.edges, g.entry, x)
    requires ClosedOver(g, Q, R) && x in home && y in home && home[x] == home[y]
    ensures RelatedNodes(g, R, x, y)
  {
    hide FoldOf, SameGroup, IsPartition, ClosedOver, IsCongruence, SketchValue.Wf, Reachable, IsGroupWeights;
    HomeIsGroup(groups, home, g.weights.Keys, x, y);
    NodesAreCongruence(g, Q, R, n);
    RelatedSelf(g, Q, R, x);
    assert (x, y) in NodePairs(g, R, n);
  }

  /** Along a path of the quotient some path of g stays related, and leads to a node that was merged into its end. */
  lemma {:induction false} FollowsClosed<T>(g: SketchValue<T>, o: Ops<T>, groups: Groups, n: nat, home: map<nat, nat>,
                                            q: SketchValue<T>, Q: Words, R: WordPairs, w: Word)
    returns (x: nat, u: Word)
    requires IsRequotient(g, o, groups, n, home, q) && forall x | x in g.weights :: Reachable(g.edges, g.entry, x)
    requires ClosedOver(g, Q, R) && q.Has(w)
    ensures w in Q && x in home && q.At(w) == {home[x]} && g.At(u) == {x} && (w, u) in R
    decreases |w|
  {
    hide FoldOf, SameGroup, IsPartition, IsHome, Congruent, Reachable, IsGroupWeights, ClosedOver, ExactGroups;
    RequotientAgrees(g, o, groups, n, home, q);
    if w == [] {
      x, u := g.entry, [];
      ClosedStart(g, Q, R);
    } else {
      var v, a := w[..|w| - 1], w[|w| - 1];
      assert w == v + [a];
      q.HasPrefix(v, a);
      var y, t := FollowsClosed(g, o, groups, n, home, q, Q, R, v);
      var e := LastEdge(g, home, q, y, v, a);
      MergedIsRelated(g, o, groups, n, home, q, Q, R, y, e.src);
      x := e.dst;
      u := ClosedStep(g, Q, R, v, t, y, e);
    }
  }

  lemma ClosedStart<T>(g: SketchValue<T>, Q: Words, R: WordPairs)
    requires ClosedOver(g, Q, R)
    ensures [] in Q && ([], []) in R && g.At([]) == {g.entry}
  {
    assert g.Has([]);
  }

  lemma LastEdge<T>(g: SketchValue<T>, home: map<nat, nat>, q: SketchValue<T>, y: nat, v: Word, a: FieldLabel)
    returns (e: SketchEdge)
    requires g.Wf() && q.Wf() && EndsIn(g.edges, home.Keys) && q.edges == Image(home, g.edges) && y in home
    requires q.At(v) == {home[y]} && q.Has(v + [a])
    ensures e in g.edges && e.lab == a && e.src in home && e.dst in home && home[e.src] == home[y]
    ensures q.At(v + [a]) == {home[e.dst]}
  {
    RunSnoc(q.edges, {q.entry}, v, a);
    var k :| k in q.At(v + [a]);
    var e' :| e' in q.edges && e'.src == home[y] && e'.lab == a && e'.dst == k;
    e :| e in g.edges && e' == ImageEdge(home, e);
    q.AtLive(v + [a]);
  }

  lemma ClosedStep<T>(g: SketchValue<T>, Q: Words, R: WordPairs, v: Word, t: Word, y: nat, e: SketchEdge)
    returns (u: Word)
    requires g.Wf() && ClosedOver(g, Q, R) && (v, t) in R && g.At(t) == {y} && e in g.edges
    requires RelatedNodes(g, R, y, e.src)
    ensures v + [e.lab] in Q && g.At(u) == {e.dst} && (v + [e.lab], u) in R
  {
    hide SketchValue.Wf, ClosedOver;
    var t' := SomePathTo(g, R, y, e.src);
    RelatedPaths(g, Q, R, y, e.src, t, t');
    Chained(g, Q, R, v, t, t');
    Arrives(g, t', e);
    u := t' + [e.lab];
    GoesOnAlike(g, Q, R, v, t', e.lab);
  }

  lemma SomePathTo<T>(g: SketchValue<T>, R: WordPairs, x: nat, y: nat) returns (v: Word)
    requires RelatedNodes(g, R, x, y)
    ensures g.At(v) == {y}
  {
    var u, v' :| g.At(u) == {x} && g.At(v') == {y} && (u, v') in R;
    v := v';
  }

  lemma GoesOnAlike<T>(g: SketchValue<T>, Q: Words, R: WordPairs, v: Word, t: Word, a: FieldLabel)
    requires ClosedOver(g, Q, R) && (v, t) in R && g.Has(t + [a])
    ensures v + [a] in Q && (v + [a], t + [a]) in R
  {
    hide IsEquivalence;
    assert t + [a] in Q && v + [a] in Q;
    assert Alike(a, a);
  }

  ghost function PathsOf<T>(q: SketchValue<T>): Words {
    iset w | q.Has(w)
  }

  ghost function PlacesOf<T>(q: SketchValue<T>): WordPairs {
    iset u, v | q.Has(u) && q.Has(v) && q.At(u) == q.At(v) :: (u, v)
  }

  /** The paths of the quotient, and which of them end at one place, are closed themselves. */
  lemma QuotientIsClosed<T>(g: SketchValue<T>, o: Ops<T>, groups: Groups, n: nat, home: map<nat, nat>,
                            q: SketchValue<T>)
    requires IsRequotient(g, o, groups, n, home, q)
    ensures ClosedOver(g, PathsOf(q), PlacesOf(q))
  {
    hide FoldOf, SameGroup, IsPartition, IsHome, Congruent, IsGroupWeights, ExactGroups;
    RequotientAgrees(g, o, groups, n, home, q);
    var Q, R := PathsOf(q), PlacesOf(q);
    forall w | g.Has(w) ensures w in Q {
      RequotientHas(g, o, groups, n, home, q, w);
    }
    forall u, v | g.Has(u) && g.Has(v) && g.At(u) == g.At(v) ensures (u, v) in R {
      var x :| x in g.At(u);
      QuotientKeepsPaths(g.edges, home, g.entry, u, x);
      QuotientKeepsPaths(g.edges, home, g.entry, v, x);
    }
    assert GoesOn(Q, R) by {
      AgreeingGoesOn(q);
    }
  }

  lemma AgreeingGoesOn<T>(q: SketchValue<T>)
    requires q.Wf() && Agreeing(q.edges)
    ensures GoesOn(PathsOf(q), PlacesOf(q))
  {
    hide Agreeing, SketchValue.Wf;
    var Q, R := PathsOf(q), PlacesOf(q);
    forall u: Word, v: Word, a: FieldLabel | (u, v) in R && v + [a] in Q ensures u + [a] in Q {
      RunSnoc(q.edges, {q.entry}, u, a);
      RunSnoc(q.edges, {q.entry}, v, a);
    }
    forall u: Word, v: Word, a: FieldLabel, b: FieldLabel |
      (u, v) in R && u + [a] in Q && v + [b] in Q && Alike(a, b)
      ensures (u + [a], v + [b]) in R
    {
      RunSnoc(q.edges, {q.entry}, u, a);
      RunSnoc(q.edges, {q.entry}, v, a);
      AlikePlaces(q, v, a, b);
    }
  }

  /**
   * The quotient has exactly the paths that every closed set has, and two of them end at one place
   * exactly when every closed relation relates them.
   */
  lemma RequotientIsClosure<T>(g: SketchValue<T>, o: Ops<T>, groups: Groups, n: nat, home: map<nat, nat>,
                               q: SketchValue<T>)
    requires IsRequotient(g, o, groups, n, home, q) && forall x | x in g.weights :: Reachable(g.edges, g.entry, x)
    ensures forall w :: q.Has(w) <==> forall Q, R | ClosedOver(g, Q, R) :: w in Q
    ensures forall u, v | q.Has(u) && q.Has(v) ::
              q.At(u) == q.At(v) <==> forall Q, R | ClosedOver(g, Q, R) :: (u, v) in R
  {
    hide IsRequotient, SketchValue.Has, ClosedOver, Reachable;
    QuotientIsClosed(g, o, groups, n, home, q);
    forall Q, R, w | ClosedOver(g, Q, R) && q.Has(w) ensures w in Q {
      var x, u := FollowsClosed(g, o, groups, n, home, q, Q, R, w);
    }
    forall Q, R, u, v | ClosedOver(g, Q, R) && q.Has(u) && q.Has(v) && q.At(u) == q.At(v) ensures (u, v) in R {
      PlacesAreRelated(g, o, groups, n, home, q, Q, R, u, v);
    }
  }

  lemma PlacesAreRelated<T>(g: SketchValue<T>, o: Ops<T>, groups: Groups, n: nat, home: map<nat, nat>,
                            q: SketchValue<T>, Q: Words, R: WordPairs, u: Word, v: Word)
    requires IsRequotient(g, o, groups, n, home, q) && forall x | x in g.weights :: Reachable(g.edges, g.entry, x)
    requires ClosedOver(g, Q, R) && q.Has(u) && q.Has(v) && q.At(u) == q.At(v)
    ensures (u, v) in R
  {
    hide IsRequotient, SketchValue.Has, ClosedOver, Reachable, RelatedNodes;
    var x, u' := FollowsClosed(g, o, groups, n, home, q, Q, R, u);
    var y, v' := FollowsClosed(g, o, groups, n, home, q, Q, R, v);
    MergedIsRelated(g, o, groups, n, home, q, Q, R, x, y);
    RelatedPaths(g, Q, R, x, y, u', v');
    Chained(g, Q, R, u, u', v');
    TurnedAround(g, Q, R, v, v');
    Chained(g, Q, R, u, v', v);
  }

  // ----- meet and join -----

  /** The common paths of two canonical sketches form a graph that agrees already. */
  lemma CommonPathsAgree<T>(l: SketchValue<T>, r: SketchValue<T>, op: (Bounds<T>, Bounds<T>) -> Bounds<T>,
                            default: Bounds<T>, g: SketchValue<T>)
    requires l.Wf() && r.Wf() && Agreeing(l.edges) && Agreeing(r.edges) && IsCombined(l, r, op, default, false, g)
    ensures Agreeing(g.edges)
  {
    forall e, f | e in g.edges && f in g.edges && e.src == f.src && Alike(e.lab, f.lab) ensures e.dst == f.dst {
      assert Reachable(g.edges, g.entry, e.src);
      var w: Word :| e.src in Run(g.edges, {g.entry}, w);
      Arrives(g, w, e);
      Arrives(g, w, f);
      AlikePlaces(l, w, e.lab, f.lab);
      AlikePlaces(r, w, e.lab, f.lab);
      assert SamePlaces(l, r, w + [e.lab], w + [f.lab]);
    }
  }

  lemma Arrives<T>(g: SketchValue<T>, w: Word, e: SketchEdge)
    requires g.Wf() && e in g.edges && e.src in g.At(w)
    ensures g.At(w + [e.lab]) == {e.dst} && g.Has(w + [e.lab])
  {
    RunSnoc(g.edges, {g.entry}, w, e.lab);
    assert e.dst in g.At(w + [e.lab]);
    g.AtLive(w + [e.lab]);
  }

  lemma AlikePlaces<T>(s: SketchValue<T>, w: Word, a: FieldLabel, b: FieldLabel)
    requires s.Wf() && Agreeing(s.edges) && Alike(a, b) && s.Has(w + [a]) && s.Has(w + [b])
    ensures s.At(w + [a]) == s.At(w + [b])
  {
    RunSnoc(s.edges, {s.entry}, w, a);
    RunSnoc(s.edges, {s.entry}, w, b);
    s.AtLive(w);
    s.AtLive(w + [a]);
    s.AtLive(w + [b]);
    var x, y :| x in s.At(w + [a]) && y in s.At(w + [b]);
    assert x == y;
  }

  function Callee(d: Dtv): Dtv {
    d.(base := d.base.ToCallee())
  }

  ghost predicate SamePaths<T>(l: SketchValue<T>, r: SketchValue<T>) {
    forall w: Word :: l.Has(w) <==> r.Has(w)
  }

  lemma CombinedWf<T>(l: SketchValue<T>, r: SketchValue<T>, op: (Bounds<T>, Bounds<T>) -> Bounds<T>, default: Bounds<T>,
                      either: bool, g: SketchValue<T>)
    requires l.Wf() && r.Wf() && IsCombined(l, r, op, default, either, g)
    ensures g.Wf()
  {
  }

  class Sketch<T(!new)> {
    const graph: MappingGraph<Dtv, T>
    const representing: Dtv
    const default: Bounds<T>

    ghost predicate Valid()
      reads this, graph
    {
      graph.Valid() && representing in graph.names && Deterministic(graph.edges)
    }

    function Value(): (v: SketchValue<T>)
      requires Valid()
      reads this, graph
      ensures v.Wf()
    {
      LiveNames(graph.names, graph.reprs, graph.weights.Keys);
      SketchValue(graph.weights, graph.edges, graph.names[representing])
    }

    constructor (graph: MappingGraph<Dtv, T>, representing: Dtv, default: Bounds<T>)
      requires graph.Valid() && representing in graph.names && Deterministic(graph.edges)
      ensures Valid() && this.graph == graph && this.representing == representing && this.default == default
    {
      this.graph, this.representing, this.default := graph, representing, default;
    }

    /** True exactly when both sketches have the same paths. */
    method StructurallyEqual(other: Sketch<T>) returns (equal: bool)
      requires Valid() && other.Valid()
      ensures equal <==> SamePaths(Value(), other.Value())
    {
      var l, r := Value(), other.Value();
      equal := IsStructurallyEqual(l.weights.Keys, l.edges, l.entry, r.weights.Keys, r.edges, r.entry);
      if equal {
        forall w: Word ensures l.Has(w) <==> r.Has(w) {
          assert Recognizes(l.edges, l.entry, w) <==> Recognizes(r.edges, r.entry, w);
        }
      }
      if SamePaths(l, r) {
        forall w: Word ensures Recognizes(l.edges, l.entry, w) <==> Recognizes(r.edges, r.entry, w) {
          assert l.Has(w) <==> r.Has(w);
        }
      }
    }

    /** The product with combined bounds, then quotiented so that its edges agree. */
    method BinopSketch(other: Sketch<T>, op: (Bounds<T>, Bounds<T>) -> Bounds<T>, either: bool)
      returns (s: Sketch<T>, ghost g: SketchValue<T>, ghost groups: Groups, ghost n: nat, ghost home: map<nat, nat>)
      requires Valid() && other.Valid() && Callee(representing) == Callee(other.representing)
      ensures fresh(s) && fresh(s.graph) && s.Valid() && s.representing == representing && s.default == default
      ensures IsCombined(Value(), other.Value(), op, default, either, g)
      ensures IsRequotient(g, graph.ops, groups, n, home, s.Value())
    {
      hide IsCombined, IsPartition, IsHome, FoldOf, Inverse, IsGroupWeights, SameGroup, Congruent, Agreeing;
      var l, r := Value(), other.Value();
      var combined := Combine(l, r, op, default, either);
      g := combined;
      CombinedWf(l, r, op, default, either, g);
      var whole := new MappingGraph<Dtv, T>(graph.ops);
      var size := Bound(combined.weights.Keys);
      whole.Fill(combined.weights, combined.edges, map[representing := combined.entry], size);
      var quotGroups, bound := GenerateQuotientGroups(whole.weights.Keys, whole.edges, []);
      assert PairSet([]) == {};
      var q, toGroup := whole.Quotient(quotGroups);
      groups, n, home := quotGroups, bound, toGroup;
      QuotientAgrees(g.weights.Keys, g.edges, {}, groups, n, home);
      s := new Sketch(q, representing, default);
    }

    /**
     * The meet of the two types: the graph before the last step has exactly the paths of either,
     * the result those and what making loads and stores agree adds, and its edges agree.
     */
    method Intersect(other: Sketch<T>) returns (s: Sketch<T>, ghost g: SketchValue<T>)
      requires Valid() && other.Valid() && Callee(representing) == Callee(other.representing)
      ensures fresh(s) && fresh(s.graph) && s.Valid() && s.representing == representing && Agreeing(s.graph.edges)
      ensures IsMeet(Value(), other.Value(), graph.ops, default, g, s.Value())
    {
      hide IsCombined, IsRequotient, Agreeing, BoundsOps, IsClosure;
      ghost var groups, n, home;
      s, g, groups, n, home := BinopSketch(other, BoundsOps(graph.ops).meet, true);
      MeetFromParts(Value(), other.Value(), graph.ops, default, g, groups, n, home, s.Value());
    }

    /**
     * The join of the two types: exactly the common paths where loads and stores match on them, and
     * on canonical sketches, where they do, joined bounds.
     */
    method Union(other: Sketch<T>) returns (s: Sketch<T>)
      requires Valid() && other.Valid() && Callee(representing) == Callee(other.representing)
      ensures fresh(s) && fresh(s.graph) && s.Valid() && s.representing == representing && Agreeing(s.graph.edges)
      ensures (forall w: Word :: s.Value().Has(w) <==> Value().Has(w) && other.Value().Has(w))
         <==> LoadsMatchStoresIn(Value(), other.Value(), false)
      ensures IsClosure(Value(), other.Value(), false, s.Value())
      ensures Agreeing(graph.edges) && Agreeing(other.graph.edges)
              ==> IsJoin(Value(), other.Value(), graph.ops, default, s.Value())
    {
      hide IsCombined, IsRequotient, Agreeing, BoundsOps, IsJoin, IsClosure;
      ghost var g, groups, n, home;
      s, g, groups, n, home := BinopSketch(other, BoundsOps(graph.ops).join, false);
      RequotientAgrees(g, graph.ops, groups, n, home, s.Value());
      PathsExactly(Value(), other.Value(), BoundsOps(graph.ops).join, default, false, g, graph.ops, groups, n, home,
                   s.Value());
      ClosureFromParts(Value(), other.Value(), BoundsOps(graph.ops).join, default, false, g, graph.ops, groups, n, home,
                       s.Value());
      if Agreeing(graph.edges) && Agreeing(other.graph.edges) {
        JoinFromParts(Value(), other.Value(), graph.ops, default, g, groups, n, home, s.Value());
      }
    }
  }

  ghost predicate IsJoin<T>(l: SketchValue<T>, r: SketchValue<T>, o: Ops<T>, default: Bounds<T>, s: SketchValue<T>)
    requires l.Wf() && r.Wf() && s.Wf()
  {
    && (forall w: Word :: s.Has(w) <==> l.Has(w) && r.Has(w))
    && (forall w: Word | s.Has(w) ::
         s.BoundsAt(w, default) == BoundsOps(o).join(l.BoundsAt(w, default), r.BoundsAt(w, default)))
  }

  /** Q holds the combined paths, R relates those with equal places in both sketches, and related paths go on alike. */
  ghost predicate Closed<T>(l: SketchValue<T>, r: SketchValue<T>, either: bool, Q: Words, R: WordPairs) {
    && (forall w | HasEither(l, r, either, w) :: w in Q)
    && (forall u, v | HasEither(l, r, either, u) && HasEither(l, r, either, v) && SamePlaces(l, r, u, v) ::
          (u, v) in R)
    && IsEquivalence(R) && GoesOn(Q, R)
  }

  /** s has exactly the paths that every closed set has, at one place exactly where every closed relation has them. */
  ghost predicate IsClosure<T>(l: SketchValue<T>, r: SketchValue<T>, either: bool, s: SketchValue<T>) {
    && (forall w :: s.Has(w) <==> forall Q, R | Closed(l, r, either, Q, R) :: w in Q)
    && (forall u, v | s.Has(u) && s.Has(v) ::
          s.At(u) == s.At(v) <==> forall Q, R | Closed(l, r, either, Q, R) :: (u, v) in R)
  }

  lemma ClosureFromParts<T>(l: SketchValue<T>, r: SketchValue<T>, op: (Bounds<T>, Bounds<T>) -> Bounds<T>,
                            default: Bounds<T>, either: bool, g: SketchValue<T>, o: Ops<T>, groups: Groups, n: nat,
                            home: map<nat, nat>, s: SketchValue<T>)
    requires l.Wf() && r.Wf() && IsCombined(l, r, op, default, either, g) && IsRequotient(g, o, groups, n, home, s)
    ensures IsClosure(l, r, either, s)
  {
    hide IsRequotient, SketchValue.Wf, SketchValue.Has, HasEither, SamePlaces, CombinesBounds, GoesOn, IsEquivalence;
    RequotientIsClosure(g, o, groups, n, home, s);
    forall Q, R ensures Closed(l, r, either, Q, R) <==> ClosedOver(g, Q, R) {
    }
  }

  /** Wherever the combined paths go on by a load and by a store, the same paths go on behind both. */
  ghost predicate LoadsMatchStoresIn<T>(l: SketchValue<T>, r: SketchValue<T>, either: bool) {
    forall u: Word, v: Word | HasEither(l, r, either, u + [Load]) && HasEither(l, r, either, u + [Store]) ::
      HasEither(l, r, either, u + [Load] + v) <==> HasEither(l, r, either, u + [Store] + v)
  }

  lemma PathsExactly<T>(l: SketchValue<T>, r: SketchValue<T>, op: (Bounds<T>, Bounds<T>) -> Bounds<T>,
                        default: Bounds<T>, either: bool, g: SketchValue<T>, o: Ops<T>, groups: Groups, n: nat,
                        home: map<nat, nat>, s: SketchValue<T>)
    requires l.Wf() && r.Wf() && IsCombined(l, r, op, default, either, g) && IsRequotient(g, o, groups, n, home, s)
    ensures (forall w: Word :: s.Has(w) <==> HasEither(l, r, either, w)) <==> LoadsMatchStoresIn(l, r, either)
  {
    hide IsRequotient, SketchValue.Wf, SketchValue.Has, HasEither, PairsPlaces, CombinesBounds;
    RequotientExactly(g, o, groups, n, home, s);
    assert forall w: Word :: g.Has(w) <==> HasEither(l, r, either, w);
    assert LoadsMatchStores(g) <==> LoadsMatchStoresIn(l, r, either);
  }

  /**
   * g has exactly the paths of either with met bounds; s closes them under the agreement of loads
   * and stores and, over a lattice, only tightens bounds. It has no others exactly when loads and
   * stores match.
   */
  ghost predicate IsMeet<T(!new)>(l: SketchValue<T>, r: SketchValue<T>, o: Ops<T>, default: Bounds<T>,
                                  g: SketchValue<T>, s: SketchValue<T>)
    requires l.Wf() && r.Wf() && s.Wf()
  {
    && IsCombined(l, r, BoundsOps(o).meet, default, true, g)
    && (forall w: Word | g.Has(w) :: s.Has(w)) && IsClosure(l, r, true, s)
    && ((forall w: Word :: s.Has(w) <==> l.Has(w) || r.Has(w)) <==> LoadsMatchStoresIn(l, r, true))
    && (forall w: Word, dom: set<T> | g.Has(w) && IsLattice(dom, o) && BoundsIn(g, dom) :: Tighter(o, s, g, w, default))
  }

  ghost predicate BoundsIn<T>(g: SketchValue<T>, dom: set<T>) {
    forall x | x in g.weights :: g.weights[x].upper in dom && g.weights[x].lower in dom
  }

  ghost predicate Tighter<T>(o: Ops<T>, s: SketchValue<T>, g: SketchValue<T>, w: Word, default: Bounds<T>)
    requires s.Wf() && g.Wf()
  {
    && Leq(o, s.BoundsAt(w, default).upper, g.BoundsAt(w, default).upper)
    && Leq(o, g.BoundsAt(w, default).lower, s.BoundsAt(w, default).lower)
  }

  lemma MeetFromParts<T(!new)>(l: SketchValue<T>, r: SketchValue<T>, o: Ops<T>, default: Bounds<T>, g: SketchValue<T>,
                               groups: Groups, n: nat, home: map<nat, nat>, s: SketchValue<T>)
    requires l.Wf() && r.Wf() && IsCombined(l, r, BoundsOps(o).meet, default, true, g)
    requires IsRequotient(g, o, groups, n, home, s)
    ensures s.Wf() && Agreeing(s.edges) && IsMeet(l, r, o, default, g, s)
  {
    hide IsRequotient, IsLattice, Leq, SketchValue.BoundsAt, SketchValue.Wf, IsClosure;
    CombinedWf(l, r, BoundsOps(o).meet, default, true, g);
    RequotientAgrees(g, o, groups, n, home, s);
    forall w: Word | g.Has(w) ensures s.Has(w) {
      RequotientHas(g, o, groups, n, home, s, w);
    }
    PathsExactly(l, r, BoundsOps(o).meet, default, true, g, o, groups, n, home, s);
    ClosureFromParts(l, r, BoundsOps(o).meet, default, true, g, o, groups, n, home, s);
    forall w: Word, dom: set<T> | g.Has(w) && IsLattice(dom, o) && BoundsIn(g, dom)
      ensures Tighter(o, s, g, w, default)
    {
      RequotientKeepsPath(g, o, groups, n, home, s, dom, w, default);
    }
  }

  lemma JoinFromParts<T(!new)>(l: SketchValue<T>, r: SketchValue<T>, o: Ops<T>, default: Bounds<T>, g: SketchValue<T>,
                         groups: Groups, n: nat, home: map<nat, nat>, s: SketchValue<T>)
    requires l.Wf() && r.Wf() && s.Wf() && Agreeing(l.edges) && Agreeing(r.edges)
    requires IsCombined(l, r, BoundsOps(o).join, default, false, g) && IsRequotient(g, o, groups, n, home, s)
    ensures IsJoin(l, r, o, default, s)
  {
    hide IsRequotient, SketchValue.BoundsAt, SketchValue.Wf, Agreeing;
    CombinedWf(l, r, BoundsOps(o).join, default, false, g);
    CommonPathsAgree(l, r, BoundsOps(o).join, default, g);
    forall w: Word ensures s.Has(w) <==> l.Has(w) && r.Has(w) {
      RequotientOfAgreeing(g, o, groups, n, home, s, w, default);
    }
    forall w: Word | s.Has(w)
      ensures s.BoundsAt(w, default) == BoundsOps(o).join(l.BoundsAt(w, default), r.BoundsAt(w, default))
    {
      RequotientOfAgreeing(g, o, groups, n, home, s, w, default);
    }
  }

  /**
   * Why the meet may gain paths: where one sketch only loads and the other only stores, making
   * load and store agree moves the fields behind the load behind the store as well.
   */
  lemma MeetMayGainPaths<T(!new)>(b: Bounds<T>, o: Ops<T>, default: Bounds<T>, g: SketchValue<T>, s: SketchValue<T>)
    requires s.Wf() && Agreeing(s.edges) && IsMeet(Loads(b), Stores(b), o, default, g, s)
    ensures var w := [Store, Field(0, 32)]; s.Has(w) && !Loads(b).Has(w) && !Stores(b).Has(w)
  {
    hide IsLattice, Leq, SketchValue.BoundsAt, Agreeing, Tighter, IsClosure, Loads, Stores, SketchValue.Has,
         PairsPlaces, CombinesBounds, Reachable;
    var l, r, f := Loads(b), Stores(b), Field(0, 32);
    LoadsPaths(b);
    StoresPaths(b);
    assert g.Has([Load, f]) && g.Has([Load]) && g.Has([Store]);
    StoresLikeLoads(s, f);
  }

  /** In a sketch whose edges agree, what is behind a load is behind a store. */
  lemma StoresLikeLoads<T>(s: SketchValue<T>, f: FieldLabel)
    requires s.Wf() && Agreeing(s.edges) && s.Has([Load]) && s.Has([Store]) && s.Has([Load, f])
    ensures s.Has([Store, f])
  {
    assert [] + [Load] == [Load] && [] + [Store] == [Store] && [Load] + [f] == [Load, f] && [Store] + [f] == [Store, f];
    AlikePlaces(s, [], Load, Store);
    RunConcat(s.edges, {s.entry}, [Load], [f]);
    RunConcat(s.edges, {s.entry}, [Store], [f]);
  }

  lemma LoadsPaths<T>(b: Bounds<T>)
    ensures var l, f := Loads(b), Field(0, 32); l.Has([Load, f]) && l.Has([Load]) && !l.Has([Store, f])
  {
    var l, f := Loads(b), Field(0, 32);
    assert [Store, f][1..] == [f] && [Load, f][1..] == [f];
    RunOne(l.edges, {0}, Load);
    RunOne(l.edges, {1}, f);
    assert Step(l.edges, {0}, Load) == {1} && 3 in Step(l.edges, {1}, f) && Step(l.edges, {0}, Store) == {};
    RunOfNothing(l.edges, [f]);
  }

  lemma StoresPaths<T>(b: Bounds<T>)
    ensures var r, f := Stores(b), Field(0, 32); r.Has([Store]) && !r.Has([Store, f])
  {
    var r, f := Stores(b), Field(0, 32);
    assert [Store, f][1..] == [f];
    RunOne(r.edges, {0}, Store);
    RunOne(r.edges, {2}, f);
    assert Step(r.edges, {0}, Store) == {2} && Step(r.edges, {2}, f) == {};
  }

  /** A sketch that loads a field. */
  function Loads<T>(b: Bounds<T>): (s: SketchValue<T>)
    ensures s.Wf()
  {
    SketchValue(map[0 := b, 1 := b, 3 := b], {Arc(0, Load, 1), Arc(1, Field(0, 32), 3)}, 0)
  }

  /** A sketch that only stores. */
  function Stores<T>(b: Bounds<T>): (s: SketchValue<T>)
    ensures s.Wf()
  {
    SketchValue(map[0 := b, 2 := b], {Arc(0, Store, 2)}, 0)
  }
}
