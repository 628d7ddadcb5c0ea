/**
 * Combining two sketches through the product of their automata (src/solver/type_sketch.rs,
 * create_graph_from_dfa, find_representative_nodes_for_new_nodes and the first half of binop_sketch).
 */
module SketchCombine {
  import opened Graphs
  import opened GraphSearch
  import opened Constraints
  import opened Lattice
  import opened CongruenceClosure
  import opened DfaOperations
  import opened SketchDfa

  /** The part of a sketch that its language and its bounds depend on. */
  datatype SketchValue<T> = SketchValue(weights: map<nat, Bounds<T>>, edges: SketchSet, entry: nat) {
    ghost predicate Wf() {
      IsSketch(weights.Keys, edges, entry)
    }

    ghost function At(w: Word): set<nat> {
      Run(edges, {entry}, w)
    }

    ghost predicate Has(w: Word) {
      At(w) != {}
    }

    /** The bounds at the end of a path, or the default where the path does not exist. */
    ghost function BoundsAt(w: Word, default: Bounds<T>): Bounds<T>
      requires Wf()
    {
      if Has(w) then
        AtLive(w);
        var x :| x in At(w);
        weights[x]
      else default
    }

    lemma AtLive(w: Word)
      requires Wf()
      ensures At(w) <= weights.Keys
      ensures forall x, y | x in At(w) && y in At(w) :: x == y
    {
      RunStaysInside(edges, weights.Keys, {entry}, w);
      DeterministicRun(edges, entry, w);
    }

    lemma HasPrefix(w: Word, a: FieldLabel)
      requires Has(w + [a])
      ensures Has(w)
    {
      RunSnoc(edges, {entry}, w, a);
    }
  }

  /** Where a path exists in a combination: in either sketch, or in both. */
  ghost predicate HasEither<T>(l: SketchValue<T>, r: SketchValue<T>, either: bool, w: Word) {
    if either then l.Has(w) || r.Has(w) else l.Has(w) && r.Has(w)
  }

  ghost predicate SamePlaces<T>(l: SketchValue<T>, r: SketchValue<T>, w: Word, v: Word) {
    l.At(w) == l.At(v) && r.At(w) == r.At(v)
  }

  /** The nodes of g stand for pairs of places in l and r: equal for two paths exactly when both places are. */
  ghost predicate PairsPlaces<T>(l: SketchValue<T>, r: SketchValue<T>, g: SketchValue<T>) {
    forall w: Word, v: Word | g.Has(w) && g.Has(v) :: g.At(w) == g.At(v) <==> SamePlaces(l, r, w, v)
  }

  ghost predicate CombinesBounds<T>(l: SketchValue<T>, r: SketchValue<T>, op: (Bounds<T>, Bounds<T>) -> Bounds<T>,
                                    default: Bounds<T>, g: SketchValue<T>)
    requires l.Wf() && r.Wf() && g.Wf()
  {
    forall w: Word | g.Has(w) :: g.BoundsAt(w, default) == op(l.BoundsAt(w, default), r.BoundsAt(w, default))
  }

  /** The product without its rejecting nodes: paths of either or both, bounds combined path by path. */
  ghost predicate IsCombined<T>(l: SketchValue<T>, r: SketchValue<T>, op: (Bounds<T>, Bounds<T>) -> Bounds<T>,
                                default: Bounds<T>, either: bool, g: SketchValue<T>)
    requires l.Wf() && r.Wf()
  {
    && g.Wf() && (forall w: Word :: g.Has(w) <==> HasEither(l, r, either, w))
    && PairsPlaces(l, r, g) && CombinesBounds(l, r, op, default, g)
    && (forall x | x in g.weights :: Reachable(g.edges, g.entry, x))
  }

  // ----- the graph of the product -----

  function Kept<A(==)>(d: Dfa<A>): set<nat> {
    d.accepts + {d.entry}
  }

  function KeptEdges<A(==)>(d: Dfa<A>): set<Arc<nat, A>> {
    set e | e in d.edges && e.src in Kept(d) && e.dst in Kept(d)
  }

  /** Every node with the default bounds; rejecting nodes other than the entry are removed again. */
  method CreateGraphFromDfa<T>(d: Dfa<FieldLabel>, default: Bounds<T>) returns (g: SketchValue<T>)
    requires d.entry in d.all && d.accepts <= d.all && EndsIn(d.edges, d.all)
    ensures g == SketchValue(map q | q in Kept(d) :: default, KeptEdges(d), d.entry)
  {
    var weights, edges := map q | q in d.all :: default, d.edges;
    var rejects := d.all - d.accepts;
    var todo := rejects;
    while todo != {}
      invariant todo <= rejects
      invariant weights.Keys == set q | q in d.all && (q in todo || q in Kept(d))
      invariant forall q | q in weights :: weights[q] == default
      invariant edges == set e | e in d.edges && e.src in weights && e.dst in weights
    {
      var q :| q in todo;
      if q != d.entry {
        weights, edges := weights - {q}, set e | e in edges && e.src != q && e.dst != q;
      }
      todo := todo - {q};
    }
    assert weights.Keys == Kept(d);
    assert weights == map q | q in Kept(d) :: default;
    g := SketchValue(weights, edges, d.entry);
  }

  /** Where acceptance is closed under prefixes, dropping rejecting nodes keeps every accepted run. */
  lemma {:induction false} KeptRun(m: Dfa<FieldLabel>, w: Word)
    requires Deterministic(m.edges) && m.entry in m.accepts
    requires forall v: Word, a | Accepts(m, v + [a]) :: Accepts(m, v)
    ensures Run(KeptEdges(m), {m.entry}, w) == Run(m.edges, {m.entry}, w) * m.accepts
    decreases |w|
  {
    if w != [] {
      var v, a := w[..|w| - 1], w[|w| - 1];
      assert w == v + [a];
      KeptRun(m, v);
      RunSnoc(m.edges, {m.entry}, v, a);
      RunSnoc(KeptEdges(m), {m.entry}, v, a);
      DeterministicRun(m.edges, m.entry, v);
      assert Accepts(m, v + [a]) ==> Accepts(m, v);
    } else {
      assert {m.entry} * m.accepts == {m.entry};
    }
  }

  // ----- runs of the product -----

  /** The setting of the lemmas below: m is the trimmed product of the completions of l and r. */
  datatype Product<!T> = Product(l: SketchValue<T>, r: SketchValue<T>, sigma: set<FieldLabel>, rej1: nat, rej2: nat,
    either: bool,
                                d: Dfa<FieldLabel>, ids: map<Pair, nat>, m: Dfa<FieldLabel>) {
    ghost predicate Valid() {
      && l.Wf() && r.Wf() && Labels(l.edges) <= sigma && Labels(r.edges) <= sigma
      && rej1 !in l.weights && rej2 !in r.weights
      && IsProduct(Left(), Right(), either, d, ids) && IsTrimmed(d, m) && Complete(m, sigma)
      && (forall w: Word :: Accepts(m, w)
           <==> if either then Accepts(Left(), w) || Accepts(Right(), w) else Accepts(Left(), w) && Accepts(Right(), w))
    }

    ghost function Left(): Dfa<FieldLabel> {
      Completion(l.weights.Keys, l.edges, l.entry, sigma, rej1)
    }

    ghost function Right(): Dfa<FieldLabel> {
      Completion(r.weights.Keys, r.edges, r.entry, sigma, rej2)
    }

    lemma Language(w: Word)
      requires Valid()
      ensures Accepts(m, w) <==> HasEither(l, r, either, w)
    {
      CompletionLanguage(l.weights.Keys, l.edges, l.entry, sigma, rej1, w);
      CompletionLanguage(r.weights.Keys, r.edges, r.entry, sigma, rej2, w);
    }

    lemma PrefixClosed(v: Word, a: FieldLabel)
      requires Valid() && Accepts(m, v + [a])
      ensures Accepts(m, v)
    {
      hide Accepts;
      Language(v + [a]);
      Language(v);
      if l.Has(v + [a]) {
        l.HasPrefix(v, a);
      }
      if r.Has(v + [a]) {
        r.HasPrefix(v, a);
      }
    }

    /** The kept graph runs where the product accepts. */
    lemma GraphRun(w: Word)
      requires Valid()
      ensures m.entry in m.accepts
      ensures Run(KeptEdges(m), {m.entry}, w) == Run(m.edges, {m.entry}, w) * m.accepts
      ensures Run(KeptEdges(m), {m.entry}, w) != {} <==> HasEither(l, r, either, w)
    {
      hide IsProduct, IsTrimmed;
      Language([]);
      forall v: Word, a | Accepts(m, v + [a]) ensures Accepts(m, v) {
        PrefixClosed(v, a);
      }
      assert Run(m.edges, {m.entry}, []) == {m.entry};
      KeptRun(m, w);
      Language(w);
    }

    lemma KeptShape()
      requires Valid()
      ensures m.entry in m.all && m.accepts <= m.all && EndsIn(m.edges, m.all)
      ensures IsSketch(Kept(m), KeptEdges(m), m.entry) && Kept(m) == m.accepts
    {
      GraphRun([]);
    }

    lemma KeptReachable(x: nat)
      requires Valid() && x in Kept(m)
      ensures Reachable(KeptEdges(m), m.entry, x)
    {
      KeptShape();
      assert Reachable(d.edges, d.entry, x);
      var w: Word :| x in Run(d.edges, {d.entry}, w);
      TrimLanguage(d, m, w);
      GraphRun(w);
      assert x in Run(KeptEdges(m), {m.entry}, w);
    }

    /** The completions are at the same node after two words exactly when the sketches are. */
    lemma SameInCompletion(s: SketchValue<T>, rej: nat, w: Word, v: Word)
      requires s.Wf() && Labels(s.edges) <= sigma && rej !in s.weights && Over(w, sigma) && Over(v, sigma)
      ensures var E := Completed(s.weights.Keys, s.edges, sigma, rej);
              Run(E, {s.entry}, w) == Run(E, {s.entry}, v) <==> s.At(w) == s.At(v)
    {
      var d := Completion(s.weights.Keys, s.edges, s.entry, sigma, rej);
      var V := s.weights.Keys;
      CompletionIsComplete(V, s.edges, s.entry, sigma, rej);
      CompletionLanguage(V, s.edges, s.entry, sigma, rej, w);
      CompletionLanguage(V, s.edges, s.entry, sigma, rej, v);
      CompleteRun(d, sigma, {s.entry}, w);
      CompleteRun(d, sigma, {s.entry}, v);
      CompleteRunUnique(d, sigma, w);
      CompleteRunUnique(d, sigma, v);
      SingletonsAgree(V, rej, Run(d.edges, {s.entry}, w), Run(d.edges, {s.entry}, v));
    }

    lemma WordOver(w: Word)
      requires Valid() && HasEither(l, r, either, w)
      ensures Over(w, sigma)
    {
      Language(w);
      CompleteRun(m, sigma, {m.entry}, w);
    }

    /** The product is at the same node after two words exactly when both completions are. */
    lemma ProductPlaces(w: Word, v: Word)
      requires Valid() && Over(w, sigma) && Over(v, sigma)
      requires Run(m.edges, {m.entry}, w) * m.accepts != {} && Run(m.edges, {m.entry}, v) * m.accepts != {}
      ensures Run(m.edges, {m.entry}, w) * m.accepts == Run(m.edges, {m.entry}, v) * m.accepts
              <==> && Run(Left().edges, {l.entry}, w) == Run(Left().edges, {l.entry}, v)
                   && Run(Right().edges, {r.entry}, w) == Run(Right().edges, {r.entry}, v)
    {
      hide Complete, Accepts, Completed;
      TrimLanguage(d, m, w);
      TrimLanguage(d, m, v);
      ProductRun(Left(), Right(), either, d, ids, w);
      ProductRun(Left(), Right(), either, d, ids, v);
      CompletionIsComplete(l.weights.Keys, l.edges, l.entry, sigma, rej1);
      CompletionIsComplete(r.weights.Keys, r.edges, r.entry, sigma, rej2);
      CompleteRunUnique(Left(), sigma, w);
      CompleteRunUnique(Right(), sigma, w);
      CompleteRunUnique(Left(), sigma, v);
      CompleteRunUnique(Right(), sigma, v);
      NamedPairs(ids, Run(Left().edges, {l.entry}, w), Run(Right().edges, {r.entry}, w),
                 Run(Left().edges, {l.entry}, v), Run(Right().edges, {r.entry}, v), m.accepts);
    }

    /** Two accepted words lead to the same node exactly when they lead to the same places in both sketches. */
    lemma NodesPairPlaces(w: Word, v: Word)
      requires Valid() && HasEither(l, r, either, w) && HasEither(l, r, either, v)
      ensures Run(KeptEdges(m), {m.entry}, w) == Run(KeptEdges(m), {m.entry}, v) <==> SamePlaces(l, r, w, v)
    {
      hide IsProduct, IsTrimmed, Complete, Completed, KeptEdges, Accepts;
      GraphRun(w);
      GraphRun(v);
      WordOver(w);
      WordOver(v);
      SameInCompletion(l, rej1, w, v);
      SameInCompletion(r, rej2, w, v);
      ProductPlaces(w, v);
    }
  }

  lemma NamedPairs(ids: map<Pair, nat>, P: set<nat>, Q: set<nat>, P': set<nat>, Q': set<nat>, accepts: set<nat>)
    requires Injective(ids) && Pairs(P, Q) <= ids.Keys && Pairs(P', Q') <= ids.Keys
    requires (forall x, y | x in P && y in P :: x == y) && forall x, y | x in Q && y in Q :: x == y
    requires (forall x, y | x in P' && y in P' :: x == y) && forall x, y | x in Q' && y in Q' :: x == y
    requires Named(ids, Pairs(P, Q)) * accepts != {} && Named(ids, Pairs(P', Q')) * accepts != {}
    ensures Named(ids, Pairs(P, Q)) * accepts == Named(ids, Pairs(P', Q')) * accepts <==> P == P' && Q == Q'
  {
    if Named(ids, Pairs(P, Q)) * accepts == Named(ids, Pairs(P', Q')) * accepts {
      var x :| x in Named(ids, Pairs(P, Q)) * accepts;
      assert x in Named(ids, Pairs(P', Q'));
      var p :| p in Pairs(P, Q) && ids[p] == x;
      assert p in Pairs(P', Q');
      assert P == {p.0} && P' == {p.0} && Q == {p.1} && Q' == {p.1};
    }
  }

  lemma SingletonsAgree(V: set<nat>, rej: nat, P: set<nat>, Q: set<nat>)
    requires rej !in V && P <= V + {rej} && Q <= V + {rej} && P != {} && Q != {}
    requires (forall x, y | x in P && y in P :: x == y) && forall x, y | x in Q && y in Q :: x == y
    ensures P == Q <==> P * V == Q * V
  {
    var p, q :| p in P && q in Q;
    assert P == {p} && Q == {q};
    if p in V {
      assert p in P * V;
    } else {
      assert P * V == {};
    }
    if q in V {
      assert q in Q * V;
    } else {
      assert Q * V == {};
    }
  }

  // ----- the combination -----

  function WeightOf<T>(s: SketchValue<T>, o: Option<nat>, default: Bounds<T>): Bounds<T> {
    if o.Some? && o.value in s.weights then s.weights[o.value] else default
  }

  lemma WeightOfIsBoundsAt<T>(s: SketchValue<T>, o: Option<nat>, w: Word, default: Bounds<T>)
    requires s.Wf() && s.At(w) == if o.Some? then {o.value} else {}
    ensures WeightOf(s, o, default) == s.BoundsAt(w, default)
  {
    s.AtLive(w);
  }

  /** The nodes explored so far carry the bounds combined along the path they were found by. */
  ghost predicate Weighted<T>(l: SketchValue<T>, r: SketchValue<T>, op: (Bounds<T>, Bounds<T>) -> Bounds<T>,
                              default: Bounds<T>, weights: map<nat, Bounds<T>>,
                              found: seq<(ArcPath<nat, FieldLabel>, nat)>)
    requires l.Wf() && r.Wf()
  {
    forall i | 0 <= i < |found| ::
      && found[i].1 in weights
      && weights[found[i].1] == op(l.BoundsAt(LabelsOf(found[i].0), default), r.BoundsAt(LabelsOf(found[i].0), default))
  }

  /** Looks every new node up in both sketches by the path it was found by, and combines the two bounds. */
  method CombineWeights<T>(l: SketchValue<T>, r: SketchValue<T>, op: (Bounds<T>, Bounds<T>) -> Bounds<T>,
                           default: Bounds<T>, g: SketchValue<T>,
                           found: seq<(ArcPath<nat, FieldLabel>, nat)>) returns (weights: map<nat,
                             Bounds<T>>)
    requires l.Wf() && r.Wf() && NodesDiffer(found) && forall i | 0 <= i < |found| :: found[i].1 in g.weights
    ensures weights.Keys == g.weights.Keys && Weighted(l, r, op, default, weights, found)
  {
    weights := g.weights;
    for i := 0 to |found|
      invariant weights.Keys == g.weights.Keys && Weighted(l, r, op, default, weights, found[..i])
    {
      var w := LabelsOf(found[i].0);
      var o1 := FindNode(l.edges, l.entry, w);
      var o2 := FindNode(r.edges, r.entry, w);
      WeightOfIsBoundsAt(l, o1, w, default);
      WeightOfIsBoundsAt(r, o2, w, default);
      weights := weights[found[i].1 := op(WeightOf(l, o1, default), WeightOf(r, o2, default))];
    }
    assert found[..|found|] == found;
  }

  method ProductOf<T>(l: SketchValue<T>, r: SketchValue<T>, either: bool)
    returns (m: Dfa<FieldLabel>, ghost p: Product<T>)
    requires l.Wf() && r.Wf()
    ensures p.Valid() && p.l == l && p.r == r && p.either == either && p.m == m
  {
    hide IsProduct, IsTrimmed, Complete, Accepts, Completed, Labels;
    var sigma := Labels(l.edges) + Labels(r.edges);
    var d1, rej1 := ConstructDfa(l.weights.Keys, l.edges, l.entry, sigma, true);
    var d2, rej2 := ConstructDfa(r.weights.Keys, r.edges, r.entry, sigma, true);
    CompletionIsComplete(l.weights.Keys, l.edges, l.entry, sigma, rej1);
    CompletionIsComplete(r.weights.Keys, r.edges, r.entry, sigma, rej2);
    ghost var d, ids;
    if either {
      m, d, ids := DfaOperations.Union(d1, d2, sigma);
    } else {
      m, d, ids := Intersection(d1, d2, sigma);
    }
    p := Product(l, r, sigma, rej1, rej2, either, d, ids, m);
  }

  /** Every node's bounds are the combination of the bounds at its places, whichever path explored it. */
  method Combine<T>(l: SketchValue<T>, r: SketchValue<T>, op: (Bounds<T>, Bounds<T>) -> Bounds<T>, default: Bounds<T>,
                    either: bool)
    returns (g: SketchValue<T>)
    requires l.Wf() && r.Wf()
    ensures IsCombined(l, r, op, default, either, g)
  {
    hide Complete, Accepts, KeptEdges, IsCombined, AllConnect, NodesDiffer, Weighted, Product.Valid, Reachable, Nodes;
    var m;
    ghost var p;
    m, p := ProductOf(l, r, either);
    assert l.Wf() && r.Wf();
    p.KeptShape();
    var blank := CreateGraphFromDfa(m, default);
    var found := ExplorePaths(blank.edges, blank.entry);
    KeptFound(p, found);
    var weights := CombineWeights(l, r, op, default, blank, found);
    g := blank.(weights := weights);
    CombinedExactly(p, op, default, g, found);
  }

  lemma KeptFound<T>(p: Product<T>, found: seq<(ArcPath<nat, FieldLabel>, nat)>)
    requires p.Valid() && forall x :: x in Nodes(found) <==> Reachable(KeptEdges(p.m), p.m.entry, x)
    ensures Nodes(found) == Kept(p.m)
    ensures forall i | 0 <= i < |found| :: found[i].1 in Kept(p.m)
  {
    p.KeptShape();
    forall x | x in Nodes(found) ensures x in Kept(p.m) {
      ReachableStaysInside(KeptEdges(p.m), Kept(p.m), p.m.entry, x);
    }
    forall x | x in Kept(p.m) ensures x in Nodes(found) {
      p.KeptReachable(x);
    }
    forall i | 0 <= i < |found| ensures found[i].1 in Kept(p.m) {
      assert found[i].1 in Nodes(found);
    }
  }

  /** g has the kept graph of the product, and bounds from an exploration of it. */
  ghost predicate IsExplored<T>(p: Product<T>, op: (Bounds<T>, Bounds<T>) -> Bounds<T>, default: Bounds<T>,
                                g: SketchValue<T>, found: seq<(ArcPath<nat, FieldLabel>, nat)>)
  {
    && p.Valid() && g.edges == KeptEdges(p.m) && g.entry == p.m.entry && g.weights.Keys == Kept(p.m)
    && AllConnect(g.edges, g.entry, found) && (forall x :: x in Nodes(found) <==> Reachable(g.edges, g.entry, x))
    && Weighted(p.l, p.r, op, default, g.weights, found)
  }

  lemma CombinedExactly<T>(p: Product<T>, op: (Bounds<T>, Bounds<T>) -> Bounds<T>, default: Bounds<T>,
                           g: SketchValue<T>, found: seq<(ArcPath<nat, FieldLabel>, nat)>)
    requires IsExplored(p, op, default, g, found)
    ensures IsCombined(p.l, p.r, op, default, p.either, g)
  {
    hide AllConnect, Nodes, Weighted, KeptEdges, Reachable, p.Valid, HasEither, SamePlaces;
    ExploredWf(p, op, default, g, found);
    forall w: Word ensures g.Has(w) <==> HasEither(p.l, p.r, p.either, w) {
      p.GraphRun(w);
    }
    forall w: Word, v: Word | g.Has(w) && g.Has(v) ensures g.At(w) == g.At(v) <==> SamePlaces(p.l, p.r, w, v) {
      p.NodesPairPlaces(w, v);
    }
    assert CombinesBounds(p.l, p.r, op, default, g) by {
      forall w: Word | g.Has(w)
        ensures g.BoundsAt(w, default) == op(p.l.BoundsAt(w, default), p.r.BoundsAt(w, default))
      {
        ExploredBounds(p, op, default, g, found, w);
      }
    }
  }

  lemma ExploredWf<T>(p: Product<T>, op: (Bounds<T>, Bounds<T>) -> Bounds<T>, default: Bounds<T>, g: SketchValue<T>,
                      found: seq<(ArcPath<nat, FieldLabel>, nat)>)
    requires IsExplored(p, op, default, g, found)
    ensures p.l.Wf() && p.r.Wf() && g.Wf() && forall x | x in g.weights :: Reachable(g.edges, g.entry, x)
  {
    hide IsProduct, IsTrimmed, Complete, Accepts, Completed, Labels, KeptEdges, AllConnect, Weighted;
    p.KeptShape();
    KeptFound(p, found);
  }

  /** The bounds of a node are those of every path to it. */
  lemma ExploredBounds<T>(p: Product<T>, op: (Bounds<T>, Bounds<T>) -> Bounds<T>, default: Bounds<T>, g: SketchValue<T>,
                          found: seq<(ArcPath<nat, FieldLabel>, nat)>, w: Word)
    requires IsExplored(p, op, default, g, found) && g.Wf() && p.l.Wf() && p.r.Wf() && g.Has(w)
    ensures g.BoundsAt(w, default) == op(p.l.BoundsAt(w, default), p.r.BoundsAt(w, default))
  {
    hide KeptEdges, p.Valid, HasEither, SketchValue.BoundsAt, SketchValue.Wf;
    g.AtLive(w);
    var x :| x in g.At(w);
    assert Reachable(g.edges, g.entry, x);
    var i :| 0 <= i < |found| && found[i].1 == x;
    var v := LabelsOf(found[i].0);
    ConnectsRun(g.edges, g.entry, found[i].0, x);
    g.AtLive(v);
    assert g.At(w) == {x} && g.At(v) == {x};
    p.GraphRun(w);
    p.GraphRun(v);
    p.NodesPairPlaces(w, v);
    SameBounds(p.l, w, v, default);
    SameBounds(p.r, w, v, default);
    NodeBounds(g, v, x, default);
    SameBounds(g, w, v, default);
  }

  lemma NodeBounds<T>(s: SketchValue<T>, w: Word, x: nat, default: Bounds<T>)
    requires s.Wf() && x in s.At(w)
    ensures x in s.weights && s.BoundsAt(w, default) == s.weights[x]
  {
    s.AtLive(w);
  }

  lemma SameBounds<T>(s: SketchValue<T>, w: Word, v: Word, default: Bounds<T>)
    requires s.Wf() && s.At(w) == s.At(v)
    ensures s.BoundsAt(w, default) == s.BoundsAt(v, default)
  {
    s.AtLive(w);
  }
}
