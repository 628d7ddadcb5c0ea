/**
 * Building a sketch graph from constraints (src/solver/type_sketch.rs, insert_dtv,
 * add_nodes_and_initial_edges, generate_quotient_groups, build_without_pointer_simplification).
 */
module SketchBuilder {
  import opened Sets
  import opened Graphs
  import opened Constraints
  import opened Derivation
  import opened Lattice
  import opened CongruenceClosure
  import opened Quotients
  import opened MappingGraphs

  type Names = map<Dtv, nat>

  function Front(d: Dtv): Dtv
    requires d.labels != []
  {
    Dtv(d.base, d.labels[..|d.labels| - 1])
  }

  function Last(d: Dtv): FieldLabel
    requires d.labels != []
  {
    d.labels[|d.labels| - 1]
  }

  function Prefix(d: Dtv, n: nat): Dtv
    requires n <= |d.labels|
  {
    Dtv(d.base, d.labels[..n])
  }

  function Prefixes(d: Dtv): set<Dtv> {
    set n | 0 <= n <= |d.labels| :: Prefix(d, n)
  }

  /** d hangs from its front by an edge with its last label. */
  ghost predicate Linked(names: Names, E: set<SketchEdge>, d: Dtv) {
    d in names && (d.labels == [] || (Front(d) in names && Arc(names[Front(d)], Last(d), names[d]) in E))
  }

  ghost predicate AllLinked(names: Names, E: set<SketchEdge>) {
    forall d {:trigger Linked(names, E, d)} | d in names :: Linked(names, E, d)
  }

  ghost predicate LinksTo(names: Names, e: SketchEdge, d: Dtv) {
    d in names && d.labels != [] && Front(d) in names && e == Arc(names[Front(d)], Last(d), names[d])
  }

  /** One node for each known derived variable, one edge to each from the variable without the last label. */
  ghost predicate PrefixGraph(names: Names, E: set<SketchEdge>) {
    && (forall d, f | d in names && f in names && names[d] == names[f] :: d == f)
    && AllLinked(names, E)
    && (forall e | e in E :: exists d :: LinksTo(names, e, d))
  }

  /** The node idx is that of d, or new. */
  ghost predicate NodeFor(names: Names, d: Dtv, idx: nat) {
    if d in names then names[d] == idx else forall f | f in names :: names[f] != idx
  }

  function WithEdge(names: Names, E: set<SketchEdge>, d: Dtv, idx: nat): set<SketchEdge>
    requires d.labels != [] ==> Front(d) in names
  {
    if d.labels == [] then E else E + {Arc(names[Front(d)], Last(d), idx)}
  }

  lemma PrefixGraphAdd(names: Names, E: set<SketchEdge>, d: Dtv, idx: nat)
    requires PrefixGraph(names, E) && NodeFor(names, d, idx) && (d.labels != [] ==> Front(d) in names)
    ensures PrefixGraph(names[d := idx], WithEdge(names, E, d, idx))
  {
    hide Linked, LinksTo;
    var names', E' := names[d := idx], WithEdge(names, E, d, idx);
    forall f | f in names' ensures Linked(names', E', f) {
      LinkedAdd(names, E, d, idx, f);
    }
    forall x | x in E' ensures exists f :: LinksTo(names', x, f) {
      if x in E {
        var f :| LinksTo(names, x, f);
        LinksToAdd(names, d, idx, x, f);
      } else {
        LinksToNew(names, E, d, idx, x);
      }
    }
  }

  lemma LinkedAdd(names: Names, E: set<SketchEdge>, d: Dtv, idx: nat, f: Dtv)
    requires NodeFor(names, d, idx) && (d.labels != [] ==> Front(d) in names)
    requires f == d || Linked(names, E, f)
    ensures Linked(names[d := idx], WithEdge(names, E, d, idx), f)
  {
  }

  lemma LinksToAdd(names: Names, d: Dtv, idx: nat, e: SketchEdge, f: Dtv)
    requires NodeFor(names, d, idx) && LinksTo(names, e, f)
    ensures LinksTo(names[d := idx], e, f)
  {
  }

  lemma LinksToNew(names: Names, E: set<SketchEdge>, d: Dtv, idx: nat, e: SketchEdge)
    requires (d.labels != [] ==> Front(d) in names) && e in WithEdge(names, E, d, idx) && e !in E
    ensures LinksTo(names[d := idx], e, d)
  {
    assert |Front(d).labels| < |d.labels|;
  }

  /** Nodes that were only ever given the identity bounds. */
  ghost predicate AllIdentity<T>(weights: map<nat, Bounds<T>>, identity: Bounds<T>) {
    forall i | i in weights :: weights[i] == identity
  }

  /** Adds the node of one prefix. */
  method AddPrefix<T(!new)>(g: MappingGraph<Dtv, T>, d: Dtv, identity: Bounds<T>) returns (idx: nat)
    requires g.Valid() && AllIdentity(g.weights, identity) && Operate(g.ops, identity, identity) == identity
    modifies g
    ensures g.Valid() && AllIdentity(g.weights, identity) && g.edges == old(g.edges)
    ensures NodeFor(old(g.names), d, idx) && g.names == old(g.names)[d := idx] && idx in g.weights
    ensures forall i | i in old(g.weights) :: i in g.weights
  {
    hide Inverse;
    LiveNames(g.names, g.reprs, g.weights.Keys);
    idx := g.AddNode(d, identity);
  }

  /** Adds the node of d extended by one label, and the edge to it. */
  method AddLabel<T(!new)>(g: MappingGraph<Dtv, T>, d: Dtv, prev: nat, l: FieldLabel, identity: Bounds<T>)
    returns (next: nat)
    requires g.Valid() && PrefixGraph(g.names, g.edges) && d in g.names && prev == g.names[d] && prev in g.weights
    requires AllIdentity(g.weights, identity) && Operate(g.ops, identity, identity) == identity
    modifies g
    ensures g.Valid() && PrefixGraph(g.names, g.edges) && AllIdentity(g.weights, identity)
    ensures g.names == old(g.names)[d.Extend([l]) := next] && next in g.weights
  {
    hide PrefixGraph, Inverse, AllIdentity, NodeFor;
    ghost var names, edges, longer := g.names, g.edges, d.Extend([l]);
    assert Front(longer) == d;
    next := AddPrefix(g, d.Extend([l]), identity);
    PrefixGraphAdd(names, edges, longer, next);
    var _ := g.AddEdge(prev, next, l);
  }

  /** Adds a node for every prefix of the derived variable, and the edges between them. */
  method InsertDtv<T(!new)>(g: MappingGraph<Dtv, T>, dtv: Dtv, identity: Bounds<T>)
    requires g.Valid() && PrefixGraph(g.names, g.edges) && AllIdentity(g.weights, identity)
    requires Operate(g.ops, identity, identity) == identity
    modifies g
    ensures g.Valid() && PrefixGraph(g.names, g.edges) && AllIdentity(g.weights, identity)
    ensures g.names.Keys == old(g.names.Keys) + Prefixes(dtv)
  {
    hide PrefixGraph, Inverse, AllIdentity, NodeFor;
    var currVar := Dtv(dtv.base, []);
    ghost var start := g.names;
    var prev := AddPrefix(g, currVar, identity);
    PrefixGraphAdd(start, g.edges, currVar, prev);
    for i := 0 to |dtv.labels|
      invariant g.Valid() && PrefixGraph(g.names, g.edges) && AllIdentity(g.weights, identity)
      invariant currVar == Prefix(dtv, i) && currVar in g.names && prev == g.names[currVar] && prev in g.weights
      invariant g.names.Keys == old(g.names.Keys) + set n | 0 <= n <= i :: Prefix(dtv, n)
    {
      prev := AddLabel(g, currVar, prev, dtv.labels[i], identity);
      currVar := currVar.Extend([dtv.labels[i]]);
      assert currVar == Prefix(dtv, i + 1);
    }
  }

  /** All prefixes of all derived variables in the constraints. */
  function Mentioned(cs: set<Subtype>): set<Dtv> {
    set c, d | c in cs && d in PrefixesOf(c) :: d
  }

  function PrefixesOf(c: Subtype): set<Dtv> {
    Prefixes(c.lhs) + Prefixes(c.rhs)
  }

  method AddNodesAndInitialEdges<T(!new)>(g: MappingGraph<Dtv, T>, cs: set<Subtype>, identity: Bounds<T>)
    requires g.Valid() && g.names == map[] && g.edges == {} && g.weights == map[]
    requires Operate(g.ops, identity, identity) == identity
    modifies g
    ensures g.Valid() && PrefixGraph(g.names, g.edges) && AllIdentity(g.weights, identity)
    ensures g.names.Keys == Mentioned(cs)
  {
    hide PrefixGraph, Inverse, AllIdentity;
    NothingInserted(identity);
    var todo := cs;
    assert Mentioned(cs - todo) == {};
    while todo != {}
      invariant todo <= cs && g.Valid() && PrefixGraph(g.names, g.edges) && AllIdentity(g.weights, identity)
      invariant g.names.Keys == Mentioned(cs - todo)
    {
      var sty :| sty in todo;
      InsertDtv(g, sty.lhs, identity);
      InsertDtv(g, sty.rhs, identity);
      MentionedAdd(cs - todo, sty);
      assert cs - (todo - {sty}) == (cs - todo) + {sty};
      todo := todo - {sty};
    }
    assert cs - todo == cs;
  }

  lemma NothingInserted<T>(identity: Bounds<T>)
    ensures PrefixGraph(map[], {}) && AllIdentity(map[], identity)
  {
  }

  lemma MentionedAdd(cs: set<Subtype>, c: Subtype)
    ensures Mentioned(cs + {c}) == Mentioned(cs) + PrefixesOf(c)
  {
  }

  lemma SidesMentioned(cs: set<Subtype>, c: Subtype)
    requires c in cs
    ensures c.lhs in Mentioned(cs) && c.rhs in Mentioned(cs)
    ensures Dtv(c.lhs.base, []) in Mentioned(cs) && Dtv(c.rhs.base, []) in Mentioned(cs)
  {
    WholeIsPrefix(c.lhs);
    WholeIsPrefix(c.rhs);
    assert PrefixesOf(c) <= Mentioned(cs);
  }

  lemma WholeIsPrefix(d: Dtv)
    ensures d in Prefixes(d) && Dtv(d.base, []) in Prefixes(d)
  {
    assert Prefix(d, |d.labels|) == d && Prefix(d, 0) == Dtv(d.base, []);
  }

  /** The two sides of every constraint are to become one node. */
  function ConstraintPairs(names: Names, cs: set<Subtype>): set<(nat, nat)>
    requires Mentioned(cs) <= names.Keys
  {
    set c | c in cs && c.lhs in names && c.rhs in names :: (names[c.lhs], names[c.rhs])
  }

  method InitialUnionsOf(names: Names, cs: set<Subtype>) returns (unions: seq<(nat, nat)>)
    requires Mentioned(cs) <= names.Keys
    ensures PairSet(unions) == ConstraintPairs(names, cs)
    ensures forall p | p in unions :: p in PairSet(unions)
  {
    unions := [];
    var todo := cs;
    while todo != {}
      invariant todo <= cs
      invariant PairSet(unions)
             == set c | c in cs && c !in todo && c.lhs in names && c.rhs in names :: (names[c.lhs], names[c.rhs])
    {
      var c :| c in todo;
      SidesMentioned(cs, c);
      PairSetAdd(unions, (names[c.lhs], names[c.rhs]));
      unions, todo := unions + [(names[c.lhs], names[c.rhs])], todo - {c};
    }
  }

  /**
   * A sketch graph built from constraints, before its bounds are refined: names0 and E0 are the
   * prefix graph on the nodes live, groups what was merged, home the way to the groups, and names
   * and E the result.
   */
  datatype Built = Built(names0: Names, E0: set<SketchEdge>, live: set<nat>, groups: Groups, n: nat,
                         home: map<nat, nat>, names: Names, E: set<SketchEdge>) {
    ghost predicate From(cs: set<Subtype>) {
      && PrefixGraph(names0, E0) && names0.Keys == Mentioned(cs) && (forall d | d in names0 :: names0[d] in live)
      && ExactGroups(live, E0, ConstraintPairs(names0, cs), groups, n) && IsHome(groups, home, live)
      && home.Keys == live && names == (map d | d in names0 :: home[names0[d]]) && E == Image(home, E0)
    }
  }

  /** The prefix graph of the constraints, with the sides of every constraint merged and whatever then has to agree. */
  method BuildGraph<T(!new)>(ops: Ops<T>, cs: set<Subtype>, identity: Bounds<T>)
    returns (q: MappingGraph<Dtv, T>, ghost b: Built)
    requires Operate(ops, identity, identity) == identity
    ensures fresh(q) && q.Valid() && q.ops == ops && AllIdentity(q.weights, identity)
    ensures b.From(cs) && b.names == q.names && b.E == q.edges && |q.weights| == |b.groups|
  {
    hide PrefixGraph, Inverse, AllIdentity, IsPartition, IsHome, SameGroup, Congruent, FoldOf;
    var g := new MappingGraph<Dtv, T>(ops);
    AddNodesAndInitialEdges(g, cs, identity);
    LiveNames(g.names, g.reprs, g.weights.Keys);
    var unions := InitialUnionsOf(g.names, cs);
    PairsLive(g.names, cs, g.weights.Keys);
    var qgroups, size := GenerateQuotientGroups(g.weights.Keys, g.edges, unions);
    var graph, toGroup := g.Quotient(qgroups);
    q := graph;
    b := Built(g.names, g.edges, g.weights.Keys, qgroups, size, toGroup, q.names, q.edges);
    HomeKeys(qgroups, toGroup, g.weights.Keys);
    IdentityKept(ops, g.weights, qgroups, q.weights, identity);
    OneNodePerGroup(ops, g.weights, qgroups, q.weights);
  }

  /** Nodes of the quotient are numbered by the groups, one for each. */
  lemma OneNodePerGroup<T>(o: Ops<T>, weights: map<nat, Bounds<T>>, groups: Groups, weights': map<nat, Bounds<T>>)
    requires IsGroupWeights(o, weights, groups, weights')
    ensures |weights'| == |groups|
  {
    assert weights'.Keys == Upto(|groups|);
  }

  lemma PairsLive(names: Names, cs: set<Subtype>, live: set<nat>)
    requires Mentioned(cs) <= names.Keys && forall d | d in names :: names[d] in live
    ensures forall p | p in ConstraintPairs(names, cs) :: p.0 in live && p.1 in live
  {
  }

  lemma IdentityKept<T>(o: Ops<T>, weights: map<nat, Bounds<T>>, groups: Groups, weights': map<nat, Bounds<T>>,
                        identity: Bounds<T>)
    requires AllIdentity(weights, identity) && IsGroupWeights(o, weights, groups, weights')
    requires Operate(o, identity, identity) == identity
    ensures AllIdentity(weights', identity)
  {
    forall k | k in weights' ensures weights'[k] == identity {
      var order :| Enumerates(order, groups[k]) && weights'[k] == FoldBounds(o, WeightsAlong(weights, order));
      FoldOfConstant(o, WeightsAlong(weights, order), identity);
    }
  }

  lemma {:induction false} FoldOfConstant<T>(o: Ops<T>, ws: seq<Bounds<T>>, w: Bounds<T>)
    requires ws != [] && (forall i | 0 <= i < |ws| :: ws[i] == w) && Operate(o, w, w) == w
    ensures FoldBounds(o, ws) == w
    decreases |ws|
  {
    if |ws| > 1 {
      FoldOfConstant(o, ws[..|ws| - 1], w);
    }
  }
}
