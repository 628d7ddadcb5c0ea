/**
 * Folding displacements into structure fields on sketch graphs (src/solver/type_sketch.rs,
 * find_pointer_simplification, apply_pointer_transform, simplify_pointers).
 */
module PointerSimplification {
  import opened Sets
  import opened Graphs
  import opened Constraints
  import opened Lattice
  import opened CongruenceClosure
  import opened Quotients
  import opened MappingGraphs
  import opened Condensing
  import opened SimplifyPath

  predicate OutEdges(E: set<SketchEdge>, x: nat, loads: bool) {
    && (forall e | e in E && e.src == x :: if loads then e.lab.IsPointerAccess() else e.lab.Field?)
    && (exists e :: e in E && e.src == x)
  }

  /** All edges out of x are loads and stores, and there is one. */
  predicate IsPointer(E: set<SketchEdge>, x: nat) {
    OutEdges(E, x, true)
  }

  /** All edges out of x are fields, and there is one. */
  predicate IsStructure(E: set<SketchEdge>, x: nat) {
    OutEdges(E, x, false)
  }

  predicate CanSimplify(E: set<SketchEdge>, x: nat) {
    && IsPointer(E, x)
    && (forall e {:trigger IsStructure(E, e.dst)} | e in E && e.src == x :: IsStructure(E, e.dst))
    && exists e :: e in E && e.dst == x && e.lab.Add?
  }

  /**
   * Displacements lead into x, all edges out of x are loads and stores, and all edges out of what
   * they lead to are fields; there is one of each.
   */
  ghost predicate Foldable(E: set<SketchEdge>, x: nat) {
    && (exists e :: e in E && e.dst == x && e.lab.Add?)
    && (exists e :: e in E && e.src == x)
    && forall e | e in E && e.src == x ::
         && (e.lab == Load || e.lab == Store)
         && (exists f :: f in E && f.src == e.dst)
         && forall f | f in E && f.src == e.dst :: f.lab.Field?
  }

  /** f is a field of something that x points to. */
  ghost predicate Behind(E: set<SketchEdge>, x: nat, f: SketchEdge) {
    f in E && f.lab.Field? && exists e :: e in E && e.src == x && e.dst == f.src
  }

  lemma FoldableExactly(E: set<SketchEdge>, x: nat)
    ensures CanSimplify(E, x) <==> Foldable(E, x)
  {
    if CanSimplify(E, x) {
      forall e | e in E && e.src == x
        ensures (e.lab == Load || e.lab == Store) && (exists f :: f in E && f.src == e.dst)
        ensures forall f | f in E && f.src == e.dst :: f.lab.Field?
      {
        assert IsStructure(E, e.dst);
      }
    }
  }

  datatype PointerTransform = PointerTransform(pointerNode: nat, sourceEdges: set<SketchEdge>,
    targetFieldEdges: set<SketchEdge>)

  /** The displacements that lead into the pointer, and the fields of what it points to. */
  function TransformOf(E: set<SketchEdge>, x: nat): PointerTransform {
    PointerTransform(x,
                     set e | e in E && e.dst == x && e.lab.Add?,
                     set e, f | e in E && f in E && e.src == x && f.src == e.dst && f.lab.Field? :: f)
  }

  lemma TransformOfExactly(E: set<SketchEdge>, x: nat)
    ensures forall e :: e in TransformOf(E, x).sourceEdges <==> e in E && e.dst == x && e.lab.Add?
    ensures forall f :: f in TransformOf(E, x).targetFieldEdges <==> Behind(E, x, f)
  {
  }

  function Shifted(f: SketchEdge, disp: int): SketchEdge
    requires f.lab.Field?
  {
    f.(lab := f.lab.(offset := f.lab.offset + disp))
  }

  /** All displacements added to all fields. */
  function NewEdges(pt: PointerTransform): set<SketchEdge>
    requires forall e | e in pt.sourceEdges :: e.lab.Add?
    requires forall f | f in pt.targetFieldEdges :: f.lab.Field?
  {
    set e, f | e in pt.sourceEdges && f in pt.targetFieldEdges :: Shifted(f, e.lab.disp)
  }

  /** The edges before the final quotient. */
  function Transformed(E: set<SketchEdge>, x: nat): set<SketchEdge> {
    var pt := TransformOf(E, x);
    E - pt.sourceEdges - pt.targetFieldEdges + NewEdges(pt)
  }

  /** The nodes a displacement leads from become the pointer itself. */
  function Merges(E: set<SketchEdge>, x: nat): set<(nat, nat)> {
    set e | e in TransformOf(E, x).sourceEdges :: (e.src, x)
  }

  lemma MergesExactly(E: set<SketchEdge>, x: nat, a: nat, b: nat)
    ensures (a, b) in Merges(E, x) <==> b == x && exists e :: e in E && e.src == a && e.dst == x && e.lab.Add?
  {
    if e :| e in E && e.src == a && e.dst == x && e.lab.Add? {
      assert e in TransformOf(E, x).sourceEdges;
    }
  }

  /** Every displacement fits 64 bits, and so does every shifted offset. */
  ghost predicate OffsetsFit(E: set<SketchEdge>, x: nat) {
    var pt := TransformOf(E, x);
    && (forall e | e in pt.sourceEdges :: FitsI64(e.lab.disp))
    && (forall e, f | e in pt.sourceEdges && f in pt.targetFieldEdges :: FitsI64(f.lab.offset + e.lab.disp))
  }

  // ----- termination -----

  function AddEdges(E: set<SketchEdge>): set<SketchEdge> {
    set e | e in E && e.lab.Add?
  }

  lemma {:induction false} ImageNoLarger(home: map<nat, nat>, E: set<SketchEdge>)
    requires forall e | e in E :: e.src in home && e.dst in home
    ensures |Image(home, E)| <= |E|
  {
    if E != {} {
      var e :| e in E;
      var E' := E - {e};
      ImageNoLarger(home, E');
      assert Image(home, E) == Image(home, E') + {ImageEdge(home, e)};
    }
  }

  /** A transform removes an add edge, and neither the new fields nor the quotient create one. */
  lemma TransformDropsAdds(E: set<SketchEdge>, x: nat, home: map<nat, nat>)
    requires CanSimplify(E, x) && forall e | e in Transformed(E, x) :: e.src in home && e.dst in home
    ensures |AddEdges(Image(home, Transformed(E, x)))| < |AddEdges(E)|
  {
    var E' := Transformed(E, x);
    assert AddEdges(Image(home, E')) == Image(home, AddEdges(E'));
    ImageNoLarger(home, AddEdges(E'));
    var gone :| gone in E && gone.dst == x && gone.lab.Add?;
    assert gone in AddEdges(E) && gone !in AddEdges(E');
    SubsetSize(AddEdges(E'), AddEdges(E));
  }

  // ----- what has been merged afterwards -----

  /** The least congruence that merges what the transform merges, and then whatever has to agree. */
  ghost predicate Joined(n: nat, E: set<SketchEdge>, x: nat, a: nat, b: nat) {
    Congruent(n, Merges(E, x), Transformed(E, x), a, b)
  }

  /** home merges exactly what is joined. */
  ghost predicate HomesJoined(n: nat, E: set<SketchEdge>, x: nat, home: map<nat, nat>) {
    forall a, b {:trigger Joined(n, E, x, a, b)} | a in home && b in home ::
      home[a] == home[b] <==> Joined(n, E, x, a, b)
  }

  /** home is the quotient of the transformed graph, which has been made to agree. */
  ghost predicate Simplified(n: nat, E: set<SketchEdge>, x: nat, home: map<nat, nat>) {
    && (forall e | e in E :: e.src in home && e.dst in home)
    && (forall e | e in Transformed(E, x) :: e.src in home && e.dst in home)
    && HomesJoined(n, E, x, home) && Agreeing(Image(home, Transformed(E, x)))
  }

  // ----- the sketch graph -----

  datatype Found = Nothing | TooLarge | Transform(pt: PointerTransform)

  /** What looking for the first node to simplify may answer. */
  ghost predicate IsFound(E: set<SketchEdge>, live: set<nat>, r: Found) {
    match r
    case Nothing => forall x | x in live :: !CanSimplify(E, x)
    case TooLarge => exists x :: x in live && CanSimplify(E, x) && !DisplacementsFit(E, x)
    case Transform(pt) =>
      && pt.pointerNode in live && CanSimplify(E, pt.pointerNode) && pt == TransformOf(E, pt.pointerNode)
      && (forall y | y in live && y < pt.pointerNode :: !CanSimplify(E, y))
      && (forall e | e in pt.sourceEdges :: FitsI64(e.lab.disp))
  }

  ghost predicate DisplacementsFit(E: set<SketchEdge>, x: nat) {
    forall e | e in TransformOf(E, x).sourceEdges :: FitsI64(e.lab.disp)
  }

  /** The same answer read off the edges. */
  ghost predicate FindsFirst(E: set<SketchEdge>, r: Found) {
    match r
    case Nothing => forall x: nat :: !Foldable(E, x)
    case TooLarge => exists e :: e in E && Foldable(E, e.dst) && e.lab.Add? && !FitsI64(e.lab.disp)
    case Transform(pt) =>
      && Foldable(E, pt.pointerNode) && (forall y: nat | y < pt.pointerNode :: !Foldable(E, y))
      && (forall e :: e in pt.sourceEdges <==> e in E && e.dst == pt.pointerNode && e.lab.Add?)
      && (forall f :: f in pt.targetFieldEdges <==> Behind(E, pt.pointerNode, f))
      && (forall e | e in E && e.dst == pt.pointerNode && e.lab.Add? :: FitsI64(e.lab.disp))
  }

  /** A displacement that would have to be folded leaves 64 bits, or moves a field out of them. */
  ghost predicate DoesNotFit(E: set<SketchEdge>, e: SketchEdge) {
    && e in E && Foldable(E, e.dst) && e.lab.Add?
    && (!FitsI64(e.lab.disp) || exists f :: Behind(E, e.dst, f) && !FitsI64(f.lab.offset + e.lab.disp))
  }

  lemma OverflowDoesNotFit(E: set<SketchEdge>, x: nat)
    requires CanSimplify(E, x)
    ensures (exists e: SketchEdge :: e.dst == x && DoesNotFit(E, e)) <==> !OffsetsFit(E, x)
  {
    hide CanSimplify, Foldable, TransformOf;
    FoldableExactly(E, x);
    TransformOfExactly(E, x);
    if !OffsetsFit(E, x) {
      if e :| e in TransformOf(E, x).sourceEdges && !FitsI64(e.lab.disp) {
        assert DoesNotFit(E, e);
      } else {
        var e, f :| e in TransformOf(E, x).sourceEdges && f in TransformOf(E, x).targetFieldEdges
                    && f.lab.Field? && !FitsI64(f.lab.offset + e.lab.disp);
        assert DoesNotFit(E, e);
      }
    }
  }

  lemma FoundIsFirst(E: set<SketchEdge>, live: set<nat>, r: Found)
    requires IsFound(E, live, r) && forall e | e in E :: e.src in live && e.dst in live
    ensures FindsFirst(E, r)
  {
    hide CanSimplify, Foldable, TransformOf, Behind;
    forall x: nat ensures CanSimplify(E, x) <==> Foldable(E, x) {
      FoldableExactly(E, x);
    }
    forall x: nat | x !in live ensures !Foldable(E, x) {
      FoldableIsEnd(E, x);
    }
    match r
    case Nothing =>
    case TooLarge =>
      var x :| x in live && CanSimplify(E, x) && !DisplacementsFit(E, x);
      TransformOfExactly(E, x);
    case Transform(pt) =>
      assert pt == TransformOf(E, pt.pointerNode);
      TransformOfExactly(E, pt.pointerNode);
  }

  lemma NothingFound(E: set<SketchEdge>, r: Found)
    requires FindsFirst(E, r)
    ensures r.Nothing? ==> forall x: nat :: !Foldable(E, x)
    ensures r.TooLarge? ==> exists e :: DoesNotFit(E, e)
  {
    hide Foldable, Behind;
    if r.TooLarge? {
      var e :| e in E && Foldable(E, e.dst) && e.lab.Add? && !FitsI64(e.lab.disp);
      assert DoesNotFit(E, e);
    }
  }

  lemma FoldableIsEnd(E: set<SketchEdge>, x: nat)
    ensures Foldable(E, x) ==> exists e :: e in E && e.dst == x
  {
  }

  class SketchGraph<T(!new)> {
    var graph: MappingGraph<Dtv, T>

    ghost predicate Valid()
      reads this, graph
    {
      graph.Valid()
    }

    constructor (graph: MappingGraph<Dtv, T>)
      requires graph.Valid()
      ensures Valid() && this.graph == graph
    {
      this.graph := graph;
    }

    /** The first node the simplification applies to. */
    method FindPointerSimplification() returns (r: Found)
      requires Valid()
      ensures IsFound(graph.edges, graph.weights.Keys, r) && FindsFirst(graph.edges, r)
    {
      hide FindsFirst, CanSimplify;
      for x := 0 to graph.next
        invariant forall y | y in graph.weights && y < x :: !CanSimplify(graph.edges, y)
      {
        if x in graph.weights && CanSimplify(graph.edges, x) {
          var pt := TransformOf(graph.edges, x);
          r := if forall e | e in pt.sourceEdges :: FitsI64(e.lab.disp) then Transform(pt) else TooLarge;
          FoundIsFirst(graph.edges, graph.weights.Keys, r);
          return;
        }
      }
      FoundIsFirst(graph.edges, graph.weights.Keys, Nothing);
      return Nothing;
    }

    /** Steps 1 to 5 of the source: shift the fields, drop the old edges, merge the sources with the pointer. */
    method ApplyPointerTransform(pt: PointerTransform)
      returns (ok: bool, ghost home: map<nat, nat>, ghost groups: Groups, ghost n: nat)
      requires Valid() && CanSimplify(graph.edges, pt.pointerNode) && pt == TransformOf(graph.edges, pt.pointerNode)
      requires forall e | e in pt.sourceEdges :: FitsI64(e.lab.disp)
      modifies this, graph
      ensures Valid() && (ok <==> OffsetsFit(old(graph.edges), pt.pointerNode))
      ensures !ok ==> graph == old(graph) && unchanged(graph)
      ensures ok ==>
                var E, x := old(graph.edges), pt.pointerNode;
                && fresh(graph) && Simplified(n, E, x, home) && graph.ops == old(graph.ops)
                && Condenses(graph.ops, old(graph.weights), home, graph.weights)
                && ExactGroups(old(graph.weights.Keys), Transformed(E, x), Merges(E, x), groups, n)
                && IsQuotient(home, groups, old(graph.weights), old(graph.ops), Transformed(E, x), old(graph.names),
                              graph.weights, graph.edges, graph.names)
    {
      hide OffsetsFit, CanSimplify, Simplified, ExactGroups, IsQuotient, Inverse, TransformOf, Transformed, Merges,
           NewEdges, Condenses;
      home, groups, n := map[], [], 0;
      FitsExactly(graph.edges, pt);
      ok := forall e, f | e in pt.sourceEdges && f in pt.targetFieldEdges :: FitsI64(f.lab.offset + e.lab.disp);
      if ok {
        var initUnions := UnionsOf(pt);
        ghost var E, live := graph.edges, graph.weights.Keys;
        MergesLive(graph.edges, live, pt);
        graph.edges := graph.edges - pt.sourceEdges - pt.targetFieldEdges + NewEdges(pt);
        home, groups, n := Requotient(initUnions);
        SimplifiedByQuotient(live, E, pt.pointerNode, groups, n, home);
      }
    }

    /** Merges the given pairs and whatever then has to agree. */
    method Requotient(initUnions: seq<(nat, nat)>)
      returns (ghost home: map<nat, nat>, ghost groups: Groups, ghost n: nat)
      requires Valid() && forall p | p in initUnions :: p.0 in graph.weights && p.1 in graph.weights
      modifies this
      ensures Valid() && fresh(graph) && graph.ops == old(graph.ops) && IsHome(groups, home, old(graph.weights.Keys))
      ensures Condenses(graph.ops, old(graph.weights), home, graph.weights)
      ensures ExactGroups(old(graph.weights.Keys), old(graph.edges), PairSet(initUnions), groups, n)
      ensures IsQuotient(home, groups, old(graph.weights), old(graph.ops), old(graph.edges), old(graph.names),
                         graph.weights, graph.edges, graph.names)
    {
      hide IsQuotient, IsPartition, IsHome, Congruent, SameGroup, IsGroupWeights, Condenses;
      var qgroups, size := GenerateQuotientGroups(graph.weights.Keys, graph.edges, initUnions);
      var q, toGroup := graph.Quotient(qgroups);
      home, groups, n := toGroup, qgroups, size;
      WeightsOfQuotient(home, groups, graph.weights, graph.ops, graph.edges, graph.names, q.weights, q.edges, q.names);
      CondensesQuotient(graph.ops, graph.weights, groups, home, q.weights);
      graph := q;
    }

    /**
     * Transforms until none applies: at most one transform for each add edge there was, and the
     * only other way to stop is an offset that does not fit. Over any lattice a node that is left
     * has exactly the bounds that those of all the nodes merged into it amount to.
     */
    method SimplifyPointers() returns (ok: bool, ghost steps: nat, ghost to: map<nat, nat>)
      requires Valid()
      modifies this, graph
      ensures Valid() && (graph == old(graph) || fresh(graph)) && Transforms(old(graph.edges), to, graph.edges, steps)
      ensures steps + |AddEdges(graph.edges)| <= |AddEdges(old(graph.edges))|
      ensures graph.ops == old(graph.ops) && Condenses(graph.ops, old(graph.weights), to, graph.weights)
      ensures Follows(old(graph.names), to, graph.names)
      ensures ok ==> forall x: nat :: !Foldable(graph.edges, x)
      ensures !ok ==> exists e :: DoesNotFit(graph.edges, e)
    {
      hide CanSimplify, OffsetsFit, AddEdges, Simplified, ExactGroups, IsQuotient, Transforms, OneTransform, Condenses,
           Follows, Inverse, FindsFirst, Foldable, DoesNotFit;
      NoTransforms(graph.edges, graph.weights);
      steps, to := 0, Same(graph.weights);
      CondensesSame(graph.ops, graph.weights);
      FollowsSame(graph.names, graph.reprs, graph.weights);
      ghost var wasWeights, o := graph.weights, graph.ops;
      var found := FindPointerSimplification();
      ghost var was, wasNames := graph.edges, graph.names;
      while found.Transform?
        invariant Valid() && (graph == old(graph) || fresh(graph))
        invariant Transforms(was, to, graph.edges, steps)
        invariant steps + |AddEdges(graph.edges)| <= |AddEdges(was)|
        invariant graph.ops == o && Condenses(o, wasWeights, to, graph.weights) && Follows(wasNames, to, graph.names)
        invariant IsFound(graph.edges, graph.weights.Keys, found) && FindsFirst(graph.edges, found)
        decreases |AddEdges(graph.edges)|
      {
        ghost var E, names, weights := graph.edges, graph.names, graph.weights;
        var applied, home, groups, n := ApplyPointerTransform(found.pt);
        if !applied {
          OverflowDoesNotFit(E, found.pt.pointerNode);
          return false, steps, to;
        }
        StepEffect(n, E, found.pt.pointerNode, home, groups, weights, o, names, graph.weights, graph.edges,
                   graph.names);
        CondensesThen(o, wasWeights, to, weights, home, graph.weights);
        FollowsThen(wasNames, to, names, home, graph.names);
        TransformsAdd(was, to, E, home, graph.edges, steps);
        to := Then(to, home);
        steps := steps + 1;
        found := FindPointerSimplification();
      }
      NothingFound(graph.edges, found);
      ok := found.Nothing?;
    }
  }

  /** The keys of a node are keys of the node that stands for it. */
  ghost predicate Follows<K(!new)>(names: map<K, nat>, to: map<nat, nat>, names': map<K, nat>) {
    names'.Keys == names.Keys && forall k | k in names :: names[k] in to && names'[k] == to[names[k]]
  }

  lemma FollowsSame<K(!new), T>(names: map<K, nat>, reprs: map<nat, set<K>>, weights: map<nat, Bounds<T>>)
    requires Inverse(names, reprs) && reprs.Keys <= weights.Keys
    ensures Follows(names, Same(weights), names)
  {
    LiveNames(names, reprs, weights.Keys);
  }

  lemma FollowsThen<K(!new)>(a: map<K, nat>, to: map<nat, nat>, b: map<K, nat>, to': map<nat, nat>, c: map<K, nat>)
    requires Follows(a, to, b) && Follows(b, to', c) && forall x | x in to :: to[x] in to'
    ensures Follows(a, Then(to, to'), c)
  {
  }

  lemma WeightsOfQuotient<T, K(!new)>(home: map<nat, nat>, groups: Groups, weights: map<nat, Bounds<T>>, o: Ops<T>,
                                      E: set<SketchEdge>, names: map<K, nat>, weights': map<nat, Bounds<T>>,
                                      E': set<SketchEdge>, names': map<K, nat>)
    requires IsQuotient(home, groups, weights, o, E, names, weights', E', names')
    ensures IsGroupWeights(o, weights, groups, weights')
  {
  }

  ghost predicate OneTransform(E: set<SketchEdge>, home: map<nat, nat>, E': set<SketchEdge>) {
    exists n, x :: CanSimplify(E, x) && Simplified(n, E, x, home) && E' == Image(home, Transformed(E, x))
  }

  /** E' comes from E by that many transforms, and to says what became of each node. */
  ghost predicate Transforms(E: set<SketchEdge>, to: map<nat, nat>, E': set<SketchEdge>, steps: nat)
    decreases steps
  {
    if steps == 0 then
      E == E' && (forall i | i in to :: to[i] == i) && forall e | e in E :: e.src in to && e.dst in to
    else
      exists to0, M, home :: Transforms(E, to0, M, steps - 1) && OneTransform(M, home, E') && Composed(to0, home, to)
  }

  ghost predicate Composed(to: map<nat, nat>, home: map<nat, nat>, both: map<nat, nat>) {
    (forall i | i in to :: to[i] in home) && both == Then(to, home)
  }

  lemma NoTransforms<T>(E: set<SketchEdge>, weights: map<nat, Bounds<T>>)
    requires forall e | e in E :: e.src in weights && e.dst in weights
    ensures Transforms(E, Same(weights), E, 0)
  {
  }

  lemma TransformsAdd(E: set<SketchEdge>, to: map<nat, nat>, M: set<SketchEdge>, home: map<nat, nat>,
                      E': set<SketchEdge>, steps: nat)
    requires Transforms(E, to, M, steps) && OneTransform(M, home, E') && forall i | i in to :: to[i] in home
    ensures Transforms(E, Then(to, home), E', steps + 1)
  {
    hide OneTransform;
    assert Composed(to, home, Then(to, home));
  }

  lemma StepEffect<T, K(!new)>(n: nat, E: set<SketchEdge>, x: nat, home: map<nat, nat>, groups: Groups,
                               weights: map<nat, Bounds<T>>, o: Ops<T>, names: map<K, nat>,
                               weights': map<nat, Bounds<T>>, E': set<SketchEdge>, names': map<K, nat>)
    requires CanSimplify(E, x) && Simplified(n, E, x, home)
    requires IsQuotient(home, groups, weights, o, Transformed(E, x), names, weights', E', names')
    ensures OneTransform(E, home, E') && |AddEdges(E')| < |AddEdges(E)| && Follows(names, home, names')
  {
    TransformDropsAdds(E, x, home);
  }

  lemma FitsExactly(E: set<SketchEdge>, pt: PointerTransform)
    requires pt == TransformOf(E, pt.pointerNode) && forall e | e in pt.sourceEdges :: FitsI64(e.lab.disp)
    ensures (forall e | e in pt.sourceEdges :: e.lab.Add?) && forall f | f in pt.targetFieldEdges :: f.lab.Field?
    ensures OffsetsFit(E, pt.pointerNode)
            <==> forall e, f | e in pt.sourceEdges && f in pt.targetFieldEdges :: FitsI64(f.lab.offset + e.lab.disp)
  {
  }

  lemma MergesLive(E: set<SketchEdge>, live: set<nat>, pt: PointerTransform)
    requires pt == TransformOf(E, pt.pointerNode) && forall e | e in E :: e.src in live && e.dst in live
    ensures (forall e | e in pt.sourceEdges :: e.lab.Add?) && forall f | f in pt.targetFieldEdges :: f.lab.Field?
    ensures Transformed(E, pt.pointerNode) == E - pt.sourceEdges - pt.targetFieldEdges + NewEdges(pt)
    ensures Merges(E, pt.pointerNode) == set e | e in pt.sourceEdges :: (e.src, pt.pointerNode)
    ensures forall p | p in Merges(E, pt.pointerNode) :: p.0 in live && p.1 in live
    ensures forall e | e in E - pt.sourceEdges - pt.targetFieldEdges + NewEdges(pt) :: e.src in live && e.dst in live
  {
  }

  method UnionsOf(pt: PointerTransform) returns (unions: seq<(nat, nat)>)
    ensures PairSet(unions) == set e | e in pt.sourceEdges :: (e.src, pt.pointerNode)
    ensures forall p | p in unions :: p in PairSet(unions)
  {
    unions := [];
    var todo := pt.sourceEdges;
    while todo != {}
      invariant todo <= pt.sourceEdges
      invariant PairSet(unions) == set e | e in pt.sourceEdges && e !in todo :: (e.src, pt.pointerNode)
    {
      var e :| e in todo;
      PairSetAdd(unions, (e.src, pt.pointerNode));
      unions, todo := unions + [(e.src, pt.pointerNode)], todo - {e};
    }
  }

  lemma SimplifiedByQuotient(live: set<nat>, E: set<SketchEdge>, x: nat, groups: Groups, n: nat, home: map<nat, nat>)
    requires forall e | e in E :: e.src in live && e.dst in live
    requires ExactGroups(live, Transformed(E, x), Merges(E, x), groups, n) && IsHome(groups, home, live)
    ensures Simplified(n, E, x, home)
  {
    hide IsHome, SameGroup, IsPartition, Congruent;
    HomeKeys(groups, home, live);
    QuotientAgrees(live, Transformed(E, x), Merges(E, x), groups, n, home);
    forall a, b | a in home && b in home ensures home[a] == home[b] <==> Joined(n, E, x, a, b) {
      HomeIsGroup(groups, home, live, a, b);
    }
  }
}
