/**
 * Merging sketch nodes until edges agree (src/solver/type_sketch.rs, get_edge_set and
 * generate_quotient_groups_for_initial_set). The union-find of the source is kept as a
 * labelling: node i belongs to the class named labels[i].
 */
module CongruenceClosure {
  import opened Graphs
  import opened Constraints

  type SketchEdge = Arc<nat, FieldLabel>

  /** Equal labels, or a load against a store: such edges out of equal nodes must agree. */
  predicate Alike(a: FieldLabel, b: FieldLabel) {
    a == b || (a == Load && b == Store)
  }

  /** Equivalences of the numbers below n that hold the initial pairs and are closed under the edges. */
  ghost predicate IsCongruence(R: set<(nat, nat)>, n: nat, init: set<(nat, nat)>, E: set<SketchEdge>) {
    && (forall i | 0 <= i < n :: (i, i) in R)
    && (forall i, j | (i, j) in R :: (j, i) in R)
    && (forall i, j, k | (i, j) in R && (j, k) in R :: (i, k) in R)
    && init <= R
    && (forall e, f | e in E && f in E && Alike(e.lab, f.lab) && (e.src, f.src) in R :: (e.dst, f.dst) in R)
  }

  type Labelling = seq<nat>

  /** Every congruence relates what the labelling has merged. */
  ghost predicate Justified(labels: Labelling, init: set<(nat, nat)>, E: set<SketchEdge>) {
    forall R | IsCongruence(R, |labels|, init, E) :: RelatesMerged(R, labels)
  }

  ghost predicate RelatesMerged(R: set<(nat, nat)>, labels: Labelling) {
    forall i, j | 0 <= i < |labels| && 0 <= j < |labels| && labels[i] == labels[j] :: (i, j) in R
  }

  function Names(labels: Labelling): set<nat> {
    set i | 0 <= i < |labels| :: labels[i]
  }

  /** later merges at least what earlier merges, and any difference costs a class. */
  ghost predicate Coarser(earlier: Labelling, later: Labelling) {
    && |later| == |earlier|
    && (forall i, j | 0 <= i < |earlier| && 0 <= j < |earlier| && earlier[i] == earlier[j] :: later[i] == later[j])
    && Names(later) <= Names(earlier)
    && (later == earlier || Names(later) != Names(earlier))
  }

  lemma CoarserSelf(labels: Labelling)
    ensures Coarser(labels, labels)
  {
  }

  lemma CoarserTrans(a: Labelling, b: Labelling, c: Labelling)
    requires Coarser(a, b) && Coarser(b, c)
    ensures Coarser(a, c)
  {
  }

  function Relabelled(labels: Labelling, x: nat, y: nat): Labelling
    requires x < |labels| && y < |labels|
  {
    seq(|labels|, i requires 0 <= i < |labels| => if labels[i] == labels[y] then labels[x] else labels[i])
  }

  /** Union of the classes of x and y. */
  method Union(labels: Labelling, x: nat, y: nat, ghost init: set<(nat, nat)>, ghost E: set<SketchEdge>)
    returns (labels': Labelling)
    requires x < |labels| && y < |labels| && Justified(labels, init, E)
    requires forall R | IsCongruence(R, |labels|, init, E) :: (x, y) in R
    ensures Coarser(labels, labels') && Justified(labels', init, E) && labels'[x] == labels'[y]
  {
    labels' := Relabelled(labels, x, y);
    UnionCoarser(labels, x, y);
    forall R | IsCongruence(R, |labels'|, init, E) ensures RelatesMerged(R, labels') {
      UnionJustified(labels, x, y, R, init, E);
    }
  }

  lemma UnionJustified(labels: Labelling, x: nat, y: nat, R: set<(nat, nat)>, init: set<(nat, nat)>, E: set<SketchEdge>)
    requires x < |labels| && y < |labels| && IsCongruence(R, |labels|, init, E) && RelatesMerged(R, labels)
    requires (x, y) in R
    ensures RelatesMerged(R, Relabelled(labels, x, y))
  {
    var later := Relabelled(labels, x, y);
    forall i, j | 0 <= i < |later| && 0 <= j < |later| && later[i] == later[j] ensures (i, j) in R {
      var i' := if labels[i] == labels[y] then x else i;
      var j' := if labels[j] == labels[y] then x else j;
      assert (i, y) in R || i' == i;
      assert (j, y) in R || j' == j;
      assert (i, i') in R && (j, j') in R;
      assert labels[i'] == labels[j'];
      assert (i', j') in R && (j', j) in R;
    }
  }

  lemma UnionCoarser(labels: Labelling, x: nat, y: nat)
    requires x < |labels| && y < |labels|
    ensures Coarser(labels, Relabelled(labels, x, y)) && Relabelled(labels, x, y)[x] == Relabelled(labels, x, y)[y]
  {
    var later := Relabelled(labels, x, y);
    forall l | l in Names(later) ensures l in Names(labels) {
    }
    if labels[x] == labels[y] {
      assert later == labels;
    } else {
      assert labels[y] in Names(labels) && labels[y] !in Names(later);
    }
  }

  datatype Implication = Implication(e: SketchEdge, f: SketchEdge)

  function EdgeImplications(E: set<SketchEdge>): set<Implication> {
    set e, f | e in E && f in E && Alike(e.lab, f.lab) :: Implication(e, f)
  }

  ghost predicate EdgesBelow(E: set<SketchEdge>, n: nat) {
    forall e | e in E :: e.src < n && e.dst < n
  }

  /** Implications no longer listed have had their effect. */
  ghost predicate Consumed(E: set<SketchEdge>, impl: set<Implication>, labels: Labelling)
    requires EdgesBelow(E, |labels|)
  {
    impl <= EdgeImplications(E) && forall i | i in EdgeImplications(E) && i !in impl ::
      labels[i.e.dst] == labels[i.f.dst]
  }

  lemma ConsumedCoarser(E: set<SketchEdge>, impl: set<Implication>, a: Labelling, b: Labelling)
    requires EdgesBelow(E, |a|) && Consumed(E, impl, a) && Coarser(a, b)
    ensures Consumed(E, impl, b)
  {
    forall i | i in EdgeImplications(E) && i !in impl ensures b[i.e.dst] == b[i.f.dst] {
    }
  }

  /** An implication whose sources every congruence relates justifies merging its targets. */
  lemma ImplicationJustifies(E: set<SketchEdge>, i: Implication, labels: Labelling, init: set<(nat, nat)>)
    requires i in EdgeImplications(E) && EdgesBelow(E, |labels|) && Justified(labels, init, E)
    requires labels[i.e.src] == labels[i.f.src]
    ensures forall R | IsCongruence(R, |labels|, init, E) :: (i.e.dst, i.f.dst) in R
  {
    forall R | IsCongruence(R, |labels|, init, E) ensures (i.e.dst, i.f.dst) in R {
      assert RelatesMerged(R, labels);
    }
  }

  /** One pass over the implications that are left. */
  method Pass(E: set<SketchEdge>, impl: set<Implication>, labels: Labelling, ghost init: set<(nat, nat)>)
    returns (impl': set<Implication>, labels': Labelling)
    requires EdgesBelow(E, |labels|) && Justified(labels, init, E) && Consumed(E, impl, labels)
    ensures Coarser(labels, labels') && Justified(labels', init, E) && Consumed(E, impl', labels')
    ensures forall i | i in impl' :: labels[i.e.src] != labels[i.f.src]
  {
    impl', labels' := impl, labels;
    var todo := impl;
    CoarserSelf(labels);
    while todo != {}
      invariant todo <= impl' <= impl
      invariant Coarser(labels, labels') && Justified(labels', init, E) && Consumed(E, impl', labels')
      invariant forall i | i in impl' && i !in todo :: labels[i.e.src] != labels[i.f.src]
    {
      var i :| i in todo;
      assert i in EdgeImplications(E);
      if labels'[i.e.src] == labels'[i.f.src] {
        ImplicationJustifies(E, i, labels', init);
        ghost var before := labels';
        labels' := Union(labels', i.e.dst, i.f.dst, init, E);
        ConsumedCoarser(E, impl', before, labels');
        CoarserTrans(labels, before, labels');
        impl' := impl' - {i};
      }
      todo := todo - {i};
    }
  }

  /** The labelling itself is a congruence, so it is the least one. */
  ghost predicate IsLeastCongruence(labels: Labelling, init: set<(nat, nat)>, E: set<SketchEdge>) {
    && Justified(labels, init, E)
    && (forall p | p in init :: p.0 < |labels| && p.1 < |labels| && labels[p.0] == labels[p.1])
    && (forall e, f | e in E && f in E && Alike(e.lab, f.lab) ::
         e.src < |labels| && f.src < |labels| && e.dst < |labels| && f.dst < |labels|
          && (labels[e.src] == labels[f.src] ==> labels[e.dst] == labels[f.dst]))
  }

  method InitialUnions(n: nat, init: seq<(nat, nat)>, ghost E: set<SketchEdge>) returns (labels: Labelling)
    requires forall p | p in init :: p.0 < n && p.1 < n
    ensures |labels| == n && Justified(labels, PairSet(init), E)
    ensures forall p | p in init :: labels[p.0] == labels[p.1]
  {
    labels := seq(n, i requires 0 <= i < n => i);
    for k := 0 to |init|
      invariant |labels| == n && Justified(labels, PairSet(init), E)
      invariant forall j | 0 <= j < k :: labels[init[j].0] == labels[init[j].1]
    {
      assert init[k] in PairSet(init) && init[k] in init;
      ghost var before := labels;
      labels := Union(labels, init[k].0, init[k].1, PairSet(init), E);
      forall j | 0 <= j < k ensures labels[init[j].0] == labels[init[j].1] {
        assert init[j] in init && before[init[j].0] == before[init[j].1];
      }
    }
  }

  function PairSet(init: seq<(nat, nat)>): set<(nat, nat)> {
    set k | 0 <= k < |init| :: init[k]
  }

  lemma PairSetAdd(unions: seq<(nat, nat)>, p: (nat, nat))
    ensures PairSet(unions + [p]) == PairSet(unions) + {p}
  {
    var longer := unions + [p];
    assert longer[|unions|] == p;
    forall q | q in PairSet(unions) ensures q in PairSet(longer) {
      var k :| 0 <= k < |unions| && unions[k] == q;
      assert longer[k] == q;
    }
  }

  /** The do-while loop: passes over the implications until a pass changes no class. */
  method Close(n: nat, init: seq<(nat, nat)>, E: set<SketchEdge>) returns (labels: Labelling)
    requires EdgesBelow(E, n) && forall p | p in init :: p.0 < n && p.1 < n
    ensures |labels| == n && IsLeastCongruence(labels, PairSet(init), E)
  {
    labels := InitialUnions(n, init, E);
    var impl := EdgeImplications(E);
    var changed := true;
    ghost var start := labels;
    CoarserSelf(labels);
    while changed
      invariant |labels| == n && Justified(labels, PairSet(init), E) && Consumed(E, impl, labels)
      invariant Coarser(start, labels)
      invariant !changed ==> forall i | i in impl :: labels[i.e.src] != labels[i.f.src]
      decreases Names(labels), changed
    {
      var prev := labels;
      impl, labels := Pass(E, impl, labels, PairSet(init));
      CoarserTrans(start, prev, labels);
      changed := labels != prev;
    }
    forall p | p in PairSet(init) ensures p.0 < |labels| && p.1 < |labels| && labels[p.0] == labels[p.1] {
      assert p in init && start[p.0] == start[p.1];
    }
    forall e, f | e in E && f in E && Alike(e.lab, f.lab) && labels[e.src] == labels[f.src]
      ensures labels[e.dst] == labels[f.dst]
    {
      assert Implication(e, f) in EdgeImplications(E);
    }
  }

  ghost function Kernel(labels: Labelling): set<(nat, nat)> {
    set i, j | 0 <= i < |labels| && 0 <= j < |labels| && labels[i] == labels[j] :: (i, j)
  }

  lemma KernelIsCongruence(labels: Labelling, init: set<(nat, nat)>, E: set<SketchEdge>)
    requires IsLeastCongruence(labels, init, E)
    ensures IsCongruence(Kernel(labels), |labels|, init, E)
  {
    forall p | p in init ensures p in Kernel(labels) {
      assert p == (p.0, p.1);
    }
  }

  /** i and j are related by the smallest equivalence with the closure property. */
  ghost predicate Congruent(n: nat, init: set<(nat, nat)>, E: set<SketchEdge>, i: nat, j: nat) {
    forall R | IsCongruence(R, n, init, E) :: (i, j) in R
  }

  lemma LeastIsExact(labels: Labelling, init: set<(nat, nat)>, E: set<SketchEdge>, i: nat, j: nat)
    requires IsLeastCongruence(labels, init, E) && i < |labels| && j < |labels|
    ensures labels[i] == labels[j] <==> Congruent(|labels|, init, E, i, j)
  {
    KernelIsCongruence(labels, init, E);
    if labels[i] == labels[j] {
      forall R | IsCongruence(R, |labels|, init, E) ensures (i, j) in R {
        assert RelatesMerged(R, labels);
      }
    }
  }

  type Groups = seq<set<nat>>

  ghost predicate HasMember(S: set<nat>) {
    S != {}
  }

  ghost predicate NonEmptyGroups(groups: Groups) {
    forall k {:trigger HasMember(groups[k])} | 0 <= k < |groups| :: HasMember(groups[k])
  }

  /** Non-empty, disjoint, and together all of live. */
  ghost predicate IsPartition(groups: Groups, live: set<nat>) {
    && NonEmptyGroups(groups)
    && (forall k | 0 <= k < |groups| :: groups[k] <= live)
    && (forall k, m | 0 <= k < m < |groups| :: groups[k] !! groups[m])
    && (forall x | x in live :: exists k :: 0 <= k < |groups| && x in groups[k])
  }

  ghost predicate SameGroup(groups: Groups, i: nat, j: nat) {
    exists k :: 0 <= k < |groups| && i in groups[k] && j in groups[k]
  }

  /** One more than the largest live index: the size of the source's union-find. */
  method Bound(live: set<nat>) returns (n: nat)
    ensures forall x | x in live :: x < n
    ensures n == 1 || n - 1 in live
  {
    n := 1;
    var todo := live;
    while todo != {}
      invariant todo <= live && forall x | x in live && x !in todo :: x < n
      invariant n == 1 || n - 1 in live
    {
      var x :| x in todo;
      n := if x >= n then x + 1 else n;
      todo := todo - {x};
    }
  }

  function Class(live: set<nat>, labels: Labelling, x: nat): set<nat>
    requires x < |labels| && forall y | y in live :: y < |labels|
  {
    set y | y in live && labels[y] == labels[x]
  }

  /** The groups are the classes of what is no longer to do. */
  ghost predicate Grouped(live: set<nat>, labels: Labelling, todo: set<nat>, groups: Groups)
    requires forall y | y in live :: y < |labels|
  {
    && todo <= live
    && (forall k | 0 <= k < |groups| :: groups[k] <= live - todo && groups[k] != {})
    && (forall k, x | 0 <= k < |groups| && x in groups[k] :: groups[k] == Class(live, labels, x))
    && (forall k, m | 0 <= k < m < |groups| :: groups[k] !! groups[m])
    && (forall x | x in live && x !in todo :: Class(live, labels, x) in groups)
  }

  lemma GroupedStep(live: set<nat>, labels: Labelling, todo: set<nat>, groups: Groups, x: nat)
    requires forall y | y in live :: y < |labels|
    requires Grouped(live, labels, todo, groups) && x in todo
    ensures Grouped(live, labels, todo - Class(live, labels, x), groups + [Class(live, labels, x)])
  {
    var group := Class(live, labels, x);
    var groups' := groups + [group];
    assert group <= todo;
    forall k | 0 <= k < |groups| ensures groups[k] !! group {
      assert groups[k] <= live - todo;
    }
    forall y | y in live && y !in todo - group ensures Class(live, labels, y) in groups' {
      if y in group {
        assert Class(live, labels, y) == group && groups'[|groups|] == group;
      } else {
        var k :| 0 <= k < |groups| && groups[k] == Class(live, labels, y);
        assert groups'[k] == groups[k];
      }
    }
    assert x in group;
  }

  lemma GroupedEnd(live: set<nat>, labels: Labelling, groups: Groups)
    requires forall y | y in live :: y < |labels|
    requires Grouped(live, labels, {}, groups)
    ensures IsPartition(groups, live)
    ensures forall i, j | i in live && j in live :: SameGroup(groups, i, j) <==> labels[i] == labels[j]
  {
    forall x | x in live ensures exists k :: 0 <= k < |groups| && x in groups[k] {
      var k :| 0 <= k < |groups| && groups[k] == Class(live, labels, x);
      assert x in groups[k];
    }
    forall i, j | i in live && j in live ensures SameGroup(groups, i, j) <==> labels[i] == labels[j] {
      var k :| 0 <= k < |groups| && groups[k] == Class(live, labels, i);
      assert i in groups[k] && (labels[i] == labels[j] ==> j in groups[k]);
    }
  }

  method GroupByLabel(live: set<nat>, labels: Labelling) returns (groups: Groups)
    requires forall x | x in live :: x < |labels|
    ensures IsPartition(groups, live)
    ensures forall i, j | i in live && j in live :: SameGroup(groups, i, j) <==> labels[i] == labels[j]
  {
    hide IsPartition, SameGroup;
    groups := [];
    var todo := live;
    while todo != {}
      invariant Grouped(live, labels, todo, groups)
    {
      var x :| x in todo;
      GroupedStep(live, labels, todo, groups, x);
      assert x in Class(live, labels, x);
      groups, todo := groups + [Class(live, labels, x)], todo - Class(live, labels, x);
    }
    GroupedEnd(live, labels, groups);
  }

  /**
   * The groups are exactly the classes of the smallest equivalence that holds the initial
   * pairs and under which alike edges out of equal nodes lead to equal nodes.
   */
  method GenerateQuotientGroups(live: set<nat>, E: set<SketchEdge>, init: seq<(nat, nat)>)
    returns (groups: Groups, ghost n: nat)
    requires forall e | e in E :: e.src in live && e.dst in live
    requires forall p | p in init :: p.0 in live && p.1 in live
    ensures IsPartition(groups, live) && forall x | x in live :: x < n
    ensures forall i, j | i in live && j in live :: SameGroup(groups, i, j) <==> Congruent(n, PairSet(init), E, i, j)
  {
    hide IsPartition, SameGroup, IsCongruence, IsLeastCongruence, Congruent;
    var size := Bound(live);
    n := size;
    var labels := Close(size, init, E);
    groups := GroupByLabel(live, labels);
    forall i, j | i in live && j in live ensures SameGroup(groups, i, j) <==> Congruent(n, PairSet(init), E, i, j) {
      LeastIsExact(labels, PairSet(init), E, i, j);
    }
  }

  /** What being exactly the congruence classes gives: alike edges out of one group lead into one group. */
  lemma GroupsAgree(live: set<nat>, E: set<SketchEdge>, init: set<(nat, nat)>, groups: Groups, n: nat, e: SketchEdge,
                    f: SketchEdge)
    requires forall e | e in E :: e.src in live && e.dst in live
    requires forall i, j | i in live && j in live :: SameGroup(groups, i, j) <==> Congruent(n, init, E, i, j)
    requires e in E && f in E && Alike(e.lab, f.lab) && SameGroup(groups, e.src, f.src)
    ensures SameGroup(groups, e.dst, f.dst)
  {
    forall R | IsCongruence(R, n, init, E) ensures (e.dst, f.dst) in R {
      assert (e.src, f.src) in R;
    }
  }
}
