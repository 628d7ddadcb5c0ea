/**
 * Quotients of labelled graphs by groups of nodes (src/graph_algos/mapping_graph.rs, quoetient_graph):
 * group number k becomes node k.
 */
module Quotients {
  import opened Graphs
  import opened Constraints
  import opened Lattice
  import opened CongruenceClosure

  /** home sends every live node to the number of its group. */
  ghost predicate IsHome(groups: Groups, home: map<nat, nat>, live: set<nat>) {
    && home.Keys == live
    && (forall x | x in live :: home[x] < |groups| && x in groups[home[x]])
    && (forall k, x | 0 <= k < |groups| && x in groups[k] :: x in home && home[x] == k)
  }

  lemma GroupAt(groups: Groups, live: set<nat>, k: nat)
    requires IsPartition(groups, live) && k < |groups|
    ensures groups[k] != {} && groups[k] <= live
  {
    assert HasMember(groups[k]);
  }

  function AllTo(S: set<nat>, k: nat): map<nat, nat> {
    map x | x in S :: k
  }

  method Homes(groups: Groups, ghost live: set<nat>) returns (home: map<nat, nat>)
    requires IsPartition(groups, live)
    ensures IsHome(groups, home, live)
  {
    hide HomeUpTo, IsPartition, IsHome;
    home := map[];
    HomeStart(groups);
    for k := 0 to |groups|
      invariant HomeUpTo(groups, home, k)
    {
      HomeStep(groups, home, live, k);
      home := home + AllTo(groups[k], k);
    }
    HomeEnd(groups, home, live);
  }

  ghost predicate HomeUpTo(groups: Groups, home: map<nat, nat>, k: nat) {
    && k <= |groups|
    && (forall x | x in home :: home[x] < k && x in groups[home[x]])
    && (forall j, x | 0 <= j < k && x in groups[j] :: x in home && home[x] == j)
  }

  lemma HomeStart(groups: Groups)
    ensures HomeUpTo(groups, map[], 0)
  {
  }

  lemma HomeStep(groups: Groups, home: map<nat, nat>, live: set<nat>, k: nat)
    requires IsPartition(groups, live) && k < |groups| && HomeUpTo(groups, home, k)
    ensures HomeUpTo(groups, home + AllTo(groups[k], k), k + 1)
  {
    hide NonEmptyGroups;
    forall j | 0 <= j < k ensures groups[j] !! groups[k] {
    }
  }

  lemma HomeEnd(groups: Groups, home: map<nat, nat>, live: set<nat>)
    requires IsPartition(groups, live) && HomeUpTo(groups, home, |groups|)
    ensures IsHome(groups, home, live)
  {
    hide NonEmptyGroups;
    forall x | x in home ensures x in live {
      assert groups[home[x]] <= live;
    }
  }

  lemma HomeIsGroup(groups: Groups, home: map<nat, nat>, live: set<nat>, x: nat, y: nat)
    requires IsHome(groups, home, live) && x in live && y in live
    ensures home[x] == home[y] <==> SameGroup(groups, x, y)
  {
  }

  function ImageEdge(home: map<nat, nat>, e: SketchEdge): SketchEdge
    requires e.src in home && e.dst in home
  {
    Arc(home[e.src], e.lab, home[e.dst])
  }

  function Image(home: map<nat, nat>, E: set<SketchEdge>): set<SketchEdge>
    requires forall e | e in E :: e.src in home && e.dst in home
  {
    set e | e in E :: ImageEdge(home, e)
  }

  method ImageOf(home: map<nat, nat>, E: set<SketchEdge>) returns (image: set<SketchEdge>)
    requires forall e | e in E :: e.src in home && e.dst in home
    ensures image == Image(home, E)
  {
    image := {};
    var todo := E;
    while todo != {}
      invariant todo <= E && image == Image(home, E - todo)
    {
      var e :| e in todo;
      assert E - (todo - {e}) == (E - todo) + {e};
      image, todo := image + {ImageEdge(home, e)}, todo - {e};
    }
  }

  // ----- weights of groups -----

  function WeightsAlong<T>(weights: map<nat, Bounds<T>>, order: seq<nat>): seq<Bounds<T>>
    requires forall x | x in order :: x in weights
  {
    seq(|order|, i requires 0 <= i < |order| => weights[order[i]])
  }

  /** w is the fold of the weights of all nodes of S, each once, in some order. */
  ghost predicate FoldOf<T>(o: Ops<T>, weights: map<nat, Bounds<T>>, S: set<nat>, w: Bounds<T>)
    requires S <= weights.Keys
  {
    exists order: seq<nat> :: Enumerates(order, S) && w == FoldBounds(o, WeightsAlong(weights, order))
  }

  ghost predicate Enumerates(order: seq<nat>, S: set<nat>) {
    && order != [] && |order| == |S|
    && (forall x :: x in order <==> x in S)
  }

  method FoldGroup<T(!new)>(o: Ops<T>, weights: map<nat, Bounds<T>>, S: set<nat>) returns (w: Bounds<T>)
    requires S != {} && S <= weights.Keys
    ensures FoldOf(o, weights, S, w)
  {
    hide FoldOf;
    var x :| x in S;
    w := weights[x];
    var done := {x};
    FoldOfOne(o, weights, x);
    while done != S
      invariant done <= S && FoldOf(o, weights, done, w)
      decreases S - done
    {
      assert exists y :: y in S && y !in done;
      var y :| y in S && y !in done;
      FoldOfAdd(o, weights, done, w, y);
      w, done := Operate(o, w, weights[y]), done + {y};
    }
  }

  lemma FoldOfOne<T>(o: Ops<T>, weights: map<nat, Bounds<T>>, x: nat)
    requires x in weights
    ensures FoldOf(o, weights, {x}, weights[x])
  {
    assert Enumerates([x], {x});
    assert WeightsAlong(weights, [x]) == [weights[x]];
  }

  lemma FoldOfAdd<T>(o: Ops<T>, weights: map<nat, Bounds<T>>, S: set<nat>, w: Bounds<T>, y: nat)
    requires S <= weights.Keys && FoldOf(o, weights, S, w) && y in weights && y !in S
    ensures FoldOf(o, weights, S + {y}, Operate(o, w, weights[y]))
  {
    var order :| Enumerates(order, S) && w == FoldBounds(o, WeightsAlong(weights, order));
    var longer := order + [y];
    assert Enumerates(longer, S + {y});
    assert WeightsAlong(weights, longer)[..|order|] == WeightsAlong(weights, order);
  }

  function UppersAt<T>(weights: map<nat, Bounds<T>>, S: set<nat>): set<T>
    requires S <= weights.Keys
  {
    set x | x in S :: weights[x].upper
  }

  function LowersAt<T>(weights: map<nat, Bounds<T>>, S: set<nat>): set<T>
    requires S <= weights.Keys
  {
    set x | x in S :: weights[x].lower
  }

  /** Whatever the order, a group's bounds are the meet of its upper and the join of its lower bounds. */
  lemma FoldOfIsTight<T(!new)>(dom: set<T>, o: Ops<T>, weights: map<nat, Bounds<T>>, S: set<nat>, w: Bounds<T>)
    requires IsLattice(dom, o) && S <= weights.Keys && UppersAt(weights, S) <= dom && LowersAt(weights, S) <= dom
    requires FoldOf(o, weights, S, w)
    ensures IsGlb(dom, o, UppersAt(weights, S), w.upper) && IsLub(dom, o, LowersAt(weights, S), w.lower)
    ensures forall w' | FoldOf(o, weights, S, w') :: w' == w
  {
    hide IsLattice, Leq, FoldBounds, IsGlb, IsLub;
    var order :| Enumerates(order, S) && w == FoldBounds(o, WeightsAlong(weights, order));
    AlongBounds(weights, order, S);
    FoldIsTight(dom, o, WeightsAlong(weights, order));
    forall w' | FoldOf(o, weights, S, w') ensures w' == w {
      var order' :| Enumerates(order', S) && w' == FoldBounds(o, WeightsAlong(weights, order'));
      AlongBounds(weights, order', S);
      FoldOrderFree(dom, o, WeightsAlong(weights, order), WeightsAlong(weights, order'));
    }
  }

  lemma AlongBounds<T>(weights: map<nat, Bounds<T>>, order: seq<nat>, S: set<nat>)
    requires S <= weights.Keys && Enumerates(order, S)
    ensures Uppers(WeightsAlong(weights, order)) == UppersAt(weights, S)
    ensures Lowers(WeightsAlong(weights, order)) == LowersAt(weights, S)
  {
    var ws := WeightsAlong(weights, order);
    forall x | x in S ensures weights[x].upper in Uppers(ws) && weights[x].lower in Lowers(ws) {
      var i :| 0 <= i < |order| && order[i] == x;
      assert ws[i] == weights[x];
    }
  }

  // ----- what quotienting by congruence classes gives -----

  /** Alike edges out of one node lead to one node: deterministic, and load agrees with store. */
  ghost predicate Agreeing(E: set<SketchEdge>) {
    forall e, f | e in E && f in E && e.src == f.src && Alike(e.lab, f.lab) :: e.dst == f.dst
  }

  /** The setting of the lemmas below: groups are the exact congruence classes of a graph. */
  ghost predicate ExactGroups(live: set<nat>, E: set<SketchEdge>, init: set<(nat, nat)>, groups: Groups, n: nat) {
    && (forall e | e in E :: e.src in live && e.dst in live)
    && IsPartition(groups, live) && (forall x | x in live :: x < n)
    && (forall i, j {:trigger SameGroup(groups, i, j)} {:trigger Congruent(n, init, E, i, j)} |
          i in live && j in live ::
          SameGroup(groups, i, j) <==> Congruent(n, init, E, i, j))
  }

  lemma QuotientAgrees(live: set<nat>, E: set<SketchEdge>, init: set<(nat, nat)>, groups: Groups, n: nat,
                       home: map<nat, nat>)
    requires ExactGroups(live, E, init, groups, n) && IsHome(groups, home, live)
    ensures Agreeing(Image(home, E)) && Deterministic(Image(home, E))
  {
    hide IsHome, SameGroup, Congruent, IsPartition;
    HomeKeys(groups, home, live);
    var E' := Image(home, E);
    forall e', f' | e' in E' && f' in E' && e'.src == f'.src && Alike(e'.lab, f'.lab) ensures e'.dst == f'.dst {
      var e :| e in E && e' == ImageEdge(home, e);
      var f :| f in E && f' == ImageEdge(home, f);
      HomeIsGroup(groups, home, live, e.src, f.src);
      GroupsAgree(live, E, init, groups, n, e, f);
      HomeIsGroup(groups, home, live, e.dst, f.dst);
    }
  }

  lemma MergedInit(n: nat, init: set<(nat, nat)>, E: set<SketchEdge>, p: (nat, nat))
    requires p in init
    ensures Congruent(n, init, E, p.0, p.1)
  {
    assert p == (p.0, p.1);
  }

  lemma HomeKeys(groups: Groups, home: map<nat, nat>, live: set<nat>)
    requires IsHome(groups, home, live)
    ensures home.Keys == live
  {
  }

  /** Every labelled path of the old graph maps to the only path with the same labels from the image of its start. */
  lemma {:induction false} QuotientKeepsPaths(E: set<SketchEdge>, home: map<nat, nat>, x: nat, w: seq<FieldLabel>,
                                              y: nat)
    requires forall e | e in E :: e.src in home && e.dst in home
    requires Agreeing(Image(home, E)) && x in home && y in Run(E, {x}, w)
    ensures y in home && Run(Image(home, E), {home[x]}, w) == {home[y]}
    decreases |w|
  {
    if w != [] {
      var z := RunFrom(E, Step(E, {x}, w[0]), w[1..], y);
      var e :| e in E && e.src == x && e.lab == w[0] && e.dst == z;
      var E' := Image(home, E);
      assert ImageEdge(home, e) in E';
      assert Step(E', {home[x]}, w[0]) == {home[z]} by {
        forall f | f in E' && f.src == home[x] && f.lab == w[0] ensures f.dst == home[z] {
          assert Alike(f.lab, ImageEdge(home, e).lab);
        }
      }
      QuotientKeepsPaths(E, home, z, w[1..], y);
    }
  }

  /** A map on nodes that respects the initial pairs and whose image agrees on alike edges. */
  ghost predicate Respects(h: map<nat, nat>, live: set<nat>, E: set<SketchEdge>, init: set<(nat, nat)>) {
    && live <= h.Keys
    && (forall p | p in init :: p.0 in h && p.1 in h && h[p.0] == h[p.1])
    && (forall e, f | e in E && f in E && Alike(e.lab, f.lab) && e.src in h && f.src in h && h[e.src] == h[f.src] ::
          e.dst in h && f.dst in h && h[e.dst] == h[f.dst])
  }

  /**
   * The quotient is the most general one: any map that merges the initial pairs and makes alike
   * edges agree merges everything the groups merge.
   */
  lemma QuotientIsLeast(live: set<nat>, E: set<SketchEdge>, init: set<(nat, nat)>, groups: Groups, n: nat,
                        home: map<nat, nat>, h: map<nat, nat>, x: nat, y: nat)
    requires ExactGroups(live, E, init, groups, n) && IsHome(groups, home, live) && Respects(h, live, E, init)
    requires forall p | p in init :: p.0 in live && p.1 in live
    requires x in live && y in live && home[x] == home[y]
    ensures h[x] == h[y]
  {
    hide IsHome, SameGroup, IsPartition;
    HomeIsGroup(groups, home, live, x, y);
    var R := RespectedPairs(h, live, n);
    RespectedIsCongruence(h, live, E, init, n);
    assert (x, y) in R;
  }

  ghost function RespectedPairs(h: map<nat, nat>, live: set<nat>, n: nat): set<(nat, nat)>
    requires live <= h.Keys
  {
    (set i, j | 0 <= i < n && 0 <= j < n && i in live && j in live && h[i] == h[j] :: (i, j)) +
    (set i | 0 <= i < n :: (i, i))
  }

  lemma RespectedIsCongruence(h: map<nat, nat>, live: set<nat>, E: set<SketchEdge>, init: set<(nat, nat)>, n: nat)
    requires Respects(h, live, E, init)
    requires forall e | e in E :: e.src in live && e.dst in live
    requires forall p | p in init :: p.0 in live && p.1 in live
    requires forall x | x in live :: x < n
    ensures IsCongruence(RespectedPairs(h, live, n), n, init, E)
  {
    var R := RespectedPairs(h, live, n);
    forall p | p in init ensures p in R {
      assert p == (p.0, p.1);
    }
  }
}
