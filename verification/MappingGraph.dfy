/**
 * Graphs whose nodes are looked up by key (src/graph_algos/mapping_graph.rs). Several keys may
 * name one node; merging two nodes merges their bounds, their keys and their edges.
 */
module MappingGraphs {
  import opened Graphs
  import opened Constraints
  import opened Lattice
  import opened CongruenceClosure
  import opened Quotients

  /** Every key is registered at the node it names, and nowhere else. */
  ghost predicate Inverse<K>(names: map<K, nat>, reprs: map<nat, set<K>>) {
    && (forall k | k in names :: names[k] in reprs && k in reprs[names[k]])
    && (forall i, k | i in reprs && k in reprs[i] :: k in names && names[k] == i)
  }

  function KeysAt<K(==)>(reprs: map<nat, set<K>>, i: nat): set<K> {
    if i in reprs then reprs[i] else {}
  }

  lemma MovedInverse<K>(names: map<K, nat>, reprs: map<nat, set<K>>, from: nat, to: nat)
    requires Inverse(names, reprs) && from != to
    ensures var moved := map k | k in names :: if k in KeysAt(reprs, from) then to else names[k];
            && moved == (map k | k in names :: if names[k] == from then to else names[k])
            && Inverse(moved, reprs[to := KeysAt(reprs, to) + KeysAt(reprs, from)] - {from})
  {
    assert forall k | k in names :: k in KeysAt(reprs, from) <==> names[k] == from;
  }

  lemma DroppedInverse<K>(names: map<K, nat>, reprs: map<nat, set<K>>, i: nat)
    requires Inverse(names, reprs)
    ensures names - KeysAt(reprs, i) == map k | k in names && names[k] != i :: names[k]
    ensures Inverse(names - KeysAt(reprs, i), reprs - {i})
  {
    assert forall k | k in names :: k in KeysAt(reprs, i) <==> names[k] == i;
  }

  /** Identification of two nodes with a third. */
  function Identify(x: nat, fst: nat, snd: nat, merged: nat): nat {
    if x == fst || x == snd then merged else x
  }

  function IdentifyEdges(E: set<SketchEdge>, fst: nat, snd: nat, merged: nat): set<SketchEdge> {
    set e | e in E :: Arc(Identify(e.src, fst, snd, merged), e.lab, Identify(e.dst, fst, snd, merged))
  }

  function WithOut(E: set<SketchEdge>, from: nat, to: nat): set<SketchEdge> {
    E + set e | e in E && e.src == from :: Arc(to, e.lab, e.dst)
  }

  function WithIn(E: set<SketchEdge>, from: nat, to: nat): set<SketchEdge> {
    E + set e | e in E && e.dst == from :: Arc(e.src, e.lab, to)
  }

  function Detached(E: set<SketchEdge>, n: nat): set<SketchEdge> {
    set e | e in E && e.src != n && e.dst != n
  }

  /** Copying all edges to the new node and dropping the two old ones identifies them, loops included. */
  lemma CopiesIdentify(E: set<SketchEdge>, fst: nat, snd: nat, n: nat)
    requires fst != snd && n != fst && n != snd && forall e | e in E :: e.src != n && e.dst != n
    ensures var E' := WithIn(WithOut(WithIn(WithOut(E, fst, n), fst, n), snd, n), snd, n);
            Detached(Detached(E', fst), snd) == IdentifyEdges(E, fst, snd, n)
  {
    var E1 := WithOut(E, fst, n);
    var E2 := WithIn(E1, fst, n);
    var E3 := WithOut(E2, snd, n);
    var E4 := WithIn(E3, snd, n);
    var D, I := Detached(Detached(E4, fst), snd), IdentifyEdges(E, fst, snd, n);
    forall e | e in E ensures Arc(Identify(e.src, fst, snd, n), e.lab, Identify(e.dst, fst, snd, n)) in D {
      CopyReached(E, fst, snd, n, e);
    }
    forall d | d in D ensures d in I {
      CopyComesFrom(E, fst, snd, n, d);
    }
  }

  lemma CopyReached(E: set<SketchEdge>, fst: nat, snd: nat, n: nat, e: SketchEdge)
    requires fst != snd && n != fst && n != snd && e in E
    ensures Arc(Identify(e.src, fst, snd, n), e.lab, Identify(e.dst, fst, snd, n))
            in WithIn(WithOut(WithIn(WithOut(E, fst, n), fst, n), snd, n), snd, n)
  {
    var a1 := if e.src == fst then Arc(n, e.lab, e.dst) else e;
    assert a1 in WithOut(E, fst, n);
    var a2 := if a1.dst == fst then Arc(a1.src, e.lab, n) else a1;
    assert a2 in WithIn(WithOut(E, fst, n), fst, n);
    var a3 := if a2.src == snd then Arc(n, e.lab, a2.dst) else a2;
    assert a3 in WithOut(WithIn(WithOut(E, fst, n), fst, n), snd, n);
  }

  lemma CopyComesFrom(E: set<SketchEdge>, fst: nat, snd: nat, n: nat, d: SketchEdge)
    requires d in WithIn(WithOut(WithIn(WithOut(E, fst, n), fst, n), snd, n), snd, n)
    requires d.src != fst && d.src != snd && d.dst != fst && d.dst != snd
    ensures d in IdentifyEdges(E, fst, snd, n)
  {
    var E1 := WithOut(E, fst, n);
    var E2 := WithIn(E1, fst, n);
    var E3 := WithOut(E2, snd, n);
    var d3 :| d3 in E3 && (d == d3 || (d3.dst == snd && d == Arc(d3.src, d3.lab, n)));
    var d2 :| d2 in E2 && (d3 == d2 || (d2.src == snd && d3 == Arc(n, d2.lab, d2.dst)));
    var d1 :| d1 in E1 && (d2 == d1 || (d1.dst == fst && d2 == Arc(d1.src, d1.lab, n)));
    var e :| e in E && (d1 == e || (e.src == fst && d1 == Arc(n, e.lab, e.dst)));
    assert d == Arc(Identify(e.src, fst, snd, n), e.lab, Identify(e.dst, fst, snd, n));
  }

  class MappingGraph<K(==, !new), T(!new)> {
    const ops: Ops<T>
    var weights: map<nat, Bounds<T>>
    var edges: set<SketchEdge>
    var names: map<K, nat>
    var reprs: map<nat, set<K>>
    var next: nat

    /** Ids are never handed out twice, edges join live nodes, keys and nodes are mutually inverse. */
    ghost predicate Valid()
      reads this
    {
      && (forall i | i in weights :: i < next)
      && (forall e | e in edges :: e.src in weights && e.dst in weights)
      && Inverse(names, reprs) && reprs.Keys <= weights.Keys
    }

    constructor (ops: Ops<T>)
      ensures Valid() && this.ops == ops && weights == map[] && edges == {} && names == map[] && reprs == map[]
      ensures next == 0
    {
      this.ops := ops;
      weights, edges, names, reprs, next := map[], {}, map[], map[], 0;
    }

    /** Adds a node for a new key, or merges the bounds into the node the key already names. */
    method AddNode(key: K, weight: Bounds<T>) returns (idx: nat)
      requires Valid()
      modifies this
      ensures Valid() && edges == old(edges) && names == old(names)[key := idx]
      ensures key in old(names) ==>
                && idx == old(names)[key] && next == old(next) && reprs == old(reprs)
                && weights == old(weights)[idx := Operate(ops, old(weights)[idx], weight)]
      ensures key !in old(names) ==>
                && idx == old(next) && idx !in old(weights) && next == old(next) + 1
                && weights == old(weights)[idx := weight] && reprs == old(reprs)[idx := {key}]
    {
      if key in names {
        idx := names[key];
        weights := weights[idx := Operate(ops, weights[idx], weight)];
        assert names == names[key := idx];
      } else {
        idx := next;
        weights, next := weights[idx := weight], next + 1;
        names, reprs := names[key := idx], reprs[idx := {key}];
      }
    }

    /** Adds the edge unless an equal one is there. */
    method AddEdge(a: nat, b: nat, l: FieldLabel) returns (added: bool)
      requires Valid() && a in weights && b in weights
      modifies this`edges
      ensures Valid() && edges == old(edges) + {Arc(a, l, b)} && (added <==> Arc(a, l, b) !in old(edges))
    {
      added := Arc(a, l, b) !in edges;
      if added {
        edges := edges + {Arc(a, l, b)};
      }
    }

    /** For every edge out of from, an edge out of to. */
    method CopyOutgoing(from: nat, to: nat)
      requires Valid() && to in weights
      modifies this`edges
      ensures Valid() && edges == WithOut(old(edges), from, to)
    {
      var collected := set e | e in edges && e.src == from;
      var todo := collected;
      while todo != {}
        invariant todo <= collected && Valid()
        invariant edges == old(edges) + set e | e in collected && e !in todo :: Arc(to, e.lab, e.dst)
      {
        var e :| e in todo;
        var _ := AddEdge(to, e.dst, e.lab);
        todo := todo - {e};
      }
    }

    method CopyIncoming(from: nat, to: nat)
      requires Valid() && to in weights
      modifies this`edges
      ensures Valid() && edges == WithIn(old(edges), from, to)
    {
      var collected := set e | e in edges && e.dst == from;
      var todo := collected;
      while todo != {}
        invariant todo <= collected && Valid()
        invariant edges == old(edges) + set e | e in collected && e !in todo :: Arc(e.src, e.lab, to)
      {
        var e :| e in todo;
        var _ := AddEdge(e.src, to, e.lab);
        todo := todo - {e};
      }
    }

    /** The keys of one node become keys of another. */
    method UpdateAllChildrenOfIdxTo(oldIdx: nat, newIdx: nat)
      requires Valid() && newIdx in weights && newIdx != oldIdx
      modifies this`names, this`reprs
      ensures Valid() && oldIdx !in reprs && reprs.Keys <= old(reprs.Keys) + {newIdx}
      ensures names == map k | k in old(names) :: if old(names)[k] == oldIdx then newIdx else old(names)[k]
    {
      var oldSet := KeysAt(reprs, oldIdx);
      var newSet := KeysAt(reprs, newIdx);
      MovedInverse(names, reprs, oldIdx, newIdx);
      names := map k | k in names :: if k in oldSet then newIdx else names[k];
      reprs := reprs[newIdx := newSet + oldSet] - {oldIdx};
    }

    /** Drops a node together with its keys and edges. */
    method RemoveNodeByIdx(idx: nat) returns (w: Option<Bounds<T>>)
      requires Valid()
      modifies this
      ensures Valid() && next == old(next)
      ensures w == (if idx in old(weights) then Some(old(weights)[idx]) else None)
      ensures weights == old(weights) - {idx} && edges == Detached(old(edges), idx)
      ensures names == map k | k in old(names) && old(names)[k] != idx :: old(names)[k]
    {
      var keys := KeysAt(reprs, idx);
      DroppedInverse(names, reprs, idx);
      reprs := reprs - {idx};
      names := names - keys;
      w := if idx in weights then Some(weights[idx]) else None;
      weights, edges := weights - {idx}, Detached(edges, idx);
    }

    /** Drops a key, and its node when that was the node's last key. */
    method RemoveNode(key: K) returns (w: Option<Bounds<T>>)
      requires Valid()
      modifies this
      ensures Valid() && next == old(next) && names == old(names) - {key}
      ensures key !in old(names) ==> w == None && weights == old(weights) && edges == old(edges) && reprs == old(reprs)
      ensures key in old(names) ==>
                var idx := old(names)[key];
                && w == Some(old(weights)[idx])
                && (if exists k :: k in old(names) && k != key && old(names)[k] == idx
                    then weights == old(weights) && edges == old(edges)
                    else weights == old(weights) - {idx} && edges == Detached(old(edges), idx))
    {
      if key !in names {
        assert names - {key} == names;
        return None;
      }
      var idx := names[key];
      w := Some(weights[idx]);
      var rest := reprs[idx] - {key};
      ghost var before := names;
      names := names - {key};
      if rest == {} {
        forall k | k in before && before[k] == idx ensures k == key {
          assert k !in rest;
        }
        reprs := reprs - {idx};
        weights, edges := weights - {idx}, Detached(edges, idx);
      } else {
        var k :| k in rest;
        reprs := reprs[idx := rest];
        assert k in before && k != key && before[k] == idx;
      }
    }

    /**
     * Merges the nodes of two keys into a fresh node: exactly the image of the old edges under
     * identifying the two, loops and edges between them included.
     */
    method MergeNodes(key1: K, key2: K)
      requires Valid()
      modifies this
      ensures Valid()
      ensures key1 in old(names) && key2 in old(names) && old(names)[key1] != old(names)[key2] ==>
                var fst, snd, n := old(names)[key1], old(names)[key2], old(next);
                && next == n + 1 && edges == IdentifyEdges(old(edges), fst, snd, n)
                && weights == old(weights)[n := Operate(ops, old(weights)[fst], old(weights)[snd])] - {fst, snd}
                && names == map k | k in old(names) :: Identify(old(names)[k], fst, snd, n)
      ensures !(key1 in old(names) && key2 in old(names) && old(names)[key1] != old(names)[key2]) ==>
                weights == old(weights) && edges == old(edges) && next == old(next)
      ensures key1 in old(names) && key2 !in old(names) ==> names == old(names)[key2 := old(names)[key1]]
      ensures key1 !in old(names) && key2 in old(names) ==> names == old(names)[key1 := old(names)[key2]]
      ensures (key1 !in old(names) && key2 !in old(names))
              || (key1 in old(names) && key2 in old(names) && old(names)[key1] == old(names)[key2])
              ==> names == old(names) && reprs == old(reprs)
    {
      if key1 in names && key2 in names {
        if names[key1] != names[key2] {
          MergeIndices(names[key1], names[key2]);
        }
      } else if key1 in names {
        Alias(key2, names[key1]);
      } else if key2 in names {
        Alias(key1, names[key2]);
      }
    }

    /** A further key for a node that is there. */
    method Alias(key: K, idx: nat)
      requires Valid() && key !in names && idx in reprs
      modifies this`names, this`reprs
      ensures Valid() && names == old(names)[key := idx]
    {
      names, reprs := names[key := idx], reprs[idx := reprs[idx] + {key}];
    }

    /** The edges of both old nodes now also start and end at the new one. */
    method CopyAll(fst: nat, snd: nat, n: nat)
      requires Valid() && n in weights
      modifies this`edges
      ensures Valid() && edges == WithIn(WithOut(WithIn(WithOut(old(edges), fst, n), fst, n), snd, n), snd, n)
    {
      hide WithIn, WithOut, Inverse;
      CopyOutgoing(fst, n);
      CopyIncoming(fst, n);
      CopyOutgoing(snd, n);
      CopyIncoming(snd, n);
    }

    /** The keys of both old nodes now name the new one. */
    method Rename(fst: nat, snd: nat, n: nat)
      requires Valid() && n in weights && n != fst && n != snd && n !in reprs
      modifies this`names, this`reprs
      ensures Valid() && fst !in reprs && snd !in reprs
      ensures names == map k | k in old(names) :: Identify(old(names)[k], fst, snd, n)
    {
      hide Inverse;
      ghost var before := names;
      UpdateAllChildrenOfIdxTo(fst, n);
      UpdateAllChildrenOfIdxTo(snd, n);
      assert names == map k | k in before :: Identify(before[k], fst, snd, n);
    }

    method MergeIndices(fst: nat, snd: nat)
      requires Valid() && fst in weights && snd in weights && fst != snd
      modifies this
      ensures Valid() && next == old(next) + 1
      ensures edges == IdentifyEdges(old(edges), fst, snd, old(next))
      ensures weights == old(weights)[old(next) := Operate(ops, old(weights)[fst], old(weights)[snd])] - {fst, snd}
      ensures names == map k | k in old(names) :: Identify(old(names)[k], fst, snd, old(next))
    {
      hide WithIn, WithOut, Inverse, IdentifyEdges;
      var n := next;
      ghost var before := edges;
      weights, next := weights[n := Operate(ops, weights[fst], weights[snd])], n + 1;
      Rename(fst, snd, n);
      CopyAll(fst, snd, n);
      CopiesIdentify(before, fst, snd, n);
      weights := weights - {fst, snd};
      edges := Detached(Detached(edges, fst), snd);
    }

    /**
     * The graph whose node k stands for group k: edges are the image of the edges, bounds are
     * folded over each group, and every key moves to its group.
     */
    method Quotient(groups: Groups) returns (q: MappingGraph<K, T>, home: map<nat, nat>)
      requires Valid() && IsPartition(groups, weights.Keys)
      ensures fresh(q) && q.Valid() && q.ops == ops && q.next == |groups|
      ensures IsHome(groups, home, weights.Keys)
      ensures IsQuotient(home, groups, weights, ops, edges, names, q.weights, q.edges, q.names)
    {
      hide IsHome, IsPartition, Inverse, FoldOf, Image, Enumerates;
      home := Homes(groups, weights.Keys);
      HomeKeys(groups, home, weights.Keys);
      var newWeights := GroupWeights(ops, weights, groups);
      var newEdges := ImageOf(home, edges);
      LiveNames(names, reprs, weights.Keys);
      var newNames := map k | k in names :: home[names[k]];
      QuotientLive(groups, home, weights.Keys, edges, newWeights.Keys);
      q := new MappingGraph(ops);
      q.Fill(newWeights, newEdges, newNames, |groups|);
    }

    /** Makes this graph the given one, with the keys of each node read off the names. */
    method Fill(newWeights: map<nat, Bounds<T>>, newEdges: set<SketchEdge>, newNames: map<K, nat>, size: nat)
      requires forall i | i in newWeights :: i < size
      requires forall e | e in newEdges :: e.src in newWeights && e.dst in newWeights
      requires newNames.Values <= newWeights.Keys
      modifies this
      ensures Valid() && weights == newWeights && edges == newEdges && names == newNames && next == size
    {
      weights, edges, names, next := newWeights, newEdges, newNames, size;
      reprs := map i | i in newNames.Values :: set k | k in newNames && newNames[k] == i;
    }

    /** The part of the graph that can be reached from idx. */
    method GetReachableSubgraph(idx: nat) returns (sub: MappingGraph<K, T>)
      requires Valid() && idx in weights
      ensures fresh(sub) && sub.Valid() && sub.ops == ops
      ensures forall i :: i in sub.weights <==> Reachable(edges, idx, i)
      ensures forall i | i in sub.weights :: i in weights && sub.weights[i] == weights[i]
      ensures sub.edges == set e | e in edges && Reachable(edges, idx, e.src)
      ensures sub.names == map k | k in names && Reachable(edges, idx, names[k]) :: names[k]
    {
      hide Inverse, Reachable;
      var reached := ReachableSet(edges, idx);
      forall i | i in reached ensures i in weights {
        ReachableStaysInside(edges, weights.Keys, idx, i);
      }
      LiveNames(names, reprs, weights.Keys);
      forall e | e in edges && e.src in reached ensures e.dst in reached {
        ReachableStep(edges, idx, e);
      }
      sub := new MappingGraph(ops);
      sub.Fill(map i | i in reached :: weights[i], set e | e in edges && e.src in reached && e.dst in reached,
               map k | k in names && names[k] in reached :: names[k], next);
    }
  }

  lemma LiveNames<K>(names: map<K, nat>, reprs: map<nat, set<K>>, live: set<nat>)
    requires Inverse(names, reprs) && reprs.Keys <= live
    ensures names.Values <= live && forall k | k in names :: names[k] in live
  {
  }

  /** How the parts of a quotient relate to those of the graph it was made from. */
  ghost predicate IsQuotient<K, T>(home: map<nat, nat>, groups: Groups, weights: map<nat, Bounds<T>>, o: Ops<T>,
                                   E: set<SketchEdge>, names: map<K, nat>,
                                   weights': map<nat, Bounds<T>>, E': set<SketchEdge>, names': map<K, nat>)
  {
    && (forall e | e in E :: e.src in home && e.dst in home) && E' == Image(home, E)
    && (forall k | k in names :: names[k] in home) && names' == (map k | k in names :: home[names[k]])
    && IsGroupWeights(o, weights, groups, weights')
  }

  ghost predicate IsGroupWeights<T>(o: Ops<T>, weights: map<nat, Bounds<T>>, groups: Groups,
                                    weights': map<nat, Bounds<T>>) {
    && (forall k | 0 <= k < |groups| ::
         k in weights' && groups[k] <= weights.Keys && FoldOf(o, weights, groups[k], weights'[k]))
    && (forall k | k in weights' :: k < |groups|)
  }

  method GroupWeights<T(!new)>(o: Ops<T>, weights: map<nat, Bounds<T>>, groups: Groups)
    returns (weights': map<nat, Bounds<T>>)
    requires IsPartition(groups, weights.Keys)
    ensures IsGroupWeights(o, weights, groups, weights')
  {
    hide FoldOf, IsPartition, IsGroupWeights;
    weights' := map[];
    NoGroupWeights(o, weights);
    assert groups[..0] == [];
    for k := 0 to |groups|
      invariant IsGroupWeights(o, weights, groups[..k], weights')
    {
      GroupAt(groups, weights.Keys, k);
      var w := FoldGroup(o, weights, groups[k]);
      GroupWeightsAdd(o, weights, groups, weights', k, w);
      weights' := weights'[k := w];
    }
    assert groups[..|groups|] == groups;
  }

  lemma NoGroupWeights<T>(o: Ops<T>, weights: map<nat, Bounds<T>>)
    ensures IsGroupWeights(o, weights, [], map[])
  {
  }

  lemma GroupWeightsAdd<T>(o: Ops<T>, weights: map<nat, Bounds<T>>, groups: Groups, weights': map<nat, Bounds<T>>,
                           k: nat, w: Bounds<T>)
    requires k < |groups| && IsGroupWeights(o, weights, groups[..k], weights')
    requires groups[k] <= weights.Keys && FoldOf(o, weights, groups[k], w)
    ensures IsGroupWeights(o, weights, groups[..k + 1], weights'[k := w])
  {
    hide FoldOf;
    assert forall j | 0 <= j < k :: groups[..k][j] == groups[..k + 1][j];
  }

  lemma QuotientLive(groups: Groups, home: map<nat, nat>, live: set<nat>, E: set<SketchEdge>, live': set<nat>)
    requires IsHome(groups, home, live) && (forall e | e in E :: e.src in live && e.dst in live)
    requires forall k | 0 <= k < |groups| :: k in live'
    ensures forall x | x in live :: x in home && home[x] in live'
    ensures forall e | e in Image(home, E) :: e.src in live' && e.dst in live'
  {
  }
}
