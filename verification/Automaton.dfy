/** The automaton object and its stages (src/solver/constraint_graph.rs, struct FSA). */
module Automaton {
  import opened Graphs
  import opened Constraints
  import opened Derivation
  import opened Pushdown
  import opened Saturation
  import opened SaturationLaws
  import opened PopPush
  import opened FsaGraph
  import opened CycleBreaking
  import opened LoopBreaking

  class Fsa {
    var grph: Graph
    var mp: map<FiniteState, nat>
    var cantPop: map<FiniteState, nat>
    ghost var copies: set<nat>

    /** The automaton of a constraint set, not yet saturated. */
    constructor (ctx: RuleContext, cons: set<Subtype>)
      ensures Built(grph, mp) && cantPop == map[] && copies == {}
      ensures Defs(grph) == InitialEdges(ctx, cons)
      ensures mp.Keys == InitialStates(ctx, cons)
    {
      hide InitialEdges, Endpoints, Built, Defs;
      grph, mp, cantPop, copies := Graph(map[], map[], 0, 0), map[], map[], {};
      NothingBuilt();
      new;
      Fill(InitialEdges(ctx, cons));
    }

    /** Inserts the edges and makes sure the two end states are there. */
    method Fill(edges: set<EdgeDef>)
      requires Built(grph, mp) && mp == map[]
      modifies this`grph, this`mp
      ensures Built(grph, mp) && Defs(grph) == edges
      ensures mp.Keys == Endpoints(edges) + {Start, End}
    {
      assert Defs(grph) == {};
      hide Defs, Endpoints;
      InsertAll(edges);
      var _ := GetOrInsertNd(Start);
      var _ := GetOrInsertNd(End);
    }

    method GetOrInsertNd(nd: FiniteState) returns (idx: nat)
      requires Built(grph, mp)
      modifies this`grph, this`mp
      ensures Built(grph, mp) && Defs(grph) == old(Defs(grph))
      ensures mp.Keys == old(mp.Keys) + {nd} && mp[nd] == idx
      ensures forall s | s in old(mp) :: mp[s] == old(mp)[s]
    {
      if nd in mp {
        idx := mp[nd];
      } else {
        idx := grph.nextNode;
        AddNodeDefs(grph, nd);
        grph := grph.AddNode(nd);
        mp := mp[nd := idx];
      }
    }

    method InsertEdge(e: EdgeDef)
      requires Built(grph, mp)
      modifies this`grph, this`mp
      ensures Built(grph, mp) && Defs(grph) == old(Defs(grph)) + {e}
      ensures mp.Keys == old(mp.Keys) + {e.src, e.dst}
    {
      var a := GetOrInsertNd(e.src);
      var b := GetOrInsertNd(e.dst);
      AddEdgeDefs(grph, a, e.lab, b);
      grph := grph.AddEdge(a, e.lab, b);
    }

    method InsertAll(edges: set<EdgeDef>)
      requires Built(grph, mp)
      modifies this`grph, this`mp
      ensures Built(grph, mp) && Defs(grph) == old(Defs(grph)) + edges
      ensures mp.Keys == old(mp.Keys) + Endpoints(edges)
    {
      hide Defs, Endpoints;
      var todo := edges;
      EndpointsNone();
      assert edges - todo == {};
      while todo != {}
        invariant todo <= edges && Built(grph, mp)
        invariant Defs(grph) == old(Defs(grph)) + (edges - todo)
        invariant mp.Keys == old(mp.Keys) + Endpoints(edges - todo)
      {
        var e :| e in todo;
        EndpointsAdd(edges - todo, e);
        assert edges - (todo - {e}) == (edges - todo) + {e};
        InsertEdge(e);
        todo := todo - {e};
      }
      assert edges - todo == edges;
    }

    /** False stands for the panic of a failed lookup during saturation. */
    method Saturate() returns (ok: bool, ghost E: set<EdgeDef>, ghost F: set<Fact>)
      requires Built(grph, mp)
      modifies this`grph, this`mp
      ensures (forall s | s in old(mp) :: s.Not() in old(mp)) ==> ok
      ensures ok ==> Built(grph, mp) && mp.Keys == old(mp.Keys)
      ensures ok ==> IsSaturation(old(Defs(grph)), E, F) && E == old(Defs(grph)) + Matches(E, F)
      ensures ok ==> Defs(grph) == SaturatedEdges(old(Defs(grph)), E, F)
    {
      var E0 := Defs(grph);
      assert Endpoints(E0) <= mp.Keys;
      var more;
      more, E, F := GetSaturationEdges(mp.Keys, E0);
      if more.None? {
        return false, E, F;
      }
      EndpointsBounded(mp.Keys, E0, E, F, more.value);
      InsertAll(more.value);
      ok := true;
    }

    method AddCantPopNode(st: FiniteState) returns (idx: nat)
      requires Split(grph, mp, cantPop, copies)
      modifies this`grph, this`cantPop, this`copies
      ensures Split(grph, mp, cantPop, copies) && Extends(old(grph), old(copies), grph, copies)
      ensures grph.edges == old(grph).edges && Placed(grph, copies) == old(Placed(grph, copies))
      ensures st in cantPop && cantPop[st] == idx && idx in copies && grph.nodes[idx] == st
      ensures cantPop.Keys == old(cantPop.Keys) + {st}
    {
      hide Placed, Split, Extends;
      SplitCopy(grph, mp, cantPop, copies, st);
      if st in cantPop {
        idx := cantPop[st];
      } else {
        idx := grph.nextNode;
        AddNodePlaced(grph, copies, st, {idx});
        AddCopyKeeps(grph, mp, cantPop, copies, st);
        grph := grph.AddNode(st);
        cantPop := cantPop[st := idx];
        copies := copies + {idx};
      }
    }

    /** The copied nodes of both ends of an edge. */
    method AddCantPopNodes(a: FiniteState, b: FiniteState) returns (na: nat, nb: nat)
      requires Split(grph, mp, cantPop, copies)
      modifies this`grph, this`cantPop, this`copies
      ensures Split(grph, mp, cantPop, copies) && Extends(old(grph), old(copies), grph, copies)
      ensures grph.edges == old(grph).edges && cantPop.Keys == old(cantPop.Keys) + {a, b}
      ensures na in copies && na in grph.nodes && grph.nodes[na] == a
      ensures nb in copies && nb in grph.nodes && grph.nodes[nb] == b
    {
      na := AddCantPopNode(a);
      nb := AddCantPopNode(b);
    }

    /** The loop body of the source for the edge with id k. */
    method IntersectEdge(k: nat)
      requires Split(grph, mp, cantPop, copies) && k in grph.edges
      requires grph.edges[k].src !in copies && grph.edges[k].dst !in copies && cantPop.Keys <= mp.Keys
      modifies this`grph, this`cantPop, this`copies
      ensures Split(grph, mp, cantPop, copies) && Extends(old(grph), old(copies), grph, copies)
      ensures cantPop.Keys <= mp.Keys
      ensures Intersects(old(grph), grph, copies, k, old(Def(grph, grph.edges[k])))
    {
      hide Intersects, IntersectAt, Placed, Split, Extends;
      EdgeEndsInMap(grph, mp, cantPop, copies, k);
      var edge := grph.edges[k];
      var nsrc, ndst := 0, 0;
      if edge.lab.Push? || edge.lab.Success? {
        nsrc, ndst := AddCantPopNodes(grph.nodes[edge.src], grph.nodes[edge.dst]);
      }
      IntersectAtKeeps(old(grph), old(copies), grph, mp, cantPop, copies, k, nsrc, ndst);
      grph := IntersectAt(grph, k, nsrc, ndst);
    }

    /**
     * Keeps, of all paths, those whose pops come before their pushes. The edge ids are collected
     * before the loop, as edges come and go while it runs.
     */
    method IntersectWithPopPush()
      requires Built(grph, mp) && cantPop == map[] && copies == {}
      modifies this`grph, this`cantPop, this`copies
      ensures Split(grph, mp, cantPop, copies) && End in cantPop && cantPop.Keys <= mp.Keys + {End}
      ensures Placed(grph, copies) == Intersected(old(Defs(grph)))
    {
      ghost var g0 := grph;
      var todo := grph.edges.Keys;
      ghost var done: set<EdgeDef> := {};
      HalfwayStart(g0, mp);
      hide Halfway, Split, Intersects, Extends, Placed, Intersected, Defs;
      while todo != {}
        invariant Split(grph, mp, cantPop, copies) && Halfway(g0, grph, copies, todo, done)
        invariant cantPop.Keys <= mp.Keys
      {
        var k :| k in todo;
        ghost var g1, c1 := grph, copies;
        HalfwayReady(g0, grph, copies, todo, done, k);
        IntersectEdge(k);
        HalfwayStep(g0, g1, c1, grph, copies, k, todo, done);
        todo, done := todo - {k}, done + {Def(g0, g0.edges[k])};
      }
      HalfwayEnd(g0, grph, copies, done);
      if End !in cantPop {
        var _ := AddCantPopNode(End);
      }
    }

    /**
     * Drops every node that is not both reachable from the start and able to reach the end; the
     * two ends stay. No word from the start to the end is lost or gained.
     */
    method RemoveUnreachable() returns (ghost kept: set<nat>)
      requires grph.Wf() && Start in mp && mp[Start] in grph.nodes && End in cantPop && cantPop[End] in grph.nodes
      modifies this`grph
      ensures grph.Wf() && grph == Keep(old(grph), kept)
      ensures forall x | x in old(grph).nodes :: x in kept <==>
                x == mp[Start] || x == cantPop[End]
                || (Reachable(old(grph).Arcs(), mp[Start], x) && Reachable(old(grph).Arcs(), x, cantPop[End]))
      ensures SameWords(old(grph), grph, mp[Start], cantPop[End])
    {
      var s, t := mp[Start], cantPop[End];
      var g0 := grph;
      var fromStart := ReachableSet(g0.Arcs(), s);
      var fromEnd := ReachableSet(Reverse(g0.Arcs()), t);
      var reachable := fromStart * fromEnd + {s, t};
      kept := g0.nodes.Keys;
      var todo := g0.nodes.Keys - reachable;
      KeepAll(g0);
      while todo != {}
        invariant todo <= g0.nodes.Keys && kept == g0.nodes.Keys * reachable + todo && grph == Keep(g0, kept)
      {
        var n :| n in todo;
        RemoveNodeKeep(g0, kept, n);
        grph := grph.RemoveNode(n);
        todo, kept := todo - {n}, kept - {n};
      }
      KeepArcs(g0, kept);
      KeptReachable(g0, s, t, fromStart, fromEnd, kept);
    }

    /** b is the breaking of cycles as far as it has got. */
    ghost predicate Follows(b: Breaking)
      reads this
    {
      b.Valid() && b.g == grph && b.mp == mp && b.cantPop == cantPop && b.copies == copies
    }

    /** Splits a node into the entry and the exit of a loop breaker. */
    method ReplaceNodesWithInterestingVariable(n: nat, tv: TypeVariable, ghost b: Breaking) returns (ghost b': Breaking)
      requires Follows(b) && Splittable(b, n, tv)
      modifies this
      ensures n in b.g.nodes && b.g.nodes[n].Tv? && Follows(b') && b' == AfterSplit(b, n, tv, grph)
      ensures Extended(b.g, grph)
    {
      hide Breaking.Valid, Splittable, Extended, Root;
      grph, mp, cantPop, b' := BreakNode(grph, mp, cantPop, n, tv, b);
      copies := b'.copies;
    }

    /**
     * The nodes for a state and its opposite, in the original and in the copy: of the nodes that
     * the maps find, exactly those that are labelled with one of the two.
     */
    method GetEquivNodeIdxs(idx: nat) returns (eq: set<nat>)
      requires idx in grph.nodes
      ensures IsClass(mp, cantPop, grph.nodes[idx], eq)
      ensures forall lab | Indexed(grph, mp, cantPop, lab) :: forall i | i in lab ::
                i in eq <==> lab[i] == grph.nodes[idx] || lab[i] == grph.nodes[idx].Not()
    {
      var fs := grph.nodes[idx];
      eq := {};
      if fs.Not() in mp { eq := eq + {mp[fs.Not()]}; }
      if fs in mp { eq := eq + {mp[fs]}; }
      if fs.Not() in cantPop { eq := eq + {cantPop[fs.Not()]}; }
      if fs in cantPop { eq := eq + {cantPop[fs]}; }
      assert IsClass(mp, cantPop, fs, eq);
      hide IsClass, Indexed;
      forall lab | Indexed(grph, mp, cantPop, lab)
        ensures forall i | i in lab :: i in eq <==> lab[i] == fs || lab[i] == fs.Not()
      {
        ClassIsLabelled(grph, mp, cantPop, lab, fs, eq);
      }
    }

    /** Replaces idx and its equivalents by one fresh loop breaker, whose meaning is their state's. */
    method BreakAt(idx: nat, vman: VariableManager, removed: set<nat>, ghost b: Breaking)
      returns (removed': set<nat>, ghost b': Breaking)
      requires Follows(b) && b.WholeClasses() && b.removed == removed && b.k == vman.currId
      requires idx in b.g0.nodes && b.g0.nodes[idx].Tv? && idx !in removed
      modifies this, vman
      ensures Follows(b') && b'.WholeClasses() && Proceeds(b, b') && b'.removed == removed' && b'.k == vman.currId
      ensures idx in removed' && b'.k == b.k + 1 && b'.bk.name == WithName(b, idx, Breaker(b.k)).bk.name
      ensures b'.th == b.th[Breaker(b.k) := Root(b.th, b.g0.nodes[idx])]
    {
      hide Breaking.Valid, Root, IsClass, Indexed, Renamed, NamesPaired, ReplacedBut;
      BreakingFacts(b);
      var tv := vman.FreshLoopBreaker();
      ghost var fs := b.g0.nodes[idx];
      NamedIsValid(b, idx, tv);
      b' := WithName(b, idx, tv);
      var eq := GetEquivNodeIdxs(idx);
      ClassToReplace(b, idx, tv, eq);
      ghost var b0 := b';
      removed' := removed;
      var todo := eq;
      while todo != {}
        invariant todo <= eq && Follows(b') && Replacing(b0, b', tv, fs, todo)
        invariant b'.removed == removed' && removed + (eq - todo) <= removed' && b'.k == vman.currId
      {
        var i :| i in todo;
        if i in grph.nodes {
          ReadyToSplit(b0, b', tv, fs, todo, i);
          ghost var b1 := ReplaceNodesWithInterestingVariable(i, tv, b');
          ReplacingSplit(b0, b', tv, fs, todo, i, grph);
          b' := b1;
        } else {
          ReplacingGone(b0, b', tv, fs, todo, i);
          b' := b'.(removed := removed' + {i});
        }
        removed', todo := removed' + {i}, todo - {i};
      }
      assert eq - todo == eq;
    }

    /** Breaks one component at a prefix-minimal entry; neither of the source's two panics can happen. */
    method BreakScc(scc: set<nat>, vman: VariableManager, removed: set<nat>, ghost b: Breaking)
      returns (removed': set<nat>, ghost b': Breaking, ghost idx: nat)
      requires Follows(b) && b.WholeClasses() && b.removed == removed && b.k == vman.currId
      requires MeaningsOf(b.th, b.k0, b.k) && Breakable(b.g0.nodes, scc) && !Touches(scc, removed)
      requires NamesOnCycles(b.g0, b.bk) && AllOnCycles(b.g0, scc)
      modifies this, vman
      ensures Follows(b') && b'.WholeClasses() && Proceeds(b, b') && b'.removed == removed' && b'.k == vman.currId
      ensures MeaningsOf(b'.th, b'.k0, b'.k) && idx in scc && idx in removed' && idx in b.g0.nodes
      ensures IsEntryRepr(b.g, scc, idx) && NamesOnCycles(b'.g0, b'.bk)
    {
      hide Breaking.Valid, Breaking.WholeClasses, Root, Indexed, OnBigCycle, NamesOnCycles, Renamed;
      BreakingFacts(b);
      EntriesExist(b, scc);
      var entries := Entries(grph, scc);
      var repr := SelectAnEntryRepr(grph.nodes, entries);
      SelectedIsEntryRepr(grph, scc, repr);
      removed', b' := BreakAt(repr, vman, removed, b);
      NamesOnCyclesAdd(b, repr, Breaker(b.k));
      SameNamesOnCycles(b.g0, WithName(b, repr, Breaker(b.k)).bk, b'.bk);
      idx := repr;
    }

    /** One pass over the components found at its start; those touched meanwhile are skipped. */
    method BreakSccs(sccs: seq<set<nat>>, vman: VariableManager, removed: set<nat>, ghost b: Breaking)
      returns (removed': set<nat>, didChange: bool, ghost b': Breaking)
      requires Follows(b) && b.WholeClasses() && b.removed == removed && b.k == vman.currId
      requires MeaningsOf(b.th, b.k0, b.k)
      requires BigBreakable(b.g0, sccs) && NamesOnCycles(b.g0, b.bk)
      modifies this, vman
      ensures Follows(b') && b'.WholeClasses() && Proceeds(b, b') && b'.removed == removed' && b'.k == vman.currId
      ensures MeaningsOf(b'.th, b'.k0, b'.k) && NamesOnCycles(b'.g0, b'.bk)
      ensures didChange ==> exists x :: x in b.g0.nodes && x in removed' && x !in removed
      ensures !didChange ==> b' == b
      ensures (forall j | 0 <= j < |sccs| :: |sccs[j]| == 1) ==> !didChange
      ensures !didChange ==> forall j | 0 <= j < |sccs| :: |sccs[j]| == 1 || Touches(sccs[j], removed)
    {
      hide Breaking.Valid, Breaking.WholeClasses, MeaningsOf, Breakable, NamesOnCycles, AllOnCycles;
      removed', didChange, b' := removed, false, b;
      for i := 0 to |sccs|
        invariant Follows(b') && b'.WholeClasses() && Proceeds(b, b') && b'.removed == removed' && b'.k == vman.currId
        invariant MeaningsOf(b'.th, b'.k0, b'.k) && NamesOnCycles(b'.g0, b'.bk)
        invariant didChange ==> exists x :: x in b.g0.nodes && x in removed' && x !in removed
        invariant !didChange ==> b' == b
        invariant (forall j | 0 <= j < |sccs| :: |sccs[j]| == 1) ==> !didChange
        invariant !didChange ==> forall j | 0 <= j < i :: |sccs[j]| == 1 || Touches(sccs[j], removed)
      {
        if !Touches(sccs[i], removed') && |sccs[i]| != 1 {
          ghost var idx;
          removed', b', idx := BreakScc(sccs[i], vman, removed', b');
          didChange := true;
          assert idx in b.g0.nodes && idx in removed' && idx !in removed;
        }
      }
    }

    /**
     * Terminates, and leaves no cycle through two or more nodes. Every edge of the result is one
     * that was there before, moved to the loop breakers that took the place of its ends, or an
     * edge of a loop breaker; a node was replaced exactly when its state, and so its opposite, has
     * been given a loop breaker, and only states on cycles through two or more nodes are given one.
     */
    method GenerateRecursiveTypeVariables(vman: VariableManager, ghost b: Breaking) returns (ghost b': Breaking)
      requires Follows(b) && Begins(b) && b.k == vman.currId
      modifies this, vman
      ensures Follows(b') && b'.WholeClasses() && Proceeds(b, b') && b'.k == vman.currId
      ensures MeaningsOf(b'.th, old(vman.currId), vman.currId) && NoBigCycle(grph) && NamesOnCycles(b'.g0, b'.bk)
      ensures NoBigCycle(b.g) ==> b' == b
    {
      hide Breaking.Valid, Breaking.WholeClasses, MeaningsOf, NoBigCycle, BigBreakable, SccsOf, Touches,
           NamesOnCycles;
      var gone: set<nat> := {};
      b' := b;
      var didChange := true;
      NothingReplaced(b);
      while didChange
        invariant Follows(b') && b'.WholeClasses() && Proceeds(b, b') && b'.removed == gone && b'.k == vman.currId
        invariant MeaningsOf(b'.th, b'.k0, b'.k) && NamesOnCycles(b'.g0, b'.bk)
        invariant !didChange ==> NoBigCycle(grph)
        invariant NoBigCycle(b.g) ==> b' == b
        decreases b.g0.nodes.Keys - gone, didChange
      {
        var sccs := StronglyConnectedComponents(grph);
        BigSccsBreakable(b', sccs);
        ghost var before := gone;
        if NoBigCycle(grph) {
          SingletonSccs(grph, sccs);
        }
        gone, didChange, b' := BreakSccs(sccs, vman, gone, b');
        if didChange {
          ghost var x :| x in b.g0.nodes && x in gone && x !in before;
          assert x in b.g0.nodes.Keys - before && x !in b.g0.nodes.Keys - gone;
        } else {
          SmallAtEnd(b', sccs);
        }
      }
    }
  }

  lemma NothingBuilt()
    ensures Built(Graph(map[], map[], 0, 0), map[]) && Graph(map[], map[], 0, 0).Wf()
  {
  }

  lemma SingletonSccs(g: Graph, sccs: seq<set<nat>>)
    requires SccsOf(g, sccs) && NoBigCycle(g)
    ensures forall j | 0 <= j < |sccs| :: |sccs[j]| == 1
  {
    forall j | 0 <= j < |sccs| ensures |sccs[j]| == 1 {
      SccNonEmpty(g, sccs[j]);
      var x :| x in sccs[j];
      assert IsScc(g, sccs[j]);
      forall y | y in sccs[j] ensures y == x {
        SccMutual(g, sccs[j], x, y);
      }
      assert sccs[j] == {x};
    }
  }

  lemma SmallAtEnd(b: Breaking, sccs: seq<set<nat>>)
    requires b.Valid() && SccsOf(b.g, sccs)
    requires forall j | 0 <= j < |sccs| :: |sccs[j]| == 1 || Touches(sccs[j], b.removed)
    ensures NoBigCycle(b.g)
  {
    hide Breaking.Valid, Isolated, SccsOf, NoBigCycle;
    BreakingFacts(b);
    SmallSccs(b.g, sccs, b.removed);
  }

  lemma KeptReachable(g0: Graph, s: nat, t: nat, fromStart: set<nat>, fromEnd: set<nat>, kept: set<nat>)
    requires g0.Wf() && s in g0.nodes && t in g0.nodes
    requires forall x :: x in fromStart <==> Reachable(g0.Arcs(), s, x)
    requires forall x :: x in fromEnd <==> Reachable(Reverse(g0.Arcs()), t, x)
    requires kept == g0.nodes.Keys * (fromStart * fromEnd + {s, t})
    ensures forall x | x in g0.nodes :: x in kept <==>
              x == s || x == t || (Reachable(g0.Arcs(), s, x) && Reachable(g0.Arcs(), x, t))
    ensures SameWords(g0, Keep(g0, kept), s, t)
  {
    var A, B := g0.Arcs(), Keep(g0, kept).Arcs();
    KeepArcs(g0, kept);
    forall x ensures Reachable(Reverse(A), t, x) <==> Reachable(A, x, t) {
      ReachableReverse(A, x, t);
    }
    forall e | e in A && Reachable(A, s, e.src) && Reachable(A, e.dst, t) ensures e in B {
      ReachableStep(A, s, e);
      ReachableSelf(A, e.src);
      ReachableStep(A, e.src, e);
      ReachableTransitive(A, e.src, e.dst, t);
    }
    forall w ensures t in Run(B, {s}, w) <==> t in Run(A, {s}, w) {
      TrimKeepsWords(A, B, s, t, w);
    }
  }

  lemma EndpointsBounded(nodes: set<FiniteState>, E0: set<EdgeDef>, E: set<EdgeDef>, F: set<Fact>, edges: set<EdgeDef>)
    requires Bounded(nodes, E0, E, F) && edges <= E
    ensures Endpoints(edges) <= nodes
  {
    forall e | e in edges ensures e.src in nodes && e.dst in nodes {
      BoundedEdge(nodes, E0, E, F, e);
    }
  }

  lemma EndpointsNone()
    ensures Endpoints({}) == {}
  {
  }

  lemma EndpointsAdd(edges: set<EdgeDef>, e: EdgeDef)
    ensures Endpoints(edges + {e}) == Endpoints(edges) + {e.src, e.dst}
  {
    forall s | s in Endpoints(edges) ensures s in Endpoints(edges + {e}) {
      var d :| d in edges && (s == d.src || s == d.dst);
      assert d in edges + {e};
    }
    assert e in edges + {e};
  }
}
