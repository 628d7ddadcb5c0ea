/**
 * What replacing a node by a pair of fresh loop-breaker nodes does to the automaton
 * (src/solver/constraint_graph.rs, replace_nodes_with_interesting_variable and
 * generate_recursive_type_variables), on graphs as values.
 */
module CycleBreaking {
  import opened Graphs
  import opened Constraints
  import opened Pushdown
  import opened PopPush
  import opened SaturationLaws
  import opened FsaGraph

  // ----- invariants of the automaton while cycles are broken -----

  /** Every edge is a consequence of the constraints once loop breakers get their meaning. */
  ghost predicate Sound(C: set<Subtype>, th: Meaning, g: Graph)
    requires g.Wf()
  {
    forall e | e in g.Arcs() :: e.src in g.nodes && e.dst in g.nodes && EdgeSound(C, th, Def(g, e))
  }

  /** A push leads into the copy, and the copy is never left and pops nothing. */
  ghost predicate Zoned(g: Graph, copies: set<nat>) {
    forall e | e in g.Arcs() ::
           (e.lab.Push? ==> e.dst in copies) && (e.src in copies ==> e.dst in copies && !e.lab.Pop?)
  }

  predicate OldVar(tv: TypeVariable, k: nat) {
    tv.name.LoopBreaker? ==> tv.name.id < k
  }

  predicate OldState(st: FiniteState, k: nat) {
    st.Tv? ==> OldVar(st.base.tv, k)
  }

  predicate OldWeight(w: FsaEdge, k: nat) {
    (w.Push? || w.Pop?) && w.sym.Var? ==> OldVar(w.sym.tv, k)
  }

  /** No loop breaker numbered k or later occurs. */
  ghost predicate Older(g: Graph, k: nat) {
    (forall i | i in g.nodes :: OldState(g.nodes[i], k)) && (forall e | e in g.Arcs() :: OldWeight(e.lab, k))
  }

  ghost predicate FromStart(g: Graph, s: nat, live: set<nat>) {
    forall x | x in live :: Reachable(g.Arcs(), s, x)
  }

  /** A node that was not there at first has edges only from the start, or only to the end. */
  ghost predicate Breakers(g: Graph, s: nat, t: nat, orig: set<nat>) {
    forall i | i in g.nodes && i !in orig ::
      (forall e | e in g.Arcs() && e.dst == i :: e.src == s) || (forall e | e in g.Arcs() && e.src == i :: e.dst == t)
  }

  ghost predicate Isolated(g: Graph, removed: set<nat>) {
    && (forall r | r in removed :: r < g.nextNode)
    && (forall e | e in g.Arcs() :: e.src !in removed && e.dst !in removed)
  }

  // ----- one replacement -----

  function Redirect(e: IdEdge, n: nat, entry: nat, exit: nat): IdEdge {
    Arc(if e.src == n then entry else e.src, e.lab, if e.dst == n then exit else e.dst)
  }

  function BreakerEdges(tv: TypeVariable, sign: Variance, s: nat, t: nat, entry: nat, exit: nat): set<IdEdge> {
    {Arc(s, Pop(Var(tv, Lhs, sign)), entry), Arc(exit, Push(Var(tv, Rhs, sign)), t)}
  }

  function RedirectedArcs(A: set<IdEdge>, n: nat, entry: nat, exit: nat): set<IdEdge> {
    set e | e in A :: Redirect(e, n, entry, exit)
  }

  /** n's incoming edges now end at a fresh exit, its outgoing edges start at a fresh entry. */
  ghost predicate Replacement(g: Graph, g': Graph, n: nat, tv: TypeVariable, s: nat, t: nat) {
    && g.Wf() && g'.Wf()
    && n in g.nodes && s in g.nodes && t in g.nodes && n != s && n != t && s != t && g.nodes[n].Tv?
    && var entry, exit, sign := g.nextNode, g.nextNode + 1, g.nodes[n].variance;
      && g'.nextNode == g.nextNode + 2
      && g'.nodes == g.nodes[entry := Tv(Interesting(tv, Lhs), sign, [])][exit := Tv(Interesting(tv, Rhs), sign, [])]
      && g'.Arcs() == RedirectedArcs(g.Arcs(), n, entry, exit) + BreakerEdges(tv, sign, s, t, entry, exit)
  }

  lemma MovedTwice(A: set<IdEdge>, n: nat, tv: TypeVariable, sign: Variance, s: nat, t: nat, entry: nat, exit: nat)
    requires n != s && n != t && n != entry && n != exit && entry != exit
    ensures MovedArcs(MovedArcs(A + BreakerEdges(tv, sign, s, t, entry, exit), n, exit, true), n, entry, false)
         == RedirectedArcs(A, n, entry, exit) + BreakerEdges(tv, sign, s, t, entry, exit)
  {
    var B := BreakerEdges(tv, sign, s, t, entry, exit);
    forall e ensures Moved(Moved(e, n, exit, true), n, entry, false) == Redirect(e, n, entry, exit) {
    }
    forall b | b in B ensures Redirect(b, n, entry, exit) == b {
    }
    var once := MovedArcs(A + B, n, exit, true);
    forall a | a in RedirectedArcs(A, n, entry, exit) + B ensures a in MovedArcs(once, n, entry, false) {
      var e :| e in A + B && a == Redirect(e, n, entry, exit);
      assert Moved(e, n, exit, true) in once;
    }
  }

  lemma AddedArcs(g: Graph, a: nat, w: FsaEdge, b: nat)
    requires g.Wf() && a in g.nodes && b in g.nodes
    ensures g.AddEdge(a, w, b).Wf() && g.AddEdge(a, w, b).Arcs() == g.Arcs() + {Arc(a, w, b)}
  {
    var g' := g.AddEdge(a, w, b);
    forall e | e in g.Arcs() ensures e in g'.Arcs() {
      var k :| k in g.edges && g.edges[k] == e;
      assert g'.edges[k] == e;
    }
    assert g'.edges[g.nextEdge] == Arc(a, w, b);
  }

  /** The graph part of replace_nodes_with_interesting_variable. */
  method ReplaceInGraph(g: Graph, n: nat, tv: TypeVariable, s: nat, t: nat) returns (g': Graph)
    requires g.Wf() && n in g.nodes && s in g.nodes && t in g.nodes && n != s && n != t && s != t && g.nodes[n].Tv?
    ensures Replacement(g, g', n, tv, s, t)
  {
    hide MovedArcs, RedirectedArcs;
    var sign := g.nodes[n].variance;
    var entry, exit := g.nextNode, g.nextNode + 1;
    var h := g.AddNode(EntryState(tv, g.nodes[n])).AddNode(ExitState(tv, g.nodes[n]));
    assert h.Arcs() == g.Arcs();
    AddedArcs(h, s, Pop(Var(tv, Lhs, sign)), entry);
    var h1 := h.AddEdge(s, Pop(Var(tv, Lhs, sign)), entry);
    AddedArcs(h1, exit, Push(Var(tv, Rhs, sign)), t);
    var h2 := h1.AddEdge(exit, Push(Var(tv, Rhs, sign)), t);
    assert h2.Arcs() == g.Arcs() + BreakerEdges(tv, sign, s, t, entry, exit);
    g' := MoveEdges(h2, n, exit, true);
    g' := MoveEdges(g', n, entry, false);
    MovedTwice(g.Arcs(), n, tv, sign, s, t, entry, exit);
  }

  /** Each edge after the replacement is a breaker edge or comes from an edge before it. */
  lemma ReplacedEdge(g: Graph, g': Graph, n: nat, tv: TypeVariable, s: nat, t: nat, a: IdEdge) returns (e: IdEdge)
    requires Replacement(g, g', n, tv, s, t) && a in g'.Arcs()
    ensures var entry, exit := g.nextNode, g.nextNode + 1;
            a in BreakerEdges(tv, g.nodes[n].variance, s, t, entry, exit)
            || (e in g.Arcs() && e.src in g.nodes && e.dst in g.nodes && a == Redirect(e, n, entry, exit))
  {
    e := a;
    if a !in BreakerEdges(tv, g.nodes[n].variance, s, t, g.nextNode, g.nextNode + 1) {
      e :| e in g.Arcs() && a == Redirect(e, n, g.nextNode, g.nextNode + 1);
    }
  }

  lemma SoundReplacement(C: set<Subtype>, th: Meaning, g: Graph, g': Graph, n: nat, tv: TypeVariable, s: nat, t: nat)
    requires Replacement(g, g', n, tv, s, t) && Sound(C, th, g)
    requires g.nodes[s] == Start && g.nodes[t] == End && MeaningOf(th, tv) == Root(th, g.nodes[n])
    ensures Sound(C, th, g')
  {
    var entry, exit := g.nextNode, g.nextNode + 1;
    assert entry !in g.nodes && exit !in g.nodes;
    assert MeaningOf(th, tv).Extend([]) == MeaningOf(th, tv);
    forall a | a in g'.Arcs() ensures a.src in g'.nodes && a.dst in g'.nodes && EdgeSound(C, th, Def(g', a)) {
      var e := ReplacedEdge(g, g', n, tv, s, t, a);
      if a !in BreakerEdges(tv, g.nodes[n].variance, s, t, entry, exit) {
        SameMeaning(C, th, Def(g, e), Def(g', a));
      }
    }
  }

  /** An edge stays sound when its ends are exchanged for states of equal meaning and sign. */
  lemma SameMeaning(C: set<Subtype>, th: Meaning, e: EdgeDef, f: EdgeDef)
    requires EdgeSound(C, th, e) && e.lab == f.lab
    requires f.src == e.src
             || (f.src.Tv? && e.src.Tv? && f.src.variance == e.src.variance && Root(th, f.src) == Root(th, e.src))
    requires f.dst == e.dst
             || (f.dst.Tv? && e.dst.Tv? && f.dst.variance == e.dst.variance && Root(th, f.dst) == Root(th, e.dst))
    ensures EdgeSound(C, th, f)
  {
    hide Flows, Root;
  }

  lemma SameRoots(C: set<Subtype>, th: Meaning, th': Meaning, e: EdgeDef, k: nat)
    requires EdgeSound(C, th, e) && OldState(e.src, k) && OldState(e.dst, k) && OldWeight(e.lab, k)
    requires forall v | OldVar(v, k) :: MeaningOf(th', v) == MeaningOf(th, v)
    ensures EdgeSound(C, th', e)
  {
    assert e.src.Tv? ==> Root(th', e.src) == Root(th, e.src);
    assert e.dst.Tv? ==> Root(th', e.dst) == Root(th, e.dst);
    hide Flows, Root;
  }

  /** Giving a meaning to a variable that does not occur changes nothing. */
  lemma SoundExtend(C: set<Subtype>, th: Meaning, g: Graph, tv: TypeVariable, d: Dtv, k: nat)
    requires g.Wf() && Sound(C, th, g) && Older(g, k) && !OldVar(tv, k)
    ensures Sound(C, th[tv := d], g)
  {
    var th' := th[tv := d];
    forall e | e in g.Arcs() ensures EdgeSound(C, th', Def(g, e)) {
      SameRoots(C, th, th', Def(g, e), k);
    }
  }

  lemma ZonedReplacement(g: Graph, g': Graph, n: nat, tv: TypeVariable, s: nat, t: nat, copies: set<nat>)
    requires Replacement(g, g', n, tv, s, t) && Zoned(g, copies) && s !in copies && t in copies
    requires forall i | i in copies :: i < g.nextNode
    ensures Zoned(g', copies + Zone(copies, n, g.nextNode, g.nextNode + 1))
  {
    var copies' := copies + Zone(copies, n, g.nextNode, g.nextNode + 1);
    forall a | a in g'.Arcs()
      ensures (a.lab.Push? ==> a.dst in copies') && (a.src in copies' ==> a.dst in copies' && !a.lab.Pop?)
    {
      var e := ReplacedEdge(g, g', n, tv, s, t, a);
    }
  }

  lemma OlderReplacement(g: Graph, g': Graph, n: nat, tv: TypeVariable, s: nat, t: nat, k: nat)
    requires Replacement(g, g', n, tv, s, t) && Older(g, k) && OldVar(tv, k)
    ensures Older(g', k)
  {
    forall a | a in g'.Arcs() ensures OldWeight(a.lab, k) {
      var e := ReplacedEdge(g, g', n, tv, s, t, a);
    }
  }

  lemma IsolatedReplacement(g: Graph, g': Graph, n: nat, tv: TypeVariable, s: nat, t: nat, removed: set<nat>)
    requires Replacement(g, g', n, tv, s, t) && Isolated(g, removed) && s !in removed && t !in removed
    ensures Isolated(g', removed + {n})
  {
    forall a | a in g'.Arcs() ensures a.src !in removed + {n} && a.dst !in removed + {n} {
      var e := ReplacedEdge(g, g', n, tv, s, t, a);
    }
  }

  lemma BreakersReplacement(g: Graph, g': Graph, n: nat, tv: TypeVariable, s: nat, t: nat, orig: set<nat>)
    requires Replacement(g, g', n, tv, s, t) && Breakers(g, s, t, orig) && s in orig && t in orig
    ensures Breakers(g', s, t, orig)
  {
    forall i | i in g'.nodes && i !in orig
      ensures (forall a | a in g'.Arcs() && a.dst == i :: a.src == s)
              || (forall a | a in g'.Arcs() && a.src == i :: a.dst == t)
    {
      if i == g.nextNode || (i in g.nodes && forall e | e in g.Arcs() && e.dst == i :: e.src == s) {
        forall a | a in g'.Arcs() && a.dst == i ensures a.src == s {
          var e := ReplacedEdge(g, g', n, tv, s, t, a);
        }
      } else {
        forall a | a in g'.Arcs() && a.src == i ensures a.dst == t {
          var e := ReplacedEdge(g, g', n, tv, s, t, a);
        }
      }
    }
  }

  /** Whatever the start reached, it still reaches, except the node that was replaced. */
  lemma FromStartReplacement(g: Graph, g': Graph, n: nat, tv: TypeVariable, s: nat, t: nat, live: set<nat>)
    requires Replacement(g, g', n, tv, s, t) && FromStart(g, s, live)
    ensures FromStart(g', s, live - {n})
  {
    var A, A' := g.Arcs(), g'.Arcs();
    var entry, exit, sign := g.nextNode, g.nextNode + 1, g.nodes[n].variance;
    var I := set x | x in g.nodes && (x == n || Reachable(A', s, x));
    ReachableSelf(A', s);
    ReachableStep(A', s, Arc(s, Pop(Var(tv, Lhs, sign)), entry));
    forall e | e in A && e.src in I ensures e.dst in I {
      if e.dst != n {
        assert Redirect(e, n, entry, exit) in A';
        ReachableStep(A', s, Redirect(e, n, entry, exit));
      }
    }
    forall x | x in live - {n} ensures Reachable(A', s, x) {
      ReachableStaysInside(A, I, s, x);
    }
  }

  // ----- strongly connected components -----

  ghost predicate Mutual(g: Graph, x: nat, y: nat) {
    Reachable(g.Arcs(), x, y) && Reachable(g.Arcs(), y, x)
  }

  ghost predicate IsScc(g: Graph, S: set<nat>) {
    exists x :: x in S && x in g.nodes && forall y :: y in S <==> y in g.nodes && Mutual(g, x, y)
  }

  lemma SccMutual(g: Graph, S: set<nat>, x: nat, y: nat)
    requires IsScc(g, S) && x in S && y in S
    ensures Mutual(g, x, y)
  {
    var z :| z in S && z in g.nodes && forall y :: y in S <==> y in g.nodes && Mutual(g, z, y);
    ReachableTransitive(g.Arcs(), x, z, y);
    ReachableTransitive(g.Arcs(), y, z, x);
  }

  /** Following the first step of a path that leads somewhere else. */
  lemma FirstStep(A: set<IdEdge>, x: nat, y: nat) returns (e: IdEdge)
    requires Reachable(A, x, y) && x != y
    ensures e in A && e.src == x && Reachable(A, e.dst, y)
  {
    var w :| y in Run(A, {x}, w);
    var q := RunFrom(A, Step(A, {x}, w[0]), w[1..], y);
    e :| e in A && e.src == x && e.lab == w[0] && e.dst == q;
  }

  lemma LastStep(A: set<IdEdge>, x: nat, y: nat) returns (e: IdEdge)
    requires Reachable(A, x, y) && x != y
    ensures e in A && e.dst == y && Reachable(A, x, e.src)
  {
    var w :| y in Run(A, {x}, w);
    var front, l := w[..|w| - 1], w[|w| - 1];
    assert w == front + [l];
    RunSnoc(A, {x}, front, l);
    e :| e in A && e.src in Run(A, {x}, front) && e.lab == l && e.dst == y;
  }

  lemma EdgeEnds(C: set<Subtype>, th: Meaning, g: Graph, e: IdEdge)
    requires g.Wf() && Sound(C, th, g) && e in g.Arcs()
    ensures e.src in g.nodes && g.nodes[e.src] != End && e.dst in g.nodes && g.nodes[e.dst] != Start
  {
    assert EdgeSound(C, th, Def(g, e));
  }

  lemma NothingReachesStart(C: set<Subtype>, th: Meaning, g: Graph, s: nat, x: nat)
    requires g.Wf() && Sound(C, th, g) && s in g.nodes && g.nodes[s] == Start && Reachable(g.Arcs(), x, s)
    ensures x == s
  {
    if x != s {
      var e := LastStep(g.Arcs(), x, s);
      EdgeEnds(C, th, g, e);
    }
  }

  lemma NothingLeavesEnd(C: set<Subtype>, th: Meaning, g: Graph, t: nat, x: nat)
    requires g.Wf() && Sound(C, th, g) && t in g.nodes && g.nodes[t] == End && Reachable(g.Arcs(), t, x)
    ensures x == t
  {
    if x != t {
      var e := FirstStep(g.Arcs(), t, x);
      EdgeEnds(C, th, g, e);
    }
  }

  /** A component of two or more nodes consists of original type-variable states. */
  lemma BigSccNode(C: set<Subtype>, th: Meaning, g: Graph, s: nat, t: nat, orig: set<nat>, S: set<nat>, x: nat)
    requires g.Wf() && Sound(C, th, g) && Breakers(g, s, t, orig)
    requires s in g.nodes && t in g.nodes && g.nodes[s] == Start && g.nodes[t] == End
    requires IsScc(g, S) && |S| != 1 && x in S
    ensures x in g.nodes && g.nodes[x].Tv? && x in orig
  {
    var y := OtherMember(S, x);
    SccMutual(g, S, x, y);
    var into := LastStep(g.Arcs(), y, x);
    var out := FirstStep(g.Arcs(), x, y);
    EdgeEnds(C, th, g, into);
    EdgeEnds(C, th, g, out);
    if x !in orig {
      if into.src == s {
        NothingReachesStart(C, th, g, s, y);
        NothingReachesStart(C, th, g, s, x);
      } else {
        assert out.dst == t;
        NothingLeavesEnd(C, th, g, t, y);
        NothingLeavesEnd(C, th, g, t, x);
      }
    }
  }

  lemma OtherMember(S: set<nat>, x: nat) returns (y: nat)
    requires x in S && |S| != 1
    ensures y in S && y != x
  {
    assert S == {x} + (S - {x});
    y :| y in S - {x};
  }

  /** A set of nodes that the start reaches but does not belong to is entered by some edge. */
  lemma SetIsEntered(g: Graph, s: nat, S: set<nat>, x: nat) returns (e: IdEdge)
    requires g.Wf() && s in g.nodes && s !in S && x in S && Reachable(g.Arcs(), s, x)
    ensures e in g.Arcs() && e.src !in S && e.dst in S
  {
    var I := g.nodes.Keys - S;
    if ClosedUnder(g.Arcs(), I) {
      ReachableStaysInside(g.Arcs(), I, s, x);
    }
    e :| e in g.Arcs() && e.src in I && e.dst !in I;
  }

  lemma ReplacementExtends(g: Graph, g': Graph, n: nat, tv: TypeVariable, s: nat, t: nat)
    requires Replacement(g, g', n, tv, s, t)
    ensures g'.nextNode >= g.nextNode && forall i | i in g.nodes :: i in g'.nodes && g'.nodes[i] == g.nodes[i]
    ensures forall i | i in g'.nodes && i !in g.nodes :: i >= g.nextNode
  {
  }

  function EntryState(tv: TypeVariable, st: FiniteState): FiniteState
    requires st.Tv?
  {
    Tv(Interesting(tv, Lhs), st.variance, [])
  }

  function ExitState(tv: TypeVariable, st: FiniteState): FiniteState
    requires st.Tv?
  {
    Tv(Interesting(tv, Rhs), st.variance, [])
  }

  function Zone(copies: set<nat>, n: nat, entry: nat, exit: nat): set<nat> {
    if n in copies then {entry, exit} else {}
  }
}
