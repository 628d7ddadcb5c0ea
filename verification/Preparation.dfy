/**
 * From a set of constraints to the automaton whose cycles are then broken
 * (src/solver/constraint_graph.rs, FSA::new and the first half of simplify_graph).
 */
module Preparation {
  import opened Graphs
  import opened Constraints
  import opened Pushdown
  import opened Saturation
  import opened SaturationLaws
  import opened PopPush
  import opened FsaGraph
  import opened CycleBreaking
  import opened LoopBreaking
  import opened Automaton
  import opened SimplificationExact

  /** No variable of the constraints is a loop breaker that is still to be handed out. */
  ghost predicate NoFutureBreakers(cons: set<Subtype>, k: nat) {
    forall c | c in cons :: OldVar(c.lhs.base, k) && OldVar(c.rhs.base, k)
  }

  /** An edge between states of some variables and some labels. */
  ghost predicate MadeOf(e: EdgeDef, V: iset<TypeVariable>, L: iset<FieldLabel>) {
    StateOf(e.src, V, L) && StateOf(e.dst, V, L) && WeightOf(e.lab, V, L)
  }

  ghost predicate StateOf(st: FiniteState, V: iset<TypeVariable>, L: iset<FieldLabel>) {
    st.Tv? ==> st.base.tv in V && PathOf(st.path, L)
  }

  ghost predicate PathOf(path: seq<FieldLabel>, L: iset<FieldLabel>) {
    forall i | 0 <= i < |path| :: path[i] in L
  }

  ghost predicate WeightOf(w: FsaEdge, V: iset<TypeVariable>, L: iset<FieldLabel>) {
    w.Push? || w.Pop? ==> if w.sym.Var? then w.sym.tv in V else w.sym.l in L
  }

  /** The constraints mention only some variables and some labels. */
  ghost predicate AllMadeOf(cons: set<Subtype>, V: iset<TypeVariable>, L: iset<FieldLabel>) {
    forall c | c in cons :: c.lhs.base in V && c.rhs.base in V && PathOf(c.lhs.labels, L) && PathOf(c.rhs.labels, L)
  }

  lemma {:induction false} PushPopsMadeOf(base: VHat, sign: Variance, path: seq<FieldLabel>, V: iset<TypeVariable>,
                                          L: iset<FieldLabel>, e: EdgeDef)
    requires base.tv in V && PathOf(path, L) && e in PushPopEdges(base, sign, path)
    ensures MadeOf(e, V, L)
    decreases |path|
  {
    var p := PushEdge(base, sign, path);
    if e != p && e != FlipEdge(p) {
      PushPopsMadeOf(base, p.dst.variance, p.dst.path, V, L, e);
    }
  }

  lemma DirectMadeOf(ctx: RuleContext, cons: set<Subtype>, V: iset<TypeVariable>, L: iset<FieldLabel>, e: EdgeDef)
    requires AllMadeOf(cons, V, L) && e in DirectEdges(ctx, cons)
    ensures MadeOf(e, V, L)
  {
    var c :| c in cons && (e == SubTypeEdge(ctx.RuleCovariant(c)) || e == SubTypeEdge(ctx.RuleContravariant(c)));
  }

  lemma IndirectMadeOf(d: EdgeDef, V: iset<TypeVariable>, L: iset<FieldLabel>, e: EdgeDef)
    requires MadeOf(d, V, L) && e in PushPopsOf(d)
    ensures MadeOf(e, V, L)
  {
    var s := if e in PushPopEdgesForState(d.src) then d.src else d.dst;
    PushPopsMadeOf(s.base, s.variance, s.path, V, L, e);
  }

  lemma StartStopsMadeOf(d: EdgeDef, V: iset<TypeVariable>, L: iset<FieldLabel>, e: EdgeDef)
    requires MadeOf(d, V, L) && e in StartStopsOf(d)
    ensures MadeOf(e, V, L)
  {
  }

  /** The automaton brings in no other variables and no other labels. */
  lemma InitialMadeOf(ctx: RuleContext, cons: set<Subtype>, V: iset<TypeVariable>, L: iset<FieldLabel>, e: EdgeDef)
    requires AllMadeOf(cons, V, L) && e in InitialEdges(ctx, cons)
    ensures MadeOf(e, V, L)
  {
    hide MadeOf, PushPopsOf, StartStopsOf, DirectEdges;
    var direct := DirectEdges(ctx, cons);
    var total := direct + IndirectEdges(direct);
    if e in direct {
      DirectMadeOf(ctx, cons, V, L, e);
    } else if e in IndirectEdges(direct) {
      var d :| d in direct && e in PushPopsOf(d);
      DirectMadeOf(ctx, cons, V, L, d);
      IndirectMadeOf(d, V, L, e);
    } else {
      var d :| d in total && e in StartStopsOf(d);
      if d in direct {
        DirectMadeOf(ctx, cons, V, L, d);
      } else {
        var b :| b in direct && d in PushPopsOf(b);
        DirectMadeOf(ctx, cons, V, L, b);
        IndirectMadeOf(b, V, L, d);
      }
      StartStopsMadeOf(d, V, L, e);
    }
  }

  /** The labels that occur in the constraints. */
  ghost function Mentioned(cons: set<Subtype>): iset<FieldLabel> {
    (iset c, i | c in cons && 0 <= i < |c.lhs.labels| :: c.lhs.labels[i]) +
    (iset c, i | c in cons && 0 <= i < |c.rhs.labels| :: c.rhs.labels[i])
  }

  ghost predicate OldEdge(e: EdgeDef, k: nat) {
    OldState(e.src, k) && OldState(e.dst, k) && OldWeight(e.lab, k)
  }

  lemma InitialOld(ctx: RuleContext, cons: set<Subtype>, k: nat, e: EdgeDef)
    requires NoFutureBreakers(cons, k) && e in InitialEdges(ctx, cons)
    ensures OldEdge(e, k)
  {
    hide InitialEdges, MadeOf, OldEdge;
    MadeOfMentioned(cons, k);
    InitialMadeOf(ctx, cons, OldVars(k), Mentioned(cons), e);
    MadeOld(e, Mentioned(cons), k);
  }

  ghost function OldVars(k: nat): iset<TypeVariable> {
    iset tv | OldVar(tv, k)
  }

  lemma MadeOfMentioned(cons: set<Subtype>, k: nat)
    requires NoFutureBreakers(cons, k)
    ensures AllMadeOf(cons, OldVars(k), Mentioned(cons))
  {
  }

  lemma MadeOld(e: EdgeDef, L: iset<FieldLabel>, k: nat)
    requires MadeOf(e, OldVars(k), L)
    ensures OldEdge(e, k)
  {
  }

  /** Where an edge of the intersected automaton comes from. */
  lemma PlacedBack(g: Graph, copies: set<nat>, S: set<EdgeDef>, e: IdEdge)
    requires g.Wf() && Placed(g, copies) == Intersected(S) && e in g.Arcs()
    ensures e.src in g.nodes && e.dst in g.nodes && Def(g, e) in S
    ensures (e.lab.Push? ==> e.dst in copies) && (e.src in copies ==> e.dst in copies && !e.lab.Pop?)
  {
    var k :| k in g.edges && g.edges[k] == e;
    var p := PlacedEdgeOf(g, copies, e);
    assert p in Placed(g, copies);
  }

  /** After trimming, every node but perhaps the end is reachable from the start. */
  lemma TrimmedFromStart(g: Graph, kept: set<nat>, s: nat, t: nat, x: nat)
    requires g.Wf() && s in g.nodes && t in g.nodes
    requires forall x | x in g.nodes :: x in kept <==>
               x == s || x == t || (Reachable(g.Arcs(), s, x) && Reachable(g.Arcs(), x, t))
    requires x in kept && x in g.nodes && x != t
    ensures Reachable(Keep(g, kept).Arcs(), s, x)
  {
    var A, B := g.Arcs(), Keep(g, kept).Arcs();
    KeepArcs(g, kept);
    ReachableSelf(B, s);
    var I := set y | y in g.nodes && (Reachable(B, s, y) || !Reachable(A, y, t));
    forall e | e in A && e.src in I ensures e.dst in I {
      if Reachable(A, e.dst, t) {
        ReachableSelf(A, e.src);
        ReachableStep(A, e.src, e);
        ReachableTransitive(A, e.src, e.dst, t);
        ReachableMonotone(B, A, s, e.src);
        ReachableStep(A, s, e);
        assert e in B;
        ReachableStep(B, s, e);
      }
    }
    if x != s {
      ReachableStaysInside(A, I, s, x);
    }
  }

  /** The trimmed intersection of a sound automaton is where cycle breaking starts. */
  lemma IntoBreaking(C: set<Subtype>, S: set<EdgeDef>, g: Graph, mp: map<FiniteState, nat>,
                     cantPop: map<FiniteState, nat>, copies: set<nat>, kept: set<nat>, k: nat)
    requires Split(g, mp, cantPop, copies) && Start in mp && End in cantPop
    requires Placed(g, copies) == Intersected(S)
    requires forall e | e in S :: EdgeSound(C, map[], e) && OldEdge(e, k)
    requires forall s | s in mp || s in cantPop :: OldState(s, k)
    requires KeptDef(g, kept, mp[Start], cantPop[End])
    ensures Unbroken(C, Keep(g, kept), mp, cantPop, copies, k).Valid()
  {
    hide Split, Placed, Intersected, EdgeSound, OldEdge, KeptDef, Keep, Sound, Zoned, IsBroken, Breakers, Isolated,
         FromStart, Indexed,
         Breaking.Anchored, OldState;
    var g', s, t := Keep(g, kept), mp[Start], cantPop[End];
    SplitEnds(g, mp, cantPop, copies);
    KeptEdges(C, S, g, copies, kept, k);
    KeptNodes(C, g, mp, cantPop, copies, kept, k);
    KeptFromStart(g, kept, s, t);
    NothingBroken(g', s, t);
  }

  lemma KeptFromStart(g: Graph, kept: set<nat>, s: nat, t: nat)
    requires g.Wf() && s in g.nodes && t in g.nodes && KeptDef(g, kept, s, t)
    ensures FromStart(Keep(g, kept), s, Keep(g, kept).nodes.Keys - {} - {t})
  {
    hide Reachable;
    forall x | x in Keep(g, kept).nodes.Keys - {} - {t} ensures Reachable(Keep(g, kept).Arcs(), s, x) {
      TrimmedFromStart(g, kept, s, t, x);
    }
  }

  lemma KeptNodes(C: set<Subtype>, g: Graph, mp: map<FiniteState, nat>, cantPop: map<FiniteState, nat>,
                  copies: set<nat>, kept: set<nat>, k: nat)
    requires Split(g, mp, cantPop, copies) && Start in mp && End in cantPop && KeptDef(g, kept, mp[Start], cantPop[End])
    requires forall s | s in mp || s in cantPop :: OldState(s, k)
    ensures var g' := Keep(g, kept);
            && Indexed(g', mp, cantPop, g'.nodes) && Unbroken(C, g', mp, cantPop, copies, k).Anchored()
            && Breakers(g', mp[Start], cantPop[End], g'.nodes.Keys) && Isolated(g', {})
            && (forall i | i in g'.nodes :: OldState(g'.nodes[i], k)) && mp[Start] < g'.nextNode
                 && cantPop[End] < g'.nextNode
  {
    hide Reachable, OldState;
  }

  lemma KeptEdges(C: set<Subtype>, S: set<EdgeDef>, g: Graph, copies: set<nat>, kept: set<nat>, k: nat)
    requires g.Wf() && Placed(g, copies) == Intersected(S)
    requires forall e | e in S :: EdgeSound(C, map[], e) && OldEdge(e, k)
    ensures Keep(g, kept).Wf() && Sound(C, map[], Keep(g, kept)) && Zoned(Keep(g, kept), copies)
    ensures forall e | e in Keep(g, kept).Arcs() :: OldWeight(e.lab, k)
  {
    hide EdgeSound;
    var g' := Keep(g, kept);
    KeepArcs(g, kept);
    forall e | e in g'.Arcs()
      ensures e.src in g'.nodes && e.dst in g'.nodes && Def(g', e) in S
      ensures (e.lab.Push? ==> e.dst in copies) && (e.src in copies ==> e.dst in copies && !e.lab.Pop?)
    {
      PlacedBack(g, copies, S, e);
    }
  }

  /** The automaton before the first replacement. */
  function Unbroken(C: set<Subtype>, g: Graph, mp: map<FiniteState, nat>, cantPop: map<FiniteState, nat>,
                    copies: set<nat>, k: nat): Breaking {
    Breaking(C, map[], g, g, mp, cantPop, copies, {}, k, k, NO_BREAKS)
  }

  /** Trimming keeps soundness and zones. */
  lemma KeepSound(C: set<Subtype>, th: Meaning, g: Graph, copies: set<nat>, kept: set<nat>)
    requires g.Wf() && Sound(C, th, g) && Zoned(g, copies)
    ensures Keep(g, kept).Wf() && Sound(C, th, Keep(g, kept)) && Zoned(Keep(g, kept), copies)
    ensures forall x | x in g.nodes && x in kept :: x in Keep(g, kept).nodes
  {
    KeepArcs(g, kept);
    hide EdgeSound;
    forall e | e in Keep(g, kept).Arcs() ensures Def(Keep(g, kept), e) == Def(g, e) {
    }
  }

  lemma SoundNotFailed(C: set<Subtype>, th: Meaning, g: Graph)
    requires g.Wf() && Sound(C, th, g)
    ensures forall k | k in g.edges :: g.edges[k].lab != Failed
  {
    forall k | k in g.edges ensures g.edges[k].lab != Failed {
      assert g.edges[k] in g.Arcs();
    }
  }

  /** Saturation adds no variables and keeps every edge sound. */
  lemma SaturatedSoundOld(ctx: RuleContext, cons: set<Subtype>, E: set<EdgeDef>, F: set<Saturation.Fact>, k: nat)
    requires NoFutureBreakers(cons, k)
    requires IsSaturation(InitialEdges(ctx, cons), E, F) && E == InitialEdges(ctx, cons) + Matches(E, F)
    requires Endpoints(SaturatedEdges(InitialEdges(ctx, cons), E, F)) <= InitialStates(ctx, cons)
    ensures forall e | e in SaturatedEdges(InitialEdges(ctx, cons), E, F) :: EdgeSound(cons, map[], e) && OldEdge(e, k)
    ensures forall s | s in InitialStates(ctx, cons) :: OldState(s, k)
  {
    hide InitialEdges, EdgeSound, IsSaturation, NoFutureBreakers;
    var E0 := InitialEdges(ctx, cons);
    forall e | e in E0 ensures EdgeSound(cons, map[], e) && OldEdge(e, k) {
      InitialSound(ctx, cons, e);
      InitialOld(ctx, cons, k, e);
    }
    SaturationSound(cons, E0, E, F);
    forall s | s in InitialStates(ctx, cons) ensures OldState(s, k) {
      if s != Start && s != End {
        var e :| e in E0 && (s == e.src || s == e.dst);
        assert OldEdge(e, k);
      }
    }
    forall e | e in SaturatedEdges(E0, E, F) ensures OldEdge(e, k) {
      if e !in E0 {
        assert e.src in Endpoints(SaturatedEdges(E0, E, F)) && e.dst in Endpoints(SaturatedEdges(E0, E, F));
        assert e in Matches(E, F) && e.lab == Success;
      }
    }
  }

  lemma DefsEndpoints(g: Graph, mp: map<FiniteState, nat>)
    requires Built(g, mp)
    ensures Endpoints(Defs(g)) <= mp.Keys
  {
  }

  /**
   * The automaton up to the point where its cycles are broken: saturated, intersected with
   * pops-then-pushes as whole, and cut down to g, what lies between the start and the copied end.
   */
  datatype Trimmed = Trimmed(E: set<EdgeDef>, F: set<Saturation.Fact>, whole: Graph, copies: set<nat>,
                             mp: map<FiniteState, nat>, cantPop: map<FiniteState, nat>, kept: set<nat>, g: Graph) {
    ghost predicate Of(E0: set<EdgeDef>) {
      && IsSaturation(E0, E, F) && E == E0 + Matches(E, F)
      && Split(whole, mp, cantPop, copies) && whole.Wf() && Start in mp && End in cantPop
      && Placed(whole, copies) == Intersected(SaturatedEdges(E0, E, F))
      && KeptDef(whole, kept, mp[Start], cantPop[End]) && g == Keep(whole, kept)
      && SameWords(whole, g, mp[Start], cantPop[End])
    }
  }

  /** The automaton up to the point where cycles are broken. */
  method Prepare(ctx: RuleContext, cons: set<Subtype>, ghost k: nat)
    returns (fsa: Fsa, ghost a: Trimmed, ghost b: Breaking)
    requires NoFutureBreakers(cons, k)
    ensures fresh(fsa) && a.Of(InitialEdges(ctx, cons))
    ensures b == Unbroken(cons, a.g, a.mp, a.cantPop, a.copies, k) && fsa.Follows(b)
  {
    hide *;
    fsa := new Fsa(ctx, cons);
    InitialEdgesSelfDual(ctx, cons);
    ghost var E, F;
    var ok;
    ok, E, F := fsa.Saturate();
    ghost var S := SaturatedEdges(InitialEdges(ctx, cons), E, F);
    DefsEndpoints(fsa.grph, fsa.mp);
    SaturatedSoundOld(ctx, cons, E, F, k);
    StartAndEndPresent(ctx, cons);
    fsa.IntersectWithPopPush();
    SplitEnds(fsa.grph, fsa.mp, fsa.cantPop, fsa.copies);
    ghost var whole := fsa.grph;
    ghost var kept := fsa.RemoveUnreachable();
    a := Trimmed(E, F, whole, fsa.copies, fsa.mp, fsa.cantPop, kept, fsa.grph);
    b := Unbroken(cons, a.g, a.mp, a.cantPop, a.copies, k);
    IsKeptDef(whole, kept, a.mp[Start], a.cantPop[End]);
    IntoBreaking(cons, S, whole, a.mp, a.cantPop, a.copies, kept, k);
    IsTrimmed(a, InitialEdges(ctx, cons));
    NowFollows(fsa, cons, k);
  }

  lemma NowFollows(fsa: Fsa, C: set<Subtype>, k: nat)
    requires Unbroken(C, fsa.grph, fsa.mp, fsa.cantPop, fsa.copies, k).Valid()
    ensures fsa.Follows(Unbroken(C, fsa.grph, fsa.mp, fsa.cantPop, fsa.copies, k))
  {
    hide Breaking.Valid;
  }

  lemma IsKeptDef(g: Graph, kept: set<nat>, s: nat, t: nat)
    requires forall x | x in g.nodes ::
               x in kept <==> x == s || x == t || (Reachable(g.Arcs(), s, x) && Reachable(g.Arcs(), x, t))
    ensures KeptDef(g, kept, s, t)
  {
    hide Reachable;
  }

  lemma IsTrimmed(a: Trimmed, E0: set<EdgeDef>)
    requires IsSaturation(E0, a.E, a.F) && a.E == E0 + Matches(a.E, a.F)
    requires Split(a.whole, a.mp, a.cantPop, a.copies) && Start in a.mp && End in a.cantPop && a.whole.Wf()
    requires Placed(a.whole, a.copies) == Intersected(SaturatedEdges(E0, a.E, a.F))
    requires KeptDef(a.whole, a.kept, a.mp[Start], a.cantPop[End])
    requires a.g == Keep(a.whole, a.kept) && SameWords(a.whole, a.g, a.mp[Start], a.cantPop[End])
    ensures a.Of(E0)
  {
    hide IsSaturation, Split, Placed, Intersected, SaturatedEdges, KeptDef, Keep, SameWords, Matches;
  }

  lemma StartAndEndPresent(ctx: RuleContext, cons: set<Subtype>)
    ensures Start in InitialStates(ctx, cons) && End in InitialStates(ctx, cons)
  {
  }

  lemma SplitEnds(g: Graph, mp: map<FiniteState, nat>, cantPop: map<FiniteState, nat>, copies: set<nat>)
    requires Split(g, mp, cantPop, copies) && Start in mp && End in cantPop
    ensures g.Wf() && mp[Start] in g.nodes && cantPop[End] in g.nodes
  {
  }

  lemma TrimmedSound(ctx: RuleContext, cons: set<Subtype>, a: Trimmed)
    requires a.Of(InitialEdges(ctx, cons))
    ensures (forall e | e in a.E :: EdgeSound(cons, map[], e))
    ensures SelfDual(SaturatedEdges(InitialEdges(ctx, cons), a.E, a.F))
    ensures Start in a.mp && End in a.cantPop && a.whole.Wf()
  {
    hide InitialEdges, EdgeSound, IsSaturation, Split, Placed, Intersected, SelfDual, SaturatedEdges;
    var E0 := InitialEdges(ctx, cons);
    forall e | e in E0 ensures EdgeSound(cons, map[], e) {
      InitialSound(ctx, cons, e);
    }
    SaturationSound(cons, E0, a.E, a.F);
    InitialEdgesSelfDual(ctx, cons);
    SaturatedEdgesSelfDual(E0, a.E, a.F);
  }
}
