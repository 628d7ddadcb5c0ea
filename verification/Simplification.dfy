/**
 * The whole of constraint simplification (src/solver/constraint_graph.rs, FSA::new,
 * simplify_graph and walk_constraints), from a set of constraints to the simplified set.
 */
module Simplification {
  import opened Graphs
  import opened Constraints
  import opened Derivation
  import opened Pushdown
  import opened Saturation
  import opened SaturationLaws
  import opened StackWords
  import opened PopPush
  import opened FsaGraph
  import opened CycleBreaking
  import opened LoopBreaking
  import opened Automaton
  import opened SimplePaths
  import opened Walk
  import opened SimplificationExact
  import opened Completeness
  import opened StatePaths
  import opened BrokenPaths
  import opened Preparation
  import SX = SaturationExact
  import SP = SimplifyPath

  // ----- what the broken automaton still says -----

  /** The path of states behind a spelled constraint, and its dual, run through the trimmed automaton. */
  lemma SpelledPath(ctx: RuleContext, cons: set<Subtype>, a: Trimmed, c: Subtype) returns (p: seq<EdgeDef>)
    requires a.Of(InitialEdges(ctx, cons)) && Spelled(InitialEdges(ctx, cons), c)
    ensures p != [] && Joined(p) && PopsFirst(PathLabels(p)) && p[0].src == Start && p[|p| - 1].dst == End
    ensures Emits(PathLabels(p)) && Emitted(PathLabels(p)) == c && Start in a.mp && End in a.cantPop
    ensures Tracked(a.g, a.mp[Start], a.cantPop[End], p) && Tracked(a.g, a.mp[Start], a.cantPop[End], DualPath(p))
  {
    hide InitialEdges, EdgeSound, IsSaturation, Split, Placed, Intersected, SelfDual, KeptDef, SameWords, Keep, Tracked,
         Joined, AllIn,
         Emits, Emitted, NetEmits, NetConstraint, SX.PushdownRun, PopsFirst, HasPush, SaturatedEdges;
    TrimmedSound(ctx, cons, a);
    var E0 := InitialEdges(ctx, cons);
    var S := SaturatedEdges(E0, a.E, a.F);
    SoundParts(cons, E0, a.E, a.F);
    var u, v :| SX.PushdownRun(E0, Start, u, v, End) && NetEmits(u, v) && NetConstraint(u, v) == c;
    SX.SaturationExact(E0, a.E, a.F, Start, u, v, End);
    var w: Word :| End in Run(S, {Start}, w) && PopsFirst(w) && Pops(w) == u && Pushes(w) == v;
    WordsAreReadable(cons, S, w);
    EmitsNet(w);
    p := RunJoined(S, Start, w, End);
    ReadablePushes(w);
    PathTracked(cons, S, a.whole, a.mp, a.cantPop, a.copies, a.kept, p);
    DualRuns(S, p);
    PathTracked(cons, S, a.whole, a.mp, a.cantPop, a.copies, a.kept, DualPath(p));
  }

  lemma ReadablePushes(w: Word)
    requires Readable(w)
    ensures w != [] && HasPush(w) && w[0].Pop?
  {
  }

  lemma DualRuns(S: set<EdgeDef>, p: seq<EdgeDef>)
    requires SelfDual(S) && p != [] && Joined(p) && AllIn(S, p) && p[0].src == Start && p[|p| - 1].dst == End
    requires PopsFirst(PathLabels(p)) && p[0].lab.Pop?
    ensures var d := DualPath(p);
            && d != [] && Joined(d) && AllIn(S, d) && d[0].src == Start && d[|d| - 1].dst == End
            && PopsFirst(PathLabels(d)) && HasPush(PathLabels(d))
  {
    var d, w, n := DualPath(p), PathLabels(DualPath(p)), |p|;
    assert w[n - 1].Push?;
    forall i, j | 0 <= i < j < n ensures !(w[i].Push? && w[j].Pop?) {
      assert PathLabels(p)[n - 1 - i] == p[n - 1 - i].lab && PathLabels(p)[n - 1 - j] == p[n - 1 - j].lab;
    }
  }

  /** Everything the runs spell follows from what the broken automaton emits. */
  lemma SpelledSurvive(ctx: RuleContext, cons: set<Subtype>, a: Trimmed, b: Breaking, K: set<Subtype>)
    requires a.Of(InitialEdges(ctx, cons)) && EndsOf(a, b) && HasEnds(cons, b.th, b.g, a.mp[Start], a.cantPop[End])
    requires Zoned(b.g, b.copies) && HoldsWords(b.g, a.mp[Start], a.cantPop[End], K)
    ensures EntailsSpelled(ctx, cons, K)
  {
    hide InitialEdges, Trimmed.Of, Emits, Emitted, Tracked, Joined, PopsFirst, HasEnds, Zoned, HoldsWords, IsBroken,
         ReplacedBut, NamesPaired;
    forall c | Spelled(InitialEdges(ctx, cons), c) ensures Derivable(K, c.lhs, c.rhs) {
      var p := SpelledPath(ctx, cons, a, c);
      PathEntailed(cons, b.th, a.g, b.g, b.bk, b.copies, a.mp[Start], a.cantPop[End], K, p);
    }
  }

  /** b broke the cycles of a, between the same ends. */
  ghost predicate EndsOf(a: Trimmed, b: Breaking) {
    && Start in a.mp && End in a.cantPop
    && IsBroken(a.g, b.g, b.bk, a.mp[Start], a.cantPop[End]) && ReplacedBut(a.g, b.bk, {}) && NamesPaired(b.bk)
    && NamesMean(b.bk, b.th)
  }

  /** What every word of the broken automaton emits is read off the trimmed one. */
  lemma WordsAreHeld(C: set<Subtype>, th: Meaning, g: Graph, g': Graph, s: nat, t: nat, K: set<Subtype>)
    requires HasEnds(C, th, g', s, t) && Straight(g'.Arcs()) && SameWords(g, g', s, t)
    requires forall c | Reads(g', s, t, c) :: c in K
    ensures HoldsWords(g, s, t, K)
  {
    hide HasEnds, Straight, Emits, Emitted, Readable, NetEmits, NetConstraint, Reads;
    forall w: Word | Accepts(g.Arcs(), s, t, w) && Emits(w) ensures Emitted(w) in K {
      var p := WordPath(g', s, t, w);
      PathIsReadable(C, th, g', s, p, t);
      EmitsNet(w);
      assert Spells(g'.Arcs(), s, t, Pops(w), Pushes(w)) by {
        assert Accepts(g'.Arcs(), s, t, w);
      }
      WalksAreWords(C, th, g', s, t, Pops(w), Pushes(w));
      ReadsNet(C, th, g', s, t, Emitted(w));
    }
  }

  /** Where nothing had to be broken, the trails have the effects that the pushdown runs have. */
  lemma WalksAreRuns(ctx: RuleContext, cons: set<Subtype>, a: Trimmed, g: Graph, u: seq<StackSymbol>,
                     v: seq<StackSymbol>)
    requires a.Of(InitialEdges(ctx, cons)) && Start in a.mp && End in a.cantPop
    requires HasEnds(cons, map[], g, a.mp[Start], a.cantPop[End]) && Straight(g.Arcs())
    requires SameWords(a.g, g, a.mp[Start], a.cantPop[End])
    ensures Walks(g, a.mp[Start], a.cantPop[End], u, v) <==> SX.PushdownRun(InitialEdges(ctx, cons), Start, u, v, End)
  {
    hide IsSaturation, Split, Placed, Intersected, InitialEdges, SaturatedEdges, KeptDef, EdgeSound, Straight, HasEnds,
         Walks, Keep,
         SX.PushdownRun;
    TrimmedSound(ctx, cons, a);
    var s, t, P := a.mp[Start], a.cantPop[End], Placed(a.whole, a.copies);
    WalksAreWords(cons, map[], g, s, t, u, v);
    WordsAreRuns(cons, InitialEdges(ctx, cons), a.E, a.F, u, v);
    forall w ensures Accepts(g.Arcs(), s, t, w) <==> Copy(End) in Run(P, {Orig(Start)}, w) {
      PlacedWords(a.whole, a.mp, a.cantPop, a.copies, w);
    }
    if Spells(g.Arcs(), s, t, u, v) {
      var w: Word :| Accepts(g.Arcs(), s, t, w) && Pops(w) == u && Pushes(w) == v;
      assert Copy(End) in Run(P, {Orig(Start)}, w);
    }
    if SpellsPlaced(P, u, v) {
      var w: Word :| Copy(End) in Run(P, {Orig(Start)}, w) && Pops(w) == u && Pushes(w) == v;
      assert Accepts(g.Arcs(), s, t, w);
    }
  }

  /** No cycle of the saturated automaton through two places is on a way from the start to the end. */
  ghost predicate WithoutCycles(ctx: RuleContext, cons: set<Subtype>) {
    forall E, F | IsSaturation(InitialEdges(ctx, cons), E, F) ::
           NoUsefulCycle(Intersected(SaturatedEdges(InitialEdges(ctx, cons), E, F)))
  }

  /** Then there is nothing to break. */
  lemma NothingToBreak(ctx: RuleContext, cons: set<Subtype>, a: Trimmed)
    requires a.Of(InitialEdges(ctx, cons)) && WithoutCycles(ctx, cons)
    ensures NoBigCycle(a.g)
  {
    hide Split, Placed, Intersected, InitialEdges, IsSaturation, NoUsefulCycle, KeptDef, SameWords, EdgeSound,
         NoBigCycle, SaturatedEdges;
    TrimmedSound(ctx, cons, a);
    forall e | e in a.whole.Arcs() ensures e.dst != a.mp[Start] && e.src != a.cantPop[End] {
      EndsAreEnds(cons, a, InitialEdges(ctx, cons), e);
    }
    TrimmedHasNoBigCycle(a.whole, a.mp, a.cantPop, a.copies, a.kept);
  }

  lemma EndsAreEnds(C: set<Subtype>, a: Trimmed, E0: set<EdgeDef>, e: IdEdge)
    requires a.Of(E0) && e in a.whole.Arcs() && Start in a.mp && End in a.cantPop
    requires forall e | e in a.E :: EdgeSound(C, map[], e)
    ensures e.dst != a.mp[Start] && e.src != a.cantPop[End]
  {
    hide Intersected, Placed, EdgeSound, IsSaturation, KeptDef, SameWords, Keep;
    var S := SaturatedEdges(E0, a.E, a.F);
    PlacedBack(a.whole, a.copies, S, e);
    assert EdgeSound(C, map[], Def(a.whole, e));
    SoundLabel(C, Def(a.whole, e));
  }

  // ----- when nothing can overflow -----

  /** Labels whose folds stay in range: no displacements, and field offsets that are machine integers. */
  ghost function CalmLabels(): iset<FieldLabel> {
    iset l: FieldLabel | !l.Add? && (l.Field? ==> SP.FitsI64(l.offset))
  }

  ghost predicate Calm(cons: set<Subtype>) {
    forall c | c in cons :: PathOf(c.lhs.labels, CalmLabels()) && PathOf(c.rhs.labels, CalmLabels())
  }

  ghost predicate CalmArcs(A: set<IdEdge>) {
    forall e | e in A :: CalmWeight(e.lab)
  }

  ghost predicate CalmWeight(w: FsaEdge) {
    (w.Push? || w.Pop?) && w.sym.Label? ==> w.sym.l in CalmLabels()
  }

  /** The automaton's labels are those of the constraints, before its cycles are broken and after. */
  lemma TrimmedIsCalm(ctx: RuleContext, cons: set<Subtype>, a: Trimmed)
    requires a.Of(InitialEdges(ctx, cons)) && Calm(cons)
    ensures CalmArcs(a.g.Arcs())
  {
    hide Split, Placed, Intersected, InitialEdges, IsSaturation, KeptDef, SameWords, EdgeSound, CalmLabels, Keep,
         MadeOf;
    var S := SaturatedEdges(InitialEdges(ctx, cons), a.E, a.F);
    forall e | e in S ensures CalmWeight(e.lab) {
      if e in InitialEdges(ctx, cons) {
        InitialMadeOf(ctx, cons, Bases(cons), CalmLabels(), e);
        MadeCalm(e, Bases(cons));
      }
    }
    KeepArcs(a.whole, a.kept);
    forall e | e in a.g.Arcs() ensures CalmWeight(e.lab) {
      PlacedBack(a.whole, a.copies, S, e);
    }
  }

  lemma MadeCalm(e: EdgeDef, V: iset<TypeVariable>)
    requires MadeOf(e, V, CalmLabels())
    ensures CalmWeight(e.lab)
  {
  }

  /** The variables of the constraints. */
  ghost function Bases(cons: set<Subtype>): iset<TypeVariable> {
    (iset c | c in cons :: c.lhs.base) + (iset c | c in cons :: c.rhs.base)
  }

  lemma BrokenIsCalm(g0: Graph, g: Graph, bk: Breaks, s: nat, t: nat)
    requires IsBroken(g0, g, bk, s, t) && CalmArcs(g0.Arcs())
    ensures CalmArcs(g.Arcs())
  {
    hide CalmLabels;
    forall e | e in g.Arcs() ensures CalmWeight(e.lab) {
      if e in bk.Redirected(g0.Arcs()) {
        var e0 :| e0 in g0.Arcs() && e == bk.Moved(e0);
      } else {
        var n :| n in bk.entry && e in bk.PairOf(g0.nodes, s, t, n);
      }
    }
  }

  lemma {:induction false} CalmWord(w: Word)
    requires forall i | 0 <= i < |w| :: CalmWeight(w[i])
    ensures PathOf(PopLabels(w), CalmLabels()) && PathOf(PushLabels(w), CalmLabels())
    decreases |w|
  {
    hide CalmLabels;
    if w != [] {
      assert forall i | 0 <= i < |w[1..]| :: w[1..][i] == w[i + 1];
      CalmWord(w[1..]);
      assert CalmWeight(w[0]);
    }
  }

  lemma {:induction false} ReversedPath(path: seq<FieldLabel>, L: iset<FieldLabel>)
    requires PathOf(path, L)
    ensures PathOf(Reversed(path), L)
  {
    if path != [] {
      ReversedPath(path[1..], L);
    }
  }

  lemma CalmFits(path: seq<FieldLabel>)
    requires PathOf(path, CalmLabels())
    ensures SP.AllFoldsFit(path)
  {
    forall i: nat ensures SP.FoldsFitAt(path, i) {
      if i + 1 < |path| {
        assert path[i] in CalmLabels() && path[i + 1] in CalmLabels();
        assert i > 0 ==> path[i - 1] in CalmLabels();
        assert SP.Pending(path, i) == [];
      }
    }
  }

  /** Then no trail overflows. */
  lemma CalmWalks(g: Graph, s: nat, t: nat)
    requires CalmArcs(g.Arcs())
    ensures !Overflowing(g, s, t)
  {
    hide IsTrail, CalmLabels, CalmWeight, SP.AllFoldsFit;
    forall p: Trail | IsTrail(Multigraph(g), s, t, p) ensures !Overflows(g, p) {
      if InGraph(g, p) && Emits(PathWord(g, p)) {
        var w := PathWord(g, p);
        var m := w[1..|w| - 1];
        forall i | 0 <= i < |w| ensures CalmWeight(w[i]) {
          assert g.edges[p[i]] in g.Arcs();
        }
        assert forall i | 0 <= i < |m| :: m[i] == w[i + 1];
        CalmWord(m);
        ReversedPath(PushLabels(m), CalmLabels());
        CalmFits(PopLabels(m));
        CalmFits(Reversed(PushLabels(m)));
      }
    }
  }

  // ----- which variables are left -----

  /** A loop breaker, or a variable that is interesting when its tag is ignored. */
  ghost predicate IsKept(ctx: RuleContext, th: Meaning, v: TypeVariable) {
    v in th || TypeVariable(v.name, NoTag, v.isGlobal) in ctx.interesting
  }

  ghost predicate KeptWeight(ctx: RuleContext, th: Meaning, w: FsaEdge) {
    (w.Push? || w.Pop?) && w.sym.Var? ==> IsKept(ctx, th, w.sym.tv)
  }

  ghost predicate KeptArcs(ctx: RuleContext, th: Meaning, A: set<IdEdge>) {
    forall e | e in A :: KeptWeight(ctx, th, e.lab)
  }

  ghost predicate KeptState(ctx: RuleContext, s: FiniteState) {
    s.Tv? && s.base.Interesting? ==> IsKept(ctx, map[], s.base.tv)
  }

  ghost predicate KeptEdge(ctx: RuleContext, e: EdgeDef) {
    KeptState(ctx, e.src) && KeptState(ctx, e.dst) && KeptWeight(ctx, map[], e.lab)
  }

  lemma DirectKept(ctx: RuleContext, cons: set<Subtype>, e: EdgeDef)
    requires e in DirectEdges(ctx, cons)
    ensures KeptEdge(ctx, e)
  {
    hide PathVariance;
  }

  lemma {:induction false} PushPopsKept(ctx: RuleContext, base: VHat, sign: Variance, path: seq<FieldLabel>, e: EdgeDef)
    requires KeptState(ctx, Tv(base, sign, path)) && e in PushPopEdges(base, sign, path)
    ensures KeptEdge(ctx, e)
    decreases |path|
  {
    var p := PushEdge(base, sign, path);
    if e != p && e != FlipEdge(p) {
      PushPopsKept(ctx, base, p.dst.variance, p.dst.path, e);
    }
  }

  lemma IndirectKept(ctx: RuleContext, d: EdgeDef, e: EdgeDef)
    requires KeptEdge(ctx, d) && e in PushPopsOf(d)
    ensures KeptEdge(ctx, e)
  {
    var s := if e in PushPopEdgesForState(d.src) then d.src else d.dst;
    PushPopsKept(ctx, s.base, s.variance, s.path, e);
  }

  lemma StartStopsKept(ctx: RuleContext, d: EdgeDef, e: EdgeDef)
    requires KeptEdge(ctx, d) && e in StartStopsOf(d)
    ensures KeptEdge(ctx, e)
  {
  }

  lemma InitialKept(ctx: RuleContext, cons: set<Subtype>, e: EdgeDef)
    requires e in InitialEdges(ctx, cons)
    ensures KeptEdge(ctx, e)
  {
    hide KeptEdge, PushPopsOf, StartStopsOf, DirectEdges;
    var direct := DirectEdges(ctx, cons);
    var total := direct + IndirectEdges(direct);
    forall d | d in total ensures KeptEdge(ctx, d) {
      if d in direct {
        DirectKept(ctx, cons, d);
      } else {
        var b :| b in direct && d in PushPopsOf(b);
        DirectKept(ctx, cons, b);
        IndirectKept(ctx, b, d);
      }
    }
    if e !in total {
      var d :| d in total && e in StartStopsOf(d);
      StartStopsKept(ctx, d, e);
    }
  }

  /** The automaton pops and pushes interesting variables only, before its cycles are broken. */
  lemma TrimmedIsKept(ctx: RuleContext, cons: set<Subtype>, a: Trimmed)
    requires a.Of(InitialEdges(ctx, cons))
    ensures KeptArcs(ctx, map[], a.g.Arcs())
  {
    hide Split, Placed, Intersected, InitialEdges, IsSaturation, KeptDef, SameWords, EdgeSound, Keep, IsKept;
    var S := SaturatedEdges(InitialEdges(ctx, cons), a.E, a.F);
    forall e | e in S ensures KeptWeight(ctx, map[], e.lab) {
      if e in InitialEdges(ctx, cons) {
        InitialKept(ctx, cons, e);
      }
    }
    KeepArcs(a.whole, a.kept);
    forall e | e in a.g.Arcs() ensures KeptWeight(ctx, map[], e.lab) {
      PlacedBack(a.whole, a.copies, S, e);
    }
  }

  /** Afterwards it also pops and pushes loop breakers. */
  lemma BrokenIsKept(ctx: RuleContext, th: Meaning, g0: Graph, g: Graph, bk: Breaks, s: nat, t: nat)
    requires IsBroken(g0, g, bk, s, t) && NamesMean(bk, th) && KeptArcs(ctx, map[], g0.Arcs())
    ensures KeptArcs(ctx, th, g.Arcs())
  {
    forall e | e in g.Arcs() ensures KeptWeight(ctx, th, e.lab) {
      if e in bk.Redirected(g0.Arcs()) {
        var e0 :| e0 in g0.Arcs() && e == bk.Moved(e0);
        assert KeptWeight(ctx, map[], e0.lab);
      } else {
        var n :| n in bk.entry && e in bk.PairOf(g0.nodes, s, t, n);
        assert bk.name[g0.nodes[n]] in th;
      }
    }
  }

  lemma ReadIsKept(ctx: RuleContext, th: Meaning, g: Graph, s: nat, t: nat, c: Subtype)
    requires KeptArcs(ctx, th, g.Arcs()) && Reads(g, s, t, c)
    ensures IsKept(ctx, th, c.lhs.base) && IsKept(ctx, th, c.rhs.base)
  {
    hide IsTrail, IsKept;
    var p: Trail :| IsTrail(Multigraph(g), s, t, p) && ReadFrom(g, p, c);
    var w := PathWord(g, p);
    assert g.edges[p[0]] in g.Arcs() && g.edges[p[|p| - 1]] in g.Arcs();
    assert w[0] == g.edges[p[0]].lab && w[|w| - 1] == g.edges[p[|p| - 1]].lab;
  }

  // ----- simplification as a whole -----

  /**
   * What simplification returns, g being the automaton that is walked from s to t.
   */
  ghost predicate IsSimplified(ctx: RuleContext, cons: set<Subtype>, r: Option<set<Subtype>>, th: Meaning,
                               g: Graph, s: nat, t: nat) {
    // exactly what the trails read, or the overflow panic, exactly when some trail overflows
    && (r.Some? ==> forall c :: c in r.value <==> Reads(g, s, t, c))
    && (r.None? <==> Overflowing(g, s, t))
    && (Calm(cons) ==> r.Some?)
    // nothing that does not follow, a loop breaker standing for what it replaced
    && (r.Some? ==> forall c | c in r.value :: Derivable(cons, Subst(th, c.lhs), Subst(th, c.rhs)))
    && (r.Some? ==> Conservative(cons, r.value, th))
    // only interesting variables and loop breakers are left
    && (r.Some? ==> forall c | c in r.value :: IsKept(ctx, th, c.lhs.base) && IsKept(ctx, th, c.rhs.base))
    // nothing lost of what the pushdown runs spell, and so of what has a basic proof
    && (r.Some? ==> EntailsSpelled(ctx, cons, r.value) && Preserves(ctx, cons, r.value))
    // without cycles, exactly what the pushdown runs spell, unless one of them overflows
    && (WithoutCycles(ctx, cons) ==> Unchanged(ctx, cons, r))
  }

  /** Between variables that are not loop breakers K relates nothing that cons does not. */
  ghost predicate Conservative(cons: set<Subtype>, K: set<Subtype>, th: Meaning) {
    forall a: Dtv, b: Dtv | a.base !in th && b.base !in th && Derivable(K, a, b) :: Derivable(cons, a, b)
  }

  lemma SoundIsConservative(cons: set<Subtype>, K: set<Subtype>, th: Meaning)
    requires forall c | c in K :: Derivable(cons, Subst(th, c.lhs), Subst(th, c.rhs))
    ensures Conservative(cons, K, th)
  {
    hide Derivable;
    forall a: Dtv, b: Dtv | a.base !in th && b.base !in th && Derivable(K, a, b)
      ensures Derivable(cons, a, b)
    {
      ProofOf(cons, K, th, a, b);
      assert Subst(th, a) == a && Subst(th, b) == b;
    }
  }

  lemma ProofOf(cons: set<Subtype>, K: set<Subtype>, th: Meaning, a: Dtv, b: Dtv)
    requires Derivable(K, a, b) && forall c | c in K :: Derivable(cons, Subst(th, c.lhs), Subst(th, c.rhs))
    ensures Derivable(cons, Subst(th, a), Subst(th, b))
  {
    hide Subst;
    var p: Proof :| p.Checks(K) && p.Concl() == Subtype(a, b);
    SubstProof(cons, th, K, p);
  }

  ghost predicate Unchanged(ctx: RuleContext, cons: set<Subtype>, r: Option<set<Subtype>>) {
    && (r.Some? ==> (forall c :: c in r.value <==> Spelled(InitialEdges(ctx, cons), c)) && EntailsAll(cons, r.value))
    && (r.None? <==> SpelledOverflow(InitialEdges(ctx, cons)))
  }

  /** The automaton after its cycles are broken, as it is walked. */
  ghost predicate Final(a: Trimmed, b: Breaking, g: Graph) {
    && EndsOf(a, b) && NoBigCycle(b.g) && (NoBigCycle(a.g) ==> b.g == a.g && b.th == map[])
    && HasEnds(b.C, b.th, b.g, a.mp[Start], a.cantPop[End]) && Zoned(b.g, b.copies)
    && HasEnds(b.C, b.th, g, a.mp[Start], a.cantPop[End]) && Zoned(g, b.copies) && Straight(g.Arcs())
    && SameWords(b.g, g, a.mp[Start], a.cantPop[End]) && g.Arcs() <= b.g.Arcs()
  }

  lemma IsFinal(a: Trimmed, b0: Breaking, b: Breaking, kept: set<nat>, E0: set<EdgeDef>)
    requires a.Of(E0) && b0 == Unbroken(b0.C, a.g, a.mp, a.cantPop, a.copies, b0.k) && b.Valid() && b.WholeClasses()
    requires Start in a.mp && End in a.cantPop && Start in b.mp && End in b.cantPop
    requires Proceeds(b0, b) && NoBigCycle(b.g) && (NoBigCycle(b0.g) ==> b == b0)
    requires b.mp[Start] in kept && b.cantPop[End] in kept
    requires SameWords(b.g, Keep(b.g, kept), b.mp[Start], b.cantPop[End])
    ensures Final(a, b, Keep(b.g, kept))
  {
    hide Trimmed.Of, Breaking.Valid, Sound, Zoned, Straight, NoBigCycle, IsBroken, ReplacedBut, NamesPaired, SameWords,
         Keep;
    var g := Keep(b.g, kept);
    BreakingFacts(b);
    KeepSound(b.C, b.th, b.g, b.copies, kept);
    SmallCyclesAreStraight(b.C, b.th, b.g);
    KeepArcs(b.g, kept);
    StraightSubset(b.g.Arcs(), g.Arcs());
    KeptLabels(b.g, kept);
  }

  lemma KeptLabels(g: Graph, kept: set<nat>)
    ensures forall i | i in Keep(g, kept).nodes :: i in g.nodes && Keep(g, kept).nodes[i] == g.nodes[i]
  {
  }

  lemma FinalIsSimplified(ctx: RuleContext, cons: set<Subtype>, a: Trimmed, b: Breaking, g: Graph,
                          r: Option<set<Subtype>>)
    requires a.Of(InitialEdges(ctx, cons)) && Final(a, b, g) && b.C == cons
    requires r.Some? ==> forall c :: c in r.value <==> Reads(g, a.mp[Start], a.cantPop[End], c)
    requires r.None? <==> Overflowing(g, a.mp[Start], a.cantPop[End])
    ensures IsSimplified(ctx, cons, r, b.th, g, a.mp[Start], a.cantPop[End])
  {
    hide Trimmed.Of, InitialEdges, Reads, Calm, EntailsSpelled, Preserves, WithoutCycles, Unchanged, HasEnds, Zoned,
         Straight, SameWords,
         NoBigCycle, Derivable, Overflowing, IsBroken, ReplacedBut, NamesPaired, HoldsWords, CalmArcs, Conservative,
         NamesMean, KeptArcs, IsKept;
    var s, t := a.mp[Start], a.cantPop[End];
    TrimmedIsKept(ctx, cons, a);
    BrokenIsKept(ctx, b.th, a.g, b.g, b.bk, s, t);
    KeptSubset(ctx, b.th, b.g.Arcs(), g.Arcs());
    if r.Some? {
      forall c | c in r.value ensures IsKept(ctx, b.th, c.lhs.base) && IsKept(ctx, b.th, c.rhs.base) {
        ReadIsKept(ctx, b.th, g, s, t, c);
      }
      forall c | c in r.value ensures Derivable(cons, Subst(b.th, c.lhs), Subst(b.th, c.rhs)) {
        EndsAreSound(cons, b.th, g, s, t);
        ReadDerivable(cons, b.th, g, b.copies, s, t, c);
      }
      SoundIsConservative(cons, r.value, b.th);
      WordsAreHeld(cons, b.th, b.g, g, s, t, r.value);
      SpelledSurvive(ctx, cons, a, b, r.value);
      SpelledPreserve(ctx, cons, r.value);
    }
    if Calm(cons) {
      TrimmedIsCalm(ctx, cons, a);
      BrokenIsCalm(a.g, b.g, b.bk, s, t);
      CalmSubset(b.g.Arcs(), g.Arcs());
      CalmWalks(g, s, t);
    }
    if WithoutCycles(ctx, cons) {
      NothingToBreak(ctx, cons, a);
      ExactWithoutCycles(ctx, cons, a, g, r);
    }
  }

  lemma EndsAreSound(C: set<Subtype>, th: Meaning, g: Graph, s: nat, t: nat)
    requires HasEnds(C, th, g, s, t)
    ensures g.Wf() && Sound(C, th, g)
  {
  }

  lemma CalmSubset(A: set<IdEdge>, B: set<IdEdge>)
    requires CalmArcs(A) && B <= A
    ensures CalmArcs(B)
  {
  }

  lemma KeptSubset(ctx: RuleContext, th: Meaning, A: set<IdEdge>, B: set<IdEdge>)
    requires KeptArcs(ctx, th, A) && B <= A
    ensures KeptArcs(ctx, th, B)
  {
  }

  lemma ExactWithoutCycles(ctx: RuleContext, cons: set<Subtype>, a: Trimmed, g: Graph, r: Option<set<Subtype>>)
    requires a.Of(InitialEdges(ctx, cons)) && Start in a.mp && End in a.cantPop
    requires HasEnds(cons, map[], g, a.mp[Start], a.cantPop[End]) && Straight(g.Arcs())
    requires SameWords(a.g, g, a.mp[Start], a.cantPop[End])
    requires r.Some? ==> forall c :: c in r.value <==> Reads(g, a.mp[Start], a.cantPop[End], c)
    requires r.Some? ==> forall c | c in r.value :: Derivable(cons, Subst(map[], c.lhs), Subst(map[], c.rhs))
    requires r.None? <==> Overflowing(g, a.mp[Start], a.cantPop[End])
    ensures Unchanged(ctx, cons, r)
  {
    hide Trimmed.Of, InitialEdges, Reads, HasEnds, Straight, SameWords, Overflowing, Walks, SX.PushdownRun, NetEmits,
         NetFits, NetConstraint,
         Derivable;
    var s, t := a.mp[Start], a.cantPop[End];
    forall u, v ensures Walks(g, s, t, u, v) <==> SX.PushdownRun(InitialEdges(ctx, cons), Start, u, v, End) {
      WalksAreRuns(ctx, cons, a, g, u, v);
    }
    OverflowNet(cons, map[], g, s, t);
    forall c ensures Reads(g, s, t, c) <==> Spelled(InitialEdges(ctx, cons), c) {
      ReadsNet(cons, map[], g, s, t, c);
    }
    if r.Some? {
      AsTheyStand(cons, r.value);
    }
  }

  lemma AsTheyStand(cons: set<Subtype>, K: set<Subtype>)
    requires forall c | c in K :: Derivable(cons, Subst(map[], c.lhs), Subst(map[], c.rhs))
    ensures EntailsAll(cons, K)
  {
    forall c | c in K ensures Subst(map[], c.lhs) == c.lhs && Subst(map[], c.rhs) == c.rhs {
    }
  }

  lemma UnbrokenBegins(C: set<Subtype>, a: Trimmed, k: nat)
    ensures var b := Unbroken(C, a.g, a.mp, a.cantPop, a.copies, k);
            Begins(b) && b.k == k && b.k0 == k && b.C == C && b.mp == a.mp && b.cantPop == a.cantPop && b.g == a.g
                   && b.g0 == a.g
  {
  }

  /** The automaton object after its cycles were broken. */
  lemma BrokenEnds(fsa: Fsa, a: Trimmed, b0: Breaking, b: Breaking, E0: set<EdgeDef>)
    requires a.Of(E0) && b0.mp == a.mp && b0.cantPop == a.cantPop && fsa.Follows(b) && Proceeds(b0, b)
    ensures b.Valid() && b.C == b0.C && b.g == fsa.grph && Start in a.mp && End in a.cantPop
    ensures Start in b.mp && End in b.cantPop && b.mp == fsa.mp && b.cantPop == fsa.cantPop
    ensures b.mp[Start] == a.mp[Start] && b.cantPop[End] == a.cantPop[End]
    ensures fsa.grph.Wf() && fsa.mp[Start] in fsa.grph.nodes && fsa.cantPop[End] in fsa.grph.nodes
  {
    hide Breaking.Valid, IsSaturation, Split, Placed, Intersected, SaturatedEdges, KeptDef, Keep, SameWords, Matches;
    BreakingFacts(b);
  }

  lemma FinalWalkable(a: Trimmed, b: Breaking, g: Graph)
    requires Final(a, b, g)
    ensures Start in a.mp && End in a.cantPop && g.Wf() && a.mp[Start] in g.nodes
    ensures forall k | k in g.edges :: g.edges[k].lab != Failed
  {
    hide IsBroken, ReplacedBut, NamesPaired, NoBigCycle, Sound, Zoned, SameWords, Straight;
    SoundNotFailed(b.C, b.th, g);
  }

  /**
   * Simplification, a being the automaton before its cycles are broken, b the breaking and g what
   * is walked in the end: what it hands out follows from what was handed in, with each loop breaker
   * standing for the derived variable it replaced, and entails every relation between
   * interesting variables that has a basic proof. None is the overflow of a folded field offset.
   */
  method SimplifyConstraints(ctx: RuleContext, cons: set<Subtype>, vman: VariableManager)
    returns (r: Option<set<Subtype>>, ghost a: Trimmed, ghost b: Breaking, ghost g: Graph)
    requires NoFutureBreakers(cons, vman.currId)
    modifies vman
    ensures a.Of(InitialEdges(ctx, cons)) && Final(a, b, g) && MeaningsOf(b.th, old(vman.currId), vman.currId)
    ensures IsSimplified(ctx, cons, r, b.th, g, a.mp[Start], a.cantPop[End])
  {
    hide *;
    var fsa;
    fsa, a, b := Prepare(ctx, cons, vman.currId);
    UnbrokenBegins(cons, a, vman.currId);
    ghost var b0 := b;
    b := fsa.GenerateRecursiveTypeVariables(vman, b);
    BrokenEnds(fsa, a, b0, b, InitialEdges(ctx, cons));
    ghost var kept := fsa.RemoveUnreachable();
    IsFinal(a, b0, b, kept, InitialEdges(ctx, cons));
    g := fsa.grph;
    FinalWalkable(a, b, g);
    r := WalkConstraints(fsa.grph, fsa.mp[Start], fsa.cantPop[End]);
    FinalIsSimplified(ctx, cons, a, b, g, r);
  }
}
