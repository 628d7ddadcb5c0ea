/**
 * What saturation keeps: every edge and every fact it adds is a consequence of the
 * constraints (soundness), and the saturated automaton is again its own dual.
 */
module SaturationLaws {
  import opened Graphs
  import opened Constraints
  import opened Derivation
  import opened Pushdown
  import opened Saturation

  // ----- subtyping under a stack of a given sign -----

  /** a.s is a subtype of b.s for every stack s whose variance is the given sign. */
  ghost predicate Flows(C: set<Subtype>, a: Dtv, b: Dtv, sign: Variance) {
    forall s | PathVariance(s) == sign :: Derivable(C, a.Extend(s), b.Extend(s))
  }

  lemma FlowsRefl(C: set<Subtype>, a: Dtv, sign: Variance)
    ensures Flows(C, a, a, sign)
  {
    forall s | PathVariance(s) == sign ensures Derivable(C, a.Extend(s), a.Extend(s)) {
      DeriveRefl(C, a.Extend(s));
    }
  }

  lemma FlowsTrans(C: set<Subtype>, a: Dtv, b: Dtv, c: Dtv, sign: Variance)
    requires Flows(C, a, b, sign) && Flows(C, b, c, sign)
    ensures Flows(C, a, c, sign)
  {
    forall s | PathVariance(s) == sign ensures Derivable(C, a.Extend(s), c.Extend(s)) {
      DeriveTrans(C, a.Extend(s), b.Extend(s), c.Extend(s));
    }
  }

  lemma FlowsUnder(C: set<Subtype>, a: Dtv, b: Dtv, sign: Variance, l: FieldLabel)
    requires Flows(C, a, b, sign)
    ensures Flows(C, a.Extend([l]), b.Extend([l]), sign.Operate(l.Variance()))
  {
    forall s | PathVariance(s) == sign.Operate(l.Variance())
      ensures Derivable(C, a.Extend([l]).Extend(s), b.Extend([l]).Extend(s))
    {
      PathVarianceCons(l, s);
      assert PathVariance([l] + s) == sign;
      assert a.Extend([l]).Extend(s) == a.Extend([l] + s) && b.Extend([l]).Extend(s) == b.Extend([l] + s);
    }
  }

  /** A derivable subtyping flows forwards under covariant stacks, backwards under contravariant ones. */
  lemma FlowsBothWays(C: set<Subtype>, a: Dtv, b: Dtv)
    requires Derivable(C, a, b)
    ensures Flows(C, a, b, Covariant) && Flows(C, b, a, Contravariant)
  {
    forall s
      ensures PathVariance(s) == Covariant ==> Derivable(C, a.Extend(s), b.Extend(s))
      ensures PathVariance(s) == Contravariant ==> Derivable(C, b.Extend(s), a.Extend(s))
    {
      DeriveSuffix(C, a, b, s);
    }
  }

  lemma FlowsPointer(C: set<Subtype>, d: Dtv)
    ensures Flows(C, d.Extend([Store]), d.Extend([Load]), Covariant)
    ensures Flows(C, d.Extend([Load]), d.Extend([Store]), Contravariant)
  {
    var p := Pointer(d);
    assert p.Checks(C) && p.Concl() == Subtype(d.Extend([Store]), d.Extend([Load]));
    FlowsBothWays(C, d.Extend([Store]), d.Extend([Load]));
  }

  // ----- the meaning of states, edges and facts -----

  /** What the variables that stand for something else stand for. */
  type Meaning = map<TypeVariable, Dtv>

  function MeaningOf(th: Meaning, tv: TypeVariable): Dtv {
    if tv in th then th[tv] else Dtv(tv, [])
  }

  function Root(th: Meaning, s: FiniteState): Dtv
    requires s.Tv?
  {
    MeaningOf(th, s.base.tv).Extend(s.path)
  }

  /**
   * Pushing and popping labels leaves the denoted derived variable alone, a success edge
   * goes from subtype to supertype, and along every edge the sign follows the stack.
   */
  ghost predicate EdgeSound(C: set<Subtype>, th: Meaning, e: EdgeDef) {
    match e.lab
    case Success =>
      && e.src.Tv? && e.dst.Tv? && e.src.variance == e.dst.variance
      && Flows(C, Root(th, e.src), Root(th, e.dst), e.src.variance)
    case Push(Label(l)) =>
      && e.src.Tv? && e.dst.Tv? && e.dst.variance == e.src.variance.Operate(l.Variance())
      && Root(th, e.src) == Root(th, e.dst).Extend([l])
    case Pop(Label(l)) =>
      && e.src.Tv? && e.dst.Tv? && e.src.variance == e.dst.variance.Operate(l.Variance())
      && Root(th, e.dst) == Root(th, e.src).Extend([l])
    case Push(Var(tv, _, sign)) =>
      e.dst == End && e.src.Tv? && e.src.variance == sign && Root(th, e.src) == MeaningOf(th, tv)
    case Pop(Var(tv, _, sign)) =>
      e.src == Start && e.dst.Tv? && e.dst.variance == sign && Root(th, e.dst) == MeaningOf(th, tv)
    case Failed => false
  }

  /** From d with any stack s of d's sign there is a way up to v with l.s. */
  ghost predicate FactSound(C: set<Subtype>, f: Fact) {
    match f.sym
    case Label(l) =>
      && f.at.Tv? && f.from.Tv? && f.at.variance == f.from.variance.Operate(l.Variance())
      && Flows(C, Root(map[], f.from), Root(map[], f.at).Extend([l]), f.from.variance)
    case Var(_, _, _) => f.at == End
  }

  // ----- soundness of the initial edges -----

  lemma DirectSound(ctx: RuleContext, cons: set<Subtype>, e: EdgeDef)
    requires e in DirectEdges(ctx, cons)
    ensures EdgeSound(cons, map[], e)
  {
    hide Derivable, Flows, PathVariance;
    var c :| c in cons && (e == SubTypeEdge(ctx.RuleCovariant(c)) || e == SubTypeEdge(ctx.RuleContravariant(c)));
    DeriveGiven(cons, c);
    FlowsBothWays(cons, c.lhs, c.rhs);
    assert Dtv(c.lhs.base, []).Extend(c.lhs.labels) == c.lhs && Dtv(c.rhs.base, []).Extend(c.rhs.labels) == c.rhs;
  }

  lemma {:induction false} PushPopSound(C: set<Subtype>, base: VHat, sign: Variance, path: seq<FieldLabel>, e: EdgeDef)
    requires e in PushPopEdges(base, sign, path)
    ensures EdgeSound(C, map[], e)
    decreases |path|
  {
    var p := PushEdge(base, sign, path);
    var l := path[|path| - 1];
    if e == p || e == FlipEdge(p) {
      assert Root(map[], p.src) == Root(map[], p.dst).Extend([l]) by {
        assert path == path[..|path| - 1] + [l];
      }
    } else {
      PushPopSound(C, base, p.dst.variance, p.dst.path, e);
    }
  }

  lemma InitialSound(ctx: RuleContext, cons: set<Subtype>, e: EdgeDef)
    requires e in InitialEdges(ctx, cons)
    ensures EdgeSound(cons, map[], e)
  {
    hide EdgeSound;
    var direct := DirectEdges(ctx, cons);
    var total := direct + IndirectEdges(direct);
    if e in direct {
      DirectSound(ctx, cons, e);
    } else if e in IndirectEdges(direct) {
      var d :| d in direct && e in PushPopsOf(d);
      var s := if e in PushPopEdgesForState(d.src) then d.src else d.dst;
      PushPopSound(cons, s.base, s.variance, s.path, e);
    } else {
      var d :| d in total && e in StartStopsOf(d);
      assert EdgeSound(cons, map[], e) by {
        StartStopSound(cons, e, d);
      }
    }
  }

  lemma StartStopSound(C: set<Subtype>, e: EdgeDef, d: EdgeDef)
    requires e in StartStopsOf(d)
    ensures EdgeSound(C, map[], e)
  {
  }

  // ----- soundness of saturation -----

  lemma SuccessSound(C: set<Subtype>, e: EdgeDef, f: Fact)
    requires EdgeSound(C, map[], e) && e.lab == Success && FactSound(C, f) && f.at == e.src
    ensures FactSound(C, Fact(e.dst, f.sym, f.from))
  {
    hide Derivable, Flows;
    if f.sym.Label? {
      var l := f.sym.l;
      FlowsUnder(C, Root(map[], e.src), Root(map[], e.dst), e.src.variance, l);
      FlowsTrans(C, Root(map[], f.from), Root(map[], e.src).Extend([l]), Root(map[], e.dst).Extend([l]),
                 f.from.variance);
    }
  }

  lemma SwapSound(C: set<Subtype>, f: Fact)
    requires FactSound(C, f) && IsContra(f.at)
    ensures f.sym == STORE ==> FactSound(C, Fact(f.at.Not(), LOAD, f.from))
    ensures f.sym == LOAD ==> FactSound(C, Fact(f.at.Not(), STORE, f.from))
  {
    hide Derivable, Flows;
    var d := Root(map[], f.at);
    assert Root(map[], f.at.Not()) == d;
    FlowsPointer(C, d);
    if f.sym == STORE {
      FlowsTrans(C, Root(map[], f.from), d.Extend([Store]), d.Extend([Load]), Covariant);
    } else if f.sym == LOAD {
      FlowsTrans(C, Root(map[], f.from), d.Extend([Load]), d.Extend([Store]), Contravariant);
    }
  }

  /** The sound part of a saturation is closed, so it is all of it. */
  lemma SaturationSound(C: set<Subtype>, E0: set<EdgeDef>, E: set<EdgeDef>, F: set<Fact>)
    requires IsSaturation(E0, E, F)
    requires forall e | e in E0 :: EdgeSound(C, map[], e)
    ensures forall e | e in E :: EdgeSound(C, map[], e)
  {
    hide Flows, Derivable;
    var E' := set e | e in E && EdgeSound(C, map[], e);
    var F' := set f | f in F && FactSound(C, f);
    assert E0 <= E';
    forall e | e in E' && e.lab.Push? ensures Fact(e.dst, e.lab.sym, e.src) in F' {
      if e.lab.sym.Label? {
        FlowsRefl(C, Root(map[], e.src), e.src.variance);
      }
      assert FactSound(C, Fact(e.dst, e.lab.sym, e.src));
    }
    forall e, f | e in E' && e.lab == Success && f in F' && f.at == e.src ensures Fact(e.dst, f.sym, f.from) in F' {
      SuccessSound(C, e, f);
    }
    forall e | e in Matches(E', F') ensures e in E' {
      var p, f :| p in E' && f in F' && p.lab == Pop(f.sym) && f.at == p.src && e == Arc(f.from, Success, p.dst);
      assert e in Matches(E, F);
    }
    forall f | f in F' && IsContra(f.at)
      ensures f.sym == STORE ==> Fact(f.at.Not(), LOAD, f.from) in F'
      ensures f.sym == LOAD ==> Fact(f.at.Not(), STORE, f.from) in F'
    {
      SwapSound(C, f);
    }
    assert Closed(E0, E', F');
  }

  // ----- duality -----

  /** Whatever the opposite state can receive under the same symbol gets on to the opposite of from. */
  ghost predicate FactDual(E: set<EdgeDef>, F: set<Fact>, f: Fact) {
    forall g | g in F && g.at == f.at.Not() && g.sym == DualSymbol(f.sym) :: Arc(g.from, Success, f.from.Not()) in E
  }

  lemma NotNot(s: FiniteState)
    ensures s.Not().Not() == s
  {
  }

  /** The self-dual parts of a set of edges and of a set of facts. */
  function DualEdges(E: set<EdgeDef>): set<EdgeDef> {
    set e | e in E && Dual(e) in E
  }

  ghost function DualFacts(E: set<EdgeDef>, F: set<Fact>): set<Fact> {
    set f | f in F && FactDual(E, F, f)
  }

  lemma DualPushRule(E0: set<EdgeDef>, E: set<EdgeDef>, F: set<Fact>, e: EdgeDef)
    requires Closed(E0, E, F) && e in DualEdges(E) && e.lab.Push?
    ensures Fact(e.dst, e.lab.sym, e.src) in DualFacts(E, F)
  {
    forall g | g in F && g.at == e.dst.Not() && g.sym == DualSymbol(e.lab.sym)
      ensures Arc(g.from, Success, e.src.Not()) in E
    {
      assert Arc(g.from, Success, Dual(e).dst) in Matches(E, F);
    }
  }

  lemma DualSuccessRule(E0: set<EdgeDef>, E: set<EdgeDef>, F: set<Fact>, e: EdgeDef, f: Fact)
    requires Closed(E0, E, F) && e in DualEdges(E) && e.lab == Success && f in DualFacts(E, F) && f.at == e.src
    ensures Fact(e.dst, f.sym, f.from) in DualFacts(E, F)
  {
    forall g | g in F && g.at == e.dst.Not() && g.sym == DualSymbol(f.sym)
      ensures Arc(g.from, Success, f.from.Not()) in E
    {
      assert Fact(Dual(e).dst, g.sym, g.from) in F;
    }
  }

  lemma DualMatchRule(E0: set<EdgeDef>, E: set<EdgeDef>, F: set<Fact>, e: EdgeDef)
    requires Closed(E0, E, F) && e in Matches(DualEdges(E), DualFacts(E, F))
    ensures e in DualEdges(E)
  {
    var p, f :| p in DualEdges(E) && f in DualFacts(E, F) && p.lab == Pop(f.sym) && f.at == p.src
        && e == Arc(f.from, Success, p.dst);
    assert e in Matches(E, F);
    assert Fact(Dual(p).dst, DualSymbol(f.sym), Dual(p).src) in F;
  }

  lemma DualSwapRule(E0: set<EdgeDef>, E: set<EdgeDef>, F: set<Fact>, f: Fact)
    requires Closed(E0, E, F) && f in DualFacts(E, F) && IsContra(f.at)
    ensures f.sym == STORE ==> Fact(f.at.Not(), LOAD, f.from) in DualFacts(E, F)
    ensures f.sym == LOAD ==> Fact(f.at.Not(), STORE, f.from) in DualFacts(E, F)
  {
    NotNot(f.at);
  }

  /** The self-dual part of a saturation is closed, so it is all of it. */
  lemma SaturationSelfDual(E0: set<EdgeDef>, E: set<EdgeDef>, F: set<Fact>)
    requires IsSaturation(E0, E, F) && SelfDual(E0)
    ensures SelfDual(E)
  {
    var E', F' := DualEdges(E), DualFacts(E, F);
    assert Closed(E0, E', F') by {
      hide DualFacts;
      forall e | e in E' && e.lab.Push? ensures Fact(e.dst, e.lab.sym, e.src) in F' {
        DualPushRule(E0, E, F, e);
      }
      forall e, f | e in E' && e.lab == Success && f in F' && f.at == e.src ensures Fact(e.dst, f.sym, f.from) in F' {
        DualSuccessRule(E0, E, F, e, f);
      }
      forall e | e in Matches(E', F') ensures e in E' {
        DualMatchRule(E0, E, F, e);
      }
      forall f | f in F' && IsContra(f.at)
        ensures f.sym == STORE ==> Fact(f.at.Not(), LOAD, f.from) in F'
        ensures f.sym == LOAD ==> Fact(f.at.Not(), STORE, f.from) in F'
      {
        DualSwapRule(E0, E, F, f);
      }
    }
  }

  /** The edges the automaton has after saturation. */
  function SaturatedEdges(E0: set<EdgeDef>, E: set<EdgeDef>, F: set<Fact>): set<EdgeDef> {
    E0 + NotReflexive(Matches(E, F))
  }

  lemma SaturatedEdgesSelfDual(E0: set<EdgeDef>, E: set<EdgeDef>, F: set<Fact>)
    requires IsSaturation(E0, E, F) && E == E0 + Matches(E, F) && SelfDual(E0)
    ensures SelfDual(SaturatedEdges(E0, E, F))
  {
    SaturationSelfDual(E0, E, F);
    forall e | e in SaturatedEdges(E0, E, F) ensures Dual(e) in SaturatedEdges(E0, E, F) {
      assert Dual(e) in E;
      if e !in E0 {
        NotNot(e.src);
        NotNot(e.dst);
        DualInvolutive(e);
        assert Dual(e).src != Dual(e).dst;
      }
    }
  }

  /** For the automaton of a constraint set the lookup of an opposite state never fails. */
  lemma OppositeStatePresent(ctx: RuleContext, cons: set<Subtype>, v: FiniteState)
    requires v in InitialStates(ctx, cons)
    ensures v.Not() in InitialStates(ctx, cons)
  {
    InitialEdgesSelfDual(ctx, cons);
  }
}
