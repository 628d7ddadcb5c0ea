/**
 * Where simplification loses constraints, and exactly when it never does. The pointer exchange of
 * saturation acts on labels that a run has pushed, never on labels of the variable it started
 * from; so a store behind one variable may flow to a load behind another without any run relating
 * the two. It takes an interesting and an uninteresting variable for that, and these are enough.
 */
module Incompleteness {
  import opened Graphs
  import opened Constraints
  import opened Derivation
  import opened Pushdown
  import opened Saturation
  import opened SaturationLaws
  import opened PopPush
  import opened Walk
  import opened FsaGraph
  import opened SimplificationExact
  import opened Completeness
  import opened Preparation
  import opened Simplification
  import SX = SaturationExact

  predicate PlainLabel(l: FieldLabel) {
    l.Out? || l.Field?
  }

  predicate PlainPath(path: seq<FieldLabel>) {
    forall i | 0 <= i < |path| :: PlainLabel(path[i])
  }

  /** Interesting variables occur on the right only, and there are no pointers and no inputs. */
  ghost predicate OneSided(ctx: RuleContext, cons: set<Subtype>) {
    forall c | c in cons ::
           c.lhs.base.ToCallee() !in ctx.interesting && PlainPath(c.lhs.labels) && PlainPath(c.rhs.labels)
  }

  /** A left interesting variable only with the contravariant sign, a right one only with the covariant sign. */
  ghost predicate Sided(s: FiniteState) {
    s.Tv? && PlainPath(s.path) && (s.base.Interesting? ==> (s.base.dir == Lhs <==> s.variance == Contravariant))
  }

  /** The sign never changes, so no way leads from the start to the end. */
  ghost predicate KeepsSign(e: EdgeDef) {
    match e.lab
    case Success => Sided(e.src) && Sided(e.dst) && e.src.variance == e.dst.variance
    case Push(Label(l)) => Sided(e.src) && Sided(e.dst) && e.src.variance == e.dst.variance && PlainLabel(l)
    case Pop(Label(l)) => Sided(e.src) && Sided(e.dst) && e.src.variance == e.dst.variance
    case Push(Var(_, _, _)) => e.dst == End && Sided(e.src) && e.src.variance == Covariant
    case Pop(Var(_, _, _)) => e.src == Start && Sided(e.dst) && e.dst.variance == Contravariant
    case Failed => false
  }

  lemma DirectKeepsSign(ctx: RuleContext, cons: set<Subtype>, e: EdgeDef)
    requires OneSided(ctx, cons) && e in DirectEdges(ctx, cons)
    ensures KeepsSign(e) && Sided(e.src) && Sided(e.dst)
  {
  }

  lemma {:induction false} PushPopKeepsSign(base: VHat, sign: Variance, path: seq<FieldLabel>, e: EdgeDef)
    requires Sided(Tv(base, sign, path)) && e in PushPopEdges(base, sign, path)
    ensures KeepsSign(e) && Sided(e.src) && Sided(e.dst)
    decreases |path|
  {
    var p := PushEdge(base, sign, path);
    assert p.dst.variance == sign;
    if e != p && e != FlipEdge(p) {
      PushPopKeepsSign(base, sign, path[..|path| - 1], e);
    }
  }

  lemma StartStopKeepsSign(d: EdgeDef, e: EdgeDef)
    requires Sided(d.src) && Sided(d.dst) && e in StartStopsOf(d)
    ensures KeepsSign(e)
  {
  }

  lemma InitialKeepsSign(ctx: RuleContext, cons: set<Subtype>, e: EdgeDef)
    requires OneSided(ctx, cons) && e in InitialEdges(ctx, cons)
    ensures KeepsSign(e)
  {
    hide KeepsSign, DirectEdges, StartStopsOf, PushPopEdges, Sided, OneSided;
    var direct := DirectEdges(ctx, cons);
    var total := direct + IndirectEdges(direct);
    forall d | d in total ensures KeepsSign(d) && Sided(d.src) && Sided(d.dst) {
      if d in direct {
        DirectKeepsSign(ctx, cons, d);
      } else {
        var b :| b in direct && d in PushPopsOf(b);
        DirectKeepsSign(ctx, cons, b);
        IndirectKeepsSign(b, d);
      }
    }
    if e !in total {
      var d :| d in total && e in StartStopsOf(d);
      StartStopKeepsSign(d, e);
    }
  }

  lemma IndirectKeepsSign(b: EdgeDef, d: EdgeDef)
    requires Sided(b.src) && Sided(b.dst) && d in PushPopsOf(b)
    ensures KeepsSign(d) && Sided(d.src) && Sided(d.dst)
  {
    if d in PushPopEdgesForState(b.src) {
      PushPopKeepsSign(b.src.base, b.src.variance, b.src.path, d);
    } else {
      PushPopKeepsSign(b.dst.base, b.dst.variance, b.dst.path, d);
    }
  }

  /** Where a run from the start can be: at contravariant states, with no load or store on its stack. */
  ghost predicate Confined(c: SX.Config) {
    && (c.at == Start || (c.at.Tv? && c.at.variance == Contravariant))
    && forall i | 0 <= i < |c.stack| :: c.stack[i].sym != LOAD && c.stack[i].sym != STORE
  }

  lemma ConfinedStep(E0: set<EdgeDef>, c: SX.Config, d: SX.Config)
    requires (forall e | e in E0 :: KeepsSign(e)) && Confined(c) && (SX.Inner(E0, c, d) || SX.Outer(E0, c, d))
    ensures Confined(d)
  {
  }

  lemma {:induction false} ConfinedTrace(E0: set<EdgeDef>, t: seq<SX.Config>, c: SX.Config, d: SX.Config)
    requires (forall e | e in E0 :: KeepsSign(e)) && Confined(c) && SX.IsTrace(E0, t, c, d, false)
    ensures Confined(d)
    decreases |t|
  {
    if |t| > 1 {
      var e := t[|t| - 2];
      assert SX.IsTrace(E0, t[..|t| - 1], c, e, false);
      ConfinedTrace(E0, t[..|t| - 1], c, e);
      assert t[|t| - 2 + 1] == d;
      ConfinedStep(E0, e, d);
    }
  }

  /** Such constraints spell nothing, so nothing is handed out for them. */
  lemma NothingSpelled(ctx: RuleContext, cons: set<Subtype>, c: Subtype)
    requires OneSided(ctx, cons)
    ensures !Spelled(InitialEdges(ctx, cons), c)
  {
    var E0 := InitialEdges(ctx, cons);
    forall e | e in E0 ensures KeepsSign(e) {
      InitialKeepsSign(ctx, cons, e);
    }
    if Spelled(E0, c) {
      var u, v :| SX.PushdownRun(E0, Start, u, v, End) && NetEmits(u, v) && NetConstraint(u, v) == c;
      var t :| SX.IsTrace(E0, t, SX.Config(Start, [], []), SX.Config(End, u, SX.Plain(v)), false);
      ConfinedTrace(E0, t, SX.Config(Start, [], []), SX.Config(End, u, SX.Plain(v)));
    }
  }

  /** Yet they may relate interesting variables: w <= x and w.out0 <= y give x.out0.store <= y.load. */
  lemma StillDerivable(w: Dtv, x: Dtv, y: Dtv)
    ensures Derivable({Subtype(w, x), Subtype(w.Extend([Out(0)]), y)}, x.Extend([Out(0), Store]), y.Extend([Load]))
  {
    hide Derivable;
    var C := {Subtype(w, x), Subtype(w.Extend([Out(0)]), y)};
    var a, b, z := x.Extend([Out(0), Store]), w.Extend([Out(0), Store]), w.Extend([Out(0), Load]);
    DeriveGiven(C, Subtype(w, x));
    DeriveGiven(C, Subtype(w.Extend([Out(0)]), y));
    Signs();
    DeriveSuffix(C, w, x, [Out(0), Store]);
    DeriveStoreLoad(C, w.Extend([Out(0)]), []);
    assert w.Extend([Out(0)]).Extend([Store] + []) == b && w.Extend([Out(0)]).Extend([Load] + []) == z by {
      assert [Out(0)] + ([Store] + []) == [Out(0), Store] && [Out(0)] + ([Load] + []) == [Out(0), Load];
      assert w.labels + [Out(0)] + ([Store] + []) == w.labels + [Out(0), Store];
      assert w.labels + [Out(0)] + ([Load] + []) == w.labels + [Out(0), Load];
    }
    DeriveSuffix(C, w.Extend([Out(0)]), y, [Load]);
    assert w.Extend([Out(0)]).Extend([Load]) == z by {
      assert w.labels + [Out(0)] + [Load] == w.labels + [Out(0), Load];
    }
    DeriveTrans(C, a, b, z);
    DeriveTrans(C, a, z, y.Extend([Load]));
  }

  lemma Signs()
    ensures PathVariance([Out(0), Store]) == Contravariant && PathVariance([Load]) == Covariant
    ensures PathVariance([]) == Covariant
  {
    assert [Out(0), Store][..1] == [Out(0)] && [Out(0)][..0] == [] && [Load][..0] == [];
    assert PathVariance([Out(0)]) == Covariant;
  }

  // ----- the simplified constraints are empty -----

  ghost predicate Below(p: Place) {
    p.st == Start || (p.st.Tv? && p.st.variance == Contravariant)
  }

  lemma BelowStep(C: set<Subtype>, E0: set<EdgeDef>, E: set<EdgeDef>, F: set<Fact>, p: PlacedEdge)
    requires (forall e | e in E0 :: KeepsSign(e)) && forall e | e in E :: EdgeSound(C, map[], e)
    requires E == E0 + Matches(E, F) && p in Intersected(SaturatedEdges(E0, E, F)) && Below(p.src)
    ensures Below(p.dst)
  {
    hide Flows, Root, KeepsSign;
    var e := Arc(p.src.st, p.lab, p.dst.st);
    assert e in SaturatedEdges(E0, E, F);
    if e in E0 {
      BelowKept(e);
    } else {
      assert e.lab == Success && EdgeSound(C, map[], e);
    }
  }

  lemma BelowKept(e: EdgeDef)
    requires KeepsSign(e) && (e.src == Start || (e.src.Tv? && e.src.variance == Contravariant))
    ensures e.dst.Tv? && e.dst.variance == Contravariant
  {
  }

  /** No way leads from the start to the end, so there is no cycle on one. */
  lemma OneSidedWithoutCycles(ctx: RuleContext, cons: set<Subtype>)
    requires OneSided(ctx, cons)
    ensures WithoutCycles(ctx, cons)
  {
    hide OneSided, InitialEdges, KeepsSign, IsSaturation, SaturatedEdges, Intersected, Reachable;
    var E0 := InitialEdges(ctx, cons);
    forall e | e in E0 ensures KeepsSign(e) && EdgeSound(cons, map[], e) {
      InitialKeepsSign(ctx, cons, e);
      InitialSound(ctx, cons, e);
    }
    forall E, F | IsSaturation(E0, E, F) ensures NoUsefulCycle(Intersected(SaturatedEdges(E0, E, F))) {
      SaturationSound(cons, E0, E, F);
      SaturationIsMatches(E0, E, F);
      var P := Intersected(SaturatedEdges(E0, E, F));
      forall e | e in P && Reachable(P, Orig(Start), e.src) ensures !Reachable(P, e.dst, Copy(End)) {
        NoWayThrough(cons, E0, E, F, e);
      }
    }
  }

  lemma NoWayThrough(C: set<Subtype>, E0: set<EdgeDef>, E: set<EdgeDef>, F: set<Fact>, e: PlacedEdge)
    requires (forall e | e in E0 :: KeepsSign(e)) && (forall e | e in E :: EdgeSound(C, map[], e))
    requires E == E0 + Matches(E, F)
    requires e in Intersected(SaturatedEdges(E0, E, F))
    requires Reachable(Intersected(SaturatedEdges(E0, E, F)), Orig(Start), e.src)
    ensures !Reachable(Intersected(SaturatedEdges(E0, E, F)), e.dst, Copy(End))
  {
    hide Intersected, SaturatedEdges, EdgeSound, KeepsSign, Reachable;
    var P := Intersected(SaturatedEdges(E0, E, F));
    var I := set p | p in Places(P) && Below(p);
    forall p | p in P && p.src in I ensures p.dst in I {
      BelowStep(C, E0, E, F, p);
    }
    ReachableStaysInside(P, I + {Orig(Start)}, Orig(Start), e.src);
    BelowStep(C, E0, E, F, e);
    if Reachable(P, e.dst, Copy(End)) {
      ReachableStaysInside(P, I, e.dst, Copy(End));
    }
  }

  function Places(P: set<PlacedEdge>): set<Place> {
    (set p | p in P :: p.src) + (set p | p in P :: p.dst)
  }

  /** A saturation consists of the initial edges and the matches. */
  lemma SaturationIsMatches(E0: set<EdgeDef>, E: set<EdgeDef>, F: set<Fact>)
    requires IsSaturation(E0, E, F)
    ensures E == E0 + Matches(E, F)
  {
    assert Closed(E0, E0 + Matches(E, F), F);
  }

  /** Whatever simplification is run for them returns the empty set. */
  lemma OneSidedGivesNothing(ctx: RuleContext, cons: set<Subtype>, r: Option<set<Subtype>>, th: Meaning, g: Graph,
                             s: nat, t: nat)
    requires OneSided(ctx, cons) && IsSimplified(ctx, cons, r, th, g, s, t)
    ensures r == Some({})
  {
    hide OneSided, InitialEdges, Spelled, NetEmits, NetConstraint, NetFits, SX.PushdownRun, WithoutCycles, Reads,
         Overflowing, Calm,
         EntailsSpelled, Preserves, Derivable;
    OneSidedWithoutCycles(ctx, cons);
    assert Unchanged(ctx, cons, r);
    if SpelledOverflow(InitialEdges(ctx, cons)) {
      var u, v :| SX.PushdownRun(InitialEdges(ctx, cons), Start, u, v, End) && NetEmits(u, v) && !NetFits(u, v);
      ThenSpelled(InitialEdges(ctx, cons), u, v);
      NothingSpelled(ctx, cons, NetConstraint(u, v));
    }
    forall c ensures !Spelled(InitialEdges(ctx, cons), c) {
      NothingSpelled(ctx, cons, c);
    }
    assert r.Some? && r.value == {};
  }

  lemma ThenSpelled(E0: set<EdgeDef>, u: seq<StackSymbol>, v: seq<StackSymbol>)
    requires SX.PushdownRun(E0, Start, u, v, End) && NetEmits(u, v)
    ensures Spelled(E0, NetConstraint(u, v))
  {
    hide SX.PushdownRun, NetEmits, NetConstraint;
  }

  // ----- what follows from nothing -----

  function Outs(path: seq<FieldLabel>): nat {
    if path == [] then 0 else Outs(path[..|path| - 1]) + if path[|path| - 1].Out? then 1 else 0
  }

  lemma {:induction false} OutsConcat(u: seq<FieldLabel>, v: seq<FieldLabel>)
    ensures Outs(u + v) == Outs(u) + Outs(v)
    decreases |v|
  {
    if v == [] {
      assert u + v == u;
    } else {
      OutsConcat(u, v[..|v| - 1]);
      assert (u + v)[..|u + v| - 1] == u + v[..|v| - 1];
    }
  }

  /** No rule adds or drops an out label. */
  lemma {:induction false} NothingChangesOuts(p: Proof)
    requires p.Checks({})
    ensures Outs(p.Concl().lhs.labels) == Outs(p.Concl().rhs.labels)
  {
    hide Outs;
    match p
    case Trans(q, r) =>
      NothingChangesOuts(q);
      NothingChangesOuts(r);
    case Capability(q, l) =>
      NothingChangesOuts(q);
      OutsConcat(q.Concl().lhs.labels, [l]);
      OutsConcat(q.Concl().rhs.labels, [l]);
    case Refl(_) =>
    case Pointer(d) => NoOutsInPointers(d);
    case AddIn(d, k, access, o, n) => NoOutsInAdds(d, k, access, o, n);
    case AddOut(d, k, access, o, n) => NoOutsInAdds(d, k, access, o, n);
  }

  lemma {:induction false} NoOuts(path: seq<FieldLabel>)
    requires forall i | 0 <= i < |path| :: !path[i].Out?
    ensures Outs(path) == 0
    decreases |path|
  {
    if path != [] {
      NoOuts(path[..|path| - 1]);
    }
  }

  lemma NoOutsInPointers(d: Dtv)
    ensures Outs(d.Extend([Store]).labels) == Outs(d.labels) == Outs(d.Extend([Load]).labels)
  {
    OutsConcat(d.labels, [Store]);
    OutsConcat(d.labels, [Load]);
    NoOuts([Store]);
    NoOuts([Load]);
  }

  lemma NoOutsInAdds(d: Dtv, k: int, access: FieldLabel, o: int, n: nat)
    requires access.IsPointerAccess()
    ensures Outs(d.Extend([Add(k), access, Field(o, n)]).labels) == Outs(d.labels)
            == Outs(d.Extend([access, Field(o + k, n)]).labels)
  {
    OutsConcat(d.labels, [Add(k), access, Field(o, n)]);
    OutsConcat(d.labels, [access, Field(o + k, n)]);
    NoOuts([Add(k), access, Field(o, n)]);
    NoOuts([access, Field(o + k, n)]);
  }

  /** The lost relation does not hold by itself. */
  lemma NotForNothing(x: TypeVariable, y: TypeVariable)
    ensures !Derivable({}, Dtv(x, [Out(0), Store]), Dtv(y, [Load]))
  {
    var a, b := Dtv(x, [Out(0), Store]), Dtv(y, [Load]);
    NoOuts([Load]);
    assert Outs(a.labels) == 1 by {
      NoOuts([Store]);
      OutsConcat([Out(0)], [Store]);
      assert [Out(0)][..0] == [] && [Out(0)] + [Store] == [Out(0), Store];
    }
    if Derivable({}, a, b) {
      var p: Proof :| p.Checks({}) && p.Concl() == Subtype(a, b);
      NothingChangesOuts(p);
    }
  }

  /** Two constraints that put one uninteresting variable below two interesting ones, or below one twice. */
  function Lossy(w: TypeVariable, x: TypeVariable, y: TypeVariable): set<Subtype> {
    {Subtype(Dtv(w, []), Dtv(x, [])), Subtype(Dtv(w, [Out(0)]), Dtv(y, []))}
  }

  /**
   * They relate the interesting variables, simplification returns the empty set for them, and
   * the empty set does not relate the variables.
   */
  lemma SimplificationIsIncomplete(ctx: RuleContext, w: TypeVariable, x: TypeVariable, y: TypeVariable)
    requires w.ToCallee() !in ctx.interesting && x.ToCallee() in ctx.interesting && y.ToCallee() in ctx.interesting
    ensures Derivable(Lossy(w, x, y), Dtv(x, [Out(0), Store]), Dtv(y, [Load]))
    ensures forall r, th, g, s, t | IsSimplified(ctx, Lossy(w, x, y), r, th, g, s, t) :: r == Some({})
    ensures !Derivable({}, Dtv(x, [Out(0), Store]), Dtv(y, [Load]))
  {
    hide Derivable, IsSimplified;
    StillDerivable(Dtv(w, []), Dtv(x, []), Dtv(y, []));
    assert Dtv(w, []).Extend([Out(0)]) == Dtv(w, [Out(0)]);
    assert Dtv(x, []).Extend([Out(0), Store]) == Dtv(x, [Out(0), Store]) && Dtv(y, []).Extend([Load]) == Dtv(y, [Load]);
    NotForNothing(x, y);
    forall r, th, g, s, t | IsSimplified(ctx, Lossy(w, x, y), r, th, g, s, t) ensures r == Some({}) {
      OneSidedGivesNothing(ctx, Lossy(w, x, y), r, th, g, s, t);
    }
  }

  // ----- exactly when nothing is lost -----

  /** The constraints are between variables of V. */
  ghost predicate Over(cons: set<Subtype>, V: iset<TypeVariable>) {
    forall c | c in cons :: c.lhs.base in V && c.rhs.base in V
  }

  /** Whatever constraints over V entail between interesting variables follows from what the runs spell. */
  ghost predicate NothingLost(ctx: RuleContext, V: iset<TypeVariable>) {
    forall cons, K, a, b | Over(cons, V) && EntailsSpelled(ctx, cons, K) && Relates(ctx, cons, a, b) ::
           Derivable(K, a, b)
  }

  ghost predicate Relates(ctx: RuleContext, cons: set<Subtype>, a: Dtv, b: Dtv) {
    IsInteresting(ctx, a) && IsInteresting(ctx, b) && Derivable(cons, a, b)
  }

  /** Outside of V the constraints do not help. */
  lemma {:induction false} OutsideProof(cons: set<Subtype>, V: iset<TypeVariable>, p: Proof)
    requires Over(cons, V) && p.Checks(cons) && (p.Concl().lhs.base !in V || p.Concl().rhs.base !in V)
    ensures p.Checks({}) && p.Concl().lhs.base == p.Concl().rhs.base
  {
    match p
    case Given(c) =>
    case Trans(q, r) =>
      if p.Concl().lhs.base !in V {
        OutsideProof(cons, V, q);
        OutsideProof(cons, V, r);
      } else {
        OutsideProof(cons, V, r);
        OutsideProof(cons, V, q);
      }
    case Capability(q, _) => OutsideProof(cons, V, q);
    case _ =>
  }

  /** Where all variables are interesting, every proof that touches V is a basic one. */
  lemma {:induction false} InsideProof(ctx: RuleContext, cons: set<Subtype>, V: iset<TypeVariable>, p: Proof)
    requires Over(cons, V) && p.Checks(cons) && (p.Concl().lhs.base in V || p.Concl().rhs.base in V)
    requires forall v | v in V :: v.ToCallee() in ctx.interesting
    ensures Basic(ctx, p) && p.Concl().lhs.base in V && p.Concl().rhs.base in V
  {
    match p
    case Given(c) =>
    case Trans(q, r) =>
      if p.Concl().lhs.base in V {
        InsideProof(ctx, cons, V, q);
        InsideProof(ctx, cons, V, r);
      } else {
        InsideProof(ctx, cons, V, r);
        InsideProof(ctx, cons, V, q);
      }
    case Capability(q, _) => InsideProof(ctx, cons, V, q);
    case _ =>
  }

  lemma NothingLostBetween(ctx: RuleContext, V: iset<TypeVariable>, cons: set<Subtype>, K: set<Subtype>, a: Dtv, b: Dtv)
    requires || (forall v | v in V :: v.ToCallee() in ctx.interesting)
             || (forall v | v in V :: v.ToCallee() !in ctx.interesting)
    requires Over(cons, V) && EntailsSpelled(ctx, cons, K) && Relates(ctx, cons, a, b)
    ensures Derivable(K, a, b)
  {
    hide EntailsSpelled;
    var p: Proof :| p.Checks(cons) && p.Concl() == Subtype(a, b);
    if a.base in V && b.base in V {
      InsideProof(ctx, cons, V, p);
      BasicDerivationsSurvive(ctx, cons, K, p);
    } else {
      OutsideProof(cons, V, p);
      EntailedDerivation(K, {}, a, b);
    }
  }

  /**
   * Over a set of variables simplification never loses a relation if and only if the variables
   * are all interesting or all uninteresting.
   */
  lemma NothingLostExactly(ctx: RuleContext, V: iset<TypeVariable>)
    ensures NothingLost(ctx, V)
       <==> (forall v | v in V :: v.ToCallee() in ctx.interesting)
            || (forall v | v in V :: v.ToCallee() !in ctx.interesting)
  {
    hide EntailsSpelled, Derivable;
    if x, w :| x in V && w in V && x.ToCallee() in ctx.interesting && w.ToCallee() !in ctx.interesting {
      SimplificationIsIncomplete(ctx, w, x, x);
      EmptyHoldsSpelled(ctx, Lossy(w, x, x));
      assert Relates(ctx, Lossy(w, x, x), Dtv(x, [Out(0), Store]), Dtv(x, [Load]));
    } else {
      forall cons, K, a, b | Over(cons, V) && EntailsSpelled(ctx, cons, K) && Relates(ctx, cons, a, b)
        ensures Derivable(K, a, b)
      {
        NothingLostBetween(ctx, V, cons, K, a, b);
      }
    }
  }

  lemma EmptyHoldsSpelled(ctx: RuleContext, cons: set<Subtype>)
    requires OneSided(ctx, cons)
    ensures EntailsSpelled(ctx, cons, {})
  {
    hide OneSided, Spelled, InitialEdges;
    forall c ensures !Spelled(InitialEdges(ctx, cons), c) {
      NothingSpelled(ctx, cons, c);
    }
  }

  // ----- constraint sets that lose nothing -----

  predicate WithoutPointers(d: Dtv) {
    forall l | l in d.labels :: !l.IsPointerAccess() && !l.Add?
  }

  /**
   * No constraint relates the variables of V, which are interesting, to others, and constraints
   * between the others mention neither loads nor stores nor displacements.
   */
  ghost predicate Harmless(ctx: RuleContext, cons: set<Subtype>, V: iset<TypeVariable>) {
    && (forall v | v in V :: v.ToCallee() in ctx.interesting)
    && (forall c | c in cons ::
          if c.lhs.base in V then c.rhs.base in V
          else c.rhs.base !in V && WithoutPointers(c.lhs) && WithoutPointers(c.rhs))
  }

  /** A proof that starts or ends at a variable of V, or without pointers, never applies a rule elsewhere. */
  lemma {:induction false} HarmlessProof(ctx: RuleContext, cons: set<Subtype>, V: iset<TypeVariable>, p: Proof)
    requires Harmless(ctx, cons, V) && p.Checks(cons)
    ensures p.Concl().lhs.base in V <==> p.Concl().rhs.base in V
    ensures p.Concl().lhs.base !in V ==> (WithoutPointers(p.Concl().lhs) <==> WithoutPointers(p.Concl().rhs))
    ensures p.Concl().lhs.base in V || WithoutPointers(p.Concl().lhs) ==> Basic(ctx, p)
  {
    match p
    case Trans(q, r) =>
      HarmlessProof(ctx, cons, V, q);
      HarmlessProof(ctx, cons, V, r);
    case Capability(q, l) =>
      HarmlessProof(ctx, cons, V, q);
      PointersExtend(q.Concl().lhs, l);
      PointersExtend(q.Concl().rhs, l);
    case Pointer(d) =>
      PointersExtend(d, Store);
      PointersExtend(d, Load);
    case AddIn(d, k, access, o, n) =>
      PointerInside(d, [Add(k), access, Field(o, n)], access);
      PointerInside(d, [access, Field(o + k, n)], access);
    case AddOut(d, k, access, o, n) =>
      PointerInside(d, [Add(k), access, Field(o, n)], access);
      PointerInside(d, [access, Field(o + k, n)], access);
    case _ =>
  }

  lemma PointersExtend(d: Dtv, l: FieldLabel)
    ensures WithoutPointers(d.Extend([l])) <==> WithoutPointers(d) && !l.IsPointerAccess() && !l.Add?
  {
    assert l in d.Extend([l]).labels;
    assert forall m | m in d.labels :: m in d.Extend([l]).labels;
  }

  lemma PointerInside(d: Dtv, s: seq<FieldLabel>, access: FieldLabel)
    requires access in s && access.IsPointerAccess()
    ensures !WithoutPointers(d.Extend(s))
  {
    assert access in d.Extend(s).labels;
  }

  /**
   * For such constraints nothing is lost about variables of V, and nothing about others that says
   * nothing about loads, stores and displacements.
   */
  lemma HarmlessLosesNothing(ctx: RuleContext, cons: set<Subtype>, V: iset<TypeVariable>, K: set<Subtype>, a: Dtv,
                             b: Dtv)
    requires Harmless(ctx, cons, V) && EntailsSpelled(ctx, cons, K) && Relates(ctx, cons, a, b)
    requires a.base in V || WithoutPointers(a)
    ensures Derivable(K, a, b)
  {
    hide EntailsSpelled, Harmless;
    var p: Proof :| p.Checks(cons) && p.Concl() == Subtype(a, b);
    HarmlessProof(ctx, cons, V, p);
    BasicDerivationsSurvive(ctx, cons, K, p);
  }
}
