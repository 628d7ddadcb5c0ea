/**
 * What simplification must say about values that flow through parameters and through memory
 * (src/constraints.rs, FieldLabel::variance; src/solver/constraint_graph.rs, simplify_constraints).
 */
module Flows {
  import opened Graphs
  import opened Constraints
  import opened Derivation
  import opened Pushdown
  import opened SaturationLaws
  import opened FsaGraph
  import opened Completeness
  import opened Simplification

  function Var(v: TypeVariable): Dtv {
    Dtv(v, [])
  }

  /** The variable without its tag is interesting. */
  predicate Asked(ctx: RuleContext, v: TypeVariable) {
    TypeVariable(v.name, NoTag, v.isGlobal) in ctx.interesting
  }

  /** p is a basic proof that a is below b. */
  ghost predicate Shows(ctx: RuleContext, C: set<Subtype>, p: Proof, a: Dtv, b: Dtv) {
    p.Checks(C) && Basic(ctx, p) && p.Concl() == Subtype(a, b)
  }

  lemma ShowsGiven(ctx: RuleContext, C: set<Subtype>, c: Subtype)
    requires c in C
    ensures Shows(ctx, C, Given(c), c.lhs, c.rhs)
  {
  }

  lemma ShowsTrans(ctx: RuleContext, C: set<Subtype>, p: Proof, q: Proof, a: Dtv, b: Dtv, c: Dtv)
    requires Shows(ctx, C, p, a, b) && Shows(ctx, C, q, b, c)
    ensures Shows(ctx, C, Trans(p, q), a, c)
  {
  }

  /** Parameters and stored values of what is below are above. */
  lemma ShowsTurned(ctx: RuleContext, C: set<Subtype>, p: Proof, a: TypeVariable, b: TypeVariable, l: FieldLabel)
    requires Shows(ctx, C, p, Var(a), Var(b)) && (l.In? || l == Store)
    ensures Shows(ctx, C, Capability(p, l), Dtv(b, [l]), Dtv(a, [l]))
  {
    assert Var(a).Extend([l]) == Dtv(a, [l]) && Var(b).Extend([l]) == Dtv(b, [l]);
  }

  lemma ShowsPointer(ctx: RuleContext, C: set<Subtype>, v: TypeVariable)
    requires Asked(ctx, v)
    ensures Shows(ctx, C, Pointer(Var(v)), Dtv(v, [Store]), Dtv(v, [Load]))
  {
    assert Var(v).Extend([Store]) == Dtv(v, [Store]) && Var(v).Extend([Load]) == Dtv(v, [Load]);
  }

  /** What has a basic proof follows from what is handed out, and without displacements nothing overflows. */
  lemma ShownSurvives(ctx: RuleContext, C: set<Subtype>, p: Proof, a: TypeVariable, b: TypeVariable,
                      r: Option<set<Subtype>>, th: Meaning, grph: Graph, s: nat, t: nat)
    requires Shows(ctx, C, p, Var(a), Var(b)) && Asked(ctx, a) && Asked(ctx, b)
    requires IsSimplified(ctx, C, r, th, grph, s, t) && Calm(C)
    ensures r.Some? && Derivable(r.value, Var(a), Var(b))
  {
    hide EntailsSpelled, WithoutCycles, Unchanged, Derivable, Calm;
  }

  // ----- parameters -----

  /** y is passed to f, g is used as f, and what g is given is used as x. */
  function PassedOn(x: TypeVariable, y: TypeVariable, f: TypeVariable, g: TypeVariable, i: nat): set<Subtype> {
    {Subtype(Var(y), Dtv(f, [In(i)])), Subtype(Var(g), Var(f)), Subtype(Dtv(g, [In(i)]), Var(x))}
  }

  /** A value passed to a function reaches the parameter of every function used for it. */
  lemma ArgumentsReachParameters(ctx: RuleContext, x: TypeVariable, y: TypeVariable, f: TypeVariable, g: TypeVariable,
                                 i: nat, r: Option<set<Subtype>>, th: Meaning, grph: Graph, s: nat, t: nat)
    requires Asked(ctx, x) && Asked(ctx, y) && IsSimplified(ctx, PassedOn(x, y, f, g, i), r, th, grph, s, t)
    ensures r.Some? && Derivable(r.value, Var(y), Var(x))
  {
    hide Shows, IsSimplified, Asked;
    var cs := PassedOn(x, y, f, g, i);
    var a, b, c := Subtype(Var(y), Dtv(f, [In(i)])), Subtype(Var(g), Var(f)), Subtype(Dtv(g, [In(i)]), Var(x));
    assert a in cs && b in cs && c in cs;
    ShowsGiven(ctx, cs, a);
    ShowsGiven(ctx, cs, b);
    ShowsGiven(ctx, cs, c);
    var turned := Capability(Given(b), In(i));
    ShowsTurned(ctx, cs, Given(b), g, f, In(i));
    ShowsTrans(ctx, cs, turned, Given(c), Dtv(f, [In(i)]), Dtv(g, [In(i)]), Var(x));
    ShowsTrans(ctx, cs, Given(a), Trans(turned, Given(c)), Var(y), Dtv(f, [In(i)]), Var(x));
    ShownSurvives(ctx, cs, Trans(Given(a), Trans(turned, Given(c))), y, x, r, th, grph, s, t);
  }

  /** The same with f and g exchanged where y and x are given. */
  function PassedWrong(x: TypeVariable, y: TypeVariable, f: TypeVariable, g: TypeVariable, i: nat): set<Subtype> {
    {Subtype(Var(y), Dtv(g, [In(i)])), Subtype(Var(g), Var(f)), Subtype(Dtv(f, [In(i)]), Var(x))}
  }

  /** Numbers for derived variables that respect those constraints, although y's is larger than x's. */
  function Size(y: TypeVariable, f: TypeVariable, g: TypeVariable, i: nat, d: Dtv): nat {
    if d == Var(y) || d == Var(f) || d == Dtv(g, [In(i)]) then 1 else 0
  }

  ghost predicate Ordered(y: TypeVariable, f: TypeVariable, g: TypeVariable, i: nat, a: Dtv, b: Dtv) {
    forall w: seq<FieldLabel> :: OrderedAt(y, f, g, i, a, b, w)
  }

  predicate OrderedAt(y: TypeVariable, f: TypeVariable, g: TypeVariable, i: nat, a: Dtv, b: Dtv, w: seq<FieldLabel>) {
    if PathVariance(w) == Covariant then Size(y, f, g, i, a.Extend(w)) <= Size(y, f, g, i, b.Extend(w))
    else Size(y, f, g, i, b.Extend(w)) <= Size(y, f, g, i, a.Extend(w))
  }

  lemma GivenOrdered(x: TypeVariable, y: TypeVariable, f: TypeVariable, g: TypeVariable, i: nat, c: Subtype,
                     w: seq<FieldLabel>)
    requires x != y && x != f && x != g && y != f && y != g && f != g && c in PassedWrong(x, y, f, g, i)
    ensures OrderedAt(y, f, g, i, c.lhs, c.rhs, w)
  {
    hide PathVariance;
    PathVarianceNothing();
    PathVarianceOne(In(i));
    if w == [] {
      assert c.lhs.Extend(w) == c.lhs && c.rhs.Extend(w) == c.rhs;
    } else if w == [In(i)] {
      assert Var(g).Extend(w) == Dtv(g, [In(i)]) && Var(f).Extend(w) == Dtv(f, [In(i)]);
    }
  }

  lemma CapabilityOrdered(y: TypeVariable, f: TypeVariable, g: TypeVariable, i: nat, a: Dtv, b: Dtv, l: FieldLabel)
    requires Ordered(y, f, g, i, a, b)
    ensures l.Variance() == Covariant ==> Ordered(y, f, g, i, a.Extend([l]), b.Extend([l]))
    ensures l.Variance() == Contravariant ==> Ordered(y, f, g, i, b.Extend([l]), a.Extend([l]))
  {
    hide PathVariance, Size;
    forall w
      ensures l.Variance() == Covariant ==> OrderedAt(y, f, g, i, a.Extend([l]), b.Extend([l]), w)
      ensures l.Variance() == Contravariant ==> OrderedAt(y, f, g, i, b.Extend([l]), a.Extend([l]), w)
    {
      assert OrderedAt(y, f, g, i, a, b, [l] + w);
      PathVarianceCons(l, w);
      assert a.Extend([l]).Extend(w) == a.Extend([l] + w) && b.Extend([l]).Extend(w) == b.Extend([l] + w);
    }
  }

  /** Behind a load, a store or a displacement every number is 0. */
  lemma RuleOrdered(y: TypeVariable, f: TypeVariable, g: TypeVariable, i: nat, d: Dtv, u: seq<FieldLabel>,
                    v: seq<FieldLabel>)
    requires u != [] && v != [] && u != [In(i)] && v != [In(i)] && u[0] != In(i) && v[0] != In(i)
    ensures Ordered(y, f, g, i, d.Extend(u), d.Extend(v))
  {
    hide PathVariance;
    forall w ensures OrderedAt(y, f, g, i, d.Extend(u), d.Extend(v), w) {
      assert d.Extend(u).Extend(w).labels[|d.labels|] == u[0] && d.Extend(v).Extend(w).labels[|d.labels|] == v[0];
    }
  }

  lemma {:induction false} ProofOrdered(x: TypeVariable, y: TypeVariable, f: TypeVariable, g: TypeVariable, i: nat,
                                        p: Proof)
    requires x != y && x != f && x != g && y != f && y != g && f != g && p.Checks(PassedWrong(x, y, f, g, i))
    ensures Ordered(y, f, g, i, p.Concl().lhs, p.Concl().rhs)
  {
    hide Size, PathVariance, PassedWrong;
    match p
    case Given(c) =>
      forall w ensures OrderedAt(y, f, g, i, c.lhs, c.rhs, w) {
        GivenOrdered(x, y, f, g, i, c, w);
      }
    case Refl(_) =>
    case Trans(q, r) =>
      ProofOrdered(x, y, f, g, i, q);
      ProofOrdered(x, y, f, g, i, r);
      forall w ensures OrderedAt(y, f, g, i, p.Concl().lhs, p.Concl().rhs, w) {
        assert OrderedAt(y, f, g, i, q.Concl().lhs, q.Concl().rhs, w);
        assert OrderedAt(y, f, g, i, r.Concl().lhs, r.Concl().rhs, w);
      }
    case Capability(q, l) =>
      ProofOrdered(x, y, f, g, i, q);
      CapabilityOrdered(y, f, g, i, q.Concl().lhs, q.Concl().rhs, l);
    case Pointer(d) =>
      RuleOrdered(y, f, g, i, d, [Store], [Load]);
    case AddIn(d, k, access, o, n) =>
      RuleOrdered(y, f, g, i, d, [Add(k), access, Field(o, n)], [access, Field(o + k, n)]);
    case AddOut(d, k, access, o, n) =>
      RuleOrdered(y, f, g, i, d, [access, Field(o + k, n)], [Add(k), access, Field(o, n)]);
  }

  /** A value passed to g does not reach the parameter of f, and simplification does not say it does. */
  lemma ParametersTurnAround(ctx: RuleContext, x: TypeVariable, y: TypeVariable, f: TypeVariable, g: TypeVariable,
                             i: nat, r: Option<set<Subtype>>, th: Meaning, grph: Graph, s: nat, t: nat)
    requires x != y && x != f && x != g && y != f && y != g && f != g && x !in th && y !in th
    requires IsSimplified(ctx, PassedWrong(x, y, f, g, i), r, th, grph, s, t)
    ensures !Derivable(PassedWrong(x, y, f, g, i), Var(y), Var(x))
    ensures r.Some? && !Derivable(r.value, Var(y), Var(x))
  {
    hide EntailsSpelled, WithoutCycles, Unchanged, Preserves;
    var cs := PassedWrong(x, y, f, g, i);
    PathVarianceNothing();
    assert Var(y).Extend([]) == Var(y) && Var(x).Extend([]) == Var(x);
    assert !OrderedAt(y, f, g, i, Var(y), Var(x), []);
    forall p: Proof | p.Checks(cs) ensures p.Concl() != Subtype(Var(y), Var(x)) {
      ProofOrdered(x, y, f, g, i, p);
    }
    assert !Derivable(cs, Var(y), Var(x));
  }

  // ----- memory -----

  /** y is stored through p, q is used as p, and what is loaded through q is used as x. */
  function Stored(x: TypeVariable, y: TypeVariable, p: TypeVariable, q: TypeVariable): set<Subtype> {
    {Subtype(Var(y), Dtv(p, [Store])), Subtype(Var(q), Var(p)), Subtype(Dtv(q, [Load]), Var(x))}
  }

  /** What is stored through an interesting pointer reaches what is loaded through it. */
  lemma StoresReachLoads(ctx: RuleContext, x: TypeVariable, y: TypeVariable, p: TypeVariable, q: TypeVariable,
                         r: Option<set<Subtype>>, th: Meaning, grph: Graph, s: nat, t: nat)
    requires Asked(ctx, x) && Asked(ctx, y) && Asked(ctx, q) && IsSimplified(ctx, Stored(x, y, p, q), r, th, grph, s, t)
    ensures r.Some? && Derivable(r.value, Var(y), Var(x))
  {
    hide Shows, IsSimplified, Asked;
    var cs := Stored(x, y, p, q);
    var a, b, c := Subtype(Var(y), Dtv(p, [Store])), Subtype(Var(q), Var(p)), Subtype(Dtv(q, [Load]), Var(x));
    assert a in cs && b in cs && c in cs;
    ShowsGiven(ctx, cs, a);
    ShowsGiven(ctx, cs, b);
    ShowsGiven(ctx, cs, c);
    var turned, loaded := Capability(Given(b), Store), Trans(Pointer(Var(q)), Given(c));
    ShowsTurned(ctx, cs, Given(b), q, p, Store);
    ShowsPointer(ctx, cs, q);
    ShowsTrans(ctx, cs, Pointer(Var(q)), Given(c), Dtv(q, [Store]), Dtv(q, [Load]), Var(x));
    ShowsTrans(ctx, cs, turned, loaded, Dtv(p, [Store]), Dtv(q, [Store]), Var(x));
    ShowsTrans(ctx, cs, Given(a), Trans(turned, loaded), Var(y), Dtv(p, [Store]), Var(x));
    ShownSurvives(ctx, cs, Trans(Given(a), Trans(turned, loaded)), y, x, r, th, grph, s, t);
  }
}
