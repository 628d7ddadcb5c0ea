/**
 * Refining the bounds of sketch nodes by the lattice constants of the constraints
 * (src/solver/type_sketch.rs, label_by, refine_lower, refine_upper, build_without_pointer_simplification).
 */
module SketchLabels {
  import opened Graphs
  import opened Constraints
  import opened Lattice
  import opened CongruenceClosure
  import opened Quotients
  import opened MappingGraphs
  import opened Condensing
  import opened SketchBuilder
  import opened SketchShapes
  import opened PointerSimplification
  import opened SketchLocations

  /** Which type variables are lattice constants, and what they denote. */
  datatype Constants<!T> = Constants(vars: set<TypeVariable>, elem: TypeVariable -> T) {
    predicate Is(d: Dtv) {
      d.base in vars && d.labels == []
    }

    function Of(d: Dtv): T {
      elem(d.base)
    }
  }

  predicate RefinesLower<T(!new)>(k: Constants<T>, names: Names, c: Subtype) {
    k.Is(c.lhs) && c.rhs in names
  }

  /** Only where the constraint does not refine a lower bound already. */
  predicate RefinesUpper<T(!new)>(k: Constants<T>, names: Names, c: Subtype) {
    !RefinesLower(k, names, c) && k.Is(c.rhs) && c.lhs in names
  }

  /** The constants that some constraint puts below, and above, a variable of the node. */
  function Below<T(!new)>(k: Constants<T>, names: Names, cs: set<Subtype>, n: nat): set<T> {
    set c | c in cs && RefinesLower(k, names, c) && names[c.rhs] == n :: k.Of(c.lhs)
  }

  function Above<T(!new)>(k: Constants<T>, names: Names, cs: set<Subtype>, n: nat): set<T> {
    set c | c in cs && RefinesUpper(k, names, c) && names[c.lhs] == n :: k.Of(c.rhs)
  }

  /** Every node's bounds are the tightest around the constants the constraints relate it to. */
  ghost predicate Labelled<T(!new)>(dom: set<T>, o: Ops<T>, k: Constants<T>, names: Names, cs: set<Subtype>,
                                    identity: Bounds<T>, weights: map<nat, Bounds<T>>)
  {
    forall n | n in weights :: LabelledAt(dom, o, k, names, cs, identity, n, weights[n])
  }

  ghost predicate LabelledAt<T(!new)>(dom: set<T>, o: Ops<T>, k: Constants<T>, names: Names, cs: set<Subtype>,
                                      identity: Bounds<T>, n: nat, w: Bounds<T>)
  {
    && IsLub(dom, o, {identity.lower} + Below(k, names, cs, n), w.lower)
    && IsGlb(dom, o, {identity.upper} + Above(k, names, cs, n), w.upper)
  }

  ghost predicate ConstantsIn<T(!new)>(dom: set<T>, k: Constants<T>, identity: Bounds<T>) {
    identity.lower in dom && identity.upper in dom && forall v | v in k.vars :: k.elem(v) in dom
  }

  function RefineLower<T>(o: Ops<T>, w: Bounds<T>, x: T): Bounds<T> {
    Bounds(w.upper, o.join(w.lower, x))
  }

  function RefineUpper<T>(o: Ops<T>, w: Bounds<T>, x: T): Bounds<T> {
    Bounds(o.meet(w.upper, x), w.lower)
  }

  function Refined<T(!new)>(o: Ops<T>, k: Constants<T>, names: Names, c: Subtype, n: nat, w: Bounds<T>): Bounds<T> {
    if RefinesLower(k, names, c) then
      if names[c.rhs] == n then RefineLower(o, w, k.Of(c.lhs)) else w
    else if RefinesUpper(k, names, c) then
      if names[c.lhs] == n then RefineUpper(o, w, k.Of(c.rhs)) else w
    else w
  }

  lemma RefinedStep<T(!new)>(dom: set<T>, o: Ops<T>, k: Constants<T>, names: Names, cs: set<Subtype>,
                             identity: Bounds<T>, c: Subtype, n: nat, w: Bounds<T>)
    requires IsLattice(dom, o) && ConstantsIn(dom, k, identity) && LabelledAt(dom, o, k, names, cs, identity, n, w)
    ensures LabelledAt(dom, o, k, names, cs + {c}, identity, n, Refined(o, k, names, c, n, w))
  {
    hide IsLattice, IsLub, IsGlb;
    var lows, ups := {identity.lower} + Below(k, names, cs, n), {identity.upper} + Above(k, names, cs, n);
    var lows', ups' := {identity.lower} + Below(k, names, cs + {c}, n), {identity.upper} + Above(k, names, cs + {c}, n);
    LubIn(dom, o, lows, w.lower);
    GlbIn(dom, o, ups, w.upper);
    if RefinesLower(k, names, c) && names[c.rhs] == n {
      var x := k.Of(c.lhs);
      assert lows' == lows + {x} && ups' == ups;
      LubAdd(dom, o, lows, w.lower, x);
      Laws(dom, o, x, w.lower, x);
    } else if RefinesUpper(k, names, c) && names[c.lhs] == n {
      var x := k.Of(c.rhs);
      assert lows' == lows && ups' == ups + {x};
      GlbAdd(dom, o, ups, w.upper, x);
      Laws(dom, o, x, w.upper, x);
    } else {
      assert lows' == lows && ups' == ups;
    }
  }

  lemma LubIn<T>(dom: set<T>, o: Ops<T>, S: set<T>, m: T)
    requires IsLub(dom, o, S, m)
    ensures m in dom
  {
  }

  lemma GlbIn<T>(dom: set<T>, o: Ops<T>, S: set<T>, m: T)
    requires IsGlb(dom, o, S, m)
    ensures m in dom
  {
  }

  lemma NothingRefined<T(!new)>(dom: set<T>, o: Ops<T>, k: Constants<T>, names: Names, identity: Bounds<T>,
                                weights: map<nat, Bounds<T>>)
    requires IsLattice(dom, o) && ConstantsIn(dom, k, identity) && AllIdentity(weights, identity)
    ensures Labelled(dom, o, k, names, {}, identity, weights)
  {
    hide IsLattice;
    LeqReflexive(dom, o, identity.lower);
    LeqReflexive(dom, o, identity.upper);
    forall n | n in weights ensures LabelledAt(dom, o, k, names, {}, identity, n, weights[n]) {
      assert {identity.lower} + Below(k, names, {}, n) == {identity.lower};
      assert {identity.upper} + Above(k, names, {}, n) == {identity.upper};
    }
  }

  lemma LabelledStep<T(!new)>(dom: set<T>, o: Ops<T>, k: Constants<T>, names: Names, cs: set<Subtype>,
                              identity: Bounds<T>, c: Subtype, weights: map<nat, Bounds<T>>,
                              weights': map<nat, Bounds<T>>)
    requires IsLattice(dom, o) && ConstantsIn(dom, k, identity) && Labelled(dom, o, k, names, cs, identity, weights)
    requires weights'.Keys == weights.Keys
    requires forall n | n in weights :: weights'[n] == Refined(o, k, names, c, n, weights[n])
    ensures Labelled(dom, o, k, names, cs + {c}, identity, weights')
  {
    hide IsLattice, LabelledAt, ConstantsIn;
    forall n | n in weights' ensures LabelledAt(dom, o, k, names, cs + {c}, identity, n, weights'[n]) {
      RefinedStep(dom, o, k, names, cs, identity, c, n, weights[n]);
    }
  }

  // ----- the same, constraint by constraint -----

  /**
   * x is below the identity's upper bound and below every constant on the right of a constraint
   * whose left side is a variable of the node, unless the left side is a constant too.
   */
  ghost predicate FitsBelow<T(!new)>(o: Ops<T>, k: Constants<T>, names: Names, cs: set<Subtype>, identity: Bounds<T>,
                                     n: nat, x: T) {
    && Leq(o, x, identity.upper)
    && forall c | c in cs && c.lhs in names && names[c.lhs] == n && c.rhs.labels == [] && c.rhs.base in k.vars
                  && !(c.lhs.labels == [] && c.lhs.base in k.vars && c.rhs in names) ::
         Leq(o, x, k.elem(c.rhs.base))
  }

  /** x is above the identity's lower bound and above every constant on the left of a constraint to the node. */
  ghost predicate FitsAbove<T(!new)>(o: Ops<T>, k: Constants<T>, names: Names, cs: set<Subtype>, identity: Bounds<T>,
                                     n: nat, x: T) {
    && Leq(o, identity.lower, x)
    && forall c | c in cs && c.rhs in names && names[c.rhs] == n && c.lhs.labels == [] && c.lhs.base in k.vars ::
         Leq(o, k.elem(c.lhs.base), x)
  }

  /** Every upper bound is the greatest element that fits, and every lower bound the least. */
  ghost predicate Tight<T(!new)>(dom: set<T>, o: Ops<T>, k: Constants<T>, names: Names, cs: set<Subtype>,
                                 identity: Bounds<T>, weights: map<nat, Bounds<T>>)
  {
    forall n | n in weights :: TightAt(dom, o, k, names, cs, identity, n, weights[n])
  }

  ghost predicate TightAt<T(!new)>(dom: set<T>, o: Ops<T>, k: Constants<T>, names: Names, cs: set<Subtype>,
                                   identity: Bounds<T>, n: nat, w: Bounds<T>)
  {
    && w.upper in dom && FitsBelow(o, k, names, cs, identity, n, w.upper)
    && (forall x | x in dom && FitsBelow(o, k, names, cs, identity, n, x) :: Leq(o, x, w.upper))
    && w.lower in dom && FitsAbove(o, k, names, cs, identity, n, w.lower)
    && (forall x | x in dom && FitsAbove(o, k, names, cs, identity, n, x) :: Leq(o, w.lower, x))
  }

  lemma FitsBelowExactly<T(!new)>(o: Ops<T>, k: Constants<T>, names: Names, cs: set<Subtype>, identity: Bounds<T>,
                                  n: nat, x: T)
    ensures FitsBelow(o, k, names, cs, identity, n, x)
       <==> forall y | y in {identity.upper} + Above(k, names, cs, n) :: Leq(o, x, y)
  {
    hide Leq;
    forall c | c in cs && c.lhs in names && names[c.lhs] == n && c.rhs.labels == [] && c.rhs.base in k.vars
      && !(c.lhs.labels == [] && c.lhs.base in k.vars && c.rhs in names)
      ensures k.elem(c.rhs.base) in Above(k, names, cs, n)
    {
      assert RefinesUpper(k, names, c) && k.elem(c.rhs.base) == k.Of(c.rhs);
    }
  }

  lemma FitsAboveExactly<T(!new)>(o: Ops<T>, k: Constants<T>, names: Names, cs: set<Subtype>, identity: Bounds<T>,
                                  n: nat, x: T)
    ensures FitsAbove(o, k, names, cs, identity, n, x)
       <==> forall y | y in {identity.lower} + Below(k, names, cs, n) :: Leq(o, y, x)
  {
    hide Leq;
    forall c | c in cs && c.rhs in names && names[c.rhs] == n && c.lhs.labels == [] && c.lhs.base in k.vars
      ensures k.elem(c.lhs.base) in Below(k, names, cs, n)
    {
      assert RefinesLower(k, names, c) && k.elem(c.lhs.base) == k.Of(c.lhs);
    }
  }

  /** Bounds that are tightest around the related constants respect every constraint, and nothing more. */
  lemma LabelledIsTight<T(!new)>(dom: set<T>, o: Ops<T>, k: Constants<T>, names: Names, cs: set<Subtype>,
                                 identity: Bounds<T>, weights: map<nat, Bounds<T>>)
    ensures Labelled(dom, o, k, names, cs, identity, weights) <==> Tight(dom, o, k, names, cs, identity, weights)
  {
    hide FitsBelow, FitsAbove, Above, Below, Leq;
    forall n | n in weights
      ensures LabelledAt(dom, o, k, names, cs, identity, n, weights[n])
         <==> TightAt(dom, o, k, names, cs, identity, n, weights[n])
    {
      forall x
        ensures FitsBelow(o, k, names, cs, identity, n, x)
           <==> forall y | y in {identity.upper} + Above(k, names, cs, n) :: Leq(o, x, y)
      {
        FitsBelowExactly(o, k, names, cs, identity, n, x);
      }
      forall x
        ensures FitsAbove(o, k, names, cs, identity, n, x)
           <==> forall y | y in {identity.lower} + Below(k, names, cs, n) :: Leq(o, y, x)
      {
        FitsAboveExactly(o, k, names, cs, identity, n, x);
      }
    }
  }

  /** One constraint at a time: a constant on the left raises a lower bound, one on the right lowers an upper bound. */
  method LabelBy<T(!new)>(g: MappingGraph<Dtv, T>, cs: set<Subtype>, k: Constants<T>, ghost dom: set<T>,
                          ghost identity: Bounds<T>)
    requires g.Valid() && IsLattice(dom, g.ops) && ConstantsIn(dom, k, identity) && AllIdentity(g.weights, identity)
    modifies g`weights
    ensures g.Valid() && g.weights.Keys == old(g.weights.Keys)
    ensures Labelled(dom, g.ops, k, g.names, cs, identity, g.weights)
    ensures Tight(dom, g.ops, k, g.names, cs, identity, g.weights)
  {
    hide IsLattice, Inverse, LabelledAt, ConstantsIn, AllIdentity, TightAt;
    NothingRefined(dom, g.ops, k, g.names, identity, g.weights);
    LiveNames(g.names, g.reprs, g.weights.Keys);
    var todo := cs;
    assert cs - todo == {};
    while todo != {}
      invariant todo <= cs && g.Valid() && g.weights.Keys == old(g.weights.Keys)
      invariant Labelled(dom, g.ops, k, g.names, cs - todo, identity, g.weights)
    {
      var c :| c in todo;
      ghost var before := g.weights;
      if RefinesLower(k, g.names, c) {
        var n := g.names[c.rhs];
        g.weights := g.weights[n := RefineLower(g.ops, g.weights[n], k.Of(c.lhs))];
      } else if RefinesUpper(k, g.names, c) {
        var n := g.names[c.lhs];
        g.weights := g.weights[n := RefineUpper(g.ops, g.weights[n], k.Of(c.rhs))];
      }
      LabelledStep(dom, g.ops, k, g.names, cs - todo, identity, c, before, g.weights);
      assert cs - (todo - {c}) == (cs - todo) + {c};
      todo := todo - {c};
    }
    assert cs - todo == cs;
    LabelledIsTight(dom, g.ops, k, g.names, cs, identity, g.weights);
  }

  lemma IdentityMerges<T(!new)>(dom: set<T>, o: Ops<T>, identity: Bounds<T>)
    requires IsLattice(dom, o) && identity.lower in dom && identity.upper in dom
    ensures Operate(o, identity, identity) == identity
  {
    hide IsLattice;
    LeqReflexive(dom, o, identity.lower);
    LeqReflexive(dom, o, identity.upper);
    MeetForm(dom, o, identity.upper, identity.upper);
  }

  /** The sketch graph of the constraints, with bounds but with displacements still in place. */
  method BuildWithoutPointerSimplification<T(!new)>(ops: Ops<T>, cs: set<Subtype>, k: Constants<T>, identity: Bounds<T>,
                                                    ghost dom: set<T>)
    returns (q: MappingGraph<Dtv, T>, ghost b: Built)
    requires IsLattice(dom, ops) && ConstantsIn(dom, k, identity)
    ensures fresh(q) && q.Valid() && q.ops == ops && |q.weights| == |b.groups|
    ensures b.From(cs) && b.names == q.names && b.E == q.edges
    ensures Labelled(dom, ops, k, q.names, cs, identity, q.weights)
    ensures Tight(dom, ops, k, q.names, cs, identity, q.weights)
  {
    hide IsLattice, Built.From, Labelled, Tight, Inverse, AllIdentity;
    IdentityMerges(dom, ops, identity);
    q, b := BuildGraph(ops, cs, identity);
    LabelBy(q, cs, k, dom, identity);
  }

  // ----- after folding -----

  lemma SameRefinements<T(!new)>(k: Constants<T>, names: Names, to: map<nat, nat>, names': Names, c: Subtype)
    requires Follows(names, to, names')
    ensures RefinesLower(k, names', c) <==> RefinesLower(k, names, c)
    ensures RefinesUpper(k, names', c) <==> RefinesUpper(k, names, c)
    ensures RefinesLower(k, names, c) ==> names[c.rhs] in to && names'[c.rhs] == to[names[c.rhs]]
    ensures RefinesUpper(k, names, c) ==> names[c.lhs] in to && names'[c.lhs] == to[names[c.lhs]]
  {
  }

  function AboveParts<T(!new)>(k: Constants<T>, names: Names, cs: set<Subtype>, identity: Bounds<T>,
                               S: set<nat>): map<nat, set<T>> {
    map x | x in S :: {identity.upper} + Above(k, names, cs, x)
  }

  function BelowParts<T(!new)>(k: Constants<T>, names: Names, cs: set<Subtype>, identity: Bounds<T>,
                               S: set<nat>): map<nat, set<T>> {
    map x | x in S :: {identity.lower} + Below(k, names, cs, x)
  }

  lemma AboveUnion<T(!new)>(k: Constants<T>, names: Names, to: map<nat, nat>, names': Names, cs: set<Subtype>,
                            identity: Bounds<T>, m: nat)
    requires Follows(names, to, names') && Sources(to, m) != {}
    ensures IsUnion(AboveParts(k, names, cs, identity, Sources(to, m)), {identity.upper} + Above(k, names', cs, m))
  {
    var parts := AboveParts(k, names, cs, identity, Sources(to, m));
    forall c | c in cs ensures RefinesUpper(k, names', c) <==> RefinesUpper(k, names, c) {
      SameRefinements(k, names, to, names', c);
    }
    forall x, y | x in parts && y in parts[x] ensures y in {identity.upper} + Above(k, names', cs, m) {
      if y != identity.upper {
        var c :| c in cs && RefinesUpper(k, names, c) && names[c.lhs] == x && y == k.Of(c.rhs);
        SameRefinements(k, names, to, names', c);
      }
    }
    forall y | y in {identity.upper} + Above(k, names', cs, m) ensures exists x :: x in parts && y in parts[x] {
      if y == identity.upper {
        var x :| x in Sources(to, m);
        assert y in parts[x];
      } else {
        var c :| c in cs && RefinesUpper(k, names', c) && names'[c.lhs] == m && y == k.Of(c.rhs);
        SameRefinements(k, names, to, names', c);
        assert y in parts[names[c.lhs]];
      }
    }
  }

  lemma BelowUnion<T(!new)>(k: Constants<T>, names: Names, to: map<nat, nat>, names': Names, cs: set<Subtype>,
                            identity: Bounds<T>, m: nat)
    requires Follows(names, to, names') && Sources(to, m) != {}
    ensures IsUnion(BelowParts(k, names, cs, identity, Sources(to, m)), {identity.lower} + Below(k, names', cs, m))
  {
    var parts := BelowParts(k, names, cs, identity, Sources(to, m));
    forall c | c in cs ensures RefinesLower(k, names', c) <==> RefinesLower(k, names, c) {
      SameRefinements(k, names, to, names', c);
    }
    forall x, y | x in parts && y in parts[x] ensures y in {identity.lower} + Below(k, names', cs, m) {
      if y != identity.lower {
        var c :| c in cs && RefinesLower(k, names, c) && names[c.rhs] == x && y == k.Of(c.lhs);
        SameRefinements(k, names, to, names', c);
      }
    }
    forall y | y in {identity.lower} + Below(k, names', cs, m) ensures exists x :: x in parts && y in parts[x] {
      if y == identity.lower {
        var x :| x in Sources(to, m);
        assert y in parts[x];
      } else {
        var c :| c in cs && RefinesLower(k, names', c) && names'[c.rhs] == m && y == k.Of(c.lhs);
        SameRefinements(k, names, to, names', c);
        assert y in parts[names[c.rhs]];
      }
    }
  }

  lemma ConstantsAround<T(!new)>(dom: set<T>, k: Constants<T>, names: Names, cs: set<Subtype>, identity: Bounds<T>,
                                 n: nat)
    requires ConstantsIn(dom, k, identity)
    ensures {identity.upper} + Above(k, names, cs, n) <= dom && {identity.lower} + Below(k, names, cs, n) <= dom
  {
  }

  lemma LabelledIn<T(!new)>(dom: set<T>, o: Ops<T>, k: Constants<T>, names: Names, cs: set<Subtype>,
                            identity: Bounds<T>, weights: map<nat, Bounds<T>>)
    requires Labelled(dom, o, k, names, cs, identity, weights)
    ensures WeightsIn(weights, dom)
  {
    forall n | n in weights ensures weights[n].upper in dom && weights[n].lower in dom {
      assert LabelledAt(dom, o, k, names, cs, identity, n, weights[n]);
    }
  }

  /** Merging nodes keeps the bounds the tightest around the constants that are related to the merged nodes. */
  lemma MergedStayLabelled<T(!new)>(dom: set<T>, o: Ops<T>, k: Constants<T>, names: Names, cs: set<Subtype>,
                                    identity: Bounds<T>, weights: map<nat, Bounds<T>>, to: map<nat, nat>, names': Names,
                                    weights': map<nat, Bounds<T>>)
    requires IsLattice(dom, o) && ConstantsIn(dom, k, identity) && Labelled(dom, o, k, names, cs, identity, weights)
    requires Condenses(o, weights, to, weights') && Follows(names, to, names')
    ensures Labelled(dom, o, k, names', cs, identity, weights')
  {
    hide IsLattice, IsGlb, IsLub, ConstantsIn, Above, Below, Follows, LabelledAt, Condensed;
    LabelledIn(dom, o, k, names, cs, identity, weights);
    assert AllCondensed(dom, o, weights, to, weights');
    forall m | m in weights' ensures LabelledAt(dom, o, k, names', cs, identity, m, weights'[m]) {
      MergedIsLabelled(dom, o, k, names, cs, identity, weights, to, names', m, weights'[m]);
    }
  }

  lemma MergedIsLabelled<T(!new)>(dom: set<T>, o: Ops<T>, k: Constants<T>, names: Names, cs: set<Subtype>,
                                  identity: Bounds<T>, weights: map<nat, Bounds<T>>, to: map<nat, nat>, names': Names,
                                  m: nat, w: Bounds<T>)
    requires IsLattice(dom, o) && ConstantsIn(dom, k, identity) && Labelled(dom, o, k, names, cs, identity, weights)
    requires to.Keys == weights.Keys && Sources(to, m) != {} && Condensed(dom, o, weights, Sources(to, m), w)
    requires Follows(names, to, names')
    ensures LabelledAt(dom, o, k, names', cs, identity, m, w)
  {
    hide IsLattice, IsGlb, IsLub, ConstantsIn, IsUnion, IsRange, Above, Below, Follows, UppersAt, LowersAt;
    var S := Sources(to, m);
    forall x | x in S ensures LabelledAt(dom, o, k, names, cs, identity, x, weights[x]) {
    }
    ConstantsAround(dom, k, names', cs, identity, m);
    UpperRange(weights, S);
    LowerRange(weights, S);
    AboveUnion(k, names, to, names', cs, identity, m);
    BelowUnion(k, names, to, names', cs, identity, m);
    GlbOfGlbs(dom, o, AboveParts(k, names, cs, identity, S), UpperMap(weights, S), UppersAt(weights, S),
              {identity.upper} + Above(k, names', cs, m), w.upper);
    LubOfLubs(dom, o, BelowParts(k, names, cs, identity, S), LowerMap(weights, S), LowersAt(weights, S),
              {identity.lower} + Below(k, names', cs, m), w.lower);
  }

  /**
   * The whole construction: constraints to a sketch graph without foldable displacements, whose
   * bounds are the tightest around the constants that the constraints relate to each node. Every
   * variable of the constraints is where some folded form of its labels leads.
   */
  method BuildAndLabelConstraints<T(!new)>(ops: Ops<T>, cs: set<Subtype>, k: Constants<T>, identity: Bounds<T>,
                                           ghost dom: set<T>)
    returns (sk: SketchGraph<T>, ok: bool, ghost b: Built, ghost steps: nat, ghost to: map<nat, nat>)
    requires IsLattice(dom, ops) && ConstantsIn(dom, k, identity)
    ensures fresh(sk) && fresh(sk.graph) && sk.Valid() && b.From(cs)
    ensures Merged(cs, b.names, b.E)
    ensures Transforms(b.E, to, sk.graph.edges, steps) && Follows(b.names, to, sk.graph.names)
    ensures AllLocated(b.names, b.E) && AllLocatedFolded(sk.graph.names, sk.graph.edges)
    ensures forall c | c in cs ::
            c.lhs in sk.graph.names && c.rhs in sk.graph.names && sk.graph.names[c.lhs] == sk.graph.names[c.rhs]
    ensures Labelled(dom, ops, k, sk.graph.names, cs, identity, sk.graph.weights)
    ensures Tight(dom, ops, k, sk.graph.names, cs, identity, sk.graph.weights)
    ensures ok ==> forall x: nat :: !Foldable(sk.graph.edges, x)
    ensures !ok ==> exists e :: DoesNotFit(sk.graph.edges, e)
  {
    hide IsLattice, Built.From, Labelled, Inverse, Transforms, Condenses, ConstantsIn, AllLinked, Locates,
         LocatedFolded, Tight, Foldable, DoesNotFit;
    var q;
    q, b := BuildWithoutPointerSimplification(ops, cs, k, identity, dom);
    BuiltMergesConstraints(cs, b);
    BuiltIsLinked(cs, b);
    forall d | d in b.names ensures Locates(b.names, b.E, d) {
      BuiltLocates(cs, b, d);
    }
    ghost var weights := q.weights;
    sk := new SketchGraph(q);
    ok, steps, to := sk.SimplifyPointers();
    RunKeepsKeys(b.E, to, sk.graph.edges, steps, b.names, sk.graph.names);
    MergedStayLabelled(dom, ops, k, b.names, cs, identity, weights, to, sk.graph.names, sk.graph.weights);
    LabelledIsTight(dom, ops, k, sk.graph.names, cs, identity, sk.graph.weights);
  }

  ghost predicate Merged(cs: set<Subtype>, names: Names, E: set<SketchEdge>) {
    Agreeing(E) && forall c | c in cs :: c.lhs in names && c.rhs in names && names[c.lhs] == names[c.rhs]
  }
}
