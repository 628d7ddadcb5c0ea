/**
 * Where the variables of the constraints lead once displacements have been folded into fields
 * (src/solver/type_sketch.rs, apply_pointer_transform, simplify_pointers).
 */
module SketchLocations {
  import opened Graphs
  import opened Constraints
  import opened Derivation
  import opened CongruenceClosure
  import opened Quotients
  import opened SimplifyPath
  import opened PointerSimplification
  import opened PointerPaths
  import opened SketchBuilder
  import opened SketchShapes

  /** The edge that a variable hangs from. */
  function EdgeTo(names: Names, d: Dtv): SketchEdge
    requires d in names && d.labels != [] && Front(d) in names
  {
    Arc(names[Front(d)], Last(d), names[d])
  }

  /** The edges along the prefixes of a variable. */
  ghost function KeyPath(names: Names, E: set<SketchEdge>, d: Dtv): EdgePath
    requires AllLinked(names, E) && d in names
    decreases |d.labels|
  {
    assert Linked(names, E, d);
    if d.labels == [] then [] else KeyPath(names, E, Front(d)) + [EdgeTo(names, d)]
  }

  lemma {:induction false} KeyPathConnects(names: Names, E: set<SketchEdge>, d: Dtv)
    requires AllLinked(names, E) && d in names
    ensures Dtv(d.base, []) in names && Connects(E, names[Dtv(d.base, [])], KeyPath(names, E, d), names[d])
    ensures LabelsOf(KeyPath(names, E, d)) == d.labels
    decreases |d.labels|
  {
    assert Linked(names, E, d);
    if d.labels == [] {
      assert d == Dtv(d.base, []);
    } else {
      hide AllLinked;
      var e, p := EdgeTo(names, d), KeyPath(names, E, Front(d));
      KeyPathConnects(names, E, Front(d));
      ConnectsSnoc(E, names[Dtv(d.base, [])], p, e);
      LabelsConcat(p, [e]);
      assert LabelsOf([e]) == [e.lab] && d.labels == Front(d).labels + [Last(d)];
    }
  }

  /** The labels of d lead to its node, and so do those of its prefixes to theirs. */
  ghost predicate LocatedAlong(names: Names, E: set<SketchEdge>, d: Dtv)
    decreases |d.labels|
  {
    Locates(names, E, d) && (d.labels != [] ==> LocatedAlong(names, E, Front(d)))
  }

  lemma LocatesSnoc(names: Names, E: set<SketchEdge>, d: Dtv)
    requires d in names && d.labels != [] && Locates(names, E, Front(d))
    ensures Locates(names, E, d) <==> Step(E, {names[Front(d)]}, Last(d)) == {names[d]}
  {
    assert d.labels == Front(d).labels + [Last(d)];
    RunSnoc(E, {names[Dtv(d.base, [])]}, Front(d).labels, Last(d));
  }

  lemma LinkedEnds(n: nat, E: set<SketchEdge>, x: nat, home: map<nat, nat>, names: Names, d: Dtv)
    requires Simplified(n, E, x, home) && AllLinked(names, E) && d in names && d.labels != []
    ensures Front(d) in names && EdgeTo(names, d) in E
    ensures EdgeTo(names, d).src in home && EdgeTo(names, d).dst in home
  {
    hide HomesJoined, Agreeing, Transformed;
    assert Linked(names, E, d);
  }

  /**
   * After a transform a variable, with its prefixes, is still where its labels lead if and only if
   * every edge along it survives.
   */
  lemma {:induction false} KeyStaysExactly(n: nat, E: set<SketchEdge>, x: nat, home: map<nat, nat>, names: Names,
                                           names': Names, d: Dtv)
    requires Simplified(n, E, x, home) && AllLinked(names, E) && Follows(names, home, names') && d in names
    ensures LocatedAlong(names', NewGraph(E, x, home), d)
       <==> forall e | e in KeyPath(names, E, d) :: Survives(n, E, x, e)
    decreases |d.labels|
  {
    var I := NewGraph(E, x, home);
    if d.labels == [] {
      assert d == Dtv(d.base, []);
    } else {
      hide HomesJoined, Agreeing, Transformed, NewGraph, Survives, AllLinked, Locates;
      LinkedEnds(n, E, x, home, names, d);
      var e, p := EdgeTo(names, d), KeyPath(names, E, Front(d));
      KeyStaysExactly(n, E, x, home, names, names', Front(d));
      SurvivesExactly(n, E, x, home, e);
      assert KeyPath(names, E, d) == p + [e];
      LocatedFront(names', I, d);
    }
  }

  lemma LocatedFront(names: Names, E: set<SketchEdge>, d: Dtv)
    requires d in names && d.labels != []
    ensures LocatedAlong(names, E, d)
       <==> LocatedAlong(names, E, Front(d)) && Front(d) in names && Step(E, {names[Front(d)]}, Last(d)) == {names[d]}
  {
    if LocatedAlong(names, E, Front(d)) {
      LocatesSnoc(names, E, d);
    }
  }

  ghost predicate AllLocated(names: Names, E: set<SketchEdge>) {
    forall d | d in names :: Locates(names, E, d)
  }

  ghost predicate KeyEdgesSurvive(n: nat, E: set<SketchEdge>, x: nat, names: Names)
    requires AllLinked(names, E)
  {
    forall d, e | d in names && e in KeyPath(names, E, d) :: Survives(n, E, x, e)
  }

  lemma {:induction false} LocatedWithPrefixes(names: Names, E: set<SketchEdge>, d: Dtv)
    requires AllLocated(names, E) && d in names
    requires forall f | f in names && f.labels != [] :: Front(f) in names
    ensures LocatedAlong(names, E, d)
    decreases |d.labels|
  {
    if d.labels != [] {
      LocatedWithPrefixes(names, E, Front(d));
    }
  }

  /** All variables are still located if and only if every edge along one of them survives. */
  lemma KeysStayExactly(n: nat, E: set<SketchEdge>, x: nat, home: map<nat, nat>, names: Names, names': Names)
    requires Simplified(n, E, x, home) && AllLinked(names, E) && Follows(names, home, names')
    ensures AllLocated(names', NewGraph(E, x, home)) <==> KeyEdgesSurvive(n, E, x, names)
  {
    hide HomesJoined, Agreeing, Transformed, NewGraph, Survives, Locates;
    var I := NewGraph(E, x, home);
    forall d | d in names
      ensures LocatedAlong(names', I, d) <==> forall e | e in KeyPath(names, E, d) :: Survives(n, E, x, e)
    {
      KeyStaysExactly(n, E, x, home, names, names', d);
    }
    forall f | f in names && f.labels != [] ensures Front(f) in names {
      assert Linked(names, E, f);
    }
    if AllLocated(names', I) {
      forall d | d in names ensures LocatedAlong(names', I, d) {
        LocatedWithPrefixes(names', I, d);
      }
    }
  }

  /**
   * Where a variable leads that is no longer where its labels lead: with any displacement into the
   * pointer taken as pending wherever there is none, its folded labels lead to its node.
   */
  lemma KeyIsFolded(n: nat, E: set<SketchEdge>, x: nat, home: map<nat, nat>, names: Names, names': Names, d: Dtv,
                    disp: int)
    requires Simplified(n, E, x, home) && CanSimplify(E, x) && IsDisplacement(E, x, disp)
    requires AllLinked(names, E) && Follows(names, home, names') && d in names
    ensures Dtv(d.base, []) in names'
    ensures var w := Folded(TransformOf(E, x), KeyPath(names, E, d), Some(disp), Some(disp));
            Folds(d.labels, w) && Run(NewGraph(E, x, home), {names'[Dtv(d.base, [])]}, w) == {names'[d]}
  {
    hide HomesJoined, Agreeing, Transformed, NewGraph, CanSimplify, Folded, Folds, Run, PathKept, TransformOf;
    KeyPathConnects(names, E, d);
    var p, k := KeyPath(names, E, d), Some(disp);
    NeverBare(n, E, x, p, k, k);
    FoldsPath(n, E, x, home, names[Dtv(d.base, [])], p, names[d], k, k);
    FoldedFolds(E, x, p, k, k);
  }

  /**
   * Under the guard a variable outside the pointer, of a base outside it, is where its labels lead
   * after some displacements have been moved into fields: at a derivably equal variable.
   */
  lemma KeyMeansTheSame(C: set<Subtype>, n: nat, E: set<SketchEdge>, x: nat, home: map<nat, nat>, names: Names,
                        names': Names, d: Dtv)
    returns (w: seq<FieldLabel>)
    requires Simplified(n, E, x, home) && CanSimplify(E, x) && Guarded(E, x)
    requires AllLinked(names, E) && Follows(names, home, names') && d in names && Dtv(d.base, []) in names
    requires Outside(E, x, names[Dtv(d.base, [])]) && Outside(E, x, names[d])
    ensures Rewrites(d.labels, w) && Equivalent(C, d, Dtv(d.base, w))
    ensures Run(NewGraph(E, x, home), {names'[Dtv(d.base, [])]}, w) == {names'[d]}
  {
    hide HomesJoined, Agreeing, Transformed, NewGraph, CanSimplify, Guarded, Folded, Rewrites, TransformOf, Derivable,
         IsDisplacement;
    var a, p := names[Dtv(d.base, [])], KeyPath(names, E, d);
    KeyPathConnects(names, E, d);
    w := Folded(TransformOf(E, x), p, None, None);
    TransformFoldsPaths(n, E, x, home);
    assert Start(a, None) in OutsideOrPending(E, x);
    NothingLeftOutside(E, x, a, p, names[d], None);
    FoldedRewrites(E, x, a, p, names[d]);
    RewritesEquivalent(C, Dtv(d.base, []), d.labels, w);
    assert Dtv(d.base, []).Extend(d.labels) == d && Dtv(d.base, []).Extend(w) == Dtv(d.base, w);
  }

  lemma {:induction false} NothingLeftOutside(E: set<SketchEdge>, x: nat, a: nat, p: EdgePath, b: nat,
                                              pending: Option<int>)
    requires Connects(E, a, p, b) && Outside(E, x, b) && (pending.Some? ==> !Outside(E, x, a))
    ensures After(TransformOf(E, x), p, pending, None).None?
    decreases |p|
  {
    if p != [] {
      NothingLeftOutside(E, x, p[0].dst, p[1..], b, Next(TransformOf(E, x), p[0], pending, None));
    }
  }

  lemma RewritesEquivalent(C: set<Subtype>, d: Dtv, u: Path, w: Path)
    requires Rewrites(u, w)
    ensures Equivalent(C, d.Extend(u), d.Extend(w))
  {
    hide Derivable, IsRewriting;
    var t :| IsRewriting(t, u, w);
    RewritingKeepsNorm(t, u, w);
    NormEquivalent(C, d, u);
    NormEquivalent(C, d, w);
    DeriveTrans(C, d.Extend(u), d.Extend(Norm(u)), d.Extend(w));
    DeriveTrans(C, d.Extend(w), d.Extend(Norm(w)), d.Extend(u));
  }

  // ----- over a whole run -----

  /** Some folded form of the labels of d leads from its base to its node. */
  ghost predicate LocatedFolded(names: Names, E: set<SketchEdge>, d: Dtv) {
    && d in names && Dtv(d.base, []) in names
    && exists w :: Folds(d.labels, w) && Run(E, {names[Dtv(d.base, [])]}, w) == {names[d]}
  }

  ghost predicate AllLocatedFolded(names: Names, E: set<SketchEdge>) {
    forall d | d in names :: LocatedFolded(names, E, d)
  }

  /**
   * Whatever is transformed, every variable is where its labels lead once some displacements are
   * dropped and some offsets moved.
   */
  lemma RunKeepsKeys(E: set<SketchEdge>, to: map<nat, nat>, E': set<SketchEdge>, steps: nat, names: Names,
                     names': Names)
    requires Transforms(E, to, E', steps) && Agreeing(E) && AllLinked(names, E) && Follows(names, to, names')
    ensures AllLocatedFolded(names', E')
  {
    hide Transforms, Agreeing, AllLinked, Folds, Run;
    forall d | d in names ensures LocatedFolded(names', E', d) {
      KeyPathConnects(names, E, d);
      var w := TransformsFoldPaths(E, to, E', steps, names[Dtv(d.base, [])], KeyPath(names, E, d), names[d]);
    }
  }

  /** In particular parameters, results and what is loaded or stored through pointers stay exactly where they were. */
  lemma PlainKeysStay(names: Names, E: set<SketchEdge>, d: Dtv)
    requires LocatedFolded(names, E, d) && forall l | l in d.labels :: !l.Add? && !l.Field?
    ensures Locates(names, E, d)
  {
    var w :| Folds(d.labels, w) && Run(E, {names[Dtv(d.base, [])]}, w) == {names[d]};
    FoldsPlain(d.labels, w);
  }

  // ----- a variable that loses a field it was constrained to have -----

  /** A field of so many bits at an offset, loaded or stored through a pointer that has been displaced. */
  datatype Reach = Reach(disp: int, access: FieldLabel, offset: int, size: nat) {
    predicate Valid() {
      access == Load || access == Store
    }

    function Target(): FieldLabel {
      Field(offset, size)
    }

    function Moved(): FieldLabel {
      Field(offset + disp, size)
    }
  }

  /** y is x displaced, and what y points to has the field, which z is. */
  function DisplacedPointer(x: TypeVariable, y: TypeVariable, z: TypeVariable, r: Reach): set<Subtype> {
    {Subtype(Dtv(x, [Add(r.disp)]), Dtv(y, [])), Subtype(Dtv(y, [r.access, r.Target()]), Dtv(z, []))}
  }

  function Chain(x: nat, y: nat, l: nat, z: nat, r: Reach): set<SketchEdge> {
    {Arc(x, Add(r.disp), y), Arc(y, r.access, l), Arc(l, r.Target(), z)}
  }

  lemma MentionedVariables(x: TypeVariable, y: TypeVariable, z: TypeVariable, r: Reach, d: Dtv)
    ensures d in Mentioned(DisplacedPointer(x, y, z, r)) && d.labels != []
       <==> d == Dtv(x, [Add(r.disp)]) || d == Dtv(y, [r.access]) || d == Dtv(y, [r.access, r.Target()])
  {
    var cs := DisplacedPointer(x, y, z, r);
    var c, c' := Subtype(Dtv(x, [Add(r.disp)]), Dtv(y, [])), Subtype(Dtv(y, [r.access, r.Target()]), Dtv(z, []));
    assert c in cs && c' in cs;
    assert Prefix(c.lhs, 1) == Dtv(x, [Add(r.disp)]);
    assert Prefix(c'.lhs, 1) == Dtv(y, [r.access]);
    assert Prefix(c'.lhs, 2) == Dtv(y, [r.access, r.Target()]);
    assert Prefixes(c.lhs) <= PrefixesOf(c) && Prefixes(c'.lhs) <= PrefixesOf(c');
    assert PrefixesOf(c) <= Mentioned(cs) && PrefixesOf(c') <= Mentioned(cs);
    if d in Mentioned(cs) && d.labels != [] {
      var s :| s in cs && d in PrefixesOf(s);
      assert s == c || s == c';
    }
  }

  /** Every edge of a built graph leads to a variable from its prefix. */
  lemma BuiltEdge(cs: set<Subtype>, b: Built, e: SketchEdge) returns (d: Dtv)
    requires b.From(cs) && e in b.E
    ensures d in b.names && d.labels != [] && Front(d) in b.names && e == EdgeTo(b.names, d)
  {
    hide AllLinked, IsPartition, SameGroup, Congruent, IsHome, Mentioned;
    var e0 :| e0 in b.E0 && e == ImageEdge(b.home, e0);
    d :| LinksTo(b.names0, e0, d);
  }

  lemma BuiltKeys(cs: set<Subtype>, b: Built)
    requires b.From(cs)
    ensures b.names.Keys == Mentioned(cs)
  {
    hide PrefixGraph, ExactGroups, IsHome, Mentioned;
  }

  lemma BuiltFronts(cs: set<Subtype>, b: Built, d: Dtv)
    requires b.From(cs) && d in Mentioned(cs) && d.labels != []
    ensures d in b.names && Front(d) in b.names && EdgeTo(b.names, d) in b.E
  {
    hide Built.From, Mentioned, AllLinked;
    BuiltKeys(cs, b);
    BuiltIsLinked(cs, b);
    KeyLinked(b.names, b.E, d);
  }

  lemma BuiltChain(x: TypeVariable, y: TypeVariable, z: TypeVariable, r: Reach, b: Built)
    requires r.Valid() && x != y && x != z && y != z && b.From(DisplacedPointer(x, y, z, r))
    ensures {Dtv(x, []), Dtv(y, []), Dtv(y, [r.access]), Dtv(z, [])} <= b.names.Keys
    ensures var i, j := b.names[Dtv(x, [])], b.names[Dtv(y, [])];
            var l, k := b.names[Dtv(y, [r.access])], b.names[Dtv(z, [])];
            |{i, j, l, k}| == 4 && b.E == Chain(i, j, l, k, r)
  {
    hide Built.From, Mentioned, Locates;
    var cs := DisplacedPointer(x, y, z, r);
    var dx, dy, dl, dz := Dtv(x, []), Dtv(y, []), Dtv(y, [r.access]), Dtv(z, []);
    var da, df := Dtv(x, [Add(r.disp)]), Dtv(y, [r.access, r.Target()]);
    BuiltMergesConstraints(cs, b);
    assert Subtype(da, dy) in cs && Subtype(df, dz) in cs;
    forall d | d == da || d == dl || d == df
      ensures d in b.names && d.labels != [] && Front(d) in b.names && EdgeTo(b.names, d) in b.E
    {
      MentionedVariables(x, y, z, r, d);
      BuiltFronts(cs, b, d);
    }
    assert Front(da) == dx && Front(dl) == dy && Front(df) == dl;
    var E := Chain(b.names[dx], b.names[dy], b.names[dl], b.names[dz], r);
    forall e | e in b.E ensures e in E {
      var d := BuiltEdge(cs, b, e);
      BuiltKeys(cs, b);
      MentionedVariables(x, y, z, r, d);
    }
    assert EdgeTo(b.names, da) in b.E && EdgeTo(b.names, dl) in b.E && EdgeTo(b.names, df) in b.E;
    assert E <= b.E;
    var lv := (v: TypeVariable) => if v == x then 0 else if v == y then 1 else 3;
    forall d, f | d in b.names && f in b.names && b.names[d] == b.names[f] ensures Level(lv, d) == Level(lv, f) {
      SameNodeSameLevel(cs, b, lv, d, f);
    }
    assert Level(lv, dx) == 0 && Level(lv, dy) == 1 && Level(lv, dl) == 2 && Level(lv, dz) == 3;
  }

  lemma ChainEdges(x: nat, y: nat, l: nat, z: nat, r: Reach)
    ensures Arc(x, Add(r.disp), y) in Chain(x, y, l, z, r) && Arc(y, r.access, l) in Chain(x, y, l, z, r)
    ensures Arc(l, r.Target(), z) in Chain(x, y, l, z, r)
  {
  }

  lemma ChainQualifies(x: nat, y: nat, l: nat, z: nat, r: Reach)
    requires r.Valid() && x != y && x != l && x != z && y != l && y != z && l != z
    ensures var E := Chain(x, y, l, z, r); CanSimplify(E, y) && Guarded(E, y)
  {
    ChainEdges(x, y, l, z, r);
    assert IsStructure(Chain(x, y, l, z, r), l) && IsPointer(Chain(x, y, l, z, r), y);
  }

  /** The field behind the chain is moved away. */
  lemma ChainMoves(x: nat, y: nat, l: nat, z: nat, r: Reach)
    requires r.Valid() && r.disp != 0 && x != y && x != l && x != z && y != l && y != z && l != z
    ensures forall e | e in Transformed(Chain(x, y, l, z, r), y) :: e.lab != r.Target()
  {
    hide Transformed, TransformOf, Becomes;
    var E := Chain(x, y, l, z, r);
    forall e | e in Transformed(E, y) ensures e.lab != r.Target() {
      TransformedExactly(E, y, e);
      var g :| g in E && g.src == e.src && g.dst == e.dst && Becomes(E, y, g, e.lab);
      ChainMove(x, y, l, z, r, g, e.lab);
    }
  }

  lemma ChainMove(x: nat, y: nat, l: nat, z: nat, r: Reach, g: SketchEdge, lab: FieldLabel)
    requires r.Valid() && r.disp != 0 && g in Chain(x, y, l, z, r) && Becomes(Chain(x, y, l, z, r), y, g, lab)
    ensures lab != r.Target()
  {
    var E := Chain(x, y, l, z, r);
    ChainEdges(x, y, l, z, r);
    if g.lab.Field? {
      assert Behind(E, y, g) by { ChainTarget(x, y, l, z, r); }
      var e :| MovesOnto(E, y, g, e, lab);
    }
  }

  lemma ChainTarget(x: nat, y: nat, l: nat, z: nat, r: Reach)
    ensures Behind(Chain(x, y, l, z, r), y, Arc(l, r.Target(), z))
  {
    ChainEdges(x, y, l, z, r);
    var access: SketchEdge := Arc(y, r.access, l);
    assert access in Chain(x, y, l, z, r);
  }

  /**
   * Even under the guard a variable that sits at the pointer itself loses a field it was constrained
   * to have: its base now stands for the undisplaced pointer, and the field is further on by the
   * displacement.
   */
  lemma VariableLosesField(x: TypeVariable, y: TypeVariable, z: TypeVariable, r: Reach, b: Built, n: nat,
                           home: map<nat, nat>)
    requires r.Valid() && r.disp != 0 && x != y && x != z && y != z && b.From(DisplacedPointer(x, y, z, r))
    requires Dtv(y, []) in b.names ==> Simplified(n, b.E, b.names[Dtv(y, [])], home)
    ensures Dtv(y, []) in b.names && Dtv(z, []) in b.names
    ensures var p, q := b.names[Dtv(y, [])], b.names[Dtv(z, [])];
            && p in home && q in home && CanSimplify(b.E, p) && Guarded(b.E, p)
            && Run(b.E, {p}, [r.access, r.Target()]) == {q}
            && Run(NewGraph(b.E, p, home), {home[p]}, [r.access, r.Target()]) == {}
            && Run(NewGraph(b.E, p, home), {home[p]}, [r.access, r.Moved()]) == {home[q]}
  {
    hide Built.From, HomesJoined, Agreeing, Transformed, NewGraph, CanSimplify, Guarded, Chain, Run;
    BuiltChain(x, y, z, r, b);
    var i, p, l, q := b.names[Dtv(x, [])], b.names[Dtv(y, [])], b.names[Dtv(y, [r.access])], b.names[Dtv(z, [])];
    ChainQualifies(i, p, l, q, r);
    ChainMoves(i, p, l, q, r);
    ChainRun(i, p, l, q, r);
    var a: SketchEdge, m: SketchEdge := Arc(i, Add(r.disp), p), Arc(p, r.access, l);
    var f: SketchEdge := Arc(l, r.Target(), q);
    assert {a, m, f} <= b.E by { assert b.E == Chain(i, p, l, q, r); ChainEdges(i, p, l, q, r); }
    EndsHome(n, b.E, p, home, a);
    AddLoadFieldBecomesLoadField(n, b.E, p, home, a, m, f);
    assert a in TransformOf(b.E, p).sourceEdges;
    SourceIsMerged(n, b.E, p, home, a);
    var I := NewGraph(b.E, p, home);
    NoStep(b.E, p, home, Run(I, {home[p]}, [r.access]), r.Target());
    RunSnoc(I, {home[p]}, [r.access], r.Target());
    assert [r.access] + [r.Target()] == [r.access, r.Target()];
  }

  lemma ChainRun(x: nat, y: nat, l: nat, z: nat, r: Reach)
    requires r.Valid() && x != y && x != l && x != z && y != l && y != z && l != z
    ensures Run(Chain(x, y, l, z, r), {y}, [r.access, r.Target()]) == {z}
  {
    var E, f := Chain(x, y, l, z, r), r.Target();
    assert [r.access, f][1..] == [f];
    assert Step(E, {y}, r.access) == {l} && Step(E, {l}, f) == {z};
    RunOne(E, {l}, f);
  }

  // ----- a displacement that is folded -----

  lemma {:induction false} TransformsDropAdds(E: set<SketchEdge>, to: map<nat, nat>, E': set<SketchEdge>, steps: nat)
    requires Transforms(E, to, E', steps)
    ensures steps + |AddEdges(E')| <= |AddEdges(E)|
    decreases steps
  {
    hide CanSimplify, HomesJoined, Agreeing, Transformed, AddEdges;
    if steps != 0 {
      var to0, M, home :| Transforms(E, to0, M, steps - 1) && OneTransform(M, home, E') && Composed(to0, home, to);
      TransformsDropAdds(E, to0, M, steps - 1);
      var n, x :| CanSimplify(M, x) && Simplified(n, M, x, home) && E' == Image(home, Transformed(M, x));
      TransformDropsAdds(M, x, home);
    }
  }

  lemma OneAdd(x: nat, y: nat, l: nat, z: nat, r: Reach, v: nat)
    requires r.Valid()
    ensures |AddEdges(Chain(x, y, l, z, r))| == 1 && (CanSimplify(Chain(x, y, l, z, r), v) ==> v == y)
  {
    var add: SketchEdge := Arc(x, Add(r.disp), y);
    assert AddEdges(Chain(x, y, l, z, r)) == {add};
  }

  /**
   * The two constraints end in a graph where x itself, undisplaced, leads to z by the load or store
   * and the field at the sum of both offsets.
   */
  lemma DisplacementIsFolded(x: TypeVariable, y: TypeVariable, z: TypeVariable, r: Reach, b: Built, to: map<nat, nat>,
                             E': set<SketchEdge>, steps: nat, names': Names)
    requires r.Valid() && x != y && x != z && y != z && b.From(DisplacedPointer(x, y, z, r))
    requires Transforms(b.E, to, E', steps) && Follows(b.names, to, names') && forall v: nat :: !Foldable(E', v)
    ensures steps == 1 && Dtv(x, []) in names' && Dtv(z, []) in names'
    ensures Run(E', {names'[Dtv(x, [])]}, [r.access, r.Moved()]) == {names'[Dtv(z, [])]}
  {
    hide Built.From, HomesJoined, Agreeing, Transformed, CanSimplify, Foldable, Guarded, Chain, Run, AddEdges,
         Transforms;
    BuiltChain(x, y, z, r, b);
    var i, p, l, q := b.names[Dtv(x, [])], b.names[Dtv(y, [])], b.names[Dtv(y, [r.access])], b.names[Dtv(z, [])];
    ChainQualifies(i, p, l, q, r);
    FoldableExactly(b.E, p);
    OneAdd(i, p, l, q, r, p);
    TransformsDropAdds(b.E, to, E', steps);
    NoStepIsSame(b.E, to, E', steps);
    var n, home := OnlyStep(b.E, to, E', p, i, l, q, r);
    var a: SketchEdge, m: SketchEdge := Arc(i, Add(r.disp), p), Arc(p, r.access, l);
    var f: SketchEdge := Arc(l, r.Target(), q);
    ChainEdges(i, p, l, q, r);
    AddLoadFieldBecomesLoadField(n, b.E, p, home, a, m, f);
  }

  lemma NoStepIsSame(E: set<SketchEdge>, to: map<nat, nat>, E': set<SketchEdge>, steps: nat)
    requires Transforms(E, to, E', steps) && steps <= 1
    ensures steps == 0 ==> E' == E
  {
  }

  lemma OnlyStep(E: set<SketchEdge>, to: map<nat, nat>, E': set<SketchEdge>, y: nat, x: nat, l: nat, z: nat, r: Reach)
    returns (n: nat, home: map<nat, nat>)
    requires r.Valid() && E == Chain(x, y, l, z, r) && Transforms(E, to, E', 1)
    ensures CanSimplify(E, y) && Simplified(n, E, y, home) && E' == NewGraph(E, y, home)
    ensures forall i | i in to :: i in home && to[i] == home[i]
  {
    hide CanSimplify, HomesJoined, Agreeing, Transformed, Chain;
    var to0, M, h :| Transforms(E, to0, M, 0) && OneTransform(M, h, E') && Composed(to0, h, to);
    var k, v :| CanSimplify(M, v) && Simplified(k, M, v, h) && E' == Image(h, Transformed(M, v));
    OneAdd(x, y, l, z, r, v);
    n, home := k, h;
  }
}
