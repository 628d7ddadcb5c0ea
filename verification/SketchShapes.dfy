/**
 * What the sketch graph promises about the constraints it was built from: derived variables
 * related by subtyping end at the same node, and nothing is merged without need.
 */
module SketchShapes {
  import opened Graphs
  import opened Constraints
  import opened Derivation
  import opened CongruenceClosure
  import opened Quotients
  import opened SketchBuilder

  /** The graph edges agree, and the sides of each constraint are one node. */
  lemma BuiltMergesConstraints(cs: set<Subtype>, b: Built)
    requires b.From(cs)
    ensures Agreeing(b.E)
    ensures forall c | c in cs :: c.lhs in b.names && c.rhs in b.names && b.names[c.lhs] == b.names[c.rhs]
  {
    hide PrefixGraph, SameGroup, Congruent, IsPartition, IsHome, Mentioned;
    var init := ConstraintPairs(b.names0, cs);
    QuotientAgrees(b.live, b.E0, init, b.groups, b.n, b.home);
    forall c | c in cs ensures c.lhs in b.names && c.rhs in b.names && b.names[c.lhs] == b.names[c.rhs] {
      SidesMentioned(cs, c);
      var p := (b.names0[c.lhs], b.names0[c.rhs]);
      assert p in init;
      HomeIsGroup(b.groups, b.home, b.live, p.0, p.1);
      MergedInit(b.n, init, b.E0, p);
    }
  }

  /** Where every variable hangs from its prefix, its labels lead from its base to its node. */
  lemma {:induction false} PrefixRun(names: Names, E: set<SketchEdge>, d: Dtv)
    requires AllLinked(names, E) && d in names
    ensures Dtv(d.base, []) in names && names[d] in Run(E, {names[Dtv(d.base, [])]}, d.labels)
    decreases |d.labels|
  {
    assert Linked(names, E, d);
    if d.labels == [] {
      assert d == Dtv(d.base, []);
    } else {
      PrefixRun(names, E, Front(d));
      assert d.labels == Front(d).labels + [Last(d)];
      RunSnoc(E, {names[Dtv(d.base, [])]}, Front(d).labels, Last(d));
    }
  }

  /** The labels of d lead from its base to its node and nowhere else. */
  ghost predicate Locates(names: Names, E: set<SketchEdge>, d: Dtv) {
    && d in names && Dtv(d.base, []) in names
    && Run(E, {names[Dtv(d.base, [])]}, d.labels) == {names[d]}
  }

  lemma LinkedLocates(names: Names, E: set<SketchEdge>, d: Dtv)
    requires AllLinked(names, E) && Agreeing(E) && d in names
    ensures Locates(names, E, d)
  {
    PrefixRun(names, E, d);
    DeterministicRun(E, names[Dtv(d.base, [])], d.labels);
  }

  /** The quotient keeps every variable linked to its prefix. */
  lemma BuiltIsLinked(cs: set<Subtype>, b: Built)
    requires b.From(cs)
    ensures AllLinked(b.names, b.E)
  {
    hide IsPartition, SameGroup, Congruent, IsHome, Mentioned, LinksTo;
    forall d | d in b.names ensures Linked(b.names, b.E, d) {
      assert Linked(b.names0, b.E0, d);
      if d.labels != [] {
        var e := Arc(b.names0[Front(d)], Last(d), b.names0[d]);
        assert ImageEdge(b.home, e) in b.E;
      }
    }
  }

  /** Every variable of the constraints is where its labels lead from its base. */
  lemma BuiltLocates(cs: set<Subtype>, b: Built, d: Dtv)
    requires b.From(cs) && d in b.names
    ensures Locates(b.names, b.E, d)
  {
    hide Built.From, AllLinked, Locates;
    BuiltMergesConstraints(cs, b);
    BuiltIsLinked(cs, b);
    LinkedLocates(b.names, b.E, d);
  }

  // ----- which variables are one node -----

  /**
   * cls puts both sides of each constraint into one class, and equal labels, or a load and a
   * store, of variables of one class.
   */
  ghost predicate Classifies(cs: set<Subtype>, keys: set<Dtv>, cls: Dtv -> nat) {
    && (forall c | c in cs :: cls(c.lhs) == cls(c.rhs))
    && (forall d, f | d in keys && f in keys && d.labels != [] && f.labels != [] && cls(Front(d)) == cls(Front(f))
          && (Last(d) == Last(f) || (Last(d) == Load && Last(f) == Store)) ::
          cls(d) == cls(f))
  }

  ghost function NodeClass(names: Names, cls: Dtv -> nat, i: nat): nat {
    if exists d :: d in names && names[d] == i then var d :| d in names && names[d] == i; cls(d) else 0
  }

  lemma PrefixClass(names: Names, E: set<SketchEdge>, cls: Dtv -> nat, d: Dtv)
    requires PrefixGraph(names, E) && d in names
    ensures NodeClass(names, cls, names[d]) == cls(d)
  {
    hide AllLinked, LinksTo;
  }

  lemma ClassesRespect(cs: set<Subtype>, b: Built, cls: Dtv -> nat)
    requires b.From(cs) && Classifies(cs, b.names0.Keys, cls)
    ensures Respects(map i | i in b.live :: NodeClass(b.names0, cls, i), b.live, b.E0, ConstraintPairs(b.names0, cs))
  {
    hide NodeClass, IsPartition, SameGroup, Congruent, IsHome, Mentioned, AllLinked, LinksTo, Agreeing;
    var h := map i | i in b.live :: NodeClass(b.names0, cls, i);
    forall p | p in ConstraintPairs(b.names0, cs) ensures p.0 in h && p.1 in h && h[p.0] == h[p.1] {
      var c :| c in cs && c.lhs in b.names0 && c.rhs in b.names0 && p == (b.names0[c.lhs], b.names0[c.rhs]);
      PrefixClass(b.names0, b.E0, cls, c.lhs);
      PrefixClass(b.names0, b.E0, cls, c.rhs);
    }
    forall e, f | e in b.E0 && f in b.E0 && Alike(e.lab, f.lab) && h[e.src] == h[f.src] ensures h[e.dst] == h[f.dst] {
      var d :| LinksTo(b.names0, e, d);
      var g :| LinksTo(b.names0, f, g);
      LinkClass(b.names0, b.E0, cls, e, d);
      LinkClass(b.names0, b.E0, cls, f, g);
    }
  }

  lemma LinkClass(names: Names, E: set<SketchEdge>, cls: Dtv -> nat, e: SketchEdge, d: Dtv)
    requires PrefixGraph(names, E) && LinksTo(names, e, d)
    ensures d in names && d.labels != [] && e.lab == Last(d)
    ensures NodeClass(names, cls, e.dst) == cls(d) && NodeClass(names, cls, e.src) == cls(Front(d))
  {
    hide PrefixGraph, NodeClass;
    PrefixClass(names, E, cls, d);
    PrefixClass(names, E, cls, Front(d));
  }

  lemma SameNodeSameClass(cs: set<Subtype>, b: Built, cls: Dtv -> nat, d: Dtv, f: Dtv)
    requires b.From(cs) && Classifies(cs, b.names.Keys, cls) && d in b.names && f in b.names && b.names[d] == b.names[f]
    ensures cls(d) == cls(f)
  {
    hide PrefixGraph, ExactGroups, IsHome, Mentioned, Respects, Classifies, NodeClass;
    assert b.names.Keys == b.names0.Keys;
    var h := map i | i in b.live :: NodeClass(b.names0, cls, i);
    ClassesRespect(cs, b, cls);
    PairsLive(b.names0, cs, b.live);
    QuotientIsLeast(b.live, b.E0, ConstraintPairs(b.names0, cs), b.groups, b.n, b.home, h, b.names0[d], b.names0[f]);
    PrefixClass(b.names0, b.E0, cls, d);
    PrefixClass(b.names0, b.E0, cls, f);
  }

  function NodeOf(names: Names, d: Dtv): nat {
    if d in names then names[d] else 0
  }

  /** The nodes themselves are such classes. */
  lemma NodesClassify(cs: set<Subtype>, b: Built)
    requires b.From(cs)
    ensures Classifies(cs, b.names.Keys, d => NodeOf(b.names, d))
  {
    hide Built.From, AllLinked;
    BuiltMergesConstraints(cs, b);
    BuiltIsLinked(cs, b);
    forall d, f | d in b.names && f in b.names && d.labels != [] && f.labels != []
      && NodeOf(b.names, Front(d)) == NodeOf(b.names, Front(f))
      && (Last(d) == Last(f) || (Last(d) == Load && Last(f) == Store))
      ensures b.names[d] == b.names[f]
    {
      KeyLinked(b.names, b.E, d);
      KeyLinked(b.names, b.E, f);
      assert Alike(Last(d), Last(f));
    }
  }

  lemma KeyLinked(names: Names, E: set<SketchEdge>, d: Dtv)
    requires AllLinked(names, E) && d in names
    ensures Linked(names, E, d)
  {
  }

  /** Two variables of the constraints are one node exactly when every such classification puts them into one class. */
  lemma BuiltIsLeast(cs: set<Subtype>, b: Built, d: Dtv, f: Dtv)
    requires b.From(cs) && d in b.names && f in b.names
    ensures b.names[d] == b.names[f] <==> forall cls | Classifies(cs, b.names.Keys, cls) :: cls(d) == cls(f)
  {
    hide Built.From, Classifies;
    if b.names[d] == b.names[f] {
      forall cls | Classifies(cs, b.names.Keys, cls) ensures cls(d) == cls(f) {
        SameNodeSameClass(cs, b, cls, d, f);
      }
    } else {
      NodesClassify(cs, b);
      var cls := d => NodeOf(b.names, d);
      assert cls(d) != cls(f);
    }
  }

  /** How deep d lies when each variable is given a level and each label leads one level down. */
  function Level(lv: TypeVariable -> nat, d: Dtv): nat {
    lv(d.base) + |d.labels|
  }

  ghost predicate Levelled(cs: set<Subtype>, lv: TypeVariable -> nat) {
    forall c | c in cs :: Level(lv, c.lhs) == Level(lv, c.rhs)
  }

  /** Where both sides of every constraint lie equally deep, variables of one node do. */
  lemma SameNodeSameLevel(cs: set<Subtype>, b: Built, lv: TypeVariable -> nat, d: Dtv, f: Dtv)
    requires b.From(cs) && Levelled(cs, lv) && d in b.names && f in b.names && b.names[d] == b.names[f]
    ensures Level(lv, d) == Level(lv, f)
  {
    hide Built.From;
    var cls := d => Level(lv, d);
    assert Classifies(cs, b.names.Keys, cls);
    SameNodeSameClass(cs, b, cls, d, f);
  }

  // ----- shapes: loads and stores taken together -----

  function Blur(l: FieldLabel): FieldLabel {
    if l == Store then Load else l
  }

  function BlurWord(w: seq<FieldLabel>): (r: seq<FieldLabel>)
    ensures |r| == |w|
  {
    if w == [] then [] else [Blur(w[0])] + BlurWord(w[1..])
  }

  lemma {:induction false} BlurConcat(u: seq<FieldLabel>, v: seq<FieldLabel>)
    ensures BlurWord(u + v) == BlurWord(u) + BlurWord(v)
  {
    if u == [] {
      assert u + v == v;
    } else {
      assert (u + v)[1..] == u[1..] + v;
      BlurConcat(u[1..], v);
    }
  }

  function BlurEdges(E: set<SketchEdge>): set<SketchEdge> {
    set e | e in E :: Arc(e.src, Blur(e.lab), e.dst)
  }

  lemma BlurDeterministic(E: set<SketchEdge>)
    requires Agreeing(E)
    ensures Deterministic(BlurEdges(E))
  {
    forall e', f' | e' in BlurEdges(E) && f' in BlurEdges(E) && e'.src == f'.src && e'.lab == f'.lab
      ensures e'.dst == f'.dst
    {
      var e :| e in E && e' == Arc(e.src, Blur(e.lab), e.dst);
      var f :| f in E && f' == Arc(f.src, Blur(f.lab), f.dst);
      assert Alike(e.lab, f.lab) || Alike(f.lab, e.lab);
    }
  }

  lemma {:induction false} BlurRun(E: set<SketchEdge>, Q: set<nat>, w: seq<FieldLabel>)
    ensures Run(E, Q, w) <= Run(BlurEdges(E), Q, BlurWord(w))
    decreases |w|
  {
    if w != [] {
      var next, next' := Step(E, Q, w[0]), Step(BlurEdges(E), Q, Blur(w[0]));
      forall x | x in next ensures x in next' {
        var e :| e in E && e.src in Q && e.lab == w[0] && e.dst == x;
        assert Arc(e.src, Blur(e.lab), e.dst) in BlurEdges(E);
      }
      BlurRun(E, next, w[1..]);
      RunMonotone(BlurEdges(E), BlurEdges(E), next, next', BlurWord(w[1..]));
    }
  }

  /** Where a derived variable leads when loads and stores are taken together. */
  function Shape(names: Names, E: set<SketchEdge>, d: Dtv): set<nat> {
    if Dtv(d.base, []) in names then Run(BlurEdges(E), {names[Dtv(d.base, [])]}, BlurWord(d.labels)) else {}
  }

  lemma ShapeExtend(names: Names, E: set<SketchEdge>, d: Dtv, l: FieldLabel)
    ensures Shape(names, E, d.Extend([l])) == Step(BlurEdges(E), Shape(names, E, d), Blur(l))
  {
    if Dtv(d.base, []) in names {
      BlurConcat(d.labels, [l]);
      assert BlurWord([l]) == [Blur(l)];
      RunSnoc(BlurEdges(E), {names[Dtv(d.base, [])]}, BlurWord(d.labels), Blur(l));
    }
  }

  /** Proofs that do not move displacements into fields. */
  predicate WithoutAdds(p: Proof) {
    match p
    case AddIn(_, _, _, _, _) => false
    case AddOut(_, _, _, _, _) => false
    case Trans(p, q) => WithoutAdds(p) && WithoutAdds(q)
    case Capability(p, _) => WithoutAdds(p)
    case _ => true
  }

  /** Every constraint's sides have one shape. */
  ghost predicate Unified(cs: set<Subtype>, names: Names, E: set<SketchEdge>) {
    forall c | c in cs :: Shape(names, E, c.lhs) == Shape(names, E, c.rhs)
  }

  /** What is behind a displacement and a pointer is what is behind the pointer at the sum of both offsets. */
  ghost predicate FoldedAt(names: Names, E: set<SketchEdge>, d: Dtv, k: int, access: FieldLabel, o: int, n: nat) {
    Shape(names, E, d.Extend([Add(k), access, Field(o, n)])) == Shape(names, E, d.Extend([access, Field(o + k, n)]))
  }

  /** The graph has folded every displacement that the proof moves. */
  ghost predicate AddsFolded(names: Names, E: set<SketchEdge>, p: Proof) {
    match p
    case AddIn(d, k, access, o, n) => FoldedAt(names, E, d, k, access, o, n)
    case AddOut(d, k, access, o, n) => FoldedAt(names, E, d, k, access, o, n)
    case Trans(p, q) => AddsFolded(names, E, p) && AddsFolded(names, E, q)
    case Capability(p, _) => AddsFolded(names, E, p)
    case _ => true
  }

  lemma {:induction false} WithoutAddsFolded(names: Names, E: set<SketchEdge>, p: Proof)
    requires WithoutAdds(p)
    ensures AddsFolded(names, E, p)
  {
    match p
    case Trans(p1, p2) =>
      WithoutAddsFolded(names, E, p1);
      WithoutAddsFolded(names, E, p2);
    case Capability(p1, _) =>
      WithoutAddsFolded(names, E, p1);
    case _ =>
  }

  /** A proof whose displacements the graph has folded ends between variables of one shape. */
  lemma {:induction false} ProofKeepsShape(cs: set<Subtype>, names: Names, E: set<SketchEdge>, p: Proof)
    requires Unified(cs, names, E) && p.Checks(cs) && AddsFolded(names, E, p)
    ensures Shape(names, E, p.Concl().lhs) == Shape(names, E, p.Concl().rhs)
  {
    hide Shape;
    match p
    case Trans(p1, p2) =>
      ProofKeepsShape(cs, names, E, p1);
      ProofKeepsShape(cs, names, E, p2);
    case Capability(p1, l) =>
      ProofKeepsShape(cs, names, E, p1);
      ShapeExtend(names, E, p1.Concl().lhs, l);
      ShapeExtend(names, E, p1.Concl().rhs, l);
    case Pointer(d) =>
      ShapeExtend(names, E, d, Store);
      ShapeExtend(names, E, d, Load);
    case AddIn(d, k, access, o, n) =>
      assert FoldedAt(names, E, d, k, access, o, n);
    case AddOut(d, k, access, o, n) =>
      assert FoldedAt(names, E, d, k, access, o, n);
    case _ =>
  }

  // ----- the displacement rules -----

  /** Whatever the constraints derive is between variables of one shape. */
  ghost predicate DerivationsKeepShape(cs: set<Subtype>, names: Names, E: set<SketchEdge>) {
    forall p: Proof | p.Checks(cs) :: Shape(names, E, p.Concl().lhs) == Shape(names, E, p.Concl().rhs)
  }

  /** No variable of any depth leads to a field behind a load or store. */
  ghost predicate NoFieldsBehindPointers(names: Names, E: set<SketchEdge>) {
    forall d: Dtv, access: FieldLabel, o: int, n: nat | access.IsPointerAccess() ::
      Shape(names, E, d.Extend([access, Field(o, n)])) == {}
  }

  /** Some displacement is larger than all that the graph has. */
  lemma {:induction false} UnusedDisplacement(E: set<SketchEdge>) returns (k: int)
    ensures forall e, i | e in E && i >= k :: e.lab != Add(i)
  {
    k := 0;
    if E != {} {
      var e :| e in E;
      var k' := UnusedDisplacement(E - {e});
      k := if e.lab.Add? && e.lab.disp >= k' then e.lab.disp + 1 else k';
      assert forall f | f in E :: f == e || f in E - {e};
    }
  }

  lemma UnusedIsNowhere(names: Names, E: set<SketchEdge>, d: Dtv, k: int, access: FieldLabel, o: int, n: nat)
    requires forall e | e in E :: e.lab != Add(k)
    ensures Shape(names, E, d.Extend([Add(k), access, Field(o, n)])) == {}
  {
    hide Shape, BlurEdges;
    ExtendThrice(d, Add(k), access, Field(o, n));
    ShapeExtend(names, E, d, Add(k));
    ShapeExtend(names, E, d.Extend([Add(k)]), access);
    ShapeExtend(names, E, d.Extend([Add(k)]).Extend([access]), Field(o, n));
    NoBlurredStep(E, Shape(names, E, d), k);
  }

  lemma NoBlurredStep(E: set<SketchEdge>, Q: set<nat>, k: int)
    requires forall e | e in E :: e.lab != Add(k)
    ensures Step(BlurEdges(E), Q, Add(k)) == {}
  {
  }

  lemma ExtendThrice(d: Dtv, a: FieldLabel, b: FieldLabel, c: FieldLabel)
    ensures d.Extend([a, b, c]) == d.Extend([a]).Extend([b]).Extend([c]) == d.Extend([a]).Extend([b, c])
  {
  }

  /**
   * Used without restriction, the displacement rules are respected only by graphs without fields
   * behind pointers: they move a field by any displacement, and no graph has all of them.
   */
  lemma DerivationsKeepShapeExactly(cs: set<Subtype>, names: Names, E: set<SketchEdge>)
    requires Unified(cs, names, E)
    ensures DerivationsKeepShape(cs, names, E) <==> NoFieldsBehindPointers(names, E)
  {
    hide Shape, Unified;
    if DerivationsKeepShape(cs, names, E) {
      var k := UnusedDisplacement(E);
      forall d: Dtv, access: FieldLabel, o: int, n: nat | access.IsPointerAccess()
        ensures Shape(names, E, d.Extend([access, Field(o, n)])) == {}
      {
        UnusedIsNowhere(names, E, d, k, access, o - k, n);
        var p := AddIn(d, k, access, o - k, n);
        assert p.Checks(cs) && Shape(names, E, p.Concl().lhs) == Shape(names, E, p.Concl().rhs);
      }
    }
    if NoFieldsBehindPointers(names, E) {
      forall p: Proof | p.Checks(cs) ensures Shape(names, E, p.Concl().lhs) == Shape(names, E, p.Concl().rhs) {
        NothingToFold(names, E, p, cs);
        ProofKeepsShape(cs, names, E, p);
      }
    }
  }

  lemma {:induction false} NothingToFold(names: Names, E: set<SketchEdge>, p: Proof, cs: set<Subtype>)
    requires NoFieldsBehindPointers(names, E) && p.Checks(cs)
    ensures AddsFolded(names, E, p)
  {
    hide Shape;
    match p
    case Trans(p1, p2) =>
      NothingToFold(names, E, p1, cs);
      NothingToFold(names, E, p2, cs);
    case Capability(p1, _) =>
      NothingToFold(names, E, p1, cs);
    case AddIn(d, k, access, o, n) =>
      ExtendThrice(d, Add(k), access, Field(o, n));
    case AddOut(d, k, access, o, n) =>
      ExtendThrice(d, Add(k), access, Field(o, n));
    case _ =>
  }

  lemma BuiltIsUnified(cs: set<Subtype>, b: Built)
    requires b.From(cs)
    ensures Unified(cs, b.names, b.E)
    ensures forall d | d in b.names :: Shape(b.names, b.E, d) == {b.names[d]}
  {
    hide Built.From, Shape;
    BuiltMergesConstraints(cs, b);
    forall d | d in b.names ensures Shape(b.names, b.E, d) == {b.names[d]} {
      BuiltLocates(cs, b, d);
      LocatedShape(b.names, b.E, d, b.names[d]);
    }
  }

  /** Where the labels really lead is the shape. */
  lemma LocatedShape(names: Names, E: set<SketchEdge>, d: Dtv, x: nat)
    requires Agreeing(E) && Dtv(d.base, []) in names && x in Run(E, {names[Dtv(d.base, [])]}, d.labels)
    ensures Shape(names, E, d) == {x}
  {
    var start := names[Dtv(d.base, [])];
    BlurRun(E, {start}, d.labels);
    BlurDeterministic(E);
    DeterministicRun(BlurEdges(E), start, BlurWord(d.labels));
  }

  /**
   * Soundness of the sketch graph: if one derived variable is derivably a subtype of another, by
   * a proof that moves only displacements which the graph has folded, and both exist in the
   * graph, they lead to the same node.
   */
  lemma DerivableMeansSameNode(cs: set<Subtype>, b: Built, p: Proof, x: nat, y: nat)
    requires b.From(cs)
    requires p.Checks(cs) && AddsFolded(b.names, b.E, p)
    requires var a := Dtv(p.Concl().lhs.base, []); a in b.names && x in Run(b.E, {b.names[a]}, p.Concl().lhs.labels)
    requires var c := Dtv(p.Concl().rhs.base, []); c in b.names && y in Run(b.E, {b.names[c]}, p.Concl().rhs.labels)
    ensures x == y
  {
    hide Built.From, Shape, Unified, AddsFolded;
    BuiltIsUnified(cs, b);
    BuiltMergesConstraints(cs, b);
    ProofKeepsShape(cs, b.names, b.E, p);
    LocatedShape(b.names, b.E, p.Concl().lhs, x);
    LocatedShape(b.names, b.E, p.Concl().rhs, y);
  }

  /** a holds what y points to at displacement 4, and b holds what y points to at offset 4. */
  function FieldTwice(y: TypeVariable, a: TypeVariable, b: TypeVariable): set<Subtype> {
    {Subtype(Dtv(y, [Add(4), Load, Field(0, 32)]), Dtv(a, [])), Subtype(Dtv(y, [Load, Field(4, 32)]), Dtv(b, []))}
  }

  /** Displacements that have not been folded are not respected: derivably equal variables may stay apart. */
  lemma DisplacementsKeptApart(y: TypeVariable, a: TypeVariable, b: TypeVariable, g: Built)
    requires y != a && y != b && a != b && g.From(FieldTwice(y, a, b))
    ensures var p, q := Dtv(y, [Add(4), Load, Field(0, 32)]), Dtv(y, [Load, Field(4, 32)]);
            && Equivalent(FieldTwice(y, a, b), p, q)
            && p in g.names && q in g.names && g.names[p] != g.names[q]
  {
    hide Built.From, Derivable;
    var cs, p, q := FieldTwice(y, a, b), Dtv(y, [Add(4), Load, Field(0, 32)]), Dtv(y, [Load, Field(4, 32)]);
    var c, c' := Subtype(p, Dtv(a, [])), Subtype(q, Dtv(b, []));
    assert c in cs && c' in cs;
    EquivalentAdd(cs, Dtv(y, []), 4, Load, 0, 32);
    assert Dtv(y, []).Extend([Add(4), Load, Field(0, 32)]) == p && Dtv(y, []).Extend([Load, Field(4, 32)]) == q;
    BuiltMergesConstraints(cs, g);
    var lv := (v: TypeVariable) => if v == a then 3 else if v == b then 2 else 0;
    if g.names[p] == g.names[q] {
      SameNodeSameLevel(cs, g, lv, p, q);
    }
  }
}
