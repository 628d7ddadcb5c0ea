/**
 * What folding displacements does to the paths of a sketch graph (src/solver/type_sketch.rs,
 * apply_pointer_transform, simplify_pointers).
 */
module PointerPaths {
  import opened Graphs
  import opened Constraints
  import opened CongruenceClosure
  import opened Quotients
  import opened Condensing
  import opened SimplifyPath
  import opened PointerSimplification

  type EdgePath = seq<SketchEdge>

  /**
   * The displacement that has been added since the pointer was entered. A path that enters it, or
   * what it points to, without a displacement is taken to bring the one given as bare.
   */
  function Next(pt: PointerTransform, e: SketchEdge, pending: Option<int>, bare: Option<int>): Option<int> {
    if e in pt.sourceEdges && e.lab.Add? then Some(e.lab.disp) else if e.src == pt.pointerNode then pending else bare
  }

  function After(pt: PointerTransform, p: EdgePath, pending: Option<int>, bare: Option<int>): Option<int> {
    if p == [] then pending else After(pt, p[1..], Next(pt, p[0], pending, bare), bare)
  }

  /**
   * The labels of a path with the displacements into the pointer dropped and added to the field
   * behind it. A field behind the pointer that is reached with nothing pending stays as it is.
   */
  function Folded(pt: PointerTransform, p: EdgePath, pending: Option<int>, bare: Option<int>): seq<FieldLabel>
    decreases |p|
  {
    if p == [] then [] else FoldedEdge(pt, p[0], pending) + Folded(pt, p[1..], Next(pt, p[0], pending, bare), bare)
  }

  function FoldedEdge(pt: PointerTransform, e: SketchEdge, pending: Option<int>): seq<FieldLabel> {
    if e in pt.sourceEdges && e.lab.Add? then []
    else if e in pt.targetFieldEdges && e.lab.Field? && pending.Some? then [Shifted(e, pending.value).lab]
    else [e.lab]
  }

  lemma {:induction false} FoldedConcat(pt: PointerTransform, p: EdgePath, q: EdgePath, pending: Option<int>,
                                        bare: Option<int>)
    ensures Folded(pt, p + q, pending, bare)
         == Folded(pt, p, pending, bare) + Folded(pt, q, After(pt, p, pending, bare), bare)
    decreases |p|
  {
    if p == [] {
      assert p + q == q;
    } else {
      assert (p + q)[0] == p[0] && (p + q)[1..] == p[1..] + q;
      FoldedConcat(pt, p[1..], q, Next(pt, p[0], pending, bare), bare);
    }
  }

  lemma {:induction false} AfterSnoc(pt: PointerTransform, p: EdgePath, e: SketchEdge, pending: Option<int>,
                                     bare: Option<int>)
    ensures After(pt, p + [e], pending, bare) == Next(pt, e, After(pt, p, pending, bare), bare)
    decreases |p|
  {
    if p == [] {
      assert p + [e] == [e] && [e][1..] == [];
    } else {
      assert (p + [e])[0] == p[0] && (p + [e])[1..] == p[1..] + [e];
      AfterSnoc(pt, p[1..], e, Next(pt, p[0], pending, bare), bare);
    }
  }

  lemma {:induction false} LabelsConcat(p: EdgePath, q: EdgePath)
    ensures LabelsOf(p + q) == LabelsOf(p) + LabelsOf(q)
  {
    if p == [] {
      assert p + q == q;
    } else {
      assert (p + q)[1..] == p[1..] + q;
      LabelsConcat(p[1..], q);
    }
  }

  lemma {:induction false} ConnectsFront(E: set<SketchEdge>, a: nat, p: EdgePath, q: EdgePath, b: nat)
    requires Connects(E, a, p + q, b) && q != []
    ensures Connects(E, a, p, q[0].src)
    decreases |p|
  {
    if p == [] {
      assert p + q == q;
    } else {
      assert (p + q)[0] == p[0] && (p + q)[1..] == p[1..] + q;
      ConnectsFront(E, p[0].dst, p[1..], q, b);
    }
  }

  ghost predicate IsDisplacement(E: set<SketchEdge>, x: nat, disp: int) {
    exists e :: e in TransformOf(E, x).sourceEdges && e.lab.Add? && e.lab.disp == disp
  }

  ghost predicate NothingOrDisplacement(E: set<SketchEdge>, x: nat, pending: Option<int>) {
    pending.Some? ==> IsDisplacement(E, x, pending.value)
  }

  // ----- which edges survive -----

  /** The transformed graph has an edge with this label between the nodes that the ends of f are joined with. */
  ghost predicate Survives(n: nat, E: set<SketchEdge>, x: nat, f: SketchEdge) {
    exists g :: g in Transformed(E, x) && g.lab == f.lab
                && Joined(n, E, x, g.src, f.src) && Joined(n, E, x, g.dst, f.dst)
  }

  /**
   * What the transform makes of an edge: a field behind the pointer moves by every displacement
   * into it, the displacements go, and other edges stay.
   */
  ghost predicate Becomes(E: set<SketchEdge>, x: nat, g: SketchEdge, l: FieldLabel) {
    if Behind(E, x, g) then g.lab.Field? && exists e :: MovesOnto(E, x, g, e, l)
    else !(g.dst == x && g.lab.Add?) && g.lab == l
  }

  predicate MovesOnto(E: set<SketchEdge>, x: nat, g: SketchEdge, e: SketchEdge, l: FieldLabel)
    requires g.lab.Field?
  {
    e in E && e.dst == x && e.lab.Add? && l == Field(g.lab.offset + e.lab.disp, g.lab.size)
  }

  /** The transformed graph has exactly the edges that some edge between the same nodes becomes. */
  lemma TransformedExactly(E: set<SketchEdge>, x: nat, f: SketchEdge)
    ensures f in Transformed(E, x)
       <==> exists g :: g in E && g.src == f.src && g.dst == f.dst && Becomes(E, x, g, f.lab)
  {
    hide TransformOf, NewEdges;
    TargetsAreFields(E, x);
    TransformOfExactly(E, x);
    var pt := TransformOf(E, x);
    if f in NewEdges(pt) {
      var e, g := ShiftedFrom(pt, f);
      assert MovesOnto(E, x, g, e, f.lab) && Becomes(E, x, g, f.lab);
    } else if f in Transformed(E, x) {
      assert Becomes(E, x, f, f.lab);
    }
    if g :| g in E && g.src == f.src && g.dst == f.dst && Becomes(E, x, g, f.lab) {
      if g in pt.targetFieldEdges {
        var e :| MovesOnto(E, x, g, e, f.lab);
        ShiftedTo(pt, e, g);
        assert Shifted(g, e.lab.disp) == f;
      } else {
        assert g == f;
      }
    }
  }

  lemma ShiftedFrom(pt: PointerTransform, f: SketchEdge) returns (e: SketchEdge, g: SketchEdge)
    requires (forall e | e in pt.sourceEdges :: e.lab.Add?) && (forall f | f in pt.targetFieldEdges :: f.lab.Field?)
    requires f in NewEdges(pt)
    ensures e in pt.sourceEdges && g in pt.targetFieldEdges && f == Shifted(g, e.lab.disp)
  {
    e, g :| e in pt.sourceEdges && g in pt.targetFieldEdges && Shifted(g, e.lab.disp) == f;
  }

  lemma ShiftedTo(pt: PointerTransform, e: SketchEdge, g: SketchEdge)
    requires (forall e | e in pt.sourceEdges :: e.lab.Add?) && forall f | f in pt.targetFieldEdges :: f.lab.Field?
    requires e in pt.sourceEdges && g in pt.targetFieldEdges
    ensures Shifted(g, e.lab.disp) in NewEdges(pt)
  {
  }

  ghost predicate JoinedEnds(n: nat, E: set<SketchEdge>, x: nat, g: SketchEdge, f: SketchEdge) {
    Joined(n, E, x, g.src, f.src) && Joined(n, E, x, g.dst, f.dst)
  }

  /**
   * An edge survives if and only if there is an edge, between nodes that are joined with its own,
   * which becomes an edge with its label: it was untouched, or a displacement moves it there.
   */
  lemma SurvivorIsShifted(n: nat, E: set<SketchEdge>, x: nat, f: SketchEdge)
    ensures Survives(n, E, x, f) <==> exists g :: g in E && JoinedEnds(n, E, x, g, f) && Becomes(E, x, g, f.lab)
  {
    hide Transformed, Joined, Becomes;
    if Survives(n, E, x, f) {
      var h :| h in Transformed(E, x) && h.lab == f.lab && Joined(n, E, x, h.src, f.src)
               && Joined(n, E, x, h.dst, f.dst);
      TransformedExactly(E, x, h);
      var g :| g in E && g.src == h.src && g.dst == h.dst && Becomes(E, x, g, h.lab);
      assert JoinedEnds(n, E, x, g, f);
    }
    if g :| g in E && JoinedEnds(n, E, x, g, f) && Becomes(E, x, g, f.lab) {
      var h := Arc(g.src, f.lab, g.dst);
      TransformedExactly(E, x, h);
      assert h in Transformed(E, x) && Joined(n, E, x, h.src, f.src) && Joined(n, E, x, h.dst, f.dst);
    }
  }

  function NewGraph(E: set<SketchEdge>, x: nat, home: map<nat, nat>): set<SketchEdge>
    requires forall e | e in Transformed(E, x) :: e.src in home && e.dst in home
  {
    Image(home, Transformed(E, x))
  }

  lemma OneStep(n: nat, E: set<SketchEdge>, x: nat, home: map<nat, nat>, f: SketchEdge)
    requires Simplified(n, E, x, home) && f in Transformed(E, x)
    ensures f.src in home && f.dst in home
    ensures Step(NewGraph(E, x, home), {home[f.src]}, f.lab) == {home[f.dst]}
  {
    hide Transformed, HomesJoined;
    var I := NewGraph(E, x, home);
    assert ImageEdge(home, f) in I;
    forall g | g in I && g.src == home[f.src] && g.lab == f.lab ensures g.dst == home[f.dst] {
      assert Alike(g.lab, f.lab);
    }
  }

  /** An edge survives if and only if its label still leads from where its source is to where its target is. */
  lemma SurvivesExactly(n: nat, E: set<SketchEdge>, x: nat, home: map<nat, nat>, f: SketchEdge)
    requires Simplified(n, E, x, home) && f.src in home && f.dst in home
    ensures Survives(n, E, x, f) <==> home[f.dst] in Step(NewGraph(E, x, home), {home[f.src]}, f.lab)
    ensures Survives(n, E, x, f) ==> Step(NewGraph(E, x, home), {home[f.src]}, f.lab) == {home[f.dst]}
  {
    hide Transformed, Agreeing, Joined;
    var I := NewGraph(E, x, home);
    if Survives(n, E, x, f) {
      var g :| g in Transformed(E, x) && g.lab == f.lab && Joined(n, E, x, g.src, f.src)
               && Joined(n, E, x, g.dst, f.dst);
      OneStep(n, E, x, home, g);
    }
    if home[f.dst] in Step(I, {home[f.src]}, f.lab) {
      var h :| h in I && h.src == home[f.src] && h.lab == f.lab && h.dst == home[f.dst];
      var g :| g in Transformed(E, x) && h == ImageEdge(home, g);
      assert Joined(n, E, x, g.src, f.src) && Joined(n, E, x, g.dst, f.dst);
    }
  }

  /** What is neither a displacement into the pointer nor a field behind it stays. */
  lemma UntouchedSurvives(n: nat, E: set<SketchEdge>, x: nat, home: map<nat, nat>, e: SketchEdge)
    requires Simplified(n, E, x, home) && e in E
    requires e !in TransformOf(E, x).sourceEdges && e !in TransformOf(E, x).targetFieldEdges
    ensures Survives(n, E, x, e)
  {
    hide TransformOf, Merges, NewEdges, Agreeing, Joined;
    assert e in Transformed(E, x);
    assert Joined(n, E, x, e.src, e.src) && Joined(n, E, x, e.dst, e.dst);
  }

  lemma EndsHome(n: nat, E: set<SketchEdge>, x: nat, home: map<nat, nat>, e: SketchEdge)
    requires Simplified(n, E, x, home) && e in E
    ensures e.src in home && e.dst in home && forall g | g in Transformed(E, x) :: g.src in home && g.dst in home
  {
  }

  lemma TargetsAreFields(E: set<SketchEdge>, x: nat)
    ensures forall f | f in TransformOf(E, x).targetFieldEdges :: f in E && f.lab.Field?
    ensures forall e | e in TransformOf(E, x).sourceEdges :: e in E && e.dst == x && e.lab.Add?
  {
  }

  /** Where a displacement comes from has become the pointer. */
  lemma SourceIsMerged(n: nat, E: set<SketchEdge>, x: nat, home: map<nat, nat>, e: SketchEdge)
    requires Simplified(n, E, x, home) && e in TransformOf(E, x).sourceEdges
    ensures e.dst == x && e.lab.Add? && x in home && e.src in home && home[e.src] == home[x]
  {
    hide Agreeing, Transformed, Congruent;
    assert (e.src, x) in Merges(E, x);
    MergedInit(n, Merges(E, x), Transformed(E, x), (e.src, x));
    assert Joined(n, E, x, e.src, x);
  }

  /** A field behind the pointer is there at every displacement. */
  lemma ShiftedStep(n: nat, E: set<SketchEdge>, x: nat, home: map<nat, nat>, f: SketchEdge, disp: int)
    requires Simplified(n, E, x, home) && f in TransformOf(E, x).targetFieldEdges && f.lab.Field?
    requires IsDisplacement(E, x, disp)
    ensures f.src in home && f.dst in home
    ensures Step(NewGraph(E, x, home), {home[f.src]}, Shifted(f, disp).lab) == {home[f.dst]}
  {
    hide Simplified, NewGraph, TransformOf;
    TargetsAreFields(E, x);
    var pt := TransformOf(E, x);
    var d :| d in pt.sourceEdges && d.lab.disp == disp;
    assert Shifted(f, disp) in NewEdges(pt);
    OneStep(n, E, x, home, Shifted(f, disp));
  }

  /** The edge is kept: it survives as it is, or a displacement is pending that moves it. */
  ghost predicate EdgeKept(n: nat, E: set<SketchEdge>, x: nat, e: SketchEdge, pending: Option<int>) {
    e in TransformOf(E, x).targetFieldEdges && pending.None? ==> Survives(n, E, x, e)
  }

  ghost predicate PathKept(n: nat, E: set<SketchEdge>, x: nat, p: EdgePath, pending: Option<int>, bare: Option<int>)
    decreases |p|
  {
    p == [] || (
      && EdgeKept(n, E, x, p[0], pending)
      && PathKept(n, E, x, p[1..], Next(TransformOf(E, x), p[0], pending, bare), bare))
  }

  lemma KeptStep(n: nat, E: set<SketchEdge>, x: nat, home: map<nat, nat>, e: SketchEdge, pending: Option<int>)
    requires Simplified(n, E, x, home) && e in E && NothingOrDisplacement(E, x, pending)
    requires EdgeKept(n, E, x, e, pending)
    ensures e.src in home && e.dst in home
    ensures Run(NewGraph(E, x, home), {home[e.src]}, FoldedEdge(TransformOf(E, x), e, pending)) == {home[e.dst]}
  {
    hide Simplified, TransformOf, NewGraph, Survives, IsDisplacement, Shifted, Run;
    EndsHome(n, E, x, home, e);
    TargetsAreFields(E, x);
    var pt, I := TransformOf(E, x), NewGraph(E, x, home);
    if e in pt.sourceEdges {
      SourceIsMerged(n, E, x, home, e);
      RunNothing(I, {home[e.src]});
    } else if e in pt.targetFieldEdges && pending.Some? {
      ShiftedStep(n, E, x, home, e, pending.value);
      RunOne(I, {home[e.src]}, Shifted(e, pending.value).lab);
    } else {
      if e !in pt.targetFieldEdges {
        UntouchedSurvives(n, E, x, home, e);
      }
      SurvivesExactly(n, E, x, home, e);
      RunOne(I, {home[e.src]}, e.lab);
    }
  }

  lemma RunNothing(E: set<SketchEdge>, Q: set<nat>)
    ensures Run(E, Q, []) == Q
  {
  }

  lemma NextIsDisplacement(E: set<SketchEdge>, x: nat, e: SketchEdge, pending: Option<int>, bare: Option<int>)
    requires NothingOrDisplacement(E, x, pending) && NothingOrDisplacement(E, x, bare)
    ensures NothingOrDisplacement(E, x, Next(TransformOf(E, x), e, pending, bare))
  {
  }

  /** A path whose edges are kept is still there, its displacements folded. */
  lemma {:induction false} FoldsPath(n: nat, E: set<SketchEdge>, x: nat, home: map<nat, nat>, a: nat, p: EdgePath,
                                     b: nat, pending: Option<int>, bare: Option<int>)
    requires Simplified(n, E, x, home) && Connects(E, a, p, b) && a in home
    requires NothingOrDisplacement(E, x, pending) && NothingOrDisplacement(E, x, bare)
    requires PathKept(n, E, x, p, pending, bare)
    ensures b in home
    ensures Run(NewGraph(E, x, home), {home[a]}, Folded(TransformOf(E, x), p, pending, bare)) == {home[b]}
    decreases |p|
  {
    if p != [] {
      hide Simplified, TransformOf, NewGraph, FoldedEdge, Next, NothingOrDisplacement, EdgeKept;
      var e, pt, I := p[0], TransformOf(E, x), NewGraph(E, x, home);
      KeptStep(n, E, x, home, e, pending);
      NextIsDisplacement(E, x, e, pending, bare);
      var next := Next(pt, e, pending, bare);
      FoldsPath(n, E, x, home, e.dst, p[1..], b, next, bare);
      RunConcat(I, {home[a]}, FoldedEdge(pt, e, pending), Folded(pt, p[1..], next, bare));
    }
  }

  // ----- exactly which paths are kept -----

  /** A path may start at a node with a displacement already pending. */
  datatype Start = Start(node: nat, pending: Option<int>)

  ghost predicate StartsIn(E: set<SketchEdge>, x: nat, starts: iset<Start>) {
    forall s | s in starts :: NothingOrDisplacement(E, x, s.pending)
  }

  /** Every path from these starts is still there, its displacements folded. */
  ghost predicate KeepsPaths(E: set<SketchEdge>, x: nat, home: map<nat, nat>, starts: iset<Start>)
    requires forall e | e in Transformed(E, x) :: e.src in home && e.dst in home
  {
    forall s, p, b | s in starts && s.node in home && b in home && Connects(E, s.node, p, b) ::
      Run(NewGraph(E, x, home), {home[s.node]}, Folded(TransformOf(E, x), p, s.pending, None)) == {home[b]}
  }

  /** A field behind the pointer that some path from these starts reaches with nothing pending. */
  ghost predicate IsBare(E: set<SketchEdge>, x: nat, starts: iset<Start>, f: SketchEdge) {
    f in TransformOf(E, x).targetFieldEdges && exists s, p :: s in starts && ReachesBare(E, x, s, p, f)
  }

  ghost predicate ReachesBare(E: set<SketchEdge>, x: nat, s: Start, p: EdgePath, f: SketchEdge) {
    Connects(E, s.node, p, f.src) && After(TransformOf(E, x), p, s.pending, None).None?
  }

  lemma {:induction false} BaresAreKept(n: nat, E: set<SketchEdge>, x: nat, starts: iset<Start>, s: Start, p: EdgePath,
                                        q: EdgePath, b: nat)
    requires s in starts && Connects(E, s.node, p + q, b)
    requires forall f | IsBare(E, x, starts, f) :: Survives(n, E, x, f)
    ensures PathKept(n, E, x, q, After(TransformOf(E, x), p, s.pending, None), None)
    decreases |q|
  {
    hide Survives, TransformOf;
    if q != [] {
      var f, pt := q[0], TransformOf(E, x);
      assert p + q == (p + [f]) + q[1..];
      AfterSnoc(pt, p, f, s.pending, None);
      BaresAreKept(n, E, x, starts, s, p + [f], q[1..], b);
      ConnectsFront(E, s.node, p, q, b);
      if f in pt.targetFieldEdges && After(pt, p, s.pending, None).None? {
        assert ReachesBare(E, x, s, p, f);
      }
    }
  }

  lemma BareSurvives(n: nat, E: set<SketchEdge>, x: nat, home: map<nat, nat>, starts: iset<Start>, s: Start,
                     p: EdgePath, f: SketchEdge)
    requires Simplified(n, E, x, home) && s in starts && ReachesBare(E, x, s, p, f)
    requires KeepsPaths(E, x, home, starts) && f in TransformOf(E, x).targetFieldEdges
    ensures Survives(n, E, x, f)
  {
    hide TransformOf, Survives, Transformed, Simplified, NewGraph;
    TargetsAreFields(E, x);
    PathStart(E, s.node, p, f);
    var e :| e in E && e.src == s.node;
    EndsHome(n, E, x, home, e);
    EndsHome(n, E, x, home, f);
    var pt, I := TransformOf(E, x), NewGraph(E, x, home);
    ConnectsSnoc(E, s.node, p, f);
    FoldedConcat(pt, p, [f], s.pending, None);
    BareFold(pt, f);
    var w := Folded(pt, p, s.pending, None);
    assert Folded(pt, p + [f], s.pending, None) == w + [f.lab];
    RunSnoc(I, {home[s.node]}, w, f.lab);
    assert Run(I, {home[s.node]}, w) == {home[f.src]} && Run(I, {home[s.node]}, w + [f.lab]) == {home[f.dst]};
    SurvivesExactly(n, E, x, home, f);
  }

  lemma BareFold(pt: PointerTransform, f: SketchEdge)
    requires f.lab.Field?
    ensures Folded(pt, [f], None, None) == [f.lab]
  {
    assert [f][1..] == [];
  }

  lemma PathStart(E: set<SketchEdge>, a: nat, p: EdgePath, f: SketchEdge)
    requires f in E && Connects(E, a, p, f.src)
    ensures exists e :: e in E && e.src == a
  {
    if p != [] {
      assert p[0] in E && p[0].src == a;
    }
  }

  /**
   * A transform keeps every path from the given starts, its displacements folded, if and only if
   * every field behind the pointer that such a path reaches with nothing pending survives.
   */
  lemma TransformKeepsExactly(n: nat, E: set<SketchEdge>, x: nat, home: map<nat, nat>, starts: iset<Start>)
    requires Simplified(n, E, x, home) && StartsIn(E, x, starts)
    ensures KeepsPaths(E, x, home, starts) <==> forall f | IsBare(E, x, starts, f) :: Survives(n, E, x, f)
  {
    hide TransformOf, Transformed, Survives, NewGraph, HomesJoined, Agreeing, ReachesBare;
    if KeepsPaths(E, x, home, starts) {
      forall f | IsBare(E, x, starts, f) ensures Survives(n, E, x, f) {
        var s, p :| s in starts && ReachesBare(E, x, s, p, f);
        BareSurvives(n, E, x, home, starts, s, p, f);
      }
    }
    if forall f | IsBare(E, x, starts, f) :: Survives(n, E, x, f) {
      SurvivorsKeep(n, E, x, home, starts);
    }
  }

  lemma SurvivorsKeep(n: nat, E: set<SketchEdge>, x: nat, home: map<nat, nat>, starts: iset<Start>)
    requires Simplified(n, E, x, home) && StartsIn(E, x, starts)
    requires forall f | IsBare(E, x, starts, f) :: Survives(n, E, x, f)
    ensures KeepsPaths(E, x, home, starts)
  {
    hide TransformOf, Transformed, Survives, NewGraph, Folded, PathKept, IsBare, NothingOrDisplacement, HomesJoined,
         Agreeing;
    forall s, p, b | s in starts && s.node in home && b in home && Connects(E, s.node, p, b)
      ensures Run(NewGraph(E, x, home), {home[s.node]}, Folded(TransformOf(E, x), p, s.pending, None)) == {home[b]}
    {
      assert [] + p == p && After(TransformOf(E, x), [], s.pending, None) == s.pending;
      BaresAreKept(n, E, x, starts, s, [], p, b);
      assert NothingOrDisplacement(E, x, None) by { NothingPending(E, x); }
      FoldsPath(n, E, x, home, s.node, p, b, s.pending, None);
    }
  }

  lemma NothingPending(E: set<SketchEdge>, x: nat)
    ensures NothingOrDisplacement(E, x, None)
  {
  }

  /** Any node, with nothing pending. */
  ghost function Everywhere(): iset<Start> {
    iset s: Start | s.pending.None?
  }

  /** In particular all paths are kept, wherever they start, exactly when every field behind the pointer survives. */
  lemma TransformKeepsAllExactly(n: nat, E: set<SketchEdge>, x: nat, home: map<nat, nat>)
    requires Simplified(n, E, x, home)
    ensures KeepsPaths(E, x, home, Everywhere())
       <==> forall f | f in TransformOf(E, x).targetFieldEdges :: Survives(n, E, x, f)
  {
    hide TransformOf, Transformed, Survives, HomesJoined, Agreeing, KeepsPaths;
    forall f | f in TransformOf(E, x).targetFieldEdges ensures IsBare(E, x, Everywhere(), f) {
      assert Start(f.src, None) in Everywhere() && ReachesBare(E, x, Start(f.src, None), [], f);
    }
    TransformKeepsExactly(n, E, x, home, Everywhere());
  }

  // ----- under the documented guard -----

  /**
   * The guard that the documentation of the pass asks for, and that what is behind the pointer is
   * reached through it only.
   */
  ghost predicate Guarded(E: set<SketchEdge>, x: nat) {
    && (forall e | e in E && e.dst == x :: e.lab.Add?)
    && (forall e, f | e in E && e.src == x && f in E && f.dst == e.dst :: f.src == x)
  }

  /** A node that is neither the pointer nor what it points to. */
  ghost predicate Outside(E: set<SketchEdge>, x: nat, a: nat) {
    a != x && forall e | e in E && e.src == x :: e.dst != a
  }

  /** From outside, or with a displacement pending. */
  ghost function OutsideOrPending(E: set<SketchEdge>, x: nat): iset<Start> {
    iset s: Start | if s.pending.Some? then IsDisplacement(E, x, s.pending.value) else Outside(E, x, s.node)
  }

  lemma {:induction false} GuardArms(E: set<SketchEdge>, x: nat, a: nat, p: EdgePath, b: nat, pending: Option<int>)
    requires Guarded(E, x) && IsPointer(E, x) && Connects(E, a, p, b) && (Outside(E, x, a) || pending.Some?)
    ensures Outside(E, x, b) || After(TransformOf(E, x), p, pending, None).Some?
    decreases |p|
  {
    if p != [] {
      var e, pt := p[0], TransformOf(E, x);
      if e in pt.sourceEdges {
        assert e.lab.Add?;
      } else {
        assert e.dst != x;
        assert e.src != x ==> Outside(E, x, e.dst);
      }
      GuardArms(E, x, e.dst, p[1..], b, Next(pt, e, pending, None));
    }
  }

  lemma GuardedIsNotBare(E: set<SketchEdge>, x: nat, f: SketchEdge)
    requires CanSimplify(E, x) && Guarded(E, x)
    ensures !IsBare(E, x, OutsideOrPending(E, x), f)
  {
    hide Guarded, After;
    if IsBare(E, x, OutsideOrPending(E, x), f) {
      var s, p :| s in OutsideOrPending(E, x) && ReachesBare(E, x, s, p, f);
      GuardArms(E, x, s.node, p, f.src, s.pending);
    }
  }

  /**
   * Under the guard every path from outside is kept, its displacements folded, and so is every
   * path from the pointer or what it points to that has a displacement pending.
   */
  lemma TransformFoldsPaths(n: nat, E: set<SketchEdge>, x: nat, home: map<nat, nat>)
    requires Simplified(n, E, x, home) && CanSimplify(E, x) && Guarded(E, x)
    ensures KeepsPaths(E, x, home, OutsideOrPending(E, x))
  {
    hide HomesJoined, Agreeing, Transformed, Survives, KeepsPaths, IsBare, CanSimplify, Guarded, IsDisplacement;
    forall f ensures !IsBare(E, x, OutsideOrPending(E, x), f) {
      GuardedIsNotBare(E, x, f);
    }
    TransformKeepsExactly(n, E, x, home, OutsideOrPending(E, x));
  }

  /** A structure that is also reached past the pointer, and a pointer that is also reached without a displacement. */
  function Unguarded(): set<SketchEdge> {
    {Arc(0, Add(4), 1), Arc(1, Load, 2), Arc(2, Field(0, 32), 3), Arc(4, Out(0), 2), Arc(5, In(0), 1)}
  }

  /** Without the guard paths may be lost: the field is gone for those that bring no displacement. */
  lemma TransformLosesPaths(n: nat, home: map<nat, nat>)
    requires Simplified(n, Unguarded(), 1, home)
    ensures CanSimplify(Unguarded(), 1) && 4 in home && 5 in home
    ensures var u, v := [Out(0), Field(0, 32)], [In(0), Load, Field(0, 32)];
            && Run(Unguarded(), {4}, u) == {3} && Run(NewGraph(Unguarded(), 1, home), {home[4]}, u) == {}
            && Run(Unguarded(), {5}, v) == {3} && Run(NewGraph(Unguarded(), 1, home), {home[5]}, v) == {}
  {
    hide HomesJoined, Agreeing, Transformed, NewGraph, Unguarded, CanSimplify;
    var E, f := Unguarded(), Field(0, 32);
    UnguardedPaths();
    UnguardedLoses();
    EndsHome(n, E, 1, home, Arc(4, Out(0), 2));
    EndsHome(n, E, 1, home, Arc(5, In(0), 1));
    var I := NewGraph(E, 1, home);
    forall Q: set<nat> ensures Step(I, Q, f) == {} {
      NoStep(E, 1, home, Q, f);
    }
    RunSnoc(I, {home[4]}, [Out(0)], f);
    RunSnoc(I, {home[5]}, [In(0), Load], f);
    assert [Out(0)] + [f] == [Out(0), f] && [In(0), Load] + [f] == [In(0), Load, f];
  }

  lemma NoStep(E: set<SketchEdge>, x: nat, home: map<nat, nat>, Q: set<nat>, l: FieldLabel)
    requires (forall e | e in Transformed(E, x) :: e.src in home && e.dst in home)
             && forall e | e in Transformed(E, x) :: e.lab != l
    ensures Step(NewGraph(E, x, home), Q, l) == {}
  {
    hide Transformed;
  }

  lemma UnguardedLoses()
    ensures CanSimplify(Unguarded(), 1) && Arc(4, Out(0), 2) in Unguarded() && Arc(5, In(0), 1) in Unguarded()
    ensures forall e | e in Transformed(Unguarded(), 1) :: e.lab != Field(0, 32)
  {
    hide Transformed, NewEdges, TransformOf;
    var E := Unguarded();
    assert Arc(0, Add(4), 1) in E && Arc(1, Load, 2) in E && Arc(2, Field(0, 32), 3) in E;
    assert IsStructure(E, 2) && IsPointer(E, 1);
    TargetsAreFields(E, 1);
    UnguardedTransform();
    hide Unguarded, CanSimplify;
    forall e | e in Transformed(E, 1) ensures e.lab != Field(0, 32) {
      UnguardedEdge(e);
    }
  }

  lemma UnguardedTransform()
    ensures forall e | e in TransformOf(Unguarded(), 1).sourceEdges :: e.lab.disp == 4
    ensures forall f | f in Unguarded() && f.lab == Field(0, 32) :: f in TransformOf(Unguarded(), 1).targetFieldEdges
    ensures forall f | f in TransformOf(Unguarded(), 1).targetFieldEdges :: f.lab == Field(0, 32)
  {
    var E := Unguarded();
    var access: SketchEdge := Arc(1, Load, 2);
    forall f | f in E && f.lab == Field(0, 32) ensures f in TransformOf(E, 1).targetFieldEdges {
      assert access in E && f.src == access.dst;
    }
  }

  lemma UnguardedEdge(e: SketchEdge)
    requires e in Transformed(Unguarded(), 1)
    ensures e.lab != Field(0, 32)
  {
    hide Unguarded, NewEdges, TransformOf;
    var pt := TransformOf(Unguarded(), 1);
    UnguardedTransform();
    TargetsAreFields(Unguarded(), 1);
    if e in NewEdges(pt) {
      var d, g := ShiftedFrom(pt, e);
    }
  }

  lemma UnguardedPaths()
    ensures Run(Unguarded(), {4}, [Out(0), Field(0, 32)]) == {3}
    ensures Run(Unguarded(), {5}, [In(0), Load, Field(0, 32)]) == {3}
  {
    var E, f := Unguarded(), Field(0, 32);
    assert [Out(0), f][1..] == [f] && [In(0), Load, f][1..] == [Load, f] && [Load, f][1..] == [f];
    RunOne(E, {2}, f);
    assert Step(E, {4}, Out(0)) == {2} && Step(E, {2}, f) == {3} && Step(E, {5}, In(0)) == {1}
           && Step(E, {1}, Load) == {2};
  }

  // ----- what folded labels mean -----

  /**
   * Where no displacement is left pending, folding rewrites the labels by the law x.+k.load.field@b
   * to x.load.field@(b+k), likewise for store, and by nothing else.
   */
  lemma {:induction false} FoldedRewrites(E: set<SketchEdge>, x: nat, a: nat, p: EdgePath, b: nat)
    requires CanSimplify(E, x) && Connects(E, a, p, b) && After(TransformOf(E, x), p, None, None).None?
    ensures Rewrites(LabelsOf(p), Folded(TransformOf(E, x), p, None, None))
    decreases |p|
  {
    hide Rewrites, TransformOf, CanSimplify;
    var pt := TransformOf(E, x);
    if p == [] {
      RewritesSelf([]);
    } else if p[0] in pt.sourceEdges {
      RedexShape(E, x, a, p, b);
      RedexFolded(pt, p);
      ThreeLabels(p);
      var r := p[3..];
      FoldedRewrites(E, x, p[2].dst, r, b);
      RewriteFront(p[0].lab, p[1].lab, p[2].lab, LabelsOf(r), Folded(pt, r, None, None));
    } else {
      FoldedRewrites(E, x, p[0].dst, p[1..], b);
      RewritesCons(p[0].lab, LabelsOf(p[1..]), Folded(pt, p[1..], None, None));
    }
  }

  lemma RewritesSelf(p: Path)
    ensures Rewrites(p, p)
  {
    assert IsRewriting([p], p, p);
  }

  lemma RewritesCons(a: FieldLabel, p: Path, q: Path)
    requires Rewrites(p, q)
    ensures Rewrites([a] + p, [a] + q)
  {
    hide Rewrites1;
    var t :| IsRewriting(t, p, q);
    RewritingCons(a, t, p, q);
  }

  lemma RewriteFront(k: FieldLabel, access: FieldLabel, f: FieldLabel, p: Path, q: Path)
    requires Rewrites(p, q) && k.Add? && access.IsPointerAccess() && f.Field?
    ensures Rewrites([k, access, f] + p, [access, Field(f.offset + k.disp, f.size)] + q)
  {
    hide Rewrites, Rewrites1;
    RewritesCons(f, p, q);
    RewritesCons(access, [f] + p, [f] + q);
    RewritesCons(k, [access] + ([f] + p), [access] + ([f] + q));
    assert [k] + ([access] + ([f] + p)) == [k, access, f] + p;
    assert [k] + ([access] + ([f] + q)) == [k, access, f] + q;
    FrontStep(k, access, f, q);
    RewritingSnoc([k, access, f] + p, [k, access, f] + q, [access, Field(f.offset + k.disp, f.size)] + q);
  }

  lemma FrontStep(k: FieldLabel, access: FieldLabel, f: FieldLabel, q: Path)
    requires k.Add? && access.IsPointerAccess() && f.Field?
    ensures Rewrites1([k, access, f] + q, [access, Field(f.offset + k.disp, f.size)] + q)
  {
    ContractBetween([], k, access, f, q);
    assert [] + ([k, access, f] + q) == [k, access, f] + q;
  }

  /** After a displacement into the pointer come an access and a field, or the path ends. */
  lemma RedexShape(E: set<SketchEdge>, x: nat, a: nat, p: EdgePath, b: nat)
    requires CanSimplify(E, x) && Connects(E, a, p, b) && After(TransformOf(E, x), p, None, None).None?
    requires p != [] && p[0] in TransformOf(E, x).sourceEdges
    ensures |p| >= 3 && p[0].lab.Add? && p[1].lab.IsPointerAccess() && p[2].lab.Field?
    ensures p[1].src == TransformOf(E, x).pointerNode && p[2].src != TransformOf(E, x).pointerNode
    ensures p[2] in TransformOf(E, x).targetFieldEdges
    ensures Connects(E, p[2].dst, p[3..], b)
  {
    var pt, k := TransformOf(E, x), Some(p[0].lab.disp);
    assert p[0].dst == x && After(pt, p[1..], k, None).None? && |p| > 1;
    assert p[1] == p[1..][0] && Connects(E, x, p[1..], b) && p[1].lab.IsPointerAccess();
    assert p[1..][1..] == p[2..] && Connects(E, p[1].dst, p[2..], b) && After(pt, p[2..], k, None).None? && |p| > 2;
    assert IsStructure(E, p[1].dst);
    assert p[2] == p[2..][0] && p[2].src == p[1].dst && p[2].lab.Field?;
    assert p[2..][1..] == p[3..];
  }

  /** Two steps on from the displacement nothing is pending again. */
  lemma RedexFolded(pt: PointerTransform, p: EdgePath)
    requires |p| >= 3 && p[0].lab.Add? && p[1].lab.IsPointerAccess() && p[2].lab.Field?
    requires p[0] in pt.sourceEdges && p[1].src == pt.pointerNode && p[2].src != pt.pointerNode
    requires p[2] in pt.targetFieldEdges
    ensures After(pt, p, None, None) == After(pt, p[3..], None, None)
    ensures Folded(pt, p, None, None)
         == [p[1].lab, Field(p[2].lab.offset + p[0].lab.disp, p[2].lab.size)] + Folded(pt, p[3..], None, None)
  {
    var k := Some(p[0].lab.disp);
    assert p[1..][1..] == p[2..] && p[2..][1..] == p[3..];
    assert Next(pt, p[0], None, None) == k && Next(pt, p[1], k, None) == k && Next(pt, p[2], k, None) == None;
    assert After(pt, p[1..], k, None) == After(pt, p[2..], k, None) == After(pt, p[3..], None, None);
    assert Folded(pt, p[2..], k, None) == [Shifted(p[2], k.value).lab] + Folded(pt, p[3..], None, None);
    assert Folded(pt, p[1..], k, None) == [p[1].lab] + Folded(pt, p[2..], k, None);
  }

  lemma ThreeLabels(p: EdgePath)
    requires |p| >= 3
    ensures LabelsOf(p) == [p[0].lab, p[1].lab, p[2].lab] + LabelsOf(p[3..])
  {
    hide LabelsOf;
    LabelsCons(p);
    LabelsCons(p[1..]);
    LabelsCons(p[2..]);
    var q, r := p[1..], p[2..];
    assert q[1..] == r && r[1..] == p[3..] && q[0] == p[1] && r[0] == p[2];
    ThreeInFront(p[0].lab, p[1].lab, p[2].lab, LabelsOf(p[3..]));
  }

  lemma ThreeInFront(a: FieldLabel, b: FieldLabel, c: FieldLabel, w: seq<FieldLabel>)
    ensures [a] + ([b] + ([c] + w)) == [a, b, c] + w
  {
  }

  lemma LabelsCons(p: EdgePath)
    requires p != []
    ensures LabelsOf(p) == [p[0].lab] + LabelsOf(p[1..])
  {
  }

  /** The law itself: x.+k.load.field@b becomes x.load.field@(b+k), and likewise for store. */
  lemma AddLoadFieldBecomesLoadField(n: nat, E: set<SketchEdge>, x: nat, home: map<nat, nat>, add: SketchEdge,
                                     access: SketchEdge, field: SketchEdge)
    requires CanSimplify(E, x) && Simplified(n, E, x, home) && {add, access, field} <= E
    requires add.lab.Add? && add.dst == x && access.src == x && field.src == access.dst
    ensures access.lab.IsPointerAccess() && field.lab.Field? && add.src in home && field.dst in home
    ensures Run(NewGraph(E, x, home), {home[add.src]},
                [access.lab, Field(field.lab.offset + add.lab.disp, field.lab.size)]) == {home[field.dst]}
  {
    hide HomesJoined, Agreeing, Transformed, Survives, NewGraph, After, Run;
    var pt, p, k := TransformOf(E, x), [add, access, field], Some(add.lab.disp);
    assert p[1..] == [access, field] && [access, field][1..] == [field] && [field][1..] == [];
    LawPath(E, x, add, access, field);
    assert NothingOrDisplacement(E, x, None);
    assert PathKept(n, E, x, [field], k, None);
    assert PathKept(n, E, x, [access, field], k, None);
    assert Folded(pt, [field], k, None) == [Shifted(field, add.lab.disp).lab];
    assert Folded(pt, [access, field], k, None) == [access.lab] + Folded(pt, [field], k, None);
    assert Folded(pt, p, None, None) == Folded(pt, [access, field], k, None);
    assert PathKept(n, E, x, p, None, None) && add.src in home;
    assert [access.lab] + [Shifted(field, add.lab.disp).lab]
        == [access.lab, Field(field.lab.offset + add.lab.disp, field.lab.size)];
    FoldsPath(n, E, x, home, add.src, p, field.dst, None, None);
  }

  lemma LawPath(E: set<SketchEdge>, x: nat, add: SketchEdge, access: SketchEdge, field: SketchEdge)
    requires CanSimplify(E, x) && {add, access, field} <= E
    requires add.lab.Add? && add.dst == x && access.src == x && field.src == access.dst
    ensures access.lab.IsPointerAccess() && field.lab.Field? && Connects(E, add.src, [add, access, field], field.dst)
    ensures add in TransformOf(E, x).sourceEdges && field in TransformOf(E, x).targetFieldEdges
    ensures access !in TransformOf(E, x).sourceEdges && field !in TransformOf(E, x).sourceEdges
    ensures access !in TransformOf(E, x).targetFieldEdges && add !in TransformOf(E, x).targetFieldEdges
  {
    var p := [add, access, field];
    assert add in E && access in E && field in E && IsStructure(E, access.dst);
    assert p[1..] == [access, field] && [access, field][1..] == [field] && [field][1..] == [];
    assert Connects(E, access.dst, [field], field.dst);
    assert Connects(E, x, [access, field], field.dst);
  }

  // ----- over a whole run -----

  predicate SameUpToOffset(a: FieldLabel, b: FieldLabel) {
    a == b || (a.Field? && b.Field? && a.size == b.size)
  }

  /** w is u with some displacements dropped and some offsets moved. */
  predicate Folds(u: seq<FieldLabel>, w: seq<FieldLabel>) {
    if u == [] then w == []
    else (u[0].Add? && Folds(u[1..], w)) || (w != [] && SameUpToOffset(u[0], w[0]) && Folds(u[1..], w[1..]))
  }

  lemma {:induction false} FoldsSelf(u: seq<FieldLabel>)
    ensures Folds(u, u)
  {
    if u != [] {
      FoldsSelf(u[1..]);
    }
  }

  lemma {:induction false} FoldsThen(u: seq<FieldLabel>, v: seq<FieldLabel>, w: seq<FieldLabel>)
    requires Folds(u, v) && Folds(v, w)
    ensures Folds(u, w)
    decreases |u|
  {
    if u != [] {
      if u[0].Add? && Folds(u[1..], v) {
        FoldsThen(u[1..], v, w);
      } else if v[0].Add? && Folds(v[1..], w) {
        FoldsThen(u[1..], v[1..], w);
      } else {
        FoldsThen(u[1..], v[1..], w[1..]);
      }
    }
  }

  /** Where there are no displacements and no fields, nothing is changed. */
  lemma {:induction false} FoldsPlain(u: seq<FieldLabel>, w: seq<FieldLabel>)
    requires Folds(u, w) && forall l | l in u :: !l.Add? && !l.Field?
    ensures w == u
    decreases |u|
  {
    if u != [] {
      FoldsPlain(u[1..], w[1..]);
    }
  }

  lemma FoldsCons(pt: PointerTransform, e: SketchEdge, pending: Option<int>, u: seq<FieldLabel>, w: seq<FieldLabel>)
    requires Folds(u, w)
    ensures Folds([e.lab] + u, FoldedEdge(pt, e, pending) + w)
  {
    var u', front := [e.lab] + u, FoldedEdge(pt, e, pending);
    assert u'[1..] == u;
    if front == [] {
      assert front + w == w;
    } else {
      assert (front + w)[1..] == w;
    }
  }

  lemma {:induction false} FoldedFolds(E: set<SketchEdge>, x: nat, p: EdgePath, pending: Option<int>, bare: Option<int>)
    ensures Folds(LabelsOf(p), Folded(TransformOf(E, x), p, pending, bare))
    decreases |p|
  {
    if p != [] {
      hide TransformOf, Folds, FoldedEdge;
      var pt := TransformOf(E, x);
      var next := Next(pt, p[0], pending, bare);
      FoldedFolds(E, x, p[1..], next, bare);
      FoldsCons(pt, p[0], pending, LabelsOf(p[1..]), Folded(pt, p[1..], next, bare));
    }
  }

  /** With some displacement taken as pending wherever there is none, no field is bare, and so no path is lost. */
  lemma {:induction false} NeverBare(n: nat, E: set<SketchEdge>, x: nat, p: EdgePath, pending: Option<int>,
                                     bare: Option<int>)
    requires CanSimplify(E, x) && pending.Some? && bare.Some?
    ensures PathKept(n, E, x, p, pending, bare)
    decreases |p|
  {
    hide TransformOf, Survives, CanSimplify;
    if p != [] {
      NeverBare(n, E, x, p[1..], Next(TransformOf(E, x), p[0], pending, bare), bare);
    }
  }

  /** Every path is still there in some folded form, whatever it passes. */
  lemma PathFolds(n: nat, E: set<SketchEdge>, x: nat, home: map<nat, nat>, a: nat, p: EdgePath, b: nat)
    returns (w: seq<FieldLabel>)
    requires CanSimplify(E, x) && Simplified(n, E, x, home) && Connects(E, a, p, b) && a in home
    ensures b in home && Folds(LabelsOf(p), w) && Run(NewGraph(E, x, home), {home[a]}, w) == {home[b]}
  {
    hide HomesJoined, Agreeing, Transformed, NewGraph, After, Run, Folded, Folds, PathKept;
    var add :| add in E && add.dst == x && add.lab.Add?;
    assert add in TransformOf(E, x).sourceEdges;
    var k := Some(add.lab.disp);
    NeverBare(n, E, x, p, k, k);
    FoldsPath(n, E, x, home, a, p, b, k, k);
    FoldedFolds(E, x, p, k, k);
    w := Folded(TransformOf(E, x), p, k, k);
  }

  /** The same over all transforms of a run. */
  lemma {:induction false} TransformsFoldPaths(E: set<SketchEdge>, to: map<nat, nat>, E': set<SketchEdge>, steps: nat,
                                               a: nat, p: EdgePath, b: nat)
    returns (w: seq<FieldLabel>)
    requires Transforms(E, to, E', steps) && Agreeing(E) && Connects(E, a, p, b) && a in to
    ensures Agreeing(E') && b in to && Folds(LabelsOf(p), w) && Run(E', {to[a]}, w) == {to[b]}
    decreases steps
  {
    hide Folds, OneTransform, Agreeing, Connects, LabelsOf, Run;
    if steps == 0 {
      w := UntouchedPath(E, to, a, p, b);
    } else {
      var to0, M, home :| Transforms(E, to0, M, steps - 1) && OneTransform(M, home, E') && Composed(to0, home, to);
      var v := TransformsFoldPaths(E, to0, M, steps - 1, a, p, b);
      var q := RunConnects(M, to0[a], v, to0[b]);
      w := StepFolds(M, home, E', to0[a], q, to0[b]);
      FoldsThen(LabelsOf(p), v, w);
    }
  }

  lemma UntouchedPath(E: set<SketchEdge>, to: map<nat, nat>, a: nat, p: EdgePath, b: nat) returns (w: seq<FieldLabel>)
    requires Agreeing(E) && Connects(E, a, p, b) && a in to && forall i | i in to :: to[i] == i
    requires forall e | e in E :: e.src in to && e.dst in to
    ensures b in to && Folds(LabelsOf(p), w) && Run(E, {to[a]}, w) == {to[b]}
  {
    w := LabelsOf(p);
    FoldsSelf(w);
    PathInside(E, to, a, p, b);
    ConnectsRun(E, a, p, b);
    DeterministicRun(E, a, w);
  }

  lemma StepFolds(E: set<SketchEdge>, home: map<nat, nat>, E': set<SketchEdge>, a: nat, p: EdgePath, b: nat)
    returns (w: seq<FieldLabel>)
    requires OneTransform(E, home, E') && Connects(E, a, p, b) && a in home
    ensures Agreeing(E') && b in home && Folds(LabelsOf(p), w) && Run(E', {home[a]}, w) == {home[b]}
  {
    hide Folds, CanSimplify, HomesJoined, Agreeing, Transformed;
    var n, x :| CanSimplify(E, x) && Simplified(n, E, x, home) && E' == Image(home, Transformed(E, x));
    w := PathFolds(n, E, x, home, a, p, b);
  }

  lemma {:induction false} PathInside(E: set<SketchEdge>, to: map<nat, nat>, a: nat, p: EdgePath, b: nat)
    requires (forall e | e in E :: e.src in to && e.dst in to) && Connects(E, a, p, b) && a in to
    ensures b in to
    decreases |p|
  {
    if p != [] {
      PathInside(E, to, p[0].dst, p[1..], b);
    }
  }
}
