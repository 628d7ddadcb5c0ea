/**
 * Reading constraints back off the automaton (src/solver/constraint_graph.rs,
 * path_to_constraint and walk_constraints), and why every constraint read is derivable.
 */
module Walk {
  import opened Graphs
  import opened Constraints
  import opened Derivation
  import opened Pushdown
  import opened PopPush
  import opened StackWords
  import opened SaturationLaws
  import opened FsaGraph
  import opened CycleBreaking
  import opened SimplePaths
  import SP = SimplifyPath

  // ----- from the labels of a path to a constraint -----

  function PopLabels(w: Word): seq<FieldLabel> {
    if w == [] then []
    else (if w[0].Pop? && w[0].sym.Label? then [w[0].sym.l] else []) + PopLabels(w[1..])
  }

  function PushLabels(w: Word): seq<FieldLabel> {
    if w == [] then []
    else (if w[0].Push? && w[0].sym.Label? then [w[0].sym.l] else []) + PushLabels(w[1..])
  }

  predicate LabelsOnly(w: Word) {
    forall i | 0 <= i < |w| :: w[i].Success? || ((w[i].Pop? || w[i].Push?) && w[i].sym.Label?)
  }

  /** The word pops an interesting variable first, pushes one last, and only labels in between. */
  predicate Readable(w: Word) {
    && |w| >= 2 && w[0].Pop? && w[0].sym.Var? && w[|w| - 1].Push? && w[|w| - 1].sym.Var?
    && LabelsOnly(w[1..|w| - 1])
  }

  function LeftSide(w: Word): Dtv
    requires Readable(w)
  {
    Dtv(w[0].sym.tv, PopLabels(w[1..|w| - 1]))
  }

  /** Labels are pushed from the last to the first. */
  function RightSide(w: Word): Dtv
    requires Readable(w)
  {
    Dtv(w[|w| - 1].sym.tv, Reversed(PushLabels(w[1..|w| - 1])))
  }

  predicate LeftTest(w: Word)
    requires Readable(w)
  {
    PathVariance(LeftSide(w).labels).Operate(w[0].sym.variance) == Covariant
  }

  predicate RightTest(w: Word)
    requires Readable(w)
  {
    PathVariance(RightSide(w).labels).Operate(w[|w| - 1].sym.variance) == Covariant
  }

  predicate Emits(w: Word) {
    Readable(w) && LeftTest(w) && RightTest(w)
  }

  function Simplified(d: Dtv): Dtv {
    Dtv(d.base, SP.Norm(d.labels))
  }

  lemma SimplifiedIsEquivalent(K: set<Subtype>, d: Dtv)
    ensures Equivalent(K, d, Simplified(d))
  {
    hide Derivable, SP.Norm;
    SP.NormEquivalent(K, Dtv(d.base, []), d.labels);
    assert Dtv(d.base, []).Extend(d.labels) == d && Dtv(d.base, []).Extend(SP.Norm(d.labels)) == Simplified(d);
  }

  function Emitted(w: Word): Subtype
    requires Emits(w)
  {
    Subtype(Simplified(LeftSide(w)), Simplified(RightSide(w)))
  }

  ghost predicate Fits(w: Word)
    requires Readable(w)
  {
    SP.AllFoldsFit(LeftSide(w).labels) && SP.AllFoldsFit(RightSide(w).labels)
  }

  datatype Reading = Nothing | Overflow | Constraint(c: Subtype)

  /** Collects the labels between the first and the last edge; false if a variable is in between. */
  method CollectLabels(mid: Word) returns (ok: bool, lhsPath: seq<FieldLabel>, rhsPath: seq<FieldLabel>)
    requires forall i | 0 <= i < |mid| :: mid[i] != Failed
    ensures ok == LabelsOnly(mid)
    ensures ok ==> lhsPath == PopLabels(mid) && rhsPath == Reversed(PushLabels(mid))
  {
    hide PopLabels, PushLabels, Reversed;
    lhsPath, rhsPath := [], [];
    NoLabels();
    for i := 0 to |mid|
      invariant forall j | 0 <= j < i :: mid[j].Success? || ((mid[j].Pop? || mid[j].Push?) && mid[j].sym.Label?)
      invariant lhsPath + PopLabels(mid[i..]) == PopLabels(mid)
      invariant rhsPath + PushLabels(mid[i..]) == PushLabels(mid)
    {
      LabelsAt(mid, i);
      match mid[i] {
        case Pop(s) =>
          if s.Var? { return false, [], []; }
          lhsPath := lhsPath + [s.l];
        case Push(s) =>
          if s.Var? { return false, [], []; }
          rhsPath := rhsPath + [s.l];
        case Success =>
      }
    }
    assert mid[|mid|..] == [] && lhsPath + [] == lhsPath && rhsPath + [] == rhsPath;
    ok, rhsPath := true, Reversed(rhsPath);
  }

  lemma NoLabels()
    ensures PopLabels([]) == [] && PushLabels([]) == []
  {
  }

  lemma LabelsAt(w: Word, i: nat)
    requires i < |w|
    ensures PopLabels(w[i..]) == (if w[i].Pop? && w[i].sym.Label? then [w[i].sym.l] else []) + PopLabels(w[i + 1..])
    ensures PushLabels(w[i..]) == (if w[i].Push? && w[i].sym.Label? then [w[i].sym.l] else []) + PushLabels(w[i + 1..])
  {
    assert w[i..][0] == w[i] && w[i..][1..] == w[i + 1..];
  }

  /** The word of a path that never takes a Failed edge; such an edge would be a panic in the source. */
  method PathToConstraint(w: Word) returns (r: Reading)
    requires forall i | 0 <= i < |w| :: w[i] != Failed
    ensures r == if !Emits(w) then Nothing else if Fits(w) then Constraint(Emitted(w)) else Overflow
  {
    if |w| == 0 || !(w[0].Pop? && w[0].sym.Var?) || !(w[|w| - 1].Push? && w[|w| - 1].sym.Var?) {
      return Nothing;
    }
    hide LabelsOnly, PopLabels, PushLabels, Reversed, PathVariance;
    var ok, lhsPath, rhsPath := CollectLabels(w[1..|w| - 1]);
    if !ok {
      return Nothing;
    }
    var lhs, rhs := Dtv(w[0].sym.tv, lhsPath), Dtv(w[|w| - 1].sym.tv, rhsPath);
    if PathVariance(lhs.labels).Operate(w[0].sym.variance) == Covariant
       && PathVariance(rhs.labels).Operate(w[|w| - 1].sym.variance) == Covariant
    {
      var l := SP.Simplify(lhs);
      var r' := SP.Simplify(rhs);
      return if l.Some? && r'.Some? then Constraint(Subtype(l.value, r'.value)) else Overflow;
    }
    return Nothing;
  }

  // ----- soundness of what is read -----

  ghost predicate InGraph(g: Graph, p: Trail) {
    forall i | 0 <= i < |p| :: p[i] in g.edges
  }

  function PathWord(g: Graph, p: Trail): (w: Word)
    requires forall i | 0 <= i < |p| :: p[i] in g.edges
    ensures |w| == |p| && forall i | 0 <= i < |p| :: w[i] == g.edges[p[i]].lab
  {
    if p == [] then [] else [g.edges[p[0]].lab] + PathWord(g, p[1..])
  }

  /** Consecutive edges from node n to node m. */
  ghost predicate Leads(g: Graph, n: nat, p: Trail, m: nat)
    decreases |p|
  {
    if p == [] then n == m
    else p[0] in g.edges && g.edges[p[0]].src == n && Leads(g, g.edges[p[0]].dst, p[1..], m)
  }

  /** In the copy nothing is popped. */
  lemma {:induction false} CopyPopsNothing(g: Graph, copies: set<nat>, n: nat, p: Trail, m: nat)
    requires Zoned(g, copies) && n in copies && InGraph(g, p) && Leads(g, n, p, m)
    ensures PopLabels(PathWord(g, p)) == []
    decreases |p|
  {
    if p != [] {
      assert g.edges[p[0]] in g.Arcs();
      CopyPopsNothing(g, copies, g.edges[p[0]].dst, p[1..], m);
    }
  }

  /** The state of a node that lies between the first and the last edge of a path. */
  ghost predicate IsTv(g: Graph, n: nat) {
    n in g.nodes && g.nodes[n].Tv?
  }

  /**
   * Along a stretch that pops u and leaves v pushed: with a stack s that fits, what n denotes
   * together with u and s is a subtype of what m denotes with v and s, and the sign at m fits v.s.
   */
  ghost predicate Carries(C: set<Subtype>, th: Meaning, g: Graph, n: nat, u: seq<FieldLabel>, v: seq<FieldLabel>,
                          s: seq<FieldLabel>, m: nat) {
    && IsTv(g, n) && IsTv(g, m)
    && PathVariance(v + s) == g.nodes[m].variance
    && Derivable(C, Root(th, g.nodes[n]).Extend(u + s), Root(th, g.nodes[m]).Extend(v + s))
  }

  lemma ExtendTwice(d: Dtv, u: seq<FieldLabel>, v: seq<FieldLabel>)
    ensures d.Extend(u).Extend(v) == d.Extend(u + v)
  {
  }

  lemma CarriesSuccess(C: set<Subtype>, th: Meaning, g: Graph, e: IdEdge, u: seq<FieldLabel>, v: seq<FieldLabel>,
                       s: seq<FieldLabel>, m: nat)
    requires g.Wf() && Sound(C, th, g) && e in g.Arcs() && e.lab == Success
    requires IsTv(g, e.src) && PathVariance(u + s) == g.nodes[e.src].variance
    requires Carries(C, th, g, e.dst, u, v, s, m)
    ensures Carries(C, th, g, e.src, u, v, s, m)
  {
    hide Derivable, PathVariance, Root;
    assert EdgeSound(C, th, Def(g, e));
    var x, y := Root(th, g.nodes[e.src]), Root(th, g.nodes[e.dst]);
    DeriveTrans(C, x.Extend(u + s), y.Extend(u + s), Root(th, g.nodes[m]).Extend(v + s));
  }

  lemma CarriesPop(C: set<Subtype>, th: Meaning, g: Graph, e: IdEdge, u: seq<FieldLabel>, v: seq<FieldLabel>,
                   s: seq<FieldLabel>, m: nat)
    requires g.Wf() && Sound(C, th, g) && e in g.Arcs() && e.lab.Pop? && e.lab.sym.Label?
    requires Carries(C, th, g, e.dst, u, v, s, m)
    ensures Carries(C, th, g, e.src, [e.lab.sym.l] + u, v, s, m)
  {
    hide Derivable, PathVariance, Root;
    assert EdgeSound(C, th, Def(g, e));
    assert ([e.lab.sym.l] + u) + s == [e.lab.sym.l] + (u + s);
    ExtendTwice(Root(th, g.nodes[e.src]), [e.lab.sym.l], u + s);
  }

  lemma CarriesPush(C: set<Subtype>, th: Meaning, g: Graph, e: IdEdge, v: seq<FieldLabel>, s: seq<FieldLabel>, m: nat)
    requires g.Wf() && Sound(C, th, g) && e in g.Arcs() && e.lab.Push? && e.lab.sym.Label?
    requires Carries(C, th, g, e.dst, [], v, [e.lab.sym.l] + s, m)
    ensures Carries(C, th, g, e.src, [], v + [e.lab.sym.l], s, m)
  {
    hide Derivable, PathVariance, Root;
    var l := e.lab.sym.l;
    assert EdgeSound(C, th, Def(g, e));
    assert (v + [l]) + s == v + ([l] + s);
    assert [] + s == s && [] + ([l] + s) == [l] + s;
    ExtendTwice(Root(th, g.nodes[e.dst]), [l], s);
  }

  /** How the labels of a word grow by one edge at the front. */
  lemma LabelsCons(e: FsaEdge, w: Word)
    requires LabelsOnly([e] + w)
    ensures LabelsOnly(w) && (e.Success? || ((e.Pop? || e.Push?) && e.sym.Label?))
    ensures PopLabels([e] + w) == (if e.Pop? then [e.sym.l] + PopLabels(w) else PopLabels(w))
    ensures Reversed(PushLabels([e] + w)) == (if e.Push? then Reversed(PushLabels(w)) + [e.sym.l]
            else Reversed(PushLabels(w)))
  {
    var ew := [e] + w;
    assert ew[0] == e && ew[1..] == w;
    assert forall i | 0 <= i < |w| :: ew[i + 1] == w[i];
    if e.Push? {
      var x := [e.sym.l] + PushLabels(w);
      assert PushLabels(ew) == x && x[1..] == PushLabels(w) && x[0] == e.sym.l;
    } else {
      assert [] + PushLabels(w) == PushLabels(w);
    }
  }

  /** The stack under the next node when the stack under the last node of the stretch is s. */
  function StackAfter(e: FsaEdge, s: seq<FieldLabel>): seq<FieldLabel> {
    if e.Push? && e.sym.Label? then [e.sym.l] + s else s
  }

  lemma StepSign(C: set<Subtype>, th: Meaning, g: Graph, e: IdEdge, w: Word, s: seq<FieldLabel>)
    requires g.Wf() && Sound(C, th, g) && e in g.Arcs() && IsTv(g, e.src) && LabelsOnly([e.lab] + w)
    requires e.lab.Push? ==> PopLabels(w) == []
    requires PathVariance(PopLabels([e.lab] + w) + s) == g.nodes[e.src].variance
    ensures IsTv(g, e.dst) && PathVariance(PopLabels(w) + StackAfter(e.lab, s)) == g.nodes[e.dst].variance
  {
    hide PathVariance, Root, Flows, PopLabels, PushLabels, Reversed, LabelsOnly;
    assert EdgeSound(C, th, Def(g, e));
    LabelsCons(e.lab, w);
    if e.lab.Pop? {
      var l := e.lab.sym.l;
      assert ([l] + PopLabels(w)) + s == [l] + (PopLabels(w) + s);
      PathVarianceCons(l, PopLabels(w) + s);
    } else if e.lab.Push? {
      var l := e.lab.sym.l;
      assert [] + s == s && [] + ([l] + s) == [l] + s;
      PathVarianceCons(l, s);
    }
  }

  lemma StepCarries(C: set<Subtype>, th: Meaning, g: Graph, e: IdEdge, w: Word, s: seq<FieldLabel>, m: nat)
    requires g.Wf() && Sound(C, th, g) && e in g.Arcs() && IsTv(g, e.src) && LabelsOnly([e.lab] + w)
    requires e.lab.Push? ==> PopLabels(w) == []
    requires PathVariance(PopLabels([e.lab] + w) + s) == g.nodes[e.src].variance
    requires Carries(C, th, g, e.dst, PopLabels(w), Reversed(PushLabels(w)), StackAfter(e.lab, s), m)
    ensures Carries(C, th, g, e.src, PopLabels([e.lab] + w), Reversed(PushLabels([e.lab] + w)), s, m)
  {
    hide Derivable, PathVariance, Root, Flows, PopLabels, PushLabels, Reversed, LabelsOnly, Carries;
    LabelsCons(e.lab, w);
    var u, v := PopLabels(w), Reversed(PushLabels(w));
    match e.lab {
      case Success => CarriesSuccess(C, th, g, e, u, v, s, m);
      case Pop(_) => CarriesPop(C, th, g, e, u, v, s, m);
      case Push(_) => CarriesPush(C, th, g, e, v, s, m);
    }
  }

  lemma CarriesNothing(C: set<Subtype>, th: Meaning, g: Graph, n: nat, s: seq<FieldLabel>)
    requires IsTv(g, n) && PathVariance([] + s) == g.nodes[n].variance
    ensures Carries(C, th, g, n, [], [], s, n)
  {
    DeriveRefl(C, Root(th, g.nodes[n]).Extend([] + s));
  }

  /** After a push the path is in the copy, so there is nothing left to pop. */
  lemma PushPopsNoMore(g: Graph, copies: set<nat>, e: IdEdge, p: Trail, m: nat)
    requires Zoned(g, copies) && InGraph(g, p) && p != [] && e == g.edges[p[0]] && e in g.Arcs() && e.lab.Push?
    requires Leads(g, e.dst, p[1..], m)
    ensures PopLabels(PathWord(g, p[1..])) == []
  {
    CopyPopsNothing(g, copies, e.dst, p[1..], m);
  }

  lemma {:induction false} PathCarries(C: set<Subtype>, th: Meaning, g: Graph, copies: set<nat>, n: nat, p: Trail,
                                       m: nat, s: seq<FieldLabel>)
    requires g.Wf() && Sound(C, th, g) && Zoned(g, copies) && InGraph(g, p) && Leads(g, n, p, m)
    requires LabelsOnly(PathWord(g, p)) && IsTv(g, n)
    requires PathVariance(PopLabels(PathWord(g, p)) + s) == g.nodes[n].variance
    ensures Carries(C, th, g, n, PopLabels(PathWord(g, p)), Reversed(PushLabels(PathWord(g, p))), s, m)
    decreases |p|
  {
    if p == [] {
      CarriesNothing(C, th, g, n, s);
    } else {
      hide Derivable, PathVariance, Root, Flows, PopLabels, PushLabels, Reversed, LabelsOnly, Carries, Zoned, Sound,
           StackAfter;
      var e, w := g.edges[p[0]], PathWord(g, p[1..]);
      assert e in g.Arcs() && PathWord(g, p) == [e.lab] + w;
      LabelsCons(e.lab, w);
      if e.lab.Push? {
        PushPopsNoMore(g, copies, e, p, m);
      }
      StepSign(C, th, g, e, w, s);
      PathCarries(C, th, g, copies, e.dst, p[1..], m, StackAfter(e.lab, s));
      StepCarries(C, th, g, e, w, s, m);
    }
  }

  /** What a derived variable says once loop breakers are given their meaning. */
  function Subst(th: Meaning, d: Dtv): Dtv {
    MeaningOf(th, d.base).Extend(d.labels)
  }

  lemma SubstExtend(th: Meaning, d: Dtv, s: seq<FieldLabel>)
    ensures Subst(th, d.Extend(s)) == Subst(th, d).Extend(s)
  {
    assert MeaningOf(th, d.base).labels + (d.labels + s) == MeaningOf(th, d.base).labels + d.labels + s;
  }

  /** If C entails K once loop breakers are given their meaning, it so entails whatever K entails. */
  lemma {:induction false} SubstProof(C: set<Subtype>, th: Meaning, K: set<Subtype>, p: Proof)
    requires p.Checks(K) && forall c | c in K :: Derivable(C, Subst(th, c.lhs), Subst(th, c.rhs))
    ensures Derivable(C, Subst(th, p.Concl().lhs), Subst(th, p.Concl().rhs))
  {
    hide Derivable, Subst, PathVariance;
    match p
    case Given(c) =>
    case Refl(d) =>
      DeriveRefl(C, Subst(th, d));
    case Trans(q, r) =>
      SubstProof(C, th, K, q);
      SubstProof(C, th, K, r);
      DeriveTrans(C, Subst(th, q.Concl().lhs), Subst(th, q.Concl().rhs), Subst(th, r.Concl().rhs));
    case Capability(q, l) =>
      SubstProof(C, th, K, q);
      DeriveSuffix(C, Subst(th, q.Concl().lhs), Subst(th, q.Concl().rhs), [l]);
      PathVarianceOne(l);
      SubstExtend(th, q.Concl().lhs, [l]);
      SubstExtend(th, q.Concl().rhs, [l]);
    case Pointer(d) =>
      SubstPointer(C, th, d);
    case AddIn(d, k, access, o, n) =>
      SubstAdd(C, th, d, k, access, o, n);
    case AddOut(d, k, access, o, n) =>
      SubstAdd(C, th, d, k, access, o, n);
  }

  lemma SubstPointer(C: set<Subtype>, th: Meaning, d: Dtv)
    ensures Derivable(C, Subst(th, d.Extend([Store])), Subst(th, d.Extend([Load])))
  {
    hide Subst;
    SubstExtend(th, d, [Store]);
    SubstExtend(th, d, [Load]);
    var p := Pointer(Subst(th, d));
    assert p.Checks(C) && p.Concl() == Subtype(Subst(th, d.Extend([Store])), Subst(th, d.Extend([Load])));
  }

  lemma SubstAdd(C: set<Subtype>, th: Meaning, d: Dtv, k: int, access: FieldLabel, o: int, n: nat)
    requires access.IsPointerAccess()
    ensures Equivalent(C, Subst(th, d.Extend([Add(k), access, Field(o, n)])),
                       Subst(th, d.Extend([access, Field(o + k, n)])))
  {
    hide Derivable, Subst;
    EquivalentAdd(C, Subst(th, d), k, access, o, n);
    SubstExtend(th, d, [Add(k), access, Field(o, n)]);
    SubstExtend(th, d, [access, Field(o + k, n)]);
  }

  lemma {:induction false} LeadsSplit(g: Graph, n: nat, p: Trail, q: Trail, m: nat) returns (x: nat)
    requires Leads(g, n, p + q, m)
    ensures Leads(g, n, p, x) && Leads(g, x, q, m)
    decreases |p|
  {
    if p == [] {
      assert p + q == q;
      x := n;
    } else {
      assert (p + q)[0] == p[0] && (p + q)[1..] == p[1..] + q;
      x := LeadsSplit(g, g.edges[p[0]].dst, p[1..], q, m);
    }
  }

  /** The stretch between the first and the last edge of a readable path, with the ends it connects. */
  lemma ReadableEnds(C: set<Subtype>, th: Meaning, g: Graph, n: nat, p: Trail, m: nat) returns (a: nat, b: nat)
    requires g.Wf() && Sound(C, th, g) && InGraph(g, p) && Leads(g, n, p, m) && Readable(PathWord(g, p))
    ensures var w := PathWord(g, p);
            && Leads(g, a, p[1..|p| - 1], b) && IsTv(g, a) && IsTv(g, b)
            && g.nodes[a].variance == w[0].sym.variance && Root(th, g.nodes[a]) == MeaningOf(th, w[0].sym.tv)
            && g.nodes[b].variance == w[|w| - 1].sym.variance
                 && Root(th, g.nodes[b]) == MeaningOf(th, w[|w| - 1].sym.tv)
  {
    hide Root, Flows, LabelsOnly;
    var first, last := g.edges[p[0]], g.edges[p[|p| - 1]];
    assert first in g.Arcs() && last in g.Arcs();
    assert EdgeSound(C, th, Def(g, first)) && EdgeSound(C, th, Def(g, last));
    a := first.dst;
    assert p[1..] == p[1..|p| - 1] + [p[|p| - 1]];
    b := LeadsSplit(g, a, p[1..|p| - 1], [p[|p| - 1]], m);
  }

  lemma {:induction false} MidWord(g: Graph, p: Trail)
    requires InGraph(g, p) && |p| >= 2
    ensures PathWord(g, p[1..|p| - 1]) == PathWord(g, p)[1..|p| - 1]
  {
  }

  /** The signs of both sides of a readable path always agree, so the two tests of the source do. */
  lemma TestsAgree(C: set<Subtype>, th: Meaning, g: Graph, copies: set<nat>, n: nat, p: Trail, m: nat)
    requires g.Wf() && Sound(C, th, g) && Zoned(g, copies) && InGraph(g, p) && Leads(g, n, p, m)
    requires Readable(PathWord(g, p))
    ensures LeftTest(PathWord(g, p)) <==> RightTest(PathWord(g, p))
  {
    hide Root, Derivable, LabelsOnly, PopLabels, PushLabels, Reversed, Leads, PathWord;
    var w := PathWord(g, p);
    var a, b := ReadableEnds(C, th, g, n, p, m);
    var mid := p[1..|p| - 1];
    MidWord(g, p);
    var u, v := PopLabels(w[1..|w| - 1]), Reversed(PushLabels(w[1..|w| - 1]));
    var s := if PathVariance(u) == g.nodes[a].variance then [] else [Store];
    assert [Store] == [Store] + [];
    PathVarianceCons(Store, []);
    PathVarianceConcat(u, s);
    PathVarianceConcat(v, s);
    PathCarries(C, th, g, copies, a, mid, b, s);
  }

  /** Every constraint read off a path follows from the constraints, loop breakers standing for their meaning. */
  lemma EmittedDerivable(C: set<Subtype>, th: Meaning, g: Graph, copies: set<nat>, n: nat, p: Trail, m: nat)
    requires g.Wf() && Sound(C, th, g) && Zoned(g, copies) && InGraph(g, p) && Leads(g, n, p, m)
    requires Emits(PathWord(g, p))
    ensures var c := Emitted(PathWord(g, p)); Derivable(C, Subst(th, c.lhs), Subst(th, c.rhs))
  {
    hide Root, Derivable, LabelsOnly, PopLabels, PushLabels, Reversed, Leads, PathWord, SP.Norm;
    var w := PathWord(g, p);
    var a, b := ReadableEnds(C, th, g, n, p, m);
    MidWord(g, p);
    var u, v := PopLabels(w[1..|w| - 1]), Reversed(PushLabels(w[1..|w| - 1]));
    assert u + [] == u && v + [] == v;
    PathCarries(C, th, g, copies, a, p[1..|p| - 1], b, []);
    var x, y := MeaningOf(th, w[0].sym.tv), MeaningOf(th, w[|w| - 1].sym.tv);
    SP.NormEquivalent(C, x, u);
    SP.NormEquivalent(C, y, v);
    DeriveTrans(C, x.Extend(SP.Norm(u)), x.Extend(u), y.Extend(v));
    DeriveTrans(C, x.Extend(SP.Norm(u)), y.Extend(v), y.Extend(SP.Norm(v)));
  }

  // ----- walking all paths -----

  /** The view of the graph that the path enumeration works on. */
  ghost function Multigraph(g: Graph): Adjacency<FsaEdge> {
    Adjacency(g.edges, map[])
  }

  method BuildAdjacency(g: Graph) returns (a: Adjacency<FsaEdge>)
    requires g.Wf()
    ensures a.Wf() && a.arcs == g.edges && a.out.Keys == g.nodes.Keys
  {
    var out: map<nat, seq<EdgeId>> := map n | n in g.nodes :: [];
    var todo := g.edges.Keys;
    while todo != {}
      invariant todo <= g.edges.Keys && out.Keys == g.nodes.Keys
      invariant forall n, i | n in out && 0 <= i < |out[n]| ::
                  out[n][i] in g.edges && out[n][i] !in todo && g.edges[out[n][i]].src == n
      invariant forall k | k in g.edges && k !in todo :: k in out[g.edges[k].src]
      invariant forall n | n in out :: Distinct(out[n])
    {
      var k :| k in todo;
      var n := g.edges[k].src;
      out := out[n := out[n] + [k]];
      todo := todo - {k};
    }
    a := Adjacency(g.edges, out);
  }

  lemma {:induction false} SamePaths<L>(a: Adjacency<L>, b: Adjacency<L>, n: nat, p: Trail)
    requires a.arcs == b.arcs
    ensures IsPath(a, n, p) <==> IsPath(b, n, p)
    decreases |p|
  {
    if p != [] && p[0] in a.arcs {
      SamePaths(a, b, a.arcs[p[0]].dst, p[1..]);
    }
  }

  lemma {:induction false} TrailLeads(g: Graph, n: nat, m: nat, p: Trail)
    requires InGraph(g, p) && p != [] && IsPath(Multigraph(g), n, p) && g.edges[p[|p| - 1]].dst == m
    ensures Leads(g, n, p, m)
    decreases |p|
  {
    if |p| > 1 {
      assert p[1..][|p[1..]| - 1] == p[|p| - 1];
      TrailLeads(g, g.edges[p[0]].dst, m, p[1..]);
    } else {
      assert p[1..] == [];
    }
  }

  /** The constraint read off some edge-distinct path from n to m. */
  ghost predicate Reads(g: Graph, n: nat, m: nat, c: Subtype) {
    exists p: Trail :: IsTrail(Multigraph(g), n, m, p) && ReadFrom(g, p, c)
  }

  ghost predicate ReadAt(g: Graph, paths: seq<Trail>, k: nat, c: Subtype) {
    exists j :: 0 <= j < k && j < |paths| && ReadFrom(g, paths[j], c)
  }

  lemma ReadAtNext(g: Graph, paths: seq<Trail>, k: nat, c: Subtype)
    requires k < |paths|
    ensures ReadAt(g, paths, k + 1, c) <==> ReadAt(g, paths, k, c) || ReadFrom(g, paths[k], c)
  {
  }

  method ReadPaths(g: Graph, paths: seq<Trail>) returns (r: Option<set<Subtype>>)
    requires forall j | 0 <= j < |paths| :: InGraph(g, paths[j])
    requires forall k | k in g.edges :: g.edges[k].lab != Failed
    ensures r.Some? ==> forall c :: c in r.value <==> ReadAt(g, paths, |paths|, c)
    ensures r.None? <==> exists j :: 0 <= j < |paths| && Overflows(g, paths[j])
  {
    hide PathWord, Emits, Emitted, Fits, ReadAt;
    var cons: set<Subtype> := {};
    NothingRead(g, paths);
    for i := 0 to |paths|
      invariant forall c :: c in cons <==> ReadAt(g, paths, i, c)
      invariant forall j | 0 <= j < i :: !Overflows(g, paths[j])
    {
      var reading := PathToConstraint(PathWord(g, paths[i]));
      forall c ensures ReadAt(g, paths, i + 1, c) <==> ReadAt(g, paths, i, c) || ReadFrom(g, paths[i], c) {
        ReadAtNext(g, paths, i, c);
      }
      match reading {
        case Overflow =>
          assert Overflows(g, paths[i]);
          return None;
        case Nothing =>
        case Constraint(c) => cons := cons + {c};
      }
    }
    return Some(cons);
  }

  /** A fold on the path leaves the range of its machine integers. */
  ghost predicate Overflows(g: Graph, p: Trail) {
    InGraph(g, p) && Emits(PathWord(g, p)) && !Fits(PathWord(g, p))
  }

  /** Some trail from s to t overflows. */
  ghost predicate Overflowing(g: Graph, s: nat, t: nat) {
    exists p: Trail :: IsTrail(Multigraph(g), s, t, p) && Overflows(g, p)
  }

  lemma NothingRead(g: Graph, paths: seq<Trail>)
    ensures forall c :: !ReadAt(g, paths, 0, c)
  {
  }

  lemma AllRead(g: Graph, n: nat, m: nat, paths: seq<Trail>, c: Subtype)
    requires forall p :: p in paths <==> IsTrail(Multigraph(g), n, m, p)
    ensures ReadAt(g, paths, |paths|, c) <==> Reads(g, n, m, c)
  {
    hide IsTrail, ReadFrom;
    if Reads(g, n, m, c) {
      var p: Trail :| IsTrail(Multigraph(g), n, m, p) && ReadFrom(g, p, c);
      assert p in paths;
      var j :| 0 <= j < |paths| && paths[j] == p;
    }
    if ReadAt(g, paths, |paths|, c) {
      var j :| 0 <= j < |paths| && ReadFrom(g, paths[j], c);
      assert paths[j] in paths;
    }
  }

  lemma SameTrails<L>(a: Adjacency<L>, b: Adjacency<L>, n: nat, m: nat, p: Trail)
    requires a.arcs == b.arcs
    ensures IsTrail(a, n, m, p) <==> IsTrail(b, n, m, p)
  {
    SamePaths(a, b, n, p);
  }

  lemma TrailInGraph(g: Graph, n: nat, m: nat, p: Trail)
    requires IsTrail(Multigraph(g), n, m, p)
    ensures InGraph(g, p)
  {
  }

  /** Exactly what the trails read, or None, the overflow panic, exactly when some trail overflows. */
  method WalkConstraints(g: Graph, n: nat, m: nat) returns (r: Option<set<Subtype>>)
    requires g.Wf() && n in g.nodes && forall k | k in g.edges :: g.edges[k].lab != Failed
    ensures r.Some? ==> forall c :: c in r.value <==> Reads(g, n, m, c)
    ensures r.None? <==> Overflowing(g, n, m)
  {
    hide Explore, ReadAt, Reads, Ready, Overflows, IsTrail;
    var a := BuildAdjacency(g);
    var paths := AllSimplePaths(a, n, m);
    AllTrailsOnce(a, n, m);
    forall p ensures p in paths <==> IsTrail(Multigraph(g), n, m, p) {
      SameTrails(a, Multigraph(g), n, m, p);
    }
    forall j | 0 <= j < |paths| ensures InGraph(g, paths[j]) {
      assert paths[j] in paths;
      TrailInGraph(g, n, m, paths[j]);
    }
    r := ReadPaths(g, paths);
    if p: Trail :| IsTrail(Multigraph(g), n, m, p) && Overflows(g, p) {
      var j :| 0 <= j < |paths| && paths[j] == p;
    }
    if j :| 0 <= j < |paths| && Overflows(g, paths[j]) {
      assert paths[j] in paths;
    }
    forall c ensures ReadAt(g, paths, |paths|, c) <==> Reads(g, n, m, c) {
      AllRead(g, n, m, paths, c);
    }
  }

  ghost predicate ReadFrom(g: Graph, p: Trail, c: Subtype) {
    InGraph(g, p) && Emits(PathWord(g, p)) && Emitted(PathWord(g, p)) == c
  }

  lemma ReadDerivable(C: set<Subtype>, th: Meaning, g: Graph, copies: set<nat>, n: nat, m: nat, c: Subtype)
    requires g.Wf() && Sound(C, th, g) && Zoned(g, copies) && Reads(g, n, m, c)
    ensures Derivable(C, Subst(th, c.lhs), Subst(th, c.rhs))
  {
    var p: Trail :| IsTrail(Multigraph(g), n, m, p) && ReadFrom(g, p, c);
    TrailLeads(g, n, m, p);
    EmittedDerivable(C, th, g, copies, n, p, m);
  }
}
