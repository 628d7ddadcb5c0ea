/**
 * What is read off the trails of an automaton without cycles through two nodes is what its words
 * spell; and what the words of the intersected automaton spell are the net effects of the
 * pushdown runs from the start to the end.
 */
module SimplificationExact {
  import opened Graphs
  import opened Constraints
  import opened Pushdown
  import opened Saturation
  import opened SaturationLaws
  import SX = SaturationExact
  import opened StackWords
  import opened PopPush
  import opened FsaGraph
  import opened CycleBreaking
  import opened LoopBreaking
  import opened SimplePaths
  import opened DfaOperations
  import opened Walk
  import SP = SimplifyPath

  /** The only cycles are success edges from a node to itself. */
  ghost predicate Straight(A: set<IdEdge>) {
    forall e | e in A && Reachable(A, e.dst, e.src) :: e.src == e.dst && e.lab == Success
  }

  ghost predicate NothingLeaves<S, L>(A: set<Arc<S, L>>, t: S) {
    forall e | e in A :: e.src != t
  }

  // ----- words and trails -----

  /** The paths of a word, success edges from a node to itself left out. */
  lemma {:induction false} WordTrail(g: Graph, x: nat, m: nat, w: Word) returns (p: Trail)
    requires Straight(g.Arcs()) && m in Run(g.Arcs(), {x}, w)
    ensures InGraph(g, p) && Leads(g, x, p, m) && Distinct(p)
    ensures Pops(PathWord(g, p)) == Pops(w) && Pushes(PathWord(g, p)) == Pushes(w)
    ensures forall i | 0 <= i < |p| :: Reachable(g.Arcs(), x, g.edges[p[i]].src)
    decreases |w|
  {
    hide Straight;
    var A := g.Arcs();
    if w == [] {
      p := [];
    } else {
      var y := RunFrom(A, Step(A, {x}, w[0]), w[1..], m);
      var e :| e in A && e.src == x && e.lab == w[0] && e.dst == y;
      var q := WordTrail(g, y, m, w[1..]);
      if x == y && e.lab == Success {
        p := q;
      } else {
        p := FreshFirst(g, e, q);
      }
    }
  }

  lemma FreshFirst(g: Graph, e: IdEdge, q: Trail) returns (p: Trail)
    requires Straight(g.Arcs()) && e in g.Arcs() && !(e.src == e.dst && e.lab == Success)
    requires InGraph(g, q) && Distinct(q) && forall i | 0 <= i < |q| :: Reachable(g.Arcs(), e.dst, g.edges[q[i]].src)
    ensures p != [] && p[0] in g.edges && g.edges[p[0]] == e && p[1..] == q && InGraph(g, p) && Distinct(p)
    ensures PathWord(g, p) == [e.lab] + PathWord(g, q)
    ensures forall i | 0 <= i < |p| :: Reachable(g.Arcs(), e.src, g.edges[p[i]].src)
  {
    var A := g.Arcs();
    var k :| k in g.edges && g.edges[k] == e;
    p := [k] + q;
    assert p[1..] == q;
    ReachableSelf(A, e.src);
    ReachableStep(A, e.src, e);
    forall i | 0 <= i < |q| ensures q[i] != k && Reachable(A, e.src, g.edges[q[i]].src) {
      ReachableTransitive(A, e.src, e.dst, g.edges[q[i]].src);
    }
  }

  /** The path of a word, edge for edge. */
  lemma {:induction false} WordPath(g: Graph, x: nat, m: nat, w: Word) returns (p: Trail)
    requires m in Run(g.Arcs(), {x}, w)
    ensures InGraph(g, p) && Leads(g, x, p, m) && PathWord(g, p) == w
    decreases |w|
  {
    var A := g.Arcs();
    if w == [] {
      p := [];
    } else {
      var y := RunFrom(A, Step(A, {x}, w[0]), w[1..], m);
      var e :| e in A && e.src == x && e.lab == w[0] && e.dst == y;
      var k :| k in g.edges && g.edges[k] == e;
      var q := WordPath(g, y, m, w[1..]);
      p := [k] + q;
      assert p[1..] == q;
    }
  }

  /** A path to a node that is never left is one in the sense of the enumeration. */
  lemma {:induction false} LeadsIsPath(g: Graph, x: nat, m: nat, p: Trail)
    requires InGraph(g, p) && Leads(g, x, p, m) && NothingLeaves(g.Arcs(), m)
    ensures IsPath(Multigraph(g), x, p)
    ensures forall i | 0 <= i < |p| :: g.edges[p[i]].dst == m <==> i == |p| - 1
    decreases |p|
  {
    if p != [] {
      var y := g.edges[p[0]].dst;
      LeadsIsPath(g, y, m, p[1..]);
      if |p| > 1 {
        assert g.edges[p[1]] in g.Arcs() && g.edges[p[1]].src == y;
        assert p[1..][0] == p[1];
      } else {
        assert p[1..] == [];
      }
      forall i | 0 <= i < |p| ensures g.edges[p[i]].dst == m <==> i == |p| - 1 {
        if i > 0 {
          assert p[i] == p[1..][i - 1];
        }
      }
    }
  }

  lemma {:induction false} LeadsRun(g: Graph, x: nat, m: nat, p: Trail)
    requires InGraph(g, p) && Leads(g, x, p, m)
    ensures m in Run(g.Arcs(), {x}, PathWord(g, p))
    decreases |p|
  {
    if p != [] {
      var A, e := g.Arcs(), g.edges[p[0]];
      LeadsRun(g, e.dst, m, p[1..]);
      assert e in A && e.dst in Step(A, {x}, e.lab);
      RunMonotone(A, A, {e.dst}, Step(A, {x}, e.lab), PathWord(g, p[1..]));
    }
  }

  ghost predicate Accepts(A: set<IdEdge>, n: nat, m: nat, w: Word) {
    m in Run(A, {n}, w)
  }

  /** Both ends of an automaton in which every edge is sound. */
  ghost predicate HasEnds(C: set<Subtype>, th: Meaning, g: Graph, s: nat, t: nat) {
    && g.Wf() && Sound(C, th, g) && s in g.nodes && g.nodes[s] == Start && t in g.nodes && g.nodes[t] == End
  }

  predicate IsLabelEdge(w: FsaEdge) {
    w.Success? || ((w.Pop? || w.Push?) && w.sym.Label?)
  }

  /** Only popping a variable leaves the start, only pushing one enters the end, and neither happens elsewhere. */
  lemma SoundStep(C: set<Subtype>, th: Meaning, g: Graph, e: IdEdge)
    requires g.Wf() && Sound(C, th, g) && e in g.Arcs()
    ensures e.src in g.nodes && e.dst in g.nodes && g.nodes[e.src] != End && g.nodes[e.dst] != Start
    ensures g.nodes[e.src] == Start ==> IsTv(g, e.dst) && e.lab.Pop? && e.lab.sym.Var?
    ensures IsTv(g, e.src) && IsTv(g, e.dst) ==> IsLabelEdge(e.lab)
    ensures g.nodes[e.dst] == End ==> IsTv(g, e.src) && e.lab.Push? && e.lab.sym.Var?
  {
    assert EdgeSound(C, th, Def(g, e));
    hide Flows, Root;
  }

  lemma PathIsReadable(C: set<Subtype>, th: Meaning, g: Graph, s: nat, p: Trail, t: nat)
    requires HasEnds(C, th, g, s, t) && InGraph(g, p) && Leads(g, s, p, t)
    ensures Readable(PathWord(g, p))
  {
    hide Sound, EndsReadably, Readable;
    assert p != [];
    var e := g.edges[p[0]];
    SoundStep(C, th, g, e);
    TailIsReadable(C, th, g, e.dst, p[1..], t);
    VariableFirst(e.lab, PathWord(g, p[1..]));
    assert PathWord(g, p) == [e.lab] + PathWord(g, p[1..]);
  }

  lemma VariableFirst(l: FsaEdge, w: Word)
    requires l.Pop? && l.sym.Var? && EndsReadably(w)
    ensures Readable([l] + w)
  {
    assert ([l] + w)[1..|w|] == w[..|w| - 1];
  }

  ghost predicate EndsReadably(w: Word) {
    w != [] && LabelsOnly(w[..|w| - 1]) && w[|w| - 1].Push? && w[|w| - 1].sym.Var?
  }

  lemma {:induction false} TailIsReadable(C: set<Subtype>, th: Meaning, g: Graph, x: nat, p: Trail, t: nat)
    requires g.Wf() && Sound(C, th, g) && t in g.nodes && g.nodes[t] == End && IsTv(g, x)
    requires InGraph(g, p) && Leads(g, x, p, t)
    ensures EndsReadably(PathWord(g, p))
    decreases |p|
  {
    hide Sound, EndsReadably;
    assert p != [];
    var e, rest := g.edges[p[0]], p[1..];
    assert e in g.Arcs();
    SoundStep(C, th, g, e);
    assert PathWord(g, p) == [e.lab] + PathWord(g, rest);
    if g.nodes[e.dst] == End {
      if rest != [] {
        assert g.edges[rest[0]] in g.Arcs();
        SoundStep(C, th, g, g.edges[rest[0]]);
      }
      assert PathWord(g, p) == [e.lab];
      LastAlone(e.lab);
    } else {
      TailIsReadable(C, th, g, e.dst, rest, t);
      LabelFirst(e.lab, PathWord(g, rest));
    }
  }

  lemma LastAlone(l: FsaEdge)
    requires l.Push? && l.sym.Var?
    ensures EndsReadably([l])
  {
  }

  lemma LabelFirst(l: FsaEdge, w: Word)
    requires IsLabelEdge(l) && EndsReadably(w)
    ensures EndsReadably([l] + w)
  {
    assert ([l] + w)[..|w|] == [l] + w[..|w| - 1];
  }

  lemma NothingLeavesTheEnd(C: set<Subtype>, th: Meaning, g: Graph, s: nat, t: nat)
    requires HasEnds(C, th, g, s, t)
    ensures NothingLeaves(g.Arcs(), t)
  {
    forall e | e in g.Arcs() ensures e.src != t {
      EdgeEnds(C, th, g, e);
    }
  }

  /** Some trail pops u and pushes v. */
  ghost predicate Walks(g: Graph, s: nat, t: nat, u: seq<StackSymbol>, v: seq<StackSymbol>) {
    exists p: Trail :: IsTrail(Multigraph(g), s, t, p) && HasEffect(g, p, u, v)
  }

  ghost predicate HasEffect(g: Graph, p: Trail, u: seq<StackSymbol>, v: seq<StackSymbol>) {
    InGraph(g, p) && Pops(PathWord(g, p)) == u && Pushes(PathWord(g, p)) == v
  }

  /** Some word pops u and pushes v. */
  ghost predicate Spells(A: set<IdEdge>, s: nat, t: nat, u: seq<StackSymbol>, v: seq<StackSymbol>) {
    exists w: Word :: Accepts(A, s, t, w) && Pops(w) == u && Pushes(w) == v
  }

  /** Success edges from a node to itself aside, trails have the effects that words have. */
  lemma WalksAreWords(C: set<Subtype>, th: Meaning, g: Graph, s: nat, t: nat, u: seq<StackSymbol>, v: seq<StackSymbol>)
    requires HasEnds(C, th, g, s, t) && Straight(g.Arcs())
    ensures Walks(g, s, t, u, v) <==> Spells(g.Arcs(), s, t, u, v)
  {
    hide Straight, HasEnds;
    NothingLeavesTheEnd(C, th, g, s, t);
    if Walks(g, s, t, u, v) {
      var p: Trail :| IsTrail(Multigraph(g), s, t, p) && HasEffect(g, p, u, v);
      TrailLeads(g, s, t, p);
      LeadsRun(g, s, t, p);
      assert Accepts(g.Arcs(), s, t, PathWord(g, p));
    }
    if w: Word :| Accepts(g.Arcs(), s, t, w) && Pops(w) == u && Pushes(w) == v {
      var p := WordTrail(g, s, t, w);
      LeadsIsPath(g, s, t, p);
      PathIsSome(C, th, g, s, p, t);
      assert IsTrail(Multigraph(g), s, t, p) && HasEffect(g, p, u, v);
    }
  }

  lemma TrailIsReadable(C: set<Subtype>, th: Meaning, g: Graph, s: nat, t: nat, p: Trail)
    requires HasEnds(C, th, g, s, t) && IsTrail(Multigraph(g), s, t, p)
    ensures InGraph(g, p) && Readable(PathWord(g, p))
  {
    hide HasEnds, Readable;
    TrailLeads(g, s, t, p);
    PathIsReadable(C, th, g, s, p, t);
  }

  /** What is read depends on the effects of the trails alone. */
  lemma ReadsNet(C: set<Subtype>, th: Meaning, g: Graph, s: nat, t: nat, c: Subtype)
    requires HasEnds(C, th, g, s, t)
    ensures Reads(g, s, t, c) <==> exists u, v :: Walks(g, s, t, u, v) && NetEmits(u, v) && NetConstraint(u, v) == c
  {
    hide HasEnds, Emits, Emitted, Readable, NetEmits, NetConstraint, IsTrail;
    if Reads(g, s, t, c) {
      var p: Trail :| IsTrail(Multigraph(g), s, t, p) && ReadFrom(g, p, c);
      TrailIsReadable(C, th, g, s, t, p);
      EmitsNet(PathWord(g, p));
      assert HasEffect(g, p, Pops(PathWord(g, p)), Pushes(PathWord(g, p)));
      assert Walks(g, s, t, Pops(PathWord(g, p)), Pushes(PathWord(g, p)));
    }
    if u, v :| Walks(g, s, t, u, v) && NetEmits(u, v) && NetConstraint(u, v) == c {
      var p: Trail :| IsTrail(Multigraph(g), s, t, p) && HasEffect(g, p, u, v);
      TrailIsReadable(C, th, g, s, t, p);
      EmitsNet(PathWord(g, p));
      assert ReadFrom(g, p, c);
    }
  }

  ghost predicate NetFits(u: seq<StackSymbol>, v: seq<StackSymbol>) {
    SP.AllFoldsFit(LabelsIn(u)) && SP.AllFoldsFit(Reversed(LabelsIn(v)))
  }

  lemma FitsNet(w: Word)
    requires Readable(w)
    ensures Fits(w) <==> NetFits(Pops(w), Pushes(w))
  {
    ReadableEffect(w);
  }

  /** And so does the overflow. */
  lemma OverflowNet(C: set<Subtype>, th: Meaning, g: Graph, s: nat, t: nat)
    requires HasEnds(C, th, g, s, t)
    ensures Overflowing(g, s, t) <==> exists u, v :: Walks(g, s, t, u, v) && NetEmits(u, v) && !NetFits(u, v)
  {
    hide HasEnds, Emits, Readable, NetEmits, NetFits, Fits, IsTrail;
    if Overflowing(g, s, t) {
      var p: Trail :| IsTrail(Multigraph(g), s, t, p) && Overflows(g, p);
      TrailIsReadable(C, th, g, s, t, p);
      EmitsNet(PathWord(g, p));
      FitsNet(PathWord(g, p));
      assert HasEffect(g, p, Pops(PathWord(g, p)), Pushes(PathWord(g, p)));
      assert Walks(g, s, t, Pops(PathWord(g, p)), Pushes(PathWord(g, p)));
    }
    if u, v :| Walks(g, s, t, u, v) && NetEmits(u, v) && !NetFits(u, v) {
      var p: Trail :| IsTrail(Multigraph(g), s, t, p) && HasEffect(g, p, u, v);
      TrailIsReadable(C, th, g, s, t, p);
      EmitsNet(PathWord(g, p));
      FitsNet(PathWord(g, p));
      assert Overflows(g, p);
    }
  }

  lemma PathIsSome(C: set<Subtype>, th: Meaning, g: Graph, s: nat, p: Trail, t: nat)
    requires HasEnds(C, th, g, s, t) && Leads(g, s, p, t)
    ensures p != []
  {
  }

  /** A sound automaton without a cycle through two nodes is straight: at a node itself only success edges fit. */
  lemma SmallCyclesAreStraight(C: set<Subtype>, th: Meaning, g: Graph)
    requires g.Wf() && Sound(C, th, g) && NoBigCycle(g)
    ensures Straight(g.Arcs())
  {
    var A := g.Arcs();
    forall e | e in A && Reachable(A, e.dst, e.src) ensures e.src == e.dst && e.lab == Success {
      ReachableSelf(A, e.src);
      ReachableStep(A, e.src, e);
      if e.src != e.dst {
        assert Mutual(g, e.src, e.dst);
      } else {
        LoopIsSuccess(C, th, g, e);
      }
    }
  }

  lemma LoopIsSuccess(C: set<Subtype>, th: Meaning, g: Graph, e: IdEdge)
    requires g.Wf() && Sound(C, th, g) && e in g.Arcs() && e.src == e.dst
    ensures e.lab == Success
  {
    assert EdgeSound(C, th, Def(g, e));
    LabelsMatter();
  }

  lemma LabelsMatter()
    ensures forall d: Dtv, l :: d.Extend([l]) != d
  {
    forall d: Dtv, l ensures d.Extend([l]) != d {
      assert |d.Extend([l]).labels| == |d.labels| + 1;
    }
  }

  lemma StraightSubset(A: set<IdEdge>, B: set<IdEdge>)
    requires Straight(A) && B <= A
    ensures Straight(B)
  {
    forall e | e in B && Reachable(B, e.dst, e.src) ensures e.src == e.dst && e.lab == Success {
      ReachableMonotone(B, A, e.dst, e.src);
    }
  }

  // ----- from ids to places -----

  ghost function PlaceIds(mp: map<FiniteState, nat>, cantPop: map<FiniteState, nat>): map<Place, nat> {
    map p | p in (set s | s in mp :: Orig(s)) + (set s | s in cantPop :: Copy(s)) :: if p.Orig? then mp[p.st]
          else cantPop[p.st]
  }

  lemma PlaceIdsInjective(g: Graph, mp: map<FiniteState, nat>, cantPop: map<FiniteState, nat>, copies: set<nat>)
    requires Split(g, mp, cantPop, copies)
    ensures Injective(PlaceIds(mp, cantPop))
  {
  }

  lemma PlaceId(g: Graph, mp: map<FiniteState, nat>, cantPop: map<FiniteState, nat>, copies: set<nat>, i: nat)
    requires Split(g, mp, cantPop, copies) && i in g.nodes
    ensures PlaceOf(g, copies, i) in PlaceIds(mp, cantPop) && PlaceIds(mp, cantPop)[PlaceOf(g, copies, i)] == i
  {
  }

  lemma SplitWf(g: Graph, mp: map<FiniteState, nat>, cantPop: map<FiniteState, nat>, copies: set<nat>)
    requires Split(g, mp, cantPop, copies)
    ensures g.Wf()
  {
  }

  lemma PlacesAreNamed(g: Graph, mp: map<FiniteState, nat>, cantPop: map<FiniteState, nat>, copies: set<nat>)
    requires Split(g, mp, cantPop, copies)
    ensures Injective(PlaceIds(mp, cantPop)) && EndsIn(Placed(g, copies), PlaceIds(mp, cantPop).Keys)
    ensures NamedArcs(PlaceIds(mp, cantPop), Placed(g, copies)) == g.Arcs()
  {
    hide Split, PlaceIds, PlaceOf, Injective;
    SplitWf(g, mp, cantPop, copies);
    PlaceIdsInjective(g, mp, cantPop, copies);
    var ids := PlaceIds(mp, cantPop);
    forall e | e in g.Arcs() ensures PlacedEdgeOf(g, copies, e).src in ids && PlacedEdgeOf(g, copies, e).dst in ids
                                     && NamedArc(ids, PlacedEdgeOf(g, copies, e)) == e {
      PlaceId(g, mp, cantPop, copies, e.src);
      PlaceId(g, mp, cantPop, copies, e.dst);
    }
    forall p | p in Placed(g, copies) ensures p.src in ids && p.dst in ids && NamedArc(ids, p) in g.Arcs() {
      var k :| k in g.edges && p == PlacedEdgeOf(g, copies, g.edges[k]);
      assert g.edges[k] in g.Arcs();
    }
    forall e | e in g.Arcs() ensures e in NamedArcs(ids, Placed(g, copies)) {
      var k :| k in g.edges && g.edges[k] == e;
      assert PlacedEdgeOf(g, copies, e) in Placed(g, copies);
    }
  }

  /** A word takes the start's node to the end's copy exactly when it takes the start to the copied end. */
  lemma PlacedWords(g: Graph, mp: map<FiniteState, nat>, cantPop: map<FiniteState, nat>, copies: set<nat>, w: Word)
    requires Split(g, mp, cantPop, copies) && Start in mp && End in cantPop
    ensures Accepts(g.Arcs(), mp[Start], cantPop[End], w) <==> Copy(End) in Run(Placed(g, copies), {Orig(Start)}, w)
  {
    var ids := PlaceIds(mp, cantPop);
    PlacesAreNamed(g, mp, cantPop, copies);
    assert Orig(Start) in ids && Copy(End) in ids;
    NamedRun(ids, Placed(g, copies), {Orig(Start)}, w);
    assert Named(ids, {Orig(Start)}) == {mp[Start]};
    var R := Run(Placed(g, copies), {Orig(Start)}, w);
    if cantPop[End] in Named(ids, R) {
      var q :| q in R && ids[q] == cantPop[End];
      assert q == Copy(End);
    }
  }

  // ----- from words to net effects -----

  function LabelsIn(syms: seq<StackSymbol>): seq<FieldLabel> {
    if syms == [] then [] else (if syms[0].Label? then [syms[0].l] else []) + LabelsIn(syms[1..])
  }

  lemma {:induction false} PopLabelsAreLabels(w: Word)
    ensures PopLabels(w) == LabelsIn(Pops(w))
    decreases |w|
  {
    if w != [] {
      PopLabelsAreLabels(w[1..]);
      if w[0].Pop? {
        assert Pops(w)[1..] == Pops(w[1..]);
      } else {
        assert Pops(w) == Pops(w[1..]);
      }
    }
  }

  lemma {:induction false} PushLabelsAreLabels(w: Word)
    ensures PushLabels(w) == LabelsIn(Pushes(w))
    decreases |w|
  {
    if w != [] {
      PushLabelsAreLabels(w[1..]);
      if w[0].Push? {
        assert Pushes(w)[1..] == Pushes(w[1..]);
      } else {
        assert Pushes(w) == Pushes(w[1..]);
      }
    }
  }

  /** The effect starts and ends with a variable, and both sides have the sign the variable asks for. */
  ghost predicate NetEmits(u: seq<StackSymbol>, v: seq<StackSymbol>) {
    && u != [] && v != [] && u[0].Var? && v[|v| - 1].Var?
    && PathVariance(LabelsIn(u)).Operate(u[0].variance) == Covariant
    && PathVariance(Reversed(LabelsIn(v))).Operate(v[|v| - 1].variance) == Covariant
  }

  ghost function NetConstraint(u: seq<StackSymbol>, v: seq<StackSymbol>): Subtype
    requires NetEmits(u, v)
  {
    Subtype(Simplified(Dtv(u[0].tv, LabelsIn(u))), Simplified(Dtv(v[|v| - 1].tv, Reversed(LabelsIn(v)))))
  }

  lemma ReadableEffect(w: Word)
    requires Readable(w)
    ensures Pops(w) != [] && Pops(w)[0] == w[0].sym && Pushes(w) != [] && Pushes(w)[|Pushes(w)| - 1] == w[|w| - 1].sym
    ensures PopLabels(w[1..|w| - 1]) == LabelsIn(Pops(w)) && PushLabels(w[1..|w| - 1]) == LabelsIn(Pushes(w))
  {
    var first, mid, last := w[0], w[1..|w| - 1], w[|w| - 1];
    assert w == [first] + (mid + [last]);
    PopsConcat([first], mid + [last]);
    PopsConcat(mid, [last]);
    PushesConcat([first], mid + [last]);
    PushesConcat(mid, [last]);
    assert [first][1..] == [] && [last][1..] == [];
    assert Pops([first]) == [first.sym] && Pops([last]) == [] && Pushes([first]) == [] && Pushes([last]) == [last.sym];
    assert Pops(w) == [first.sym] + Pops(mid) && Pushes(w) == Pushes(mid) + [last.sym];
    assert Pops(w)[1..] == Pops(mid);
    PopLabelsAreLabels(mid);
    PushLabelsAreLabels(mid);
    LabelsInSnoc(Pushes(mid), last.sym);
  }

  lemma {:induction false} LabelsInSnoc(syms: seq<StackSymbol>, s: StackSymbol)
    requires s.Var?
    ensures LabelsIn(syms + [s]) == LabelsIn(syms)
  {
    if syms == [] {
      assert [s][1..] == [] && syms + [s] == [s];
    } else {
      assert (syms + [s])[1..] == syms[1..] + [s];
      LabelsInSnoc(syms[1..], s);
    }
  }

  /** What a readable word emits depends on its net effect alone. */
  lemma EmitsNet(w: Word)
    requires Readable(w)
    ensures Emits(w) <==> NetEmits(Pops(w), Pushes(w))
    ensures Emits(w) ==> Emitted(w) == NetConstraint(Pops(w), Pushes(w))
  {
    ReadableEffect(w);
  }

  // ----- words from the start to the end -----

  /** Only popping a variable leaves the start, only pushing one enters the end, and neither happens elsewhere. */
  lemma WordsAreReadable(C: set<Subtype>, S: set<EdgeDef>, w: Word)
    requires (forall e | e in S :: EdgeSound(C, map[], e)) && End in Run(S, {Start}, w)
    ensures Readable(w)
  {
    assert w != [];
    var x := RunFrom(S, Step(S, {Start}, w[0]), w[1..], End);
    var e :| e in S && e.src == Start && e.lab == w[0] && e.dst == x;
    assert EdgeSound(C, map[], e);
    assert x.Tv? && w[0].Pop? && w[0].sym.Var?;
    RestIsReadable(C, S, x, w[1..]);
    assert w[1..|w| - 1] == w[1..][..|w[1..]| - 1];
  }

  lemma {:induction false} RestIsReadable(C: set<Subtype>, S: set<EdgeDef>, x: FiniteState, w: Word)
    requires (forall e | e in S :: EdgeSound(C, map[], e)) && x.Tv? && End in Run(S, {x}, w)
    ensures w != [] && LabelsOnly(w[..|w| - 1]) && w[|w| - 1].Push? && w[|w| - 1].sym.Var?
    decreases |w|
  {
    assert w != [];
    var y := RunFrom(S, Step(S, {x}, w[0]), w[1..], End);
    var e :| e in S && e.src == x && e.lab == w[0] && e.dst == y;
    assert EdgeSound(C, map[], e);
    if y == End {
      NoWayFromEnd(C, S, w[1..]);
      assert w[..|w| - 1] == [];
    } else {
      RestIsReadable(C, S, y, w[1..]);
      assert w[..|w| - 1] == [w[0]] + w[1..][..|w[1..]| - 1];
    }
  }

  lemma NoWayFromEnd(C: set<Subtype>, S: set<EdgeDef>, w: Word)
    requires (forall e | e in S :: EdgeSound(C, map[], e)) && Run(S, {End}, w) != {}
    ensures w == []
  {
    if w != [] {
      forall e | e in S ensures e.src != End {
        assert EdgeSound(C, map[], e);
      }
      assert Step(S, {End}, w[0]) == {};
      RunOfNothing(S, w[1..]);
    }
  }

  /** Some pushdown run from the start to the end has a net effect that spells the constraint. */
  ghost predicate Spelled(E0: set<EdgeDef>, c: Subtype) {
    exists u, v :: SX.PushdownRun(E0, Start, u, v, End) && NetEmits(u, v) && NetConstraint(u, v) == c
  }

  /** An emitting effect of a run that leaves the range of the machine integers when it is folded. */
  ghost predicate SpelledOverflow(E0: set<EdgeDef>) {
    exists u, v :: SX.PushdownRun(E0, Start, u, v, End) && NetEmits(u, v) && !NetFits(u, v)
  }

  ghost predicate SpellsPlaced(P: set<PlacedEdge>, u: seq<StackSymbol>, v: seq<StackSymbol>) {
    exists w: Word :: Copy(End) in Run(P, {Orig(Start)}, w) && Pops(w) == u && Pushes(w) == v
  }

  /** The words of the intersected automaton have the effects that the pushdown runs have. */
  lemma WordsAreRuns(C: set<Subtype>, E0: set<EdgeDef>, E: set<EdgeDef>, F: set<Fact>, u: seq<StackSymbol>,
                     v: seq<StackSymbol>)
    requires IsSaturation(E0, E, F) && E == E0 + Matches(E, F)
    requires forall e | e in E :: EdgeSound(C, map[], e)
    ensures SpellsPlaced(Intersected(SaturatedEdges(E0, E, F)), u, v) <==> SX.PushdownRun(E0, Start, u, v, End)
  {
    hide IsSaturation, Intersected, SX.PushdownRun;
    var S := SaturatedEdges(E0, E, F);
    SoundParts(C, E0, E, F);
    SX.SaturationExact(E0, E, F, Start, u, v, End);
    if SpellsPlaced(Intersected(S), u, v) {
      var w: Word :| Copy(End) in Run(Intersected(S), {Orig(Start)}, w) && Pops(w) == u && Pushes(w) == v;
      IntersectedExact(S, Start, w, End);
    }
    if SX.PushdownRun(E0, Start, u, v, End) {
      var w: Word :| End in Run(S, {Start}, w) && PopsFirst(w) && Pops(w) == u && Pushes(w) == v;
      WordsAreReadable(C, S, w);
      assert w[|w| - 1].Push?;
      IntersectedExact(S, Start, w, End);
    }
  }

  lemma SoundParts(C: set<Subtype>, E0: set<EdgeDef>, E: set<EdgeDef>, F: set<Fact>)
    requires IsSaturation(E0, E, F) && E == E0 + Matches(E, F) && forall e | e in E :: EdgeSound(C, map[], e)
    ensures forall e | e in SaturatedEdges(E0, E, F) :: EdgeSound(C, map[], e) && e.lab != Failed
    ensures forall e | e in E0 :: e.lab != Failed
  {
  }

  // ----- cycles that matter -----

  /** No cycle through two or more places lies on a way from the start to the copied end. */
  ghost predicate NoUsefulCycle(P: set<PlacedEdge>) {
    forall e | e in P && Reachable(P, Orig(Start), e.src) && Reachable(P, e.dst, Copy(End))
           && Reachable(P, e.dst, e.src) ::
      e.src == e.dst
  }

  lemma PlacedReachable(g: Graph, mp: map<FiniteState, nat>, cantPop: map<FiniteState, nat>, copies: set<nat>, i: nat,
                        j: nat)
    requires Split(g, mp, cantPop, copies) && i in g.nodes && j in g.nodes && Reachable(g.Arcs(), i, j)
    ensures Reachable(Placed(g, copies), PlaceOf(g, copies, i), PlaceOf(g, copies, j))
  {
    hide Split, PlaceIds, PlaceOf, Placed;
    SplitWf(g, mp, cantPop, copies);
    var ids, P := PlaceIds(mp, cantPop), Placed(g, copies);
    PlacesAreNamed(g, mp, cantPop, copies);
    PlaceId(g, mp, cantPop, copies, i);
    PlaceId(g, mp, cantPop, copies, j);
    var x, y := PlaceOf(g, copies, i), PlaceOf(g, copies, j);
    var w :| j in Run(g.Arcs(), {i}, w);
    NamedRun(ids, P, {x}, w);
    assert Named(ids, {x}) == {i};
    var q :| q in Run(P, {x}, w) && ids[q] == j;
    assert q == y;
  }

  ghost predicate KeptDef(g: Graph, kept: set<nat>, s: nat, t: nat) {
    forall x | x in g.nodes :: x in kept
           <==> x == s || x == t || (Reachable(g.Arcs(), s, x) && Reachable(g.Arcs(), x, t))
  }

  /** What trimming leaves has no cycle through two nodes. */
  lemma TrimmedHasNoBigCycle(g: Graph, mp: map<FiniteState, nat>, cantPop: map<FiniteState, nat>, copies: set<nat>,
                             kept: set<nat>)
    requires Split(g, mp, cantPop, copies) && Start in mp && End in cantPop && KeptDef(g, kept, mp[Start], cantPop[End])
    requires NoUsefulCycle(Placed(g, copies))
    requires forall e | e in g.Arcs() :: e.dst != mp[Start] && e.src != cantPop[End]
    ensures NoBigCycle(Keep(g, kept))
  {
    hide NoUsefulCycle, Placed, Split, Keep;
    SplitWf(g, mp, cantPop, copies);
    var g' := Keep(g, kept);
    var A, B, P := g.Arcs(), g'.Arcs(), Placed(g, copies);
    KeepArcs(g, kept);
    SplitPlaces(g, mp, cantPop, copies);
    forall x, y | x in g'.nodes && y in g'.nodes && x != y ensures !Mutual(g', x, y) {
      if Mutual(g', x, y) {
        var e := LeavingStep(g', x, y);
        ReachableTransitive(B, e.dst, y, x);
        ReachableMonotone(B, A, e.dst, x);
        UsefulCycle(g, mp, cantPop, copies, kept, e);
      }
    }
  }

  /** Following the step of a path that leaves its first node for good. */
  lemma LeavingStep(g: Graph, x: nat, y: nat) returns (e: IdEdge)
    requires g.Wf() && x in g.nodes && x != y && Reachable(g.Arcs(), x, y)
    ensures e in g.Arcs() && e.src == x && e.dst != x && Reachable(g.Arcs(), e.dst, y)
  {
    var A := g.Arcs();
    var I := set z | z in g.nodes && (z == x || !Reachable(A, z, y));
    ReachableSelf(A, y);
    if ClosedUnder(A, I) {
      ReachableStaysInside(A, I, x, y);
    }
    e :| e in A && e.src in I && e.dst !in I;
    ReachableSelf(A, e.src);
    ReachableStep(A, e.src, e);
    ReachableTransitive(A, e.src, e.dst, y);
  }

  lemma UsefulCycle(g: Graph, mp: map<FiniteState, nat>, cantPop: map<FiniteState, nat>, copies: set<nat>,
                    kept: set<nat>, e: IdEdge)
    requires Split(g, mp, cantPop, copies) && Start in mp && End in cantPop && KeptDef(g, kept, mp[Start], cantPop[End])
    requires (forall e | e in g.Arcs() :: e.dst != mp[Start] && e.src != cantPop[End]) && g.Wf()
    requires e in g.Arcs() && e.src in kept && e.dst in kept && e.src != e.dst && Reachable(g.Arcs(), e.dst, e.src)
    ensures !NoUsefulCycle(Placed(g, copies))
  {
    hide Split, PlaceOf, Placed;
    var A, P, s, t := g.Arcs(), Placed(g, copies), mp[Start], cantPop[End];
    SplitPlaces(g, mp, cantPop, copies);
    ReachableSelf(A, s);
    ReachableSelf(A, t);
    PlacedReachable(g, mp, cantPop, copies, s, e.src);
    PlacedReachable(g, mp, cantPop, copies, e.dst, t);
    PlacedReachable(g, mp, cantPop, copies, e.dst, e.src);
    PlaceId(g, mp, cantPop, copies, e.src);
    PlaceId(g, mp, cantPop, copies, e.dst);
    PlacedEdge(g, copies, e);
    assert PlaceOf(g, copies, e.src) != PlaceOf(g, copies, e.dst);
  }

  lemma PlacedEdge(g: Graph, copies: set<nat>, e: IdEdge)
    requires g.Wf() && e in g.Arcs()
    ensures Arc(PlaceOf(g, copies, e.src), e.lab, PlaceOf(g, copies, e.dst)) in Placed(g, copies)
  {
    var k :| k in g.edges && g.edges[k] == e;
    assert PlacedEdgeOf(g, copies, e) in Placed(g, copies);
  }

  lemma SplitPlaces(g: Graph, mp: map<FiniteState, nat>, cantPop: map<FiniteState, nat>, copies: set<nat>)
    requires Split(g, mp, cantPop, copies) && Start in mp && End in cantPop
    ensures mp[Start] in g.nodes && cantPop[End] in g.nodes
    ensures PlaceOf(g, copies, mp[Start]) == Orig(Start) && PlaceOf(g, copies, cantPop[End]) == Copy(End)
    ensures forall e | e in g.Arcs() :: e.src in g.nodes && e.dst in g.nodes
  {
  }
}
