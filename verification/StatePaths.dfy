/**
 * Paths of the saturated automaton: their ids in the automaton that is walked, before its cycles
 * are broken, and their duals.
 */
module StatePaths {
  import opened Graphs
  import opened Constraints
  import opened Pushdown
  import opened SaturationLaws
  import opened StackWords
  import opened PopPush
  import opened FsaGraph
  import opened SimplificationExact
  import Dfa = DfaOperations

  // ----- paths of states and paths of ids -----

  ghost predicate Joined<S, L>(p: seq<Arc<S, L>>) {
    forall i, j | 0 <= i < |p| && j == i + 1 < |p| :: p[i].dst == p[j].src
  }

  function PathLabels<S, L>(p: seq<Arc<S, L>>): (w: seq<L>)
    ensures |w| == |p| && forall i | 0 <= i < |p| :: w[i] == p[i].lab
  {
    seq(|p|, i requires 0 <= i < |p| => p[i].lab)
  }

  ghost predicate AllIn<S, L>(A: set<Arc<S, L>>, p: seq<Arc<S, L>>) {
    forall i | 0 <= i < |p| :: p[i] in A
  }

  lemma {:induction false} JoinedRun<S, L>(A: set<Arc<S, L>>, p: seq<Arc<S, L>>)
    requires p != [] && Joined(p) && AllIn(A, p)
    ensures p[|p| - 1].dst in Run(A, {p[0].src}, PathLabels(p))
    decreases |p|
  {
    var w := PathLabels(p);
    assert p[0].dst in Step(A, {p[0].src}, w[0]);
    if |p| == 1 {
      assert w[1..] == [];
    } else {
      JoinedRun(A, p[1..]);
      assert PathLabels(p[1..]) == w[1..];
      RunMonotone(A, A, {p[0].dst}, Step(A, {p[0].src}, w[0]), w[1..]);
    }
  }

  /** The path behind a word. */
  lemma {:induction false} RunJoined<S, L>(A: set<Arc<S, L>>, x: S, w: seq<L>, y: S) returns (p: seq<Arc<S, L>>)
    requires w != [] && y in Run(A, {x}, w)
    ensures Joined(p) && AllIn(A, p) && PathLabels(p) == w && p[0].src == x && p[|p| - 1].dst == y
    decreases |w|
  {
    hide Joined, AllIn;
    var z := RunFrom(A, Step(A, {x}, w[0]), w[1..], y);
    var e :| e in A && e.src == x && e.lab == w[0] && e.dst == z;
    if |w| == 1 {
      p := [e];
      JoinedOne(A, e);
    } else {
      var q := RunJoined(A, z, w[1..], y);
      p := [e] + q;
      JoinedCons(A, e, q);
    }
    assert PathLabels(p) == w;
  }

  lemma JoinedOne<S, L>(A: set<Arc<S, L>>, e: Arc<S, L>)
    requires e in A
    ensures Joined([e]) && AllIn(A, [e])
  {
  }

  lemma JoinedCons<S, L>(A: set<Arc<S, L>>, e: Arc<S, L>, q: seq<Arc<S, L>>)
    requires e in A && q != [] && Joined(q) && AllIn(A, q) && e.dst == q[0].src
    ensures Joined([e] + q) && AllIn(A, [e] + q) && PathLabels([e] + q) == [e.lab] + PathLabels(q)
    ensures ([e] + q)[0] == e && ([e] + q)[|q|] == q[|q| - 1]
  {
  }

  lemma {:induction false} JoinedReachable<S, L(!new)>(A: set<Arc<S, L>>, p: seq<Arc<S, L>>, i: nat)
    requires Joined(p) && AllIn(A, p) && i < |p|
    ensures Reachable(A, p[0].src, p[i].src)
    decreases i
  {
    if i == 0 {
      ReachableSelf(A, p[0].src);
    } else {
      JoinedReachable(A, p, i - 1);
      ReachableStep(A, p[0].src, p[i - 1]);
    }
  }

  lemma JoinedReaches<S, L(!new)>(A: set<Arc<S, L>>, p: seq<Arc<S, L>>, i: nat)
    requires Joined(p) && AllIn(A, p) && i < |p|
    ensures Reachable(A, p[i].dst, p[|p| - 1].dst)
  {
    ReachableSelf(A, p[i].dst);
    if i + 1 < |p| {
      var q := p[i + 1..];
      JoinedReachable(A, q, |q| - 1);
      ReachableStep(A, q[0].src, q[|q| - 1]);
    }
  }

  function DualPath(p: seq<EdgeDef>): (r: seq<EdgeDef>)
    ensures |r| == |p| && forall i | 0 <= i < |p| :: r[i] == Dual(p[|p| - 1 - i])
  {
    seq(|p|, i requires 0 <= i < |p| => Dual(p[|p| - 1 - i]))
  }

  function DualWord(w: Word): (r: Word)
    ensures |r| == |w| && forall i | 0 <= i < |w| :: r[i] == DualWeight(w[|w| - 1 - i])
  {
    seq(|w|, i requires 0 <= i < |w| => DualWeight(w[|w| - 1 - i]))
  }

  /** The ids of a path of states, with the start and the end where they belong. */
  ghost predicate IdsOf(g: Graph, s: nat, t: nat, q: seq<IdEdge>, p: seq<EdgeDef>) {
    && |q| == |p| && Joined(q) && AllIn(g.Arcs(), q)
    && (forall i | 0 <= i < |q| :: q[i].src in g.nodes && q[i].dst in g.nodes && Def(g, q[i]) == p[i])
    && (forall i | 0 <= i < |q| :: (p[i].src == Start ==> q[i].src == s) && (p[i].dst == End ==> q[i].dst == t))
  }

  ghost predicate Tracked(g: Graph, s: nat, t: nat, p: seq<EdgeDef>) {
    exists q :: IdsOf(g, s, t, q, p)
  }

  lemma TrackedSlice(g: Graph, s: nat, t: nat, p: seq<EdgeDef>, i: nat, j: nat)
    requires Tracked(g, s, t, p) && i <= j <= |p|
    ensures Tracked(g, s, t, p[i..j])
  {
    var q :| IdsOf(g, s, t, q, p);
    assert IdsOf(g, s, t, q[i..j], p[i..j]);
  }

  // ----- where a path of states runs in the trimmed automaton -----

  function NodeAt(p: seq<EdgeDef>, i: nat): FiniteState
    requires p != [] && i <= |p|
  {
    if i < |p| then p[i].src else p[|p| - 1].dst
  }

  /** The path in the intersection with pops-then-pushes: edge c is the first push. */
  function PlaceAt(p: seq<EdgeDef>, c: nat, i: nat): Place
    requires p != [] && i <= |p|
  {
    if i <= c then Orig(NodeAt(p, i)) else Copy(NodeAt(p, i))
  }

  function PlacedPath(p: seq<EdgeDef>, c: nat): (r: seq<PlacedEdge>)
    requires p != []
    ensures |r| == |p| && forall i | 0 <= i < |p| :: r[i] == Arc(PlaceAt(p, c, i), p[i].lab, PlaceAt(p, c, i + 1))
  {
    seq(|p|, i requires 0 <= i < |p| => Arc(PlaceAt(p, c, i), p[i].lab, PlaceAt(p, c, i + 1)))
  }

  lemma FirstPush(w: Word) returns (c: nat)
    requires PopsFirst(w) && HasPush(w)
    ensures c < |w| && w[c].Push? && (forall i | 0 <= i < c :: !w[i].Push?) && forall i | c < i < |w| :: !w[i].Pop?
  {
    var i :| 0 <= i < |w| && w[i].Push?;
    c := 0;
    while !w[c].Push?
      invariant c <= i && forall i | 0 <= i < c :: !w[i].Push?
      decreases i - c
    {
      c := c + 1;
    }
  }

  lemma PlacedPathIsThere(S: set<EdgeDef>, p: seq<EdgeDef>, c: nat)
    requires p != [] && Joined(p) && AllIn(S, p) && c < |p| && p[c].lab.Push? && (forall e | e in S :: e.lab != Failed)
    requires (forall i | 0 <= i < c :: !p[i].lab.Push?) && forall i | c < i < |p| :: !p[i].lab.Pop?
    ensures AllIn(Intersected(S), PlacedPath(p, c))
  {
    forall i | 0 <= i < |p| ensures PlacedPath(p, c)[i] in Intersected(S) {
      assert p[i] in S && p[i].src == NodeAt(p, i) && p[i].dst == NodeAt(p, i + 1);
    }
  }

  /** The same path on ids. */
  function IdPath(ids: map<Place, nat>, r: seq<PlacedEdge>): (q: seq<IdEdge>)
    requires forall i | 0 <= i < |r| :: r[i].src in ids && r[i].dst in ids
    ensures |q| == |r| && forall i | 0 <= i < |r| :: q[i] == Arc(ids[r[i].src], r[i].lab, ids[r[i].dst])
  {
    seq(|r|, i requires 0 <= i < |r| => Arc(ids[r[i].src], r[i].lab, ids[r[i].dst]))
  }

  lemma IdPathIsThere(g: Graph, mp: map<FiniteState, nat>, cantPop: map<FiniteState, nat>, copies: set<nat>,
                      p: seq<EdgeDef>, c: nat) returns (q: seq<IdEdge>)
    requires Split(g, mp, cantPop, copies) && g.Wf() && p != [] && AllIn(Placed(g, copies), PlacedPath(p, c))
    ensures |q| == |p| && Joined(q) && AllIn(g.Arcs(), q)
    ensures forall i | 0 <= i < |p| :: IsAt(g, mp, cantPop, q[i].src, PlaceAt(p, c, i)) && q[i].lab == p[i].lab
    ensures forall i | 0 <= i < |p| :: IsAt(g, mp, cantPop, q[i].dst, PlaceAt(p, c, i + 1))
  {
    hide Split, Placed, PlaceAt, Dfa.Injective;
    var ids, r := PlaceIds(mp, cantPop), PlacedPath(p, c);
    PlacesAreNamed(g, mp, cantPop, copies);
    forall i | 0 <= i < |r| ensures r[i].src in ids && r[i].dst in ids {
      assert r[i] in Placed(g, copies);
    }
    q := IdPath(ids, r);
    forall i | 0 <= i < |q| ensures q[i] in g.Arcs() {
      assert Dfa.NamedArc(ids, r[i]) in Dfa.NamedArcs(ids, Placed(g, copies));
    }
    forall pl | pl in ids ensures IsAt(g, mp, cantPop, ids[pl], pl) {
      PlaceIsAt(g, mp, cantPop, copies, pl);
    }
  }

  /** The id of a place. */
  ghost predicate IsAt(g: Graph, mp: map<FiniteState, nat>, cantPop: map<FiniteState, nat>, i: nat, pl: Place) {
    && i in g.nodes && g.nodes[i] == pl.st
    && (if pl.Orig? then pl.st in mp && mp[pl.st] == i else pl.st in cantPop && cantPop[pl.st] == i)
  }

  lemma PlaceIsAt(g: Graph, mp: map<FiniteState, nat>, cantPop: map<FiniteState, nat>, copies: set<nat>, pl: Place)
    requires Split(g, mp, cantPop, copies) && pl in PlaceIds(mp, cantPop)
    ensures IsAt(g, mp, cantPop, PlaceIds(mp, cantPop)[pl], pl)
  {
  }

  /** What lies on a path from the start to the end survives trimming. */
  lemma KeptPath(g: Graph, kept: set<nat>, s: nat, t: nat, q: seq<IdEdge>)
    requires g.Wf() && KeptDef(g, kept, s, t) && q != [] && Joined(q) && AllIn(g.Arcs(), q)
    requires q[0].src == s && q[|q| - 1].dst == t
    ensures AllIn(Keep(g, kept).Arcs(), q)
    ensures forall i | 0 <= i < |q| :: q[i].src in Keep(g, kept).nodes && q[i].dst in Keep(g, kept).nodes
  {
    var A := g.Arcs();
    KeepArcs(g, kept);
    forall i | 0 <= i < |q| ensures q[i].src in g.nodes && q[i].dst in g.nodes && q[i].src in kept && q[i].dst in kept {
      assert q[i] in A;
      JoinedReachable(A, q, i);
      JoinedReaches(A, q, i);
      ReachableSelf(A, q[i].src);
      ReachableStep(A, q[i].src, q[i]);
      ReachableTransitive(A, q[i].src, q[i].dst, t);
      ReachableStep(A, s, q[i]);
    }
  }

  /** Every path of states that pops before it pushes runs through the trimmed automaton. */
  lemma PathTracked(C: set<Subtype>, S: set<EdgeDef>, g: Graph, mp: map<FiniteState, nat>,
                    cantPop: map<FiniteState, nat>, copies: set<nat>, kept: set<nat>, p: seq<EdgeDef>)
    requires Split(g, mp, cantPop, copies) && Start in mp && End in cantPop && g.Wf()
    requires Placed(g, copies) == Intersected(S)
    requires KeptDef(g, kept, mp[Start], cantPop[End]) && forall e | e in S :: EdgeSound(C, map[], e)
    requires p != [] && Joined(p) && AllIn(S, p) && p[0].src == Start && p[|p| - 1].dst == End
    requires PopsFirst(PathLabels(p)) && HasPush(PathLabels(p))
    ensures Tracked(Keep(g, kept), mp[Start], cantPop[End], p)
  {
    hide Split, Placed, Intersected, EdgeSound, PopsFirst, HasPush, Keep, KeptDef, PlacedPath, Reachable, AllIn;
    var c := FirstPush(PathLabels(p));
    forall i | 0 <= i < |p| ensures p[i].lab == PathLabels(p)[i] {
    }
    forall e | e in S ensures e.lab != Failed && e.dst != Start && e.src != End {
      SoundLabel(C, e);
    }
    PlacedPathIsThere(S, p, c);
    var q := IdPathIsThere(g, mp, cantPop, copies, p, c);
    var s, t := mp[Start], cantPop[End];
    assert IsAt(g, mp, cantPop, q[0].src, PlaceAt(p, c, 0)) && IsAt(g, mp, cantPop, q[|p| - 1].dst, PlaceAt(p, c, |p|));
    KeptPath(g, kept, s, t, q);
    forall i | 0 <= i < |p| ensures Def(Keep(g, kept), q[i]) == p[i] {
      KeptDefs(g, kept, q[i]);
      DefOfPlaces(g, mp, cantPop, p, c, i, q[i]);
    }
    forall i | 0 <= i < |p| ensures (p[i].src == Start ==> q[i].src == s) && (p[i].dst == End ==> q[i].dst == t) {
      OnlyAtTheEnds(S, p, i);
    }
    assert IdsOf(Keep(g, kept), s, t, q, p);
  }

  lemma DefOfPlaces(g: Graph, mp: map<FiniteState, nat>, cantPop: map<FiniteState, nat>, p: seq<EdgeDef>, c: nat,
                    i: nat, e: IdEdge)
    requires p != [] && Joined(p) && i < |p| && e.lab == p[i].lab
    requires IsAt(g, mp, cantPop, e.src, PlaceAt(p, c, i)) && IsAt(g, mp, cantPop, e.dst, PlaceAt(p, c, i + 1))
    ensures Def(g, e) == p[i]
  {
  }

  lemma OnlyAtTheEnds(S: set<EdgeDef>, p: seq<EdgeDef>, i: nat)
    requires Joined(p) && AllIn(S, p) && i < |p| && forall e | e in S :: e.dst != Start && e.src != End
    ensures (p[i].src == Start ==> i == 0) && (p[i].dst == End ==> i == |p| - 1)
  {
    if i > 0 {
      assert p[i - 1].dst == p[i].src && p[i - 1] in S;
    }
    if i < |p| - 1 {
      assert p[i].dst == p[i + 1].src && p[i + 1] in S;
    }
  }

  lemma KeptDefs(g: Graph, kept: set<nat>, e: IdEdge)
    requires e.src in Keep(g, kept).nodes && e.dst in Keep(g, kept).nodes
    ensures e.src in g.nodes && e.dst in g.nodes && Def(Keep(g, kept), e) == Def(g, e)
  {
  }

  lemma SoundLabel(C: set<Subtype>, e: EdgeDef)
    requires EdgeSound(C, map[], e)
    ensures e.lab != Failed && e.dst != Start && e.src != End
  {
  }
}
