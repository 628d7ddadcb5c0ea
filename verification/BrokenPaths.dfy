/**
 * Why breaking cycles loses nothing. A path of the saturated automaton from the start to the end
 * is cut at the states that loop breakers replaced. Each piece, or else the piece read backwards
 * between the opposite states, is read off the broken automaton, and the pieces together entail
 * what the path spells.
 */
module BrokenPaths {
  import opened Graphs
  import opened Constraints
  import opened Derivation
  import opened Pushdown
  import opened SaturationLaws
  import opened StackWords
  import opened FsaGraph
  import opened CycleBreaking
  import opened LoopBreaking
  import opened SimplePaths
  import opened Walk
  import opened SimplificationExact
  import opened StatePaths
  import SP = SimplifyPath

  // ----- pieces -----

  function Front(name: map<FiniteState, TypeVariable>, st: FiniteState): Word {
    if st.Tv? && st in name then [Pop(Var(name[st], Lhs, st.variance))] else []
  }

  function Back(name: map<FiniteState, TypeVariable>, st: FiniteState): Word {
    if st.Tv? && st in name then [Push(Var(name[st], Rhs, st.variance))] else []
  }

  /** What a path reads when its ends, where they are replaced, are loop breakers. */
  function PieceWord(name: map<FiniteState, TypeVariable>, p: seq<EdgeDef>): Word
    requires p != []
  {
    Front(name, p[0].src) + PathLabels(p) + Back(name, p[|p| - 1].dst)
  }

  /** A path between the start, the end and replaced states, with none of them inside. */
  ghost predicate Piece(name: map<FiniteState, TypeVariable>, p: seq<EdgeDef>) {
    && p != [] && Joined(p)
    && (p[0].src == Start || p[0].src in name) && (p[|p| - 1].dst == End || p[|p| - 1].dst in name)
    && forall i | 0 <= i < |p| - 1 :: p[i].dst !in name
  }

  /** The edges of a path after the replacements. */
  function MovedPath(bk: Breaks, q: seq<IdEdge>): (r: seq<IdEdge>)
    ensures |r| == |q| && forall i | 0 <= i < |q| :: r[i] == bk.Moved(q[i])
  {
    seq(|q|, i requires 0 <= i < |q| => bk.Moved(q[i]))
  }

  lemma MovedIsThere(g0: Graph, g: Graph, bk: Breaks, s: nat, t: nat, e: IdEdge)
    requires IsBroken(g0, g, bk, s, t) && e in g0.Arcs()
    ensures bk.Moved(e) in g.Arcs()
  {
    assert bk.Moved(e) in bk.Redirected(g0.Arcs());
  }

  lemma BreakersAreThere(g0: Graph, g: Graph, bk: Breaks, s: nat, t: nat, n: nat)
    requires IsBroken(g0, g, bk, s, t) && n in bk.entry
    ensures n in bk.exit && n in g0.nodes && g0.nodes[n].Tv? && g0.nodes[n] in bk.name
    ensures var st := g0.nodes[n];
            && Arc(s, Pop(Var(bk.name[st], Lhs, st.variance)), bk.entry[n]) in g.Arcs()
            && Arc(bk.exit[n], Push(Var(bk.name[st], Rhs, st.variance)), t) in g.Arcs()
  {
    assert bk.PairOf(g0.nodes, s, t, n) <= bk.Pairs(g0.nodes, s, t);
  }

  lemma EndsNotReplaced(g0: Graph, g: Graph, bk: Breaks, s: nat, t: nat)
    requires IsBroken(g0, g, bk, s, t)
    ensures s !in bk.entry && t !in bk.exit && bk.entry.Keys == bk.exit.Keys
  {
  }

  lemma MovedJoined(g0: Graph, bk: Breaks, s: nat, t: nat, q: seq<IdEdge>, p: seq<EdgeDef>)
    requires IdsOf(g0, s, t, q, p) && ReplacedBut(g0, bk, {}) && Piece(bk.name, p) && bk.entry.Keys == bk.exit.Keys
    ensures Joined(MovedPath(bk, q))
    ensures q[0].src in bk.entry <==> p[0].src in bk.name
    ensures q[|q| - 1].dst in bk.exit <==> p[|p| - 1].dst in bk.name
  {
    assert Def(g0, q[0]) == p[0] && Def(g0, q[|q| - 1]) == p[|p| - 1];
    forall i, j | 0 <= i < |q| && j == i + 1 < |q| ensures MovedPath(bk, q)[i].dst == MovedPath(bk, q)[j].src {
      assert Def(g0, q[i]) == p[i];
      assert q[i].dst !in bk.entry;
    }
  }

  /** The way a piece takes through the broken automaton. */
  lemma PiecePath(g0: Graph, g: Graph, bk: Breaks, s: nat, t: nat, q: seq<IdEdge>, p: seq<EdgeDef>)
    returns (r: seq<IdEdge>)
    requires IsBroken(g0, g, bk, s, t) && ReplacedBut(g0, bk, {}) && NamesPaired(bk)
    requires IdsOf(g0, s, t, q, p) && Piece(bk.name, p)
    ensures r != [] && Joined(r) && AllIn(g.Arcs(), r) && r[0].src == s && r[|r| - 1].dst == t
    ensures PathLabels(r) == PieceWord(bk.name, p)
  {
    hide IsBroken, ReplacedBut, NamesPaired;
    var n, m := |p|, MovedPath(bk, q);
    EndsNotReplaced(g0, g, bk, s, t);
    MovedJoined(g0, bk, s, t, q, p);
    forall i | 0 <= i < n ensures m[i] in g.Arcs() {
      MovedIsThere(g0, g, bk, s, t, q[i]);
    }
    assert Def(g0, q[0]) == p[0] && Def(g0, q[n - 1]) == p[n - 1];
    var f, l: seq<IdEdge> := [], [];
    if p[0].src in bk.name {
      BreakersAreThere(g0, g, bk, s, t, q[0].src);
      f := [Arc(s, Pop(Var(bk.name[p[0].src], Lhs, p[0].src.variance)), bk.entry[q[0].src])];
    }
    if p[n - 1].dst in bk.name {
      BreakersAreThere(g0, g, bk, s, t, q[n - 1].dst);
      l := [Arc(bk.exit[q[n - 1].dst], Push(Var(bk.name[p[n - 1].dst], Rhs, p[n - 1].dst.variance)), t)];
    }
    EndsJoined(g.Arcs(), f, m, l);
    r := f + m + l;
    assert PathLabels(f) == Front(bk.name, p[0].src) && PathLabels(l) == Back(bk.name, p[n - 1].dst);
    MovedLabels(g0, bk, s, t, q, p);
    LabelsOfParts(f, m, l);
  }

  lemma MovedLabels(g0: Graph, bk: Breaks, s: nat, t: nat, q: seq<IdEdge>, p: seq<EdgeDef>)
    requires IdsOf(g0, s, t, q, p)
    ensures PathLabels(MovedPath(bk, q)) == PathLabels(p)
  {
    forall i | 0 <= i < |q| ensures MovedPath(bk, q)[i].lab == p[i].lab {
      assert Def(g0, q[i]) == p[i];
    }
  }

  lemma LabelsOfParts(f: seq<IdEdge>, m: seq<IdEdge>, l: seq<IdEdge>)
    ensures PathLabels(f + m + l) == PathLabels(f) + PathLabels(m) + PathLabels(l)
  {
  }

  lemma EndsJoined(A: set<IdEdge>, f: seq<IdEdge>, m: seq<IdEdge>, l: seq<IdEdge>)
    requires m != [] && Joined(m) && AllIn(A, m) && |f| <= 1 && |l| <= 1 && AllIn(A, f) && AllIn(A, l)
    requires (f != [] ==> f[0].dst == m[0].src) && (l != [] ==> m[|m| - 1].dst == l[0].src)
    ensures Joined(f + m + l) && AllIn(A, f + m + l)
  {
  }

  /** Every piece is spelled from the start to the end once its ends are replaced. */
  lemma PieceAccepted(g0: Graph, g: Graph, bk: Breaks, s: nat, t: nat, p: seq<EdgeDef>)
    requires IsBroken(g0, g, bk, s, t) && ReplacedBut(g0, bk, {}) && NamesPaired(bk)
    requires Tracked(g0, s, t, p) && Piece(bk.name, p)
    ensures Accepts(g.Arcs(), s, t, PieceWord(bk.name, p))
  {
    var q: seq<IdEdge> :| IdsOf(g0, s, t, q, p);
    var r := PiecePath(g0, g, bk, s, t, q, p);
    JoinedRun(g.Arcs(), r);
  }

  // ----- reading a piece backwards -----

  lemma DualFronts(name: map<FiniteState, TypeVariable>, st: FiniteState)
    requires st in name ==> st.Tv? && st.Not() in name && name[st.Not()] == name[st]
    requires st.Not() in name ==> st in name
    ensures Front(name, st.Not()) == DualWord(Back(name, st)) && Back(name, st.Not()) == DualWord(Front(name, st))
  {
  }

  lemma NamesAtOpposites(bk: Breaks, st: FiniteState)
    requires NamesPaired(bk)
    ensures st in bk.name ==> st.Tv? && st.Not() in bk.name && bk.name[st.Not()] == bk.name[st]
    ensures st.Not() in bk.name ==> st in bk.name
  {
    NotNot(st);
    assert PairedAt(bk, st) && PairedAt(bk, st.Not());
  }

  lemma DualWordConcat(u: Word, v: Word)
    ensures DualWord(u + v) == DualWord(v) + DualWord(u)
  {
  }

  /** A piece read backwards is a piece, and its word is read backwards. */
  lemma DualPiece(bk: Breaks, p: seq<EdgeDef>)
    requires NamesPaired(bk) && Piece(bk.name, p)
    ensures Piece(bk.name, DualPath(p)) && PieceWord(bk.name, DualPath(p)) == DualWord(PieceWord(bk.name, p))
  {
    hide NamesPaired;
    var n, r, name := |p|, DualPath(p), bk.name;
    var first, last := p[0].src, p[n - 1].dst;
    assert r[0] == Dual(p[n - 1]) && r[n - 1] == Dual(p[0]);
    NamesAtOpposites(bk, first);
    NamesAtOpposites(bk, last);
    DualFronts(name, first);
    DualFronts(name, last);
    forall i | 0 <= i < n - 1 ensures r[i].dst !in name && r[i].dst == r[i + 1].src {
      assert p[n - 2 - i].dst == p[n - 1 - i].src;
      NamesAtOpposites(bk, p[n - 2 - i].dst);
    }
    assert PathLabels(r) == DualWord(PathLabels(p));
    DualWordConcat(Front(name, first) + PathLabels(p), Back(name, last));
    DualWordConcat(Front(name, first), PathLabels(p));
  }

  /** What was pushed last is popped first. */
  lemma {:induction false} DualLabels(m: Word)
    requires LabelsOnly(m)
    ensures LabelsOnly(DualWord(m))
    ensures PopLabels(DualWord(m)) == Reversed(PushLabels(m)) && PushLabels(DualWord(m)) == Reversed(PopLabels(m))
    decreases |m|
  {
    if m != [] {
      var e, r := m[0], m[1..];
      assert LabelsOnly(r) && m == [e] + r;
      DualLabels(r);
      DualWordConcat([e], r);
      DualOne(e);
      LabelsConcat([e], r);
      LabelsConcat(DualWord(r), DualWord([e]));
      ReversedConcat(PushLabels([e]), PushLabels(r));
      ReversedConcat(PopLabels([e]), PopLabels(r));
    }
  }

  lemma DualOne(e: FsaEdge)
    requires LabelsOnly([e])
    ensures LabelsOnly(DualWord([e]))
    ensures PopLabels(DualWord([e])) == Reversed(PushLabels([e]))
    ensures PushLabels(DualWord([e])) == Reversed(PopLabels([e]))
  {
    assert [e][0] == e && [e][1..] == [] && DualWord([e]) == [DualWeight(e)] && [DualWeight(e)][1..] == [];
    assert forall l: FieldLabel :: [l][1..] == [] && Reversed([l]) == Reversed([]) + [l] == [l];
  }

  lemma LabelsConcat(u: Word, v: Word)
    ensures PopLabels(u + v) == PopLabels(u) + PopLabels(v) && PushLabels(u + v) == PushLabels(u) + PushLabels(v)
  {
    PopLabelsConcat(u, v);
    PushLabelsConcat(u, v);
  }

  lemma {:induction false} PopLabelsConcat(u: Word, v: Word)
    ensures PopLabels(u + v) == PopLabels(u) + PopLabels(v)
    decreases |u|
  {
    if u == [] {
      assert u + v == v;
    } else {
      assert (u + v)[0] == u[0] && (u + v)[1..] == u[1..] + v;
      PopLabelsConcat(u[1..], v);
      assert u + v != [];
    }
  }

  lemma {:induction false} PushLabelsConcat(u: Word, v: Word)
    ensures PushLabels(u + v) == PushLabels(u) + PushLabels(v)
    decreases |u|
  {
    if u == [] {
      assert u + v == v;
    } else {
      assert (u + v)[0] == u[0] && (u + v)[1..] == u[1..] + v;
      PushLabelsConcat(u[1..], v);
      assert u + v != [];
    }
  }

  /** Backwards, the two sides change places and both tests turn around. */
  lemma DualSides(w: Word)
    requires Readable(w)
    ensures Readable(DualWord(w)) && LeftSide(DualWord(w)) == RightSide(w) && RightSide(DualWord(w)) == LeftSide(w)
    ensures LeftTest(DualWord(w)) <==> !RightTest(w)
    ensures RightTest(DualWord(w)) <==> !LeftTest(w)
  {
    hide LabelsOnly, PopLabels, PushLabels, Reversed;
    var d, m := DualWord(w), w[1..|w| - 1];
    DualLabels(m);
    assert d[1..|d| - 1] == DualWord(m);
    ReversedTwice(PopLabels(m));
  }

  // ----- what a word entails -----

  /** Under every stack that fits, the left side of the word is a subtype of its right side. */
  ghost predicate Entails(K: set<Subtype>, w: Word) {
    Readable(w) && forall s :: EntailsUnder(K, w, s)
  }

  ghost predicate EntailsUnder(K: set<Subtype>, w: Word, s: seq<FieldLabel>)
    requires Readable(w)
  {
    PathVariance(LeftSide(w).labels + s) == w[0].sym.variance ==>
      && PathVariance(RightSide(w).labels + s) == w[|w| - 1].sym.variance
      && Derivable(K, LeftSide(w).Extend(s), RightSide(w).Extend(s))
  }

  lemma EmittedHolds(K: set<Subtype>, w: Word)
    requires Emits(w) && Emitted(w) in K
    ensures Derivable(K, LeftSide(w), RightSide(w))
  {
    hide Derivable, SP.Norm;
    var a, b := LeftSide(w), RightSide(w);
    DeriveGiven(K, Emitted(w));
    SimplifiedIsEquivalent(K, a);
    SimplifiedIsEquivalent(K, b);
    DeriveTrans(K, a, Simplified(a), Simplified(b));
    DeriveTrans(K, a, Simplified(b), b);
  }

  /** It is enough that the word or the word backwards is emitted; exactly one of them passes the tests. */
  lemma WordEntails(K: set<Subtype>, w: Word)
    requires Readable(w) && (LeftTest(w) <==> RightTest(w))
    requires Emits(w) ==> Emitted(w) in K
    requires Emits(DualWord(w)) ==> Emitted(DualWord(w)) in K
    ensures Entails(K, w)
  {
    hide Derivable, Emitted, LeftSide, RightSide, PathVariance;
    DualSides(w);
    var a, b := LeftSide(w), RightSide(w);
    if LeftTest(w) {
      EmittedHolds(K, w);
    } else {
      EmittedHolds(K, DualWord(w));
    }
    forall s ensures EntailsUnder(K, w, s) {
      PathVarianceConcat(a.labels, s);
      PathVarianceConcat(b.labels, s);
      if PathVariance(a.labels + s) == w[0].sym.variance {
        if LeftTest(w) {
          DeriveSuffix(K, a, b, s);
        } else {
          DeriveSuffix(K, b, a, s);
        }
      }
    }
  }

  ghost predicate PopsThenPushes(x: Word, y: Word) {
    PushLabels(x) == [] || PopLabels(y) == []
  }

  /** The two sides of a word put together from two words that meet in one loop breaker. */
  lemma SpliceSides(x: Word, b: FsaEdge, c: FsaEdge, y: Word)
    requires Readable(x + [b]) && Readable([c] + y)
    ensures Readable(x + y)
    ensures LeftSide(x + y) == LeftSide(x + [b]).Extend(LeftSide([c] + y).labels)
    ensures RightSide(x + y) == RightSide([c] + y).Extend(RightSide(x + [b]).labels)
    ensures (x + y)[0] == (x + [b])[0] && (x + y)[|x + y| - 1] == ([c] + y)[|[c] + y| - 1]
    ensures LeftSide([c] + y) == Dtv(c.sym.tv, PopLabels(y[..|y| - 1]))
    ensures RightSide(x + [b]) == Dtv(b.sym.tv, Reversed(PushLabels(x[1..])))
  {
    var m, n := x[1..], y[..|y| - 1];
    assert (x + [b])[1..|x|] == m && ([c] + y)[1..|y|] == n;
    assert (x + y)[1..|x + y| - 1] == m + n;
    LabelsConcat(m, n);
    ReversedConcat(PushLabels(m), PushLabels(n));
  }

  lemma {:induction false} ReversedConcat(u: seq<FieldLabel>, v: seq<FieldLabel>)
    ensures Reversed(u + v) == Reversed(v) + Reversed(u)
  {
    if u == [] {
      assert u + v == v;
    } else {
      assert (u + v)[1..] == u[1..] + v;
      ReversedConcat(u[1..], v);
    }
  }

  lemma Splice(K: set<Subtype>, x: Word, b: FsaEdge, c: FsaEdge, y: Word)
    requires Entails(K, x + [b]) && Entails(K, [c] + y) && PopsThenPushes(x[1..], y[..|y| - 1])
    requires b.sym.tv == c.sym.tv && b.sym.variance == c.sym.variance
    ensures Entails(K, x + y)
  {
    hide Derivable, LeftSide, RightSide, PathVariance, Readable, PopLabels, PushLabels;
    assert Readable(x + [b]) && Readable([c] + y);
    SpliceSides(x, b, c, y);
    forall s ensures EntailsUnder(K, x + y, s) {
      SpliceUnder(K, x, b, c, y, s);
    }
  }

  lemma SpliceUnder(K: set<Subtype>, x: Word, b: FsaEdge, c: FsaEdge, y: Word, s: seq<FieldLabel>)
    requires Entails(K, x + [b]) && Entails(K, [c] + y) && PopsThenPushes(x[1..], y[..|y| - 1])
    requires b.sym.tv == c.sym.tv && b.sym.variance == c.sym.variance
    requires Readable(x + y)
    ensures EntailsUnder(K, x + y, s)
  {
    hide Derivable, PathVariance, Readable, PopLabels, PushLabels, LabelsOnly, LeftSide, RightSide;
    SpliceSides(x, b, c, y);
    var v, u := RightSide(x + [b]).labels, LeftSide([c] + y).labels;
    assert v == [] || u == [];
    assert EntailsUnder(K, x + [b], u + s) && EntailsUnder(K, [c] + y, v + s);
    assert (x + [b])[|x|] == b && ([c] + y)[0] == c;
    ExtendSplit(LeftSide(x + [b]), u, s);
    ExtendSplit(RightSide([c] + y), v, s);
    StacksMeet(RightSide(x + [b]), LeftSide([c] + y), s);
    SpliceDerive(K, LeftSide(x + [b]).Extend(u + s), RightSide(x + [b]).Extend(u + s), RightSide([c] + y).Extend(v + s),
                 PathVariance(LeftSide(x + [b]).labels + (u + s)) == (x + [b])[0].sym.variance);
  }

  lemma SpliceDerive(K: set<Subtype>, a: Dtv, b: Dtv, c: Dtv, fits: bool)
    requires fits ==> Derivable(K, a, b) && Derivable(K, b, c)
    ensures fits ==> Derivable(K, a, c)
  {
    if fits {
      DeriveTrans(K, a, b, c);
    }
  }

  lemma ExtendSplit(d: Dtv, u: seq<FieldLabel>, s: seq<FieldLabel>)
    ensures d.Extend(u).Extend(s) == d.Extend(u + s) && d.Extend(u).labels + s == d.labels + (u + s)
  {
  }

  /** Where nothing is pushed before, or nothing popped after, both words see the same stack. */
  lemma StacksMeet(v: Dtv, u: Dtv, s: seq<FieldLabel>)
    requires v.base == u.base && (v.labels == [] || u.labels == [])
    ensures v.labels + (u.labels + s) == u.labels + (v.labels + s) && v.Extend(u.labels + s) == u.Extend(v.labels + s)
  {
    if u.labels == [] {
      assert u.labels + s == s && u.labels + (v.labels + s) == v.labels + s;
    } else {
      assert v.labels + s == s && v.labels + (u.labels + s) == u.labels + s;
    }
  }

  // ----- the pieces of a path -----

  /** The next position at which the path is cut. */
  lemma NextCut(name: map<FiniteState, TypeVariable>, p: seq<EdgeDef>, i: nat) returns (k: nat)
    requires i < |p|
    ensures i < k <= |p| && (k == |p| || p[k - 1].dst in name) && forall j | i <= j < k - 1 :: p[j].dst !in name
  {
    k := i + 1;
    while k < |p| && p[k - 1].dst !in name
      invariant i < k <= |p| && forall j | i <= j < k - 1 :: p[j].dst !in name
    {
      k := k + 1;
    }
  }

  ghost predicate PiecesEntail(K: set<Subtype>, name: map<FiniteState, TypeVariable>, p: seq<EdgeDef>) {
    forall j, k | 0 <= j < k <= |p| && Piece(name, p[j..k]) :: Entails(K, PieceWord(name, p[j..k]))
  }

  lemma {:induction false} NoLabelsPushed(w: Word)
    requires forall i | 0 <= i < |w| :: !w[i].Push?
    ensures PushLabels(w) == []
  {
    if w != [] {
      NoLabelsPushed(w[1..]);
    }
  }

  lemma {:induction false} NoLabelsPopped(w: Word)
    requires forall i | 0 <= i < |w| :: !w[i].Pop?
    ensures PopLabels(w) == []
  {
    if w != [] {
      NoLabelsPopped(w[1..]);
    }
  }

  lemma PopsFirstSplit(f: Word, u: Word, v: Word)
    requires PopsFirst(u + v) && f + u != [] && v != [] && forall i | 0 <= i < |f| :: f[i].Pop?
    ensures PopsThenPushes((f + u)[1..], v[..|v| - 1])
  {
    if i :| 0 <= i < |u| && u[i].Push? {
      assert (u + v)[i].Push?;
      forall j | 0 <= j < |v| ensures !v[j].Pop? {
        assert (u + v)[|u| + j] == v[j];
      }
      NoLabelsPopped(v[..|v| - 1]);
    } else {
      NoLabelsPushed((f + u)[1..]);
    }
  }

  lemma PopsFirstSlice(w: Word, i: nat, j: nat)
    requires PopsFirst(w) && i <= j <= |w|
    ensures PopsFirst(w[i..j])
  {
  }

  lemma EndsNotNamed(bk: Breaks)
    requires NamesPaired(bk)
    ensures Start !in bk.name && End !in bk.name
  {
    assert PairedAt(bk, Start) && PairedAt(bk, End);
  }

  /** From each cut on, the pieces entail what the rest of the path reads. */
  lemma {:induction false} Replay(K: set<Subtype>, bk: Breaks, p: seq<EdgeDef>, i: nat)
    requires NamesPaired(bk) && Joined(p) && PopsFirst(PathLabels(p)) && PiecesEntail(K, bk.name, p)
    requires i < |p| && p[|p| - 1].dst == End && (if i == 0 then p[0].src == Start else p[i].src in bk.name)
    ensures Entails(K, PieceWord(bk.name, p[i..]))
    decreases |p| - i
  {
    hide NamesPaired, Entails, PopsFirst;
    var n := |p|;
    var k := NextCut(bk.name, p, i);
    EndsNotNamed(bk);
    assert Piece(bk.name, p[i..k]) by {
      assert p[i..k][0] == p[i] && p[i..k][k - i - 1] == p[k - 1];
    }
    if k == n {
      assert p[i..k] == p[i..];
    } else {
      assert p[k].src == p[k - 1].dst;
      Replay(K, bk, p, k);
      ReplayStep(K, bk, p, i, k);
    }
  }

  lemma ReplayStep(K: set<Subtype>, bk: Breaks, p: seq<EdgeDef>, i: nat, k: nat)
    requires NamesPaired(bk) && Joined(p) && PopsFirst(PathLabels(p)) && i < k < |p| && p[|p| - 1].dst == End
    requires p[k].src in bk.name && Entails(K, PieceWord(bk.name, p[i..k])) && Entails(K, PieceWord(bk.name, p[k..]))
    ensures Entails(K, PieceWord(bk.name, p[i..]))
  {
    hide NamesPaired, Entails, PopsFirst, PieceWord, Front, Joined;
    var name, m := bk.name, p[k].src;
    NamesAtOpposites(bk, m);
    var f, u, v := Front(name, p[i].src), PathLabels(p[i..k]), PathLabels(p[k..]);
    var b, c := Push(Var(name[m], Rhs, m.variance)), Pop(Var(name[m], Lhs, m.variance));
    CutWords(bk, p, i, k);
    assert PathLabels(p)[i..|p|] == u + v;
    PopsFirstSlice(PathLabels(p), i, |p|);
    FrontPops(name, p[i].src);
    PopsFirstSplit(f, u, v);
    Splice(K, f + u, b, c, v);
  }

  lemma FrontPops(name: map<FiniteState, TypeVariable>, st: FiniteState)
    ensures forall i | 0 <= i < |Front(name, st)| :: Front(name, st)[i].Pop?
  {
  }

  /** What is read before the cut, after it, and without it. */
  lemma CutWords(bk: Breaks, p: seq<EdgeDef>, i: nat, k: nat)
    requires NamesPaired(bk) && Joined(p) && i < k < |p| && p[|p| - 1].dst == End
    requires p[k].src in bk.name && p[k].src.Tv?
    ensures var name, m := bk.name, p[k].src;
            var f, u, v := Front(name, p[i].src), PathLabels(p[i..k]), PathLabels(p[k..]);
            && PieceWord(name, p[i..k]) == f + u + [Push(Var(name[m], Rhs, m.variance))]
            && PieceWord(name, p[k..]) == [Pop(Var(name[m], Lhs, m.variance))] + v
            && PieceWord(name, p[i..]) == f + u + v
  {
    hide NamesPaired, Joined, PathLabels, Front, Back, PieceWord;
    var f, u, v := Front(bk.name, p[i].src), PathLabels(p[i..k]), PathLabels(p[k..]);
    CutEnds(bk, p, k);
    SlicedWord(bk.name, p, i, k);
    SlicedWord(bk.name, p, k, |p|);
    SlicedWord(bk.name, p, i, |p|);
    assert p[k..|p|] == p[k..] && p[i..|p|] == p[i..];
    SlicedLabels(p, i, k);
    assert f + (u + v) + [] == f + u + v;
  }

  lemma CutEnds(bk: Breaks, p: seq<EdgeDef>, k: nat)
    requires NamesPaired(bk) && Joined(p) && 0 < k < |p| && p[|p| - 1].dst == End
    requires p[k].src in bk.name && p[k].src.Tv?
    ensures p[k - 1].dst == p[k].src
    ensures Back(bk.name, p[k - 1].dst) == [Push(Var(bk.name[p[k].src], Rhs, p[k].src.variance))]
    ensures Front(bk.name, p[k].src) == [Pop(Var(bk.name[p[k].src], Lhs, p[k].src.variance))]
    ensures Back(bk.name, p[|p| - 1].dst) == []
  {
    hide NamesPaired;
    assert p[k - 1].dst == p[k].src;
  }

  lemma SlicedWord(name: map<FiniteState, TypeVariable>, p: seq<EdgeDef>, i: nat, k: nat)
    requires i < k <= |p|
    ensures PieceWord(name, p[i..k]) == Front(name, p[i].src) + PathLabels(p[i..k]) + Back(name, p[k - 1].dst)
  {
    assert p[i..k][0] == p[i] && p[i..k][|p[i..k]| - 1] == p[k - 1];
  }

  lemma SlicedLabels(p: seq<EdgeDef>, i: nat, k: nat)
    requires i <= k <= |p|
    ensures PathLabels(p[i..]) == PathLabels(p[i..k]) + PathLabels(p[k..])
  {
  }

  /** Everything that words of the automaton emit is in K. */
  ghost predicate HoldsWords(g: Graph, s: nat, t: nat, K: set<Subtype>) {
    forall w: Word | Accepts(g.Arcs(), s, t, w) && Emits(w) :: Emitted(w) in K
  }

  /** A word from the start to the end is readable, and the two tests of the source agree on it. */
  lemma AcceptedIsFair(C: set<Subtype>, th: Meaning, g: Graph, copies: set<nat>, s: nat, t: nat, w: Word)
    requires HasEnds(C, th, g, s, t) && Zoned(g, copies) && Accepts(g.Arcs(), s, t, w)
    ensures Readable(w) && (LeftTest(w) <==> RightTest(w))
  {
    hide Sound, Zoned, Readable;
    var p := WordPath(g, s, t, w);
    PathIsReadable(C, th, g, s, p, t);
    TestsAgree(C, th, g, copies, s, p, t);
  }

  lemma PieceEntails(C: set<Subtype>, th: Meaning, g0: Graph, g: Graph, bk: Breaks, copies: set<nat>, s: nat, t: nat,
                     K: set<Subtype>, p: seq<EdgeDef>)
    requires HasEnds(C, th, g, s, t) && Zoned(g, copies) && HoldsWords(g, s, t, K)
    requires IsBroken(g0, g, bk, s, t) && ReplacedBut(g0, bk, {}) && NamesPaired(bk)
    requires Piece(bk.name, p) && Tracked(g0, s, t, p) && Tracked(g0, s, t, DualPath(p))
    ensures Entails(K, PieceWord(bk.name, p))
  {
    hide IsBroken, ReplacedBut, NamesPaired, Tracked, Piece, HasEnds, Zoned, Entails, Accepts, PieceWord, Emitted,
         Emits;
    PieceIsSome(bk.name, p);
    var w := PieceWord(bk.name, p);
    DualPiece(bk, p);
    PieceAccepted(g0, g, bk, s, t, p);
    PieceAccepted(g0, g, bk, s, t, DualPath(p));
    AcceptedIsFair(C, th, g, copies, s, t, w);
    WordEntails(K, w);
  }

  lemma PieceIsSome(name: map<FiniteState, TypeVariable>, p: seq<EdgeDef>)
    requires Piece(name, p)
    ensures p != []
  {
  }

  lemma AllPiecesEntail(C: set<Subtype>, th: Meaning, g0: Graph, g: Graph, bk: Breaks, copies: set<nat>, s: nat, t: nat,
                        K: set<Subtype>, p: seq<EdgeDef>)
    requires HasEnds(C, th, g, s, t) && Zoned(g, copies) && HoldsWords(g, s, t, K)
    requires IsBroken(g0, g, bk, s, t) && ReplacedBut(g0, bk, {}) && NamesPaired(bk)
    requires Tracked(g0, s, t, p) && Tracked(g0, s, t, DualPath(p))
    ensures PiecesEntail(K, bk.name, p)
  {
    hide IsBroken, ReplacedBut, NamesPaired, Tracked, Piece, HasEnds, Zoned, Entails, PieceWord, HoldsWords;
    forall j, k | 0 <= j < k <= |p| && Piece(bk.name, p[j..k]) ensures Entails(K, PieceWord(bk.name, p[j..k])) {
      TrackedSlice(g0, s, t, p, j, k);
      TrackedSlice(g0, s, t, DualPath(p), |p| - k, |p| - j);
      assert DualPath(p)[|p| - k..|p| - j] == DualPath(p[j..k]);
      PieceEntails(C, th, g0, g, bk, copies, s, t, K, p[j..k]);
    }
  }

  /** What a whole path emits follows from what the broken automaton emits. */
  lemma PathEntailed(C: set<Subtype>, th: Meaning, g0: Graph, g: Graph, bk: Breaks, copies: set<nat>, s: nat, t: nat,
                     K: set<Subtype>, p: seq<EdgeDef>)
    requires HasEnds(C, th, g, s, t) && Zoned(g, copies) && HoldsWords(g, s, t, K)
    requires IsBroken(g0, g, bk, s, t) && ReplacedBut(g0, bk, {}) && NamesPaired(bk)
    requires Tracked(g0, s, t, p) && Tracked(g0, s, t, DualPath(p))
    requires p != [] && Joined(p) && PopsFirst(PathLabels(p)) && p[0].src == Start && p[|p| - 1].dst == End
    requires Emits(PathLabels(p))
    ensures var c := Emitted(PathLabels(p)); Derivable(K, c.lhs, c.rhs)
  {
    hide IsBroken, ReplacedBut, NamesPaired, Tracked, Piece, HasEnds, Zoned, HoldsWords, PiecesEntail, Entails, Emits,
         Emitted, PieceWord, Joined, PopsFirst, Derivable;
    AllPiecesEntail(C, th, g0, g, bk, copies, s, t, K, p);
    Replay(K, bk, p, 0);
    assert p[0..] == p;
    WholeWord(bk, p);
    EntailedEmission(K, PathLabels(p));
  }

  lemma WholeWord(bk: Breaks, p: seq<EdgeDef>)
    requires NamesPaired(bk) && p != [] && p[0].src == Start && p[|p| - 1].dst == End
    ensures PieceWord(bk.name, p) == PathLabels(p)
  {
  }

  lemma EntailedEmission(K: set<Subtype>, w: Word)
    requires Emits(w) && Entails(K, w)
    ensures Derivable(K, Emitted(w).lhs, Emitted(w).rhs)
  {
    hide Derivable, SP.Norm, LeftSide, RightSide;
    var a, b := LeftSide(w), RightSide(w);
    assert EntailsUnder(K, w, []);
    assert a.labels + [] == a.labels && a.Extend([]) == a && b.Extend([]) == b;
    SimplifiedIsEquivalent(K, a);
    SimplifiedIsEquivalent(K, b);
    DeriveTrans(K, Simplified(a), a, b);
    DeriveTrans(K, Simplified(a), b, Simplified(b));
  }
}
