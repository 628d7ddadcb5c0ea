/**
 * What simplification does not lose: whatever the constraints entail between interesting
 * variables by transitivity, the field rules, and the pointer and displacement rules at
 * interesting variables is entailed by the constraints that the pushdown runs spell. A
 * derivation is taken apart into moves, each one constraint or one rule under a suffix, and a
 * stretch of moves between interesting variables is replayed as a run.
 */
module Completeness {
  import opened Graphs
  import opened Constraints
  import opened Derivation
  import opened Pushdown
  import opened SX = SaturationExact
  import SP = SimplifyPath
  import opened Walk
  import opened SimplificationExact

  /** Proofs that apply the rules for pointers and displacements at interesting variables only. */
  predicate Basic(ctx: RuleContext, p: Proof) {
    match p
    case Given(_) => true
    case Refl(_) => true
    case Trans(q, r) => Basic(ctx, q) && Basic(ctx, r)
    case Capability(q, _) => Basic(ctx, q)
    case Pointer(d) => IsInteresting(ctx, d)
    case AddIn(d, _, _, _, _) => IsInteresting(ctx, d)
    case AddOut(d, _, _, _, _) => IsInteresting(ctx, d)
  }

  predicate IsInteresting(ctx: RuleContext, d: Dtv) {
    d.base.ToCallee() in ctx.interesting
  }

  /** A rule for pointers or displacements at an interesting variable. */
  ghost predicate IsRule(ctx: RuleContext, c: Subtype) {
    IsInteresting(ctx, c.lhs) && c.rhs.base == c.lhs.base && Derivable({}, c.lhs, c.rhs)
  }

  ghost function Only(cons: set<Subtype>): iset<Subtype> {
    iset c | c in cons
  }

  /** What a single move may be: a given constraint, or a rule at an interesting variable. */
  ghost function Steps(ctx: RuleContext, cons: set<Subtype>): iset<Subtype> {
    iset c | c in cons || IsRule(ctx, c)
  }

  // ----- derivations as chains of moves -----

  /** One constraint under a suffix; a contravariant suffix turns it around. */
  datatype Move = Move(c: Subtype, s: seq<FieldLabel>) {
    function Near(): Dtv {
      if PathVariance(s) == Covariant then c.lhs else c.rhs
    }

    function Far(): Dtv {
      if PathVariance(s) == Covariant then c.rhs else c.lhs
    }

    function From(): Dtv {
      Near().Extend(s)
    }

    function To(): Dtv {
      Far().Extend(s)
    }

    function Under(l: FieldLabel): Move {
      Move(c, s + [l])
    }
  }

  ghost predicate IsChain(C: iset<Subtype>, ms: seq<Move>, a: Dtv, b: Dtv)
    decreases |ms|
  {
    if ms == [] then a == b else ms[0].c in C && ms[0].From() == a && IsChain(C, ms[1..], ms[0].To(), b)
  }

  lemma {:induction false} ChainConcat(C: iset<Subtype>, ms: seq<Move>, ns: seq<Move>, a: Dtv, b: Dtv, d: Dtv)
    requires IsChain(C, ms, a, b) && IsChain(C, ns, b, d)
    ensures IsChain(C, ms + ns, a, d)
    decreases |ms|
  {
    if ms == [] {
      assert ms + ns == ns;
    } else {
      ChainConcat(C, ms[1..], ns, ms[0].To(), b, d);
      assert (ms + ns)[1..] == ms[1..] + ns;
    }
  }

  function AllUnder(ms: seq<Move>, l: FieldLabel): (r: seq<Move>)
    ensures |r| == |ms| && forall i | 0 <= i < |ms| :: r[i] == ms[i].Under(l)
  {
    seq(|ms|, i requires 0 <= i < |ms| => ms[i].Under(l))
  }

  function Backwards(ms: seq<Move>): (r: seq<Move>)
    ensures |r| == |ms| && forall i | 0 <= i < |ms| :: r[i] == ms[|ms| - 1 - i]
  {
    seq(|ms|, i requires 0 <= i < |ms| => ms[|ms| - 1 - i])
  }

  /** A covariant label keeps a move's direction, a contravariant one turns it around. */
  lemma UnderEnds(m: Move, l: FieldLabel)
    ensures m.Under(l).c == m.c
    ensures l.Variance() == Covariant
            ==> m.Under(l).From() == m.From().Extend([l]) && m.Under(l).To() == m.To().Extend([l])
    ensures l.Variance() == Contravariant
            ==> m.Under(l).From() == m.To().Extend([l]) && m.Under(l).To() == m.From().Extend([l])
  {
    PathVarianceConcat(m.s, [l]);
    PathVarianceOne(l);
    assert m.c.lhs.labels + (m.s + [l]) == m.c.lhs.labels + m.s + [l]
           && m.c.rhs.labels + (m.s + [l]) == m.c.rhs.labels + m.s + [l];
  }

  lemma {:induction false} ChainUnder(C: iset<Subtype>, ms: seq<Move>, a: Dtv, b: Dtv, l: FieldLabel)
    requires IsChain(C, ms, a, b)
    ensures l.Variance() == Covariant ==> IsChain(C, AllUnder(ms, l), a.Extend([l]), b.Extend([l]))
    ensures l.Variance() == Contravariant ==> IsChain(C, Backwards(AllUnder(ms, l)), b.Extend([l]), a.Extend([l]))
    decreases |ms|
  {
    hide Move.From, Move.To, Move.Under;
    if ms != [] {
      var m, rest := ms[0], ms[1..];
      ChainUnder(C, rest, m.To(), b, l);
      UnderEnds(m, l);
      assert AllUnder(ms, l)[1..] == AllUnder(rest, l);
      if l.Variance() == Contravariant {
        assert [m.Under(l)][1..] == [];
        ChainConcat(C, Backwards(AllUnder(rest, l)), [m.Under(l)], b.Extend([l]), m.To().Extend([l]), a.Extend([l]));
        assert Backwards(AllUnder(ms, l)) == Backwards(AllUnder(rest, l)) + [m.Under(l)];
      }
    }
  }

  lemma RuleDerivable(p: Proof)
    requires p.Pointer? || p.AddIn? || p.AddOut?
    requires p.Checks({})
    ensures Derivable({}, p.Concl().lhs, p.Concl().rhs) && p.Concl().lhs.base == p.Concl().rhs.base == p.d.base
  {
    assert p.Concl() == Subtype(p.Concl().lhs, p.Concl().rhs);
  }

  lemma MoveChain(C: iset<Subtype>, c: Subtype)
    requires c in C
    ensures IsChain(C, [Move(c, [])], c.lhs, c.rhs)
  {
    assert [Move(c, [])][1..] == [] && c.lhs.Extend([]) == c.lhs && c.rhs.Extend([]) == c.rhs;
  }

  lemma {:induction false} ProofIsChain(ctx: RuleContext, cons: set<Subtype>, p: Proof) returns (ms: seq<Move>)
    requires p.Checks(cons) && Basic(ctx, p)
    ensures IsChain(Steps(ctx, cons), ms, p.Concl().lhs, p.Concl().rhs)
  {
    hide Derivable;
    var C := Steps(ctx, cons);
    match p
    case Given(c) =>
      ms := [Move(c, [])];
      MoveChain(C, c);
    case Refl(d) =>
      ms := [];
    case Trans(q, r) =>
      var ms1 := ProofIsChain(ctx, cons, q);
      var ms2 := ProofIsChain(ctx, cons, r);
      ChainConcat(C, ms1, ms2, q.Concl().lhs, q.Concl().rhs, r.Concl().rhs);
      ms := ms1 + ms2;
    case Capability(q, l) =>
      var ns := ProofIsChain(ctx, cons, q);
      ChainUnder(C, ns, q.Concl().lhs, q.Concl().rhs, l);
      ms := if l.Variance() == Covariant then AllUnder(ns, l) else Backwards(AllUnder(ns, l));
    case _ =>
      ms := [Move(p.Concl(), [])];
      RuleDerivable(p);
      MoveChain(C, p.Concl());
  }

  // ----- taking a common last label off a chain -----

  ghost predicate AllEndIn(ms: seq<Move>, l: FieldLabel) {
    forall i | 0 <= i < |ms| :: ms[i].s != [] && ms[i].s[|ms[i].s| - 1] == l
  }

  function Shorter(m: Move): Move
    requires m.s != []
  {
    Move(m.c, m.s[..|m.s| - 1])
  }

  function Cut(d: Dtv): Dtv
    requires d.labels != []
  {
    Dtv(d.base, d.labels[..|d.labels| - 1])
  }

  /** Where every move has a suffix, all suffixes end in the same label. */
  lemma {:induction false} CommonLast(C: iset<Subtype>, ms: seq<Move>, a: Dtv, b: Dtv, l: FieldLabel)
    requires IsChain(C, ms, a, b) && (forall i | 0 <= i < |ms| :: ms[i].s != []) && a.labels != []
    requires a.labels[|a.labels| - 1] == l
    ensures AllEndIn(ms, l) && b.labels != [] && b.labels[|b.labels| - 1] == l
    decreases |ms|
  {
    if ms != [] {
      var m := ms[0];
      assert m.From().labels[|m.From().labels| - 1] == m.s[|m.s| - 1] == m.To().labels[|m.To().labels| - 1];
      CommonLast(C, ms[1..], m.To(), b, l);
      assert forall i | 0 < i < |ms| :: ms[i] == ms[1..][i - 1];
    }
  }

  function AllShorter(ms: seq<Move>, l: FieldLabel): (r: seq<Move>)
    requires AllEndIn(ms, l)
    ensures |r| == |ms| && forall i | 0 <= i < |ms| :: r[i] == Shorter(ms[i])
  {
    seq(|ms|, i requires 0 <= i < |ms| => Shorter(ms[i]))
  }

  lemma ShorterEnds(m: Move, l: FieldLabel)
    requires m.s != [] && m.s[|m.s| - 1] == l
    ensures m.From().labels != [] && m.To().labels != []
    ensures l.Variance() == Covariant ==> Shorter(m).From() == Cut(m.From()) && Shorter(m).To() == Cut(m.To())
    ensures l.Variance() == Contravariant ==> Shorter(m).From() == Cut(m.To()) && Shorter(m).To() == Cut(m.From())
  {
    var n := Shorter(m);
    assert m == n.Under(l) by {
      assert m.s == n.s + [l];
    }
    UnderEnds(n, l);
    CutExtend(n.From(), l);
    CutExtend(n.To(), l);
  }

  lemma CutExtend(d: Dtv, l: FieldLabel)
    ensures Cut(d.Extend([l])) == d
  {
  }

  lemma {:induction false} ChainShorter(C: iset<Subtype>, ms: seq<Move>, a: Dtv, b: Dtv, l: FieldLabel)
    requires IsChain(C, ms, a, b) && AllEndIn(ms, l)
    requires a.labels != [] && b.labels != []
    ensures l.Variance() == Covariant ==> IsChain(C, AllShorter(ms, l), Cut(a), Cut(b))
    ensures l.Variance() == Contravariant ==> IsChain(C, Backwards(AllShorter(ms, l)), Cut(b), Cut(a))
    decreases |ms|
  {
    hide Move.From, Move.To;
    if ms != [] {
      var m, rest := ms[0], ms[1..];
      ShorterEnds(m, l);
      ChainShorter(C, rest, m.To(), b, l);
      assert AllShorter(ms, l)[1..] == AllShorter(rest, l);
      if l.Variance() == Contravariant {
        assert [Shorter(m)][1..] == [];
        ChainConcat(C, Backwards(AllShorter(rest, l)), [Shorter(m)], Cut(b), Cut(m.To()), Cut(a));
        assert Backwards(AllShorter(ms, l)) == Backwards(AllShorter(rest, l)) + [Shorter(m)];
      }
    }
  }

  // ----- what a run of the automaton does with a chain -----

  function Symbols(labels: seq<FieldLabel>): (r: seq<StackSymbol>)
    ensures |r| == |labels| && forall i | 0 <= i < |labels| :: r[i] == Label(labels[i])
  {
    seq(|labels|, i requires 0 <= i < |labels| => Label(labels[i]))
  }

  /**
   * At a state with path p, having popped the start's variable and the first r labels of a, with
   * the labels of front on the stack, first on top: what is denoted is p, front and the rest of a.
   */
  function At(v: VHat, sign: Variance, p: seq<FieldLabel>, a: Dtv, front: seq<FieldLabel>, r: nat): SX.Config
    requires r <= |a.labels|
  {
    SX.Config(Tv(v, sign, p), [Var(a.base, Lhs, PathVariance(a.labels))] + Symbols(a.labels[..r]),
              SX.Plain(Symbols(Reversed(front))))
  }

  ghost function Rest(a: Dtv, front: seq<FieldLabel>, r: nat): seq<FieldLabel>
    requires r <= |a.labels|
  {
    front + a.labels[r..]
  }

  lemma PopOne(E: set<EdgeDef>, v: VHat, sign: Variance, p: seq<FieldLabel>, sign': Variance, p': seq<FieldLabel>,
               l: FieldLabel, a: Dtv, front: seq<FieldLabel>, r: nat) returns (front': seq<FieldLabel>, r': nat)
    requires r <= |a.labels| && Arc(Tv(v, sign, p), Pop(Label(l)), Tv(v, sign', p')) in E
    requires Rest(a, front, r) != [] && Rest(a, front, r)[0] == l
    ensures r <= r' <= |a.labels| && Rest(a, front', r') == Rest(a, front, r)[1..]
    ensures SX.Leads(E, At(v, sign, p, a, front, r), At(v, sign', p', a, front', r'), false)
  {
    var c := At(v, sign, p, a, front, r);
    if front != [] {
      front', r' := front[1..], r;
      var d := At(v, sign', p', a, front', r');
      assert Reversed(front) == Reversed(front') + [l];
      assert d.stack == c.stack[..|c.stack| - 1] && c.stack[|c.stack| - 1].sym == Label(l);
      assert SX.Inner(E, c, d);
      OneStep(E, c, d);
    } else {
      front', r' := [], r + 1;
      var d := At(v, sign', p', a, front', r');
      assert a.labels[r..][0] == l && a.labels[r..][1..] == a.labels[r + 1..];
      assert d.popped[..|c.popped|] == c.popped && d.popped[|c.popped|] == Label(l);
      assert SX.Outer(E, c, d);
      OneStep(E, c, d);
    }
  }

  lemma OneStep(E: set<EdgeDef>, c: SX.Config, d: SX.Config)
    requires SX.Inner(E, c, d) || SX.Outer(E, c, d)
    ensures SX.Leads(E, c, d, false)
  {
    SX.LeadsSelf(E, c, false);
    SX.LeadsStep(E, c, c, d, false);
  }

  /** From the root of a variable down a path of the constraints, popping its labels. */
  lemma {:induction false} PopTo(E: set<EdgeDef>, v: VHat, sign: Variance, p: seq<FieldLabel>, a: Dtv,
                                 front: seq<FieldLabel>, r: nat)
    returns (front': seq<FieldLabel>, r': nat)
    requires r <= |a.labels| && PushPopEdges(v, sign, p) <= E
    requires |p| <= |Rest(a, front, r)| && Rest(a, front, r)[..|p|] == p
    ensures r <= r' <= |a.labels| && Rest(a, front', r') == Rest(a, front, r)[|p|..]
    ensures SX.Leads(E, At(v, sign.Operate(PathVariance(p)), [], a, front, r), At(v, sign, p, a, front', r'), false)
    decreases |p|
  {
    hide SX.Leads, At, Rest;
    if p == [] {
      front', r' := front, r;
      SX.LeadsSelf(E, At(v, sign, [], a, front, r), false);
    } else {
      var q, l := p[..|p| - 1], p[|p| - 1];
      var up := sign.Operate(l.Variance());
      var total := Rest(a, front, r);
      assert total[..|q|] == q by {
        assert total[..|p|][..|q|] == total[..|q|];
      }
      var f, k := PopTo(E, v, up, q, a, front, r);
      assert FlipEdge(PushEdge(v, sign, p)) in E;
      assert total[|q|..][0] == l by {
        assert total[|q|] == total[..|p|][|q|];
      }
      front', r' := PopOne(E, v, up, q, sign, p, l, a, f, k);
      assert total[|q|..][1..] == total[|p|..];
      SX.LeadsTrans(E, At(v, sign.Operate(PathVariance(p)), [], a, front, r), At(v, up, q, a, f, k),
                    At(v, sign, p, a, front', r'), false);
    }
  }

  /** And up again to the root, pushing the labels of a path. */
  lemma {:induction false} PushFrom(E: set<EdgeDef>, v: VHat, sign: Variance, q: seq<FieldLabel>, a: Dtv,
                                    front: seq<FieldLabel>, r: nat)
    requires r <= |a.labels| && PushPopEdges(v, sign, q) <= E
    ensures SX.Leads(E, At(v, sign, q, a, front, r), At(v, sign.Operate(PathVariance(q)), [], a, q + front, r), false)
    decreases |q|
  {
    hide SX.Leads;
    if q == [] {
      assert q + front == front;
      SX.LeadsSelf(E, At(v, sign, [], a, front, r), false);
    } else {
      var p, l := q[..|q| - 1], q[|q| - 1];
      var up := sign.Operate(l.Variance());
      var c, d := At(v, sign, q, a, front, r), At(v, up, p, a, [l] + front, r);
      assert PushEdge(v, sign, q) in E;
      assert ([l] + front)[1..] == front && Reversed([l] + front) == Reversed(front) + [l];
      assert d.stack[..|c.stack|] == c.stack && d.stack[|c.stack|] == SX.Cell(Label(l), false);
      assert SX.Inner(E, c, d);
      OneStep(E, c, d);
      PushFrom(E, v, up, p, a, [l] + front, r);
      assert p + ([l] + front) == q + front;
      SX.LeadsTrans(E, c, d, At(v, sign.Operate(PathVariance(q)), [], a, q + front, r), false);
    }
  }

  /** The edges a move needs: its own success edge, and the push and pop edges at both of its ends. */
  lemma MoveEdges(ctx: RuleContext, cons: set<Subtype>, m: Move)
    requires m.c in cons
    ensures var E, sign := InitialEdges(ctx, cons), PathVariance(m.s);
            var near, far := ctx.Side(m.Near().base, Lhs), ctx.Side(m.Far().base, Rhs);
            && Arc(Tv(near, sign, m.Near().labels), Success, Tv(far, sign, m.Far().labels)) in E
            && PushPopEdges(near, sign, m.Near().labels) <= E && PushPopEdges(far, sign, m.Far().labels) <= E
  {
    var e := MoveEdge(ctx, m);
    assert e in DirectEdges(ctx, cons);
    assert PushPopsOf(e) <= IndirectEdges(DirectEdges(ctx, cons));
  }

  function MoveEdge(ctx: RuleContext, m: Move): EdgeDef {
    if PathVariance(m.s) == Covariant then SubTypeEdge(ctx.RuleCovariant(m.c))
      else SubTypeEdge(ctx.RuleContravariant(m.c))
  }

  /** At the root of a variable with everything still ahead. */
  ghost function RootAt(v: VHat, a: Dtv, front: seq<FieldLabel>, r: nat): SX.Config
    requires r <= |a.labels|
  {
    At(v, PathVariance(Rest(a, front, r)), [], a, front, r)
  }

  /** A move replayed by a run: pop down to the constraint, cross it, push up again. */
  lemma MoveRun(ctx: RuleContext, cons: set<Subtype>, m: Move, a: Dtv, front: seq<FieldLabel>, r: nat)
    returns (front': seq<FieldLabel>, r': nat)
    requires m.c in cons && r <= |a.labels| && m.From().labels == Rest(a, front, r)
    ensures r <= r' <= |a.labels| && m.To().labels == Rest(a, front', r') && (m.s == [] ==> r' == |a.labels|)
    ensures SX.Leads(InitialEdges(ctx, cons), RootAt(ctx.Side(m.Near().base, Lhs), a, front, r),
                     RootAt(ctx.Side(m.Far().base, Rhs), a, front', r'), false)
  {
    hide SX.Leads, InitialEdges, PushPopEdges, At, PathVariance;
    var E, sign := InitialEdges(ctx, cons), PathVariance(m.s);
    var near, far := ctx.Side(m.Near().base, Lhs), ctx.Side(m.Far().base, Rhs);
    var p, q := m.Near().labels, m.Far().labels;
    MoveEdges(ctx, cons, m);
    PathVarianceConcat(p, m.s);
    PathVarianceConcat(q, m.s);
    assert m.From().labels == p + m.s && m.To().labels == q + m.s;
    var f, k := PopTo(E, near, sign, p, a, front, r);
    assert Rest(a, f, k) == m.s;
    Cross(E, near, far, sign, p, q, a, f, k);
    PushFrom(E, far, sign, q, a, f, k);
    front', r' := q + f, k;
    assert Rest(a, front', r') == q + m.s;
    var c0, c3 := RootAt(near, a, front, r), RootAt(far, a, front', r');
    SX.LeadsTrans(E, c0, At(near, sign, p, a, f, k), At(far, sign, q, a, f, k), false);
    SX.LeadsTrans(E, c0, At(far, sign, q, a, f, k), c3, false);
  }

  lemma Cross(E: set<EdgeDef>, near: VHat, far: VHat, sign: Variance, p: seq<FieldLabel>, q: seq<FieldLabel>, a: Dtv,
              f: seq<FieldLabel>, k: nat)
    requires k <= |a.labels| && Arc(Tv(near, sign, p), Success, Tv(far, sign, q)) in E
    ensures SX.Leads(E, At(near, sign, p, a, f, k), At(far, sign, q, a, f, k), false)
  {
    hide SX.Leads;
    assert SX.Inner(E, At(near, sign, p, a, f, k), At(far, sign, q, a, f, k));
    OneStep(E, At(near, sign, p, a, f, k), At(far, sign, q, a, f, k));
  }

  // ----- a stretch between interesting variables -----

  ghost predicate NothingBetween(ctx: RuleContext, ms: seq<Move>) {
    forall i | 0 <= i < |ms| - 1 :: !IsInteresting(ctx, ms[i].To())
  }

  ghost predicate SomeWhole(ms: seq<Move>) {
    exists i :: 0 <= i < |ms| && ms[i].s == []
  }

  /** A chain replayed by a run; a move without suffix uses up everything the run started from. */
  lemma {:induction false} ChainRun(ctx: RuleContext, cons: set<Subtype>, ms: seq<Move>, t: Dtv, b: Dtv, a: Dtv,
                                    front: seq<FieldLabel>, r: nat)
    returns (front': seq<FieldLabel>, r': nat)
    requires ms != [] && IsChain(Only(cons), ms, t, b) && NothingBetween(ctx, ms)
    requires r <= |a.labels| && t.labels == Rest(a, front, r)
    ensures r <= r' <= |a.labels| && b.labels == Rest(a, front', r') && (SomeWhole(ms) ==> r' == |a.labels|)
    ensures SX.Leads(InitialEdges(ctx, cons), RootAt(ctx.Side(t.base, Lhs), a, front, r),
            RootAt(ctx.Side(b.base, Rhs), a, front', r'), false)
    decreases |ms|
  {
    hide SX.Leads, InitialEdges, RootAt, Rest;
    var m, rest := ms[0], ms[1..];
    front', r' := MoveRun(ctx, cons, m, a, front, r);
    if rest == [] {
      assert m.To() == b;
    } else {
      assert NothingBetween(ctx, rest) by {
        assert forall i | 0 <= i < |rest| :: rest[i] == ms[i + 1];
      }
      assert !IsInteresting(ctx, ms[0].To());
      var f, k := front', r';
      front', r' := ChainRun(ctx, cons, rest, m.To(), b, a, f, k);
      if SomeWhole(ms) && m.s != [] {
        var i :| 0 <= i < |ms| && ms[i].s == [];
        assert rest[i - 1].s == [];
      }
      SX.LeadsTrans(InitialEdges(ctx, cons), RootAt(ctx.Side(t.base, Lhs), a, front, r),
                    RootAt(ctx.Side(m.To().base, Rhs), a, f, k),
                    RootAt(ctx.Side(b.base, Rhs), a, front', r'), false);
    }
  }

  /** The push and pop edges of a path reach the root. */
  lemma {:induction false} RootEdge(v: VHat, sign: Variance, p: seq<FieldLabel>) returns (e: EdgeDef)
    requires p != []
    ensures e in PushPopEdges(v, sign, p) && e.dst == Tv(v, sign.Operate(PathVariance(p)), [])
    decreases |p|
  {
    e := PushEdge(v, sign, p);
    if |p| > 1 {
      e := RootEdge(v, e.dst.variance, e.dst.path);
    } else {
      assert p[..0] == [];
    }
  }

  /** The root of either end of a move has the edge from the start, or to the end, that its side asks for. */
  lemma RootStartStop(ctx: RuleContext, cons: set<Subtype>, m: Move, v: VHat, p: seq<FieldLabel>)
    requires m.c in cons && v.Interesting?
    requires Tv(v, PathVariance(m.s), p) in {MoveEdge(ctx, m).src, MoveEdge(ctx, m).dst}
    ensures StartStopEdgesForState(Tv(v, PathVariance(m.s).Operate(PathVariance(p)), [])) <= InitialEdges(ctx, cons)
  {
    var direct, e, sign := DirectEdges(ctx, cons), MoveEdge(ctx, m), PathVariance(m.s);
    var total := direct + IndirectEdges(direct);
    assert e in direct;
    var d := e;
    if p != [] {
      d := RootEdge(v, sign, p);
      assert d in PushPopsOf(e);
    }
    assert d in total && StartStopEdgesForState(Tv(v, sign.Operate(PathVariance(p)), [])) <= StartStopsOf(d);
    assert StartStopsOf(d) <= StartStopEdges(total);
  }

  lemma {:induction false} SymbolLabels(labels: seq<FieldLabel>)
    ensures LabelsIn(Symbols(labels)) == labels
  {
    if labels != [] {
      SymbolLabels(labels[1..]);
      assert Symbols(labels)[1..] == Symbols(labels[1..]);
    }
  }

  function PopEffect(a: Dtv): seq<StackSymbol> {
    [Var(a.base, Lhs, PathVariance(a.labels))] + Symbols(a.labels)
  }

  function PushEffect(b: Dtv): seq<StackSymbol> {
    Symbols(Reversed(b.labels)) + [Var(b.base, Rhs, PathVariance(b.labels))]
  }

  lemma EffectEmits(a: Dtv, b: Dtv)
    ensures NetEmits(PopEffect(a), PushEffect(b))
    ensures NetConstraint(PopEffect(a), PushEffect(b)) == Subtype(Simplified(a), Simplified(b))
  {
    var u, v := PopEffect(a), PushEffect(b);
    assert u[1..] == Symbols(a.labels);
    SymbolLabels(a.labels);
    SymbolLabels(Reversed(b.labels));
    LabelsInSnoc(Symbols(Reversed(b.labels)), v[|v| - 1]);
    ReversedTwice(b.labels);
    assert Dtv(a.base, LabelsIn(u)) == a && Dtv(b.base, Reversed(LabelsIn(v))) == b;
  }

  lemma StartStep(E: set<EdgeDef>, a: Dtv)
    requires Arc(Start, Pop(Var(a.base, Lhs, PathVariance(a.labels))),
             Tv(Interesting(a.base, Lhs), PathVariance(a.labels), [])) in E
    ensures SX.Leads(E, SX.Config(Start, [], []), RootAt(Interesting(a.base, Lhs), a, [], 0), false)
  {
    hide SX.Leads;
    var c0, c1 := SX.Config(Start, [], []), RootAt(Interesting(a.base, Lhs), a, [], 0);
    assert Rest(a, [], 0) == a.labels && c1.stack == [] && c1.popped == [Var(a.base, Lhs, PathVariance(a.labels))];
    assert SX.Outer(E, c0, c1);
    OneStep(E, c0, c1);
  }

  lemma EndStep(E: set<EdgeDef>, a: Dtv, b: Dtv)
    requires Arc(Tv(Interesting(b.base, Rhs), PathVariance(b.labels), []),
             Push(Var(b.base, Rhs, PathVariance(b.labels))), End) in E
    ensures SX.Leads(E, RootAt(Interesting(b.base, Rhs), a, b.labels, |a.labels|),
            SX.Config(End, PopEffect(a), SX.Plain(PushEffect(b))), false)
  {
    hide SX.Leads;
    var c2, c3 := RootAt(Interesting(b.base, Rhs), a, b.labels, |a.labels|),
                         SX.Config(End, PopEffect(a), SX.Plain(PushEffect(b)));
    assert Rest(a, b.labels, |a.labels|) == b.labels && a.labels[..|a.labels|] == a.labels && c2.popped == PopEffect(a);
    assert c3.stack == c2.stack + [SX.Cell(Var(b.base, Rhs, PathVariance(b.labels)), false)];
    assert SX.Inner(E, c2, c3);
    OneStep(E, c2, c3);
  }

  /** The run of a whole stretch, from the start to the end. */
  lemma StretchRun(ctx: RuleContext, cons: set<Subtype>, ms: seq<Move>, a: Dtv, b: Dtv)
    requires ms != [] && IsChain(Only(cons), ms, a, b) && NothingBetween(ctx, ms) && SomeWhole(ms)
    requires IsInteresting(ctx, a) && IsInteresting(ctx, b)
    ensures SX.PushdownRun(InitialEdges(ctx, cons), Start, PopEffect(a), PushEffect(b), End)
  {
    hide SX.Leads, InitialEdges, PushPopEdges, RootAt, NothingBetween, SomeWhole, IsChain, PopEffect, PushEffect,
         SX.Plain, PathVariance;
    var E := InitialEdges(ctx, cons);
    assert Rest(a, [], 0) == a.labels;
    var front, r := ChainRun(ctx, cons, ms, a, b, a, [], 0);
    assert Rest(a, front, r) == front;
    StartEdge(ctx, cons, ms, a, b);
    EndEdge(ctx, cons, ms, a, b);
    StartStep(E, a);
    EndStep(E, a, b);
    var c1, c2 := RootAt(Interesting(a.base, Lhs), a, [], 0), RootAt(Interesting(b.base, Rhs), a, b.labels, |a.labels|);
    var c0, c3 := SX.Config(Start, [], []), SX.Config(End, PopEffect(a), SX.Plain(PushEffect(b)));
    SX.LeadsTrans(E, c0, c1, c2, false);
    SX.LeadsTrans(E, c0, c2, c3, false);
  }

  lemma StartEdge(ctx: RuleContext, cons: set<Subtype>, ms: seq<Move>, a: Dtv, b: Dtv)
    requires ms != [] && IsChain(Only(cons), ms, a, b) && IsInteresting(ctx, a)
    ensures var sign := PathVariance(a.labels);
            Arc(Start, Pop(Var(a.base, Lhs, sign)), Tv(Interesting(a.base, Lhs), sign, [])) in InitialEdges(ctx, cons)
  {
    hide InitialEdges, PathVariance;
    var m := ms[0];
    PathVarianceConcat(m.Near().labels, m.s);
    RootStartStop(ctx, cons, m, Interesting(a.base, Lhs), m.Near().labels);
  }

  lemma {:induction false} EndEdge(ctx: RuleContext, cons: set<Subtype>, ms: seq<Move>, a: Dtv, b: Dtv)
    requires ms != [] && IsChain(Only(cons), ms, a, b) && IsInteresting(ctx, b)
    ensures var sign := PathVariance(b.labels);
            Arc(Tv(Interesting(b.base, Rhs), sign, []), Push(Var(b.base, Rhs, sign)), End) in InitialEdges(ctx, cons)
    decreases |ms|
  {
    hide InitialEdges, PathVariance;
    var m := ms[0];
    if |ms| == 1 {
      assert m.To() == b by {
        assert ms[1..] == [];
      }
      PathVarianceConcat(m.Far().labels, m.s);
      RootStartStop(ctx, cons, m, Interesting(b.base, Rhs), m.Far().labels);
    } else {
      EndEdge(ctx, cons, ms[1..], m.To(), b);
    }
  }

  /** K entails everything the runs spell. */
  ghost predicate EntailsSpelled(ctx: RuleContext, cons: set<Subtype>, K: set<Subtype>) {
    forall c | Spelled(InitialEdges(ctx, cons), c) :: Derivable(K, c.lhs, c.rhs)
  }

  /** A stretch with a move without suffix is spelled as it stands. */
  lemma WholeStretchDerivable(ctx: RuleContext, cons: set<Subtype>, K: set<Subtype>, ms: seq<Move>, a: Dtv, b: Dtv)
    requires EntailsSpelled(ctx, cons, K) && ms != [] && IsChain(Only(cons), ms, a, b) && NothingBetween(ctx, ms)
    requires SomeWhole(ms)
    requires IsInteresting(ctx, a) && IsInteresting(ctx, b)
    ensures Derivable(K, a, b)
  {
    hide SX.PushdownRun, InitialEdges, Derivable, NetEmits, NetConstraint, Simplified, PopEffect, PushEffect;
    StretchRun(ctx, cons, ms, a, b);
    EffectEmits(a, b);
    var c := Subtype(Simplified(a), Simplified(b));
    assert Spelled(InitialEdges(ctx, cons), c);
    SimplifiedIsEquivalent(K, a);
    SimplifiedIsEquivalent(K, b);
    DeriveTrans(K, a, c.lhs, c.rhs);
    DeriveTrans(K, a, c.rhs, b);
  }

  ghost predicate AtLeast(ms: seq<Move>, k: nat) {
    (forall i | 0 <= i < |ms| :: |ms[i].s| >= k) && exists i :: 0 <= i < |ms| && |ms[i].s| == k
  }

  lemma BackwardsBetween(ctx: RuleContext, ms: seq<Move>, C: iset<Subtype>, a: Dtv, b: Dtv)
    requires IsChain(C, ms, a, b) && NothingBetween(ctx, ms)
    ensures forall i | 1 <= i < |ms| :: !IsInteresting(ctx, ms[i].From())
  {
    forall i | 1 <= i < |ms| ensures !IsInteresting(ctx, ms[i].From()) {
      ChainLinks(C, ms, a, b, i);
      assert !IsInteresting(ctx, ms[i - 1].To());
    }
  }

  lemma {:induction false} ChainLinks(C: iset<Subtype>, ms: seq<Move>, a: Dtv, b: Dtv, i: nat)
    requires IsChain(C, ms, a, b) && 1 <= i < |ms|
    ensures ms[i].From() == ms[i - 1].To()
    decreases |ms|
  {
    if i > 1 {
      ChainLinks(C, ms[1..], ms[0].To(), b, i - 1);
    } else {
      assert ms[1..][0] == ms[1];
    }
  }

  lemma ShorterForwards(ctx: RuleContext, ms: seq<Move>, l: FieldLabel, k: nat)
    requires ms != [] && NothingBetween(ctx, ms) && AllEndIn(ms, l) && AtLeast(ms, k + 1) && l.Variance() == Covariant
    ensures NothingBetween(ctx, AllShorter(ms, l)) && AtLeast(AllShorter(ms, l), k)
  {
    hide Move.From, Move.To;
    var ns := AllShorter(ms, l);
    var j :| 0 <= j < |ms| && |ms[j].s| == k + 1;
    assert |ns[j].s| == k;
    forall i | 0 <= i < |ns| - 1 ensures !IsInteresting(ctx, ns[i].To()) {
      ShorterEnds(ms[i], l);
    }
  }

  lemma ShorterBackwards(ctx: RuleContext, ms: seq<Move>, l: FieldLabel, k: nat)
    requires ms != [] && AllEndIn(ms, l) && AtLeast(ms, k + 1) && l.Variance() == Contravariant
    requires forall i | 1 <= i < |ms| :: !IsInteresting(ctx, ms[i].From())
    ensures NothingBetween(ctx, Backwards(AllShorter(ms, l))) && AtLeast(Backwards(AllShorter(ms, l)), k)
  {
    hide Move.From, Move.To;
    var ns := Backwards(AllShorter(ms, l));
    var j :| 0 <= j < |ms| && |ms[j].s| == k + 1;
    assert |ns[|ms| - 1 - j].s| == k;
    forall i | 0 <= i < |ns| - 1 ensures !IsInteresting(ctx, ns[i].To()) {
      ShorterEnds(ms[|ms| - 1 - i], l);
    }
  }

  /** Taking the common last label off all moves keeps the stretch one, in one direction or the other. */
  lemma ShorterStretch(ctx: RuleContext, C: iset<Subtype>, ms: seq<Move>, a: Dtv, b: Dtv, l: FieldLabel, k: nat)
    returns (ns: seq<Move>)
    requires ms != [] && IsChain(C, ms, a, b) && NothingBetween(ctx, ms) && AllEndIn(ms, l) && AtLeast(ms, k + 1)
    requires a.labels != [] && b.labels != []
    ensures ns != [] && NothingBetween(ctx, ns) && AtLeast(ns, k)
    ensures IsChain(C, ns, if l.Variance() == Covariant then Cut(a)
            else Cut(b), if l.Variance() == Covariant then Cut(b) else Cut(a))
  {
    hide IsChain, NothingBetween, AllEndIn, AtLeast, IsInteresting;
    ChainShorter(C, ms, a, b, l);
    BackwardsBetween(ctx, ms, C, a, b);
    if l.Variance() == Covariant {
      ns := AllShorter(ms, l);
      ShorterForwards(ctx, ms, l, k);
    } else {
      ns := Backwards(AllShorter(ms, l));
      ShorterBackwards(ctx, ms, l, k);
    }
  }

  /** A stretch is derivable: below its common suffix it is spelled, forwards or backwards. */
  lemma {:induction false} StretchDerivable(ctx: RuleContext, cons: set<Subtype>, K: set<Subtype>, ms: seq<Move>,
                                            a: Dtv, b: Dtv, k: nat)
    requires EntailsSpelled(ctx, cons, K) && ms != [] && IsChain(Only(cons), ms, a, b) && NothingBetween(ctx, ms)
    requires AtLeast(ms, k)
    requires IsInteresting(ctx, a) && IsInteresting(ctx, b)
    ensures Derivable(K, a, b)
    decreases k
  {
    hide EntailsSpelled, NothingBetween, Derivable, PathVariance, IsChain;
    if k == 0 {
      WholeStretchDerivable(ctx, cons, K, ms, a, b);
    } else {
      ChainStart(Only(cons), ms, a, b);
      var l := a.labels[|a.labels| - 1];
      CommonLast(Only(cons), ms, a, b, l);
      var ns := ShorterStretch(ctx, Only(cons), ms, a, b, l, k - 1);
      if l.Variance() == Covariant {
        StretchDerivable(ctx, cons, K, ns, Cut(a), Cut(b), k - 1);
      } else {
        StretchDerivable(ctx, cons, K, ns, Cut(b), Cut(a), k - 1);
      }
      PasteBack(K, a, b, l);
    }
  }

  lemma ChainStart(C: iset<Subtype>, ms: seq<Move>, a: Dtv, b: Dtv)
    requires ms != [] && IsChain(C, ms, a, b)
    ensures |ms[0].s| <= |a.labels|
  {
  }

  lemma PasteBack(K: set<Subtype>, a: Dtv, b: Dtv, l: FieldLabel)
    requires a.labels != [] && b.labels != [] && a.labels[|a.labels| - 1] == l && b.labels[|b.labels| - 1] == l
    requires if l.Variance() == Covariant then Derivable(K, Cut(a), Cut(b)) else Derivable(K, Cut(b), Cut(a))
    ensures Derivable(K, a, b)
  {
    hide Derivable;
    PathVarianceOne(l);
    assert Cut(a).Extend([l]) == a && Cut(b).Extend([l]) == b;
    if l.Variance() == Covariant {
      DeriveSuffix(K, Cut(a), Cut(b), [l]);
    } else {
      DeriveSuffix(K, Cut(b), Cut(a), [l]);
    }
  }

  lemma {:induction false} ShortestSuffix(ms: seq<Move>) returns (k: nat)
    requires ms != []
    ensures AtLeast(ms, k)
    decreases |ms|
  {
    k := |ms[0].s|;
    if |ms| > 1 {
      var j := ShortestSuffix(ms[1..]);
      var i :| 0 <= i < |ms[1..]| && |ms[1..][i].s| == j;
      k := if j < k then j else k;
      assert |ms[i + 1].s| == j;
      assert forall n | 0 < n < |ms| :: ms[n] == ms[1..][n - 1];
    }
  }

  /** The first move that ends at an interesting variable. */
  lemma {:induction false} FirstStop(ctx: RuleContext, C: iset<Subtype>, ms: seq<Move>, a: Dtv, b: Dtv) returns (n: nat)
    requires ms != [] && IsChain(C, ms, a, b) && IsInteresting(ctx, b)
    ensures 1 <= n <= |ms| && NothingBetween(ctx, ms[..n]) && IsInteresting(ctx, ms[n - 1].To())
    ensures IsChain(C, ms[..n], a, ms[n - 1].To()) && IsChain(C, ms[n..], ms[n - 1].To(), b)
    decreases |ms|
  {
    var m := ms[0];
    if IsInteresting(ctx, m.To()) {
      n := 1;
      assert ms[..1][1..] == [];
    } else {
      assert ms[1..] != [];
      var k := FirstStop(ctx, C, ms[1..], m.To(), b);
      n := k + 1;
      assert ms[..n][1..] == ms[1..][..k] && ms[n..] == ms[1..][k..];
      assert ms[1..][k - 1] == ms[n - 1];
      forall i | 0 <= i < n - 1 ensures !IsInteresting(ctx, ms[..n][i].To()) {
        assert i > 0 ==> ms[..n][i] == ms[1..][..k][i - 1];
      }
    }
  }

  /** A stretch between interesting variables is one rule, or constraints only. */
  lemma {:induction false} OnlyConstraints(ctx: RuleContext, cons: set<Subtype>, ms: seq<Move>, a: Dtv, b: Dtv)
    requires IsChain(Steps(ctx, cons), ms, a, b) && NothingBetween(ctx, ms)
    requires |ms| > 1 || (ms != [] && ms[0].c in cons)
    ensures IsChain(Only(cons), ms, a, b)
    decreases |ms|
  {
    hide IsRule;
    var m, rest := ms[0], ms[1..];
    RuleEnds(ctx, m);
    if |ms| > 1 {
      assert !IsInteresting(ctx, ms[0].To());
      assert forall i | 0 <= i < |rest| :: rest[i] == ms[i + 1];
      assert rest[0].From() == m.To();
      RuleEnds(ctx, rest[0]);
      OnlyConstraints(ctx, cons, rest, m.To(), b);
    }
  }

  lemma RuleEnds(ctx: RuleContext, m: Move)
    ensures IsRule(ctx, m.c) ==> IsInteresting(ctx, m.From()) && IsInteresting(ctx, m.To())
  {
  }

  /** A rule under a suffix needs no constraints. */
  lemma RuleMoveDerivable(ctx: RuleContext, K: set<Subtype>, m: Move)
    requires IsRule(ctx, m.c)
    ensures Derivable(K, m.From(), m.To())
  {
    hide Derivable, PathVariance;
    EntailedDerivation(K, {}, m.c.lhs, m.c.rhs);
    DeriveSuffix(K, m.c.lhs, m.c.rhs, m.s);
  }

  lemma FirstStretch(ctx: RuleContext, cons: set<Subtype>, K: set<Subtype>, ms: seq<Move>, a: Dtv, b: Dtv)
    requires EntailsSpelled(ctx, cons, K) && ms != [] && IsChain(Steps(ctx, cons), ms, a, b) && NothingBetween(ctx, ms)
    requires IsInteresting(ctx, a) && IsInteresting(ctx, b)
    ensures Derivable(K, a, b)
  {
    hide EntailsSpelled, NothingBetween, Derivable, AtLeast, IsRule;
    if |ms| > 1 || ms[0].c in cons {
      OnlyConstraints(ctx, cons, ms, a, b);
      var k := ShortestSuffix(ms);
      StretchDerivable(ctx, cons, K, ms, a, b, k);
    } else {
      assert ms[1..] == [];
      RuleMoveDerivable(ctx, K, ms[0]);
    }
  }

  lemma {:induction false} ChainDerivable(ctx: RuleContext, cons: set<Subtype>, K: set<Subtype>, ms: seq<Move>, a: Dtv,
                                          b: Dtv)
    requires EntailsSpelled(ctx, cons, K) && IsChain(Steps(ctx, cons), ms, a, b)
    requires IsInteresting(ctx, a) && IsInteresting(ctx, b)
    ensures Derivable(K, a, b)
    decreases |ms|
  {
    hide EntailsSpelled, NothingBetween, Derivable, Steps;
    if ms == [] {
      DeriveRefl(K, a);
    } else {
      var n := FirstStop(ctx, Steps(ctx, cons), ms, a, b);
      var mid := ms[n - 1].To();
      FirstStretch(ctx, cons, K, ms[..n], a, mid);
      ChainDerivable(ctx, cons, K, ms[n..], mid, b);
      DeriveTrans(K, a, mid, b);
    }
  }

  /**
   * Completeness: whatever the given constraints entail between interesting variables without
   * the pointer and displacement rules at other variables, every set that entails what the runs
   * spell entails.
   */
  lemma BasicDerivationsSurvive(ctx: RuleContext, cons: set<Subtype>, K: set<Subtype>, p: Proof)
    requires EntailsSpelled(ctx, cons, K) && p.Checks(cons) && Basic(ctx, p)
    requires IsInteresting(ctx, p.Concl().lhs) && IsInteresting(ctx, p.Concl().rhs)
    ensures Derivable(K, p.Concl().lhs, p.Concl().rhs)
  {
    var ms := ProofIsChain(ctx, cons, p);
    ChainDerivable(ctx, cons, K, ms, p.Concl().lhs, p.Concl().rhs);
  }

  /** K entails everything between interesting variables that has a basic proof. */
  ghost predicate Preserves(ctx: RuleContext, cons: set<Subtype>, K: set<Subtype>) {
    forall p: Proof | p.Checks(cons) && Basic(ctx, p) && IsInteresting(ctx, p.Concl().lhs)
           && IsInteresting(ctx, p.Concl().rhs) ::
      Derivable(K, p.Concl().lhs, p.Concl().rhs)
  }

  lemma SpelledPreserve(ctx: RuleContext, cons: set<Subtype>, K: set<Subtype>)
    requires EntailsSpelled(ctx, cons, K)
    ensures Preserves(ctx, cons, K)
  {
    forall p: Proof | p.Checks(cons) && Basic(ctx, p) && IsInteresting(ctx, p.Concl().lhs)
           && IsInteresting(ctx, p.Concl().rhs)
      ensures Derivable(K, p.Concl().lhs, p.Concl().rhs)
    {
      BasicDerivationsSurvive(ctx, cons, K, p);
    }
  }
}
