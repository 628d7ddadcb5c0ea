/**
 * From subtyping constraints to the edges of a pushdown automaton
 * (src/solver/constraint_graph.rs, RuleContext and FSA::new).
 */
module Pushdown {
  import opened Graphs
  import opened Constraints

  datatype Direction = Lhs | Rhs {
    function Not(): Direction {
      if Lhs? then Rhs else Lhs
    }
  }

  /** A type variable; an interesting one also records the side of the rule it came from. */
  datatype VHat = Interesting(tv: TypeVariable, dir: Direction) | Uninteresting(tv: TypeVariable) {
    function Not(): VHat {
      if Interesting? then Interesting(tv, dir.Not()) else this
    }
  }

  datatype FiniteState = Tv(base: VHat, variance: Variance, path: seq<FieldLabel>) | Start | End {
    /** The opposite state: the other side, the other sign, the other end. */
    function Not(): FiniteState {
      match this
      case Start => End
      case End => Start
      case Tv(v, sign, path) => Tv(v.Not(), sign.Operate(Contravariant), path)
    }
  }

  datatype StackSymbol = Label(l: FieldLabel) | Var(tv: TypeVariable, dir: Direction, variance: Variance)

  datatype FsaEdge = Push(sym: StackSymbol) | Pop(sym: StackSymbol) | Success | Failed {
    function Flip(): FsaEdge {
      match this
      case Push(s) => Pop(s)
      case Pop(s) => Push(s)
      case Success => Failed
      case Failed => Success
    }
  }

  type EdgeDef = Arc<FiniteState, FsaEdge>

  function FlipEdge(e: EdgeDef): EdgeDef {
    Arc(e.dst, e.lab.Flip(), e.src)
  }

  // ----- rules -----

  datatype ControlState = ControlState(v: VHat, variance: Variance)

  datatype PushDownState = PushDownState(st: ControlState, stack: seq<FieldLabel>)

  datatype Rule = Rule(origVariance: Variance, lhs: PushDownState, rhs: PushDownState)

  datatype RuleContext = RuleContext(interesting: set<TypeVariable>) {
    function Side(tv: TypeVariable, dir: Direction): VHat {
      if tv.ToCallee() in interesting then Interesting(tv, dir) else Uninteresting(tv)
    }

    /** sign is what the source's variance modifier multiplies by. */
    function RuleGeneric(lhs: Dtv, rhs: Dtv, sign: Variance): Rule {
      Rule(Covariant.Operate(sign),
           PushDownState(ControlState(Side(lhs.base, Lhs), PathVariance(lhs.labels).Operate(sign)), lhs.labels),
           PushDownState(ControlState(Side(rhs.base, Rhs), PathVariance(rhs.labels).Operate(sign)), rhs.labels))
    }

    function RuleCovariant(c: Subtype): Rule {
      RuleGeneric(c.lhs, c.rhs, Covariant)
    }

    function RuleContravariant(c: Subtype): Rule {
      RuleGeneric(c.rhs, c.lhs, Contravariant)
    }
  }

  function SubTypeEdge(r: Rule): EdgeDef {
    Arc(Tv(r.lhs.st.v, r.origVariance, r.lhs.stack), Success, Tv(r.rhs.st.v, r.origVariance, r.rhs.stack))
  }

  // ----- edges -----

  function DirectEdges(ctx: RuleContext, cons: set<Subtype>): set<EdgeDef> {
    (set c | c in cons :: SubTypeEdge(ctx.RuleCovariant(c))) +
    (set c | c in cons :: SubTypeEdge(ctx.RuleContravariant(c)))
  }

  /** The edge that takes the last label off an access path and pushes it. */
  function PushEdge(base: VHat, sign: Variance, path: seq<FieldLabel>): EdgeDef
    requires path != []
  {
    var l := path[|path| - 1];
    Arc(Tv(base, sign, path), Push(Label(l)), Tv(base, sign.Operate(l.Variance()), path[..|path| - 1]))
  }

  function PushPopEdges(base: VHat, sign: Variance, path: seq<FieldLabel>): set<EdgeDef>
    decreases |path|
  {
    if path == [] then {}
    else
      var e := PushEdge(base, sign, path);
      {e, FlipEdge(e)} + PushPopEdges(base, e.dst.variance, e.dst.path)
  }

  function PushPopEdgesForState(s: FiniteState): set<EdgeDef> {
    if s.Tv? then PushPopEdges(s.base, s.variance, s.path) else {}
  }

  /** The loop of the source: shortens the path one label at a time. */
  method GeneratePushPopEdges(s: FiniteState) returns (edges: set<EdgeDef>)
    requires s.Tv?
    ensures edges == PushPopEdgesForState(s)
  {
    var sign, path := s.variance, s.path;
    edges := {};
    while path != []
      invariant edges + PushPopEdges(s.base, sign, path) == PushPopEdgesForState(s)
      decreases |path|
    {
      var prev, pushed := path, path[|path| - 1];
      path := path[..|path| - 1];
      var next := sign.Operate(pushed.Variance());
      var push := Arc(Tv(s.base, sign, prev), Push(Label(pushed)), Tv(s.base, next, path));
      edges := edges + {FlipEdge(push), push};
      sign := next;
    }
  }

  function StartStopEdgesForState(s: FiniteState): set<EdgeDef> {
    if s.Tv? && s.base.Interesting? then
      var v := Tv(s.base, s.variance, []);
      var sym := Var(s.base.tv, s.base.dir, s.variance);
      {if s.base.dir == Lhs then Arc(Start, Pop(sym), v) else Arc(v, Push(sym), End)}
    else {}
  }

  function PushPopsOf(d: EdgeDef): set<EdgeDef> {
    PushPopEdgesForState(d.src) + PushPopEdgesForState(d.dst)
  }

  function StartStopsOf(d: EdgeDef): set<EdgeDef> {
    StartStopEdgesForState(d.src) + StartStopEdgesForState(d.dst)
  }

  function IndirectEdges(direct: set<EdgeDef>): set<EdgeDef> {
    set d, e | d in direct && e in PushPopsOf(d) :: e
  }

  function StartStopEdges(edges: set<EdgeDef>): set<EdgeDef> {
    set d, e | d in edges && e in StartStopsOf(d) :: e
  }

  /** All edges of the automaton of a constraint set, before saturation. */
  function InitialEdges(ctx: RuleContext, cons: set<Subtype>): set<EdgeDef> {
    var direct := DirectEdges(ctx, cons);
    var total := direct + IndirectEdges(direct);
    total + StartStopEdges(total)
  }

  function Endpoints(edges: set<EdgeDef>): set<FiniteState> {
    (set e | e in edges :: e.src) + (set e | e in edges :: e.dst)
  }

  function InitialStates(ctx: RuleContext, cons: set<Subtype>): set<FiniteState> {
    Endpoints(InitialEdges(ctx, cons)) + {Start, End}
  }

  // ----- self-duality -----

  function DualSymbol(s: StackSymbol): StackSymbol {
    match s
    case Label(_) => s
    case Var(tv, dir, sign) => Var(tv, dir.Not(), sign.Operate(Contravariant))
  }

  function DualWeight(w: FsaEdge): FsaEdge {
    match w
    case Push(s) => Pop(DualSymbol(s))
    case Pop(s) => Push(DualSymbol(s))
    case Success | Failed => w
  }

  /** The same step read backwards: reversed, between the opposite states, push and pop exchanged. */
  function Dual(e: EdgeDef): EdgeDef {
    Arc(e.dst.Not(), DualWeight(e.lab), e.src.Not())
  }

  ghost predicate SelfDual(edges: set<EdgeDef>) {
    forall e | e in edges :: Dual(e) in edges
  }

  lemma DualInvolutive(e: EdgeDef)
    ensures Dual(Dual(e)) == e
  {
  }

  lemma DirectSelfDual(ctx: RuleContext, cons: set<Subtype>)
    ensures SelfDual(DirectEdges(ctx, cons))
  {
    forall e | e in DirectEdges(ctx, cons) ensures Dual(e) in DirectEdges(ctx, cons) {
      var c :| c in cons && (e == SubTypeEdge(ctx.RuleCovariant(c)) || e == SubTypeEdge(ctx.RuleContravariant(c)));
      assert Dual(SubTypeEdge(ctx.RuleCovariant(c))) == SubTypeEdge(ctx.RuleContravariant(c));
      assert Dual(SubTypeEdge(ctx.RuleContravariant(c))) == SubTypeEdge(ctx.RuleCovariant(c));
    }
  }

  lemma {:induction false} PushPopDual(base: VHat, sign: Variance, path: seq<FieldLabel>, e: EdgeDef)
    requires e in PushPopEdges(base, sign, path)
    ensures Dual(e) in PushPopEdges(base.Not(), sign.Operate(Contravariant), path)
    decreases |path|
  {
    var p, q := PushEdge(base, sign, path), PushEdge(base.Not(), sign.Operate(Contravariant), path);
    assert Dual(p) == FlipEdge(q) && Dual(FlipEdge(p)) == q;
    if e != p && e != FlipEdge(p) {
      PushPopDual(base, p.dst.variance, p.dst.path, e);
      assert q.dst.variance == p.dst.variance.Operate(Contravariant);
    }
  }

  lemma PushPopForStateDual(s: FiniteState, e: EdgeDef)
    requires e in PushPopEdgesForState(s)
    ensures Dual(e) in PushPopEdgesForState(s.Not())
  {
    PushPopDual(s.base, s.variance, s.path, e);
  }

  lemma IndirectSelfDual(direct: set<EdgeDef>)
    requires SelfDual(direct)
    ensures SelfDual(IndirectEdges(direct))
  {
    forall e | e in IndirectEdges(direct) ensures Dual(e) in IndirectEdges(direct) {
      var d :| d in direct && e in PushPopsOf(d);
      assert Dual(d) in direct;
      if e in PushPopEdgesForState(d.src) {
        PushPopForStateDual(d.src, e);
      } else {
        PushPopForStateDual(d.dst, e);
      }
      assert Dual(e) in PushPopsOf(Dual(d));
    }
  }

  lemma StartStopForStateDual(s: FiniteState, e: EdgeDef)
    requires e in StartStopEdgesForState(s)
    ensures Dual(e) in StartStopEdgesForState(s.Not())
  {
  }

  lemma StartStopSelfDual(edges: set<EdgeDef>)
    requires SelfDual(edges)
    ensures SelfDual(StartStopEdges(edges))
  {
    hide StartStopEdgesForState;
    forall e | e in StartStopEdges(edges) ensures Dual(e) in StartStopEdges(edges) {
      var d :| d in edges && e in StartStopsOf(d);
      assert Dual(d) in edges;
      if e in StartStopEdgesForState(d.src) {
        StartStopForStateDual(d.src, e);
      } else {
        StartStopForStateDual(d.dst, e);
      }
      assert Dual(e) in StartStopsOf(Dual(d));
    }
  }

  /** Every step of the automaton can be read backwards between the opposite states. */
  lemma InitialEdgesSelfDual(ctx: RuleContext, cons: set<Subtype>)
    ensures SelfDual(InitialEdges(ctx, cons))
    ensures forall s | s in InitialStates(ctx, cons) :: s.Not() in InitialStates(ctx, cons)
  {
    var direct := DirectEdges(ctx, cons);
    var total := direct + IndirectEdges(direct);
    DirectSelfDual(ctx, cons);
    IndirectSelfDual(direct);
    StartStopSelfDual(total);
    assert SelfDual(InitialEdges(ctx, cons));
    EndpointsSelfDual(InitialEdges(ctx, cons));
  }

  lemma EndpointsSelfDual(edges: set<EdgeDef>)
    requires SelfDual(edges)
    ensures forall s | s in Endpoints(edges) :: s.Not() in Endpoints(edges)
  {
    forall s | s in Endpoints(edges) ensures s.Not() in Endpoints(edges) {
      var e :| e in edges && (s == e.src || s == e.dst);
      assert Dual(e) in edges;
      assert Dual(e).src in Endpoints(edges) && Dual(e).dst in Endpoints(edges);
    }
  }
}
