/**
 * Saturation against the pushdown system it stands for. The reference is the unsaturated
 * automaton run with a real stack, where a store on top of the stack at a contravariant
 * state may be exchanged for a load at the opposite state and conversely. The saturated
 * automaton, read without a stack and with all pops before all pushes, has the same effects.
 */
module SaturationExact {
  import opened Graphs
  import opened Constraints
  import opened Pushdown
  import opened Saturation
  import opened SaturationLaws
  import opened StackWords

  /** A stack cell remembers whether the pointer rule has rewritten its symbol. */
  datatype Cell = Cell(sym: StackSymbol, swapped: bool)

  /** The symbols taken from the initial stack so far, and what has been pushed since, top last. */
  datatype Config = Config(at: FiniteState, popped: seq<StackSymbol>, stack: seq<Cell>)

  function Other(s: StackSymbol): StackSymbol
    requires s == STORE || s == LOAD
  {
    if s == STORE then LOAD else STORE
  }

  /** A step that leaves the initial stack alone. */
  ghost predicate Inner(E: set<EdgeDef>, c: Config, d: Config) {
    && d.popped == c.popped
    && var n := |c.stack|;
      || (Arc(c.at, Success, d.at) in E && d.stack == c.stack)
      || (|d.stack| == n + 1 && d.stack[..n] == c.stack && !d.stack[n].swapped
          && Arc(c.at, Push(d.stack[n].sym), d.at) in E)
      || (n > 0 && d.stack == c.stack[..n - 1] && Arc(c.at, Pop(c.stack[n - 1].sym), d.at) in E)
      || (n > 0 && IsContra(c.at) && (c.stack[n - 1].sym == STORE || c.stack[n - 1].sym == LOAD)
          && d.at == c.at.Not() && d.stack == c.stack[..n - 1] + [Cell(Other(c.stack[n - 1].sym), true)])
  }

  /** A step that pops the initial stack. */
  ghost predicate Outer(E: set<EdgeDef>, c: Config, d: Config) {
    && c.stack == [] && d.stack == []
    && |d.popped| == |c.popped| + 1 && d.popped[..|c.popped|] == c.popped
    && Arc(c.at, Pop(d.popped[|c.popped|]), d.at) in E
  }

  ghost predicate IsTrace(E: set<EdgeDef>, t: seq<Config>, c: Config, d: Config, inner: bool) {
    && t != [] && t[0] == c && t[|t| - 1] == d
    && forall i | 0 <= i < |t| - 1 :: Inner(E, t[i], t[i + 1]) || (!inner && Outer(E, t[i], t[i + 1]))
  }

  ghost predicate Leads(E: set<EdgeDef>, c: Config, d: Config, inner: bool) {
    exists t :: IsTrace(E, t, c, d, inner)
  }

  function Plain(syms: seq<StackSymbol>): seq<Cell> {
    seq(|syms|, i requires 0 <= i < |syms| => Cell(syms[i], false))
  }

  /** A run of the pushdown system from a that pops u, pushes v and ends in b. */
  ghost predicate PushdownRun(E0: set<EdgeDef>, a: FiniteState, u: seq<StackSymbol>, v: seq<StackSymbol>,
                              b: FiniteState) {
    Leads(E0, Config(a, [], []), Config(b, u, Plain(v)), false)
  }

  /** A path of the automaton from a that first pops u and then pushes v and ends in b. */
  ghost predicate NormalRun(E: set<EdgeDef>, a: FiniteState, u: seq<StackSymbol>, v: seq<StackSymbol>, b: FiniteState) {
    exists w: Word :: b in Run(E, {a}, w) && PopsFirst(w) && Pops(w) == u && Pushes(w) == v
  }

  // ----- traces -----

  lemma LeadsSelf(E: set<EdgeDef>, c: Config, inner: bool)
    ensures Leads(E, c, c, inner)
  {
    assert IsTrace(E, [c], c, c, inner);
  }

  lemma LeadsStep(E: set<EdgeDef>, c: Config, d: Config, e: Config, inner: bool)
    requires Leads(E, c, d, inner) && (Inner(E, d, e) || (!inner && Outer(E, d, e)))
    ensures Leads(E, c, e, inner)
  {
    var t :| IsTrace(E, t, c, d, inner);
    assert IsTrace(E, t + [e], c, e, inner);
  }

  lemma LeadsTrans(E: set<EdgeDef>, c: Config, d: Config, e: Config, inner: bool)
    requires Leads(E, c, d, inner) && Leads(E, d, e, inner)
    ensures Leads(E, c, e, inner)
  {
    var t :| IsTrace(E, t, c, d, inner);
    var t' :| IsTrace(E, t', d, e, inner);
    var s := t + t'[1..];
    forall i | 0 <= i < |s| - 1 ensures Inner(E, s[i], s[i + 1]) || (!inner && Outer(E, s[i], s[i + 1])) {
      if i >= |t| - 1 {
        assert s[i] == t'[i - (|t| - 1)] && s[i + 1] == t'[i - (|t| - 1) + 1];
      }
    }
    assert IsTrace(E, s, c, e, inner);
  }

  function Lift(c: Config, u: seq<StackSymbol>, r: seq<Cell>): Config {
    Config(c.at, u, r + c.stack)
  }

  lemma LiftStep(E: set<EdgeDef>, c: Config, d: Config, u: seq<StackSymbol>, r: seq<Cell>)
    requires Inner(E, c, d)
    ensures Inner(E, Lift(c, u, r), Lift(d, u, r))
  {
    var n := |c.stack|;
    var c', d' := Lift(c, u, r), Lift(d, u, r);
    if n > 0 {
      assert c'.stack[..|c'.stack| - 1] == r + c.stack[..n - 1];
      if d.stack != [] {
        var x := d.stack[|d.stack| - 1];
        assert r + (c.stack[..n - 1] + [x]) == r + c.stack[..n - 1] + [x];
      }
    }
    if |d.stack| == n + 1 {
      assert d'.stack[..|c'.stack|] == r + d.stack[..n];
    }
  }

  /** An inner run does not depend on what lies below the stack. */
  lemma LiftRun(E: set<EdgeDef>, c: Config, d: Config, u: seq<StackSymbol>, r: seq<Cell>)
    requires Leads(E, c, d, true)
    ensures Leads(E, Lift(c, u, r), Lift(d, u, r), false)
    ensures Leads(E, Lift(c, u, r), Lift(d, u, r), true)
  {
    var t :| IsTrace(E, t, c, d, true);
    var t' := seq(|t|, i requires 0 <= i < |t| => Lift(t[i], u, r));
    forall i | 0 <= i < |t'| - 1 ensures Inner(E, t'[i], t'[i + 1]) {
      LiftStep(E, t[i], t[i + 1], u, r);
    }
    assert IsTrace(E, t', Lift(c, u, r), Lift(d, u, r), true);
    assert IsTrace(E, t', Lift(c, u, r), Lift(d, u, r), false);
  }

  // ----- completeness: every pushdown run has a normal run -----

  /** The automaton path for one cell: push it, then only success edges. */
  ghost predicate PushPath(S: set<EdgeDef>, d: FiniteState, sym: StackSymbol, at: FiniteState) {
    exists w: Word :: at in Run(S, {d}, w) && Pops(w) == [] && Pushes(w) == [sym] && NoPopIn(w)
  }

  ghost predicate NoPopIn(w: Word) {
    forall i | 0 <= i < |w| :: !w[i].Pop?
  }

  ghost predicate PopPath(S: set<EdgeDef>, a: FiniteState, u: seq<StackSymbol>, at: FiniteState) {
    exists w: Word :: at in Run(S, {a}, w) && Pops(w) == u && Pushes(w) == [] && PopsFirst(w)
  }

  /**
   * Each cell of the stack is backed by a fact about the state it was pushed from and, unless
   * the pointer rule rewrote it, by a path; the lowest state is reached by pops alone.
   */
  ghost predicate Backed(S: set<EdgeDef>, F: set<Fact>, a: FiniteState, c: Config)
    decreases |c.stack|
  {
    if c.stack == [] then PopPath(S, a, c.popped, c.at)
    else
      var top, below := c.stack[|c.stack| - 1], c.stack[..|c.stack| - 1];
      exists d :: BackedCell(S, F, d, top, c.at) && Backed(S, F, a, Config(d, c.popped, below))
  }

  ghost predicate BackedCell(S: set<EdgeDef>, F: set<Fact>, d: FiniteState, cell: Cell, at: FiniteState) {
    Fact(at, cell.sym, d) in F && (!cell.swapped ==> PushPath(S, d, cell.sym, at))
  }

  /** How a path grows by one edge at its end. */
  lemma WordSnoc(S: set<EdgeDef>, a: FiniteState, w: Word, e: EdgeDef)
    requires e in S && e.src in Run(S, {a}, w)
    ensures e.dst in Run(S, {a}, w + [e.lab])
    ensures Pops(w + [e.lab]) == Pops(w) + (if e.lab.Pop? then [e.lab.sym] else [])
    ensures Pushes(w + [e.lab]) == Pushes(w) + (if e.lab.Push? then [e.lab.sym] else [])
  {
    RunSnoc(S, {a}, w, e.lab);
    PopsConcat(w, [e.lab]);
    PushesConcat(w, [e.lab]);
    assert [e.lab][1..] == [];
  }

  lemma {:induction false} NoPushIfNone(w: Word)
    requires Pushes(w) == []
    ensures forall i | 0 <= i < |w| :: !w[i].Push?
    decreases |w|
  {
    if w != [] {
      NoPushIfNone(w[1..]);
      assert forall i | 1 <= i < |w| :: w[i] == w[1..][i - 1];
    }
  }

  lemma PopPathSuccess(S: set<EdgeDef>, a: FiniteState, u: seq<StackSymbol>, e: EdgeDef)
    requires PopPath(S, a, u, e.src) && e in S && e.lab == Success
    ensures PopPath(S, a, u, e.dst)
  {
    hide Run;
    var w: Word :| e.src in Run(S, {a}, w) && Pops(w) == u && Pushes(w) == [] && PopsFirst(w);
    WordSnoc(S, a, w, e);
    SnocShape(w, e.lab);
  }

  lemma PushPathSuccess(S: set<EdgeDef>, d: FiniteState, sym: StackSymbol, e: EdgeDef)
    requires PushPath(S, d, sym, e.src) && e in S && e.lab == Success
    ensures PushPath(S, d, sym, e.dst)
  {
    hide Run, Pops, Pushes;
    var w: Word :| e.src in Run(S, {d}, w) && Pops(w) == [] && Pushes(w) == [sym] && NoPopIn(w);
    WordSnoc(S, d, w, e);
    assert NoPopIn(w + [e.lab]);
  }

  lemma BackedSuccess(S: set<EdgeDef>, E: set<EdgeDef>, F: set<Fact>, a: FiniteState, c: Config, e: EdgeDef)
    requires SuccessRule(E, F, F) && S <= E
    requires Backed(S, F, a, c) && e in S && e.lab == Success && e.src == c.at
    ensures Backed(S, F, a, c.(at := e.dst))
  {
    hide PopPath, PushPath;
    if c.stack == [] {
      PopPathSuccess(S, a, c.popped, e);
    } else {
      var top, below := c.stack[|c.stack| - 1], c.stack[..|c.stack| - 1];
      var d :| BackedCell(S, F, d, top, c.at) && Backed(S, F, a, Config(d, c.popped, below));
      if !top.swapped {
        PushPathSuccess(S, d, top.sym, e);
      }
      assert BackedCell(S, F, d, top, e.dst);
    }
  }

  lemma BackedPush(S: set<EdgeDef>, E: set<EdgeDef>, F: set<Fact>, a: FiniteState, c: Config, e: EdgeDef)
    requires PushRule(E, F) && S <= E
    requires Backed(S, F, a, c) && e in S && e.lab.Push? && e.src == c.at
    ensures Backed(S, F, a, Config(e.dst, c.popped, c.stack + [Cell(e.lab.sym, false)]))
  {
    var c' := Config(e.dst, c.popped, c.stack + [Cell(e.lab.sym, false)]);
    assert c'.stack[..|c'.stack| - 1] == c.stack;
    assert c.at in Run(S, {c.at}, []);
    WordSnoc(S, c.at, [], e);
    assert NoPopIn([] + [e.lab]);
    assert BackedCell(S, F, c.at, Cell(e.lab.sym, false), e.dst);
  }

  lemma BackedPop(E0: set<EdgeDef>, E: set<EdgeDef>, F: set<Fact>, a: FiniteState, c: Config, e: EdgeDef)
    requires Closed(E0, E, F) && E == E0 + Matches(E, F) && c.stack != []
    requires Backed(SaturatedEdges(E0, E, F), F, a, c)
    requires e in E0 && e.lab == Pop(c.stack[|c.stack| - 1].sym) && e.src == c.at
    ensures Backed(SaturatedEdges(E0, E, F), F, a, Config(e.dst, c.popped, c.stack[..|c.stack| - 1]))
  {
    var S := SaturatedEdges(E0, E, F);
    var top, below := c.stack[|c.stack| - 1], c.stack[..|c.stack| - 1];
    var d :| BackedCell(S, F, d, top, c.at) && Backed(S, F, a, Config(d, c.popped, below));
    var shortcut := Arc(d, Success, e.dst);
    assert shortcut in Matches(E, F);
    if d != e.dst {
      BackedSuccess(S, E, F, a, Config(d, c.popped, below), shortcut);
    }
  }

  lemma BackedOuter(S: set<EdgeDef>, E0: set<EdgeDef>, F: set<Fact>, a: FiniteState, c: Config, d: Config)
    requires E0 <= S && Backed(S, F, a, c) && Outer(E0, c, d)
    ensures Backed(S, F, a, d)
  {
    var e := Arc(c.at, Pop(d.popped[|c.popped|]), d.at);
    var w: Word :| c.at in Run(S, {a}, w) && Pops(w) == c.popped && Pushes(w) == [] && PopsFirst(w);
    WordSnoc(S, a, w, e);
    NoPushIfNone(w);
    assert d.popped == c.popped + [e.lab.sym];
    assert PopsFirst(w + [e.lab]);
  }

  lemma BackedSwap(S: set<EdgeDef>, F: set<Fact>, a: FiniteState, c: Config, d: Config)
    requires SwapRule(F, F) && Backed(S, F, a, c)
    requires c.stack != [] && IsContra(c.at) && d.at == c.at.Not() && d.popped == c.popped
    requires var top := c.stack[|c.stack| - 1].sym;
      (top == STORE || top == LOAD) && d.stack == c.stack[..|c.stack| - 1] + [Cell(Other(top), true)]
    ensures Backed(S, F, a, d)
  {
    var top, below := c.stack[|c.stack| - 1], c.stack[..|c.stack| - 1];
    var x :| BackedCell(S, F, x, top, c.at) && Backed(S, F, a, Config(x, c.popped, below));
    assert d.stack[..|d.stack| - 1] == below;
    assert Fact(c.at, top.sym, x) in F;
    assert BackedCell(S, F, x, d.stack[|d.stack| - 1], d.at);
  }

  lemma BackedStep(E0: set<EdgeDef>, E: set<EdgeDef>, F: set<Fact>, a: FiniteState, c: Config, d: Config)
    requires Closed(E0, E, F) && E == E0 + Matches(E, F)
    requires Backed(SaturatedEdges(E0, E, F), F, a, c)
    requires Inner(E0, c, d) || Outer(E0, c, d)
    ensures Backed(SaturatedEdges(E0, E, F), F, a, d)
  {
    hide Backed, PushRule, SuccessRule, SwapRule, Matches, NotReflexive;
    var S, n := SaturatedEdges(E0, E, F), |c.stack|;
    if Outer(E0, c, d) {
      BackedOuter(S, E0, F, a, c, d);
    } else if Arc(c.at, Success, d.at) in E0 && d.stack == c.stack {
      NotReflexiveSubset(Matches(E, F));
      BackedSuccess(S, E, F, a, c, Arc(c.at, Success, d.at));
      assert d == c.(at := d.at);
    } else if |d.stack| == n + 1 {
      NotReflexiveSubset(Matches(E, F));
      BackedPush(S, E, F, a, c, Arc(c.at, Push(d.stack[n].sym), d.at));
      assert d.stack == c.stack + [Cell(d.stack[n].sym, false)];
    } else if |d.stack| == n - 1 {
      BackedPop(E0, E, F, a, c, Arc(c.at, Pop(c.stack[n - 1].sym), d.at));
    } else {
      BackedSwap(S, F, a, c, d);
    }
  }

  lemma NotReflexiveSubset(edges: set<EdgeDef>)
    ensures NotReflexive(edges) <= edges
  {
  }

  lemma {:induction false} BackedTrace(E0: set<EdgeDef>, E: set<EdgeDef>, F: set<Fact>, a: FiniteState, t: seq<Config>,
                                       d: Config)
    requires Closed(E0, E, F) && E == E0 + Matches(E, F)
    requires IsTrace(E0, t, Config(a, [], []), d, false)
    ensures Backed(SaturatedEdges(E0, E, F), F, a, d)
    decreases |t|
  {
    if |t| == 1 {
      assert a in Run(SaturatedEdges(E0, E, F), {a}, []) && PopsFirst([]) && Pops([]) == [] && Pushes([]) == [];
    } else {
      var c := t[|t| - 2];
      assert IsTrace(E0, t[..|t| - 1], Config(a, [], []), c, false);
      BackedTrace(E0, E, F, a, t[..|t| - 1], c);
      BackedStep(E0, E, F, a, c, d);
    }
  }

  lemma NormalAppend(S: set<EdgeDef>, a: FiniteState, u: seq<StackSymbol>, v: seq<StackSymbol>, d: FiniteState,
                     sym: StackSymbol, at: FiniteState)
    requires NormalRun(S, a, u, v, d) && PushPath(S, d, sym, at)
    ensures NormalRun(S, a, u, v + [sym], at)
  {
    var w: Word :| d in Run(S, {a}, w) && PopsFirst(w) && Pops(w) == u && Pushes(w) == v;
    var w': Word :| at in Run(S, {d}, w') && Pops(w') == [] && Pushes(w') == [sym] && NoPopIn(w');
    RunConcat(S, {a}, w, w');
    RunMonotone(S, S, {d}, Run(S, {a}, w), w');
    PopsConcat(w, w');
    PushesConcat(w, w');
    PopsFirstConcat(w, w');
    assert at in Run(S, {a}, w + w') && PopsFirst(w + w');
  }

  lemma {:induction false} BackedGivesRun(S: set<EdgeDef>, F: set<Fact>, a: FiniteState, c: Config, v: seq<StackSymbol>)
    requires Backed(S, F, a, c) && c.stack == Plain(v)
    ensures NormalRun(S, a, c.popped, v, c.at)
    decreases |v|
  {
    if v != [] {
      var top, below := c.stack[|v| - 1], c.stack[..|v| - 1];
      var d :| BackedCell(S, F, d, top, c.at) && Backed(S, F, a, Config(d, c.popped, below));
      assert below == Plain(v[..|v| - 1]);
      BackedGivesRun(S, F, a, Config(d, c.popped, below), v[..|v| - 1]);
      NormalAppend(S, a, c.popped, v[..|v| - 1], d, top.sym, c.at);
      assert v == v[..|v| - 1] + [top.sym];
    }
  }

  /** Completeness: whatever the pushdown system can do, the saturated automaton does with pops first. */
  lemma SaturationComplete(E0: set<EdgeDef>, E: set<EdgeDef>, F: set<Fact>, a: FiniteState,
                           u: seq<StackSymbol>, v: seq<StackSymbol>, b: FiniteState)
    requires IsSaturation(E0, E, F) && E == E0 + Matches(E, F)
    requires PushdownRun(E0, a, u, v, b)
    ensures NormalRun(SaturatedEdges(E0, E, F), a, u, v, b)
  {
    var t :| IsTrace(E0, t, Config(a, [], []), Config(b, u, Plain(v)), false);
    BackedTrace(E0, E, F, a, t, Config(b, u, Plain(v)));
    BackedGivesRun(SaturatedEdges(E0, E, F), F, a, Config(b, u, Plain(v)), v);
  }

  // ----- soundness: every normal run has a pushdown run -----

  /** A success edge is backed by an inner run that ends with the stack it started with. */
  ghost predicate EdgeSimulated(E0: set<EdgeDef>, e: EdgeDef) {
    e in E0 || (e.lab == Success && Leads(E0, Config(e.src, [], []), Config(e.dst, [], []), true))
  }

  ghost predicate FactSimulated(E0: set<EdgeDef>, f: Fact) {
    exists sw :: Leads(E0, Config(f.from, [], []), Config(f.at, [], [Cell(f.sym, sw)]), true)
  }

  lemma SimulatedSuccess(E0: set<EdgeDef>, e: EdgeDef, r: seq<Cell>, u: seq<StackSymbol>, inner: bool)
    requires EdgeSimulated(E0, e) && e.lab == Success
    ensures Leads(E0, Config(e.src, u, r), Config(e.dst, u, r), inner)
  {
    var c, d := Config(e.src, u, r), Config(e.dst, u, r);
    if e in E0 {
      LeadsSelf(E0, c, inner);
      assert Inner(E0, c, d);
      LeadsStep(E0, c, c, d, inner);
    } else {
      LiftRun(E0, Config(e.src, [], []), Config(e.dst, [], []), u, r);
      assert r + [] == r;
    }
  }

  lemma FactSimulatedSuccess(E0: set<EdgeDef>, e: EdgeDef, f: Fact)
    requires EdgeSimulated(E0, e) && e.lab == Success && FactSimulated(E0, f) && f.at == e.src
    ensures FactSimulated(E0, Fact(e.dst, f.sym, f.from))
  {
    var sw :| Leads(E0, Config(f.from, [], []), Config(f.at, [], [Cell(f.sym, sw)]), true);
    SimulatedSuccess(E0, e, [Cell(f.sym, sw)], [], true);
    LeadsTrans(E0, Config(f.from, [], []), Config(e.src, [], [Cell(f.sym, sw)]), Config(e.dst, [], [Cell(f.sym, sw)]),
               true);
  }

  lemma MatchSimulated(E0: set<EdgeDef>, e: EdgeDef, f: Fact)
    requires e in E0 && FactSimulated(E0, f) && e.lab == Pop(f.sym) && f.at == e.src
    ensures EdgeSimulated(E0, Arc(f.from, Success, e.dst))
  {
    var sw :| Leads(E0, Config(f.from, [], []), Config(f.at, [], [Cell(f.sym, sw)]), true);
    assert Inner(E0, Config(f.at, [], [Cell(f.sym, sw)]), Config(e.dst, [], []));
    LeadsStep(E0, Config(f.from, [], []), Config(f.at, [], [Cell(f.sym, sw)]), Config(e.dst, [], []), true);
  }

  lemma SwapSimulated(E0: set<EdgeDef>, f: Fact)
    requires FactSimulated(E0, f) && IsContra(f.at) && (f.sym == STORE || f.sym == LOAD)
    ensures FactSimulated(E0, Fact(f.at.Not(), Other(f.sym), f.from))
  {
    var sw :| Leads(E0, Config(f.from, [], []), Config(f.at, [], [Cell(f.sym, sw)]), true);
    var c, d := Config(f.at, [], [Cell(f.sym, sw)]), Config(f.at.Not(), [], [Cell(Other(f.sym), true)]);
    assert Inner(E0, c, d);
    LeadsStep(E0, Config(f.from, [], []), c, d, true);
  }

  /** The simulated part of a saturation is closed, so it is all of it. */
  lemma SaturationSimulated(E0: set<EdgeDef>, E: set<EdgeDef>, F: set<Fact>)
    requires IsSaturation(E0, E, F)
    ensures forall e | e in E :: EdgeSimulated(E0, e)
  {
    hide EdgeSimulated, FactSimulated;
    var E' := set e | e in E && EdgeSimulated(E0, e) && (e in E0 || e.lab == Success);
    var F' := set f | f in F && FactSimulated(E0, f);
    forall e | e in E0 ensures EdgeSimulated(E0, e) {
      InitialSimulated(E0, e);
    }
    assert E0 <= E';
    forall e | e in E' && e.lab.Push? ensures Fact(e.dst, e.lab.sym, e.src) in F' {
      PushSimulated(E0, e);
    }
    forall e, f | e in E' && e.lab == Success && f in F' && f.at == e.src ensures Fact(e.dst, f.sym, f.from) in F' {
      FactSimulatedSuccess(E0, e, f);
    }
    forall e | e in Matches(E', F') ensures e in E' {
      var p, f :| p in E' && f in F' && p.lab == Pop(f.sym) && f.at == p.src && e == Arc(f.from, Success, p.dst);
      MatchSimulated(E0, p, f);
      assert e in Matches(E, F);
    }
    forall f | f in F' && IsContra(f.at)
      ensures f.sym == STORE ==> Fact(f.at.Not(), LOAD, f.from) in F'
      ensures f.sym == LOAD ==> Fact(f.at.Not(), STORE, f.from) in F'
    {
      if f.sym == STORE || f.sym == LOAD {
        SwapSimulated(E0, f);
      }
    }
    assert Closed(E0, E', F');
  }

  lemma InitialSimulated(E0: set<EdgeDef>, e: EdgeDef)
    requires e in E0
    ensures EdgeSimulated(E0, e)
  {
  }

  lemma PushSimulated(E0: set<EdgeDef>, e: EdgeDef)
    requires e in E0 && e.lab.Push?
    ensures FactSimulated(E0, Fact(e.dst, e.lab.sym, e.src))
  {
    var c, d := Config(e.src, [], []), Config(e.dst, [], [Cell(e.lab.sym, false)]);
    LeadsSelf(E0, c, true);
    assert Inner(E0, c, d);
    LeadsStep(E0, c, c, d, true);
  }

  lemma NormalStepSimulated(E0: set<EdgeDef>, a: FiniteState, w: Word, e: EdgeDef)
    requires EdgeSimulated(E0, e) && e.lab != Failed && PopsFirst(w + [e.lab])
    requires PushdownRun(E0, a, Pops(w), Pushes(w), e.src)
    ensures PushdownRun(E0, a, Pops(w + [e.lab]), Pushes(w + [e.lab]), e.dst)
  {
    PopsConcat(w, [e.lab]);
    PushesConcat(w, [e.lab]);
    assert [e.lab][1..] == [];
    var c0 := Config(a, [], []);
    var c := Config(e.src, Pops(w), Plain(Pushes(w)));
    var d := Config(e.dst, Pops(w + [e.lab]), Plain(Pushes(w + [e.lab])));
    if e.lab == Success {
      assert d == c.(at := e.dst);
      SimulatedSuccess(E0, e, c.stack, c.popped, false);
      LeadsTrans(E0, c0, c, d, false);
    } else {
      if e.lab.Pop? {
        var v := w + [e.lab];
        assert forall i | 0 <= i < |w| :: v[i] == w[i] && !(v[i].Push? && v[|w|].Pop?);
        NoPushes(w);
        assert Outer(E0, c, d);
      } else {
        assert d.stack[..|c.stack|] == c.stack;
        assert Inner(E0, c, d);
      }
      LeadsStep(E0, c0, c, d, false);
    }
  }

  lemma {:induction false} NormalRunSimulated(E0: set<EdgeDef>, S: set<EdgeDef>, a: FiniteState, w: Word,
                                              b: FiniteState)
    requires forall e | e in S :: EdgeSimulated(E0, e) && e.lab != Failed
    requires b in Run(S, {a}, w) && PopsFirst(w)
    ensures PushdownRun(E0, a, Pops(w), Pushes(w), b)
    decreases |w|
  {
    hide EdgeSimulated;
    if w == [] {
      assert Plain([]) == [];
      LeadsSelf(E0, Config(a, [], []), false);
    } else {
      var front, l := w[..|w| - 1], w[|w| - 1];
      assert w == front + [l];
      RunSnoc(S, {a}, front, l);
      var e :| e in S && e.src in Run(S, {a}, front) && e.lab == l && e.dst == b;
      assert PopsFirst(front);
      NormalRunSimulated(E0, S, a, front, e.src);
      NormalStepSimulated(E0, a, front, e);
    }
  }

  /**
   * Exactness: the saturated automaton has a pops-before-pushes path from a to b with a given
   * effect if and only if the pushdown system has a run from a to b with that effect.
   */
  lemma SaturationExact(E0: set<EdgeDef>, E: set<EdgeDef>, F: set<Fact>, a: FiniteState,
                        u: seq<StackSymbol>, v: seq<StackSymbol>, b: FiniteState)
    requires IsSaturation(E0, E, F) && E == E0 + Matches(E, F)
    requires forall e | e in E0 :: e.lab != Failed
    ensures NormalRun(SaturatedEdges(E0, E, F), a, u, v, b) <==> PushdownRun(E0, a, u, v, b)
  {
    var S := SaturatedEdges(E0, E, F);
    if PushdownRun(E0, a, u, v, b) {
      SaturationComplete(E0, E, F, a, u, v, b);
    }
    if NormalRun(S, a, u, v, b) {
      var w: Word :| b in Run(S, {a}, w) && PopsFirst(w) && Pops(w) == u && Pushes(w) == v;
      SaturationSimulated(E0, E, F);
      NormalRunSimulated(E0, S, a, w, b);
    }
  }
}
