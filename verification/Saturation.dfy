/**
 * Saturation of the pushdown automaton (src/solver/constraint_graph.rs,
 * FSA::get_saturation_edges). A fact Fact(v, l, d) records that a run from d can push l
 * and arrive at v with l on top; it is one entry of the source's reaching_pushes map.
 */
module Saturation {
  import opened Sets
  import opened Graphs
  import opened Constraints
  import opened Pushdown

  datatype Fact = Fact(at: FiniteState, sym: StackSymbol, from: FiniteState)

  predicate IsContra(s: FiniteState) {
    s.Tv? && s.variance == Contravariant
  }

  const LOAD := Label(Load)
  const STORE := Label(Store)

  // ----- the closure rules -----

  ghost predicate PushRule(E: set<EdgeDef>, F: set<Fact>) {
    forall e | e in E && e.lab.Push? :: Fact(e.dst, e.lab.sym, e.src) in F
  }

  ghost predicate SuccessRule(E: set<EdgeDef>, F: set<Fact>, F': set<Fact>) {
    forall e, f | e in E && e.lab == Success && f in F && f.at == e.src :: Fact(e.dst, f.sym, f.from) in F'
  }

  /** The success edges that match a pop against a push that reaches it. */
  function Matches(E: set<EdgeDef>, F: set<Fact>): set<EdgeDef> {
    set e, f | e in E && f in F && e.lab == Pop(f.sym) && f.at == e.src :: Arc(f.from, Success, e.dst)
  }

  /** A store that reaches a pointer is a load that reaches the opposite pointer, and conversely. */
  ghost predicate SwapRule(F: set<Fact>, F': set<Fact>) {
    forall f | f in F && IsContra(f.at) ::
      && (f.sym == STORE ==> Fact(f.at.Not(), LOAD, f.from) in F')
      && (f.sym == LOAD ==> Fact(f.at.Not(), STORE, f.from) in F')
  }

  ghost predicate Closed(E0: set<EdgeDef>, E: set<EdgeDef>, F: set<Fact>) {
    && E0 <= E
    && PushRule(E, F)
    && SuccessRule(E, F, F)
    && Matches(E, F) <= E
    && SwapRule(F, F)
  }

  ghost predicate BelowAllClosed(E0: set<EdgeDef>, E: set<EdgeDef>, F: set<Fact>) {
    forall E', F' | Closed(E0, E', F') :: E <= E' && F <= F'
  }

  /** (E, F) is the least pair of edges and facts closed under the rules. */
  ghost predicate IsSaturation(E0: set<EdgeDef>, E: set<EdgeDef>, F: set<Fact>) {
    Closed(E0, E, F) && BelowAllClosed(E0, E, F)
  }

  // ----- termination bounds -----

  ghost function Symbols(E0: set<EdgeDef>): set<StackSymbol> {
    (set e | e in E0 && (e.lab.Push? || e.lab.Pop?) :: e.lab.sym) + {LOAD, STORE}
  }

  ghost function AllFacts(nodes: set<FiniteState>, E0: set<EdgeDef>): set<Fact> {
    set v, l, d | v in nodes && l in Symbols(E0) && d in nodes :: Fact(v, l, d)
  }

  ghost function AllEdges(nodes: set<FiniteState>, E0: set<EdgeDef>): set<EdgeDef> {
    E0 + set a, b | a in nodes && b in nodes :: Arc(a, Success, b)
  }

  ghost predicate Bounded(nodes: set<FiniteState>, E0: set<EdgeDef>, E: set<EdgeDef>, F: set<Fact>) {
    Endpoints(E0) <= nodes && E0 <= E <= AllEdges(nodes, E0) && F <= AllFacts(nodes, E0)
  }

  lemma BoundedEdge(nodes: set<FiniteState>, E0: set<EdgeDef>, E: set<EdgeDef>, F: set<Fact>, e: EdgeDef)
    requires Bounded(nodes, E0, E, F) && e in E
    ensures e.src in nodes && e.dst in nodes
  {
    if e in E0 {
      assert e.src in Endpoints(E0) && e.dst in Endpoints(E0);
    }
  }

  // ----- the three passes of one round -----

  method PropagateSuccess(nodes: set<FiniteState>, E0: set<EdgeDef>, E: set<EdgeDef>, F: set<Fact>)
    returns (F': set<Fact>)
    requires Bounded(nodes, E0, E, F) && BelowAllClosed(E0, E, F)
    ensures F <= F' && Bounded(nodes, E0, E, F') && BelowAllClosed(E0, E, F')
    ensures SuccessRule(E, F, F')
  {
    F' := F;
    var todo := set e | e in E && e.lab == Success;
    while todo != {}
      invariant todo <= E && F <= F' && Bounded(nodes, E0, E, F') && BelowAllClosed(E0, E, F')
      invariant forall e, f | e in E && e.lab == Success && e !in todo && f in F && f.at == e.src ::
                  Fact(e.dst, f.sym, f.from) in F'
    {
      var e :| e in todo;
      var more := set f | f in F' && f.at == e.src :: Fact(e.dst, f.sym, f.from);
      BoundedEdge(nodes, E0, E, F', e);
      assert more <= AllFacts(nodes, E0);
      F' := F' + more;
      todo := todo - {e};
    }
  }

  method MatchPops(E: set<EdgeDef>, F: set<Fact>) returns (additional: set<EdgeDef>)
    ensures additional == Matches(E, F)
    ensures forall e | e in additional :: e.lab == Success
  {
    additional := {};
    var todo := set e | e in E && e.lab.Pop?;
    while todo != {}
      invariant todo <= E && additional <= Matches(E, F)
      invariant forall e, f | e in E && e !in todo && f in F && e.lab == Pop(f.sym) && f.at == e.src ::
                  Arc(f.from, Success, e.dst) in additional
    {
      var e :| e in todo;
      additional := additional + set f | f in F && e.lab == Pop(f.sym) && f.at == e.src :: Arc(f.from, Success, e.dst);
      todo := todo - {e};
    }
  }

  /** The facts at a state with load and store exchanged, moved to the opposite state. */
  function Exchanged(F: set<Fact>, v: FiniteState): set<Fact> {
    (set f | f in F && f.at == v && f.sym == STORE :: Fact(v.Not(), LOAD, f.from)) +
    (set f | f in F && f.at == v && f.sym == LOAD :: Fact(v.Not(), STORE, f.from))
  }

  ghost predicate ExchangedBut(F: set<Fact>, F': set<Fact>, todo: set<FiniteState>) {
    F <= F' && forall f | f in F && IsContra(f.at) && f.at !in todo ::
      && (f.sym == STORE ==> Fact(f.at.Not(), LOAD, f.from) in F')
      && (f.sym == LOAD ==> Fact(f.at.Not(), STORE, f.from) in F')
  }

  lemma ExchangeJustified(nodes: set<FiniteState>, E0: set<EdgeDef>, E: set<EdgeDef>, F: set<Fact>, v: FiniteState)
    requires Bounded(nodes, E0, E, F) && BelowAllClosed(E0, E, F) && IsContra(v)
    requires Exchanged(F, v) == {} || v.Not() in nodes
    ensures Bounded(nodes, E0, E, F + Exchanged(F, v)) && BelowAllClosed(E0, E, F + Exchanged(F, v))
  {
    forall f | f in Exchanged(F, v) ensures f in AllFacts(nodes, E0) {
    }
    forall E', F' | Closed(E0, E', F') ensures Exchanged(F, v) <= F' {
    }
  }

  lemma ExchangeDone(F: set<Fact>, F': set<Fact>, todo: set<FiniteState>, v: FiniteState)
    requires ExchangedBut(F, F', todo)
    ensures ExchangedBut(F, F' + Exchanged(F', v), todo - {v})
  {
  }

  /** None stands for the panic of looking up an opposite state that is not in the graph. */
  method SwapPointers(nodes: set<FiniteState>, E0: set<EdgeDef>, E: set<EdgeDef>, F: set<Fact>)
    returns (r: Option<set<Fact>>)
    requires Bounded(nodes, E0, E, F) && BelowAllClosed(E0, E, F)
    ensures r.None? ==> exists v :: v in nodes && v.Not() !in nodes
    ensures r.Some? ==> F <= r.value && Bounded(nodes, E0, E, r.value) && BelowAllClosed(E0, E, r.value)
    ensures r.Some? ==> SwapRule(F, r.value)
  {
    hide BelowAllClosed, Exchanged;
    var F' := F;
    var todo := set v | v in nodes && IsContra(v);
    assert ExchangedBut(F, F', todo) by {
      FactsAtNodes(nodes, E0, E, F);
    }
    while todo != {}
      invariant todo <= nodes && Bounded(nodes, E0, E, F') && BelowAllClosed(E0, E, F')
      invariant (forall v | v in todo :: IsContra(v)) && ExchangedBut(F, F', todo)
    {
      var v :| v in todo;
      var more := Exchanged(F', v);
      if more != {} && v.Not() !in nodes {
        return None;
      }
      ExchangeJustified(nodes, E0, E, F', v);
      ExchangeDone(F, F', todo, v);
      F', todo := F' + more, todo - {v};
    }
    return Some(F');
  }

  lemma FactsAtNodes(nodes: set<FiniteState>, E0: set<EdgeDef>, E: set<EdgeDef>, F: set<Fact>)
    requires Bounded(nodes, E0, E, F)
    ensures forall f | f in F :: f.at in nodes
  {
  }

  /** How many edges and facts are still missing. */
  ghost function Room(nodes: set<FiniteState>, E0: set<EdgeDef>, E: set<EdgeDef>, F: set<Fact>): nat {
    |AllEdges(nodes, E0) - E| + |AllFacts(nodes, E0) - F|
  }

  lemma RoundGrows(nodes: set<FiniteState>, E0: set<EdgeDef>, E: set<EdgeDef>, F: set<Fact>,
                   more: set<EdgeDef>, F': set<Fact>)
    requires Bounded(nodes, E0, E, F) && Bounded(nodes, E0, E + more, F') && F <= F'
    requires PushRule(E, F) && forall e | e in more :: e.lab == Success
    ensures PushRule(E + more, F')
    ensures E != E + more || F != F' ==> Room(nodes, E0, E + more, F') < Room(nodes, E0, E, F)
  {
    SubsetSize(AllEdges(nodes, E0) - (E + more), AllEdges(nodes, E0) - E);
    SubsetSize(AllFacts(nodes, E0) - F', AllFacts(nodes, E0) - F);
    if E != E + more {
      var e :| e in more && e !in E;
      assert e in AllEdges(nodes, E0) - E && e !in AllEdges(nodes, E0) - (E + more);
    }
    if F != F' {
      var f :| f in F' && f !in F;
      assert f in AllFacts(nodes, E0) - F && f !in AllFacts(nodes, E0) - F';
    }
  }

  lemma MatchesGrow(E: set<EdgeDef>, F: set<Fact>, E': set<EdgeDef>, F': set<Fact>)
    requires E <= E' && F <= F'
    ensures Matches(E, F) <= Matches(E', F')
  {
  }

  lemma StartsBounded(nodes: set<FiniteState>, E0: set<EdgeDef>, F: set<Fact>)
    requires Endpoints(E0) <= nodes
    requires F == set e | e in E0 && e.lab.Push? :: Fact(e.dst, e.lab.sym, e.src)
    ensures RoundInv(nodes, E0, {}, E0, F)
  {
    forall e | e in E0 ensures e.src in nodes && e.dst in nodes {
      assert e.src in Endpoints(E0) && e.dst in Endpoints(E0);
    }
  }

  lemma MatchesBounded(nodes: set<FiniteState>, E0: set<EdgeDef>, E: set<EdgeDef>, F: set<Fact>)
    requires Bounded(nodes, E0, E, F) && BelowAllClosed(E0, E, F)
    ensures Bounded(nodes, E0, E + Matches(E, F), F) && BelowAllClosed(E0, E + Matches(E, F), F)
  {
    forall e | e in Matches(E, F) ensures e in AllEdges(nodes, E0) {
      var p, f :| p in E && f in F && p.lab == Pop(f.sym) && f.at == p.src && e == Arc(f.from, Success, p.dst);
      BoundedEdge(nodes, E0, E, F, p);
    }
    forall E', F' | Closed(E0, E', F') ensures E + Matches(E, F) <= E' {
      assert Matches(E, F) <= Matches(E', F');
    }
  }

  // ----- the do-while loop -----

  /** What every round keeps: nothing but justified facts and edges, and all new edges are matches. */
  ghost predicate RoundInv(nodes: set<FiniteState>, E0: set<EdgeDef>, newEdges: set<EdgeDef>, E: set<EdgeDef>,
                           F: set<Fact>) {
    && Bounded(nodes, E0, E, F) && BelowAllClosed(E0, E, F) && PushRule(E, F)
    && E == E0 + newEdges && newEdges <= Matches(E, F)
  }

  ghost predicate Saturated(newEdges: set<EdgeDef>, E: set<EdgeDef>, F: set<Fact>) {
    SuccessRule(E, F, F) && SwapRule(F, F) && newEdges == Matches(E, F)
  }

  /** One round of the loop body; a round that changes nothing has found the fixpoint. */
  method Round(nodes: set<FiniteState>, E0: set<EdgeDef>, newEdges: set<EdgeDef>, E: set<EdgeDef>, F: set<Fact>)
    returns (r: Option<set<Fact>>, newEdges': set<EdgeDef>, E': set<EdgeDef>)
    requires RoundInv(nodes, E0, newEdges, E, F)
    ensures r.None? ==> exists v :: v in nodes && v.Not() !in nodes
    ensures r.Some? ==> RoundInv(nodes, E0, newEdges', E', r.value)
    ensures r.Some? && r.value == F && E' == E ==> Saturated(newEdges', E, F)
    ensures r.Some? && (r.value != F || E' != E) ==> Room(nodes, E0, E', r.value) < Room(nodes, E0, E, F)
  {
    hide Bounded, BelowAllClosed, PushRule, SuccessRule, SwapRule, Matches, Room;
    var reaching := PropagateSuccess(nodes, E0, E, F);
    var additional := MatchPops(E, reaching);
    newEdges', E' := newEdges + additional, E + additional;
    MatchesBounded(nodes, E0, E, reaching);
    r := SwapPointers(nodes, E0, E', reaching);
    if r.Some? {
      MatchesGrow(E, F, E', r.value);
      MatchesGrow(E, F, E, reaching);
      MatchesGrow(E, reaching, E', r.value);
      RoundGrows(nodes, E0, E, F, additional, r.value);
      assert r.value == F ==> reaching == F;
    }
  }

  /**
   * The loop stops, and whatever order the passes take, at the least closed pair; what it
   * hands out are the matched edges that do not lead from a state to itself.
   */
  method GetSaturationEdges(nodes: set<FiniteState>, E0: set<EdgeDef>)
    returns (r: Option<set<EdgeDef>>, ghost E: set<EdgeDef>, ghost F: set<Fact>)
    requires Endpoints(E0) <= nodes
    ensures r.None? ==> exists v :: v in nodes && v.Not() !in nodes
    ensures r.Some? ==> IsSaturation(E0, E, F) && E == E0 + Matches(E, F)
    ensures r.Some? ==> r.value == NotReflexive(Matches(E, F)) && Bounded(nodes, E0, E, F)
  {
    var reaching := set e | e in E0 && e.lab.Push? :: Fact(e.dst, e.lab.sym, e.src);
    var all := E0;
    var newEdges: set<EdgeDef> := {};
    StartsBounded(nodes, E0, reaching);
    hide RoundInv, Room, Saturated, NotReflexive, IsSaturation, Matches;
    var changed := true;
    while changed
      invariant RoundInv(nodes, E0, newEdges, all, reaching)
      invariant !changed ==> Saturated(newEdges, all, reaching)
      decreases if changed then Room(nodes, E0, all, reaching) + 1 else 0
    {
      var grown, newEdges', all' := Round(nodes, E0, newEdges, all, reaching);
      if grown.None? {
        return None, {}, {};
      }
      changed := reaching != grown.value || all != all';
      reaching, all, newEdges := grown.value, all', newEdges';
    }
    E, F := all, reaching;
    FixpointIsLeast(nodes, E0, newEdges, E, F);
    r := Some(NotReflexive(newEdges));
  }

  lemma FixpointIsLeast(nodes: set<FiniteState>, E0: set<EdgeDef>, newEdges: set<EdgeDef>, E: set<EdgeDef>,
                        F: set<Fact>)
    requires RoundInv(nodes, E0, newEdges, E, F) && Saturated(newEdges, E, F)
    ensures IsSaturation(E0, E, F) && E == E0 + Matches(E, F) && newEdges == Matches(E, F)
    ensures Bounded(nodes, E0, E, F)
  {
  }

  function NotReflexive(edges: set<EdgeDef>): set<EdgeDef> {
    set e | e in edges && e.src != e.dst
  }
}
