/**
 * Breaking the cycles of the automaton (src/solver/constraint_graph.rs, get_entries_to_scc,
 * select_an_entry_repr and generate_recursive_type_variables): the invariant that every
 * replacement keeps, on graphs as values.
 */
module LoopBreaking {
  import opened Graphs
  import opened Constraints
  import opened Pushdown
  import opened PopPush
  import opened SaturationLaws
  import opened FsaGraph
  import opened CycleBreaking

  // ----- what has been replaced so far -----

  /** The entry and the exit that took the place of a node, and the loop breaker that names a state. */
  datatype Breaks = Breaks(entry: map<nat, nat>, exit: map<nat, nat>, name: map<FiniteState, TypeVariable>) {
    function Src(n: nat): nat {
      if n in entry then entry[n] else n
    }

    function Dst(n: nat): nat {
      if n in exit then exit[n] else n
    }

    function Moved(e: IdEdge): IdEdge {
      Arc(Src(e.src), e.lab, Dst(e.dst))
    }

    function Redirected(A: set<IdEdge>): set<IdEdge> {
      set e | e in A :: Moved(e)
    }

    ghost predicate Fits(nodes: map<nat, FiniteState>) {
      && entry.Keys == exit.Keys
      && forall n | n in entry :: n in nodes && nodes[n].Tv? && nodes[n] in name
    }

    /** The two edges of every replaced node. */
    ghost function Pairs(nodes: map<nat, FiniteState>, s: nat, t: nat): set<IdEdge>
      requires Fits(nodes)
    {
      set n, e | n in entry && e in PairOf(nodes, s, t, n) :: e
    }

    function PairOf(nodes: map<nat, FiniteState>, s: nat, t: nat, n: nat): set<IdEdge>
      requires n in entry && n in exit && n in nodes && nodes[n].Tv? && nodes[n] in name
    {
      BreakerEdges(name[nodes[n]], nodes[n].variance, s, t, entry[n], exit[n])
    }

    function Add(n: nat, i: nat, o: nat): Breaks {
      Breaks(entry[n := i], exit[n := o], name)
    }
  }

  const NO_BREAKS := Breaks(map[], map[], map[])

  /** g is g0 with the replaced nodes split: nothing else was added, moved or dropped. */
  ghost predicate IsBroken(g0: Graph, g: Graph, bk: Breaks, s: nat, t: nat) {
    && g0.Wf() && g0.nextNode <= g.nextNode && s < g0.nextNode && t < g0.nextNode
    && bk.Fits(g0.nodes) && s !in bk.entry && t !in bk.entry
    && (forall n | n in bk.entry :: g0.nextNode <= bk.entry[n] < g.nextNode && g0.nextNode <= bk.exit[n] < g.nextNode)
    && g.Arcs() == bk.Redirected(g0.Arcs()) + bk.Pairs(g0.nodes, s, t)
  }

  lemma NothingBroken(g: Graph, s: nat, t: nat)
    requires g.Wf() && s < g.nextNode && t < g.nextNode
    ensures IsBroken(g, g, NO_BREAKS, s, t)
  {
    forall e ensures NO_BREAKS.Moved(e) == e {
    }
    assert NO_BREAKS.Redirected(g.Arcs()) == g.Arcs();
  }

  /** Redirecting the edges of one more node. */
  lemma RedirectedAdd(A: set<IdEdge>, bk: Breaks, n: nat, i: nat, o: nat, bound: nat)
    requires bk.entry.Keys == bk.exit.Keys && n !in bk.entry && n < bound
    requires forall m | m in bk.entry :: bound <= bk.entry[m] && bound <= bk.exit[m]
    ensures RedirectedArcs(bk.Redirected(A), n, i, o) == bk.Add(n, i, o).Redirected(A)
  {
    forall e ensures Redirect(bk.Moved(e), n, i, o) == bk.Add(n, i, o).Moved(e) {
    }
    forall a | a in bk.Add(n, i, o).Redirected(A) ensures a in RedirectedArcs(bk.Redirected(A), n, i, o) {
      var e :| e in A && a == bk.Add(n, i, o).Moved(e);
      assert bk.Moved(e) in bk.Redirected(A);
    }
  }

  /** One more pair of breaker edges; those that are there do not meet the replaced node. */
  lemma PairsAdd(nodes: map<nat, FiniteState>, bk: Breaks, s: nat, t: nat, n: nat, i: nat, o: nat, bound: nat)
    requires bk.Fits(nodes) && n !in bk.entry && n in nodes && nodes[n].Tv? && nodes[n] in bk.name
    requires n < bound && n != s && n != t
    requires forall m | m in bk.entry :: bound <= bk.entry[m] && bound <= bk.exit[m]
    ensures RedirectedArcs(bk.Pairs(nodes, s, t), n, i, o) == bk.Pairs(nodes, s, t)
    ensures bk.Add(n, i, o).Fits(nodes)
    ensures bk.Add(n, i, o).Pairs(nodes, s, t)
         == bk.Pairs(nodes, s, t) + BreakerEdges(bk.name[nodes[n]], nodes[n].variance, s, t, i, o)
  {
    var bk' := bk.Add(n, i, o);
    forall e | e in bk.Pairs(nodes, s, t) ensures Redirect(e, n, i, o) == e {
    }
    forall m | m in bk.entry ensures bk'.PairOf(nodes, s, t, m) == bk.PairOf(nodes, s, t, m) {
    }
    assert bk'.PairOf(nodes, s, t, n) == BreakerEdges(bk.name[nodes[n]], nodes[n].variance, s, t, i, o);
    forall e | e in bk'.Pairs(nodes, s, t)
      ensures e in bk.Pairs(nodes, s, t) || e in bk'.PairOf(nodes, s, t, n)
    {
      var m :| m in bk'.entry && e in bk'.PairOf(nodes, s, t, m);
      assert m != n ==> e in bk.PairOf(nodes, s, t, m);
    }
    forall e | e in bk.Pairs(nodes, s, t) ensures e in bk'.Pairs(nodes, s, t) {
      var m :| m in bk.entry && e in bk.PairOf(nodes, s, t, m);
      assert e in bk'.PairOf(nodes, s, t, m);
    }
  }

  lemma RedirectedUnion(A: set<IdEdge>, B: set<IdEdge>, n: nat, i: nat, o: nat)
    ensures RedirectedArcs(A + B, n, i, o) == RedirectedArcs(A, n, i, o) + RedirectedArcs(B, n, i, o)
  {
  }

  lemma BrokenReplacement(g0: Graph, g: Graph, g': Graph, bk: Breaks, n: nat, tv: TypeVariable, s: nat, t: nat)
    requires IsBroken(g0, g, bk, s, t) && Replacement(g, g', n, tv, s, t)
    requires n in g0.nodes && n !in bk.entry && g.nodes[n] == g0.nodes[n]
    requires g0.nodes[n] in bk.name && bk.name[g0.nodes[n]] == tv
    ensures IsBroken(g0, g', bk.Add(n, g.nextNode, g.nextNode + 1), s, t)
  {
    hide RedirectedArcs, BreakerEdges, Breaks.Redirected, Breaks.Pairs;
    var i, o := g.nextNode, g.nextNode + 1;
    RedirectedUnion(bk.Redirected(g0.Arcs()), bk.Pairs(g0.nodes, s, t), n, i, o);
    RedirectedAdd(g0.Arcs(), bk, n, i, o, g0.nextNode);
    PairsAdd(g0.nodes, bk, s, t, n, i, o, g0.nextNode);
  }

  // ----- the invariant as a whole -----

  /** The maps of the automaton find every original node, under the label it had at first. */
  ghost predicate Indexed(g: Graph, mp: map<FiniteState, nat>, cantPop: map<FiniteState, nat>,
                          lab: map<nat, FiniteState>) {
    && (forall st | st in mp :: mp[st] < g.nextNode && (mp[st] in g.nodes ==> g.nodes[mp[st]] == st))
    && (forall st | st in cantPop ::
          cantPop[st] < g.nextNode && (cantPop[st] in g.nodes ==> g.nodes[cantPop[st]] == st))
    && (forall i | i in lab :: i in g.nodes && g.nodes[i] == lab[i]
          && ((lab[i] in mp && mp[lab[i]] == i) || (lab[i] in cantPop && cantPop[lab[i]] == i)))
  }

  /** Nodes that were not there at first belong to loop breakers handed out since. */
  ghost predicate Newer(g0: Graph, g: Graph, k0: nat) {
    forall i | i in g.nodes && i !in g0.nodes :: g.nodes[i].Tv? && !OldVar(g.nodes[i].base.tv, k0)
  }

  /**
   * The automaton while its cycles are broken. g0 is its graph before the first replacement,
   * C and th say what edges mean, removed holds the ids replaced so far, k0 and k are the loop
   * breaker counter then and now.
   */
  datatype Breaking = Breaking(C: set<Subtype>, th: Meaning, g0: Graph, g: Graph, mp: map<FiniteState, nat>,
                               cantPop: map<FiniteState, nat>, copies: set<nat>, removed: set<nat>,
                               k0: nat, k: nat, bk: Breaks) {
    ghost predicate Anchored() {
      && Start in mp && End in cantPop
      && mp[Start] in g0.nodes && cantPop[End] in g0.nodes
      && mp[Start] !in copies && cantPop[End] in copies && mp[Start] !in removed && cantPop[End] !in removed
      && forall i | i in copies :: i < g.nextNode
    }

    ghost predicate Valid() {
      && g.Wf() && Indexed(g, mp, cantPop, g0.nodes) && Anchored()
      && Sound(C, th, g) && Zoned(g, copies) && Older(g, k) && Isolated(g, removed)
      && Breakers(g, mp[Start], cantPop[End], g0.nodes.Keys)
      && FromStart(g, mp[Start], g0.nodes.Keys - removed - {cantPop[End]})
      && k0 <= k && (forall i | i in g0.nodes :: OldState(g0.nodes[i], k0))
      && Newer(g0, g, k0) && IsBroken(g0, g, bk, mp[Start], cantPop[End]) && bk.entry.Keys <= removed
    }

    /** Whole classes are replaced: a node is exactly when its state has a name, as its opposite then has. */
    ghost predicate WholeClasses() {
      NamesPaired(bk) && ReplacedBut(g0, bk, {}) && NamesMean(bk, th)
    }
  }

  /** A state that is named is a variable's, and its opposite has the same name. */
  ghost predicate PairedAt(bk: Breaks, st: FiniteState) {
    st in bk.name ==> st.Tv? && st.Not() in bk.name && bk.name[st.Not()] == bk.name[st]
  }

  ghost predicate NamesPaired(bk: Breaks) {
    forall st :: PairedAt(bk, st)
  }

  /** Every name is a loop breaker that has been given a meaning. */
  ghost predicate NamesMean(bk: Breaks, th: Meaning) {
    forall st | st in bk.name :: bk.name[st] in th
  }

  /** Where the breaking of cycles starts. */
  ghost predicate Begins(b: Breaking) {
    b.g0 == b.g && b.th == map[] && b.removed == {} && b.k0 == b.k && b.bk == NO_BREAKS
  }

  /** The same run of the algorithm, later. */
  ghost predicate Proceeds(b: Breaking, b': Breaking) {
    && b'.C == b.C && b'.g0 == b.g0 && b'.k0 == b.k0 && b.removed <= b'.removed
    && (Start in b.mp ==> Start in b'.mp && b'.mp[Start] == b.mp[Start])
    && (End in b.cantPop ==> End in b'.cantPop && b'.cantPop[End] == b.cantPop[End])
  }

  ghost predicate ReplacedBut(g0: Graph, bk: Breaks, todo: set<nat>) {
    forall n | n in g0.nodes :: n in bk.entry <==> g0.nodes[n] in bk.name && n !in todo
  }

  /** What a caller needs to know of the invariant. */
  lemma BreakingFacts(b: Breaking)
    requires b.Valid()
    ensures b.g.Wf() && Start in b.mp && End in b.cantPop && b.mp[Start] != b.cantPop[End] && b.k0 <= b.k
    ensures b.mp[Start] in b.g.nodes && b.g.nodes[b.mp[Start]] == Start
    ensures b.cantPop[End] in b.g.nodes && b.g.nodes[b.cantPop[End]] == End
    ensures Indexed(b.g, b.mp, b.cantPop, b.g0.nodes)
    ensures forall i | i in b.g0.nodes ::
              i in b.g.nodes && b.g.nodes[i] == b.g0.nodes[i] && OldState(b.g0.nodes[i], b.k0)
    ensures Sound(b.C, b.th, b.g) && Breakers(b.g, b.mp[Start], b.cantPop[End], b.g0.nodes.Keys)
    ensures FromStart(b.g, b.mp[Start], b.g0.nodes.Keys - b.removed - {b.cantPop[End]})
    ensures Isolated(b.g, b.removed) && Zoned(b.g, b.copies)
    ensures IsBroken(b.g0, b.g, b.bk, b.mp[Start], b.cantPop[End])
  {
    hide Sound, Breakers, Isolated, FromStart, Zoned, Older, IsBroken, Newer;
  }

  predicate Touches(scc: set<nat>, removed: set<nat>) {
    exists x :: x in scc && x in removed
  }

  // ----- one more replacement -----

  /** The automaton after a node was split. */
  function AfterSplit(b: Breaking, n: nat, tv: TypeVariable, g': Graph): Breaking
    requires n in b.g.nodes && b.g.nodes[n].Tv?
  {
    var i, o := b.g.nextNode, b.g.nextNode + 1;
    b.(g := g', mp := b.mp[EntryState(tv, b.g.nodes[n]) := i], cantPop := b.cantPop[ExitState(tv, b.g.nodes[n]) := o],
       copies := b.copies + Zone(b.copies, n, i, o), removed := b.removed + {n}, bk := b.bk.Add(n, i, o))
  }

  /** A node that may be split: its state has been named, and it stands for what the name means. */
  ghost predicate Splittable(b: Breaking, n: nat, tv: TypeVariable) {
    && n in b.g0.nodes && b.g0.nodes[n].Tv? && n !in b.bk.entry
    && b.g0.nodes[n] in b.bk.name && b.bk.name[b.g0.nodes[n]] == tv
    && MeaningOf(b.th, tv) == Root(b.th, b.g0.nodes[n])
    && !OldVar(tv, b.k0) && OldVar(tv, b.k)
  }

  lemma IndexedReplacement(g: Graph, g': Graph, n: nat, tv: TypeVariable, s: nat, t: nat, mp: map<FiniteState, nat>,
                           cantPop: map<FiniteState, nat>, lab: map<nat, FiniteState>, k0: nat)
    requires Replacement(g, g', n, tv, s, t) && Indexed(g, mp, cantPop, lab)
    requires !OldVar(tv, k0) && forall i | i in lab :: OldState(lab[i], k0)
    ensures Indexed(g', mp[EntryState(tv, g.nodes[n]) := g.nextNode],
                    cantPop[ExitState(tv, g.nodes[n]) := g.nextNode + 1], lab)
  {
  }

  lemma AnchoredReplacement(b: Breaking, n: nat, tv: TypeVariable, g': Graph)
    requires b.Anchored() && n in b.g.nodes && b.g.nodes[n].Tv?
    requires Replacement(b.g, g', n, tv, b.mp[Start], b.cantPop[End])
    ensures AfterSplit(b, n, tv, g').Anchored()
  {
  }

  lemma NewerReplacement(g0: Graph, g: Graph, g': Graph, n: nat, tv: TypeVariable, s: nat, t: nat, k0: nat)
    requires Newer(g0, g, k0) && Replacement(g, g', n, tv, s, t) && !OldVar(tv, k0)
    ensures Newer(g0, g', k0)
  {
  }

  lemma ReplacementKeeps(b: Breaking, n: nat, tv: TypeVariable, g': Graph)
    requires b.Valid() && Splittable(b, n, tv)
    requires Replacement(b.g, g', n, tv, b.mp[Start], b.cantPop[End])
    ensures n in b.g.nodes && b.g.nodes[n].Tv? && AfterSplit(b, n, tv, g').Valid()
  {
    hide Sound, Zoned, Older, Isolated, Breakers, FromStart, Indexed, RedirectedArcs, BreakerEdges, IsBroken, Newer,
         Replacement;
    var s, t := b.mp[Start], b.cantPop[End];
    BreakingFacts(b);
    SplitBasics(b.g, g', n, tv, s, t);
    SoundReplacement(b.C, b.th, b.g, g', n, tv, s, t);
    ZonedReplacement(b.g, g', n, tv, s, t, b.copies);
    OlderReplacement(b.g, g', n, tv, s, t, b.k);
    IsolatedReplacement(b.g, g', n, tv, s, t, b.removed);
    BreakersReplacement(b.g, g', n, tv, s, t, b.g0.nodes.Keys);
    FromStartReplacement(b.g, g', n, tv, s, t, b.g0.nodes.Keys - b.removed - {t});
    IndexedReplacement(b.g, g', n, tv, s, t, b.mp, b.cantPop, b.g0.nodes, b.k0);
    AnchoredReplacement(b, n, tv, g');
    NewerReplacement(b.g0, b.g, g', n, tv, s, t, b.k0);
    BrokenReplacement(b.g0, b.g, g', b.bk, n, tv, s, t);
    assert b.g0.nodes.Keys - b.removed - {t} - {n} == b.g0.nodes.Keys - (b.removed + {n}) - {t};
  }

  lemma SplitBasics(g: Graph, g': Graph, n: nat, tv: TypeVariable, s: nat, t: nat)
    requires Replacement(g, g', n, tv, s, t)
    ensures g'.Wf() && n in g.nodes && g.nodes[n].Tv?
  {
  }

  /** The nodes there were are still there. */
  ghost predicate Extended(g: Graph, g': Graph) {
    && g.nextNode <= g'.nextNode
    && (forall i | i in g.nodes :: i in g'.nodes && g'.nodes[i] == g.nodes[i])
    && (forall i | i in g'.nodes && i !in g.nodes :: i >= g.nextNode)
  }

  /** Splits a node into the entry and the exit of a loop breaker and registers both. */
  method BreakNode(g: Graph, mp: map<FiniteState, nat>, cantPop: map<FiniteState, nat>, n: nat, tv: TypeVariable,
                   ghost b: Breaking)
    returns (g': Graph, mp': map<FiniteState, nat>, cantPop': map<FiniteState, nat>, ghost b': Breaking)
    requires b.Valid() && b.g == g && b.mp == mp && b.cantPop == cantPop && Splittable(b, n, tv)
    ensures b'.Valid() && b'.g == g' && b'.mp == mp' && b'.cantPop == cantPop'
    ensures n in g.nodes && g.nodes[n].Tv? && b' == AfterSplit(b, n, tv, g')
    ensures Extended(g, g')
  {
    hide Breaking.Valid, Replacement, Root, Indexed;
    BreakingFacts(b);
    assert mp[Start] != n && cantPop[End] != n;
    g' := ReplaceInGraph(g, n, tv, mp[Start], cantPop[End]);
    mp' := mp[EntryState(tv, g.nodes[n]) := g.nextNode];
    cantPop' := cantPop[ExitState(tv, g.nodes[n]) := g.nextNode + 1];
    b' := AfterSplit(b, n, tv, g');
    ReplacementKeeps(b, n, tv, g');
    ReplacementExtends(g, g', n, tv, mp[Start], cantPop[End]);
  }

  /** Recording more ids that carry no edges. */
  lemma RemovedGrows(b: Breaking, i: nat)
    requires b.Valid() && i !in b.g.nodes && i < b.g.nextNode
    ensures b.(removed := b.removed + {i}).Valid()
  {
    hide Sound, Zoned, Older, Breakers, IsBroken, Newer;
    forall e | e in b.g.Arcs() ensures e.src != i && e.dst != i {
    }
  }

  /** A fresh loop breaker may be given any meaning. */
  lemma FreshMeaning(b: Breaking, tv: TypeVariable, d: Dtv)
    requires b.Valid() && tv == TypeVariable(LoopBreaker(b.k), NoTag, false)
    ensures b.(th := b.th[tv := d], k := b.k + 1).Valid()
  {
    SoundExtend(b.C, b.th, b.g, tv, d, b.k);
    hide Sound, Zoned, Breakers, Isolated, FromStart, Indexed, IsBroken, Newer;
  }

  lemma NamesPairedRenamed(bk: Breaks, st: FiniteState, tv: TypeVariable)
    requires NamesPaired(bk) && st.Tv?
    ensures NamesPaired(Renamed(bk, st, tv))
  {
    var bk' := Renamed(bk, st, tv);
    NotTwice(st);
    forall x ensures PairedAt(bk', x) {
      NotTwice(x);
      assert PairedAt(bk, x);
    }
  }

  /** What no replaced node has for a state may be named anew. */
  lemma BrokenRenamed(g0: Graph, g: Graph, bk: Breaks, s: nat, t: nat, st: FiniteState, tv: TypeVariable)
    requires IsBroken(g0, g, bk, s, t) && st !in bk.name && st.Not() !in bk.name
    ensures IsBroken(g0, g, Renamed(bk, st, tv), s, t)
  {
    var bk' := Renamed(bk, st, tv);
    forall n | n in bk.entry ensures g0.nodes[n] in bk'.name && bk'.name[g0.nodes[n]] == bk.name[g0.nodes[n]] {
      assert g0.nodes[n] in bk.name;
    }
    assert bk'.Redirected(g0.Arcs()) == bk.Redirected(g0.Arcs()) by {
      RenamedMoves(bk, st, tv, g0.Arcs());
    }
    RenamedPairs(bk, g0.nodes, st, tv, s, t);
  }

  lemma RenamedMoves(bk: Breaks, st: FiniteState, tv: TypeVariable, A: set<IdEdge>)
    ensures Renamed(bk, st, tv).Redirected(A) == bk.Redirected(A)
  {
    forall e ensures Renamed(bk, st, tv).Moved(e) == bk.Moved(e) {
    }
  }

  lemma RenamedPairs(bk: Breaks, nodes: map<nat, FiniteState>, st: FiniteState, tv: TypeVariable, s: nat, t: nat)
    requires bk.Fits(nodes) && Renamed(bk, st, tv).Fits(nodes)
    requires forall n | n in bk.entry :: Renamed(bk, st, tv).name[nodes[n]] == bk.name[nodes[n]]
    ensures Renamed(bk, st, tv).Pairs(nodes, s, t) == bk.Pairs(nodes, s, t)
  {
    hide BreakerEdges;
    var bk' := Renamed(bk, st, tv);
    forall n | n in bk.entry ensures bk'.PairOf(nodes, s, t, n) == bk.PairOf(nodes, s, t, n) {
    }
  }

  /** A state that no replaced node has, and its opposite, may be given a name. */
  lemma FreshName(b: Breaking, st: FiniteState, tv: TypeVariable)
    requires b.Valid() && NamesPaired(b.bk) && st.Tv? && st !in b.bk.name
    ensures b.(bk := Renamed(b.bk, st, tv)).Valid() && NamesPaired(Renamed(b.bk, st, tv))
  {
    hide Sound, Zoned, Older, Isolated, Breakers, FromStart, Indexed, Newer, IsBroken, Renamed, NamesPaired;
    NotNamed(b.bk, st);
    NamesPairedRenamed(b.bk, st, tv);
    RenamedName(b.bk, st, tv);
    BrokenRenamed(b.g0, b.g, b.bk, b.mp[Start], b.cantPop[End], st, tv);
  }

  lemma NotNamed(bk: Breaks, st: FiniteState)
    requires NamesPaired(bk) && st !in bk.name
    ensures st.Not() !in bk.name
  {
    NotTwice(st);
    assert PairedAt(bk, st.Not());
  }

  lemma NotTwice(st: FiniteState)
    ensures st.Not().Not() == st
  {
    NotNot(st);
  }

  function Renamed(bk: Breaks, st: FiniteState, tv: TypeVariable): Breaks {
    bk.(name := bk.name[st := tv][st.Not() := tv])
  }

  // ----- one more class -----

  /** A node's state and its opposite named by a fresh loop breaker that means what they denote. */
  ghost function WithName(b: Breaking, idx: nat, tv: TypeVariable): Breaking
    requires idx in b.g0.nodes && b.g0.nodes[idx].Tv?
  {
    var fs := b.g0.nodes[idx];
    b.(th := b.th[tv := Root(b.th, fs)], k := b.k + 1, bk := Renamed(b.bk, fs, tv))
  }

  /** What is known of a node that is about to be replaced: if it is there, it is one of the class. */
  ghost predicate InClass(b: Breaking, fs: FiniteState, i: nat) {
    && i < b.g.nextNode && (i in b.g.nodes <==> i in b.g0.nodes)
         && (i in b.g0.nodes ==> b.g0.nodes[i] == fs || b.g0.nodes[i] == fs.Not())
  }

  /** The class stands for what its fresh name means. */
  ghost predicate ClassNamed(b: Breaking, tv: TypeVariable, fs: FiniteState) {
    && fs.Tv? && fs in b.bk.name && b.bk.name[fs] == tv && fs.Not() in b.bk.name && b.bk.name[fs.Not()] == tv
    && MeaningOf(b.th, tv) == Root(b.th, fs) && Root(b.th, fs.Not()) == Root(b.th, fs)
    && !OldVar(tv, b.k0) && OldVar(tv, b.k)
  }

  lemma NamedIsValid(b: Breaking, idx: nat, tv: TypeVariable)
    requires b.Valid() && b.WholeClasses() && idx in b.g0.nodes && b.g0.nodes[idx].Tv? && idx !in b.removed
    requires tv == Breaker(b.k)
    ensures WithName(b, idx, tv).Valid() && NamesPaired(WithName(b, idx, tv).bk)
    ensures NamesMean(WithName(b, idx, tv).bk, WithName(b, idx, tv).th)
    ensures ClassNamed(WithName(b, idx, tv), tv, b.g0.nodes[idx])
  {
    hide Breaking.Valid, NamesPaired, Renamed;
    var fs := b.g0.nodes[idx];
    var d := Root(b.th, fs);
    EntriesAreRemoved(b);
    FreshMeaning(b, tv, d);
    FreshName(b.(th := b.th[tv := d], k := b.k + 1), fs, tv);
    BreakingFacts(b);
    RootsOfEquiv(b.th, b.th[tv := d], fs, tv, d, b.k0);
    assert WithName(b, idx, tv).bk.name == b.bk.name[fs := tv][fs.Not() := tv] by {
      RenamedName(b.bk, fs, tv);
    }
  }

  /** One more class, of a state on a cycle. */
  lemma NamesOnCyclesAdd(b: Breaking, idx: nat, tv: TypeVariable)
    requires idx in b.g0.nodes && b.g0.nodes[idx].Tv? && NamesOnCycles(b.g0, b.bk) && OnBigCycle(b.g0, idx)
    ensures NamesOnCycles(b.g0, WithName(b, idx, tv).bk)
  {
    hide OnBigCycle, StateOnCycle;
    var fs := b.g0.nodes[idx];
    RenamedName(b.bk, fs, tv);
    OwnStateOnCycle(b.g0, idx);
  }

  lemma SameNamesOnCycles(g0: Graph, bk: Breaks, bk': Breaks)
    requires NamesOnCycles(g0, bk) && bk'.name == bk.name
    ensures NamesOnCycles(g0, bk')
  {
  }

  lemma OwnStateOnCycle(g: Graph, n: nat)
    requires n in g.nodes && OnBigCycle(g, n)
    ensures StateOnCycle(g, g.nodes[n]) && StateOnCycle(g, g.nodes[n].Not())
  {
    hide OnBigCycle;
    NotTwice(g.nodes[n]);
  }

  lemma RenamedName(bk: Breaks, st: FiniteState, tv: TypeVariable)
    ensures Renamed(bk, st, tv).name == bk.name[st := tv][st.Not() := tv] && Renamed(bk, st, tv).entry == bk.entry
  {
  }

  lemma EntriesAreRemoved(b: Breaking)
    requires b.Valid()
    ensures b.bk.entry.Keys <= b.removed
  {
  }

  lemma RootsOfEquiv(th: Meaning, th': Meaning, fs: FiniteState, tv: TypeVariable, d: Dtv, k0: nat)
    requires fs.Tv? && OldState(fs, k0) && !OldVar(tv, k0) && d == Root(th, fs) && th' == th[tv := d]
    ensures Root(th', fs) == d && Root(th', fs.Not()) == d && MeaningOf(th', tv) == d
  {
  }

  /** The nodes of the class are what is left to replace. */
  lemma ClassToReplace(b: Breaking, idx: nat, tv: TypeVariable, eq: set<nat>)
    requires b.Valid() && b.WholeClasses() && idx in b.g0.nodes && b.g0.nodes[idx].Tv? && idx !in b.removed
    requires IsClass(b.mp, b.cantPop, b.g0.nodes[idx], eq)
    ensures ReplacedBut(b.g0, WithName(b, idx, tv).bk, eq) && idx in eq
    ensures forall i | i in eq :: InClass(WithName(b, idx, tv), b.g0.nodes[idx], i)
  {
    hide Breaking.Valid, IsClass, Renamed, NamesPaired, Root;
    var fs := b.g0.nodes[idx];
    BreakingFacts(b);
    RenamedName(b.bk, fs, tv);
    EntriesAreRemoved(b);
    NotNamed(b.bk, fs);
    ClassIsLabelled(b.g, b.mp, b.cantPop, b.g0.nodes, fs, eq);
    forall i | i in eq ensures InClass(WithName(b, idx, tv), fs, i) {
      ClassMember(b, fs, eq, i);
    }
  }

  lemma ClassMember(b: Breaking, fs: FiniteState, eq: set<nat>, i: nat)
    requires b.Valid() && IsClass(b.mp, b.cantPop, fs, eq) && i in eq && OldState(fs, b.k0) && fs.Tv?
    ensures i < b.g.nextNode && (i in b.g.nodes <==> i in b.g0.nodes)
  {
    hide Sound, Zoned, Older, Isolated, Breakers, FromStart, IsBroken;
  }

  /** The index of a state in one of the two maps. */
  predicate IsIndex(mp: map<FiniteState, nat>, st: FiniteState, i: nat) {
    st in mp && mp[st] == i
  }

  /** The indices of a state and of its opposite, in the original and in the copy. */
  ghost predicate IsClass(mp: map<FiniteState, nat>, cantPop: map<FiniteState, nat>, fs: FiniteState, eq: set<nat>) {
    forall i :: i in eq <==> || IsIndex(mp, fs, i) || IsIndex(mp, fs.Not(), i)
                             || IsIndex(cantPop, fs, i) || IsIndex(cantPop, fs.Not(), i)
  }

  /** Of the original nodes, exactly those labelled with the state or its opposite. */
  lemma ClassIsLabelled(g: Graph, mp: map<FiniteState, nat>, cantPop: map<FiniteState, nat>, lab: map<nat, FiniteState>,
                        fs: FiniteState, eq: set<nat>)
    requires Indexed(g, mp, cantPop, lab) && IsClass(mp, cantPop, fs, eq)
    ensures forall i | i in lab :: i in eq <==> lab[i] == fs || lab[i] == fs.Not()
  {
  }

  function Breaker(k: nat): TypeVariable {
    TypeVariable(LoopBreaker(k), NoTag, false)
  }

  /** While a class is replaced, todo being what is left of it. */
  ghost predicate Replacing(b0: Breaking, b: Breaking, tv: TypeVariable, fs: FiniteState, todo: set<nat>) {
    && Proceeds(b0, b) && b.th == b0.th && b.k == b0.k && b.bk.name == b0.bk.name
    && NamesPaired(b.bk) && NamesMean(b.bk, b.th) && ReplacedBut(b.g0, b.bk, todo) && ClassNamed(b, tv, fs)
    && forall i | i in todo :: InClass(b, fs, i)
  }

  lemma ReadyToSplit(b0: Breaking, b: Breaking, tv: TypeVariable, fs: FiniteState, todo: set<nat>, i: nat)
    requires Replacing(b0, b, tv, fs, todo) && i in todo && i in b.g.nodes
    ensures Splittable(b, i, tv)
  {
    hide NamesPaired, Root, MeaningOf;
    assert InClass(b, fs, i);
  }

  lemma ReplacingSplit(b0: Breaking, b: Breaking, tv: TypeVariable, fs: FiniteState, todo: set<nat>, i: nat, g': Graph)
    requires Replacing(b0, b, tv, fs, todo) && i in todo && i in b.g.nodes && b.g.nodes[i].Tv? && Extended(b.g, g')
    ensures Replacing(b0, AfterSplit(b, i, tv, g'), tv, fs, todo - {i})
  {
    hide NamesPaired, ClassNamed;
    var b' := AfterSplit(b, i, tv, g');
    assert InClass(b, fs, i);
    ReadyToSplit(b0, b, tv, fs, todo, i);
    assert NamesPaired(b'.bk) && ClassNamed(b', tv, fs) by {
      SameNames(b, b', tv, fs);
    }
    forall j | j in todo - {i} ensures InClass(b', fs, j) {
      assert InClass(b, fs, j);
    }
  }

  lemma SameNames(b: Breaking, b': Breaking, tv: TypeVariable, fs: FiniteState)
    requires NamesPaired(b.bk) && ClassNamed(b, tv, fs)
    requires b'.th == b.th && b'.k0 == b.k0 && b'.k == b.k && b'.bk.name == b.bk.name
    ensures NamesPaired(b'.bk) && ClassNamed(b', tv, fs)
  {
    hide Root, MeaningOf;
    forall st ensures PairedAt(b'.bk, st) {
      assert PairedAt(b.bk, st);
    }
  }

  lemma ReplacingGone(b0: Breaking, b: Breaking, tv: TypeVariable, fs: FiniteState, todo: set<nat>, i: nat)
    requires b.Valid() && Replacing(b0, b, tv, fs, todo) && i in todo && i !in b.g.nodes
    ensures b.(removed := b.removed + {i}).Valid() && Replacing(b0, b.(removed := b.removed + {i}), tv, fs, todo - {i})
  {
    hide Breaking.Valid, NamesPaired, ClassNamed;
    assert InClass(b, fs, i);
    RemovedGrows(b, i);
    SameNames(b, b.(removed := b.removed + {i}), tv, fs);
    forall j | j in todo - {i} ensures InClass(b.(removed := b.removed + {i}), fs, j) {
      assert InClass(b, fs, j);
    }
  }

  lemma NothingReplaced(b: Breaking)
    requires Begins(b)
    ensures b.WholeClasses() && MeaningsOf(b.th, b.k0, b.k) && NamesOnCycles(b.g0, b.bk)
  {
  }

  // ----- choosing what to replace -----

  /** The derived variable of a state, without its sign and side. */
  function RootVar(st: FiniteState): Dtv
    requires st.Tv?
  {
    Dtv(st.base.tv, st.path)
  }

  ghost predicate NoPrefixIn(lab: map<nat, FiniteState>, entries: set<nat>, x: nat)
    requires forall y | y in entries :: y in lab && lab[y].Tv?
    requires x in entries
  {
    forall y | y in entries :: !RootVar(lab[y]).IsPrefixOf(RootVar(lab[x]))
  }

  /** Some entry has no other entry's derived variable as a proper prefix. */
  lemma {:induction false} PrefixMinimalExists(lab: map<nat, FiniteState>, entries: set<nat>, x: nat) returns (m: nat)
    requires forall y | y in entries :: y in lab && lab[y].Tv?
    requires x in entries
    ensures m in entries && NoPrefixIn(lab, entries, m)
    decreases |lab[x].path|
  {
    if y :| y in entries && RootVar(lab[y]).IsPrefixOf(RootVar(lab[x])) {
      m := PrefixMinimalExists(lab, entries, y);
    } else {
      m := x;
    }
  }

  /** The meanings handed out so far are those of the loop breakers numbered k0 to k. */
  ghost predicate MeaningsOf(th: Meaning, k0: nat, k: nat) {
    forall tv | tv in th :: tv.name.LoopBreaker? && k0 <= tv.name.id < k
  }

  /** The nodes of a component that some edge enters from outside. */
  function Entries(g: Graph, scc: set<nat>): set<nat> {
    set e | e in g.Arcs() && e.dst in scc && e.src !in scc :: e.dst
  }

  /** A component worth breaking: nothing in it was replaced, and it holds type-variable states. */
  ghost predicate Breakable(lab: map<nat, FiniteState>, scc: set<nat>) {
    scc != {} && forall x | x in scc :: x in lab && lab[x].Tv?
  }

  /** The entries the source asserts to exist do exist. */
  lemma EntriesExist(b: Breaking, scc: set<nat>)
    requires b.Valid() && Breakable(b.g0.nodes, scc) && !Touches(scc, b.removed)
    ensures Entries(b.g, scc) != {} && Entries(b.g, scc) <= scc
  {
    hide Breaking.Valid, Sound, Breakers, Isolated, Indexed, IsBroken;
    BreakingFacts(b);
    var x :| x in scc;
    assert x in b.g0.nodes.Keys - b.removed - {b.cantPop[End]};
    var e := SetIsEntered(b.g, b.mp[Start], scc, x);
    assert e.dst in Entries(b.g, scc);
  }

  /** Every component of two or more nodes is breakable. */
  /** Every component of more than one node is worth breaking, and of nodes on cycles. */
  ghost predicate BigBreakable(g0: Graph, sccs: seq<set<nat>>) {
    forall j | 0 <= j < |sccs| && |sccs[j]| != 1 :: Breakable(g0.nodes, sccs[j]) && AllOnCycles(g0, sccs[j])
  }

  lemma BigSccsBreakable(b: Breaking, sccs: seq<set<nat>>)
    requires b.Valid() && SccsOf(b.g, sccs)
    ensures BigBreakable(b.g0, sccs)
  {
    hide Breaking.Valid, Sound, Breakers, Isolated, Indexed, IsScc, FromStart, IsBroken;
    BreakingFacts(b);
    forall j | 0 <= j < |sccs| && |sccs[j]| != 1
      ensures Breakable(b.g0.nodes, sccs[j]) && AllOnCycles(b.g0, sccs[j])
    {
      SccNonEmpty(b.g, sccs[j]);
      forall x | x in sccs[j] ensures x in b.g0.nodes && b.g0.nodes[x].Tv? {
        BigSccNode(b.C, b.th, b.g, b.mp[Start], b.cantPop[End], b.g0.nodes.Keys, sccs[j], x);
      }
      SccOnCycles(b, sccs[j]);
    }
  }

  lemma SccNonEmpty(g: Graph, S: set<nat>)
    requires IsScc(g, S)
    ensures S != {}
  {
  }

  /** The source takes the first such entry; any one will do. */
  method SelectAnEntryRepr(lab: map<nat, FiniteState>, entries: set<nat>) returns (m: nat)
    requires entries != {} && forall y | y in entries :: y in lab && lab[y].Tv?
    ensures m in entries && NoPrefixIn(lab, entries, m)
  {
    ghost var x :| x in entries;
    ghost var minimal := PrefixMinimalExists(lab, entries, x);
    m :| m in entries && forall y | y in entries :: !RootVar(lab[y]).IsPrefixOf(RootVar(lab[m]));
  }

  /** Some edge leads to x from outside the component. */
  ghost predicate EnteredAt(g: Graph, scc: set<nat>, x: nat) {
    x in scc && exists e :: e in g.Arcs() && e.dst == x && e.src !in scc
  }

  /** x's variable comes from y's by taking labels off the end. */
  ghost predicate Shortens(g: Graph, x: nat, y: nat) {
    && x in g.nodes && y in g.nodes && g.nodes[x].Tv? && g.nodes[y].Tv? && g.nodes[x].base.tv == g.nodes[y].base.tv
    && exists path :: path != [] && g.nodes[y].path == g.nodes[x].path + path
  }

  /** x is where the component is entered, and no other such node has a shorter variable that x's extends. */
  ghost predicate IsEntryRepr(g: Graph, scc: set<nat>, x: nat) {
    EnteredAt(g, scc, x) && forall y | EnteredAt(g, scc, y) :: !Shortens(g, y, x)
  }

  lemma SelectedIsEntryRepr(g: Graph, scc: set<nat>, x: nat)
    requires x in Entries(g, scc) && forall y | y in Entries(g, scc) :: y in g.nodes && g.nodes[y].Tv?
    requires NoPrefixIn(g.nodes, Entries(g, scc), x)
    ensures IsEntryRepr(g, scc, x)
  {
    forall y | EnteredAt(g, scc, y) ensures !Shortens(g, y, x) {
      assert y in Entries(g, scc);
      ShortensIsPrefix(g, y, x);
    }
  }

  lemma ShortensIsPrefix(g: Graph, x: nat, y: nat)
    requires x in g.nodes && y in g.nodes && g.nodes[x].Tv? && g.nodes[y].Tv?
    ensures Shortens(g, x, y) <==> RootVar(g.nodes[x]).IsPrefixOf(RootVar(g.nodes[y]))
  {
    PrefixExtends(RootVar(g.nodes[x]), RootVar(g.nodes[y]));
    if path :| path != [] && RootVar(g.nodes[y]) == RootVar(g.nodes[x]).Extend(path) {
      assert g.nodes[y].path == g.nodes[x].path + path;
    }
    if Shortens(g, x, y) {
      var path :| path != [] && g.nodes[y].path == g.nodes[x].path + path;
      assert RootVar(g.nodes[y]) == RootVar(g.nodes[x]).Extend(path);
    }
  }

  /** Partitions the nodes into classes of mutually reachable ones. */
  method StronglyConnectedComponents(g: Graph) returns (sccs: seq<set<nat>>)
    ensures SccsOf(g, sccs)
  {
    sccs := [];
    var todo := g.nodes.Keys;
    while todo != {}
      invariant todo <= g.nodes.Keys
      invariant forall j | 0 <= j < |sccs| :: IsScc(g, sccs[j])
      invariant forall x | x in g.nodes && x !in todo :: exists j :: 0 <= j < |sccs| && x in sccs[j]
    {
      var x :| x in todo;
      var ahead := ReachableSet(g.Arcs(), x);
      var behind := ReachableSet(Reverse(g.Arcs()), x);
      forall y ensures Reachable(Reverse(g.Arcs()), x, y) <==> Reachable(g.Arcs(), y, x) {
        ReachableReverse(g.Arcs(), y, x);
      }
      var scc := g.nodes.Keys * ahead * behind;
      ReachableSelf(g.Arcs(), x);
      assert IsScc(g, scc);
      ghost var before := sccs;
      sccs := sccs + [scc];
      todo := todo - scc;
      forall y | y in g.nodes && y !in todo ensures exists j :: 0 <= j < |sccs| && y in sccs[j] {
        if y in scc {
          assert sccs[|before|] == scc;
        } else {
          var j :| 0 <= j < |before| && y in before[j];
          assert sccs[j] == before[j];
        }
      }
    }
  }

  // ----- termination and outcome -----

  /** No two different nodes lie on a common cycle. */
  ghost predicate NoBigCycle(g: Graph) {
    forall x, y | x in g.nodes && y in g.nodes && x != y :: !Mutual(g, x, y)
  }

  ghost predicate SccsOf(g: Graph, sccs: seq<set<nat>>) {
    && (forall j | 0 <= j < |sccs| :: IsScc(g, sccs[j]))
    && (forall x | x in g.nodes :: exists j :: 0 <= j < |sccs| && x in sccs[j])
  }

  // ----- nothing is broken without need -----

  /** n lies on a cycle through another node. */
  ghost predicate OnBigCycle(g: Graph, n: nat) {
    exists m :: m in g.nodes && m != n && Mutual(g, n, m)
  }

  ghost predicate AllOnCycles(g: Graph, S: set<nat>) {
    forall x | x in S :: OnBigCycle(g, x)
  }

  /** Some node of the state or its opposite lies on such a cycle. */
  ghost predicate StateOnCycle(g: Graph, st: FiniteState) {
    exists n :: n in g.nodes && (g.nodes[n] == st || g.nodes[n] == st.Not()) && OnBigCycle(g, n)
  }

  /** Only states on cycles of the original graph have been given a loop breaker. */
  ghost predicate NamesOnCycles(g0: Graph, bk: Breaks) {
    forall st | st in bk.name :: StateOnCycle(g0, st)
  }

  /** An edge between original nodes is an original edge. */
  lemma ArcInside(b: Breaking, e: IdEdge)
    requires Start in b.mp && End in b.cantPop && e in b.g.Arcs()
    requires IsBroken(b.g0, b.g, b.bk, b.mp[Start], b.cantPop[End])
    requires e.src in b.g0.nodes && e.dst in b.g0.nodes
    ensures e in b.g0.Arcs()
  {
    PairsOutside(b.g0, b.g, b.bk, b.mp[Start], b.cantPop[End]);
    var e0 :| e0 in b.g0.Arcs() && e == b.bk.Moved(e0);
  }

  /** The edges of loop breakers lead to or from new nodes. */
  lemma PairsOutside(g0: Graph, g: Graph, bk: Breaks, s: nat, t: nat)
    requires IsBroken(g0, g, bk, s, t)
    ensures forall e | e in bk.Pairs(g0.nodes, s, t) :: e.src !in g0.nodes || e.dst !in g0.nodes
  {
    forall e | e in bk.Pairs(g0.nodes, s, t) ensures e.src !in g0.nodes || e.dst !in g0.nodes {
      var n :| n in bk.entry && e in bk.PairOf(g0.nodes, s, t, n);
      assert bk.entry[n] >= g0.nextNode && bk.exit[n] >= g0.nextNode;
    }
  }

  /** Inside a component of original nodes the original graph leads wherever the graph leads. */
  lemma {:induction false} ReachesInside(b: Breaking, S: set<nat>, x: nat, w: seq<FsaEdge>, y: nat)
    requires b.Valid() && IsScc(b.g, S) && x in S && y in S && (forall z | z in S :: z in b.g0.nodes)
    requires y in Run(b.g.Arcs(), {x}, w)
    ensures Reachable(b.g0.Arcs(), x, y)
    decreases |w|
  {
    hide Breaking.Valid, Reachable, IsBroken;
    BreakingFacts(b);
    if w == [] {
      ReachableSelf(b.g0.Arcs(), x);
    } else {
      var v, l := w[..|w| - 1], w[|w| - 1];
      assert w == v + [l];
      RunSnoc(b.g.Arcs(), {x}, v, l);
      var e :| e in b.g.Arcs() && e.src in Run(b.g.Arcs(), {x}, v) && e.lab == l && e.dst == y;
      BetweenInside(b.g, S, x, v, e);
      ReachesInside(b, S, x, v, e.src);
      ValidIsBroken(b);
      ArcInside(b, e);
      ReachableStep(b.g0.Arcs(), x, e);
    }
  }

  lemma ValidIsBroken(b: Breaking)
    requires b.Valid()
    ensures b.g0.Wf() && Start in b.mp && End in b.cantPop
    ensures IsBroken(b.g0, b.g, b.bk, b.mp[Start], b.cantPop[End])
  {
    hide Sound, Zoned, Older, Isolated, Breakers, FromStart, Indexed, Newer;
  }

  lemma BetweenInside(g: Graph, S: set<nat>, x: nat, v: seq<FsaEdge>, e: IdEdge)
    requires g.Wf() && IsScc(g, S) && x in S && e in g.Arcs() && e.dst in S && e.src in Run(g.Arcs(), {x}, v)
    ensures e.src in S
  {
    var A := g.Arcs();
    SccMutual(g, S, e.dst, x);
    assert Reachable(A, x, e.src);
    ReachableSelf(A, e.src);
    ReachableStep(A, e.src, e);
    ReachableTransitive(A, e.src, e.dst, x);
    var z :| z in S && z in g.nodes && forall y :: y in S <==> y in g.nodes && Mutual(g, z, y);
    SccMutual(g, S, z, x);
    ReachableTransitive(A, z, x, e.src);
    ReachableTransitive(A, e.src, x, z);
  }

  lemma MutualInside(b: Breaking, S: set<nat>, x: nat, y: nat)
    requires b.Valid() && IsScc(b.g, S) && x in S && y in S && (forall z | z in S :: z in b.g0.nodes)
    ensures Mutual(b.g0, x, y)
  {
    hide Breaking.Valid, IsScc;
    SccMutual(b.g, S, x, y);
    var u :| y in Run(b.g.Arcs(), {x}, u);
    var v :| x in Run(b.g.Arcs(), {y}, v);
    ReachesInside(b, S, x, u, y);
    ReachesInside(b, S, y, v, x);
  }

  /** Every node of a component to be broken lies on a cycle of the original graph. */
  lemma SccOnCycles(b: Breaking, S: set<nat>)
    requires b.Valid() && IsScc(b.g, S) && |S| != 1 && Breakable(b.g0.nodes, S)
    ensures AllOnCycles(b.g0, S)
  {
    hide Breaking.Valid, IsScc, Mutual;
    forall x | x in S ensures OnBigCycle(b.g0, x) {
      var y := OtherMember(S, x);
      MutualInside(b, S, x, y);
    }
  }

  lemma SmallScc(g: Graph, S: set<nat>, removed: set<nat>, x: nat, y: nat)
    requires IsScc(g, S) && Isolated(g, removed) && (|S| == 1 || Touches(S, removed))
    requires x in S && y in S
    ensures x == y
  {
    if |S| == 1 {
      SingletonScc(S, x, y);
    } else {
      var r :| r in S && r in removed;
      var q := OtherMember(S, r);
      SccMutual(g, S, q, r);
      var e := LastStep(g.Arcs(), q, r);
    }
  }

  /** When every component is a single node or holds an isolated one, no big cycle is left. */
  lemma SmallSccs(g: Graph, sccs: seq<set<nat>>, removed: set<nat>)
    requires SccsOf(g, sccs) && Isolated(g, removed)
    requires forall j | 0 <= j < |sccs| :: |sccs[j]| == 1 || Touches(sccs[j], removed)
    ensures NoBigCycle(g)
  {
    hide IsScc, Mutual, Isolated;
    forall x, y | x in g.nodes && y in g.nodes && x != y ensures !Mutual(g, x, y) {
      if Mutual(g, x, y) {
        var j :| 0 <= j < |sccs| && x in sccs[j];
        SameScc(g, sccs[j], x, y);
        SmallScc(g, sccs[j], removed, x, y);
      }
    }
  }

  lemma SameScc(g: Graph, S: set<nat>, x: nat, y: nat)
    requires IsScc(g, S) && x in S && y in g.nodes && Mutual(g, x, y)
    ensures y in S
  {
    var z :| z in S && z in g.nodes && forall y :: y in S <==> y in g.nodes && Mutual(g, z, y);
    ReachableTransitive(g.Arcs(), z, x, y);
    ReachableTransitive(g.Arcs(), y, x, z);
  }

  lemma SingletonScc(S: set<nat>, x: nat, y: nat)
    requires x in S && y in S && |S| == 1
    ensures x == y
  {
    var z :| z in S;
    assert S == {z} + (S - {z});
    assert S - {z} == {};
  }
}
