/**
 * The graph behind the automaton: states and edges under numeric ids that are never handed
 * out twice, and what the ids stand for at each stage of src/solver/constraint_graph.rs.
 */
module FsaGraph {
  import opened Graphs
  import opened Pushdown
  import opened PopPush

  type IdEdge = Arc<nat, FsaEdge>

  datatype Graph = Graph(nodes: map<nat, FiniteState>, edges: map<nat, IdEdge>, nextNode: nat, nextEdge: nat) {
    ghost predicate Wf() {
      && (forall i | i in nodes :: i < nextNode)
      && (forall k | k in edges :: k < nextEdge && edges[k].src in nodes && edges[k].dst in nodes)
    }

    function Arcs(): set<IdEdge> {
      set k | k in edges :: edges[k]
    }

    function AddNode(st: FiniteState): Graph {
      this.(nodes := nodes[nextNode := st], nextNode := nextNode + 1)
    }

    function AddEdge(a: nat, w: FsaEdge, b: nat): Graph {
      this.(edges := edges[nextEdge := Arc(a, w, b)], nextEdge := nextEdge + 1)
    }

    function RemoveEdge(k: nat): Graph {
      this.(edges := edges - {k})
    }

    /** A node goes together with the edges at it. */
    function RemoveNode(n: nat): Graph {
      this.(nodes := nodes - {n}, edges := map k | k in edges && edges[k].src != n && edges[k].dst != n :: edges[k])
    }
  }

  // ----- before the copy: one node per state -----

  function Def(g: Graph, e: IdEdge): EdgeDef
    requires e.src in g.nodes && e.dst in g.nodes
  {
    Arc(g.nodes[e.src], e.lab, g.nodes[e.dst])
  }

  function Defs(g: Graph): set<EdgeDef>
    requires g.Wf()
  {
    set k | k in g.edges :: Def(g, g.edges[k])
  }

  /** mp is the inverse of the node labelling. */
  ghost predicate Built(g: Graph, mp: map<FiniteState, nat>) {
    && g.Wf()
    && (forall s | s in mp :: mp[s] in g.nodes && g.nodes[mp[s]] == s)
    && (forall i | i in g.nodes :: g.nodes[i] in mp && mp[g.nodes[i]] == i)
  }

  // ----- after the copy: one node per place -----

  function PlaceOf(g: Graph, copies: set<nat>, i: nat): Place
    requires i in g.nodes
  {
    if i in copies then Copy(g.nodes[i]) else Orig(g.nodes[i])
  }

  function PlacedEdgeOf(g: Graph, copies: set<nat>, e: IdEdge): PlacedEdge
    requires e.src in g.nodes && e.dst in g.nodes
  {
    Arc(PlaceOf(g, copies, e.src), e.lab, PlaceOf(g, copies, e.dst))
  }

  function Placed(g: Graph, copies: set<nat>): set<PlacedEdge>
    requires g.Wf()
  {
    set k | k in g.edges :: PlacedEdgeOf(g, copies, g.edges[k])
  }

  /** mp and cantPop are the inverses of the node labelling on the original and on the copy. */
  ghost predicate Split(g: Graph, mp: map<FiniteState, nat>, cantPop: map<FiniteState, nat>, copies: set<nat>) {
    && g.Wf()
    && (forall s | s in mp :: mp[s] in g.nodes && g.nodes[mp[s]] == s && mp[s] !in copies)
    && (forall s | s in cantPop :: cantPop[s] in g.nodes && g.nodes[cantPop[s]] == s && cantPop[s] in copies)
    && (forall i | i in g.nodes && i !in copies :: g.nodes[i] in mp && mp[g.nodes[i]] == i)
    && (forall i | i in g.nodes && i in copies :: g.nodes[i] in cantPop && cantPop[g.nodes[i]] == i)
    && (forall i | i in copies :: i in g.nodes)
  }

  lemma AddNodePlaced(g: Graph, copies: set<nat>, st: FiniteState, more: set<nat>)
    requires g.Wf() && more <= {g.nextNode}
    ensures g.AddNode(st).Wf()
    ensures Placed(g.AddNode(st), copies + more) == Placed(g, copies)
  {
    var g' := g.AddNode(st);
    forall k | k in g.edges
      ensures PlacedEdgeOf(g', copies + more, g'.edges[k]) == PlacedEdgeOf(g, copies, g.edges[k])
    {
      assert g.edges[k].src != g.nextNode && g.edges[k].dst != g.nextNode;
    }
    assert g'.edges == g.edges;
    forall p | p in Placed(g, copies) ensures p in Placed(g', copies + more) {
      var k :| k in g.edges && p == PlacedEdgeOf(g, copies, g.edges[k]);
    }
  }

  lemma AddEdgeDefs(g: Graph, a: nat, w: FsaEdge, b: nat)
    requires g.Wf() && a in g.nodes && b in g.nodes
    ensures g.AddEdge(a, w, b).Wf()
    ensures Defs(g.AddEdge(a, w, b)) == Defs(g) + {Def(g, Arc(a, w, b))}
  {
    var g' := g.AddEdge(a, w, b);
    forall p | p in Defs(g) ensures p in Defs(g') {
      var k :| k in g.edges && p == Def(g, g.edges[k]);
      assert g'.edges[k] == g.edges[k];
    }
    assert g'.edges[g.nextEdge] == Arc(a, w, b);
  }

  lemma AddNodeDefs(g: Graph, st: FiniteState)
    requires g.Wf()
    ensures g.AddNode(st).Wf()
    ensures Defs(g.AddNode(st)) == Defs(g)
  {
    var g' := g.AddNode(st);
    forall k | k in g.edges ensures Def(g', g'.edges[k]) == Def(g, g.edges[k]) {
      assert g.edges[k].src != g.nextNode && g.edges[k].dst != g.nextNode;
    }
    forall p | p in Defs(g) ensures p in Defs(g') {
      var k :| k in g.edges && p == Def(g, g.edges[k]);
    }
  }

  /** g' extends g: the old nodes keep their labels and their zone. */
  ghost predicate Extends(g: Graph, copies: set<nat>, g': Graph, copies': set<nat>) {
    && g.Wf() && g'.Wf()
    && (forall i | i in g.nodes :: i in g'.nodes && g'.nodes[i] == g.nodes[i] && (i in copies' <==> i in copies))
  }

  lemma SplitCopy(g: Graph, mp: map<FiniteState, nat>, cantPop: map<FiniteState, nat>, copies: set<nat>,
                  st: FiniteState)
    requires Split(g, mp, cantPop, copies)
    ensures g.Wf() && Extends(g, copies, g, copies)
    ensures st in cantPop ==> cantPop[st] in copies && cantPop[st] in g.nodes && g.nodes[cantPop[st]] == st
  {
  }

  /** A further copied node changes nothing about the others. */
  lemma AddCopyKeeps(g: Graph, mp: map<FiniteState, nat>, cantPop: map<FiniteState, nat>, copies: set<nat>,
                     st: FiniteState)
    requires Split(g, mp, cantPop, copies) && st !in cantPop
    ensures Split(g.AddNode(st), mp, cantPop[st := g.nextNode], copies + {g.nextNode})
    ensures Extends(g, copies, g.AddNode(st), copies + {g.nextNode})
  {
  }

  lemma ExtendsPlace(g: Graph, copies: set<nat>, g': Graph, copies': set<nat>, e: IdEdge)
    requires Extends(g, copies, g', copies') && e.src in g.nodes && e.dst in g.nodes
    ensures PlacedEdgeOf(g', copies', e) == PlacedEdgeOf(g, copies, e)
  {
  }

  /** The edge with id k becomes its part of the intersection; the other edges stay. */
  ghost predicate Intersects(g: Graph, g': Graph, copies': set<nat>, k: nat, e: EdgeDef)
    requires g'.Wf()
  {
    && (forall p | p in IntersectedOf(e) :: p in Placed(g', copies'))
    && (forall j | j in g'.edges ::
          (j in g.edges && g'.edges[j] == g.edges[j] && (j == k ==> !e.lab.Push?))
          || PlacedEdgeOf(g', copies', g'.edges[j]) in IntersectedOf(e))
    && (forall j | j in g.edges && j != k :: j in g'.edges && g'.edges[j] == g.edges[j])
  }

  /** The edge updates of the source's loop body, once the copied nodes are there. */
  function IntersectAt(g: Graph, k: nat, nsrc: nat, ndst: nat): Graph
    requires k in g.edges
  {
    var e := g.edges[k];
    if e.lab.Push? then g.AddEdge(e.src, e.lab, ndst).RemoveEdge(k).AddEdge(nsrc, e.lab, ndst)
    else if e.lab.Success? then g.AddEdge(nsrc, e.lab, ndst)
    else g
  }

  lemma IntersectAtEffect(g: Graph, copies: set<nat>, k: nat, nsrc: nat, ndst: nat)
    requires g.Wf() && k in g.edges && g.edges[k].src !in copies && g.edges[k].dst !in copies
    requires g.edges[k].lab.Push? || g.edges[k].lab.Success? ==>
               && nsrc in g.nodes && ndst in g.nodes && nsrc in copies && ndst in copies
               && g.nodes[nsrc] == g.nodes[g.edges[k].src] && g.nodes[ndst] == g.nodes[g.edges[k].dst]
    ensures var g' := IntersectAt(g, k, nsrc, ndst);
            g'.Wf() && g'.nodes == g.nodes && Intersects(g, g', copies, k, Def(g, g.edges[k]))
  {
    var g', e := IntersectAt(g, k, nsrc, ndst), g.edges[k];
    if e.lab.Push? {
      assert g'.edges[g.nextEdge] == Arc(e.src, e.lab, ndst);
      assert g'.edges[g.nextEdge + 1] == Arc(nsrc, e.lab, ndst);
    } else if e.lab.Success? {
      assert g'.edges[k] == e && g'.edges[g.nextEdge] == Arc(nsrc, e.lab, ndst);
    } else {
      assert g'.edges[k] == e;
    }
  }

  lemma IntersectAtKeeps(g0: Graph, copies0: set<nat>, g: Graph, mp: map<FiniteState, nat>,
                         cantPop: map<FiniteState, nat>, copies: set<nat>, k: nat, nsrc: nat, ndst: nat)
    requires Extends(g0, copies0, g, copies) && g.edges == g0.edges && Split(g, mp, cantPop, copies)
    requires g0.Wf() && k in g.edges && g.edges[k].src !in copies0 && g.edges[k].dst !in copies0
    requires g.edges[k].lab.Push? || g.edges[k].lab.Success? ==>
               && nsrc in g.nodes && ndst in g.nodes && nsrc in copies && ndst in copies
               && g.nodes[nsrc] == g.nodes[g.edges[k].src] && g.nodes[ndst] == g.nodes[g.edges[k].dst]
    ensures var g' := IntersectAt(g, k, nsrc, ndst);
            && Split(g', mp, cantPop, copies) && Extends(g0, copies0, g', copies)
            && Intersects(g0, g', copies, k, Def(g0, g0.edges[k]))
  {
    hide Intersects, IntersectAt;
    IntersectAtEffect(g, copies, k, nsrc, ndst);
    IntersectsFrom(g0, g, IntersectAt(g, k, nsrc, ndst), copies, k, Def(g0, g0.edges[k]));
  }

  lemma EdgeEndsInMap(g: Graph, mp: map<FiniteState, nat>, cantPop: map<FiniteState, nat>, copies: set<nat>, k: nat)
    requires Split(g, mp, cantPop, copies) && k in g.edges && g.edges[k].src !in copies && g.edges[k].dst !in copies
    ensures g.Wf() && g.edges[k].src in g.nodes && g.nodes[g.edges[k].src] in mp
    ensures g.edges[k].dst in g.nodes && g.nodes[g.edges[k].dst] in mp
    ensures Extends(g, copies, g, copies)
  {
  }

  lemma IntersectsFrom(g0: Graph, g: Graph, g': Graph, copies': set<nat>, k: nat, e: EdgeDef)
    requires g'.Wf() && g.edges == g0.edges && Intersects(g, g', copies', k, e)
    ensures Intersects(g0, g', copies', k, e)
  {
  }

  /** Midway through the loop: todo is untouched, everything else is the intersection of done. */
  ghost predicate Halfway(g0: Graph, g: Graph, copies: set<nat>, todo: set<nat>, done: set<EdgeDef>) {
    && Extends(g0, {}, g, copies)
    && (forall k | k in todo :: k in g0.edges && k in g.edges && g.edges[k] == g0.edges[k])
    && done == (set k | k in g0.edges && k !in todo :: Def(g0, g0.edges[k]))
    && (forall e, p | e in done && p in IntersectedOf(e) :: p in Placed(g, copies))
    && (forall j | j in g.edges && j !in todo ::
          exists e :: e in done && PlacedEdgeOf(g, copies, g.edges[j]) in IntersectedOf(e))
  }

  lemma HalfwayStart(g0: Graph, mp: map<FiniteState, nat>)
    requires Built(g0, mp)
    ensures Split(g0, mp, map[], {})
    ensures Halfway(g0, g0, {}, g0.edges.Keys, {})
  {
  }

  lemma HalfwayReady(g0: Graph, g: Graph, copies: set<nat>, todo: set<nat>, done: set<EdgeDef>, k: nat)
    requires Halfway(g0, g, copies, todo, done) && k in todo
    ensures g.Wf() && k in g0.edges && k in g.edges && g.edges[k].src !in copies && g.edges[k].dst !in copies
    ensures g0.Wf() && Def(g, g.edges[k]) == Def(g0, g0.edges[k])
  {
  }

  lemma HalfwayEnd(g0: Graph, g: Graph, copies: set<nat>, done: set<EdgeDef>)
    requires Halfway(g0, g, copies, {}, done)
    ensures Placed(g, copies) == Intersected(Defs(g0))
  {
    assert done == Defs(g0);
    IntersectedIsUnion(done);
  }

  lemma HalfwayPlaced(g0: Graph, g: Graph, copies: set<nat>, g': Graph, copies': set<nat>,
                      k: nat, todo: set<nat>, done: set<EdgeDef>, e: EdgeDef, p: PlacedEdge)
    requires Halfway(g0, g, copies, todo, done) && k in todo
    requires Extends(g, copies, g', copies') && Intersects(g, g', copies', k, Def(g0, g0.edges[k]))
    requires e in done && p in IntersectedOf(e)
    ensures p in Placed(g', copies')
  {
    assert p in Placed(g, copies);
    var j :| j in g.edges && p == PlacedEdgeOf(g, copies, g.edges[j]);
    ExtendsPlace(g, copies, g', copies', g.edges[j]);
    if j == k {
      // an edge of the original part that is itself being processed is a pop or a success edge
      assert g.edges[k] == g0.edges[k];
      assert p in IntersectedOf(Def(g0, g0.edges[k]));
    } else {
      assert j in g'.edges && g'.edges[j] == g.edges[j];
    }
  }

  lemma HalfwayStep(g0: Graph, g: Graph, copies: set<nat>, g': Graph, copies': set<nat>,
                    k: nat, todo: set<nat>, done: set<EdgeDef>)
    requires Halfway(g0, g, copies, todo, done) && k in todo
    requires Extends(g, copies, g', copies') && Intersects(g, g', copies', k, Def(g0, g0.edges[k]))
    ensures Halfway(g0, g', copies', todo - {k}, done + {Def(g0, g0.edges[k])})
  {
    var e0 := Def(g0, g0.edges[k]);
    var todo', done' := todo - {k}, done + {e0};
    forall e, p | e in done' && p in IntersectedOf(e) ensures p in Placed(g', copies') {
      if e in done {
        HalfwayPlaced(g0, g, copies, g', copies', k, todo, done, e, p);
      }
    }
    forall j | j in g'.edges && j !in todo'
      ensures exists e :: e in done' && PlacedEdgeOf(g', copies', g'.edges[j]) in IntersectedOf(e)
    {
      if PlacedEdgeOf(g', copies', g'.edges[j]) !in IntersectedOf(e0) {
        ExtendsPlace(g, copies, g', copies', g.edges[j]);
        var e :| e in done && PlacedEdgeOf(g, copies, g.edges[j]) in IntersectedOf(e);
        assert e in done';
      } else {
        assert e0 in done';
      }
    }
    assert done' == (set j | j in g0.edges && j !in todo' :: Def(g0, g0.edges[j])) by {
      forall j | j in g0.edges && j !in todo' ensures Def(g0, g0.edges[j]) in done' {
      }
    }
  }

  // ----- removing nodes -----

  function Keep(g: Graph, K: set<nat>): Graph {
    g.(nodes := map i | i in g.nodes && i in K :: g.nodes[i],
       edges := map k | k in g.edges && g.edges[k].src in K && g.edges[k].dst in K :: g.edges[k])
  }

  /** Both graphs spell the same words from s to t. */
  ghost predicate SameWords(g0: Graph, g: Graph, s: nat, t: nat) {
    forall w :: t in Run(g.Arcs(), {s}, w) <==> t in Run(g0.Arcs(), {s}, w)
  }

  lemma KeepArcs(g: Graph, K: set<nat>)
    requires g.Wf()
    ensures Keep(g, K).Wf()
    ensures Keep(g, K).Arcs() == set e | e in g.Arcs() && e.src in K && e.dst in K
  {
    var g' := Keep(g, K);
    forall e | e in g.Arcs() && e.src in K && e.dst in K ensures e in g'.Arcs() {
      var k :| k in g.edges && g.edges[k] == e;
      assert k in g'.edges && g'.edges[k] == e;
    }
  }

  lemma KeepAll(g: Graph)
    requires g.Wf()
    ensures Keep(g, g.nodes.Keys) == g
  {
    assert Keep(g, g.nodes.Keys).edges == g.edges;
    assert Keep(g, g.nodes.Keys).nodes == g.nodes;
  }

  lemma RemoveNodeKeep(g: Graph, K: set<nat>, n: nat)
    ensures Keep(g, K).RemoveNode(n) == Keep(g, K - {n})
  {
    var a, b := Keep(g, K).RemoveNode(n), Keep(g, K - {n});
    assert a.nodes == b.nodes;
    assert a.edges.Keys == b.edges.Keys;
  }

  // ----- moving edges from one node to another -----

  /** Retargets (incoming) or re-sources (outgoing) an edge at the node from. */
  function Moved(e: IdEdge, from: nat, to: nat, incoming: bool): IdEdge {
    if incoming && e.dst == from then e.(dst := to)
    else if !incoming && e.src == from then e.(src := to)
    else e
  }

  function MovedArcs(A: set<IdEdge>, from: nat, to: nat, incoming: bool): set<IdEdge> {
    set e | e in A :: Moved(e, from, to, incoming)
  }

  ghost predicate Untouched(g0: Graph, g: Graph, todo: set<nat>) {
    && g.Wf() && g.nodes == g0.nodes && g.nextNode == g0.nextNode
    && (forall k | k in todo :: k in g0.edges && k in g.edges && g.edges[k] == g0.edges[k])
  }

  ghost predicate OnlyMoved(g0: Graph, g: Graph, todo: set<nat>, from: nat, to: nat, incoming: bool) {
    forall j | j in g.edges && j !in todo ::
      exists k :: k in g0.edges && g.edges[j] == Moved(g0.edges[k], from, to, incoming)
  }

  ghost predicate AllMoved(g0: Graph, g: Graph, todo: set<nat>, from: nat, to: nat, incoming: bool) {
    forall k | k in g0.edges && k !in todo ::
      exists j :: j in g.edges && j !in todo && g.edges[j] == Moved(g0.edges[k], from, to, incoming)
  }

  lemma OnlyMovedStep(g0: Graph, g: Graph, todo: set<nat>, from: nat, to: nat, incoming: bool, k: nat)
    requires Untouched(g0, g, todo) && k in todo && to in g.nodes
    requires OnlyMoved(g0, g, todo, from, to, incoming)
    ensures var e := Moved(g0.edges[k], from, to, incoming);
            var g' := g.RemoveEdge(k).AddEdge(e.src, e.lab, e.dst);
            Untouched(g0, g', todo - {k}) && OnlyMoved(g0, g', todo - {k}, from, to, incoming)
  {
  }

  lemma AllMovedStep(g0: Graph, g: Graph, todo: set<nat>, from: nat, to: nat, incoming: bool, k: nat)
    requires Untouched(g0, g, todo) && k in todo && to in g.nodes
    requires AllMoved(g0, g, todo, from, to, incoming)
    ensures var e := Moved(g0.edges[k], from, to, incoming);
            AllMoved(g0, g.RemoveEdge(k).AddEdge(e.src, e.lab, e.dst), todo - {k}, from, to, incoming)
  {
    var e := Moved(g0.edges[k], from, to, incoming);
    var g', todo' := g.RemoveEdge(k).AddEdge(e.src, e.lab, e.dst), todo - {k};
    forall m | m in g0.edges && m !in todo'
      ensures exists j :: j in g'.edges && j !in todo' && g'.edges[j] == Moved(g0.edges[m], from, to, incoming)
    {
      if m == k {
        assert g'.edges[g.nextEdge] == e && g.nextEdge !in todo';
      } else {
        var j :| j in g.edges && j !in todo && g.edges[j] == Moved(g0.edges[m], from, to, incoming);
        assert g'.edges[j] == g.edges[j];
      }
    }
  }

  lemma OnlyMovedEnd(g0: Graph, g: Graph, from: nat, to: nat, incoming: bool)
    requires OnlyMoved(g0, g, {}, from, to, incoming)
    ensures g.Arcs() <= MovedArcs(g0.Arcs(), from, to, incoming)
  {
    forall a | a in g.Arcs() ensures a in MovedArcs(g0.Arcs(), from, to, incoming) {
      var j :| j in g.edges && g.edges[j] == a;
      var k :| k in g0.edges && a == Moved(g0.edges[k], from, to, incoming);
      assert g0.edges[k] in g0.Arcs();
    }
  }

  lemma AllMovedEnd(g0: Graph, g: Graph, from: nat, to: nat, incoming: bool)
    requires AllMoved(g0, g, {}, from, to, incoming)
    ensures MovedArcs(g0.Arcs(), from, to, incoming) <= g.Arcs()
  {
    forall a | a in MovedArcs(g0.Arcs(), from, to, incoming) ensures a in g.Arcs() {
      var e :| e in g0.Arcs() && a == Moved(e, from, to, incoming);
      var k :| k in g0.edges && g0.edges[k] == e;
    }
  }

  /** Removes every edge that has to move and adds it again at its new place. */
  method MoveEdges(g: Graph, from: nat, to: nat, incoming: bool) returns (g': Graph)
    requires g.Wf() && from in g.nodes && to in g.nodes
    ensures g'.Wf() && g'.nodes == g.nodes && g'.nextNode == g.nextNode
    ensures g'.Arcs() == MovedArcs(g.Arcs(), from, to, incoming)
  {
    g' := g;
    var todo := set k | k in g.edges && (if incoming then g.edges[k].dst == from else g.edges[k].src == from);
    assert OnlyMoved(g, g', todo, from, to, incoming) && AllMoved(g, g', todo, from, to, incoming);
    hide OnlyMoved, AllMoved, MovedArcs;
    while todo != {}
      invariant Untouched(g, g', todo)
      invariant OnlyMoved(g, g', todo, from, to, incoming) && AllMoved(g, g', todo, from, to, incoming)
    {
      var k :| k in todo;
      var e := Moved(g'.edges[k], from, to, incoming);
      OnlyMovedStep(g, g', todo, from, to, incoming, k);
      AllMovedStep(g, g', todo, from, to, incoming, k);
      g' := g'.RemoveEdge(k).AddEdge(e.src, e.lab, e.dst);
      todo := todo - {k};
    }
    OnlyMovedEnd(g, g', from, to, incoming);
    AllMovedEnd(g, g', from, to, incoming);
  }
}
