/** Explicit automata and their boolean operations (src/solver/dfa_operations.rs). */
module DfaOperations {
  import opened Graphs

  datatype Dfa<A(==)> = Dfa(entry: nat, edges: set<Arc<nat, A>>, accepts: set<nat>, all: set<nat>)

  ghost predicate Accepts<A>(d: Dfa<A>, w: seq<A>) {
    Run(d.edges, {d.entry}, w) * d.accepts != {}
  }

  ghost predicate Over<A>(w: seq<A>, sigma: set<A>) {
    forall a | a in w :: a in sigma
  }

  ghost predicate InRange<A(!new)>(d: Dfa<A>, sigma: set<A>) {
    && d.entry in d.all && d.accepts <= d.all
    && (forall e | e in d.edges :: e.src in d.all && e.dst in d.all && e.lab in sigma)
  }

  /** What the operations expect of an automaton: exactly one edge for each node and letter. */
  ghost predicate Complete<A(!new)>(d: Dfa<A>, sigma: set<A>) {
    && InRange(d, sigma) && Deterministic(d.edges)
    && (forall q, a | q in d.all && a in sigma :: Step(d.edges, {q}, a) != {})
  }

  lemma {:induction false} CompleteRun<A(!new)>(d: Dfa<A>, sigma: set<A>, Q: set<nat>, w: seq<A>)
    requires Complete(d, sigma) && Q != {} && Q <= d.all
    ensures Run(d.edges, Q, w) <= d.all
    ensures Run(d.edges, Q, w) != {} <==> Over(w, sigma)
    decreases |w|
  {
    if w != [] {
      var next := Step(d.edges, Q, w[0]);
      if w[0] in sigma {
        var q :| q in Q;
        var e :| e in d.edges && e.src in {q} && e.lab == w[0];
        assert e.dst in next;
        CompleteRun(d, sigma, next, w[1..]);
        assert w == [w[0]] + w[1..];
      } else {
        assert next == {};
        RunOfNothing(d.edges, w[1..]);
      }
    }
  }

  // ----- numbering of pairs -----

  ghost predicate Injective<T(!new)>(m: map<T, nat>) {
    forall x, y | x in m && y in m && m[x] == m[y] :: x == y
  }

  ghost predicate Extends<T(!new)>(m: map<T, nat>, m': map<T, nat>) {
    forall x | x in m :: x in m' && m'[x] == m[x]
  }

  class IdContext<T(==, !new)> {
    var cid: nat
    var mp: map<T, nat>

    ghost predicate Valid()
      reads this
    {
      Injective(mp) && forall x | x in mp :: mp[x] < cid
    }

    constructor ()
      ensures Valid() && mp == map[]
    {
      cid, mp := 0, map[];
    }

    /** The number of nd, a new one when nd is new. */
    method GetNode(nd: T) returns (id: nat)
      requires Valid()
      modifies this
      ensures Valid() && Extends(old(mp), mp) && mp.Keys == old(mp.Keys) + {nd} && mp[nd] == id
    {
      if nd in mp {
        return mp[nd];
      }
      id := cid;
      cid, mp := cid + 1, mp[nd := id];
    }

    method GetNodes(nds: set<T>) returns (ids: set<nat>)
      requires Valid()
      modifies this
      ensures Valid() && Extends(old(mp), mp) && mp.Keys == old(mp.Keys) + nds && ids == set x | x in nds :: mp[x]
    {
      ids := {};
      var todo := nds;
      while todo != {}
        invariant Valid() && Extends(old(mp), mp) && mp.Keys == old(mp.Keys) + (nds - todo) && todo <= nds
        invariant ids == set x | x in nds - todo :: mp[x]
      {
        var x :| x in todo;
        ghost var before := mp;
        var id := GetNode(x);
        NamesKept(before, mp, nds - todo);
        assert nds - (todo - {x}) == (nds - todo) + {x};
        ids, todo := ids + {id}, todo - {x};
      }
    }
  }

  lemma NamesKept<T(!new)>(m: map<T, nat>, m': map<T, nat>, S: set<T>)
    requires Extends(m, m') && S <= m.Keys
    ensures S <= m'.Keys && (set x | x in S :: m[x]) == set x | x in S :: m'[x]
  {
    assert forall x | x in S :: m[x] == m'[x];
  }

  // ----- renaming the nodes of a graph -----

  ghost function Named<S(!new)>(ids: map<S, nat>, Q: set<S>): set<nat>
    requires Q <= ids.Keys
  {
    set q | q in Q :: ids[q]
  }

  ghost function NamedArc<S(!new), A>(ids: map<S, nat>, e: Arc<S, A>): Arc<nat, A>
    requires e.src in ids && e.dst in ids
  {
    Arc(ids[e.src], e.lab, ids[e.dst])
  }

  ghost predicate EndsIn<S, A(!new)>(E: set<Arc<S, A>>, Q: set<S>) {
    forall e | e in E :: e.src in Q && e.dst in Q
  }

  ghost function NamedArcs<S(!new), A(!new)>(ids: map<S, nat>, E: set<Arc<S, A>>): set<Arc<nat, A>>
    requires EndsIn(E, ids.Keys)
  {
    set e | e in E :: NamedArc(ids, e)
  }

  /** An injective renaming changes no run. */
  lemma {:induction false} NamedRun<S(!new), A(!new)>(ids: map<S, nat>, E: set<Arc<S, A>>, Q: set<S>, w: seq<A>)
    requires Injective(ids) && EndsIn(E, ids.Keys) && Q <= ids.Keys
    ensures Run(E, Q, w) <= ids.Keys && Run(NamedArcs(ids, E), Named(ids, Q), w) == Named(ids, Run(E, Q, w))
    decreases |w|
  {
    if w != [] {
      NamedStep(ids, E, Q, w[0]);
      NamedRun(ids, E, Step(E, Q, w[0]), w[1..]);
    }
  }

  lemma NamedStep<S(!new), A(!new)>(ids: map<S, nat>, E: set<Arc<S, A>>, Q: set<S>, a: A)
    requires Injective(ids) && EndsIn(E, ids.Keys) && Q <= ids.Keys
    ensures Step(E, Q, a) <= ids.Keys && Step(NamedArcs(ids, E), Named(ids, Q), a) == Named(ids, Step(E, Q, a))
  {
    forall x | x in Named(ids, Step(E, Q, a)) ensures x in Step(NamedArcs(ids, E), Named(ids, Q), a) {
      var e :| e in E && e.src in Q && e.lab == a && ids[e.dst] == x;
      assert NamedArc(ids, e) in NamedArcs(ids, E) && ids[e.src] in Named(ids, Q);
    }
    forall x | x in Step(NamedArcs(ids, E), Named(ids, Q), a) ensures x in Named(ids, Step(E, Q, a)) {
      var f :| f in NamedArcs(ids, E) && f.src in Named(ids, Q) && f.lab == a && f.dst == x;
      var e :| e in E && NamedArc(ids, e) == f;
      assert e.dst in Step(E, Q, a);
    }
  }

  // ----- products -----

  type Pair = (nat, nat)

  function Pairs(P: set<nat>, Q: set<nat>): set<Pair> {
    set p, q | p in P && q in Q :: (p, q)
  }

  /** Both automata moving together. */
  ghost function PairArcs<A(!new)>(E: set<Arc<nat, A>>, F: set<Arc<nat, A>>): set<Arc<Pair, A>> {
    set e, f | e in E && f in F && e.lab == f.lab :: Arc((e.src, f.src), e.lab, (e.dst, f.dst))
  }

  lemma {:induction false} PairRun<A(!new)>(E: set<Arc<nat, A>>, F: set<Arc<nat, A>>, P: set<nat>, Q: set<nat>,
                                            w: seq<A>)
    ensures Run(PairArcs(E, F), Pairs(P, Q), w) == Pairs(Run(E, P, w), Run(F, Q, w))
    decreases |w|
  {
    if w != [] {
      PairStep(E, F, P, Q, w[0]);
      PairRun(E, F, Step(E, P, w[0]), Step(F, Q, w[0]), w[1..]);
    }
  }

  lemma PairStep<A(!new)>(E: set<Arc<nat, A>>, F: set<Arc<nat, A>>, P: set<nat>, Q: set<nat>, a: A)
    ensures Step(PairArcs(E, F), Pairs(P, Q), a) == Pairs(Step(E, P, a), Step(F, Q, a))
  {
    forall x | x in Pairs(Step(E, P, a), Step(F, Q, a)) ensures x in Step(PairArcs(E, F), Pairs(P, Q), a) {
      var e :| e in E && e.src in P && e.lab == a && e.dst == x.0;
      var f :| f in F && f.src in Q && f.lab == a && f.dst == x.1;
      var g := Arc((e.src, f.src), a, (e.dst, f.dst));
      assert g in PairArcs(E, F) && g.src in Pairs(P, Q) && g.dst == x;
    }
    forall x | x in Step(PairArcs(E, F), Pairs(P, Q), a) ensures x in Pairs(Step(E, P, a), Step(F, Q, a)) {
      var g :| g in PairArcs(E, F) && g.src in Pairs(P, Q) && g.lab == a && g.dst == x;
      var e, f :| e in E && f in F && e.lab == f.lab && g == Arc((e.src, f.src), e.lab, (e.dst, f.dst));
      assert e.dst in Step(E, P, a) && f.dst in Step(F, Q, a);
    }
  }

  ghost predicate PairAccepts<A(!new)>(l: Dfa<A>, r: Dfa<A>, either: bool, p: Pair) {
    if either then p.0 in l.accepts || p.1 in r.accepts else p.0 in l.accepts && p.1 in r.accepts
  }

  /** d is the product of l and r with its pairs numbered by ids. */
  ghost predicate IsProduct<A(!new)>(l: Dfa<A>, r: Dfa<A>, either: bool, d: Dfa<A>, ids: map<Pair, nat>) {
    && Injective(ids) && ids.Keys == Pairs(l.all, r.all) && EndsIn(PairArcs(l.edges, r.edges), ids.Keys)
    && (l.entry, r.entry) in ids && d.entry == ids[(l.entry, r.entry)]
    && d.edges == NamedArcs(ids, PairArcs(l.edges, r.edges))
    && d.accepts == (set p | p in ids && PairAccepts(l, r, either, p) :: ids[p])
    && d.all == Named(ids, ids.Keys)
  }

  /** The states the product can be in after a word, in terms of the two automata. */
  lemma ProductRun<A(!new)>(l: Dfa<A>, r: Dfa<A>, either: bool, d: Dfa<A>, ids: map<Pair, nat>, w: seq<A>)
    requires IsProduct(l, r, either, d, ids)
    ensures Pairs(Run(l.edges, {l.entry}, w), Run(r.edges, {r.entry}, w)) <= ids.Keys
    ensures Run(d.edges, {d.entry}, w) == Named(ids, Pairs(Run(l.edges, {l.entry}, w), Run(r.edges, {r.entry}, w)))
  {
    assert Pairs({l.entry}, {r.entry}) == {(l.entry, r.entry)};
    assert Named(ids, {(l.entry, r.entry)}) == {d.entry};
    PairRun(l.edges, r.edges, {l.entry}, {r.entry}, w);
    NamedRun(ids, PairArcs(l.edges, r.edges), {(l.entry, r.entry)}, w);
  }

  /** Accepting pairs on both sides gives the intersection, on either side the union. */
  lemma ProductLanguage<A(!new)>(l: Dfa<A>, r: Dfa<A>, either: bool, d: Dfa<A>, ids: map<Pair, nat>, sigma: set<A>,
                                 w: seq<A>)
    requires IsProduct(l, r, either, d, ids) && Complete(l, sigma) && Complete(r, sigma)
    ensures Accepts(d, w) <==> if either then Accepts(l, w) || Accepts(r, w) else Accepts(l, w) && Accepts(r, w)
  {
    ProductRun(l, r, either, d, ids, w);
    CompleteRun(l, sigma, {l.entry}, w);
    CompleteRun(r, sigma, {r.entry}, w);
    AcceptingPair(l, r, either, d, ids, Run(l.edges, {l.entry}, w), Run(r.edges, {r.entry}, w));
  }

  lemma AcceptingPair<A(!new)>(l: Dfa<A>, r: Dfa<A>, either: bool, d: Dfa<A>, ids: map<Pair, nat>, P: set<nat>,
                               Q: set<nat>)
    requires IsProduct(l, r, either, d, ids) && Pairs(P, Q) <= ids.Keys && (P == {} <==> Q == {})
    ensures Named(ids, Pairs(P, Q)) * d.accepts != {}
            <==> if either then P * l.accepts != {} || Q * r.accepts != {}
                 else P * l.accepts != {} && Q * r.accepts != {}
  {
    if Named(ids, Pairs(P, Q)) * d.accepts != {} {
      var x :| x in Named(ids, Pairs(P, Q)) && x in d.accepts;
      var p :| p in Pairs(P, Q) && ids[p] == x;
      assert PairAccepts(l, r, either, p);
      assert p.0 in l.accepts ==> p.0 in P * l.accepts;
      assert p.1 in r.accepts ==> p.1 in Q * r.accepts;
    }
    forall p | p in Pairs(P, Q) && PairAccepts(l, r, either, p) ensures Named(ids, Pairs(P, Q)) * d.accepts != {} {
      assert ids[p] in Named(ids, Pairs(P, Q)) * d.accepts;
    }
    if P * l.accepts != {} {
      var x :| x in P * l.accepts;
      var y :| y in Q && (Q * r.accepts != {} ==> y in r.accepts);
      assert (x, y) in Pairs(P, Q);
    }
    if Q * r.accepts != {} {
      var y :| y in Q * r.accepts;
      var x :| x in P;
      assert (x, y) in Pairs(P, Q);
    }
  }

  // ----- building the product -----

  type EdgeMap<A(==)> = map<nat, map<A, nat>>

  function Row<A(==)>(m: EdgeMap<A>, q: nat): map<A, nat> {
    if q in m then m[q] else map[]
  }

  /** The rows of m list the edges; where several leave a node under one letter, the one to the greatest node. */
  ghost predicate IsEdgeMap<A(!new)>(m: EdgeMap<A>, E: set<Arc<nat, A>>) {
    && (forall e | e in E :: e.lab in Row(m, e.src) && e.dst <= Row(m, e.src)[e.lab])
    && (forall q, a | a in Row(m, q) :: Arc(q, a, Row(m, q)[a]) in E)
  }

  predicate SameStep<A(==)>(e: Arc<nat, A>, f: Arc<nat, A>) {
    e.src == f.src && e.lab == f.lab
  }

  /** The edges come in the order of their targets, as in the source's ordered set, so the last one stays. */
  method CreateEdgeMap<A(==, !new)>(E: set<Arc<nat, A>>) returns (m: EdgeMap<A>)
    ensures IsEdgeMap(m, E)
  {
    m := map[];
    var todo := E;
    while todo != {}
      invariant todo <= E && IsEdgeMap(m, E - todo)
      invariant forall e, f | e in E - todo && f in todo && SameStep(e, f) :: e.dst <= f.dst
    {
      ghost var some :| some in todo;
      ghost var least := LeastTarget(todo, some);
      var e :| e in todo && forall f | f in todo && SameStep(e, f) :: e.dst <= f.dst;
      var row := Row(m, e.src)[e.lab := e.dst];
      EdgeMapAdd(m, E - todo, e);
      assert E - (todo - {e}) == (E - todo) + {e};
      m, todo := m[e.src := row], todo - {e};
    }
    assert E - todo == E;
  }

  lemma {:induction false} LeastTarget<A(!new)>(todo: set<Arc<nat, A>>, f: Arc<nat, A>) returns (e: Arc<nat, A>)
    requires f in todo
    ensures e in todo && SameStep(e, f) && forall g | g in todo && SameStep(e, g) :: e.dst <= g.dst
    decreases f.dst
  {
    if g: Arc<nat, A> :| g in todo && SameStep(f, g) && g.dst < f.dst {
      e := LeastTarget(todo, g);
    } else {
      e := f;
    }
  }

  lemma EdgeMapAdd<A(!new)>(m: EdgeMap<A>, D: set<Arc<nat, A>>, e: Arc<nat, A>)
    requires IsEdgeMap(m, D) && forall f: Arc<nat, A> | f in D && SameStep(f, e) :: f.dst <= e.dst
    ensures IsEdgeMap(m[e.src := Row(m, e.src)[e.lab := e.dst]], D + {e})
  {
    var row := Row(m, e.src)[e.lab := e.dst];
    var m' := m[e.src := row];
    forall f | f in D + {e} ensures f.lab in Row(m', f.src) && f.dst <= Row(m', f.src)[f.lab] {
      if f.src == e.src && f.lab != e.lab {
        assert f in D;
      }
    }
    forall q, a | a in Row(m', q) ensures Arc(q, a, Row(m', q)[a]) in D + {e} {
      if q != e.src || a != e.lab {
        assert a in Row(m, q);
      }
    }
  }

  /** With one edge for each letter the rows list all edges. */
  ghost predicate ListsEdges<A(!new)>(m: EdgeMap<A>, E: set<Arc<nat, A>>) {
    && (forall e | e in E :: e.lab in Row(m, e.src) && Row(m, e.src)[e.lab] == e.dst)
    && (forall q, a | a in Row(m, q) :: Arc(q, a, Row(m, q)[a]) in E)
  }

  lemma CompleteRows<A(!new)>(m: EdgeMap<A>, d: Dfa<A>, sigma: set<A>)
    requires IsEdgeMap(m, d.edges) && Complete(d, sigma)
    ensures ListsEdges(m, d.edges)
  {
    forall e | e in d.edges ensures Row(m, e.src)[e.lab] == e.dst {
      assert Arc(e.src, e.lab, Row(m, e.src)[e.lab]) in d.edges;
    }
  }

  lemma NamedArcsKept<S(!new), A(!new)>(m: map<S, nat>, m': map<S, nat>, E: set<Arc<S, A>>)
    requires Extends(m, m') && EndsIn(E, m.Keys)
    ensures EndsIn(E, m'.Keys) && NamedArcs(m, E) == NamedArcs(m', E)
  {
    forall e | e in E ensures NamedArc(m, e) == NamedArc(m', e) && NamedArc(m, e) in NamedArcs(m, E)
           && NamedArc(m', e) in NamedArcs(m', E) {
    }
  }

  lemma NamedArcsAdd<S(!new), A(!new)>(m: map<S, nat>, E: set<Arc<S, A>>, F: set<Arc<S, A>>)
    requires EndsIn(E, m.Keys) && EndsIn(F, m.Keys)
    ensures EndsIn(E + F, m.Keys) && NamedArcs(m, E + F) == NamedArcs(m, E) + NamedArcs(m, F)
  {
  }

  ghost function PairArcsFrom<A(!new)>(E: set<Arc<nat, A>>, F: set<Arc<nat, A>>, P: set<Pair>): set<Arc<Pair, A>> {
    set g | g in PairArcs(E, F) && g.src in P
  }

  /** The transition of a pair under a letter that both sides have. */
  function RowArc<A(==)>(lrow: map<A, nat>, rrow: map<A, nat>, p: Pair, a: A): Arc<Pair, A>
    requires a in lrow && a in rrow
  {
    Arc(p, a, (lrow[a], rrow[a]))
  }

  ghost function RowArcs<A(!new)>(lrow: map<A, nat>, rrow: map<A, nat>, p: Pair, letters: set<A>): set<Arc<Pair, A>>
    requires letters <= lrow.Keys && letters <= rrow.Keys
  {
    set a | a in letters :: RowArc(lrow, rrow, p, a)
  }

  lemma RowArcsComplete<A(!new)>(l: Dfa<A>, r: Dfa<A>, sigma: set<A>, lmap: EdgeMap<A>, rmap: EdgeMap<A>, p: Pair)
    requires Complete(l, sigma) && Complete(r, sigma) && ListsEdges(lmap, l.edges) && ListsEdges(rmap, r.edges)
    requires p.0 in l.all && p.1 in r.all
    ensures Row(lmap, p.0).Keys == sigma && Row(rmap, p.1).Keys == sigma
    ensures RowArcs(Row(lmap, p.0), Row(rmap, p.1), p, sigma) == PairArcsFrom(l.edges, r.edges, {p})
    ensures EndsIn(PairArcsFrom(l.edges, r.edges, {p}), Pairs(l.all, r.all))
  {
    RowComplete(l, sigma, lmap, p.0);
    RowComplete(r, sigma, rmap, p.1);
    RowArcsArePairArcs(l.edges, r.edges, sigma, lmap, rmap, p);
    forall g | g in PairArcsFrom(l.edges, r.edges, {p})
      ensures g.src in Pairs(l.all, r.all) && g.dst in Pairs(l.all, r.all)
    {
    }
  }

  lemma RowArcsArePairArcs<A(!new)>(E: set<Arc<nat, A>>, F: set<Arc<nat, A>>, sigma: set<A>, lmap: EdgeMap<A>,
                                    rmap: EdgeMap<A>, p: Pair)
    requires ListsEdges(lmap, E) && ListsEdges(rmap, F)
    requires Row(lmap, p.0).Keys == sigma && Row(rmap, p.1).Keys == sigma
    ensures RowArcs(Row(lmap, p.0), Row(rmap, p.1), p, sigma) == PairArcsFrom(E, F, {p})
  {
    var lrow, rrow := Row(lmap, p.0), Row(rmap, p.1);
    forall a | a in sigma ensures RowArc(lrow, rrow, p, a) in PairArcsFrom(E, F, {p}) {
      assert Arc(p.0, a, lrow[a]) in E && Arc(p.1, a, rrow[a]) in F;
    }
    forall g | g in PairArcsFrom(E, F, {p}) ensures g in RowArcs(lrow, rrow, p, sigma) {
      var e, f :| e in E && f in F && e.lab == f.lab && g == Arc((e.src, f.src), e.lab, (e.dst, f.dst));
      assert g == RowArc(lrow, rrow, p, e.lab);
    }
  }

  lemma RowComplete<A(!new)>(d: Dfa<A>, sigma: set<A>, m: EdgeMap<A>, q: nat)
    requires Complete(d, sigma) && ListsEdges(m, d.edges) && q in d.all
    ensures Row(m, q).Keys == sigma
  {
    forall a | a in sigma ensures a in Row(m, q) {
      var x :| x in Step(d.edges, {q}, a);
      var e :| e in d.edges && e.src in {q} && e.lab == a && e.dst == x;
    }
    forall a | a in Row(m, q) ensures a in sigma {
      assert Arc(q, a, Row(m, q)[a]) in d.edges;
    }
  }

  lemma NoRowArcs<A(!new)>(lrow: map<A, nat>, rrow: map<A, nat>, p: Pair, m: map<Pair, nat>)
    ensures EndsIn(RowArcs(lrow, rrow, p, {}), m.Keys) && NamedArcs(m, RowArcs(lrow, rrow, p, {})) == {}
    ensures Extends(m, m)
  {
  }

  lemma NameKept<T(!new)>(m: map<T, nat>, m': map<T, nat>, x: T)
    requires Extends(m, m') && x in m
    ensures x in m' && m'[x] == m[x]
  {
  }

  lemma ExtendsTrans<T(!new)>(m: map<T, nat>, m': map<T, nat>, m'': map<T, nat>)
    requires Extends(m, m') && Extends(m', m'')
    ensures Extends(m, m'')
  {
  }

  lemma RowArcsAdd<A(!new)>(lrow: map<A, nat>, rrow: map<A, nat>, p: Pair, letters: set<A>, todo: set<A>, a: A,
                            m: map<Pair, nat>, m': map<Pair, nat>)
    requires letters <= lrow.Keys && letters <= rrow.Keys && todo <= letters && a in todo
    requires Extends(m, m') && EndsIn(RowArcs(lrow, rrow, p, letters - todo), m.Keys)
    requires p in m' && (lrow[a], rrow[a]) in m'
    ensures EndsIn(RowArcs(lrow, rrow, p, letters - (todo - {a})), m'.Keys)
    ensures NamedArcs(m', RowArcs(lrow, rrow, p, letters - (todo - {a})))
            == NamedArcs(m, RowArcs(lrow, rrow, p, letters - todo)) + {Arc(m'[p], a, m'[(lrow[a], rrow[a])])}
  {
    var done, one := RowArcs(lrow, rrow, p, letters - todo), RowArc(lrow, rrow, p, a);
    NamedArcsKept(m, m', done);
    NamedArcsAdd(m', done, {one});
    assert NamedArcs(m', {one}) == {NamedArc(m', one)};
    assert RowArcs(lrow, rrow, p, letters - (todo - {a})) == done + {one};
  }

  /** The inner loop of the source: one edge for each letter of a pair. */
  method TransitionsOf<A(==, !new)>(ctx: IdContext<Pair>, lrow: map<A, nat>, rrow: map<A, nat>, p: Pair)
    returns (edges: set<Arc<nat, A>>)
    requires ctx.Valid() && lrow.Keys == rrow.Keys
    modifies ctx
    ensures ctx.Valid() && Extends(old(ctx.mp), ctx.mp)
    ensures EndsIn(RowArcs(lrow, rrow, p, lrow.Keys), ctx.mp.Keys)
    ensures edges == NamedArcs(ctx.mp, RowArcs(lrow, rrow, p, lrow.Keys))
  {
    hide Injective, RowArcs, NamedArcs, Extends, EndsIn;
    edges := {};
    NoRowArcs(lrow, rrow, p, ctx.mp);
    var letters := lrow.Keys + rrow.Keys;
    var todo := letters;
    assert letters - todo == {};
    while todo != {}
      invariant todo <= letters && ctx.Valid() && Extends(old(ctx.mp), ctx.mp)
      invariant EndsIn(RowArcs(lrow, rrow, p, letters - todo), ctx.mp.Keys)
      invariant edges == NamedArcs(ctx.mp, RowArcs(lrow, rrow, p, letters - todo))
    {
      var a :| a in todo;
      ghost var before := ctx.mp;
      var newSrc := ctx.GetNode(p);
      ghost var between := ctx.mp;
      var newDst := ctx.GetNode((lrow[a], rrow[a]));
      ExtendsTrans(before, between, ctx.mp);
      NameKept(between, ctx.mp, p);
      ExtendsTrans(old(ctx.mp), before, ctx.mp);
      RowArcsAdd(lrow, rrow, p, letters, todo, a, before, ctx.mp);
      edges, todo := edges + {Arc(newSrc, a, newDst)}, todo - {a};
    }
    assert letters - todo == lrow.Keys;
  }

  /** The outer loop of the source: the edges of every pair. */
  method ProductEdges<A(==, !new)>(ctx: IdContext<Pair>, l: Dfa<A>, r: Dfa<A>, ghost sigma: set<A>)
    returns (edges: set<Arc<nat, A>>)
    requires ctx.Valid() && Complete(l, sigma) && Complete(r, sigma)
    modifies ctx
    ensures ctx.Valid() && Extends(old(ctx.mp), ctx.mp)
    ensures EndsIn(PairArcs(l.edges, r.edges), ctx.mp.Keys) && edges == NamedArcs(ctx.mp, PairArcs(l.edges, r.edges))
  {
    hide Injective, RowArcs, NamedArcs, EndsIn, IsEdgeMap, ListsEdges;
    var lmap := CreateEdgeMap(l.edges);
    var rmap := CreateEdgeMap(r.edges);
    CompleteRows(lmap, l, sigma);
    CompleteRows(rmap, r, sigma);
    edges := {};
    var pairs := Pairs(l.all, r.all);
    var todo := pairs;
    NoPairArcs(l.edges, r.edges, ctx.mp);
    assert pairs - todo == {};
    while todo != {}
      invariant todo <= pairs && ctx.Valid() && Extends(old(ctx.mp), ctx.mp)
      invariant EndsIn(PairArcsFrom(l.edges, r.edges, pairs - todo), ctx.mp.Keys)
      invariant edges == NamedArcs(ctx.mp, PairArcsFrom(l.edges, r.edges, pairs - todo))
    {
      var p :| p in todo;
      ghost var before := ctx.mp;
      RowArcsComplete(l, r, sigma, lmap, rmap, p);
      var more := TransitionsOf(ctx, Row(lmap, p.0), Row(rmap, p.1), p);
      NamedArcsKept(before, ctx.mp, PairArcsFrom(l.edges, r.edges, pairs - todo));
      NamedArcsAdd(ctx.mp, PairArcsFrom(l.edges, r.edges, pairs - todo), PairArcsFrom(l.edges, r.edges, {p}));
      assert PairArcsFrom(l.edges, r.edges, pairs - (todo - {p}))
          == PairArcsFrom(l.edges, r.edges, pairs - todo) + PairArcsFrom(l.edges, r.edges, {p});
      edges, todo := edges + more, todo - {p};
    }
    assert pairs - todo == pairs;
    AllPairArcs(l, r, sigma);
  }

  lemma NoPairArcs<A(!new)>(E: set<Arc<nat, A>>, F: set<Arc<nat, A>>, m: map<Pair, nat>)
    ensures EndsIn(PairArcsFrom(E, F, {}), m.Keys) && NamedArcs(m, PairArcsFrom(E, F, {})) == {}
  {
  }

  lemma AllPairArcs<A(!new)>(l: Dfa<A>, r: Dfa<A>, sigma: set<A>)
    requires InRange(l, sigma) && InRange(r, sigma)
    ensures PairArcsFrom(l.edges, r.edges, Pairs(l.all, r.all)) == PairArcs(l.edges, r.edges)
    ensures EndsIn(PairArcs(l.edges, r.edges), Pairs(l.all, r.all))
  {
  }

  function AcceptPairs<A(==)>(l: Dfa<A>, r: Dfa<A>, either: bool): set<Pair> {
    if either then Pairs(l.accepts, r.all) + Pairs(l.all, r.accepts) else Pairs(l.accepts, r.accepts)
  }

  method CartesianProduct<A(==, !new)>(l: Dfa<A>, r: Dfa<A>, either: bool, ghost sigma: set<A>)
    returns (d: Dfa<A>, ghost ids: map<Pair, nat>)
    requires Complete(l, sigma) && Complete(r, sigma)
    ensures IsProduct(l, r, either, d, ids)
  {
    hide Extends, Injective, NamedArcs, EndsIn, IsProduct, Complete, PairAccepts, AcceptPairs;
    var ctx := new IdContext<Pair>();
    var entry := ctx.GetNode((l.entry, r.entry));
    ghost var m1 := ctx.mp;
    var edges := ProductEdges(ctx, l, r, sigma);
    ghost var m2 := ctx.mp;
    var accepts := ctx.GetNodes(AcceptPairs(l, r, either));
    ghost var m3 := ctx.mp;
    var all := ctx.GetNodes(Pairs(l.all, r.all));
    d := Dfa(entry, edges, accepts, all);
    ids := map p | p in Pairs(l.all, r.all) :: ctx.mp[p];
    ProductBuilt(l, r, either, sigma, d, m1, m2, m3, ctx.mp, ids);
  }

  lemma CompleteInRange<A(!new)>(d: Dfa<A>, sigma: set<A>)
    requires Complete(d, sigma)
    ensures InRange(d, sigma)
  {
  }

  lemma ProductBuilt<A(!new)>(l: Dfa<A>, r: Dfa<A>, either: bool, sigma: set<A>, d: Dfa<A>, m1: map<Pair, nat>,
                              m2: map<Pair, nat>, m3: map<Pair, nat>, m4: map<Pair, nat>, ids: map<Pair, nat>)
    requires Complete(l, sigma) && Complete(r, sigma)
    requires Extends(m1, m2) && Extends(m2, m3) && Extends(m3, m4) && Injective(m4)
    requires (l.entry, r.entry) in m1 && d.entry == m1[(l.entry, r.entry)]
    requires EndsIn(PairArcs(l.edges, r.edges), m2.Keys) && d.edges == NamedArcs(m2, PairArcs(l.edges, r.edges))
    requires AcceptPairs(l, r, either) <= m3.Keys && d.accepts == set p | p in AcceptPairs(l, r, either) :: m3[p]
    requires Pairs(l.all, r.all) <= m4.Keys && d.all == set p | p in Pairs(l.all, r.all) :: m4[p]
    requires ids == map p | p in Pairs(l.all, r.all) :: m4[p]
    ensures IsProduct(l, r, either, d, ids)
  {
    hide Complete, NamedArcs, PairArcs, EndsIn;
    var P := Pairs(l.all, r.all);
    CompleteInRange(l, sigma);
    CompleteInRange(r, sigma);
    AllPairArcs(l, r, sigma);
    ExtendsTrans(m2, m3, m4);
    NamedArcsKept(m2, m4, PairArcs(l.edges, r.edges));
    assert ids.Keys == P;
    NamedArcsKept(ids, m4, PairArcs(l.edges, r.edges));
    NameKept(m1, m2, (l.entry, r.entry));
    NameKept(m2, m4, (l.entry, r.entry));
    AcceptPairsExact(l, r, either, sigma);
    assert d.accepts == set p | p in AcceptPairs(l, r, either) :: ids[p] by {
      assert forall p | p in AcceptPairs(l, r, either) :: m3[p] == ids[p];
    }
  }

  lemma AcceptPairsExact<A(!new)>(l: Dfa<A>, r: Dfa<A>, either: bool, sigma: set<A>)
    requires InRange(l, sigma) && InRange(r, sigma)
    ensures AcceptPairs(l, r, either) == set p | p in Pairs(l.all, r.all) && PairAccepts(l, r, either, p)
  {
  }

  lemma ProductComplete<A(!new)>(l: Dfa<A>, r: Dfa<A>, either: bool, d: Dfa<A>, ids: map<Pair, nat>, sigma: set<A>)
    requires IsProduct(l, r, either, d, ids) && Complete(l, sigma) && Complete(r, sigma)
    ensures Complete(d, sigma)
  {
    ProductInRange(l, r, either, d, ids, sigma);
    ProductDeterministic(l, r, either, d, ids);
    forall q, a | q in d.all && a in sigma ensures Step(d.edges, {q}, a) != {} {
      var p :| p in ids && ids[p] == q;
      NamedStep(ids, PairArcs(l.edges, r.edges), {p}, a);
      assert Named(ids, {p}) == {q};
      assert Pairs({p.0}, {p.1}) == {p};
      PairStep(l.edges, r.edges, {p.0}, {p.1}, a);
      var x :| x in Step(l.edges, {p.0}, a);
      var y :| y in Step(r.edges, {p.1}, a);
      assert (x, y) in Pairs(Step(l.edges, {p.0}, a), Step(r.edges, {p.1}, a));
      assert ids[(x, y)] in Named(ids, Step(PairArcs(l.edges, r.edges), {p}, a));
    }
  }

  lemma ProductInRange<A(!new)>(l: Dfa<A>, r: Dfa<A>, either: bool, d: Dfa<A>, ids: map<Pair, nat>, sigma: set<A>)
    requires IsProduct(l, r, either, d, ids) && InRange(l, sigma) && InRange(r, sigma)
    ensures InRange(d, sigma)
  {
    forall e | e in d.edges ensures e.src in d.all && e.dst in d.all && e.lab in sigma {
      var g :| g in PairArcs(l.edges, r.edges) && NamedArc(ids, g) == e;
    }
  }

  lemma ProductDeterministic<A(!new)>(l: Dfa<A>, r: Dfa<A>, either: bool, d: Dfa<A>, ids: map<Pair, nat>)
    requires IsProduct(l, r, either, d, ids) && Deterministic(l.edges) && Deterministic(r.edges)
    ensures Deterministic(d.edges)
  {
    forall e, f | e in d.edges && f in d.edges && e.src == f.src && e.lab == f.lab ensures e.dst == f.dst {
      var g :| g in PairArcs(l.edges, r.edges) && NamedArc(ids, g) == e;
      var h :| h in PairArcs(l.edges, r.edges) && NamedArc(ids, h) == f;
      assert g.src == h.src;
    }
  }

  // ----- trimming, complement, emptiness -----

  /** m is d without what its entry cannot reach. */
  ghost predicate IsTrimmed<A(!new)>(d: Dfa<A>, m: Dfa<A>) {
    && m.entry == d.entry
    && m.edges == (set e | e in d.edges && Reachable(d.edges, d.entry, e.src) && Reachable(d.edges, d.entry, e.dst))
    && m.accepts == (set q | q in d.accepts && Reachable(d.edges, d.entry, q))
    && (forall q :: q in m.all <==> Reachable(d.edges, d.entry, q))
  }

  /** Despite its name the source's minimize only trims. */
  method Minimize<A(==, !new)>(d: Dfa<A>) returns (m: Dfa<A>)
    ensures IsTrimmed(d, m)
  {
    var reached := ReachableSet(d.edges, d.entry);
    var accepts := set q | q in d.accepts && q in reached;
    var edges := set e | e in d.edges && e.src in reached && e.dst in reached;
    m := Dfa(d.entry, edges, accepts, reached);
  }

  lemma TrimLanguage<A(!new)>(d: Dfa<A>, m: Dfa<A>, w: seq<A>)
    requires IsTrimmed(d, m)
    ensures Run(m.edges, {m.entry}, w) == Run(d.edges, {d.entry}, w)
    ensures Accepts(m, w) <==> Accepts(d, w)
  {
    ReachableSelf(d.edges, d.entry);
    forall e | e in d.edges && e.src in m.all ensures e.dst in m.all {
      ReachableStep(d.edges, d.entry, e);
    }
    TrimRun(d.edges, m.edges, m.all, {d.entry}, w);
    forall q | q in Run(d.edges, {d.entry}, w) ensures Reachable(d.edges, d.entry, q) {
    }
    assert Run(d.edges, {d.entry}, w) * m.accepts == Run(d.edges, {d.entry}, w) * d.accepts;
  }

  lemma {:induction false} TrimRun<A(!new)>(E: set<Arc<nat, A>>, E': set<Arc<nat, A>>, I: set<nat>, Q: set<nat>,
                                            w: seq<A>)
    requires ClosedUnder(E, I) && Q <= I && E' == set e | e in E && e.src in I && e.dst in I
    ensures Run(E', Q, w) == Run(E, Q, w)
    decreases |w|
  {
    if w != [] {
      assert Step(E', Q, w[0]) == Step(E, Q, w[0]);
      TrimRun(E, E', I, Step(E, Q, w[0]), w[1..]);
    }
  }

  lemma TrimComplete<A(!new)>(d: Dfa<A>, m: Dfa<A>, sigma: set<A>)
    requires IsTrimmed(d, m) && Complete(d, sigma)
    ensures Complete(m, sigma)
  {
    ReachableSelf(d.edges, d.entry);
    forall q | q in m.all ensures q in d.all {
      ReachableStaysInside(d.edges, d.all, d.entry, q);
    }
    forall q, a | q in m.all && a in sigma ensures Step(m.edges, {q}, a) != {} {
      var x :| x in Step(d.edges, {q}, a);
      var e :| e in d.edges && e.src in {q} && e.lab == a && e.dst == x;
      ReachableStep(d.edges, d.entry, e);
      assert e in m.edges;
    }
  }

  /** Words that both automata accept. */
  method Intersection<A(==, !new)>(l: Dfa<A>, r: Dfa<A>, ghost sigma: set<A>)
    returns (m: Dfa<A>, ghost d: Dfa<A>, ghost ids: map<Pair, nat>)
    requires Complete(l, sigma) && Complete(r, sigma)
    ensures IsProduct(l, r, false, d, ids) && IsTrimmed(d, m) && Complete(m, sigma)
    ensures forall w :: Accepts(m, w) <==> Accepts(l, w) && Accepts(r, w)
  {
    hide IsProduct, IsTrimmed, Complete, Accepts;
    var product;
    product, ids := CartesianProduct(l, r, false, sigma);
    m := Minimize(product);
    d := product;
    CombinedLanguage(l, r, false, d, ids, m, sigma);
  }

  /** Words that at least one automaton accepts. */
  method Union<A(==, !new)>(l: Dfa<A>, r: Dfa<A>, ghost sigma: set<A>)
    returns (m: Dfa<A>, ghost d: Dfa<A>, ghost ids: map<Pair, nat>)
    requires Complete(l, sigma) && Complete(r, sigma)
    ensures IsProduct(l, r, true, d, ids) && IsTrimmed(d, m) && Complete(m, sigma)
    ensures forall w :: Accepts(m, w) <==> Accepts(l, w) || Accepts(r, w)
  {
    hide IsProduct, IsTrimmed, Complete, Accepts;
    var product;
    product, ids := CartesianProduct(l, r, true, sigma);
    m := Minimize(product);
    d := product;
    CombinedLanguage(l, r, true, d, ids, m, sigma);
  }

  lemma CombinedLanguage<A(!new)>(l: Dfa<A>, r: Dfa<A>, either: bool, d: Dfa<A>, ids: map<Pair, nat>, m: Dfa<A>,
                                  sigma: set<A>)
    requires IsProduct(l, r, either, d, ids) && IsTrimmed(d, m) && Complete(l, sigma) && Complete(r, sigma)
    ensures Complete(m, sigma)
    ensures forall w ::
              Accepts(m, w) <==> if either then Accepts(l, w) || Accepts(r, w) else Accepts(l, w) && Accepts(r, w)
  {
    hide IsProduct, IsTrimmed, Complete, Accepts;
    ProductComplete(l, r, either, d, ids, sigma);
    TrimComplete(d, m, sigma);
    forall w ensures Accepts(m, w)
           <==> if either then Accepts(l, w) || Accepts(r, w) else Accepts(l, w) && Accepts(r, w) {
      ProductLanguage(l, r, either, d, ids, sigma, w);
      TrimLanguage(d, m, w);
    }
  }

  function Complement<A(==)>(d: Dfa<A>): Dfa<A> {
    d.(accepts := d.all - d.accepts)
  }

  /** The complement accepts exactly the other words over the alphabet. */
  lemma ComplementLanguage<A(!new)>(d: Dfa<A>, sigma: set<A>, w: seq<A>)
    requires Complete(d, sigma)
    ensures Complete(Complement(d), sigma)
    ensures Accepts(Complement(d), w) <==> Over(w, sigma) && !Accepts(d, w)
  {
    CompleteRun(d, sigma, {d.entry}, w);
    CompleteRunUnique(d, sigma, w);
  }

  lemma CompleteRunUnique<A(!new)>(d: Dfa<A>, sigma: set<A>, w: seq<A>)
    requires Complete(d, sigma)
    ensures forall x, y | x in Run(d.edges, {d.entry}, w) && y in Run(d.edges, {d.entry}, w) :: x == y
  {
    DeterministicRun(d.edges, d.entry, w);
  }

  /** No accepting node is reachable exactly when no word is accepted. */
  method IsEmptyLanguage<A(==, !new)>(d: Dfa<A>) returns (empty: bool)
    ensures empty <==> forall w: seq<A> :: !Accepts(d, w)
  {
    var reached := ReachableSet(d.edges, d.entry);
    empty := reached * d.accepts == {};
    if !empty {
      var q :| q in reached * d.accepts;
      assert Reachable(d.edges, d.entry, q);
      var w: seq<A> :| q in Run(d.edges, {d.entry}, w);
      assert q in Run(d.edges, {d.entry}, w) * d.accepts;
      assert Accepts(d, w);
    }
    forall w: seq<A> | empty ensures !Accepts(d, w) {
      forall q | q in Run(d.edges, {d.entry}, w) ensures q !in d.accepts {
        assert Reachable(d.edges, d.entry, q) && q in reached;
        assert q !in reached * d.accepts;
      }
    }
  }
}
