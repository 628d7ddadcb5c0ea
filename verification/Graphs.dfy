/** Labelled graphs as finite sets of arcs, and the label words that lead from node to node. */
module Graphs {

  datatype Arc<S, L> = Arc(src: S, lab: L, dst: S)

  datatype Option<+T> = None | Some(value: T)

  /** The nodes reached from Q over one arc labelled a. */
  function Step<S(==), L(==)>(E: set<Arc<S, L>>, Q: set<S>, a: L): set<S> {
    set e | e in E && e.src in Q && e.lab == a :: e.dst
  }

  /** The nodes reached from Q over a path whose labels spell w. */
  function Run<S(==), L(==)>(E: set<Arc<S, L>>, Q: set<S>, w: seq<L>): set<S>
    decreases |w|
  {
    if w == [] then Q else Run(E, Step(E, Q, w[0]), w[1..])
  }

  ghost predicate Reachable<S, L(!new)>(E: set<Arc<S, L>>, s: S, x: S) {
    exists w: seq<L> :: x in Run(E, {s}, w)
  }

  ghost predicate ClosedUnder<S, L>(E: set<Arc<S, L>>, I: set<S>) {
    forall e | e in E && e.src in I :: e.dst in I
  }

  /** Every node has at most one outgoing arc for each label. */
  ghost predicate Deterministic<S, L>(E: set<Arc<S, L>>) {
    forall e, f | e in E && f in E && e.src == f.src && e.lab == f.lab :: e.dst == f.dst
  }

  function Reverse<S(==), L(==)>(E: set<Arc<S, L>>): set<Arc<S, L>> {
    set e | e in E :: Arc(e.dst, e.lab, e.src)
  }

  lemma {:induction false} RunConcat<S, L>(E: set<Arc<S, L>>, Q: set<S>, u: seq<L>, v: seq<L>)
    ensures Run(E, Q, u + v) == Run(E, Run(E, Q, u), v)
    decreases |u|
  {
    if u == [] {
      assert u + v == v;
    } else {
      assert (u + v)[0] == u[0] && (u + v)[1..] == u[1..] + v;
      RunConcat(E, Step(E, Q, u[0]), u[1..], v);
    }
  }

  lemma RunOne<S, L>(E: set<Arc<S, L>>, Q: set<S>, a: L)
    ensures Run(E, Q, [a]) == Step(E, Q, a)
  {
    assert [a][1..] == [];
    assert Run(E, Step(E, Q, a), []) == Step(E, Q, a);
  }

  lemma RunSnoc<S, L>(E: set<Arc<S, L>>, Q: set<S>, w: seq<L>, a: L)
    ensures Run(E, Q, w + [a]) == Step(E, Run(E, Q, w), a)
  {
    RunConcat(E, Q, w, [a]);
    assert [a][1..] == [];
  }

  lemma {:induction false} RunMonotone<S, L>(E: set<Arc<S, L>>, E': set<Arc<S, L>>, Q: set<S>, Q': set<S>, w: seq<L>)
    requires E <= E' && Q <= Q'
    ensures Run(E, Q, w) <= Run(E', Q', w)
    decreases |w|
  {
    if w != [] {
      RunMonotone(E, E', Step(E, Q, w[0]), Step(E', Q', w[0]), w[1..]);
    }
  }

  lemma {:induction false} RunStaysInside<S, L>(E: set<Arc<S, L>>, I: set<S>, Q: set<S>, w: seq<L>)
    requires ClosedUnder(E, I) && Q <= I
    ensures Run(E, Q, w) <= I
    decreases |w|
  {
    if w != [] {
      RunStaysInside(E, I, Step(E, Q, w[0]), w[1..]);
    }
  }

  lemma {:induction false} RunOfNothing<S, L>(E: set<Arc<S, L>>, w: seq<L>)
    ensures Run(E, {}, w) == {}
    decreases |w|
  {
    if w != [] {
      assert Step(E, {}, w[0]) == {};
      RunOfNothing(E, w[1..]);
    }
  }

  /** Every path to x starts at one of the nodes it may start at. */
  lemma {:induction false} RunFrom<S, L>(E: set<Arc<S, L>>, Q: set<S>, w: seq<L>, x: S) returns (q: S)
    requires x in Run(E, Q, w)
    ensures q in Q && x in Run(E, {q}, w)
    decreases |w|
  {
    if w == [] {
      q := x;
    } else {
      var r := RunFrom(E, Step(E, Q, w[0]), w[1..], x);
      var e :| e in E && e.src in Q && e.lab == w[0] && e.dst == r;
      q := e.src;
      assert r in Step(E, {q}, w[0]);
      RunMonotone(E, E, {r}, Step(E, {q}, w[0]), w[1..]);
    }
  }

  /** The arcs of p follow each other from x to y. */
  ghost predicate Connects<S, L>(E: set<Arc<S, L>>, x: S, p: seq<Arc<S, L>>, y: S)
    decreases |p|
  {
    if p == [] then x == y else p[0] in E && p[0].src == x && Connects(E, p[0].dst, p[1..], y)
  }

  function LabelsOf<S, L>(p: seq<Arc<S, L>>): (w: seq<L>)
    ensures |w| == |p|
  {
    if p == [] then [] else [p[0].lab] + LabelsOf(p[1..])
  }

  lemma {:induction false} ConnectsRun<S, L>(E: set<Arc<S, L>>, x: S, p: seq<Arc<S, L>>, y: S)
    requires Connects(E, x, p, y)
    ensures y in Run(E, {x}, LabelsOf(p))
    decreases |p|
  {
    if p != [] {
      ConnectsRun(E, p[0].dst, p[1..], y);
      assert p[0].dst in Step(E, {x}, p[0].lab);
      RunMonotone(E, E, {p[0].dst}, Step(E, {x}, p[0].lab), LabelsOf(p[1..]));
    }
  }

  lemma {:induction false} RunConnects<S, L>(E: set<Arc<S, L>>, x: S, w: seq<L>, y: S) returns (p: seq<Arc<S, L>>)
    requires y in Run(E, {x}, w)
    ensures Connects(E, x, p, y) && LabelsOf(p) == w
    decreases |w|
  {
    p := [];
    if w != [] {
      var z := RunFrom(E, Step(E, {x}, w[0]), w[1..], y);
      var e :| e in E && e.src == x && e.lab == w[0] && e.dst == z;
      var r := RunConnects(E, z, w[1..], y);
      p := [e] + r;
      assert p[1..] == r;
    }
  }

  lemma {:induction false} ConnectsSnoc<S, L>(E: set<Arc<S, L>>, x: S, p: seq<Arc<S, L>>, e: Arc<S, L>)
    requires Connects(E, x, p, e.src) && e in E
    ensures Connects(E, x, p + [e], e.dst)
    decreases |p|
  {
    if p != [] {
      ConnectsSnoc(E, p[0].dst, p[1..], e);
      assert (p + [e])[1..] == p[1..] + [e];
    } else {
      assert [e][1..] == [];
    }
  }

  /** In a deterministic graph a word leads from one node to at most one node. */
  lemma {:induction false} DeterministicRun<S, L>(E: set<Arc<S, L>>, q: S, w: seq<L>)
    requires Deterministic(E)
    ensures forall x, y | x in Run(E, {q}, w) && y in Run(E, {q}, w) :: x == y
    decreases |w|
  {
    if w != [] {
      var next := Step(E, {q}, w[0]);
      if next == {} {
        RunOfNothing(E, w[1..]);
      } else {
        var r :| r in next;
        assert next == {r};
        DeterministicRun(E, r, w[1..]);
      }
    }
  }

  lemma ReachableSelf<S, L(!new)>(E: set<Arc<S, L>>, s: S)
    ensures Reachable(E, s, s)
  {
    assert s in Run(E, {s}, []);
  }

  lemma ReachableStep<S, L(!new)>(E: set<Arc<S, L>>, s: S, e: Arc<S, L>)
    requires Reachable(E, s, e.src) && e in E
    ensures Reachable(E, s, e.dst)
  {
    var w :| e.src in Run(E, {s}, w);
    RunSnoc(E, {s}, w, e.lab);
    assert e.dst in Run(E, {s}, w + [e.lab]);
  }

  lemma ReachableStaysInside<S, L(!new)>(E: set<Arc<S, L>>, I: set<S>, s: S, x: S)
    requires ClosedUnder(E, I) && s in I && Reachable(E, s, x)
    ensures x in I
  {
    var w :| x in Run(E, {s}, w);
    RunStaysInside(E, I, {s}, w);
  }

  lemma ReachableTransitive<S, L(!new)>(E: set<Arc<S, L>>, a: S, b: S, c: S)
    requires Reachable(E, a, b) && Reachable(E, b, c)
    ensures Reachable(E, a, c)
  {
    var u :| b in Run(E, {a}, u);
    var v :| c in Run(E, {b}, v);
    RunConcat(E, {a}, u, v);
    RunMonotone(E, E, {b}, Run(E, {a}, u), v);
    assert c in Run(E, {a}, u + v);
  }

  lemma ReachableMonotone<S, L(!new)>(A: set<Arc<S, L>>, B: set<Arc<S, L>>, x: S, y: S)
    requires A <= B && Reachable(A, x, y)
    ensures Reachable(B, x, y)
  {
    var w :| y in Run(A, {x}, w);
    RunMonotone(A, B, {x}, {x}, w);
  }

  /** Walking the reversed arcs backwards finds the nodes from which a node can be reached. */
  lemma ReachableReverse<S, L(!new)>(E: set<Arc<S, L>>, a: S, b: S)
    ensures Reachable(Reverse(E), b, a) <==> Reachable(E, a, b)
  {
    if Reachable(E, a, b) {
      var w :| b in Run(E, {a}, w);
      ReverseRun(E, a, b, w);
    }
    if Reachable(Reverse(E), b, a) {
      var w :| a in Run(Reverse(E), {b}, w);
      ReverseRun(Reverse(E), b, a, w);
      assert Reverse(Reverse(E)) == E by {
        forall e | e in E ensures e in Reverse(Reverse(E)) {
          assert Arc(e.dst, e.lab, e.src) in Reverse(E);
        }
      }
    }
  }

  lemma {:induction false} ReverseRun<S, L(!new)>(E: set<Arc<S, L>>, a: S, b: S, w: seq<L>)
    requires b in Run(E, {a}, w)
    ensures Reachable(Reverse(E), b, a)
    decreases |w|
  {
    if w == [] {
      ReachableSelf(Reverse(E), b);
    } else {
      var front, l := w[..|w| - 1], w[|w| - 1];
      assert w == front + [l];
      RunSnoc(E, {a}, front, l);
      var e :| e in E && e.src in Run(E, {a}, front) && e.lab == l && e.dst == b;
      ReverseRun(E, a, e.src, front);
      ReachableSelf(Reverse(E), b);
      ReachableStep(Reverse(E), b, Arc(b, l, e.src));
      ReachableTransitive(Reverse(E), b, e.src, a);
    }
  }

  /** Dropping what lies on no path from s to t changes no word from s to t. */
  lemma TrimKeepsWords<S, L(!new)>(E: set<Arc<S, L>>, E': set<Arc<S, L>>, s: S, t: S, w: seq<L>)
    requires E' <= E
    requires forall e | e in E && Reachable(E, s, e.src) && Reachable(E, e.dst, t) :: e in E'
    ensures t in Run(E, {s}, w) <==> t in Run(E', {s}, w)
  {
    RunMonotone(E', E, {s}, {s}, w);
    if t in Run(E, {s}, w) {
      ReachableSelf(E, s);
      TrimmedRun(E, E', s, s, t, w);
    }
  }

  lemma {:induction false} TrimmedRun<S, L(!new)>(E: set<Arc<S, L>>, E': set<Arc<S, L>>, s: S, x: S, t: S, w: seq<L>)
    requires forall e | e in E && Reachable(E, s, e.src) && Reachable(E, e.dst, t) :: e in E'
    requires Reachable(E, s, x) && t in Run(E, {x}, w)
    ensures t in Run(E', {x}, w)
    decreases |w|
  {
    if w != [] {
      var y := RunFrom(E, Step(E, {x}, w[0]), w[1..], t);
      var e :| e in E && e.src == x && e.lab == w[0] && e.dst == y;
      ReachableStep(E, s, e);
      TrimmedRun(E, E', s, y, t, w[1..]);
      assert y in Step(E', {x}, w[0]);
      RunMonotone(E', E', {y}, Step(E', {x}, w[0]), w[1..]);
    }
  }

  /** Depth-first search: exactly the nodes reachable from s. */
  method ReachableSet<S(==, !new), L(==, !new)>(E: set<Arc<S, L>>, s: S) returns (seen: set<S>)
    ensures forall x :: x in seen <==> Reachable(E, s, x)
    ensures seen <= {s} + set e | e in E :: e.dst
  {
    seen := {s};
    var todo := {s};
    ghost var all := {s} + set e | e in E :: e.dst;
    ReachableSelf(E, s);
    while todo != {}
      invariant s in seen && todo <= seen <= all
      invariant forall x | x in seen :: Reachable(E, s, x)
      invariant forall e | e in E && e.src in seen && e.src !in todo :: e.dst in seen
      decreases all - seen, todo
    {
      var x :| x in todo;
      var next := (set e | e in E && e.src == x :: e.dst) - seen;
      forall y | y in next ensures Reachable(E, s, y) {
        var e :| e in E && e.src == x && e.dst == y;
        ReachableStep(E, s, e);
      }
      ghost var before := seen;
      seen, todo := seen + next, todo - {x} + next;
      if next != {} {
        var y :| y in next;
        assert y in all - before && y !in all - seen;
      } else {
        assert seen == before;
      }
    }
    forall x | Reachable(E, s, x) ensures x in seen {
      ReachableStaysInside(E, seen, s, x);
    }
  }
}
