/**
 * Enumeration of edge-distinct paths with an explicit stack (src/graph_algos/mod.rs,
 * all_simple_paths). Draining the source's iterator is one run of the loop below.
 */
module SimplePaths {
  import opened Graphs

  type EdgeId = nat
  type Trail = seq<EdgeId>

  /** A multigraph: edges under ids, and for each node its outgoing edges in iteration order. */
  datatype Adjacency<!L> = Adjacency(arcs: map<EdgeId, Arc<nat, L>>, out: map<nat, seq<EdgeId>>) {
    ghost predicate Wf() {
      && (forall k | k in arcs :: arcs[k].src in out && arcs[k].dst in out)
      && (forall n, i | n in out && 0 <= i < |out[n]| :: out[n][i] in arcs && arcs[out[n][i]].src == n)
      && (forall k | k in arcs :: k in out[arcs[k].src])
      && (forall n | n in out :: Distinct(out[n]))
    }
  }

  ghost predicate Distinct<T>(s: seq<T>) {
    forall i, j | 0 <= i < j < |s| :: s[i] != s[j]
  }

  /** Consecutive edges, starting at node n. */
  ghost predicate IsPath<L>(g: Adjacency<L>, n: nat, p: Trail)
    decreases |p|
  {
    if p == [] then true
    else p[0] in g.arcs && g.arcs[p[0]].src == n && IsPath(g, g.arcs[p[0]].dst, p[1..])
  }

  /** A non-empty path that repeats no edge and meets the node to exactly with its last edge. */
  ghost predicate IsTrail<L>(g: Adjacency<L>, from: nat, to: nat, p: Trail) {
    && p != [] && IsPath(g, from, p) && Distinct(p)
    && (forall i | 0 <= i < |p| :: p[i] in g.arcs && (g.arcs[p[i]].dst == to <==> i == |p| - 1))
  }

  // ----- the recursive description -----

  ghost predicate Ready<L>(g: Adjacency<L>, to: nat, visited: Trail, todo: seq<EdgeId>) {
    && g.Wf()
    && (forall i | 0 <= i < |visited| :: visited[i] in g.arcs && g.arcs[visited[i]].dst != to)
    && (forall i | 0 <= i < |todo| :: todo[i] in g.arcs)
    && Distinct(visited)
  }

  function Elements(s: seq<EdgeId>): set<EdgeId> {
    set i | 0 <= i < |s| :: s[i]
  }

  lemma LessLeft(all: set<EdgeId>, visited: Trail, e: EdgeId)
    requires e in all && e !in visited
    ensures |all - Elements(visited + [e])| < |all - Elements(visited)|
  {
    var a, b := all - Elements(visited + [e]), all - Elements(visited);
    assert (visited + [e])[|visited|] == e;
    forall x | x in Elements(visited) ensures x in Elements(visited + [e]) {
      var i :| 0 <= i < |visited| && visited[i] == x;
      assert (visited + [e])[i] == x;
    }
    forall x | x in Elements(visited + [e]) && x != e ensures x in Elements(visited) {
      var i :| 0 <= i < |visited + [e]| && (visited + [e])[i] == x;
    }
    assert b == a + {e};
  }

  /** The trails that extend visited by an edge of todo, in the order the loop finds them. */
  ghost function Explore<L>(g: Adjacency<L>, to: nat, visited: Trail, todo: seq<EdgeId>): seq<Trail>
    requires Ready(g, to, visited, todo)
    decreases |g.arcs.Keys - Elements(visited)|, |todo|
  {
    if todo == [] then []
    else
      var e, rest := todo[0], Explore(g, to, visited, todo[1..]);
      if g.arcs[e].dst == to then [visited + [e]] + rest
      else if e in visited then rest
      else
        LessLeft(g.arcs.Keys, visited, e);
        Explore(g, to, visited + [e], g.out[g.arcs[e].dst]) + rest
  }

  /** How often the loop body runs for this part of the search. */
  ghost function Steps<L>(g: Adjacency<L>, to: nat, visited: Trail, todo: seq<EdgeId>): nat
    requires Ready(g, to, visited, todo)
    decreases |g.arcs.Keys - Elements(visited)|, |todo|
  {
    if todo == [] then 1
    else
      var e, rest := todo[0], Steps(g, to, visited, todo[1..]);
      if g.arcs[e].dst == to || e in visited then 1 + rest
      else
        LessLeft(g.arcs.Keys, visited, e);
        1 + Steps(g, to, visited + [e], g.out[g.arcs[e].dst]) + rest
  }

  // ----- the loop -----

  /** The i-th frame explores below the first i visited edges. */
  ghost predicate StackReady<L>(g: Adjacency<L>, to: nat, visited: Trail, stack: seq<seq<EdgeId>>) {
    if stack == [] then visited == []
    else
      && |stack| == |visited| + 1
      && Ready(g, to, visited, stack[|stack| - 1])
      && (|stack| > 1 ==> StackReady(g, to, visited[..|visited| - 1], stack[..|stack| - 1]))
  }

  /** What the frames of the stack still have to yield, innermost first. */
  ghost function Pending<L>(g: Adjacency<L>, to: nat, visited: Trail, stack: seq<seq<EdgeId>>): seq<Trail>
    requires StackReady(g, to, visited, stack)
    decreases |stack|
  {
    if stack == [] then []
    else
      Explore(g, to, visited, stack[|stack| - 1]) +
      (if |stack| == 1 then [] else Pending(g, to, visited[..|visited| - 1], stack[..|stack| - 1]))
  }

  ghost function PendingSteps<L>(g: Adjacency<L>, to: nat, visited: Trail, stack: seq<seq<EdgeId>>): nat
    requires StackReady(g, to, visited, stack)
    decreases |stack|
  {
    if stack == [] then 0
    else
      Steps(g, to, visited, stack[|stack| - 1]) +
      (if |stack| == 1 then 0 else PendingSteps(g, to, visited[..|visited| - 1], stack[..|stack| - 1]))
  }

  /** Popping or replacing the top frame does not touch the frames below. */
  lemma TopReplaced<L>(g: Adjacency<L>, to: nat, visited: Trail, stack: seq<seq<EdgeId>>)
    requires stack != [] && StackReady(g, to, visited, stack) && stack[|stack| - 1] != []
    ensures var stack' := stack[..|stack| - 1] + [stack[|stack| - 1][1..]];
            StackReady(g, to, visited, stack')
    ensures var top, stack' := stack[|stack| - 1], stack[..|stack| - 1] + [stack[|stack| - 1][1..]];
            && PendingSteps(g, to, visited, stack) ==
                 Steps(g, to, visited, top) - Steps(g, to, visited, top[1..]) + PendingSteps(g, to, visited, stack')
            && forall u :: Explore(g, to, visited, top) == u + Explore(g, to, visited, top[1..])
                 ==> Pending(g, to, visited, stack) == u + Pending(g, to, visited, stack')
  {
    var top, stack' := stack[|stack| - 1], stack[..|stack| - 1] + [stack[|stack| - 1][1..]];
    assert stack'[..|stack'| - 1] == stack[..|stack| - 1];
    forall u | Explore(g, to, visited, top) == u + Explore(g, to, visited, top[1..])
      ensures Pending(g, to, visited, stack) == u + Pending(g, to, visited, stack')
    {
      var below := if |stack| == 1 then [] else Pending(g, to, visited[..|visited| - 1], stack[..|stack| - 1]);
      assert (u + Explore(g, to, visited, top[1..])) + below == u + (Explore(g, to, visited, top[1..]) + below);
    }
  }

  lemma FramePushed<L>(g: Adjacency<L>, to: nat, visited: Trail, stack: seq<seq<EdgeId>>, e: EdgeId, frame: seq<EdgeId>)
    requires stack != [] && StackReady(g, to, visited, stack) && Ready(g, to, visited + [e], frame)
    ensures StackReady(g, to, visited + [e], stack + [frame])
    ensures Pending(g, to, visited + [e], stack + [frame])
            == Explore(g, to, visited + [e], frame) + Pending(g, to, visited, stack)
    ensures PendingSteps(g, to, visited + [e], stack + [frame])
         == Steps(g, to, visited + [e], frame) + PendingSteps(g, to, visited, stack)
  {
    assert (visited + [e])[..|visited + [e]| - 1] == visited;
    assert (stack + [frame])[..|stack + [frame]| - 1] == stack;
  }

  function Advance(stack: seq<seq<EdgeId>>): seq<seq<EdgeId>>
    requires stack != [] && stack[|stack| - 1] != []
  {
    stack[..|stack| - 1] + [stack[|stack| - 1][1..]]
  }

  lemma YieldStep<L>(g: Adjacency<L>, to: nat, visited: Trail, stack: seq<seq<EdgeId>>)
    requires stack != [] && StackReady(g, to, visited, stack) && stack[|stack| - 1] != []
    requires g.arcs[stack[|stack| - 1][0]].dst == to
    ensures StackReady(g, to, visited, Advance(stack))
    ensures Pending(g, to, visited, stack) == [visited + [stack[|stack| - 1][0]]] + Pending(g, to, visited,
            Advance(stack))
    ensures PendingSteps(g, to, visited, Advance(stack)) < PendingSteps(g, to, visited, stack)
  {
    hide StackReady, Pending, PendingSteps;
    TopReplaced(g, to, visited, stack);
  }

  lemma SkipStep<L>(g: Adjacency<L>, to: nat, visited: Trail, stack: seq<seq<EdgeId>>)
    requires stack != [] && StackReady(g, to, visited, stack) && stack[|stack| - 1] != []
    requires g.arcs[stack[|stack| - 1][0]].dst != to && stack[|stack| - 1][0] in visited
    ensures StackReady(g, to, visited, Advance(stack))
    ensures Pending(g, to, visited, stack) == Pending(g, to, visited, Advance(stack))
    ensures PendingSteps(g, to, visited, Advance(stack)) < PendingSteps(g, to, visited, stack)
  {
    var top := stack[|stack| - 1];
    assert Explore(g, to, visited, top) == [] + Explore(g, to, visited, top[1..]);
    TopReplaced(g, to, visited, stack);
    assert [] + Pending(g, to, visited, Advance(stack)) == Pending(g, to, visited, Advance(stack));
  }

  lemma PushStep<L>(g: Adjacency<L>, to: nat, visited: Trail, stack: seq<seq<EdgeId>>)
    requires stack != [] && StackReady(g, to, visited, stack) && stack[|stack| - 1] != []
    requires g.arcs[stack[|stack| - 1][0]].dst != to && stack[|stack| - 1][0] !in visited
    ensures var e := stack[|stack| - 1][0];
            var visited', stack' := visited + [e], Advance(stack) + [g.out[g.arcs[e].dst]];
            && StackReady(g, to, visited', stack')
            && Pending(g, to, visited', stack') == Pending(g, to, visited, stack)
            && PendingSteps(g, to, visited', stack') < PendingSteps(g, to, visited, stack)
  {
    var e := stack[|stack| - 1][0];
    var frame := g.out[g.arcs[e].dst];
    assert Ready(g, to, visited + [e], frame);
    TopReplaced(g, to, visited, stack);
    hide Pending, PendingSteps;
    FramePushed(g, to, visited, Advance(stack), e, frame);
  }

  lemma PopStep<L>(g: Adjacency<L>, to: nat, visited: Trail, stack: seq<seq<EdgeId>>)
    requires stack != [] && StackReady(g, to, visited, stack) && stack[|stack| - 1] == []
    ensures var visited', stack' := if visited == [] then [] else visited[..|visited| - 1], stack[..|stack| - 1];
            && StackReady(g, to, visited', stack')
            && Pending(g, to, visited', stack') == Pending(g, to, visited, stack)
            && PendingSteps(g, to, visited', stack') < PendingSteps(g, to, visited, stack)
  {
  }

  method AllSimplePaths<L>(g: Adjacency<L>, from: nat, to: nat) returns (paths: seq<Trail>)
    requires g.Wf() && from in g.out
    ensures Ready(g, to, [], g.out[from]) && paths == Explore(g, to, [], g.out[from])
  {
    hide Pending, PendingSteps, Explore;
    var visited: Trail := [];
    var stack := [g.out[from]];
    paths := [];
    StartPending(g, from, to);
    ghost var all := Explore(g, to, [], g.out[from]);
    while stack != []
      invariant StackReady(g, to, visited, stack)
      invariant paths + Pending(g, to, visited, stack) == all
      decreases PendingSteps(g, to, visited, stack)
    {
      var top := stack[|stack| - 1];
      if top != [] {
        var child := top[0];
        if g.arcs[child].dst == to {
          YieldStep(g, to, visited, stack);
          paths := paths + [visited + [child]];
          stack := Advance(stack);
        } else if child in visited {
          SkipStep(g, to, visited, stack);
          stack := Advance(stack);
        } else {
          PushStep(g, to, visited, stack);
          visited, stack := visited + [child], Advance(stack) + [g.out[g.arcs[child].dst]];
        }
      } else {
        PopStep(g, to, visited, stack);
        visited, stack := if visited == [] then [] else visited[..|visited| - 1], stack[..|stack| - 1];
      }
    }
    NothingPending(g, to, visited);
  }

  lemma StartPending<L>(g: Adjacency<L>, from: nat, to: nat)
    requires g.Wf() && from in g.out
    ensures Ready(g, to, [], g.out[from]) && StackReady(g, to, [], [g.out[from]])
    ensures Pending(g, to, [], [g.out[from]]) == Explore(g, to, [], g.out[from])
  {
  }

  lemma NothingPending<L>(g: Adjacency<L>, to: nat, visited: Trail)
    requires StackReady(g, to, visited, [])
    ensures Pending(g, to, visited, []) == []
  {
  }

  // ----- what the recursion yields -----

  lemma {:induction false} PathConcat<L>(g: Adjacency<L>, n: nat, p: Trail, q: Trail)
    requires IsPath(g, n, p) && p != [] && p[|p| - 1] in g.arcs
    ensures IsPath(g, n, p + q) <==> IsPath(g, g.arcs[p[|p| - 1]].dst, q)
    decreases |p|
  {
    if |p| == 1 {
      assert p + q == [p[0]] + q && (p + q)[1..] == q;
    } else {
      PathConcat(g, g.arcs[p[0]].dst, p[1..], q);
      assert (p + q)[1..] == p[1..] + q;
    }
  }

  /** q continues visited by an edge of todo and ends with its first visit to the target. */
  ghost predicate Continues<L>(g: Adjacency<L>, to: nat, visited: Trail, todo: seq<EdgeId>, q: Trail) {
    && q != [] && q[0] in todo && q[0] in g.arcs && IsPath(g, g.arcs[q[0]].src, q) && Distinct(visited + q)
    && (forall i | 0 <= i < |q| :: q[i] in g.arcs && (g.arcs[q[i]].dst == to <==> i == |q| - 1))
  }

  lemma ContinuesDeeper<L>(g: Adjacency<L>, to: nat, visited: Trail, e: EdgeId, q: Trail)
    requires g.Wf() && e in g.arcs && g.arcs[e].dst != to
    ensures Continues(g, to, visited, [e], [e] + q) <==> Continues(g, to, visited + [e], g.out[g.arcs[e].dst], q)
  {
    var eq := [e] + q;
    assert eq[1..] == q && visited + eq == (visited + [e]) + q;
    assert forall i | 0 <= i < |q| :: eq[i + 1] == q[i];
    if Continues(g, to, visited, [e], eq) {
      assert q != [] by { assert g.arcs[eq[0]].dst != to; }
      assert IsPath(g, g.arcs[e].dst, q);
    }
    if Continues(g, to, visited + [e], g.out[g.arcs[e].dst], q) {
      assert IsPath(g, g.arcs[e].src, eq);
      forall i | 0 <= i < |eq| ensures eq[i] in g.arcs && (g.arcs[eq[i]].dst == to <==> i == |eq| - 1) {
        if i > 0 {
          assert eq[i] == q[i - 1];
        }
      }
    }
  }

  /** What the edge e of todo contributes. */
  ghost function Below<L>(g: Adjacency<L>, to: nat, visited: Trail, e: EdgeId): seq<Trail>
    requires Ready(g, to, visited, [e])
  {
    assert [e][0] == e;
    if g.arcs[e].dst == to then [visited + [e]]
    else if e in visited then []
    else Explore(g, to, visited + [e], g.out[g.arcs[e].dst])
  }

  lemma ExploreUnfold<L>(g: Adjacency<L>, to: nat, visited: Trail, todo: seq<EdgeId>)
    requires Ready(g, to, visited, todo) && todo != []
    ensures Ready(g, to, visited, [todo[0]]) && Ready(g, to, visited, todo[1..])
    ensures Explore(g, to, visited, todo) == Below(g, to, visited, todo[0]) + Explore(g, to, visited, todo[1..])
  {
  }

  /** Everything yielded is a trail. */
  lemma {:induction false} ExploreSound<L>(g: Adjacency<L>, to: nat, visited: Trail, todo: seq<EdgeId>, p: Trail)
    returns (q: Trail)
    requires Ready(g, to, visited, todo) && p in Explore(g, to, visited, todo)
    ensures p == visited + q && Continues(g, to, visited, todo, q)
    decreases |g.arcs.Keys - Elements(visited)|, |todo|, 1
  {
    if todo != [] {
      ExploreUnfold(g, to, visited, todo);
      hide Explore, Below, Ready, Elements;
      if p in Explore(g, to, visited, todo[1..]) {
        q := ExploreSound(g, to, visited, todo[1..], p);
      } else {
        q := BelowSound(g, to, visited, todo[0], todo, p);
      }
    }
  }

  lemma {:induction false} BelowSound<L>(g: Adjacency<L>, to: nat, visited: Trail, e: EdgeId, todo: seq<EdgeId>,
                                         p: Trail)
    returns (q: Trail)
    requires Ready(g, to, visited, [e]) && p in Below(g, to, visited, e) && e in todo
    ensures p == visited + q && q != [] && q[0] == e && Continues(g, to, visited, todo, q)
    decreases |g.arcs.Keys - Elements(visited)|, |todo|, 0
  {
    hide Explore, Elements;
    assert [e][0] == e && [e][1..] == [];
    if g.arcs[e].dst == to {
      q := [e];
      assert e !in visited;
      DistinctConcat(visited, [e]);
      assert IsPath(g, g.arcs[e].src, [e]);
    } else {
      LessLeft(g.arcs.Keys, visited, e);
      var q' := ExploreSound(g, to, visited + [e], g.out[g.arcs[e].dst], p);
      q := [e] + q';
      ContinuesDeeper(g, to, visited, e, q');
    }
  }

  /** Every trail is yielded. */
  lemma {:induction false} ExploreComplete<L>(g: Adjacency<L>, to: nat, visited: Trail, todo: seq<EdgeId>, q: Trail)
    requires Ready(g, to, visited, todo) && Continues(g, to, visited, todo, q)
    ensures visited + q in Explore(g, to, visited, todo)
    decreases |g.arcs.Keys - Elements(visited)|, |todo|, 1
  {
    ExploreUnfold(g, to, visited, todo);
    hide Explore, Below, Ready, Elements;
    if q[0] != todo[0] {
      ExploreComplete(g, to, visited, todo[1..], q);
    } else {
      BelowComplete(g, to, visited, todo[0], todo, q);
    }
  }

  lemma {:induction false} BelowComplete<L>(g: Adjacency<L>, to: nat, visited: Trail, e: EdgeId, todo: seq<EdgeId>,
                                            q: Trail)
    requires Ready(g, to, visited, [e]) && Continues(g, to, visited, [e], q)
    ensures visited + q in Below(g, to, visited, e)
    decreases |g.arcs.Keys - Elements(visited)|, |todo|, 0
  {
    hide Explore, Elements;
    assert [e][0] == e && q == [e] + q[1..];
    if g.arcs[e].dst == to {
      assert q == [e];
    } else {
      NotVisited(visited, q);
      LessLeft(g.arcs.Keys, visited, e);
      ContinuesDeeper(g, to, visited, e, q[1..]);
      assert Ready(g, to, visited + [e], g.out[g.arcs[e].dst]);
      ExploreComplete(g, to, visited + [e], g.out[g.arcs[e].dst], q[1..]);
      assert (visited + [e]) + q[1..] == visited + q;
    }
  }

  lemma NotVisited(visited: Trail, q: Trail)
    requires q != [] && Distinct(visited + q)
    ensures q[0] !in visited
  {
    assert (visited + q)[|visited|] == q[0];
    assert forall i | 0 <= i < |visited| :: (visited + q)[i] == visited[i];
  }

  lemma DistinctConcat<T>(a: seq<T>, b: seq<T>)
    requires Distinct(a) && Distinct(b) && forall x | x in a :: x !in b
    ensures Distinct(a + b)
  {
    forall i, j | 0 <= i < j < |a + b| ensures (a + b)[i] != (a + b)[j] {
      if i < |a| <= j {
        assert (a + b)[i] == a[i] && (a + b)[j] == b[j - |a|] && a[i] in a && b[j - |a|] in b;
      }
    }
  }

  /** Nothing is yielded twice. */
  lemma {:induction false} ExploreDistinct<L>(g: Adjacency<L>, to: nat, visited: Trail, todo: seq<EdgeId>)
    requires Ready(g, to, visited, todo) && Distinct(todo)
    ensures Distinct(Explore(g, to, visited, todo))
    decreases |g.arcs.Keys - Elements(visited)|, |todo|, 1
  {
    if todo != [] {
      ExploreUnfold(g, to, visited, todo);
      hide Explore, Below, Ready, Elements, Continues;
      var below, rest := Below(g, to, visited, todo[0]), Explore(g, to, visited, todo[1..]);
      ExploreDistinct(g, to, visited, todo[1..]);
      BelowDistinct(g, to, visited, todo[0], todo);
      forall p | p in below ensures p !in rest {
        BelowNotRest(g, to, visited, todo, p);
      }
      DistinctConcat(below, rest);
    }
  }

  lemma BelowNotRest<L>(g: Adjacency<L>, to: nat, visited: Trail, todo: seq<EdgeId>, p: Trail)
    requires todo != [] && Ready(g, to, visited, [todo[0]]) && Ready(g, to, visited, todo[1..]) && Distinct(todo)
    requires p in Below(g, to, visited, todo[0])
    ensures p !in Explore(g, to, visited, todo[1..])
  {
    var q := BelowSound(g, to, visited, todo[0], todo, p);
    hide Explore, Below, Ready;
    if p in Explore(g, to, visited, todo[1..]) {
      var q' := ExploreSound(g, to, visited, todo[1..], p);
      SameTail(visited, q, q');
    }
  }

  lemma SameTail(u: Trail, q: Trail, q': Trail)
    requires u + q == u + q'
    ensures q == q'
  {
    assert (u + q)[|u|..] == q && (u + q')[|u|..] == q';
  }

  lemma {:induction false} BelowDistinct<L>(g: Adjacency<L>, to: nat, visited: Trail, e: EdgeId, todo: seq<EdgeId>)
    requires Ready(g, to, visited, [e])
    ensures Distinct(Below(g, to, visited, e))
    decreases |g.arcs.Keys - Elements(visited)|, |todo|, 0
  {
    assert [e][0] == e;
    if g.arcs[e].dst != to && e !in visited {
      LessLeft(g.arcs.Keys, visited, e);
      assert Ready(g, to, visited + [e], g.out[g.arcs[e].dst]);
      ExploreDistinct(g, to, visited + [e], g.out[g.arcs[e].dst]);
    }
  }

  /** The enumeration: every trail exactly once, and nothing else. */
  lemma AllTrailsOnce<L>(g: Adjacency<L>, from: nat, to: nat)
    requires g.Wf() && from in g.out && Ready(g, to, [], g.out[from])
    ensures forall p :: p in Explore(g, to, [], g.out[from]) <==> IsTrail(g, from, to, p)
    ensures Distinct(Explore(g, to, [], g.out[from]))
  {
    forall p ensures p in Explore(g, to, [], g.out[from]) <==> IsTrail(g, from, to, p) {
      assert [] + p == p;
      if p in Explore(g, to, [], g.out[from]) {
        var q := ExploreSound(g, to, [], g.out[from], p);
        assert p == q;
      }
      if IsTrail(g, from, to, p) {
        ExploreComplete(g, to, [], g.out[from], p);
      }
    }
    ExploreDistinct(g, to, [], g.out[from]);
  }
}
