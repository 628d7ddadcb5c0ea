/**
 * Searching label paths (src/graph_algos/mod.rs, explore_paths and find_node). Draining the
 * source's iterator is one run of the loop below.
 */
module GraphSearch {
  import opened Graphs

  type ArcPath<S, L> = seq<Arc<S, L>>

  function Nodes<S(==), L>(items: seq<(ArcPath<S, L>, S)>): set<S> {
    set i | 0 <= i < |items| :: items[i].1
  }

  ghost predicate AllConnect<S, L>(E: set<Arc<S, L>>, start: S, items: seq<(ArcPath<S, L>, S)>) {
    forall i | 0 <= i < |items| :: Connects(E, start, items[i].0, items[i].1)
  }

  ghost predicate NodesDiffer<S, L>(items: seq<(ArcPath<S, L>, S)>) {
    forall i, j | 0 <= i < j < |items| :: items[i].1 != items[j].1
  }

  /** Every arc out of a found node leads to a found node or to one on the stack. */
  ghost predicate Frontier<S, L>(E: set<Arc<S, L>>, found: seq<(ArcPath<S, L>, S)>, stack: seq<(ArcPath<S, L>, S)>) {
    forall e | e in E && e.src in Nodes(found) :: e.dst in Nodes(found) || e.dst in Nodes(stack)
  }

  lemma NodesSnoc<S, L>(items: seq<(ArcPath<S, L>, S)>, x: (ArcPath<S, L>, S))
    ensures Nodes(items + [x]) == Nodes(items) + {x.1}
  {
    var longer := items + [x];
    assert longer[|items|] == x;
    forall y | y in Nodes(items) ensures y in Nodes(longer) {
      var i :| 0 <= i < |items| && items[i].1 == y;
      assert longer[i].1 == y;
    }
  }

  /** The stack after pushing the unvisited targets of the arcs out of a node, in some order. */
  method PushChildren<S(==, !new), L(==, !new)>(E: set<Arc<S, L>>, start: S, path: ArcPath<S, L>, x: S, visited: set<S>,
                                               stack: seq<(ArcPath<S, L>, S)>) returns (stack': seq<(ArcPath<S, L>, S)>)
    requires Connects(E, start, path, x) && AllConnect(E, start, stack)
    ensures AllConnect(E, start, stack')
    ensures Nodes(stack') == Nodes(stack) + set e | e in E && e.src == x && e.dst !in visited :: e.dst
  {
    stack' := stack;
    var children := set e | e in E && e.src == x && e.dst !in visited;
    var todo := children;
    while todo != {}
      invariant todo <= children && AllConnect(E, start, stack')
      invariant Nodes(stack') == Nodes(stack) + set e | e in children - todo :: e.dst
    {
      var e :| e in todo;
      ConnectsSnoc(E, start, path, e);
      NodesSnoc(stack', (path + [e], e.dst));
      assert children - (todo - {e}) == (children - todo) + {e};
      stack', todo := stack' + [(path + [e], e.dst)], todo - {e};
    }
    assert children - todo == children;
  }

  /** Depth-first search that yields each reachable node exactly once, with a path to it. */
  method ExplorePaths<S(==, !new), L(==, !new)>(E: set<Arc<S, L>>, start: S) returns (found: seq<(ArcPath<S, L>, S)>)
    ensures AllConnect(E, start, found) && NodesDiffer(found)
    ensures forall x :: x in Nodes(found) <==> Reachable(E, start, x)
  {
    hide Connects;
    found := [];
    var visited: set<S> := {};
    var stack: seq<(ArcPath<S, L>, S)> := [([], start)];
    ghost var all := {start} + set e | e in E :: e.dst;
    ConnectsSelf(E, start);
    assert stack[0].1 in Nodes(stack);
    while stack != []
      invariant visited == Nodes(found) && AllConnect(E, start, found) && AllConnect(E, start, stack)
      invariant NodesDiffer(found)
      invariant Nodes(stack) <= all && visited <= all && start in Nodes(found) + Nodes(stack)
      invariant Frontier(E, found, stack)
      decreases all - visited, |stack|
    {
      var (path, x) := stack[|stack| - 1];
      var rest := stack[..|stack| - 1];
      assert stack == rest + [(path, x)];
      NodesSnoc(rest, (path, x));
      if x !in visited {
        NodesSnoc(found, (path, x));
        visited := visited + {x};
        var pushed := PushChildren(E, start, path, x, visited, rest);
        FrontierStep(E, found, stack, path, x, rest, pushed);
        assert x in all - Nodes(found);
        found := found + [(path, x)];
        stack := pushed;
      } else {
        stack := rest;
      }
    }
    Found(E, start, found);
  }

  lemma ConnectsSelf<S, L>(E: set<Arc<S, L>>, start: S)
    ensures Connects(E, start, [], start)
  {
  }

  lemma FrontierStep<S, L>(E: set<Arc<S, L>>, found: seq<(ArcPath<S, L>, S)>, stack: seq<(ArcPath<S, L>, S)>,
                           path: ArcPath<S, L>, x: S, rest: seq<(ArcPath<S, L>, S)>, pushed: seq<(ArcPath<S, L>, S)>)
    requires Frontier(E, found, stack) && Nodes(stack) == Nodes(rest) + {x}
    requires Nodes(pushed) == Nodes(rest) + set e | e in E && e.src == x && e.dst !in Nodes(found) + {x} :: e.dst
    ensures Frontier(E, found + [(path, x)], pushed)
  {
    NodesSnoc(found, (path, x));
  }

  lemma Found<S, L(!new)>(E: set<Arc<S, L>>, start: S, found: seq<(ArcPath<S, L>, S)>)
    requires AllConnect(E, start, found) && Frontier(E, found, []) && start in Nodes(found)
    ensures forall x :: x in Nodes(found) <==> Reachable(E, start, x)
  {
    forall x ensures x in Nodes(found) <==> Reachable(E, start, x) {
      if x in Nodes(found) {
        var i :| 0 <= i < |found| && found[i].1 == x;
        ConnectsRun(E, start, found[i].0, x);
      }
      if Reachable(E, start, x) {
        ReachableStaysInside(E, Nodes(found), start, x);
      }
    }
  }

  /** Follows the labels; in a deterministic graph the answer is the one node they lead to. */
  method FindNode<S(==, !new), L(==, !new)>(E: set<Arc<S, L>>, start: S, path: seq<L>) returns (r: Option<S>)
    ensures r.Some? ==> r.value in Run(E, {start}, path)
    ensures Deterministic(E) ==> Run(E, {start}, path) == if r.Some? then {r.value} else {}
  {
    var curr := start;
    for i := 0 to |path|
      invariant curr in Run(E, {start}, path[..i])
      invariant Deterministic(E) ==> Run(E, {start}, path[..i]) == {curr}
    {
      assert path[..i + 1] == path[..i] + [path[i]];
      RunSnoc(E, {start}, path[..i], path[i]);
      if e :| e in E && e.src == curr && e.lab == path[i] {
        curr := e.dst;
      } else {
        if Deterministic(E) {
          assert Step(E, {curr}, path[i]) == {};
          assert path == path[..i + 1] + path[i + 1..];
          RunConcat(E, {start}, path[..i + 1], path[i + 1..]);
          RunOfNothing(E, path[i + 1..]);
        }
        return None;
      }
    }
    assert path[..|path|] == path;
    return Some(curr);
  }
}
