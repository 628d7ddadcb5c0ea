/** Words of automaton edges: what they pop, what they push, and whether all pops come first. */
module StackWords {
  import opened Pushdown

  type Word = seq<FsaEdge>

  function Pops(w: Word): seq<StackSymbol> {
    if w == [] then [] else (if w[0].Pop? then [w[0].sym] else []) + Pops(w[1..])
  }

  /** In the order they are pushed, so the last one ends up on top. */
  function Pushes(w: Word): seq<StackSymbol> {
    if w == [] then [] else (if w[0].Push? then [w[0].sym] else []) + Pushes(w[1..])
  }

  ghost predicate PopsFirst(w: Word) {
    forall i, j | 0 <= i < j < |w| :: !(w[i].Push? && w[j].Pop?)
  }

  ghost predicate HasPush(w: Word) {
    exists i :: 0 <= i < |w| && w[i].Push?
  }

  lemma {:induction false} PopsConcat(u: Word, v: Word)
    ensures Pops(u + v) == Pops(u) + Pops(v)
    decreases |u|
  {
    if u == [] {
      assert u + v == v;
    } else {
      PopsConcat(u[1..], v);
      assert (u + v)[1..] == u[1..] + v;
    }
  }

  lemma {:induction false} PushesConcat(u: Word, v: Word)
    ensures Pushes(u + v) == Pushes(u) + Pushes(v)
    decreases |u|
  {
    if u == [] {
      assert u + v == v;
    } else {
      PushesConcat(u[1..], v);
      assert (u + v)[1..] == u[1..] + v;
    }
  }

  lemma {:induction false} NoPops(w: Word)
    requires forall i | 0 <= i < |w| :: !w[i].Pop?
    ensures Pops(w) == []
    decreases |w|
  {
    if w != [] {
      NoPops(w[1..]);
    }
  }

  lemma {:induction false} NoPushes(w: Word)
    requires forall i | 0 <= i < |w| :: !w[i].Push?
    ensures Pushes(w) == []
    decreases |w|
  {
    if w != [] {
      NoPushes(w[1..]);
    }
  }

  lemma PopsFirstConcat(u: Word, v: Word)
    requires PopsFirst(u) && forall i | 0 <= i < |v| :: !v[i].Pop?
    ensures PopsFirst(u + v)
  {
  }

  lemma SnocShape(w: Word, l: FsaEdge)
    ensures HasPush(w + [l]) <==> HasPush(w) || l.Push?
    ensures PopsFirst(w + [l]) <==> PopsFirst(w) && !(HasPush(w) && l.Pop?)
  {
    var v := w + [l];
    assert v[|w|] == l && forall i | 0 <= i < |w| :: v[i] == w[i];
    if HasPush(w) {
      var i :| 0 <= i < |w| && w[i].Push?;
      assert v[i].Push?;
    }
  }
}
