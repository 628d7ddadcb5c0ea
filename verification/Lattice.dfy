/**
 * Lattice operations, lattice laws, and the bounds that sketch nodes carry
 * (src/solver/type_sketch.rs, LatticeBounds).
 */
module Lattice {

  datatype Ops<!T> = Ops(join: (T, T) -> T, meet: (T, T) -> T)

  /** Closure, commutativity, associativity and absorption for three given elements. */
  ghost predicate LawsAt<T>(dom: set<T>, o: Ops<T>, x: T, y: T, z: T) {
    && o.join(x, y) in dom && o.meet(x, y) in dom
    && o.join(x, y) == o.join(y, x) && o.meet(x, y) == o.meet(y, x)
    && o.join(o.join(x, y), z) == o.join(x, o.join(y, z))
    && o.meet(o.meet(x, y), z) == o.meet(x, o.meet(y, z))
    && o.join(x, o.meet(x, y)) == x && o.meet(x, o.join(x, y)) == x
  }

  /** The lattice laws on the elements of dom. */
  ghost predicate IsLattice<T(!new)>(dom: set<T>, o: Ops<T>) {
    forall x, y, z {:trigger LawsAt(dom, o, x, y, z)} | x in dom && y in dom && z in dom :: LawsAt(dom, o, x, y, z)
  }

  ghost predicate Leq<T>(o: Ops<T>, x: T, y: T) {
    o.join(x, y) == y
  }

  lemma Laws<T(!new)>(dom: set<T>, o: Ops<T>, x: T, y: T, z: T)
    requires IsLattice(dom, o) && x in dom && y in dom && z in dom
    ensures LawsAt(dom, o, x, y, z)
  {
    assert LawsAt(dom, o, x, y, z);
  }

  lemma MeetForm<T(!new)>(dom: set<T>, o: Ops<T>, x: T, y: T)
    requires IsLattice(dom, o) && x in dom && y in dom
    ensures Leq(o, x, y) <==> o.meet(x, y) == x
  {
    hide IsLattice;
    Laws(dom, o, x, y, x);
    Laws(dom, o, y, x, y);
  }

  lemma LeqReflexive<T(!new)>(dom: set<T>, o: Ops<T>, x: T)
    requires IsLattice(dom, o) && x in dom
    ensures Leq(o, x, x)
  {
    hide IsLattice;
    Laws(dom, o, x, x, x);
    Laws(dom, o, x, o.join(x, x), x);
  }

  lemma LeqAntisymmetric<T(!new)>(dom: set<T>, o: Ops<T>, x: T, y: T)
    requires IsLattice(dom, o) && x in dom && y in dom && Leq(o, x, y) && Leq(o, y, x)
    ensures x == y
  {
    hide IsLattice;
    Laws(dom, o, x, y, x);
  }

  lemma LeqTransitive<T(!new)>(dom: set<T>, o: Ops<T>, x: T, y: T, z: T)
    requires IsLattice(dom, o) && x in dom && y in dom && z in dom && Leq(o, x, y) && Leq(o, y, z)
    ensures Leq(o, x, z)
  {
    hide IsLattice;
    Laws(dom, o, x, y, z);
  }

  /** The join is the least upper bound. */
  lemma JoinIsLub<T(!new)>(dom: set<T>, o: Ops<T>, x: T, y: T, z: T)
    requires IsLattice(dom, o) && x in dom && y in dom && z in dom
    ensures o.join(x, y) in dom && Leq(o, x, o.join(x, y)) && Leq(o, y, o.join(x, y))
    ensures Leq(o, x, z) && Leq(o, y, z) ==> Leq(o, o.join(x, y), z)
  {
    hide IsLattice;
    Laws(dom, o, x, y, z);
    Laws(dom, o, y, x, z);
    MeetForm(dom, o, x, o.join(x, y));
    MeetForm(dom, o, y, o.join(x, y));
  }

  /** The meet is the greatest lower bound. */
  lemma MeetIsGlb<T(!new)>(dom: set<T>, o: Ops<T>, x: T, y: T, z: T)
    requires IsLattice(dom, o) && x in dom && y in dom && z in dom
    ensures o.meet(x, y) in dom && Leq(o, o.meet(x, y), x) && Leq(o, o.meet(x, y), y)
    ensures Leq(o, z, x) && Leq(o, z, y) ==> Leq(o, z, o.meet(x, y))
  {
    hide IsLattice;
    Laws(dom, o, x, y, z);
    Laws(dom, o, y, x, z);
    Laws(dom, o, z, x, y);
    Laws(dom, o, o.meet(x, y), x, x);
    Laws(dom, o, o.meet(x, y), y, y);
    MeetForm(dom, o, z, x);
    MeetForm(dom, o, z, y);
    MeetForm(dom, o, z, o.meet(x, y));
  }

  // ----- bounds of sketch nodes -----

  datatype Bounds<T> = Bounds(upper: T, lower: T)

  /** Merging two nodes: both upper bounds hold, and both lower bounds. */
  function Operate<T>(o: Ops<T>, left: Bounds<T>, right: Bounds<T>): Bounds<T> {
    Bounds(o.meet(right.upper, left.upper), o.join(right.lower, left.lower))
  }

  /** The source's reduce over the weights of a group, in the order they come. */
  function FoldBounds<T>(o: Ops<T>, ws: seq<Bounds<T>>): Bounds<T>
    requires ws != []
  {
    if |ws| == 1 then ws[0] else Operate(o, FoldBounds(o, ws[..|ws| - 1]), ws[|ws| - 1])
  }

  ghost predicate IsGlb<T>(dom: set<T>, o: Ops<T>, S: set<T>, m: T) {
    m in dom && (forall x | x in S :: Leq(o, m, x))
      && (forall z | z in dom && (forall x | x in S :: Leq(o, z, x)) :: Leq(o, z, m))
  }

  ghost predicate IsLub<T>(dom: set<T>, o: Ops<T>, S: set<T>, m: T) {
    m in dom && (forall x | x in S :: Leq(o, x, m))
      && (forall z | z in dom && (forall x | x in S :: Leq(o, x, z)) :: Leq(o, m, z))
  }

  function Uppers<T>(ws: seq<Bounds<T>>): set<T> {
    set i | 0 <= i < |ws| :: ws[i].upper
  }

  function Lowers<T>(ws: seq<Bounds<T>>): set<T> {
    set i | 0 <= i < |ws| :: ws[i].lower
  }

  /** The folded upper bound is the meet of all upper bounds, the folded lower bound the join of all lower ones. */
  lemma {:induction false} FoldIsTight<T(!new)>(dom: set<T>, o: Ops<T>, ws: seq<Bounds<T>>)
    requires IsLattice(dom, o) && ws != [] && Uppers(ws) <= dom && Lowers(ws) <= dom
    ensures IsGlb(dom, o, Uppers(ws), FoldBounds(o, ws).upper)
    ensures IsLub(dom, o, Lowers(ws), FoldBounds(o, ws).lower)
    decreases |ws|
  {
    hide IsLattice, Leq;
    var last := ws[|ws| - 1];
    assert last.upper in Uppers(ws) && last.lower in Lowers(ws);
    if |ws| == 1 {
      LeqReflexive(dom, o, last.upper);
      LeqReflexive(dom, o, last.lower);
    } else {
      var front := ws[..|ws| - 1];
      assert Uppers(ws) == Uppers(front) + {last.upper} && Lowers(ws) == Lowers(front) + {last.lower};
      FoldIsTight(dom, o, front);
      hide IsGlb, IsLub;
      GlbAdd(dom, o, Uppers(front), FoldBounds(o, front).upper, last.upper);
      LubAdd(dom, o, Lowers(front), FoldBounds(o, front).lower, last.lower);
    }
  }

  lemma GlbAdd<T(!new)>(dom: set<T>, o: Ops<T>, S: set<T>, m: T, x: T)
    requires IsLattice(dom, o) && S <= dom && x in dom && IsGlb(dom, o, S, m)
    ensures IsGlb(dom, o, S + {x}, o.meet(x, m))
  {
    hide IsLattice, Leq;
    var n := o.meet(x, m);
    MeetIsGlb(dom, o, x, m, x);
    forall y | y in S ensures Leq(o, n, y) {
      LeqTransitive(dom, o, n, m, y);
    }
    forall z | z in dom && forall y | y in S + {x} :: Leq(o, z, y) ensures Leq(o, z, n) {
      assert x in S + {x} && forall y | y in S :: y in S + {x};
      MeetIsGlb(dom, o, x, m, z);
    }
  }

  lemma LubAdd<T(!new)>(dom: set<T>, o: Ops<T>, S: set<T>, m: T, x: T)
    requires IsLattice(dom, o) && S <= dom && x in dom && IsLub(dom, o, S, m)
    ensures IsLub(dom, o, S + {x}, o.join(x, m))
  {
    hide IsLattice, Leq;
    var n := o.join(x, m);
    JoinIsLub(dom, o, x, m, x);
    forall y | y in S ensures Leq(o, y, n) {
      LeqTransitive(dom, o, y, m, n);
    }
    forall z | z in dom && forall y | y in S + {x} :: Leq(o, y, z) ensures Leq(o, n, z) {
      assert x in S + {x} && forall y | y in S :: y in S + {x};
      JoinIsLub(dom, o, x, m, z);
    }
  }

  /** The order in which the weights of a group are folded does not matter. */
  lemma FoldOrderFree<T(!new)>(dom: set<T>, o: Ops<T>, ws: seq<Bounds<T>>, vs: seq<Bounds<T>>)
    requires IsLattice(dom, o) && ws != [] && vs != []
    requires Uppers(ws) == Uppers(vs) <= dom && Lowers(ws) == Lowers(vs) <= dom
    ensures FoldBounds(o, ws) == FoldBounds(o, vs)
  {
    hide IsLattice, Leq, FoldBounds;
    FoldIsTight(dom, o, ws);
    FoldIsTight(dom, o, vs);
    LeqAntisymmetric(dom, o, FoldBounds(o, ws).upper, FoldBounds(o, vs).upper);
    LeqAntisymmetric(dom, o, FoldBounds(o, ws).lower, FoldBounds(o, vs).lower);
  }

  ghost predicate IsUnion<T>(parts: map<nat, set<T>>, S: set<T>) {
    && (forall x, y | x in parts && y in parts[x] :: y in S)
    && (forall y | y in S :: exists x :: x in parts && y in parts[x])
  }

  ghost predicate IsRange<T>(mids: map<nat, T>, M: set<T>) {
    (forall x | x in mids :: mids[x] in M) && forall v | v in M :: exists x :: x in mids && mids[x] == v
  }

  /** The meet of meets is the meet of everything. */
  lemma GlbOfGlbs<T(!new)>(dom: set<T>, o: Ops<T>, parts: map<nat, set<T>>, mids: map<nat, T>, M: set<T>, S: set<T>,
                           m: T)
    requires IsLattice(dom, o) && S <= dom && mids.Keys == parts.Keys && IsUnion(parts, S)
    requires (forall x | x in parts :: IsGlb(dom, o, parts[x], mids[x])) && IsRange(mids, M) && IsGlb(dom, o, M, m)
    ensures IsGlb(dom, o, S, m)
  {
    hide IsLattice, Leq;
    forall y | y in S ensures Leq(o, m, y) {
      var x :| x in parts && y in parts[x];
      assert mids[x] in M;
      LeqTransitive(dom, o, m, mids[x], y);
    }
    forall z | z in dom && forall y | y in S :: Leq(o, z, y) ensures Leq(o, z, m) {
      forall v | v in M ensures Leq(o, z, v) {
        var x :| x in mids && mids[x] == v;
        assert IsGlb(dom, o, parts[x], mids[x]);
        assert forall y | y in parts[x] :: y in S && Leq(o, z, y);
      }
    }
  }

  lemma LubOfLubs<T(!new)>(dom: set<T>, o: Ops<T>, parts: map<nat, set<T>>, mids: map<nat, T>, M: set<T>, S: set<T>,
                           m: T)
    requires IsLattice(dom, o) && S <= dom && mids.Keys == parts.Keys && IsUnion(parts, S)
    requires (forall x | x in parts :: IsLub(dom, o, parts[x], mids[x])) && IsRange(mids, M) && IsLub(dom, o, M, m)
    ensures IsLub(dom, o, S, m)
  {
    hide IsLattice, Leq;
    forall y | y in S ensures Leq(o, y, m) {
      var x :| x in parts && y in parts[x];
      assert mids[x] in M;
      LeqTransitive(dom, o, y, mids[x], m);
    }
    forall z | z in dom && forall y | y in S :: Leq(o, y, z) ensures Leq(o, m, z) {
      forall v | v in M ensures Leq(o, v, z) {
        var x :| x in mids && mids[x] == v;
        assert IsLub(dom, o, parts[x], mids[x]);
        assert forall y | y in parts[x] :: y in S && Leq(o, y, z);
      }
    }
  }
}
