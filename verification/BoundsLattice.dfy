/** The bounds of sketch nodes as a lattice of their own (src/solver/type_sketch.rs, LatticeBounds). */
module BoundsLattice {
  import opened Lattice

  datatype Ordering = Less | Equal | Greater | Incomparable

  function JoinOf<T>(o: Ops<T>, x: Bounds<T>, y: Bounds<T>): Bounds<T> {
    Bounds(o.join(x.upper, y.upper), o.join(x.lower, y.lower))
  }

  function MeetOf<T>(o: Ops<T>, x: Bounds<T>, y: Bounds<T>): Bounds<T> {
    Bounds(o.meet(x.upper, y.upper), o.meet(x.lower, y.lower))
  }

  function BoundsOps<T>(o: Ops<T>): Ops<Bounds<T>> {
    Ops((x, y) => JoinOf(o, x, y), (x, y) => MeetOf(o, x, y))
  }

  /** The comparison of the source, decided by the join. */
  function PartialCmp<T(==)>(o: Ops<T>, self: Bounds<T>, other: Bounds<T>): Ordering {
    if other == self then Equal
    else if JoinOf(o, self, other) == self then Greater
    else if JoinOf(o, self, other) == other then Less
    else Incomparable
  }

  function AllBounds<T>(dom: set<T>): set<Bounds<T>> {
    set u, l | u in dom && l in dom :: Bounds(u, l)
  }

  /** Over a lattice, bounds under the pairwise operations satisfy the lattice laws. */
  lemma BoundsAreLattice<T(!new)>(dom: set<T>, o: Ops<T>)
    requires IsLattice(dom, o)
    ensures IsLattice(AllBounds(dom), BoundsOps(o))
  {
    hide LawsAt, AllBounds, BoundsOps;
    forall x, y, z | x in AllBounds(dom) && y in AllBounds(dom) && z in AllBounds(dom)
      ensures LawsAt(AllBounds(dom), BoundsOps(o), x, y, z)
    {
      BoundsLaws(dom, o, x, y, z);
    }
  }

  lemma BoundsLaws<T(!new)>(dom: set<T>, o: Ops<T>, x: Bounds<T>, y: Bounds<T>, z: Bounds<T>)
    requires IsLattice(dom, o) && x in AllBounds(dom) && y in AllBounds(dom) && z in AllBounds(dom)
    ensures LawsAt(AllBounds(dom), BoundsOps(o), x, y, z)
  {
    hide IsLattice;
    Laws(dom, o, x.upper, y.upper, z.upper);
    Laws(dom, o, x.lower, y.lower, z.lower);
  }

  /** The comparison is the pairwise order: both bounds less or equal, whatever the join picks. */
  lemma ComparisonIsPairwise<T(!new)>(dom: set<T>, o: Ops<T>, x: Bounds<T>, y: Bounds<T>)
    requires IsLattice(dom, o) && x in AllBounds(dom) && y in AllBounds(dom)
    ensures PartialCmp(o, x, y) in {Less, Equal} <==> Leq(o, x.upper, y.upper) && Leq(o, x.lower, y.lower)
    ensures PartialCmp(o, x, y) == Greater <==> PartialCmp(o, y, x) == Less
  {
    hide IsLattice;
    Laws(dom, o, x.upper, y.upper, x.upper);
    Laws(dom, o, x.lower, y.lower, x.lower);
    LeqReflexive(dom, o, x.upper);
    LeqReflexive(dom, o, x.lower);
  }

  /** Both bounds of x are below those of y. */
  ghost predicate PairLeq<T>(o: Ops<T>, x: Bounds<T>, y: Bounds<T>) {
    Leq(o, x.upper, y.upper) && Leq(o, x.lower, y.lower)
  }

  /** In that order the join is the least above both. */
  lemma JoinOfBounds<T(!new)>(dom: set<T>, o: Ops<T>, x: Bounds<T>, y: Bounds<T>, z: Bounds<T>)
    requires IsLattice(dom, o) && x in AllBounds(dom) && y in AllBounds(dom) && z in AllBounds(dom)
    ensures var j := BoundsOps(o).join(x, y);
            && j in AllBounds(dom) && PairLeq(o, x, j) && PairLeq(o, y, j)
            && (PairLeq(o, x, z) && PairLeq(o, y, z) ==> PairLeq(o, j, z))
  {
    hide IsLattice, Leq;
    JoinIsLub(dom, o, x.upper, y.upper, z.upper);
    JoinIsLub(dom, o, x.lower, y.lower, z.lower);
  }

  /** And the meet is the greatest below both. */
  lemma MeetOfBounds<T(!new)>(dom: set<T>, o: Ops<T>, x: Bounds<T>, y: Bounds<T>, z: Bounds<T>)
    requires IsLattice(dom, o) && x in AllBounds(dom) && y in AllBounds(dom) && z in AllBounds(dom)
    ensures var m := BoundsOps(o).meet(x, y);
            && m in AllBounds(dom) && PairLeq(o, m, x) && PairLeq(o, m, y)
            && (PairLeq(o, z, x) && PairLeq(o, z, y) ==> PairLeq(o, z, m))
  {
    hide IsLattice, Leq;
    MeetIsGlb(dom, o, x.upper, y.upper, z.upper);
    MeetIsGlb(dom, o, x.lower, y.lower, z.lower);
  }

  /** Merging two nodes intersects their intervals: an element fits the result exactly when it fits both. */
  lemma MergeIsIntersection<T(!new)>(dom: set<T>, o: Ops<T>, x: Bounds<T>, y: Bounds<T>, t: T)
    requires IsLattice(dom, o) && x in AllBounds(dom) && y in AllBounds(dom) && t in dom
    ensures Fits(o, Operate(o, x, y), t) <==> Fits(o, x, t) && Fits(o, y, t)
  {
    hide IsLattice, Leq;
    var u, l := o.meet(y.upper, x.upper), o.join(y.lower, x.lower);
    MeetIsGlb(dom, o, y.upper, x.upper, t);
    JoinIsLub(dom, o, y.lower, x.lower, t);
    if Leq(o, t, u) {
      LeqTransitive(dom, o, t, u, x.upper);
      LeqTransitive(dom, o, t, u, y.upper);
    }
    if Leq(o, l, t) {
      LeqTransitive(dom, o, x.lower, l, t);
      LeqTransitive(dom, o, y.lower, l, t);
    }
  }

  ghost predicate Fits<T>(o: Ops<T>, b: Bounds<T>, t: T) {
    Leq(o, b.lower, t) && Leq(o, t, b.upper)
  }
}
