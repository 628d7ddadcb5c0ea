/**
 * Intersection with the language "pops, then pushes" (src/solver/constraint_graph.rs,
 * FSA::intersect_with_pop_push): a copy of the automaton without pops, entered by a push.
 */
module PopPush {
  import opened Graphs
  import opened Pushdown
  import opened StackWords

  /** A state in the original automaton, or in the copy in which nothing can be popped. */
  datatype Place = Orig(st: FiniteState) | Copy(st: FiniteState)

  type PlacedEdge = Arc<Place, FsaEdge>

  function Intersected(E: set<EdgeDef>): set<PlacedEdge> {
    (set e | e in E && !e.lab.Push? :: Arc(Orig(e.src), e.lab, Orig(e.dst))) +
    (set e | e in E && e.lab.Push? :: Arc(Orig(e.src), e.lab, Copy(e.dst))) +
    (set e | e in E && (e.lab.Push? || e.lab.Success?) :: Arc(Copy(e.src), e.lab, Copy(e.dst)))
  }

  /** The part of the result that one edge contributes. */
  function IntersectedOf(e: EdgeDef): set<PlacedEdge> {
    (if e.lab.Push? then {Arc(Orig(e.src), e.lab, Copy(e.dst))} else {Arc(Orig(e.src), e.lab, Orig(e.dst))}) +
    (if e.lab.Push? || e.lab.Success? then {Arc(Copy(e.src), e.lab, Copy(e.dst))} else {})
  }

  lemma IntersectedIsUnion(E: set<EdgeDef>)
    ensures Intersected(E) == set e, p | e in E && p in IntersectedOf(e) :: p
  {
    var U := set e, p | e in E && p in IntersectedOf(e) :: p;
    forall p | p in Intersected(E) ensures p in U {
      var e := Arc(p.src.st, p.lab, p.dst.st);
      assert e in E && p in IntersectedOf(e);
    }
  }

  lemma StepToOrig(E: set<EdgeDef>, P: set<Place>, l: FsaEdge, b: FiniteState)
    ensures Orig(b) in Step(Intersected(E), P, l) <==>
            exists e :: e in E && e.lab == l && e.dst == b && !l.Push? && Orig(e.src) in P
  {
    if e :| e in E && e.lab == l && e.dst == b && !l.Push? && Orig(e.src) in P {
      assert Arc(Orig(e.src), l, Orig(b)) in Intersected(E);
    }
    if Orig(b) in Step(Intersected(E), P, l) {
      var p :| p in Intersected(E) && p.src in P && p.lab == l && p.dst == Orig(b);
      assert Arc(p.src.st, l, b) in E;
    }
  }

  lemma StepToCopy(E: set<EdgeDef>, P: set<Place>, l: FsaEdge, b: FiniteState)
    ensures Copy(b) in Step(Intersected(E), P, l) <==>
            exists e :: e in E && e.lab == l && e.dst == b
                        && ((l.Push? && Orig(e.src) in P) || ((l.Push? || l.Success?) && Copy(e.src) in P))
  {
    if e :| e in E && e.lab == l && e.dst == b
            && ((l.Push? && Orig(e.src) in P) || ((l.Push? || l.Success?) && Copy(e.src) in P)) {
      assert Arc(if Copy(e.src) in P then Copy(e.src) else Orig(e.src), l, Copy(b)) in Intersected(E);
    }
    if Copy(b) in Step(Intersected(E), P, l) {
      var p :| p in Intersected(E) && p.src in P && p.lab == l && p.dst == Copy(b);
      assert Arc(p.src.st, l, b) in E;
    }
  }

  /**
   * Exactness: a word leads into the copy if and only if the automaton accepts it, it pushes
   * something, and it pops nothing after a push; words without a push stay in the original.
   */
  lemma {:induction false} IntersectedExact(E: set<EdgeDef>, a: FiniteState, w: Word, b: FiniteState)
    requires forall e | e in E :: e.lab != Failed
    ensures Copy(b) in Run(Intersected(E), {Orig(a)}, w) <==> b in Run(E, {a}, w) && PopsFirst(w) && HasPush(w)
    ensures Orig(b) in Run(Intersected(E), {Orig(a)}, w) <==> b in Run(E, {a}, w) && !HasPush(w)
    decreases |w|
  {
    if w != [] {
      var front, l := w[..|w| - 1], w[|w| - 1];
      assert w == front + [l];
      RunSnoc(E, {a}, front, l);
      RunSnoc(Intersected(E), {Orig(a)}, front, l);
      SnocShape(front, l);
      var P := Run(Intersected(E), {Orig(a)}, front);
      StepToOrig(E, P, l, b);
      StepToCopy(E, P, l, b);
      forall e | e in E && e.lab == l && e.dst == b
        ensures Copy(e.src) in P <==> e.src in Run(E, {a}, front) && PopsFirst(front) && HasPush(front)
        ensures Orig(e.src) in P <==> e.src in Run(E, {a}, front) && !HasPush(front)
      {
        IntersectedExact(E, a, front, e.src);
      }
      hide PopsFirst, HasPush, Run, Intersected;
      if !HasPush(front) {
        NoPushPopsFirst(front);
      }
    }
  }

  lemma NoPushPopsFirst(w: Word)
    requires !HasPush(w)
    ensures PopsFirst(w)
  {
  }
}
