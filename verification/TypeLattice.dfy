/**
 * User-defined type lattices (src/solver/type_lattice.rs): join and meet tables computed from
 * less-than pairs by taking, among the nodes reachable from both elements, the one that comes
 * first in a topological order.
 */
module TypeLattice {
  import opened Graphs
  import opened Lattice

  /** The name of a lattice element. */
  datatype Handle = Handle(name: string)

  type Less = set<Arc<Handle, ()>>

  datatype Pair = Pair(fst: Handle, snd: Handle)

  /** One edge per less-than pair, however often the pair is given. */
  function LtGraph(pairs: seq<Pair>): Less {
    set i | 0 <= i < |pairs| :: Arc(pairs[i].fst, (), pairs[i].snd)
  }

  /** The pairs as a graph: grouped by the smaller element first, then one edge for each greater one. */
  method GetLtGraph(pairs: seq<Pair>) returns (g: Less)
    ensures g == LtGraph(pairs)
  {
    var greater: map<Handle, set<Handle>> := map[];
    for i := 0 to |pairs|
      invariant forall x, y :: x in greater && y in greater[x] <==> Pair(x, y) in pairs[..i]
    {
      var p := pairs[i];
      greater := greater[p.fst := (if p.fst in greater then greater[p.fst] else {}) + {p.snd}];
      assert pairs[..i + 1] == pairs[..i] + [p];
    }
    assert pairs[..|pairs|] == pairs;
    g := {};
    var todo := greater.Keys;
    while todo != {}
      invariant todo <= greater.Keys
      invariant g == set x, y | x in greater.Keys - todo && y in greater[x] :: Arc(x, (), y)
    {
      var x :| x in todo;
      g, todo := g + (set y | y in greater[x] :: Arc(x, (), y)), todo - {x};
    }
    forall e | e in LtGraph(pairs) ensures e in g {
      assert Pair(e.src, e.dst) in pairs;
    }
    forall e | e in g ensures e in LtGraph(pairs) {
      var i :| 0 <= i < |pairs| && pairs[i] == Pair(e.src, e.dst);
    }
  }

  function Handles(g: Less): set<Handle> {
    (set e | e in g :: e.src) + (set e | e in g :: e.dst)
  }

  ghost predicate OnSomePair(g: Less, x: Handle) {
    exists e :: e in g && (x == e.src || x == e.dst)
  }

  /** What petgraph's toposort returns, as positions: it exists unless the pairs are cyclic. */
  ghost predicate IsTopological(g: Less, pos: map<Handle, nat>) {
    && (forall x {:trigger OnSomePair(g, x)} | x in pos :: OnSomePair(g, x))
    && (forall e | e in g :: e.src in pos && e.dst in pos && pos[e.src] < pos[e.dst])
    && (forall x, y | x in pos && y in pos && pos[x] == pos[y] :: x == y)
  }

  ghost predicate Below(g: Less, x: Handle, y: Handle) {
    Reachable(g, x, y)
  }

  /** j is the least element that both x and y lead to. */
  ghost predicate IsFirstCommon(g: Less, x: Handle, y: Handle, j: Handle) {
    && Below(g, x, j) && Below(g, y, j)
    && forall z | Below(g, x, z) && Below(g, y, z) :: Below(g, j, z)
  }

  lemma {:induction false} RunClimbs(g: Less, pos: map<Handle, nat>, x: Handle, w: seq<()>, y: Handle)
    requires IsTopological(g, pos) && x in pos && y in Run(g, {x}, w)
    ensures y in pos && pos[x] <= pos[y] && (pos[x] == pos[y] ==> x == y)
    decreases |w|
  {
    if w != [] {
      var q := RunFrom(g, Step(g, {x}, w[0]), w[1..], y);
      var e :| e in g && e.src == x && e.dst == q;
      assert q in Handles(g);
      RunClimbs(g, pos, q, w[1..], y);
    }
  }

  /** Reaching goes up in the topological order. */
  lemma BelowClimbs(g: Less, pos: map<Handle, nat>, x: Handle, y: Handle)
    requires IsTopological(g, pos) && x in pos && Below(g, x, y)
    ensures y in pos && pos[x] <= pos[y] && (pos[x] == pos[y] ==> x == y)
  {
    var w :| y in Run(g, {x}, w);
    RunClimbs(g, pos, x, w, y);
  }

  type Table = map<(Handle, Handle), Handle>

  /** The entry for every pair is a common reachable element, and the first of them. */
  ghost predicate IsFirstTable(g: Less, pos: map<Handle, nat>, t: Table)
    requires IsTopological(g, pos)
  {
    && (forall x, y | x in Handles(g) && y in Handles(g) :: (x, y) in t)
    && (forall p | p in t :: p.0 in pos && p.1 in pos && IsEntry(g, pos, p.0, p.1, t[p]))
  }

  ghost predicate IsEntry(g: Less, pos: map<Handle, nat>, x: Handle, y: Handle, j: Handle)
    requires IsTopological(g, pos)
  {
    && j in pos && Below(g, x, j) && Below(g, y, j)
    && forall z | z in pos && Below(g, x, z) && Below(g, y, z) :: pos[j] <= pos[z]
  }

  /** The first element of a non-empty set in the topological order. */
  method First(pos: map<Handle, nat>, S: set<Handle>) returns (m: Handle)
    requires S != {} && S <= pos.Keys
    ensures m in S && forall z | z in S :: pos[m] <= pos[z]
  {
    m :| m in S;
    var todo := S - {m};
    while todo != {}
      invariant todo <= S && m in S && forall z | z in S && z !in todo :: pos[m] <= pos[z]
    {
      var z :| z in todo;
      if pos[z] < pos[m] {
        m := z;
      }
      todo := todo - {z};
    }
  }

  /** Nothing is reached from both. */
  ghost predicate NothingCommon(g: Less, x: Handle, y: Handle) {
    forall z :: !(Below(g, x, z) && Below(g, y, z))
  }

  /** None stands for the panic when two elements have no common reachable one. */
  method CreateTable(g: Less, pos: map<Handle, nat>) returns (r: Option<Table>)
    requires IsTopological(g, pos)
    ensures r.Some? ==> IsFirstTable(g, pos, r.value)
    ensures r.None? ==> exists x, y :: x in Handles(g) && y in Handles(g) && NothingCommon(g, x, y)
  {
    hide IsTopological, IsEntry, NothingCommon, Handles, Below;
    var t: Table := map[];
    var todo := set x, y | x in Handles(g) && y in Handles(g) :: (x, y);
    while todo != {}
      invariant forall p | p in todo :: p.0 in Handles(g) && p.1 in Handles(g)
      invariant forall x, y | x in Handles(g) && y in Handles(g) :: (x, y) in todo || (x, y) in t
      invariant forall p | p in t :: p.0 in pos && p.1 in pos && IsEntry(g, pos, p.0, p.1, t[p])
    {
      var p :| p in todo;
      var up1 := ReachableSet(g, p.0);
      var up2 := ReachableSet(g, p.1);
      var shared := up1 * up2;
      SharedIsCommon(g, pos, p.0, p.1, shared);
      if shared == {} {
        return None;
      }
      var j := First(pos, shared);
      FirstIsEntry(g, pos, p.0, p.1, shared, j);
      t, todo := t[p := j], todo - {p};
    }
    r := Some(t);
  }

  lemma SharedIsCommon(g: Less, pos: map<Handle, nat>, x: Handle, y: Handle, shared: set<Handle>)
    requires IsTopological(g, pos) && x in Handles(g) && y in Handles(g)
    requires forall z :: z in shared <==> Reachable(g, x, z) && Reachable(g, y, z)
    ensures x in pos && y in pos && shared <= pos.Keys && (shared == {} ==> NothingCommon(g, x, y))
  {
    hide IsTopological, Handles;
    PositionsOf(g, pos);
    forall z | z in shared ensures z in pos {
      BelowClimbs(g, pos, x, z);
    }
  }

  lemma FirstIsEntry(g: Less, pos: map<Handle, nat>, x: Handle, y: Handle, shared: set<Handle>, j: Handle)
    requires IsTopological(g, pos) && shared <= pos.Keys && j in shared && forall z | z in shared :: pos[j] <= pos[z]
    requires forall z :: z in shared <==> Reachable(g, x, z) && Reachable(g, y, z)
    ensures IsEntry(g, pos, x, y, j)
  {
    hide IsTopological;
  }

  /** An entry of the table is the least common element exactly when the pair has one. */
  lemma EntryIsLeast(g: Less, pos: map<Handle, nat>, x: Handle, y: Handle, j: Handle)
    requires IsTopological(g, pos) && x in pos && y in pos && IsEntry(g, pos, x, y, j)
    ensures (exists m :: IsFirstCommon(g, x, y, m)) <==> IsFirstCommon(g, x, y, j)
  {
    if m :| IsFirstCommon(g, x, y, m) {
      BelowClimbs(g, pos, x, m);
      BelowClimbs(g, pos, m, j);
      assert m == j;
    }
  }

  // ----- the lattice -----

  /** Any two elements have a least upper and a greatest lower bound. */
  ghost predicate GeneratesLattice(g: Less) {
    forall x, y | x in Handles(g) && y in Handles(g) ::
      (exists j :: IsFirstCommon(g, x, y, j)) && (exists m :: IsFirstCommon(Reverse(g), x, y, m))
  }

  function TableOps(joins: Table, meets: Table): Ops<Handle> {
    Ops((x, y) => if (x, y) in joins then joins[(x, y)] else x,
        (x, y) => if (x, y) in meets then meets[(x, y)] else x)
  }

  datatype Ordering = Smaller | Equal | Greater | Incomparable

  /** up holds, for every element, the elements it reaches. */
  function PartialCmp(up: map<Handle, set<Handle>>, x: Handle, y: Handle): Ordering
    requires x in up && y in up
  {
    if x == y then Equal
    else if y in up[x] then Smaller
    else if x in up[y] then Greater
    else Incomparable
  }

  method CreateReachableSets(g: Less) returns (up: map<Handle, set<Handle>>)
    ensures up.Keys == Handles(g) && forall x, y | x in up :: y in up[x] <==> Below(g, x, y)
  {
    up := map[];
    var todo := Handles(g);
    while todo != {}
      invariant up.Keys == Handles(g) - todo && todo <= Handles(g)
      invariant forall x, y | x in up :: y in up[x] <==> Below(g, x, y)
    {
      var x :| x in todo;
      var reached := ReachableSet(g, x);
      up, todo := up[x := reached], todo - {x};
    }
  }

  /** Every pair has its least common element in the table. */
  ghost predicate Joins(g: Less, t: Table) {
    forall x, y | x in Handles(g) && y in Handles(g) ::
      (x, y) in t && t[(x, y)] in Handles(g) && IsFirstCommon(g, x, y, t[(x, y)])
  }

  ghost predicate Antisymmetric(g: Less) {
    forall x, y | x in Handles(g) && Below(g, x, y) && Below(g, y, x) :: x == y
  }

  lemma TopologicalAntisymmetric(g: Less, pos: map<Handle, nat>)
    requires IsTopological(g, pos)
    ensures Antisymmetric(g)
  {
    hide IsTopological;
    forall x, y | x in Handles(g) && Below(g, x, y) && Below(g, y, x) ensures x == y {
      PositionsOf(g, pos);
      BelowClimbs(g, pos, x, y);
      BelowClimbs(g, pos, y, x);
    }
  }

  lemma PositionsOf(g: Less, pos: map<Handle, nat>)
    requires IsTopological(g, pos)
    ensures pos.Keys == Handles(g)
  {
    forall x | x in pos ensures x in Handles(g) {
      assert OnSomePair(g, x);
    }
  }

  /** On a graph that generates a lattice the table of first common elements holds the least ones. */
  lemma FirstTableJoins(g: Less, pos: map<Handle, nat>, t: Table)
    requires IsTopological(g, pos) && IsFirstTable(g, pos, t)
    requires forall x, y | x in Handles(g) && y in Handles(g) :: exists j :: IsFirstCommon(g, x, y, j)
    ensures Joins(g, t)
  {
    hide IsFirstCommon, Handles;
    PositionsOf(g, pos);
    forall x, y | x in Handles(g) && y in Handles(g)
      ensures (x, y) in t && t[(x, y)] in Handles(g) && IsFirstCommon(g, x, y, t[(x, y)])
    {
      assert IsEntry(g, pos, (x, y).0, (x, y).1, t[(x, y)]);
      EntryIsLeast(g, pos, x, y, t[(x, y)]);
    }
  }

  lemma JoinCommutes(g: Less, t: Table, x: Handle, y: Handle)
    requires Joins(g, t) && Antisymmetric(g) && x in Handles(g) && y in Handles(g)
    ensures t[(x, y)] == t[(y, x)]
  {
    hide Handles, Below;
    var j, k := t[(x, y)], t[(y, x)];
    assert IsFirstCommon(g, x, y, j) && IsFirstCommon(g, y, x, k);
  }

  lemma JoinAssociates(g: Less, t: Table, x: Handle, y: Handle, z: Handle)
    requires Joins(g, t) && Antisymmetric(g) && x in Handles(g) && y in Handles(g) && z in Handles(g)
    ensures t[(t[(x, y)], z)] == t[(x, t[(y, z)])]
  {
    hide Handles, Below;
    var xy, yz := t[(x, y)], t[(y, z)];
    var j, k := t[(xy, z)], t[(x, yz)];
    assert IsFirstCommon(g, x, y, xy) && IsFirstCommon(g, y, z, yz);
    assert IsFirstCommon(g, xy, z, j) && IsFirstCommon(g, x, yz, k);
    BelowTransitive(g, x, xy, j);
    BelowTransitive(g, y, xy, j);
    BelowTransitive(g, y, yz, k);
    BelowTransitive(g, z, yz, k);
    assert Below(g, xy, k) && Below(g, yz, j);
    assert Below(g, j, k) && Below(g, k, j);
  }

  lemma BelowTransitive(g: Less, x: Handle, y: Handle, z: Handle)
    requires Below(g, x, y) && Below(g, y, z)
    ensures Below(g, x, z)
  {
    ReachableTransitive(g, x, y, z);
  }

  lemma BelowReverse(g: Less, x: Handle, y: Handle)
    ensures Below(Reverse(g), x, y) <==> Below(g, y, x)
  {
    ReachableReverse(g, y, x);
  }

  lemma HandlesReverse(g: Less)
    ensures Handles(Reverse(g)) == Handles(g)
  {
    forall h | h in Handles(g) ensures h in Handles(Reverse(g)) {
      var e :| e in g && (h == e.src || h == e.dst);
      assert Arc(e.dst, e.lab, e.src) in Reverse(g);
    }
  }

  /** The join of x with something below x is x; likewise, on the reversed graph, the meet. */
  lemma Absorbs(g: Less, joins: Table, meets: Table, x: Handle, y: Handle)
    requires Joins(g, joins) && Joins(Reverse(g), meets) && Antisymmetric(g) && x in Handles(g) && y in Handles(g)
    ensures (x, y) in meets && (x, meets[(x, y)]) in joins && joins[(x, meets[(x, y)])] == x
  {
    hide Below, Handles;
    HandlesReverse(g);
    var m := meets[(x, y)];
    assert IsFirstCommon(Reverse(g), x, y, m);
    BelowReverse(g, x, m);
    var j := joins[(x, m)];
    assert IsFirstCommon(g, x, m, j);
    BelowSelf(g, x);
  }

  lemma BelowSelf(g: Less, x: Handle)
    ensures Below(g, x, x)
  {
    ReachableSelf(g, x);
  }

  lemma ReverseReverse(g: Less)
    ensures Reverse(Reverse(g)) == g
  {
    forall e | e in g ensures e in Reverse(Reverse(g)) {
      assert Arc(e.dst, e.lab, e.src) in Reverse(g);
    }
  }

  /** Both tables hold least common elements, of the graph and of its reverse, and both are acyclic. */
  ghost predicate GoodTables(g: Less, joins: Table, meets: Table) {
    && Joins(g, joins) && Antisymmetric(g)
    && Handles(Reverse(g)) == Handles(g) && Reverse(Reverse(g)) == g
    && Joins(Reverse(g), meets) && Antisymmetric(Reverse(g))
  }

  lemma TablesAreGood(g: Less, pos: map<Handle, nat>, joins: Table, pos': map<Handle, nat>, meets: Table)
    requires IsTopological(g, pos) && IsFirstTable(g, pos, joins)
    requires IsTopological(Reverse(g), pos') && IsFirstTable(Reverse(g), pos', meets)
    requires GeneratesLattice(g)
    ensures GoodTables(g, joins, meets)
  {
    hide Handles, IsFirstCommon, IsTopological, IsFirstTable, Joins, Antisymmetric;
    HandlesReverse(g);
    ReverseReverse(g);
    FirstTableJoins(g, pos, joins);
    FirstTableJoins(Reverse(g), pos', meets);
    TopologicalAntisymmetric(g, pos);
    TopologicalAntisymmetric(Reverse(g), pos');
  }

  lemma InTable(g: Less, t: Table, x: Handle, y: Handle)
    requires Joins(g, t) && x in Handles(g) && y in Handles(g)
    ensures (x, y) in t && t[(x, y)] in Handles(g)
  {
  }

  lemma TableLaws(g: Less, joins: Table, meets: Table, x: Handle, y: Handle, z: Handle)
    requires GoodTables(g, joins, meets) && x in Handles(g) && y in Handles(g) && z in Handles(g)
    ensures LawsAt(Handles(g), TableOps(joins, meets), x, y, z)
  {
    hide Handles, Joins, Antisymmetric;
    var r := Reverse(g);
    InTable(g, joins, x, y); InTable(g, joins, y, x); InTable(g, joins, y, z);
    InTable(r, meets, x, y); InTable(r, meets, y, x); InTable(r, meets, y, z);
    InTable(g, joins, joins[(x, y)], z); InTable(g, joins, x, joins[(y, z)]);
    InTable(r, meets, meets[(x, y)], z); InTable(r, meets, x, meets[(y, z)]);
    JoinCommutes(g, joins, x, y);
    JoinCommutes(r, meets, x, y);
    Absorbs(g, joins, meets, x, y);
    Absorbs(r, meets, joins, x, y);
    JoinAssociates(g, joins, x, y, z);
    JoinAssociates(r, meets, x, y, z);
  }

  /** The two tables of a graph that generates a lattice satisfy the lattice laws. */
  lemma TablesAreLattice(g: Less, pos: map<Handle, nat>, joins: Table, pos': map<Handle, nat>, meets: Table)
    requires IsTopological(g, pos) && IsFirstTable(g, pos, joins)
    requires IsTopological(Reverse(g), pos') && IsFirstTable(Reverse(g), pos', meets)
    requires GeneratesLattice(g)
    ensures IsLattice(Handles(g), TableOps(joins, meets))
  {
    TablesAreGood(g, pos, joins, pos', meets);
    hide Handles, GoodTables, TableOps, LawsAt;
    forall x, y, z | x in Handles(g) && y in Handles(g) && z in Handles(g)
      ensures LawsAt(Handles(g), TableOps(joins, meets), x, y, z)
    {
      TableLaws(g, joins, meets, x, y, z);
    }
  }

  /** The comparison agrees with the join: x is less or equal exactly when joining it to y gives y. */
  lemma ComparisonAgrees(g: Less, pos: map<Handle, nat>, joins: Table, meets: Table, up: map<Handle, set<Handle>>,
                         x: Handle, y: Handle)
    requires IsTopological(g, pos) && Joins(g, joins) && x in Handles(g) && y in Handles(g)
    requires up.Keys == Handles(g) && forall a, b | a in up :: b in up[a] <==> Below(g, a, b)
    ensures Leq(TableOps(joins, meets), x, y) <==> PartialCmp(up, x, y) == Equal || PartialCmp(up, x, y) == Smaller
    ensures PartialCmp(up, x, y) == Greater <==> PartialCmp(up, y, x) == Smaller
  {
    TopologicalAntisymmetric(g, pos);
    hide Handles, IsTopological, Below;
    BelowSelf(g, x);
    BelowSelf(g, y);
    var j := joins[(x, y)];
    assert IsFirstCommon(g, x, y, j);
    if Below(g, x, y) {
      assert Below(g, j, y);
    }
  }

  // ----- what the tables say about the pairs -----

  /** Each of the elements is given as smaller than the next one. */
  ghost predicate IsChain(pairs: seq<Pair>, w: seq<Handle>) {
    w != [] && forall i | 0 <= i < |w| - 1 :: Pair(w[i], w[i + 1]) in pairs
  }

  /** A chain of given pairs leads from x up to y. */
  ghost predicate Chained(pairs: seq<Pair>, x: Handle, y: Handle) {
    exists w :: IsChain(pairs, w) && w[0] == x && w[|w| - 1] == y
  }

  function Named(pairs: seq<Pair>): set<Handle> {
    (set i | 0 <= i < |pairs| :: pairs[i].fst) + (set i | 0 <= i < |pairs| :: pairs[i].snd)
  }

  lemma LtEdge(pairs: seq<Pair>, x: Handle, y: Handle)
    ensures Arc(x, (), y) in LtGraph(pairs) <==> Pair(x, y) in pairs
  {
    if Pair(x, y) in pairs {
      var i :| 0 <= i < |pairs| && pairs[i] == Pair(x, y);
    }
  }

  lemma NamedHandles(pairs: seq<Pair>)
    ensures Named(pairs) == Handles(LtGraph(pairs))
  {
    forall h | h in Named(pairs) ensures h in Handles(LtGraph(pairs)) {
      var i :| 0 <= i < |pairs| && (pairs[i].fst == h || pairs[i].snd == h);
      assert Arc(pairs[i].fst, (), pairs[i].snd) in LtGraph(pairs);
    }
  }

  lemma {:induction false} ChainReaches(pairs: seq<Pair>, w: seq<Handle>)
    requires IsChain(pairs, w)
    ensures Below(LtGraph(pairs), w[0], w[|w| - 1])
    decreases |w|
  {
    var g, n := LtGraph(pairs), |w| - 1;
    if n == 0 {
      ReachableSelf(g, w[0]);
    } else {
      var front := w[..n];
      assert forall i | 0 <= i < |front| - 1 :: Pair(front[i], front[i + 1]) == Pair(w[i], w[i + 1]);
      ChainReaches(pairs, front);
      assert Pair(w[n - 1], w[n - 1 + 1]) in pairs;
      LtEdge(pairs, w[n - 1], w[n]);
      ReachableStep(g, w[0], Arc(w[n - 1], (), w[n]));
    }
  }

  lemma {:induction false} ReachesChain(pairs: seq<Pair>, x: Handle, u: seq<()>, y: Handle) returns (w: seq<Handle>)
    requires y in Run(LtGraph(pairs), {x}, u)
    ensures IsChain(pairs, w) && w[0] == x && w[|w| - 1] == y
    decreases |u|
  {
    w := [x];
    if u != [] {
      var g := LtGraph(pairs);
      var z := RunFrom(g, Step(g, {x}, u[0]), u[1..], y);
      LtEdge(pairs, x, z);
      var rest := ReachesChain(pairs, z, u[1..], y);
      w := [x] + rest;
      forall i | 0 <= i < |w| - 1 ensures Pair(w[i], w[i + 1]) in pairs {
        assert i > 0 ==> Pair(rest[i - 1], rest[i - 1 + 1]) in pairs;
      }
    }
  }

  /** Reaching in the graph is being led to by given pairs. */
  lemma ChainedIsBelow(pairs: seq<Pair>, x: Handle, y: Handle)
    ensures Chained(pairs, x, y) <==> Below(LtGraph(pairs), x, y)
  {
    if Chained(pairs, x, y) {
      var w :| IsChain(pairs, w) && w[0] == x && w[|w| - 1] == y;
      ChainReaches(pairs, w);
    }
    if Below(LtGraph(pairs), x, y) {
      var u :| y in Run(LtGraph(pairs), {x}, u);
      var w := ReachesChain(pairs, x, u, y);
    }
  }

  ghost predicate CommonAbove(pairs: seq<Pair>, x: Handle, y: Handle, z: Handle) {
    Chained(pairs, x, z) && Chained(pairs, y, z)
  }

  ghost predicate CommonBelow(pairs: seq<Pair>, x: Handle, y: Handle, z: Handle) {
    Chained(pairs, z, x) && Chained(pairs, z, y)
  }

  ghost predicate LeastAbove(pairs: seq<Pair>, x: Handle, y: Handle, j: Handle) {
    CommonAbove(pairs, x, y, j) && forall z | CommonAbove(pairs, x, y, z) :: Chained(pairs, j, z)
  }

  ghost predicate GreatestBelow(pairs: seq<Pair>, x: Handle, y: Handle, m: Handle) {
    CommonBelow(pairs, x, y, m) && forall z | CommonBelow(pairs, x, y, z) :: Chained(pairs, z, m)
  }

  /** Any two named elements have a least element above both and a greatest one below both. */
  ghost predicate IsLatticeOrder(pairs: seq<Pair>) {
    forall x, y | x in Named(pairs) && y in Named(pairs) ::
      (exists j :: LeastAbove(pairs, x, y, j)) && (exists m :: GreatestBelow(pairs, x, y, m))
  }

  lemma LeastAboveIsFirst(pairs: seq<Pair>, x: Handle, y: Handle, j: Handle)
    ensures LeastAbove(pairs, x, y, j) <==> IsFirstCommon(LtGraph(pairs), x, y, j)
  {
    hide Below, Chained, LtGraph;
    forall a, b ensures Chained(pairs, a, b) <==> Below(LtGraph(pairs), a, b) {
      ChainedIsBelow(pairs, a, b);
    }
  }

  lemma GreatestBelowIsFirst(pairs: seq<Pair>, x: Handle, y: Handle, m: Handle)
    ensures GreatestBelow(pairs, x, y, m) <==> IsFirstCommon(Reverse(LtGraph(pairs)), x, y, m)
  {
    hide Below, Chained, LtGraph;
    forall a, b ensures Chained(pairs, a, b) <==> Below(Reverse(LtGraph(pairs)), b, a) {
      ChainedIsBelow(pairs, a, b);
      BelowReverse(LtGraph(pairs), b, a);
    }
  }

  lemma LatticeOrderGenerates(pairs: seq<Pair>)
    ensures IsLatticeOrder(pairs) <==> GeneratesLattice(LtGraph(pairs))
  {
    hide LeastAbove, GreatestBelow, IsFirstCommon, LtGraph;
    NamedHandles(pairs);
    forall x, y, j ensures LeastAbove(pairs, x, y, j) <==> IsFirstCommon(LtGraph(pairs), x, y, j) {
      LeastAboveIsFirst(pairs, x, y, j);
    }
    forall x, y, m ensures GreatestBelow(pairs, x, y, m) <==> IsFirstCommon(Reverse(LtGraph(pairs)), x, y, m) {
      GreatestBelowIsFirst(pairs, x, y, m);
    }
  }

  lemma LatticeIsAntisymmetric(pairs: seq<Pair>, pos: map<Handle, nat>, x: Handle, y: Handle)
    requires IsTopological(LtGraph(pairs), pos) && x in Named(pairs) && Chained(pairs, x, y) && Chained(pairs, y, x)
    ensures x == y
  {
    hide IsTopological, Chained, LtGraph;
    NamedHandles(pairs);
    TopologicalAntisymmetric(LtGraph(pairs), pos);
    ChainedIsBelow(pairs, x, y);
    ChainedIsBelow(pairs, y, x);
  }

  /** Positions of the named elements that go up along every pair, or down. */
  ghost predicate Rises(pairs: seq<Pair>, pos: map<Handle, nat>) {
    && pos.Keys == Named(pairs) && (forall x, y | x in pos && y in pos && pos[x] == pos[y] :: x == y)
    && forall p | p in pairs :: p.fst in pos && p.snd in pos && pos[p.fst] < pos[p.snd]
  }

  ghost predicate Falls(pairs: seq<Pair>, pos: map<Handle, nat>) {
    && pos.Keys == Named(pairs) && (forall x, y | x in pos && y in pos && pos[x] == pos[y] :: x == y)
    && forall p | p in pairs :: p.fst in pos && p.snd in pos && pos[p.snd] < pos[p.fst]
  }

  lemma RisesTopologically(pairs: seq<Pair>, pos: map<Handle, nat>)
    ensures Rises(pairs, pos) ==> IsTopological(LtGraph(pairs), pos)
  {
    NamedHandles(pairs);
    var g := LtGraph(pairs);
    forall e | e in g ensures Pair(e.src, e.dst) in pairs {
      LtEdge(pairs, e.src, e.dst);
    }
    if Rises(pairs, pos) {
      forall x | x in pos ensures OnSomePair(g, x) {
        assert x in Handles(g);
      }
    }
  }

  lemma FallsTopologically(pairs: seq<Pair>, pos: map<Handle, nat>)
    ensures Falls(pairs, pos) ==> IsTopological(Reverse(LtGraph(pairs)), pos)
  {
    NamedHandles(pairs);
    var g := Reverse(LtGraph(pairs));
    HandlesReverse(LtGraph(pairs));
    forall e | e in g ensures Pair(e.dst, e.src) in pairs {
      LtEdge(pairs, e.dst, e.src);
    }
    if Falls(pairs, pos) {
      forall x | x in pos ensures OnSomePair(g, x) {
        assert x in Handles(g);
      }
    }
  }

  /** What comparing uses and joining and meeting look up. */
  datatype Generated = Generated(elems: set<Handle>, joins: Table, meets: Table, up: map<Handle, set<Handle>>) {
    /** Joining, meeting and comparing elements finds what it looks up. */
    ghost predicate Total() {
      forall x, y | x in elems && y in elems :: (x, y) in joins && (x, y) in meets && x in up
    }

    /** One element is smaller than another exactly when given pairs lead up from it. */
    ghost predicate Compares(pairs: seq<Pair>) {
      forall x, y | x in Named(pairs) && y in Named(pairs) :: ComparesAt(pairs, x, y)
    }

    ghost predicate ComparesAt(pairs: seq<Pair>, x: Handle, y: Handle) {
      && x in up && y in up
      && (PartialCmp(up, x, y) == Equal <==> x == y)
      && (PartialCmp(up, x, y) == Smaller <==> x != y && Chained(pairs, x, y))
      && (PartialCmp(up, x, y) == Greater <==> x != y && Chained(pairs, y, x))
    }

    /** Joining gives an element above both and meeting one below both. */
    ghost predicate Bounds(pairs: seq<Pair>) {
      forall x, y | x in Named(pairs) && y in Named(pairs) ::
        && (x, y) in joins && CommonAbove(pairs, x, y, joins[(x, y)])
        && (x, y) in meets && CommonBelow(pairs, x, y, meets[(x, y)])
    }

    /** The tables form a lattice whose order is that of the pairs; joins are least and meets greatest in it. */
    ghost predicate IsLatticeOf(pairs: seq<Pair>) {
      && IsLattice(Named(pairs), TableOps(joins, meets))
      && (forall x, y | x in Named(pairs) && y in Named(pairs) :: LatticeAt(pairs, x, y))
      && (forall p | p in pairs :: PairAt(p))
    }

    ghost predicate LatticeAt(pairs: seq<Pair>, x: Handle, y: Handle) {
      && (x, y) in joins && LeastAbove(pairs, x, y, joins[(x, y)])
      && (x, y) in meets && GreatestBelow(pairs, x, y, meets[(x, y)])
      && (Leq(TableOps(joins, meets), x, y) <==> Chained(pairs, x, y))
    }

    ghost predicate PairAt(p: Pair) {
      && (p.fst, p.snd) in joins && joins[(p.fst, p.snd)] == p.snd
      && (p.fst, p.snd) in meets && meets[(p.fst, p.snd)] == p.fst
    }
  }

  /** Two named elements that no element is above, or none below. */
  ghost predicate Unbounded(pairs: seq<Pair>, x: Handle, y: Handle) {
    && x in Named(pairs) && y in Named(pairs)
    && ((forall z :: !CommonAbove(pairs, x, y, z)) || (forall z :: !CommonBelow(pairs, x, y, z)))
  }

  lemma TablesFromParts(pairs: seq<Pair>, pos: map<Handle, nat>, pos': map<Handle, nat>, t: Generated)
    requires IsTopological(LtGraph(pairs), pos) && IsFirstTable(LtGraph(pairs), pos, t.joins)
    requires IsTopological(Reverse(LtGraph(pairs)), pos') && IsFirstTable(Reverse(LtGraph(pairs)), pos', t.meets)
    ensures t.Bounds(pairs) && forall x, y :: !Unbounded(pairs, x, y)
  {
    hide IsTopological, Chained, LtGraph, Below, Handles, Named;
    var g := LtGraph(pairs);
    NamedHandles(pairs);
    HandlesReverse(g);
    forall x, y | x in Named(pairs) && y in Named(pairs)
      ensures (x, y) in t.joins && CommonAbove(pairs, x, y, t.joins[(x, y)])
      ensures (x, y) in t.meets && CommonBelow(pairs, x, y, t.meets[(x, y)])
    {
      var j, m := t.joins[(x, y)], t.meets[(x, y)];
      assert IsEntry(g, pos, (x, y).0, (x, y).1, j) && IsEntry(Reverse(g), pos', (x, y).0, (x, y).1, m);
      ChainedIsBelow(pairs, x, j);
      ChainedIsBelow(pairs, y, j);
      ChainedIsBelow(pairs, m, x);
      ChainedIsBelow(pairs, m, y);
      BelowReverse(g, x, m);
      BelowReverse(g, y, m);
    }
  }

  lemma PanicPair(pairs: seq<Pair>, g: Less) returns (x: Handle, y: Handle)
    requires Named(pairs) == Handles(g)
    requires exists x, y :: x in Handles(g) && y in Handles(g) && NothingCommon(g, x, y)
    ensures x in Named(pairs) && y in Named(pairs) && NothingCommon(g, x, y)
  {
    x, y :| x in Handles(g) && y in Handles(g) && NothingCommon(g, x, y);
  }

  lemma UnboundedFrom(pairs: seq<Pair>, x: Handle, y: Handle, up: bool)
    requires x in Named(pairs) && y in Named(pairs)
    requires NothingCommon(if up then LtGraph(pairs) else Reverse(LtGraph(pairs)), x, y)
    ensures Unbounded(pairs, x, y)
  {
    hide Chained, LtGraph, Below, Named;
    forall a, b ensures Chained(pairs, a, b) <==> Below(LtGraph(pairs), a, b) {
      ChainedIsBelow(pairs, a, b);
    }
    forall a, b ensures Below(Reverse(LtGraph(pairs)), a, b) <==> Below(LtGraph(pairs), b, a) {
      BelowReverse(LtGraph(pairs), a, b);
    }
  }

  lemma ComparesFromParts(pairs: seq<Pair>, pos: map<Handle, nat>, t: Generated)
    requires IsTopological(LtGraph(pairs), pos)
    requires t.up.Keys == Handles(LtGraph(pairs))
    requires forall a, b | a in t.up :: b in t.up[a] <==> Below(LtGraph(pairs), a, b)
    ensures t.Compares(pairs)
  {
    hide IsTopological, Chained, LtGraph, Below, Handles, Named;
    NamedHandles(pairs);
    forall x, y | x in Named(pairs) && y in Named(pairs) ensures t.ComparesAt(pairs, x, y) {
      ChainedIsBelow(pairs, x, y);
      ChainedIsBelow(pairs, y, x);
      if Chained(pairs, x, y) && Chained(pairs, y, x) {
        LatticeIsAntisymmetric(pairs, pos, x, y);
      }
    }
  }

  lemma LatticeFromParts(pairs: seq<Pair>, pos: map<Handle, nat>, pos': map<Handle, nat>, t: Generated)
    requires IsTopological(LtGraph(pairs), pos) && IsFirstTable(LtGraph(pairs), pos, t.joins)
    requires IsTopological(Reverse(LtGraph(pairs)), pos') && IsFirstTable(Reverse(LtGraph(pairs)), pos', t.meets)
    requires IsLatticeOrder(pairs)
    ensures t.IsLatticeOf(pairs)
  {
    hide IsTopological, Chained, LtGraph, Below, Handles, Named, IsFirstTable, IsLattice, TableOps, IsFirstCommon,
         GeneratesLattice, IsLatticeOrder, LeastAbove, GreatestBelow, Joins, Antisymmetric;
    var g := LtGraph(pairs);
    NamedHandles(pairs);
    LatticeOrderGenerates(pairs);
    TablesAreLattice(g, pos, t.joins, pos', t.meets);
    TablesAreGood(g, pos, t.joins, pos', t.meets);
    forall x, y | x in Named(pairs) && y in Named(pairs) ensures t.LatticeAt(pairs, x, y) {
      LatticeAtFromParts(pairs, pos, t, x, y);
    }
    forall p | p in pairs ensures t.PairAt(p) {
      PairIsNamed(pairs, p);
      assert t.LatticeAt(pairs, p.fst, p.snd);
      PairFromParts(pairs, pos, t, p);
    }
  }

  lemma PairIsNamed(pairs: seq<Pair>, p: Pair)
    requires p in pairs
    ensures p.fst in Named(pairs) && p.snd in Named(pairs) && Chained(pairs, p.fst, p.snd)
    ensures Chained(pairs, p.fst, p.fst) && Chained(pairs, p.snd, p.snd)
  {
    var i :| 0 <= i < |pairs| && pairs[i] == p;
    assert IsChain(pairs, [p.fst, p.snd]) && IsChain(pairs, [p.fst]) && IsChain(pairs, [p.snd]);
  }

  lemma LatticeAtFromParts(pairs: seq<Pair>, pos: map<Handle, nat>, t: Generated, x: Handle, y: Handle)
    requires IsTopological(LtGraph(pairs), pos) && GoodTables(LtGraph(pairs), t.joins, t.meets)
    requires x in Named(pairs) && y in Named(pairs)
    ensures t.LatticeAt(pairs, x, y)
  {
    hide IsTopological, Chained, LtGraph, Below, Handles, Named, IsFirstCommon, IsLattice, Antisymmetric;
    var g := LtGraph(pairs);
    NamedHandles(pairs);
    LeastAboveIsFirst(pairs, x, y, t.joins[(x, y)]);
    GreatestBelowIsFirst(pairs, x, y, t.meets[(x, y)]);
    var j := t.joins[(x, y)];
    assert Chained(pairs, y, y) && Chained(pairs, x, x) by {
      assert IsChain(pairs, [x]) && IsChain(pairs, [y]);
      ChainedSelf(pairs, x);
      ChainedSelf(pairs, y);
    }
    if Chained(pairs, x, y) {
      assert CommonAbove(pairs, x, y, y);
      LatticeIsAntisymmetric(pairs, pos, y, j);
    }
  }

  lemma ChainedSelf(pairs: seq<Pair>, x: Handle)
    ensures Chained(pairs, x, x)
  {
    assert IsChain(pairs, [x]) && [x][0] == x;
  }

  lemma PairFromParts(pairs: seq<Pair>, pos: map<Handle, nat>, t: Generated, p: Pair)
    requires IsTopological(LtGraph(pairs), pos) && p in pairs && t.LatticeAt(pairs, p.fst, p.snd)
    ensures t.PairAt(p)
  {
    hide IsTopological, Chained, LtGraph, Named, TableOps, Leq;
    PairIsNamed(pairs, p);
    var j, m := t.joins[(p.fst, p.snd)], t.meets[(p.fst, p.snd)];
    assert CommonAbove(pairs, p.fst, p.snd, p.snd) && CommonBelow(pairs, p.fst, p.snd, p.fst);
    LatticeIsAntisymmetric(pairs, pos, p.snd, j);
    LatticeIsAntisymmetric(pairs, pos, p.fst, m);
  }

  /**
   * All tables of the pairs, for the elements named in them and the top and bottom handles. It
   * panics exactly when two named elements have nothing above both or nothing below both. The
   * comparison is always that of the pairs; where these generate a lattice, the tables form it.
   * Operations on the elements never panic exactly when top and bottom are named in pairs.
   */
  method GenerateLattice(pairs: seq<Pair>, top: Handle, bottom: Handle, pos: map<Handle, nat>, pos': map<Handle, nat>)
    returns (r: Option<Generated>)
    requires Rises(pairs, pos) && Falls(pairs, pos')
    ensures r.None? <==> exists x, y :: Unbounded(pairs, x, y)
    ensures r.Some? ==> r.value.elems == Named(pairs) + {top, bottom}
    ensures r.Some? ==> r.value.Compares(pairs) && r.value.Bounds(pairs)
    ensures r.Some? ==> (r.value.Total() <==> {top, bottom} <= Named(pairs))
    ensures IsLatticeOrder(pairs) ==> r.Some? && r.value.IsLatticeOf(pairs)
  {
    hide IsTopological, IsFirstTable, IsLatticeOrder, IsLattice, Handles, LtGraph, Rises, Falls, Unbounded, Named,
         Generated.Compares, Generated.Bounds, Generated.Total, Generated.IsLatticeOf;
    RisesTopologically(pairs, pos);
    FallsTopologically(pairs, pos');
    NamedHandles(pairs);
    var g := GetLtGraph(pairs);
    HandlesReverse(g);
    var joins := CreateTable(g, pos);
    var meets := CreateTable(Reverse(g), pos');
    var up := CreateReachableSets(g);
    if joins.None? || meets.None? {
      ghost var x, y := PanicPair(pairs, if joins.None? then g else Reverse(g));
      UnboundedFrom(pairs, x, y, joins.None?);
      NoLatticeIfUnbounded(pairs, x, y);
      return None;
    }
    r := Some(Generated(Handles(g) + {top, bottom}, joins.value, meets.value, up));
    TablesFromParts(pairs, pos, pos', r.value);
    ComparesFromParts(pairs, pos, r.value);
    TotalExactly(g, top, bottom, pos, joins.value, pos', meets.value, up);
    if IsLatticeOrder(pairs) {
      LatticeFromParts(pairs, pos, pos', r.value);
    }
  }

  lemma NoLatticeIfUnbounded(pairs: seq<Pair>, x: Handle, y: Handle)
    requires Unbounded(pairs, x, y)
    ensures !IsLatticeOrder(pairs)
  {
    hide Chained, Named;
  }

  lemma TotalExactly(g: Less, top: Handle, bottom: Handle, pos: map<Handle, nat>, joins: Table, pos': map<Handle, nat>,
                     meets: Table, up: map<Handle, set<Handle>>)
    requires IsTopological(g, pos) && IsFirstTable(g, pos, joins)
    requires IsTopological(Reverse(g), pos') && IsFirstTable(Reverse(g), pos', meets) && up.Keys == Handles(g)
    ensures Generated(Handles(g) + {top, bottom}, joins, meets, up).Total() <==> {top, bottom} <= Handles(g)
  {
    hide IsTopological, Handles, IsEntry;
    HandlesReverse(g);
    if Generated(Handles(g) + {top, bottom}, joins, meets, up).Total() {
      assert top in up && bottom in up;
    }
  }
}
