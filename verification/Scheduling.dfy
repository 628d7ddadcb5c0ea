/**
 * Greedy partitioning of fields into structures (src/lowering/mod.rs, Classroom and
 * schedule_structures).
 */
module Scheduling {
  import opened Sets

  datatype StructField = StructField(byteOffset: nat, bitSize: nat, typeIndex: nat)

  type Fields = seq<StructField>

  /** The first byte behind a field. */
  function Upper(f: StructField): nat {
    f.byteOffset + f.bitSize / 8
  }

  predicate Covers(f: StructField, x: nat) {
    f.byteOffset <= x < Upper(f)
  }

  /** A field ends at or before a byte exactly when its last whole byte lies before it. */
  lemma UpperInBits(f: StructField, x: nat)
    ensures Upper(f) <= x <==> 8 * f.byteOffset + f.bitSize < 8 * x + 8
  {
  }

  /** A field covers exactly the bytes all of whose bits belong to it. */
  lemma CoversInBits(f: StructField, x: nat)
    ensures Covers(f, x) <==> 8 * f.byteOffset <= 8 * x && 8 * x + 8 <= 8 * f.byteOffset + f.bitSize
  {
    UpperInBits(f, x);
  }

  /** Every field ends, counted in bits, less than a byte behind where the next ones start. */
  ghost predicate EndsBeforeNext(s: Fields) {
    forall i, j | 0 <= i < j < |s| :: 8 * s[i].byteOffset + s[i].bitSize < 8 * s[j].byteOffset + 8
  }

  /** How many fields cover a byte. */
  function Depth(s: Fields, x: nat): nat {
    if s == [] then 0 else Depth(s[..|s| - 1], x) + if Covers(s[|s| - 1], x) then 1 else 0
  }

  /** Two fields overlap where they share a byte. */
  ghost predicate Overlap(f: StructField, g: StructField) {
    exists x: nat :: Covers(f, x) && Covers(g, x)
  }

  // ----- rooms -----

  function NextOffset(scheduled: Fields): nat {
    if scheduled == [] then 0 else Upper(scheduled[|scheduled| - 1])
  }

  /** A base in the field's own range that also lies before it, with a size that reaches its end. */
  predicate Supersedes(covering: map<nat, nat>, f: StructField) {
    exists base :: base in covering && f.byteOffset <= base < Upper(f)
      && base + covering[base] / 8 >= Upper(f) && base < f.byteOffset
  }

  /** The range starts at the field's own offset, so nothing in it can start before the field. */
  lemma NothingSupersedes(covering: map<nat, nat>, f: StructField)
    ensures !Supersedes(covering, f)
  {
  }

  class Classroom {
    var scheduled: Fields
    var covering: map<nat, nat>

    constructor ()
      ensures scheduled == [] && covering == map[]
    {
      scheduled, covering := [], map[];
    }

    method ScheduleFld(fld: StructField) returns (ok: bool)
      modifies this
      ensures ok <==> NextOffset(old(scheduled)) <= fld.byteOffset
      ensures ok ==> scheduled == old(scheduled) + [fld] && covering == old(covering)[fld.byteOffset := fld.bitSize]
      ensures !ok ==> scheduled == old(scheduled) && covering == old(covering)
    {
      if NextOffset(scheduled) > fld.byteOffset {
        return false;
      }
      covering := covering[fld.byteOffset := fld.bitSize];
      scheduled := scheduled + [fld];
      return true;
    }
  }

  // ----- sorting -----

  ghost predicate Sorted(s: Fields) {
    forall i, j | 0 <= i < j < |s| :: s[i].byteOffset <= s[j].byteOffset
  }

  /** Behind everything that does not start later: equal offsets keep their order. */
  function Insert(s: Fields, f: StructField): Fields {
    if s != [] && f.byteOffset < s[|s| - 1].byteOffset then Insert(s[..|s| - 1], f) + [s[|s| - 1]] else s + [f]
  }

  lemma {:induction false} InsertElements(s: Fields, f: StructField)
    ensures multiset(Insert(s, f)) == multiset(s) + multiset{f}
  {
    if s != [] && f.byteOffset < s[|s| - 1].byteOffset {
      assert s == s[..|s| - 1] + [s[|s| - 1]];
      InsertElements(s[..|s| - 1], f);
    }
  }

  lemma {:induction false} InsertSorted(s: Fields, f: StructField, bound: nat)
    requires Sorted(s) && f.byteOffset <= bound && forall i | 0 <= i < |s| :: s[i].byteOffset <= bound
    ensures Sorted(Insert(s, f)) && forall i | 0 <= i < |Insert(s, f)| :: Insert(s, f)[i].byteOffset <= bound
  {
    if s != [] && f.byteOffset < s[|s| - 1].byteOffset {
      InsertSorted(s[..|s| - 1], f, s[|s| - 1].byteOffset);
    } else if s != [] {
      assert forall i | 0 <= i < |s| :: s[i].byteOffset <= s[|s| - 1].byteOffset;
    }
  }

  /** The largest offset in a sorted sequence and a further field. */
  function LastOffset(s: Fields, f: StructField): nat {
    if s != [] && f.byteOffset < s[|s| - 1].byteOffset then s[|s| - 1].byteOffset else f.byteOffset
  }

  method SortByOffset(fields: Fields) returns (s: Fields)
    ensures Sorted(s) && multiset(s) == multiset(fields)
  {
    s := [];
    for i := 0 to |fields|
      invariant Sorted(s) && multiset(s) == multiset(fields[..i])
    {
      InsertSorted(s, fields[i], LastOffset(s, fields[i]));
      InsertElements(s, fields[i]);
      assert fields[..i + 1] == fields[..i] + [fields[i]];
      s := Insert(s, fields[i]);
    }
    assert fields[..|fields|] == fields;
  }

  // ----- which field went to which room -----

  type Rooms = seq<nat>

  /** The fields of room c, in order. */
  ghost function Part(s: Fields, rooms: Rooms, c: nat): Fields
    requires |rooms| == |s|
  {
    if s == [] then []
    else Part(s[..|s| - 1], rooms[..|s| - 1], c) + if rooms[|s| - 1] == c then [s[|s| - 1]] else []
  }

  /** Within a room every field ends before the next ones start. */
  ghost predicate Separated(s: Fields, rooms: Rooms) {
    |rooms| == |s| && forall i, j | 0 <= i < j < |s| && rooms[i] == rooms[j] :: Upper(s[i]) <= s[j].byteOffset
  }

  ghost predicate Uses(rooms: Rooms, k: nat) {
    (forall i | 0 <= i < |rooms| :: rooms[i] < k) && forall c | 0 <= c < k :: c in rooms
  }

  /** The earlier fields that are still going on where field i starts. */
  function Active(s: Fields, i: nat): set<nat>
    requires i < |s|
  {
    set j | 0 <= j < i && Upper(s[j]) > s[i].byteOffset
  }

  /** The largest number of fields going on where a field starts, that field included. */
  function Peak(s: Fields): nat {
    if s == [] then 0
    else
      var front, n := Peak(s[..|s| - 1]), 1 + |Active(s, |s| - 1)|;
      if front < n then n else front
  }

  lemma {:induction false} PeakBounds(s: Fields, i: nat)
    requires i < |s|
    ensures 1 + |Active(s, i)| <= Peak(s)
  {
    if i < |s| - 1 {
      PeakBounds(s[..|s| - 1], i);
      assert Active(s[..|s| - 1], i) == Active(s, i);
    }
  }

  lemma {:induction false} PeakAttained(s: Fields) returns (i: nat)
    requires s != []
    ensures i < |s| && Peak(s) == 1 + |Active(s, i)|
  {
    i := |s| - 1;
    assert |s| == 1 ==> Peak(s[..|s| - 1]) == 0;
    if Peak(s) != 1 + |Active(s, i)| {
      i := PeakAttained(s[..|s| - 1]);
      assert Active(s[..|s| - 1], i) == Active(s, i);
    }
  }

  function RoomsOf(rooms: Rooms, A: set<nat>): set<nat>
    requires forall j | j in A :: j < |rooms|
  {
    set j | j in A :: rooms[j]
  }

  lemma {:induction false} DistinctRooms(rooms: Rooms, A: set<nat>)
    requires forall j | j in A :: j < |rooms|
    requires forall i, j | i in A && j in A && rooms[i] == rooms[j] :: i == j
    ensures |RoomsOf(rooms, A)| == |A|
  {
    if A != {} {
      var j :| j in A;
      DistinctRooms(rooms, A - {j});
      assert RoomsOf(rooms, A) == RoomsOf(rooms, A - {j}) + {rooms[j]};
    }
  }

  /** Where a room's next offset is: at the end of its last field, behind all of its fields. */
  lemma {:induction false} PartNext(s: Fields, rooms: Rooms, c: nat) returns (last: nat)
    requires Separated(s, rooms) && Sorted(s) && c in rooms
    ensures last < |s| && rooms[last] == c && NextOffset(Part(s, rooms, c)) == Upper(s[last])
    ensures forall j | 0 <= j < |s| && rooms[j] == c :: Upper(s[j]) <= Upper(s[last])
  {
    last := |s| - 1;
    if rooms[last] != c {
      last := PartNext(s[..|s| - 1], rooms[..|s| - 1], c);
    }
  }

  lemma EndedInRoom(s: Fields, rooms: Rooms, p: nat, q: nat)
    requires Separated(s, rooms) && p < q < |s|
    ensures rooms[p] == rooms[q] ==> Upper(s[p]) <= s[q].byteOffset
  {
  }

  /** The active fields lie in different rooms, namely in those that are not free yet. */
  lemma ActiveRooms(s: Fields, rooms: Rooms, k: nat, i: nat)
    requires i < |s| && Sorted(s) && Separated(s[..i], rooms) && Uses(rooms, k)
    ensures |Active(s, i)| <= k
    ensures (forall c: nat | c < k :: NextOffset(Part(s[..i], rooms, c)) > s[i].byteOffset) ==> |Active(s, i)| == k
    ensures (exists c: nat :: c < k && NextOffset(Part(s[..i], rooms, c)) <= s[i].byteOffset) ==> |Active(s, i)| < k
  {
    var A := Active(s, i);
    var R := RoomsOf(rooms, A);
    forall p, q | p in A && q in A && p < q ensures rooms[p] != rooms[q] {
      EndedInRoom(s[..i], rooms, p, q);
    }
    DistinctRooms(rooms, A);
    SubsetSize(R, Upto(k));
    if forall c: nat | c < k :: NextOffset(Part(s[..i], rooms, c)) > s[i].byteOffset {
      forall c: nat | c < k ensures c in R {
        var last := PartNext(s[..i], rooms, c);
        assert last in A;
      }
      assert R == Upto(k);
    }
    if c: nat :| c < k && NextOffset(Part(s[..i], rooms, c)) <= s[i].byteOffset {
      var last := PartNext(s[..i], rooms, c);
      assert c !in R;
      SubsetSize(R, Upto(k) - {c});
    }
  }

  // ----- the greedy loop -----

  /** Fields seen so far are in their rooms, and there are exactly as many rooms as needed. */
  ghost predicate Scheduled(s: Fields, rooms: Rooms, k: nat) {
    Separated(s, rooms) && Uses(rooms, k) && k == Peak(s)
  }

  /** Field i goes to room c, an old one that is free or a new one when none is. */
  lemma ScheduleStep(s: Fields, rooms: Rooms, k: nat, i: nat, c: nat)
    requires i < |s| && Sorted(s) && Scheduled(s[..i], rooms, k) && c <= k
    requires c < k ==> NextOffset(Part(s[..i], rooms, c)) <= s[i].byteOffset
    requires c == k ==> forall d: nat | d < k :: NextOffset(Part(s[..i], rooms, d)) > s[i].byteOffset
    ensures Scheduled(s[..i + 1], rooms + [c], if c == k then k + 1 else k)
  {
    var longer, rooms' := s[..i + 1], rooms + [c];
    assert longer[..i] == s[..i];
    PeakNext(s, rooms, k, i, c);
    SeparatedNext(s, rooms, k, i, c);
    forall d | 0 <= d < (if c == k then k + 1 else k) ensures d in rooms' {
      assert d < k ==> d in rooms;
      assert rooms'[i] == c;
    }
  }

  lemma PeakNext(s: Fields, rooms: Rooms, k: nat, i: nat, c: nat)
    requires i < |s| && Sorted(s) && Scheduled(s[..i], rooms, k) && c <= k
    requires c < k ==> NextOffset(Part(s[..i], rooms, c)) <= s[i].byteOffset
    requires c == k ==> forall d: nat | d < k :: NextOffset(Part(s[..i], rooms, d)) > s[i].byteOffset
    ensures Peak(s[..i + 1]) == if c == k then k + 1 else k
  {
    ActiveRooms(s, rooms, k, i);
    assert s[..i + 1][..i] == s[..i];
    assert Active(s[..i + 1], i) == Active(s, i);
  }

  lemma SeparatedNext(s: Fields, rooms: Rooms, k: nat, i: nat, c: nat)
    requires i < |s| && Sorted(s) && Separated(s[..i], rooms) && Uses(rooms, k) && c <= k
    requires c < k ==> NextOffset(Part(s[..i], rooms, c)) <= s[i].byteOffset
    ensures Separated(s[..i + 1], rooms + [c])
  {
    var longer, rooms' := s[..i + 1], rooms + [c];
    if c < k {
      var last := PartNext(s[..i], rooms, c);
      assert forall j | 0 <= j < i && rooms[j] == c :: Upper(s[..i][j]) <= s[i].byteOffset;
    }
    forall p, q | 0 <= p < q < |longer| && rooms'[p] == rooms'[q] ensures Upper(longer[p]) <= longer[q].byteOffset {
      assert rooms'[p] == rooms[p] && longer[p] == s[..i][p];
      if q < i {
        assert rooms'[q] == rooms[q] && longer[q] == s[..i][q];
      }
    }
  }

  lemma PartNextStep(s: Fields, rooms: Rooms, i: nat, c: nat, d: nat)
    requires i < |s| && |rooms| == i
    ensures Part(s[..i + 1], rooms + [c], d) == Part(s[..i], rooms, d) + if d == c then [s[i]] else []
  {
    assert s[..i + 1][..i] == s[..i] && (rooms + [c])[..i] == rooms;
  }

  // ----- the result as a list of structures -----

  function Flatten(structs: seq<Fields>): Fields {
    if structs == [] then [] else Flatten(structs[..|structs| - 1]) + structs[|structs| - 1]
  }

  /** No two fields of one structure share a byte. */
  ghost predicate NoOverlaps(s: Fields) {
    forall i, j | 0 <= i < j < |s| :: !Overlap(s[i], s[j])
  }

  /** A way to distribute the fields: none lost, none overlapping. */
  ghost predicate IsPartitioning(fields: Fields, structs: seq<Fields>) {
    && multiset(Flatten(structs)) == multiset(fields)
    && forall c | 0 <= c < |structs| :: NoOverlaps(structs[c])
  }

  lemma {:induction false} DepthConcat(s: Fields, t: Fields, x: nat)
    ensures Depth(s + t, x) == Depth(s, x) + Depth(t, x)
    decreases |t|
  {
    if t == [] {
      assert s + t == s;
    } else {
      assert (s + t)[..|s + t| - 1] == s + t[..|t| - 1];
      DepthConcat(s, t[..|t| - 1], x);
    }
  }

  lemma RemoveAt(t: Fields, k: nat, x: nat) returns (rest: Fields)
    requires k < |t|
    ensures |rest| == |t| - 1 && multiset(t) == multiset(rest) + multiset{t[k]}
    ensures Depth(t, x) == Depth(rest, x) + if Covers(t[k], x) then 1 else 0
  {
    var front, back := t[..k], t[k + 1..];
    rest := front + back;
    assert t == front + [t[k]] + back;
    DepthConcat(front + [t[k]], back, x);
    DepthConcat(front, back, x);
    assert (front + [t[k]])[..k] == front;
  }

  lemma Cancel(a: multiset<StructField>, b: multiset<StructField>, f: StructField)
    requires a + multiset{f} == b + multiset{f}
    ensures a == b
  {
    assert a == a + multiset{f} - multiset{f};
  }

  lemma {:induction false} DepthOfMultiset(s: Fields, t: Fields, x: nat)
    requires multiset(s) == multiset(t)
    ensures Depth(s, x) == Depth(t, x)
    decreases |s|
  {
    if s == [] {
      assert |multiset(t)| == |t| == 0;
    } else {
      var f := s[|s| - 1];
      var s' := RemoveAt(s, |s| - 1, x);
      assert f in multiset(t);
      var k :| 0 <= k < |t| && t[k] == f;
      var t' := RemoveAt(t, k, x);
      Cancel(multiset(s'), multiset(t'), f);
      DepthOfMultiset(s', t', x);
    }
  }

  lemma {:induction false} DepthOfStructure(s: Fields, x: nat)
    requires NoOverlaps(s)
    ensures Depth(s, x) <= 1
    ensures Depth(s, x) == 1 ==> exists i :: 0 <= i < |s| && Covers(s[i], x)
  {
    if s != [] {
      var front, last := s[..|s| - 1], s[|s| - 1];
      DepthOfStructure(front, x);
      if Depth(front, x) == 1 {
        var i :| 0 <= i < |front| && Covers(front[i], x);
        assert !Overlap(s[i], s[|s| - 1]);
      }
    }
  }

  lemma {:induction false} DepthOfStructures(structs: seq<Fields>, x: nat)
    requires forall c | 0 <= c < |structs| :: NoOverlaps(structs[c])
    ensures Depth(Flatten(structs), x) <= |structs|
  {
    if structs != [] {
      var front, last := structs[..|structs| - 1], structs[|structs| - 1];
      DepthOfStructures(front, x);
      DepthOfStructure(last, x);
      DepthConcat(Flatten(front), last, x);
    }
  }

  /** Any partitioning needs as many structures as fields cover one byte. */
  lemma PartitioningAtLeastDepth(fields: Fields, structs: seq<Fields>, x: nat)
    requires IsPartitioning(fields, structs)
    ensures Depth(fields, x) <= |structs|
  {
    DepthOfStructures(structs, x);
    DepthOfMultiset(fields, Flatten(structs), x);
  }

  // ----- peak and depth -----

  ghost predicate IsMaxDepth(s: Fields, d: nat) {
    (forall x: nat :: Depth(s, x) <= d) && exists x: nat :: Depth(s, x) == d
  }

  function Covering(s: Fields, x: nat): set<nat> {
    set j | 0 <= j < |s| && Covers(s[j], x)
  }

  lemma {:induction false} DepthIsCovering(s: Fields, x: nat)
    ensures Depth(s, x) == |Covering(s, x)|
  {
    if s != [] {
      var front, n := s[..|s| - 1], |s| - 1;
      DepthIsCovering(front, x);
      assert Covering(s, x) == Covering(front, x) + if Covers(s[n], x) then {n} else {};
    }
  }

  /** A field of at least one byte covers its first byte, together with all that is active there. */
  lemma ActiveCover(s: Fields, i: nat)
    requires Sorted(s) && i < |s| && s[i].bitSize >= 8
    ensures 1 + |Active(s, i)| <= Depth(s, s[i].byteOffset)
  {
    var x := s[i].byteOffset;
    DepthIsCovering(s, x);
    assert Active(s, i) + {i} <= Covering(s, x);
    SubsetSize(Active(s, i) + {i}, Covering(s, x));
  }

  /** The last field that covers a byte starts while all the others are active. */
  lemma CoveringActive(s: Fields, x: nat)
    requires Sorted(s)
    ensures Depth(s, x) <= Peak(s)
  {
    DepthIsCovering(s, x);
    var C := Covering(s, x);
    if C != {} {
      var i := LastOf(C, |s|);
      assert C <= Active(s, i) + {i};
      SubsetSize(C, Active(s, i) + {i});
      PeakBounds(s, i);
    }
  }

  lemma {:induction false} LastOf(C: set<nat>, n: nat) returns (i: nat)
    requires C != {} && forall j | j in C :: j < n
    ensures i in C && forall j | j in C :: j <= i
  {
    if n - 1 in C {
      i := n - 1;
    } else {
      i := LastOf(C, n - 1);
    }
  }

  /**
   * The number of structures is the greatest depth exactly when no field of less than a byte
   * starts where as many earlier fields are going on as ever cover one byte.
   */
  lemma PeakIsDepth(s: Fields, d: nat)
    requires Sorted(s) && IsMaxDepth(s, d)
    ensures Peak(s) == d <==> forall i | 0 <= i < |s| && s[i].bitSize < 8 :: |Active(s, i)| < d
  {
    var x :| Depth(s, x) == d;
    CoveringActive(s, x);
    forall i | 0 <= i < |s| ensures 1 + |Active(s, i)| <= Peak(s) {
      PeakBounds(s, i);
    }
    if s != [] && forall i | 0 <= i < |s| && s[i].bitSize < 8 :: |Active(s, i)| < d {
      var i := PeakAttained(s);
      if s[i].bitSize >= 8 {
        ActiveCover(s, i);
      }
    }
  }

  // ----- the method -----

  /** What the rooms hold is what went to them. */
  ghost predicate Holds(contents: seq<Fields>, s: Fields, rooms: Rooms) {
    |rooms| == |s| && forall c | 0 <= c < |contents| :: contents[c] == Part(s, rooms, c)
  }

  function Contents(heap: seq<Classroom>): (r: seq<Fields>)
    reads heap
    ensures |r| == |heap| && forall c | 0 <= c < |heap| :: r[c] == heap[c].scheduled
  {
    seq(|heap|, c requires 0 <= c < |heap| reads heap => heap[c].scheduled)
  }

  ghost predicate AllDifferent(heap: seq<Classroom>) {
    forall c, d | 0 <= c < d < |heap| :: heap[c] != heap[d]
  }

  /** The room that is free first, as the source's heap ordered by next offset gives it. */
  method PeekMin(heap: seq<Classroom>) returns (m: nat)
    requires heap != []
    ensures m < |heap| && forall c | 0 <= c < |heap| :: NextOffset(heap[m].scheduled) <= NextOffset(heap[c].scheduled)
  {
    m := 0;
    for i := 1 to |heap|
      invariant m < i && forall c | 0 <= c < i :: NextOffset(heap[m].scheduled) <= NextOffset(heap[c].scheduled)
    {
      if NextOffset(heap[i].scheduled) < NextOffset(heap[m].scheduled) {
        m := i;
      }
    }
  }

  /** A field that finds the first free room not free gets a room of its own. */
  function Placed(contents: seq<Fields>, fld: StructField, room: nat): seq<Fields>
    requires room <= |contents|
  {
    if room < |contents| then contents[room := contents[room] + [fld]] else contents + [[fld]]
  }

  /** No room is free earlier. */
  ghost predicate FreeFirst(contents: seq<Fields>, room: nat) {
    room < |contents| ==> forall c | 0 <= c < |contents| :: NextOffset(contents[room]) <= NextOffset(contents[c])
  }

  /** room is free in time, or new when no room is. */
  ghost predicate FreeRoom(contents: seq<Fields>, fld: StructField, room: nat) {
    && room <= |contents|
    && (room < |contents| ==> NextOffset(contents[room]) <= fld.byteOffset)
    && (room == |contents| ==> forall c | 0 <= c < |contents| :: NextOffset(contents[c]) > fld.byteOffset)
  }

  /** Offers the field to the room that is free first. */
  method OfferFirst(heap: seq<Classroom>, fld: StructField) returns (scheduled: bool, room: nat)
    requires AllDifferent(heap)
    modifies heap
    ensures room <= |heap| && (scheduled <==> room < |heap|) && FreeRoom(old(Contents(heap)), fld, room)
    ensures FreeFirst(old(Contents(heap)), room)
    ensures Contents(heap) == if scheduled then Placed(old(Contents(heap)), fld, room) else old(Contents(heap))
  {
    ghost var before := Contents(heap);
    scheduled, room := false, |heap|;
    if heap != [] {
      var m := PeekMin(heap);
      scheduled := heap[m].ScheduleFld(fld);
      if scheduled {
        room := m;
        assert Contents(heap) == before[m := before[m] + [fld]];
      } else {
        assert Contents(heap) == before;
      }
    }
  }

  /** One turn of the source's loop. */
  method ScheduleNext(heap: seq<Classroom>, fld: StructField) returns (heap': seq<Classroom>, room: nat)
    requires AllDifferent(heap)
    modifies heap
    ensures AllDifferent(heap') && forall c | 0 <= c < |heap'| :: heap'[c] in heap || fresh(heap'[c])
    ensures FreeRoom(old(Contents(heap)), fld, room) && FreeFirst(old(Contents(heap)), room)
    ensures Contents(heap') == Placed(old(Contents(heap)), fld, room)
  {
    hide FreeRoom, FreeFirst;
    if exists c :: 0 <= c < |heap| && Supersedes(heap[c].covering, fld) {
      assert false;
    }
    ghost var before := Contents(heap);
    var scheduled;
    scheduled, room := OfferFirst(heap, fld);
    heap' := heap;
    if !scheduled {
      var newClass := new Classroom();
      var res := newClass.ScheduleFld(fld);
      assert res;
      heap' := heap + [newClass];
      assert newClass.scheduled == [fld] && forall c | 0 <= c < |heap| :: heap[c].scheduled == before[c];
      assert Contents(heap') == before + [[fld]];
    }
  }

  lemma PlacedHolds(contents: seq<Fields>, s: Fields, rooms: Rooms, i: nat, room: nat)
    requires i < |s| && Sorted(s) && Holds(contents, s[..i], rooms) && Scheduled(s[..i], rooms, |contents|)
    requires FreeRoom(contents, s[i], room)
    ensures Holds(Placed(contents, s[i], room), s[..i + 1], rooms + [room])
    ensures Scheduled(s[..i + 1], rooms + [room], |Placed(contents, s[i], room)|)
  {
    var contents' := Placed(contents, s[i], room);
    ScheduleStep(s, rooms, |contents|, i, room);
    forall c | 0 <= c < |contents'| ensures contents'[c] == Part(s[..i + 1], rooms + [room], c) {
      PartNextStep(s, rooms, i, room, c);
      if c == |contents| {
        PartOfUnused(s[..i], rooms, c);
      }
    }
  }

  lemma {:induction false} PartOfUnused(s: Fields, rooms: Rooms, c: nat)
    requires |rooms| == |s| && c !in rooms
    ensures Part(s, rooms, c) == []
  {
    if s != [] {
      PartOfUnused(s[..|s| - 1], rooms[..|s| - 1], c);
    }
  }

  lemma {:induction false} PartFields(s: Fields, rooms: Rooms, c: nat)
    requires Separated(s, rooms)
    ensures NoOverlaps(Part(s, rooms, c))
    ensures forall f | f in Part(s, rooms, c) :: exists i :: 0 <= i < |s| && s[i] == f && rooms[i] == c
  {
    if s != [] {
      var n := |s| - 1;
      PartFields(s[..n], rooms[..n], c);
      forall f | f in Part(s[..n], rooms[..n], c) ensures exists i :: 0 <= i < |s| && s[i] == f && rooms[i] == c {
        var i :| 0 <= i < n && s[..n][i] == f && rooms[..n][i] == c;
        assert s[i] == f && rooms[i] == c;
      }
      if rooms[n] == c {
        forall f | f in Part(s[..n], rooms[..n], c) ensures !Overlap(f, s[n]) {
          var i :| 0 <= i < n && s[..n][i] == f && rooms[..n][i] == c;
          assert rooms[i] == rooms[n] && s[i] == f;
        }
      }
    }
  }

  lemma {:induction false} PartEndsBeforeNext(s: Fields, rooms: Rooms, c: nat)
    requires Separated(s, rooms)
    ensures EndsBeforeNext(Part(s, rooms, c))
  {
    if s != [] {
      var n := |s| - 1;
      PartEndsBeforeNext(s[..n], rooms[..n], c);
      PartFields(s[..n], rooms[..n], c);
      if rooms[n] == c {
        forall f | f in Part(s[..n], rooms[..n], c)
          ensures 8 * f.byteOffset + f.bitSize < 8 * s[n].byteOffset + 8
        {
          var i :| 0 <= i < n && s[..n][i] == f && rooms[..n][i] == c;
          assert rooms[i] == rooms[n] && s[i] == f;
          UpperInBits(f, s[n].byteOffset);
        }
      }
    }
  }

  lemma FlattenSnoc(front: seq<Fields>, last: Fields)
    ensures Flatten(front + [last]) == Flatten(front) + last
  {
    assert (front + [last])[..|front|] == front;
  }

  lemma {:induction false} PlacedElements(contents: seq<Fields>, fld: StructField, room: nat)
    requires room <= |contents|
    ensures multiset(Flatten(Placed(contents, fld, room))) == multiset(Flatten(contents)) + multiset{fld}
    decreases |contents|
  {
    hide Flatten;
    var n := |contents|;
    if room == n {
      FlattenSnoc(contents, [fld]);
    } else {
      var front, last := contents[..n - 1], contents[n - 1];
      assert contents == front + [last];
      FlattenSnoc(front, last);
      if room == n - 1 {
        assert Placed(contents, fld, room) == front + [last + [fld]];
        FlattenSnoc(front, last + [fld]);
      } else {
        PlacedElements(front, fld, room);
        assert Placed(contents, fld, room) == Placed(front, fld, room) + [last];
        FlattenSnoc(Placed(front, fld, room), last);
      }
    }
  }

  /** The first i fields are scheduled, and nothing else is. */
  ghost predicate Progress(contents: seq<Fields>, s: Fields, i: nat, rooms: Rooms)
    requires i <= |s|
  {
    Holds(contents, s[..i], rooms) && Scheduled(s[..i], rooms, |contents|)
          && multiset(Flatten(contents)) == multiset(s[..i])
  }

  lemma ProgressStart(s: Fields)
    ensures Progress([], s, 0, [])
  {
  }

  lemma ProgressStep(contents: seq<Fields>, s: Fields, i: nat, rooms: Rooms, room: nat)
    requires i < |s| && Sorted(s) && Progress(contents, s, i, rooms) && FreeRoom(contents, s[i], room)
    ensures Progress(Placed(contents, s[i], room), s, i + 1, rooms + [room])
  {
    hide Holds, Scheduled, Sorted;
    PlacedHolds(contents, s, rooms, i, room);
    PlacedElements(contents, s[i], room);
    assert s[..i + 1] == s[..i] + [s[i]];
  }

  lemma ProgressEnd(structs: seq<Fields>, s: Fields, rooms: Rooms)
    requires Progress(structs, s, |s|, rooms)
    ensures IsPartitioning(s, structs) && |structs| == Peak(s)
    ensures forall c | 0 <= c < |structs| :: EndsBeforeNext(structs[c])
  {
    assert s[..|s|] == s;
    forall c | 0 <= c < |structs| ensures NoOverlaps(structs[c]) && EndsBeforeNext(structs[c]) {
      PartFields(s, rooms, c);
      PartEndsBeforeNext(s, rooms, c);
    }
  }

  /** Nothing is lost, nothing overlaps, and the number of structures is the peak of the sorted fields. */
  method ScheduleStructures(fields: Fields) returns (structs: seq<Fields>, ghost sorted: Fields)
    ensures Sorted(sorted) && multiset(sorted) == multiset(fields)
    ensures IsPartitioning(fields, structs) && |structs| == Peak(sorted)
    ensures forall c | 0 <= c < |structs| :: EndsBeforeNext(structs[c])
  {
    hide Progress, Sorted, FreeRoom, Placed, EndsBeforeNext;
    var s := SortByOffset(fields);
    sorted := s;
    var heap: seq<Classroom> := [];
    ghost var rooms: Rooms := [];
    ProgressStart(s);
    assert Contents(heap) == [];
    for i := 0 to |s|
      invariant AllDifferent(heap) && forall c | 0 <= c < |heap| :: fresh(heap[c])
      invariant Progress(Contents(heap), s, i, rooms)
    {
      ghost var contents := Contents(heap);
      var room;
      heap, room := ScheduleNext(heap, s[i]);
      ProgressStep(contents, s, i, rooms, room);
      rooms := rooms + [room];
    }
    structs := Contents(heap);
    ProgressEnd(structs, s, rooms);
  }

  /** Where every field has at least one byte, no other partitioning uses fewer structures. */
  lemma ScheduleIsMinimal(fields: Fields, sorted: Fields, structs: seq<Fields>, other: seq<Fields>)
    requires Sorted(sorted) && multiset(sorted) == multiset(fields)
    requires IsPartitioning(fields, structs) && |structs| == Peak(sorted)
    requires forall f | f in fields :: f.bitSize >= 8
    requires IsPartitioning(fields, other)
    ensures |structs| <= |other| && IsMaxDepth(fields, |structs|)
  {
    forall x: nat ensures Depth(fields, x) <= |structs| {
      PartitioningAtLeastDepth(fields, structs, x);
    }
    if sorted == [] {
      assert |multiset(fields)| == |fields| == 0;
      assert Depth(fields, 0) == 0;
    } else {
      var i := PeakAttained(sorted);
      assert sorted[i] in multiset(fields);
      ActiveCover(sorted, i);
      DepthOfMultiset(sorted, fields, sorted[i].byteOffset);
      PartitioningAtLeastDepth(fields, other, sorted[i].byteOffset);
    }
  }

  // ----- the best that is possible -----

  /** The fields of at least one byte, or the others, in order. */
  function Select(s: Fields, big: bool): Fields {
    if s == [] then []
    else Select(s[..|s| - 1], big) + if (s[|s| - 1].bitSize >= 8) == big then [s[|s| - 1]] else []
  }

  lemma SelectLast(s: Fields, f: StructField, big: bool)
    ensures Select(s + [f], big) == if (f.bitSize >= 8) == big then Select(s, big) + [f] else Select(s, big)
  {
    assert (s + [f])[..|s|] == s;
  }

  lemma {:induction false} SelectElements(s: Fields)
    ensures multiset(Select(s, true)) + multiset(Select(s, false)) == multiset(s)
  {
    if s != [] {
      hide Select;
      var front, f := s[..|s| - 1], s[|s| - 1];
      SelectElements(front);
      assert s == front + [f];
      SelectLast(front, f, true);
      SelectLast(front, f, false);
      var a, b := multiset(Select(front, true)), multiset(Select(front, false));
      OneMore(a, b, f);
      if f.bitSize >= 8 {
        assert multiset(Select(s, true)) == a + multiset{f} && multiset(Select(s, false)) == b;
      } else {
        assert multiset(Select(s, true)) == a && multiset(Select(s, false)) == b + multiset{f};
      }
      assert multiset(s) == multiset(front) + multiset{f};
    }
  }

  lemma OneMore(a: multiset<StructField>, b: multiset<StructField>, f: StructField)
    ensures (a + multiset{f}) + b == (a + b) + multiset{f} == a + (b + multiset{f})
  {
  }

  lemma {:induction false} SelectSize(s: Fields, big: bool)
    ensures forall f | f in Select(s, big) :: (f.bitSize >= 8) == big
  {
    if s != [] {
      SelectSize(s[..|s| - 1], big);
    }
  }

  lemma {:induction false} SelectDepth(s: Fields, x: nat)
    ensures Depth(Select(s, true), x) == Depth(s, x)
  {
    if s != [] {
      var front, f := s[..|s| - 1], s[|s| - 1];
      SelectDepth(front, x);
      assert s == front + [f];
      SelectLast(front, f, true);
      DepthConcat(Select(front, true), [f], x);
      DepthConcat(front, [f], x);
      DepthOne(f, x);
    }
  }

  lemma {:induction false} SelectSorted(s: Fields, big: bool, bound: nat)
    requires Sorted(s) && forall i | 0 <= i < |s| :: s[i].byteOffset <= bound
    ensures Sorted(Select(s, big)) && forall i | 0 <= i < |Select(s, big)| :: Select(s, big)[i].byteOffset <= bound
  {
    if s != [] {
      SelectSorted(s[..|s| - 1], big, s[|s| - 1].byteOffset);
    }
  }

  /** The greedy schedule of sorted fields exists. */
  lemma {:induction false} GreedySchedule(s: Fields, i: nat) returns (contents: seq<Fields>, rooms: Rooms)
    requires Sorted(s) && i <= |s|
    ensures Progress(contents, s, i, rooms)
  {
    if i == 0 {
      ProgressStart(s);
      contents, rooms := [], [];
    } else {
      hide Progress, Sorted, Placed;
      contents, rooms := GreedySchedule(s, i - 1);
      var room := |contents|;
      if c :| 0 <= c < |contents| && NextOffset(contents[c]) <= s[i - 1].byteOffset {
        room := c;
      }
      ProgressStep(contents, s, i - 1, rooms, room);
      contents, rooms := Placed(contents, s[i - 1], room), rooms + [room];
    }
  }

  ghost predicate AllApart(structs: seq<Fields>) {
    forall c | 0 <= c < |structs| :: NoOverlaps(structs[c])
  }

  /** Fields of less than a byte cover nothing, so they fit into any structure. */
  lemma {:induction false} AddSmall(structs: seq<Fields>, small: Fields) returns (r: seq<Fields>)
    requires AllApart(structs) && forall f | f in small :: f.bitSize < 8
    ensures AllApart(r) && multiset(Flatten(r)) == multiset(Flatten(structs)) + multiset(small)
    ensures |r| == if structs == [] && small != [] then 1 else |structs|
    decreases |small|
  {
    if small == [] {
      r := structs;
    } else {
      hide Flatten;
      var front, f := small[..|small| - 1], small[|small| - 1];
      assert small == front + [f];
      var r0 := AddSmall(structs, front);
      PlacedElements(r0, f, 0);
      r := Placed(r0, f, 0);
      forall c | 0 <= c < |r| ensures NoOverlaps(r[c]) {
        assert c < |r0| ==> NoOverlaps(r0[c]);
      }
    }
  }

  function AtLeastOne(d: nat): nat {
    if d == 0 then 1 else d
  }

  /** As many structures as fields cover one byte are enough, or one where no byte is covered. */
  lemma BestPartitioning(fields: Fields, sorted: Fields, d: nat) returns (best: seq<Fields>)
    requires Sorted(sorted) && multiset(sorted) == multiset(fields) && fields != [] && IsMaxDepth(fields, d)
    ensures IsPartitioning(fields, best) && |best| == AtLeastOne(d)
  {
    hide Progress, Sorted, Peak, Flatten, NoOverlaps;
    var big, small := Select(sorted, true), Select(sorted, false);
    SelectElements(sorted);
    SelectSize(sorted, true);
    SelectSize(sorted, false);
    BigSorted(sorted);
    var structs, rooms := GreedySchedule(big, |big|);
    ProgressEnd(structs, big, rooms);
    forall x: nat ensures Depth(big, x) == Depth(fields, x) {
      DepthOfMultiset(sorted, fields, x);
      SelectDepth(sorted, x);
    }
    PeakIsDepth(big, d);
    assert Peak(big) == d by {
      forall i | 0 <= i < |big| ensures big[i].bitSize >= 8 {
        assert big[i] in big;
      }
    }
    best := AddSmall(structs, small);
    if structs == [] && small == [] {
      NoFields(sorted, big, small, fields, structs);
    }
  }

  lemma NoFields(sorted: Fields, big: Fields, small: Fields, fields: Fields, structs: seq<Fields>)
    requires multiset(big) + multiset(small) == multiset(sorted) == multiset(fields)
    requires structs == [] && small == [] && multiset(Flatten(structs)) == multiset(big)
    ensures fields == []
  {
    assert |multiset(fields)| == |fields|;
  }

  lemma BigSorted(s: Fields)
    requires Sorted(s)
    ensures Sorted(Select(s, true))
  {
    var bound := if s == [] then 0 else s[|s| - 1].byteOffset;
    SelectSorted(s, true, bound);
  }

  /** No partitioning of some fields is without structures. */
  lemma SomeStructure(fields: Fields, other: seq<Fields>)
    requires IsPartitioning(fields, other) && fields != []
    ensures other != []
  {
    assert |multiset(fields)| == |fields|;
  }

  /** The peak is what is needed at least exactly when no field below a byte starts at full depth. */
  lemma PeakIsLeast(s: Fields, d: nat)
    requires Sorted(s) && IsMaxDepth(s, d) && s != []
    ensures Peak(s) >= AtLeastOne(d)
    ensures Peak(s) == AtLeastOne(d) <==> forall i | 0 <= i < |s| && s[i].bitSize < 8 :: |Active(s, i)| < AtLeastOne(d)
  {
    hide Peak, Active;
    var x :| Depth(s, x) == d;
    CoveringActive(s, x);
    forall i | 0 <= i < |s| ensures 1 + |Active(s, i)| <= Peak(s) {
      PeakBounds(s, i);
    }
    var i := PeakAttained(s);
    if s[i].bitSize >= 8 {
      ActiveCover(s, i);
    }
  }

  /**
   * The schedule is minimal, no other partitioning using fewer structures, exactly when no field
   * of less than a byte starts where as many earlier fields are going on as ever cover one byte.
   */
  lemma ScheduleIsMinimalExactly(fields: Fields, sorted: Fields, structs: seq<Fields>, d: nat)
    requires Sorted(sorted) && multiset(sorted) == multiset(fields)
    requires IsPartitioning(fields, structs) && |structs| == Peak(sorted) && IsMaxDepth(fields, d)
    ensures (forall other | IsPartitioning(fields, other) :: |structs| <= |other|)
       <==> fields == [] || forall i | 0 <= i < |sorted| && sorted[i].bitSize < 8 :: |Active(sorted, i)| < AtLeastOne(d)
  {
    hide IsPartitioning, Peak, Active, Sorted;
    assert |multiset(sorted)| == |sorted| && |multiset(fields)| == |fields|;
    if fields == [] {
      EmptyPeak(sorted);
    } else {
      forall x: nat ensures Depth(sorted, x) == Depth(fields, x) {
        DepthOfMultiset(sorted, fields, x);
      }
      PeakIsLeast(sorted, d);
      var best := BestPartitioning(fields, sorted, d);
      forall other | IsPartitioning(fields, other) ensures |other| >= AtLeastOne(d) {
        SomeStructure(fields, other);
        var x :| Depth(fields, x) == d;
        PartitioningAtLeastDepth(fields, other, x);
      }
    }
  }

  lemma EmptyPeak(s: Fields)
    requires s == []
    ensures Peak(s) == 0
  {
  }

  /** A field of four bits inside one of two bytes: two structures, though no byte is covered twice. */
  lemma SmallFieldCostsAStructure(f: StructField, g: StructField)
    requires f == StructField(0, 16, 0) && g == StructField(1, 4, 1)
    ensures Sorted([f, g]) && Peak([f, g]) == 2 && IsMaxDepth([f, g], 1) && IsPartitioning([f, g], [[f, g]])
  {
    hide Peak, IsMaxDepth, NoOverlaps, IsPartitioning, Sorted;
    SmallFieldPeak(f, g);
    SmallFieldDepth(f, g);
    OneStructure([f, g]);
  }

  lemma OneStructure(s: Fields)
    requires NoOverlaps(s)
    ensures IsPartitioning(s, [s])
  {
    assert [s][..0] == [] && Flatten([]) == [];
  }

  lemma SmallFieldPeak(f: StructField, g: StructField)
    requires f.byteOffset == 0 && Upper(f) == 2 && g.byteOffset == 1
    ensures Peak([f, g]) == 2 && Sorted([f, g])
  {
    assert [f, g][..1] == [f] && [f][..0] == [];
    assert Active([f, g], 1) == {0} && Active([f], 0) == {};
    assert Peak([f]) == 1;
  }

  lemma SmallFieldDepth(f: StructField, g: StructField)
    requires f.byteOffset == 0 && Upper(f) == 2 && Upper(g) == g.byteOffset
    ensures IsMaxDepth([f, g], 1) && NoOverlaps([f, g])
  {
    forall x: nat ensures Depth([f, g], x) == if Covers(f, x) then 1 else 0 {
      assert [f, g] == [f] + [g];
      DepthConcat([f], [g], x);
      DepthOne(f, x);
      DepthOne(g, x);
    }
    assert Covers(f, 0) && Depth([f, g], 0) == 1;
  }

  lemma DepthOne(f: StructField, x: nat)
    ensures Depth([f], x) == if Covers(f, x) then 1 else 0
  {
    assert [f][..0] == [];
  }
}
