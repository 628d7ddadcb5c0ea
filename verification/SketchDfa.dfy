/**
 * Sketches as automata (src/solver/type_sketch.rs, construct_dfa, is_structurally_equal,
 * empty_language_or_epsilon). A sketch accepts the label words that lead somewhere from its entry.
 */
module SketchDfa {
  import opened Graphs
  import opened Constraints
  import opened CongruenceClosure
  import opened DfaOperations

  type Word = seq<FieldLabel>
  type SketchSet = set<SketchEdge>

  ghost predicate Recognizes(E: SketchSet, entry: nat, w: Word) {
    Run(E, {entry}, w) != {}
  }

  function Labels(E: SketchSet): set<FieldLabel> {
    set e | e in E :: e.lab
  }

  ghost predicate IsSketch(V: set<nat>, E: SketchSet, entry: nat) {
    entry in V && EndsIn(E, V) && Deterministic(E)
  }

  function MissingEdges(V: set<nat>, E: SketchSet, sigma: set<FieldLabel>, reject: nat): SketchSet {
    set q, a | q in V && a in sigma && Step(E, {q}, a) == {} :: Arc(q, a, reject)
  }

  function RejectLoops(sigma: set<FieldLabel>, reject: nat): SketchSet {
    set a | a in sigma :: Arc(reject, a, reject)
  }

  /** Missing edges go to the reject node, which is never left again. */
  function Completed(V: set<nat>, E: SketchSet, sigma: set<FieldLabel>, reject: nat): SketchSet {
    E + MissingEdges(V, E, sigma, reject) + RejectLoops(sigma, reject)
  }

  /** Completion over an alphabet with a reject node; leaving out the entry makes it non-accepting. */
  method ConstructDfa(V: set<nat>, E: SketchSet, entry: nat, sigma: set<FieldLabel>, includeEntry: bool)
    returns (d: Dfa<FieldLabel>, reject: nat)
    requires IsSketch(V, E, entry) && Labels(E) <= sigma
    ensures d == Dfa(entry, Completed(V, E, sigma, reject), if includeEntry then V else V - {entry}, V + {reject})
    ensures reject !in d.accepts && (reject == 1 || reject - 1 in d.accepts)
  {
    var accepts := if includeEntry then V else V - {entry};
    reject := Bound(accepts);
    var all := accepts + {reject};
    if !includeEntry {
      all := all + {entry};
    }
    var edges := {};
    var todo := V;
    while todo != {}
      invariant todo <= V
      invariant edges == (set e | e in E && e.src !in todo) + MissingEdges(V - todo, E, sigma, reject)
    {
      var q :| q in todo;
      var found := set e | e in E && e.src == q && e.lab in sigma;
      var missing := set a | a in sigma && Step(E, {q}, a) == {} :: Arc(q, a, reject);
      MissingAdd(V, todo, E, sigma, reject, q);
      edges, todo := edges + found + missing, todo - {q};
    }
    assert V - todo == V && (set e | e in E && e.src !in todo) == E;
    d := Dfa(entry, edges + RejectLoops(sigma, reject), accepts, all);
    assert all == V + {reject};
  }

  lemma MissingAdd(V: set<nat>, todo: set<nat>, E: SketchSet, sigma: set<FieldLabel>, reject: nat, q: nat)
    requires todo <= V && q in todo && Labels(E) <= sigma
    ensures MissingEdges(V - (todo - {q}), E, sigma, reject)
            == MissingEdges(V - todo, E, sigma, reject)
               + set a | a in sigma && Step(E, {q}, a) == {} :: Arc(q, a, reject)
    ensures (set e | e in E && e.src !in todo - {q})
            == (set e | e in E && e.src !in todo) + set e | e in E && e.src == q && e.lab in sigma
  {
    assert forall e | e in E :: e.lab in Labels(E);
  }

  /** The completed automaton, entry included. */
  function Completion(V: set<nat>, E: SketchSet, entry: nat, sigma: set<FieldLabel>, reject: nat): Dfa<FieldLabel> {
    Dfa(entry, Completed(V, E, sigma, reject), V, V + {reject})
  }

  lemma CompletionIsComplete(V: set<nat>, E: SketchSet, entry: nat, sigma: set<FieldLabel>, reject: nat)
    requires IsSketch(V, E, entry) && Labels(E) <= sigma && reject !in V
    ensures Complete(Completion(V, E, entry, sigma, reject), sigma)
  {
    var d := Completion(V, E, entry, sigma, reject);
    forall e | e in d.edges ensures e.src in d.all && e.dst in d.all && e.lab in sigma {
      assert e in E ==> e.lab in Labels(E);
    }
    forall e, f | e in d.edges && f in d.edges && e.src == f.src && e.lab == f.lab ensures e.dst == f.dst {
      assert e in E ==> e.dst in Step(E, {e.src}, e.lab);
      assert f in E ==> f.dst in Step(E, {f.src}, f.lab);
    }
    forall q, a | q in d.all && a in sigma ensures Step(d.edges, {q}, a) != {} {
      if q in V && Step(E, {q}, a) != {} {
        var x :| x in Step(E, {q}, a);
        assert x in Step(d.edges, {q}, a);
      } else {
        assert Arc(q, a, reject) in d.edges;
        assert reject in Step(d.edges, {q}, a);
      }
    }
  }

  /** The completion is where the sketch is, or at the reject node where the sketch is nowhere. */
  lemma {:induction false} CompletionRun(V: set<nat>, E: SketchSet, sigma: set<FieldLabel>, reject: nat, Q: set<nat>,
                                         w: Word)
    requires EndsIn(E, V) && Labels(E) <= sigma && reject !in V && Q <= V + {reject}
    ensures Run(Completed(V, E, sigma, reject), Q, w) - {reject} == Run(E, Q - {reject}, w)
    decreases |w|
  {
    if w != [] {
      CompletedStep(V, E, sigma, reject, Q, w[0]);
      CompletionRun(V, E, sigma, reject, Step(Completed(V, E, sigma, reject), Q, w[0]), w[1..]);
    }
  }

  lemma CompletedStep(V: set<nat>, E: SketchSet, sigma: set<FieldLabel>, reject: nat, Q: set<nat>, a: FieldLabel)
    requires EndsIn(E, V) && reject !in V && Q <= V + {reject}
    ensures Step(Completed(V, E, sigma, reject), Q, a) <= V + {reject}
    ensures Step(Completed(V, E, sigma, reject), Q, a) - {reject} == Step(E, Q - {reject}, a)
  {
  }

  /** The completed automaton accepts exactly the words the sketch recognizes. */
  lemma CompletionLanguage(V: set<nat>, E: SketchSet, entry: nat, sigma: set<FieldLabel>, reject: nat, w: Word)
    requires IsSketch(V, E, entry) && Labels(E) <= sigma && reject !in V
    ensures Run(Completed(V, E, sigma, reject), {entry}, w) * V == Run(E, {entry}, w)
    ensures Accepts(Completion(V, E, entry, sigma, reject), w) <==> Recognizes(E, entry, w)
  {
    CompletionRun(V, E, sigma, reject, {entry}, w);
    RunStaysInside(E, V, {entry}, w);
    CompletionIsComplete(V, E, entry, sigma, reject);
    CompleteRun(Completion(V, E, entry, sigma, reject), sigma, {entry}, w);
    assert {entry} - {reject} == {entry};
    assert Run(Completed(V, E, sigma, reject), {entry}, w) * V == Run(Completed(V, E, sigma, reject), {entry},
           w) - {reject};
  }

  /** True exactly when both sketches recognize the same words, of whatever length. */
  method IsStructurallyEqual(V1: set<nat>, E1: SketchSet, e1: nat, V2: set<nat>, E2: SketchSet, e2: nat)
    returns (equal: bool)
    requires IsSketch(V1, E1, e1) && IsSketch(V2, E2, e2)
    ensures equal <==> forall w :: Recognizes(E1, e1, w) <==> Recognizes(E2, e2, w)
  {
    hide Accepts, Recognizes, Complete, IsProduct, IsTrimmed, Labels, Completed;
    var alphabet := Labels(E1) + Labels(E2);
    var lhs, rej1 := ConstructDfa(V1, E1, e1, alphabet, true);
    var rhs, rej2 := ConstructDfa(V2, E2, e2, alphabet, true);
    CompletionIsComplete(V1, E1, e1, alphabet, rej1);
    CompletionIsComplete(V2, E2, e2, alphabet, rej2);
    ComplementLanguage(lhs, alphabet, []);
    ComplementLanguage(rhs, alphabet, []);
    var onlyLeft, _, _ := Intersection(lhs, Complement(rhs), alphabet);
    var onlyRight, _, _ := Intersection(Complement(lhs), rhs, alphabet);
    var counterexamples, _, _ := DfaOperations.Union(onlyLeft, onlyRight, alphabet);
    equal := IsEmptyLanguage(counterexamples);
    forall w ensures !Accepts(counterexamples, w) <==> (Recognizes(E1, e1, w) <==> Recognizes(E2, e2, w)) {
      CompletionLanguage(V1, E1, e1, alphabet, rej1, w);
      CompletionLanguage(V2, E2, e2, alphabet, rej2, w);
      ComplementLanguage(lhs, alphabet, w);
      ComplementLanguage(rhs, alphabet, w);
      AcceptedOver(lhs, alphabet, w);
      AcceptedOver(rhs, alphabet, w);
    }
  }

  lemma AcceptedOver(d: Dfa<FieldLabel>, sigma: set<FieldLabel>, w: Word)
    requires Complete(d, sigma)
    ensures Accepts(d, w) ==> Over(w, sigma)
  {
    CompleteRun(d, sigma, {d.entry}, w);
  }

  /** True exactly when every recognized word leads back to the entry. */
  method EmptyLanguageOrEpsilon(V: set<nat>, E: SketchSet, entry: nat) returns (r: bool)
    requires IsSketch(V, E, entry)
    ensures r <==> OnlyLeadsBack(E, entry)
  {
    var d, reject := ConstructDfa(V, E, entry, Labels(E), false);
    r := IsEmptyLanguage(d);
    if OnlyLeadsBack(E, entry) {
      forall w ensures !Accepts(d, w) {
        LoopsOnly(V, E, entry, Labels(E), reject, w);
      }
    }
    if r {
      forall w ensures Run(E, {entry}, w) <= {entry} {
        assert !Accepts(d, w);
        RunMonotone(E, d.edges, {entry}, {entry}, w);
        RunStaysInside(E, V, {entry}, w);
        assert Run(E, {entry}, w) * d.accepts <= Run(d.edges, {entry}, w) * d.accepts;
      }
    }
  }

  ghost predicate OnlyLeadsBack(E: SketchSet, entry: nat) {
    forall w: Word :: Run(E, {entry}, w) <= {entry}
  }

  ghost predicate RecognizesOnlyEpsilon(E: SketchSet, entry: nat) {
    forall w: Word :: Recognizes(E, entry, w) <==> w == []
  }

  /** Holds even when the reject index coincides with the entry's. */
  lemma LoopsOnly(V: set<nat>, E: SketchSet, entry: nat, sigma: set<FieldLabel>, reject: nat, w: Word)
    requires IsSketch(V, E, entry) && reject !in V - {entry}
    requires OnlyLeadsBack(E, entry)
    ensures Run(Completed(V, E, sigma, reject), {entry}, w) * (V - {entry}) == {}
  {
    var I := {entry, reject};
    forall e | e in Completed(V, E, sigma, reject) && e.src in I ensures e.dst in I {
      if e in E {
        assert e.src == entry;
        RunOne(E, {entry}, e.lab);
        assert e.dst in Run(E, {entry}, [e.lab]);
      }
    }
    RunStaysInside(Completed(V, E, sigma, reject), I, {entry}, w);
  }

  /** The documented meaning, only the empty word is recognized, needs in addition that the entry has no loop. */
  lemma OnlyEpsilon(E: SketchSet, entry: nat)
    ensures RecognizesOnlyEpsilon(E, entry)
            <==> OnlyLeadsBack(E, entry) && forall e | e in E && e.src == entry :: e.dst != entry
  {
    if RecognizesOnlyEpsilon(E, entry) {
      forall w: Word ensures Run(E, {entry}, w) <= {entry} {
        assert Recognizes(E, entry, w) <==> w == [];
      }
      forall e | e in E && e.src == entry ensures e.dst != entry {
        assert !Recognizes(E, entry, [e.lab]);
        assert e.dst in Step(E, {entry}, e.lab);
        RunOne(E, {entry}, e.lab);
      }
    }
    if OnlyLeadsBack(E, entry) && forall e | e in E && e.src == entry :: e.dst != entry {
      forall w: Word ensures Recognizes(E, entry, w) <==> w == [] {
        if w != [] {
          RunOne(E, {entry}, w[0]);
          assert Run(E, {entry}, [w[0]]) <= {entry};
          assert Step(E, {entry}, w[0]) == {};
          RunOfNothing(E, w[1..]);
        }
      }
    }
  }
}
