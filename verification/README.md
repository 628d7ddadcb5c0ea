# Type inference for machine code: a verified model

This project models the constraint solver of the repository in Dafny and proves what its stages
promise. The solver takes subtyping constraints between derived type variables (a base variable
followed by field labels such as load, store, parameters, fields and displacements), simplifies
them, and turns them into sketches: graphs whose label paths are the capabilities of a type and
whose nodes carry lattice bounds.

## How it is organised

- **Rules.** `Constraints` has variables, labels and variance; `Derivation` says what a set of
  constraints entails: given constraints, reflexivity, transitivity, variance-respecting field
  rules, `x.store <= x.load`, and moving a displacement into a field. `SimplifyPath` is the
  one-pass rewriter that does the last of these.
- **Simplification by a pushdown automaton.** `Pushdown` builds the automaton, `Saturation` is the
  saturation loop, `SaturationLaws` its soundness and self-duality, `SaturationExact` its
  equivalence with runs over a real stack (`StackWords` has the words), `PopPush` the intersection
  with pops-then-pushes, `CycleBreaking` what one loop breaker does and `LoopBreaking` what all of
  them do, `SimplePaths` the path enumeration, `Walk` the constraints read off paths.
  `SimplificationExact`, `StatePaths`, `BrokenPaths`, `Completeness` and `Incompleteness` say which
  relations survive, `Flows` follows values through parameters and memory. `FsaGraph` is the graph under ids, `Automaton` the object whose methods update
  it stage by stage, `Preparation` its way up to cycle breaking and `Simplification` the whole.
- **Sketches by congruence closure.** `CongruenceClosure` is the merging loop, `Quotients` the
  quotient, `MappingGraphs` the keyed graph object, `SketchBuilder` and `SketchLabels` the
  construction from constraints, `SketchShapes` what the result says about derivability,
  `PointerSimplification` the folding of displacements into fields, `PointerPaths` what it does to
  paths, `SketchLocations` what it does to the variables of the constraints, and `Condensing` what
  repeated merging does to bounds.
- **Sketch algebra.** `DfaOperations` has products, complement, trimming and emptiness,
  `SketchDfa` completion and structural equality, `SketchCombine` and `Sketches` meet and join,
  `GraphSearch` the two path searches.
- **Lattices and lowering.** `Lattice` and `BoundsLattice` have the laws, `TypeLattice` the join
  and meet tables, `Scheduling` the partition of fields into structures.
- `Graphs` and `Sets` hold what the others share: runs of labelled graphs, reachability, sizes.

Where the source changes state, the model has a class or a loop and proves it against a
specification function; the laws are then lemmas about that function. A panic of the source is a
result (`None`, `false`, `Overflow`, `TooLarge`) or is shown not to happen.

## Where the code and its documentation disagree

The model follows the code in each case.

- Folding pointers is documented for nodes whose incoming edges are all adds
  (src/solver/type_sketch.rs:2384-2385); the code asks for at least one
  (src/solver/type_sketch.rs:2287-2301), and so does `CanSimplify`. Paths that come to the fields
  without a displacement may then be lost (`PointerPaths.TransformLosesPaths`). Even under the
  documented guard a variable that is itself the displaced pointer loses the fields it had been
  given: it becomes one with the undisplaced pointer, so its labels no longer lead to them
  (`SketchLocations.VariableLosesField`). `PointerPaths.TransformKeepsExactly` says from which
  starts every path is kept, `SketchLocations.KeyStaysExactly` which variables stay where their
  labels lead, and `KeyIsFolded` where the others are.
- The meet is documented as the greatest common subtype; its last quotient may add paths that
  neither sketch has (`Sketches.MeetMayGainPaths`), exactly when loads and stores do not match.
- `empty_language_or_epsilon` is documented as "only epsilon"; it is also true for an entry with
  loops (`SketchDfa.OnlyEpsilon` states the difference).
- `schedule_structures` promises a minimal number of structures; that needs fields of at least one
  byte, or the condition of `Scheduling.ScheduleIsMinimalExactly`.
- A superseded field is documented as removable; the test never succeeds
  (`Scheduling.NothingSupersedes`).
- Walking the automaton is documented to collect all elementary proofs
  (src/solver/constraint_graph.rs:636). That holds, cycles or not, for proofs that apply the pointer
  and displacement rules at interesting variables only (`Simplification.SimplifyConstraints`), and
  fails for others (`Incompleteness.SimplificationIsIncomplete`); `NothingLostExactly` says over
  which variables it never fails, and `HarmlessLosesNothing` gives a test on the constraints.
- `minimize` only trims; the model says trimmed.

## Model

| member | source | states |
|---|---|---|
| Constraints.PathVarianceConcat | src/constraints.rs:390-399 | the variance of a path is the product over its parts, so splitting a path anywhere multiplies the parts |
| Constraints.VariableManager.FreshLoopBreaker | src/constraints.rs:278-283 | a loop breaker takes the shared counter as its number and advances both counters |
| Constraints.SameCallee | src/constraints.rs:214-220 | callees differ in name or kind only: a call-site tag makes no difference, and taking it off twice is taking it off once |
| SimplifyPath.UniqueNormalForm | src/constraint_generation/mod.rs:180-185 | every way of applying x.+y.load.field@b to x.load.field@(b+y) (likewise store) until it no longer applies ends in one path, Norm, and only there |
| SimplifyPath.NormHasNoFold | src/constraint_generation/mod.rs:186-234 | no simplified path has a displacement in front of a load or a store and a field |
| SimplifyPath.NormIdempotent | src/constraint_generation/mod.rs:186-234 | simplifying a second time changes nothing |
| SimplifyPath.NormKeepsVariance | src/constraint_generation/mod.rs:186-234 | a path and its simplification have the same variance |
| SimplifyPath.NormKeepsTotal | src/constraint_generation/mod.rs:186-234 | the sum of displacements and field offsets along a path is conserved |
| SimplifyPath.NormEquivalent | src/constraint_generation/mod.rs:186-234 | behind any prefix, a path and its simplification denote derivably equal types |
| SimplifyPath.MachineIntegers | src/constraint_generation/mod.rs:209-214 | the ranges that the two conversions and the running sum are checked against |
| SimplifyPath.FoldChecked | src/constraint_generation/mod.rs:209-214 | the folded offset, and the overflow panic exactly when a partial sum leaves 128 bits or the sum or the offset leaves 64 |
| SimplifyPath.Simplify | src/constraint_generation/mod.rs:186-234 | the one-pass loop returns the normal form, and panics exactly when some fold overflows |
| Derivation.DeriveSuffix | src/solver/constraint_graph.rs:504-507 | a derivable subtyping survives any common suffix, turned around where the suffix is contravariant |
| Derivation.DeriveStoreLoad | src/solver/constraint_graph.rs:888-934 | under any suffix, what is stored through a pointer flows to what is loaded |
| Derivation.LabelDirections | src/constraints.rs:346-358 | derivable subtyping is turned around behind a parameter and behind a store, and keeps its direction behind a load, a result, a field and a displacement |
| Derivation.PointerRules | src/constraint_generation/mod.rs:180-185 | a displacement is derivably moved into the field behind a load and behind a store |
| Pushdown.GeneratePushPopEdges | src/solver/constraint_graph.rs:1198-1234 | the loop yields, for every prefix of the access path, the push edge and its reverse with the right signs |
| Pushdown.InitialEdgesSelfDual | src/solver/constraint_graph.rs:1286-1342 | for every edge of the new automaton the reversed edge with push and pop exchanged joins the opposite states, and opposite states are always present |
| Saturation.MatchPops | src/solver/constraint_graph.rs:867-886 | one pass adds a success edge for exactly the pops that a reaching push matches |
| Saturation.SwapPointers | src/solver/constraint_graph.rs:888-934 | one pass applies the store and load exchange to all facts, and panics only where an opposite state is missing |
| Saturation.Round | src/solver/constraint_graph.rs:846-938 | one turn of the loop either reaches the fixpoint or strictly uses up the room for new edges and facts |
| Saturation.GetSaturationEdges | src/solver/constraint_graph.rs:816-942 | the loop ends, whatever the order, at the least set of facts and edges closed under success propagation, matching and the pointer exchange, and hands out the matches that are not reflexive |
| SaturationLaws.InitialSound | src/solver/constraint_graph.rs:1286-1342 | every edge of the new automaton keeps the denoted type or is a derivable subtyping, and its signs follow the stack |
| SaturationLaws.SaturationSound | src/solver/constraint_graph.rs:816-942 | saturation adds only edges with that property; in particular its success edges join states of equal variance |
| SaturationLaws.SaturationSelfDual | src/solver/constraint_graph.rs:888-934 | the saturation of a self-dual automaton is self-dual |
| SaturationLaws.SaturatedEdgesSelfDual | src/solver/constraint_graph.rs:941 | dropping reflexive edges keeps it so |
| SaturationLaws.OppositeStatePresent | src/solver/constraint_graph.rs:909-929 | the lookups of the opposite state during saturation always succeed |
| SaturationExact.SaturationComplete | src/solver/constraint_graph.rs:846-942 | every run of the unsaturated automaton with a real stack has a run of the saturated one with the same effect and no pop after a push |
| SaturationExact.NormalRunSimulated | src/solver/constraint_graph.rs:846-942 | conversely every pops-then-pushes path of the saturated automaton is the effect of a run with a real stack |
| SaturationExact.SaturationExact | src/solver/constraint_graph.rs:846-942 | the two together: equal effects, for all pairs of states and all effects |
| PopPush.IntersectedExact | src/solver/constraint_graph.rs:1062-1095 | a word leads to the copied target exactly when the automaton accepts it, it pushes something, and it pops nothing after a push; words without a push stay in the original part |
| FsaGraph.IntersectAtEffect | src/solver/constraint_graph.rs:1074-1089 | the edge updates of one loop turn leave exactly the contribution of that edge to the intersection |
| FsaGraph.MoveEdges | src/solver/constraint_graph.rs:750-771 | the loop that redirects the edges at a node yields exactly the redirected edge set |
| Automaton.Fsa.constructor | src/solver/constraint_graph.rs:1286-1342 | the graph holds exactly the initial edges and both end states, one node for each state |
| Automaton.Fsa.Saturate | src/solver/constraint_graph.rs:1042-1046 | the graph gains exactly the saturation edges and no state; the lookup panic cannot happen when opposite states are present |
| Automaton.Fsa.IntersectWithPopPush | src/solver/constraint_graph.rs:1062-1095 | the graph becomes exactly the intersection of the old one with pops-then-pushes |
| Automaton.Fsa.RemoveUnreachable | src/solver/constraint_graph.rs:540-570 | exactly the nodes between start and copied end stay, and no word from one to the other changes |
| Automaton.Fsa.GetEquivNodeIdxs | src/solver/constraint_graph.rs:673-686 | of the nodes that the maps find, exactly those labelled with the state or with its opposite, in the original and in the copy |
| Automaton.Fsa.BreakAt | src/solver/constraint_graph.rs:656-663 | one fresh variable replaces a node and all its equivalents, whole classes at a time, and stands for their derived variable |
| Automaton.Fsa.BreakScc | src/solver/constraint_graph.rs:613-664 | each component to be broken has an entry and a prefix-minimal one, so neither panic can happen; the node chosen is entered from outside, and its variable extends that of no other such node |
| Automaton.Fsa.GenerateRecursiveTypeVariables | src/solver/constraint_graph.rs:638-671 | cycle breaking ends, leaves no cycle through two or more nodes, keeps every edge sound under the meaning of the loop breakers, and changes nothing when there was no such cycle; the edges are exactly the old ones, moved to the loop breakers of their ends, and two for each replaced node; only states on such cycles are given a loop breaker |
| CycleBreaking.ReplaceInGraph | src/solver/constraint_graph.rs:694-772 | incoming edges now end at a fresh exit, outgoing ones start at a fresh entry, and only the two breaker edges are added |
| CycleBreaking.SoundReplacement | src/solver/constraint_graph.rs:694-772 | a replacement keeps every edge sound when the loop breaker stands for the replaced variable |
| CycleBreaking.FromStartReplacement | src/solver/constraint_graph.rs:694-772 | every node that is not replaced stays reachable from the start |
| LoopBreaking.BrokenReplacement | src/solver/constraint_graph.rs:694-772 | however many nodes have been replaced, the edges are the original ones with replaced ends moved and the breaker edges, nothing else |
| LoopBreaking.ReplacementKeeps | src/solver/constraint_graph.rs:694-772 | a replacement keeps the whole invariant of cycle breaking |
| LoopBreaking.EntriesExist | src/solver/constraint_graph.rs:572-590 | a component that is still to be broken is entered from outside |
| LoopBreaking.PrefixMinimalExists | src/solver/constraint_graph.rs:612-631 | among the entries one has no other entry as a proper prefix |
| LoopBreaking.SmallSccs | src/solver/constraint_graph.rs:640-671 | when a pass changes nothing, no two nodes lie on a common cycle |
| SimplePaths.AllSimplePaths | src/graph_algos/mod.rs:10-46 | the loop over an explicit stack and a visited set yields what the recursive enumeration yields, and terminates on cyclic multigraphs |
| SimplePaths.AllTrailsOnce | src/graph_algos/mod.rs:10-46 | that enumeration is exactly the non-empty edge-distinct paths that meet the target with their last edge only, each once |
| Walk.CollectLabels | src/solver/constraint_graph.rs:1119-1164 | the labels popped and, in reverse, pushed between the two variables, or failure exactly when a variable is in between |
| Walk.PathToConstraint | src/solver/constraint_graph.rs:1129-1185 | the constraint of a path, nothing when the shape or a variance test fails, the overflow panic exactly when a fold overflows |
| Walk.TestsAgree | src/solver/constraint_graph.rs:1167-1182 | on every readable path the left and the right variance test agree |
| Walk.EmittedDerivable | src/solver/constraint_graph.rs:1129-1185 | what is read off a path of a sound automaton is derivable |
| Walk.WalkConstraints | src/solver/constraint_graph.rs:1187-1196 | exactly the constraints of all trails from start to end, or the overflow panic exactly when one of them overflows |
| Preparation.InitialMadeOf | src/solver/constraint_graph.rs:1286-1342 | the automaton mentions no variables and no labels but those of the constraints |
| Preparation.Prepare | src/solver/constraint_graph.rs:1015-1035 | construction, saturation, intersection and trimming never panic and leave the invariant that cycle breaking starts from |
| StatePaths.PathTracked | src/solver/constraint_graph.rs:1048-1095 | every path of states from start to end that pops before it pushes runs through the intersected and trimmed graph |
| BrokenPaths.PieceAccepted | src/solver/constraint_graph.rs:694-772 | a piece of such a path between two replaced states is a path from start to end of the broken graph, from one loop breaker to the other |
| BrokenPaths.DualSides | src/solver/constraint_graph.rs:1129-1185 | the same piece read backwards between the opposite states has its two sides exchanged and both variance tests turned around |
| BrokenPaths.WordEntails | src/solver/constraint_graph.rs:1167-1182 | of a piece and its reverse exactly one passes the tests; either one entails what the piece says under every stack that fits |
| BrokenPaths.Splice | src/solver/constraint_graph.rs:638-671 | what two pieces that meet in a loop breaker entail is what they say joined without it |
| BrokenPaths.PathEntailed | src/solver/constraint_graph.rs:638-671 | what a whole path says follows from what is read off the broken graph |
| Simplification.SpelledSurvive | src/solver/constraint_graph.rs:631-637 | breaking cycles loses nothing: everything the pushdown runs spell follows from what is read off the broken graph |
| Simplification.CalmWalks | src/constraint_generation/mod.rs:209-214 | without displacements and with field offsets within 64 bits no trail overflows |
| Walk.SubstProof | src/solver/constraint_graph.rs:1015-1037 | if constraints are derivable once loop breakers stand for what they replaced, so is everything those constraints entail |
| Simplification.ReadIsKept | src/solver/constraint_graph.rs:1015-1037 | what is read off an automaton that pops and pushes only interesting variables and loop breakers relates only those |
| Simplification.SimplifyConstraints | src/solver/constraint_graph.rs:1015-1037 | end to end: every constraint handed out is derivable from those handed in, loop breakers standing for what they replaced, and together they entail everything the pushdown runs spell and every basic relation between interesting variables; it adds no relation between variables that are not loop breakers; only interesting variables, tagged or not, and loop breakers are left; the overflow panic happens exactly when a trail of the final graph overflows, and never without displacements and with 64-bit offsets; without cycles the result is exactly what the runs spell, and the panic exactly an overflowing run |
| Flows.ArgumentsReachParameters | src/constraints.rs:346-358 | simplifying three constraints that pass y to f, use g as f and use the parameter of g as x leaves y below x |
| Flows.ParametersTurnAround | src/constraints.rs:346-358 | with f and g exchanged it does not: y below x is not derivable and not handed out |
| Flows.StoresReachLoads | src/solver/constraint_graph.rs:888-934 | what is stored through a pointer is left below what is loaded through another one used for it |
| Completeness.ProofIsChain | src/solver/constraint_graph.rs:504-507 | a derivation that applies the pointer and displacement rules at interesting variables only is a chain of single constraints and such rules under suffixes |
| Completeness.MoveRun | src/solver/constraint_graph.rs:1198-1234 | one constraint under a suffix is replayed by popping down to it, crossing it and pushing up again, with every sign right |
| Completeness.StretchRun | src/solver/constraint_graph.rs:1286-1342 | a chain between two interesting variables with none in between is a run from the start to the end |
| Completeness.BasicDerivationsSurvive | src/solver/constraint_graph.rs:631-637 | completeness: what the constraints entail between interesting variables, the pointer and displacement rules applied at interesting variables only, is entailed by whatever entails what the runs spell |
| Incompleteness.NothingSpelled | src/solver/constraint_graph.rs:888-934 | constraints with interesting variables on the right only, and without pointers and inputs, spell nothing |
| Incompleteness.OneSidedWithoutCycles | src/solver/constraint_graph.rs:638-671 | such an automaton has no cycle on a way from start to end, so nothing is broken |
| Incompleteness.SimplificationIsIncomplete | src/solver/constraint_graph.rs:888-934 | such constraints may still relate two interesting variables; simplification returns the empty set for them, and the empty set does not relate the variables |
| Incompleteness.NothingLostExactly | src/solver/constraint_graph.rs:631-637 | over a set of variables no relation between interesting variables is ever lost exactly when the set has no uninteresting variable or no interesting one |
| Incompleteness.HarmlessLosesNothing | src/solver/constraint_graph.rs:631-637 | for constraints that do not relate some interesting variables to others and say nothing about loads, stores and displacements of the others, no relation of the former is lost, and none of the latter that says nothing about them either |
| Derivation.EntailedDerivation | src/solver/constraint_graph.rs:1015-1037 | constraints that follow from others entail nothing more |
| SimplificationExact.WalksAreWords | src/solver/constraint_graph.rs:1187-1196 | where the only cycles are success edges at one node, the trails have exactly the effects that accepted words have |
| SimplificationExact.ReadsNet | src/solver/constraint_graph.rs:1129-1196 | what is read off the trails is what their effects spell |
| SimplificationExact.OverflowNet | src/solver/constraint_graph.rs:1129-1196 | and whether one overflows depends on their effects alone |
| SimplificationExact.EmitsNet | src/solver/constraint_graph.rs:1129-1185 | what a readable word emits depends only on its net effect |
| SimplificationExact.WordsAreRuns | src/solver/constraint_graph.rs:1015-1035 | the words of the saturated and intersected automaton have exactly the effects that its pushdown runs have |
| SimplificationExact.PlacedWords | src/solver/constraint_graph.rs:1048-1095 | words between graph indices are words between the states they stand for |
| Lattice.JoinIsLub | src/solver/type_lattice.rs:355-369 | in a lattice the join is the least upper bound |
| Lattice.MeetIsGlb | src/solver/type_lattice.rs:371-385 | in a lattice the meet is the greatest lower bound |
| Lattice.FoldIsTight | src/solver/type_sketch.rs:149-160 | merging the bounds of a group gives the meet of the upper and the join of the lower bounds |
| Lattice.FoldOrderFree | src/solver/type_sketch.rs:149-160 | in whatever order they are merged |
| BoundsLattice.BoundsAreLattice | src/solver/type_sketch.rs:110-126 | pairs of bounds under the pairwise operations form a lattice |
| BoundsLattice.JoinOfBounds | src/solver/type_sketch.rs:110-126 | in the pairwise order the join is the least pair above both |
| BoundsLattice.MeetOfBounds | src/solver/type_sketch.rs:110-126 | and the meet the greatest below both |
| BoundsLattice.ComparisonIsPairwise | src/solver/type_sketch.rs:128-143 | the comparison decided by the join is the pairwise order, in both directions |
| BoundsLattice.MergeIsIntersection | src/solver/type_sketch.rs:149-160 | an element fits merged bounds exactly when it fits both |
| TypeLattice.GetLtGraph | src/solver/type_lattice.rs:106-136 | grouping the pairs and inserting the edges yields exactly the given pairs, each once |
| TypeLattice.CreateTable | src/solver/type_lattice.rs:170-212 | every entry is the topologically first common reachable element, and the panic means some pair has none |
| TypeLattice.EntryIsLeast | src/solver/type_lattice.rs:170-212 | an entry is the least common element exactly when there is one |
| TypeLattice.CreateReachableSets | src/solver/type_lattice.rs:214-231 | for each element exactly the elements above it |
| TypeLattice.TablesAreLattice | src/solver/type_lattice.rs:156-168 | when the pairs generate a lattice the two tables satisfy its laws |
| TypeLattice.ComparisonAgrees | src/solver/type_lattice.rs:323-350 | the comparison agrees with the join table |
| TypeLattice.ChainedIsBelow | src/solver/type_lattice.rs:106-136 | the graph leads from one element to another exactly when a chain of given pairs does |
| TypeLattice.GenerateLattice | src/solver/type_lattice.rs:234-280 | comparing gives smaller exactly where a chain of the given pairs leads up; joining and meeting give an element above and below both, and where the pairs form a lattice order the least and the greatest, so that a pair joins to its greater and meets in its smaller element; panics exactly when two named elements have nothing above or nothing below both; operations on the elements handed out find every entry exactly when the top and bottom handles are named in pairs |
| CongruenceClosure.Pass | src/solver/type_sketch.rs:261-303 | one pass over the implications merges only what every congruence merges, and consumes what it has applied |
| CongruenceClosure.Close | src/solver/type_sketch.rs:205-305 | the do-while loop ends at the least equivalence with the initial pairs under which equal edges, or a load and a store, out of equal nodes lead to equal nodes |
| CongruenceClosure.LeastIsExact | src/solver/type_sketch.rs:205-305 | two nodes get one label exactly when every such equivalence relates them |
| CongruenceClosure.GenerateQuotientGroups | src/solver/type_sketch.rs:205-341 | the groups partition the live nodes into exactly the classes of that equivalence |
| Quotients.QuotientAgrees | src/solver/type_sketch.rs:162-186 | the quotient is deterministic and its load and store targets agree at every node |
| Quotients.QuotientKeepsPaths | src/graph_algos/mapping_graph.rs:432-495 | every labelled path maps to the only path with its labels |
| Quotients.QuotientIsLeast | src/solver/type_sketch.rs:205-341 | any map of nodes that merges the initial pairs and makes such edges agree merges whatever the quotient merges |
| Quotients.FoldGroup | src/graph_algos/mapping_graph.rs:441-454 | the weight of a group is the fold of its members, each once |
| Quotients.FoldOfIsTight | src/graph_algos/mapping_graph.rs:441-454 | that fold is the meet of uppers and join of lowers and does not depend on the order |
| Quotients.Homes | src/graph_algos/mapping_graph.rs:435-439 | every node is mapped to the number of its group |
| Quotients.ImageOf | src/graph_algos/mapping_graph.rs:456-469 | the loop over the edges yields exactly the image, so every new edge has a preimage |
| MappingGraphs.CopiesIdentify | src/graph_algos/mapping_graph.rs:346-384 | copying the edges of both nodes and dropping the two is identification, loops and edges between them included |
| MappingGraphs.MappingGraph.AddNode | src/graph_algos/mapping_graph.rs:276-290 | a new key gets a new node, a known one has the bounds merged into its node; keys and nodes stay mutually inverse |
| MappingGraphs.MappingGraph.AddEdge | src/graph_algos/mapping_graph.rs:571-582 | adds the edge and reports whether it was missing |
| MappingGraphs.MappingGraph.UpdateAllChildrenOfIdxTo | src/graph_algos/mapping_graph.rs:292-310 | exactly the keys of the old node now name the new one, which takes them all |
| MappingGraphs.MappingGraph.MergeNodes | src/graph_algos/mapping_graph.rs:312-388 | all four cases of known and unknown keys; two nodes become one with merged bounds, all keys, and exactly the identified edges |
| MappingGraphs.MappingGraph.RemoveNodeByIdx | src/graph_algos/mapping_graph.rs:390-400 | the node goes with its keys and edges, and its weight is returned |
| MappingGraphs.MappingGraph.RemoveNode | src/graph_algos/mapping_graph.rs:402-429 | the key goes, and the node with it exactly when it was the last key |
| MappingGraphs.MappingGraph.Quotient | src/graph_algos/mapping_graph.rs:432-495 | nodes are the groups, edges the image, names the composed names, weights the folds |
| MappingGraphs.MappingGraph.GetReachableSubgraph | src/graph_algos/mapping_graph.rs:69-106 | exactly the reachable nodes with their weights, edges and keys |
| SketchBuilder.InsertDtv | src/solver/type_sketch.rs:391-407 | adds exactly the prefixes of the variable, linked by their labels |
| SketchBuilder.AddNodesAndInitialEdges | src/solver/type_sketch.rs:428-439 | the graph of all prefixes of all variables in the constraints |
| SketchBuilder.BuildGraph | src/solver/type_sketch.rs:491-506 | the quotient of that graph by the constraints; it has one node for each group, so the assertion holds |
| SketchShapes.BuiltMergesConstraints | src/solver/type_sketch.rs:343-378 | both sides of every constraint name one node |
| SketchShapes.BuiltLocates | src/solver/type_sketch.rs:391-407 | every variable of the constraints is where its labels lead from its base |
| SketchShapes.BuiltIsLeast | src/solver/type_sketch.rs:343-378 | two variables of the constraints are one node exactly when every classification that merges the sides of each constraint, and what equal labels or a load and a store lead to from one class, puts them into one class |
| SketchShapes.SameNodeSameLevel | src/solver/type_sketch.rs:491-506 | where the sides of every constraint lie equally deep, variables of different depth are never merged |
| SketchShapes.ProofKeepsShape | src/solver/type_sketch.rs:343-378 | derivable subtyping keeps the place reached when loads and stores are taken together, if the graph has folded each displacement that the proof moves |
| SketchShapes.DerivationsKeepShapeExactly | src/solver/type_sketch.rs:343-378 | for all proofs, whatever displacement they move, derivations keep that place exactly when nothing in the graph leads to a field behind a pointer |
| SketchShapes.DerivableMeansSameNode | src/solver/type_sketch.rs:491-506 | two variables in the graph that are derivably subtypes, by a proof that moves only displacements the graph has folded, lead to the same node |
| SketchShapes.DisplacementsKeptApart | src/solver/type_sketch.rs:491-506 | two constraints whose graph gives two nodes to a variable and to what it is derivably equal to by moving one displacement |
| SketchLabels.LabelBy | src/solver/type_sketch.rs:460-489 | every node ends with the greatest upper bound that is below each constant on the right of a constraint on one of its variables, and the least lower bound above each one on the left |
| SketchLabels.LabelledIsTight | src/solver/type_sketch.rs:466-487 | bounds are tightest around the related constants exactly when they fit every constraint with a constant and no looser ones do |
| SketchLabels.RefinedStep | src/solver/type_sketch.rs:95-107 | one refinement keeps bounds least and greatest for the constants seen so far |
| SketchLabels.BuildWithoutPointerSimplification | src/solver/type_sketch.rs:491-515 | quotient and bounds together: the nodes of the least merging, with the tightest bounds that fit every constraint with a constant |
| Condensing.CondensesThen | src/graph_algos/mapping_graph.rs:441-454 | merging nodes twice is merging them once: each final node has the meet of uppers and join of lowers of all the nodes it stands for |
| SketchLabels.MergedStayLabelled | src/solver/type_sketch.rs:460-489 | merging nodes keeps every bound the tightest around the constants related to the variables of the merged node |
| SketchLabels.BuildAndLabelConstraints | src/solver/type_sketch.rs:517-530 | the finished graph still merges the two sides of every constraint, its bounds are still the tightest that fit every constraint with a constant, no node is left that displacements lead into and that is only loaded and stored through to fields, unless an offset overflows, and some folded form of the labels of every variable leads from its base to its node |
| PointerSimplification.TransformDropsAdds | src/solver/type_sketch.rs:2308-2382 | a transform leaves strictly fewer add edges |
| PointerPaths.SurvivesExactly | src/solver/type_sketch.rs:2308-2382 | an edge survives up to the least merging exactly when its label still leads from where its source is to where its target is |
| PointerPaths.SurvivorIsShifted | src/solver/type_sketch.rs:2315-2340 | that is so exactly when some edge of the old graph between merged nodes is untouched and has its label, or is a field that some displacement into the pointer moves onto it |
| PointerPaths.TransformKeepsExactly | src/solver/type_sketch.rs:2308-2382 | for any set of starts, with or without a displacement pending, all paths from there are kept, their displacements folded, exactly when every field behind the pointer that such a path reaches with nothing pending survives |
| PointerPaths.TransformKeepsAllExactly | src/solver/type_sketch.rs:2308-2382 | all paths from all nodes, the pointer and its structures included, are kept exactly when every field behind the pointer survives |
| PointerPaths.TransformFoldsPaths | src/solver/type_sketch.rs:2308-2382 | where only displacements lead into the pointer and only the pointer leads to its structures, every path from outside, and every path with a displacement pending, is kept, its displacements folded |
| PointerPaths.TransformLosesPaths | src/solver/type_sketch.rs:2287-2301 | a graph that qualifies and loses two paths which bring no displacement |
| PointerPaths.FoldedRewrites | src/solver/type_sketch.rs:2384-2385 | where a path leaves no displacement pending, folding is rewriting by the law, nothing else |
| PointerPaths.AddLoadFieldBecomesLoadField | src/solver/type_sketch.rs:2384-2385 | x.+k.load.field@b becomes x.load.field@(b+k), likewise for store |
| PointerPaths.TransformsFoldPaths | src/solver/type_sketch.rs:2386-2390 | over a whole run every path of the first graph has a path in the last one between the nodes its ends became, with some displacements dropped and some offsets moved |
| SketchLocations.KeyStaysExactly | src/solver/type_sketch.rs:2308-2382 | after a transform a variable and its prefixes are still where their labels lead exactly when every edge along it survives |
| SketchLocations.KeysStayExactly | src/solver/type_sketch.rs:2308-2382 | all variables are still where their labels lead exactly when every edge along any of them survives |
| SketchLocations.KeyIsFolded | src/solver/type_sketch.rs:2308-2382 | otherwise the folded labels lead to it, with any displacement into the pointer taken as pending where there is none |
| SketchLocations.KeyMeansTheSame | src/solver/type_sketch.rs:2384-2385 | under the guard a variable outside the pointer is where its rewritten labels lead, a derivably equal variable |
| SketchLocations.VariableLosesField | src/solver/type_sketch.rs:2384-2385 | two constraints, a variable that is a displaced pointer, and the field it was constrained to have: under the guard the field is no longer where its labels lead but further on by the displacement |
| SketchLocations.DisplacementIsFolded | src/solver/type_sketch.rs:2384-2385 | for the same two constraints, with a load or a store and any offsets, the finished graph leads from the undisplaced variable to the field at the sum of both offsets, after exactly one transform |
| SketchLocations.RunKeepsKeys | src/solver/type_sketch.rs:2386-2390 | over a whole run every variable stays where some folded form of its labels leads |
| SketchLocations.PlainKeysStay | src/solver/type_sketch.rs:2386-2390 | a variable whose labels have no displacement and no field stays exactly where its labels lead |
| PointerSimplification.FoldableExactly | src/solver/type_sketch.rs:2194-2247 | the test of the pass, edge by edge |
| PointerSimplification.MergesExactly | src/solver/type_sketch.rs:2342-2357 | merged with the pointer is exactly what a displacement into it leads from |
| PointerPaths.TransformedExactly | src/solver/type_sketch.rs:2308-2382 | the edges after a transform are those before it, with fields behind the pointer moved by every displacement into it and those displacements gone |
| PointerSimplification.SketchGraph.FindPointerSimplification | src/solver/type_sketch.rs:2249-2306 | the first node that a displacement leads into and from which only loads and stores lead, to nodes with fields only; exactly the displacements and fields concerned; nothing exactly when there is none, the conversion panic only for a displacement beyond 64 bits |
| PointerSimplification.SketchGraph.ApplyPointerTransform | src/solver/type_sketch.rs:2308-2382 | exactly the described edge changes, then the least quotient that merges the sources with the pointer; stops exactly when an offset overflows |
| PointerSimplification.SketchGraph.SimplifyPointers | src/solver/type_sketch.rs:2386-2390 | terminates after at most as many transforms as there were add edges, and then no node is left that qualifies by its edges, or a displacement or moved offset leaves 64 bits; each node left has exactly the bounds that the merged ones amount to, and keys follow their nodes |
| GraphSearch.ExplorePaths | src/graph_algos/mod.rs:48-80 | yields each reachable node exactly once, with a path to it |
| GraphSearch.FindNode | src/graph_algos/mod.rs:82-108 | the node a word leads to in a deterministic graph, nothing exactly when it leads nowhere |
| DfaOperations.IdContext.GetNode | src/solver/dfa_operations.rs:40-56 | numbers are stable and never shared |
| DfaOperations.CreateEdgeMap | src/solver/dfa_operations.rs:67-78 | the nested map lists the edges, and of several under one letter the one to the greatest node |
| DfaOperations.CartesianProduct | src/solver/dfa_operations.rs:178-260 | exactly the product automaton up to numbering; the lookup panics cannot happen on complete automata |
| DfaOperations.ProductRun | src/solver/dfa_operations.rs:178-260 | after any word the product is in exactly the numbered pairs of states of its factors |
| DfaOperations.ProductLanguage | src/solver/dfa_operations.rs:178-260 | its language is the intersection or the union |
| DfaOperations.ProductComplete | src/solver/dfa_operations.rs:178-260 | products of complete automata are complete |
| DfaOperations.TrimLanguage | src/solver/dfa_operations.rs:110-164 | trimming changes no word |
| DfaOperations.TrimComplete | src/solver/dfa_operations.rs:110-164 | and keeps completeness |
| DfaOperations.Intersection | src/solver/dfa_operations.rs:166-176 | accepts exactly the words both accept |
| DfaOperations.Union | src/solver/dfa_operations.rs:262-273 | accepts exactly the words at least one accepts |
| DfaOperations.ComplementLanguage | src/solver/dfa_operations.rs:275-293 | accepts exactly the other words over the alphabet |
| DfaOperations.IsEmptyLanguage | src/solver/dfa_operations.rs:295-302 | true exactly when no word is accepted |
| SketchDfa.ConstructDfa | src/solver/type_sketch.rs:2073-2140 | the completion with a reject node that is never accepting |
| SketchDfa.CompletionIsComplete | src/solver/type_sketch.rs:2073-2140 | with the entry accepting, the completion is deterministic and complete |
| SketchDfa.CompletionLanguage | src/solver/type_sketch.rs:2073-2140 | it accepts exactly the label paths of the sketch |
| SketchDfa.IsStructurallyEqual | src/solver/type_sketch.rs:1990-2003 | true exactly when both sketches admit the same label paths, of whatever length |
| SketchDfa.EmptyLanguageOrEpsilon | src/solver/type_sketch.rs:2148-2152 | true exactly when every path leads back to the entry, even where the reject index is the entry |
| SketchDfa.OnlyEpsilon | src/solver/type_sketch.rs:2148 | the documented meaning, only the empty path, holds exactly when in addition the entry has no loop |
| SketchCombine.CreateGraphFromDfa | src/solver/type_sketch.rs:1906-1948 | exactly the accepting nodes and the entry stay |
| SketchCombine.KeptRun | src/solver/type_sketch.rs:1928-1940 | dropping rejecting nodes keeps every accepted run |
| SketchCombine.CombineWeights | src/solver/type_sketch.rs:2025-2051 | every explored node carries the combination of the bounds found along its path |
| SketchCombine.Combine | src/solver/type_sketch.rs:2005-2051 | the combined graph has exactly the paths of both or of either, its nodes stand for pairs of places, and its bounds at a path are the combined bounds at that path, whichever path explored the node |
| Sketches.RequotientAgrees | src/solver/type_sketch.rs:2053-2069 | after the final quotient edges agree |
| Sketches.RequotientKeepsPath | src/solver/type_sketch.rs:2053-2069 | no path is lost and bounds only get tighter |
| Sketches.RequotientOfAgreeing | src/solver/type_sketch.rs:2053-2069 | a graph that agrees already keeps exactly its paths and bounds |
| Sketches.CommonPathsAgree | src/solver/type_sketch.rs:2169-2171 | the common paths of two canonical sketches agree already |
| Sketches.RequotientExactly | src/solver/type_sketch.rs:2053-2069 | the final quotient gains no path exactly when, wherever a path goes on by a load and by a store, the same paths go on behind both |
| Sketches.RequotientIsClosure | src/solver/type_sketch.rs:2053-2069 | the quotient has exactly the paths that are in every set closed under going on alike, two of them at one place exactly when every closed relation relates them |
| Sketches.MeetMayGainPaths | src/solver/type_sketch.rs:2144-2146 | a sketch that loads a field and one that only stores: their meet stores the field, which neither does |
| Sketches.Sketch.StructurallyEqual | src/solver/type_sketch.rs:1990-2003 | the same for sketch objects |
| Sketches.Sketch.BinopSketch | src/solver/type_sketch.rs:2005-2070 | the combination followed by the least quotient, under the name of the first sketch |
| Sketches.Sketch.Intersect | src/solver/type_sketch.rs:2144-2146 | before the quotient exactly the paths of either with met bounds; afterwards the closure of those paths under the agreement of loads and stores, edges agreeing and bounds at least as tight; nothing is added exactly when loads and stores match on the paths of either |
| Sketches.Sketch.Union | src/solver/type_sketch.rs:2169-2171 | the closure of the common paths, which is those alone exactly when loads and stores match on them; on canonical sketches they do, and the bounds are the joined ones |
| Scheduling.NothingSupersedes | src/lowering/mod.rs:97-108 | no field is ever judged superseded |
| Scheduling.Classroom.ScheduleFld | src/lowering/mod.rs:110-119 | a field is taken exactly when the room is free at its offset |
| Scheduling.ScheduleNext | src/lowering/mod.rs:160-176 | a field goes to a room that is in time and than which none is free earlier, else to a new room, and then no room was free |
| Scheduling.CoversInBits | src/lowering/mod.rs:82-88 | a field covers exactly the bytes all of whose bits belong to it |
| Scheduling.ScheduleStructures | src/lowering/mod.rs:145-181 | no field is lost, every field of a structure ends, counted in bits, less than a byte behind the start of the next ones, none overlap, and there are as many structures as fields going on at once where one starts |
| Scheduling.PartitioningAtLeastDepth | src/lowering/mod.rs:146-150 | any way to separate overlapping fields needs as many structures as fields cover one byte |
| Scheduling.ScheduleIsMinimal | src/lowering/mod.rs:146-153 | for fields of at least a byte the number of structures is that depth, so no other way uses fewer |
| Scheduling.BestPartitioning | src/lowering/mod.rs:146-153 | as many structures as fields cover one byte always suffice, or one where no byte is covered |
| Scheduling.ScheduleIsMinimalExactly | src/lowering/mod.rs:146-153 | in general no other way uses fewer structures exactly when no field below a byte starts where as many earlier fields are going on as ever cover one byte, or any where none does |
| Scheduling.SmallFieldCostsAStructure | src/lowering/mod.rs:146-153 | a field of four bits inside one of two bytes is given a second structure although no byte is covered twice |

## Left out

- Indices: nodes and edges have ids that are never used again. petgraph may reuse a freed index
  while `mp` and `cant_pop_nodes` still hold it; the model assumes it does not.
- petgraph and indexmap algorithms (strongly connected components, topological order, union-find,
  depth-first search, binary heap) appear by what they compute: a search by reachability, a
  labelling for the union-find, a given topological order, any first free room for the heap.
- Iterators (`all_simple_paths`, `explore_paths`) are drained at once; laziness is not modelled.
- `reaching_pushes` is a set of facts instead of nested maps, so empty entries are not seen.
- Rule stacks hold labels only, so the error branch of `iterate_over_field_labels_in_stack` is not part of this model.
- Failed edges: no edge of the automaton has this weight, and the proofs carry that along.
- Add constraints are filtered out before the solver runs; only subtyping constraints are modelled.
- Machine integers: displacement sums and field offsets are checked against 128 and 64 bits as in a build with overflow checks; indices, counters and byte bounds are unbounded.
- Simplification.SimplifyConstraints: completeness is stated for derivations that apply the pointer and displacement rules at interesting variables only, because elsewhere the code does not have it (`Incompleteness.SimplificationIsIncomplete`); which single relation survives a pointer rule at an uninteresting variable is not characterised, only over which sets of variables all do, and a condition on the constraints under which none is lost (`Incompleteness.HarmlessLosesNothing`).
- Preparation.Prepare: the variables of the constraints are taken not to be loop breakers that are still to be handed out, which the shared counter guarantees.
- SketchShapes.DerivableMeansSameNode: asks that the graph has folded each displacement which the proof moves, because the graph is built from labels as they stand and keeps derivably equal variables apart otherwise (`DisplacementsKeptApart`).
- SketchLocations.RunKeepsKeys: says over a whole run that some folded form of the labels leads to a variable, without saying which; which labels they are, and exactly when they are unchanged, is stated for each transform (`KeyIsFolded`, `KeyStaysExactly`).
- Graph indices of a combined sketch are the numbers of the product instead of fresh ones.
- `Sketch::difference`, `label_dtvs`, `replace_node`, `remove_nodes_unreachable_from_label` and relabelling: no law beyond the definitions.
- Polymorphic binding, aliasing and global sketches (`SCCSketchsBuilder`): no clear specification.
- Generating constraints from machine code, reaching definitions, points-to analysis, call graphs and signature retagging.
- Parsers, printers, JSON and protobuf formats, logging and the command line.
- Lowering beyond structure scheduling: reading types off sketches into C types.
