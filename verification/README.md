# Büchi emptiness checks and DFA products, modelled in Dafny

This project models the core of DFA_algorithms, a C++ library about automata on words.

It has two halves:

- **Büchi automata.** An automaton is a list of K acceptance sets F_0 … F_{K-1} and a successor map; the initial state is 0. On top of that value the library has:
  - the inverse view (reversed edges and the set of edge states);
  - a token-level reader and writer;
  - the conversion of a generalized automaton (K > 1) into a simple one (K = 1) by a counting product;
  - three emptiness checks: nested depth-first search, the two-stack search with candidate merging, and a modified Emerson-Lei fixpoint over sorted vectors.

  Each check answers `true` for EMPTY and `false` when it finds an accepting lasso.
- **Deterministic finite automata.** The library has:
  - a 1-based `automates::dfa` over a `finite_automaton` base;
  - a 0-based `dfa::automaton`;
  - two versions of the pairwise product `do_act`. The second version deduplicates the explored pairs with `minimizate` before numbering them.

Automata are immutable values (datatypes).

The algorithms pass containers by reference through recursive helpers: the visiting map and path set of the nested search, and the stacks, map and clock of the two-stack search. These become methods that take the containers in and hand the new ones back.

Loops stay loops:
- worklists;
- counted reads over a token sequence;
- fixpoint iterations;
- the in-place erasure of `minimizate` with its index rewind.

Each method is proved against a specification function or a predicate whose own properties are proved as lemmas.

Unsigned 32-bit arithmetic is written out where the source relies on it (`Uint32`):
- the derived alphabet;
- `uint32_t` multiplications of sizes;
- the wrap-around of `curr - 1` in the 1-based lookup.

Modules:
- `Wrappers`, `Graphs` (paths and reachability), `SortedSets` (strictly increasing sequences with the sorted-range set operations), `Uint32`, `TokenStream`;
- `Buchi`, `InvBuchi`, `Representation`, `Converters`;
- `Nested`, `TwoStack`, `ModifiedEmerson`;
- `FiniteAutomaton`, `OneBasedDfa`, `DfaAutomaton`;
- `BinaryAlgo` (src/binary_algo.cpp) and `BinaryAlgoMin` (src/binary_algo/binary_algo.cpp).

## Model

| member | source | states |
|---|---|---|
| Buchi.Construct | src/automaton/automates/buchi.cpp:8-18 | The constructor succeeds exactly when all of these hold: there is at least one acceptance set, no set is empty, the successor map is non-empty and every listed source has a successor. The result keeps both containers and is valid. |
| Buchi.IsFinal | src/automaton/automates/buchi.cpp:20-35 | With an index i: true iff i < K and s ∈ F_i, so an index ≥ K gives false. Without an index: true iff s is in some acceptance set. |
| Buchi.IndexesFinalSets | src/automaton/automates/buchi.cpp:37-48 | Lists exactly the indices i < K with s ∈ F_i, strictly ascending, at most K of them. It is non-empty iff s is accepting, which ties it to `is_final(s)`. |
| InvBuchi.Inverse | src/automaton/automates/inv_buchi.cpp:35-43 | q ∈ inv[t] iff t ∈ trans[q]. Every key of the inverse has a non-empty predecessor set. |
| InvBuchi.InverseUnique | src/automaton/automates/inv_buchi.cpp:35-43 | Any map with those two properties is the inverse, so they pin the table down completely. |
| InvBuchi.InverseSameEdgeCount | src/automaton/automates/inv_buchi.cpp:37-41 | The inverse has as many (source, target) edges as the original. |
| InvBuchi.InverseTransTable | src/automaton/automates/inv_buchi.cpp:35-43 | The nested insertion loop builds exactly the inverse. |
| InvBuchi.EdgeStates | src/automaton/automates/inv_buchi.cpp:25-33 | A state is collected iff it is the source or the target of some edge. |
| InvBuchi.CollectStates | src/automaton/automates/inv_buchi.cpp:25-33 | The nested loop collects exactly the edge states. |
| InvBuchi.MakeInv | src/automaton/automates/inv_buchi.cpp:8-14 | It demands a simple automaton (K = 1). The view it builds has the automaton as its base, the inverse table and the edge states. |
| InvBuchi.AcceptableInvTransitions | src/automaton/automates/inv_buchi.cpp:16-23 | None iff no edge enters s. Otherwise it returns exactly the non-empty set of predecessors of s. |
| SortedSets.Elems | src/automaton/utils/representation.cpp:38-44 | The ids of a group form a set: an id listed twice is one member. |
| Representation.ReadAutomaton | src/automaton/utils/representation.cpp:84-92 | What a successful read yields is a constructed automaton with at least one acceptance set and a non-empty table. |
| Representation.ParseGroupsStep | src/automaton/utils/representation.cpp:27-47 | One group is read as a count c followed by c ids. Its set is kept only when non-empty, in front of the groups read after it. |
| Representation.OneGroup | src/automaton/utils/representation.cpp:34-46 | A group with count 0 is dropped, and repeated ids collapse to one member. |
| Representation.ParseGroupsShape | src/automaton/utils/representation.cpp:27-47 | Reading K groups gives at most K sets, none of them empty, so fewer than K sets can result. |
| Representation.ReadGroup | src/automaton/utils/representation.cpp:34-44 | The counted inner loop reads exactly `count` ids into one set. It fails when the tokens run out. |
| Representation.ReadNextGroup | src/automaton/utils/representation.cpp:28-46 | One round of the group loop advances past exactly one group and agrees with the specification parse. |
| Representation.ReadFinalStates | src/automaton/utils/representation.cpp:17-50 | The reader consumes K and then K groups. It returns the same sets and the same remaining tokens as the specification parse, and fails exactly when that parse fails. |
| Representation.ReadTransitionTable | src/automaton/utils/representation.cpp:55-80 | The pair loop builds exactly the table of the specification edge reader. |
| Representation.ReadEdges | src/automaton/utils/representation.cpp:68-77 | Reading edges succeeds iff the tokens form whole pairs. The table then holds exactly the listed edges, and a repeated pair adds nothing. |
| Representation.OddFails | src/automaton/utils/representation.cpp:68-77 | From any table, the pairs read succeed iff the number of remaining tokens is even. |
| Representation.ConstructRead | src/automaton/utils/representation.cpp:84-92 | Both readers followed by the checked constructor give exactly the specification reading. An all-empty finals block or an empty edge list is rejected. |
| Representation.Write | src/automaton/utils/representation.cpp:99-118 | The output is K, then each set's size and its members in some order, then one pair per edge. Each set and each edge is listed exactly once. |
| Representation.ParseFormatGroups | src/automaton/utils/representation.cpp:17-50 | Reading written groups of non-empty listings gives back their sets in order, leaving what follows untouched. |
| Representation.AddPairsFormat | src/automaton/utils/representation.cpp:68-77 | Reading written pairs adds exactly those edges to the table. |
| Representation.SetsOfListings | src/automaton/utils/representation.cpp:104-110 | The writer's listings of the sets of a valid automaton stand for exactly those sets and are non-empty. |
| Representation.FinalsRoundTrip | src/automaton/utils/representation.cpp:17-50 | The finals block of the writer's output reads back as the acceptance sets, in index order. |
| Representation.TableRoundTrip | src/automaton/utils/representation.cpp:113-115 | The edge lines of the writer's output read back as the same transition table. |
| Representation.RoundTrip | src/automaton/utils/representation.cpp:84-118 | Reading the writer's output of a constructed automaton gives back the same automaton. |
| Representation.WriteThenRead | src/automaton/utils/representation.cpp:84-118 | Writing any constructed automaton and reading it back returns it unchanged. |
| Converters.Next | src/automaton/utils/converters.cpp:108 | The counter after leaving q stays in [0, K). |
| Converters.PairSucc | src/automaton/utils/converters.cpp:104-114 | The successors of (q, i) are exactly (q′, i′) with q′ a successor of q. i′ is (i + 1) mod K when q ∈ F_i, and i otherwise. |
| Converters.PairsOverCard | src/automaton/utils/converters.cpp:84-115 | There are \|states\|·K pairs over the states with counters below K. This is the bound on the explored set. |
| Converters.AddSuccessors | src/automaton/utils/converters.cpp:104-114 | The inner loop enqueues only product successors that are not yet in Q, and leaves every successor in Q or in the queue. It records exactly the product successors of the popped pair. |
| Converters.Explore | src/automaton/utils/converters.cpp:84-115 | The worklist from (0, 0) ends with four facts. Q is reachable and closed under product successors, with at most \|states\|·K pairs. F holds exactly the pairs (q, 0) of Q with q ∈ F_0. delta records every product edge out of Q. |
| Converters.ExploredIsReachable | src/automaton/utils/converters.cpp:91-115 | A set that holds (0, 0), is reachable and is closed under successors is exactly the set of reachable pairs. |
| Converters.Enumerate | src/automaton/utils/converters.cpp:55 | Iterating an unordered set lists each member exactly once. |
| Converters.NumberPairsAsWritten | src/automaton/utils/converters.cpp:51-60 | The renumbering loop as written gives the start pair 0. The non-start pair with k non-start pairs before it gets the id the `state_num == 0 ? ++state_num : state_num++` counter hands out. |
| Converters.AsWrittenCollides | src/automaton/utils/converters.cpp:60 | Once two non-start pairs have been numbered, two distinct positions received the same id. |
| Converters.AsWrittenNotInjective | src/automaton/utils/converters.cpp:60 | With at least two non-start pairs, the as-written numbering maps two different pairs to the same id. |
| Converters.NumberPairs | src/automaton/utils/converters.cpp:51-60 | The corrected numbering covers every pair. It gives the start pair 0 and no other pair 0, is injective, and stays below \|Q\|. |
| Converters.RenamedTableEdges | src/automaton/utils/converters.cpp:67-71 | Under an injective renaming, the renamed table has an edge between two ids exactly when the paired table has one between their pairs. |
| Converters.RenameSet | src/automaton/utils/converters.cpp:62-65 | The renamed finals are exactly the image of F. |
| Converters.RenameTable | src/automaton/utils/converters.cpp:67-71 | The nested loop builds exactly the renamed table. |
| Converters.ConstructSimple | src/automaton/utils/converters.cpp:73 | The checked constructor accepts one set and a table without empty rows iff the set and the table are non-empty. |
| Converters.DecodePairedStates | src/automaton/utils/converters.cpp:47-74 | Uses the corrected numbering of line 60 (`NumberPairs`). The renaming is then a bijection with the start pair as 0. The result is rejected exactly when F or the paired table is empty. Otherwise it is valid, with one acceptance set (the image of F) and the renamed table. |
| Converters.ConvertedIsProduct | src/automaton/utils/converters.cpp:62-73 | With the corrected numbering, the decoded automaton is the reachable counting product, renamed bijectively with (0, 0) as 0. Its one acceptance set holds exactly the ids of the reachable pairs (q, 0) with q ∈ F_0. Two ids have an edge exactly when their pairs do. Every state and edge target is the id of a reachable pair. |
| Converters.ExploreOutcome | src/automaton/utils/converters.cpp:91-115 | About the explored sets, before any numbering, so it holds for the corrected and the as-written numbering alike. No final pair is explored iff no reachable pair (q, 0) has q ∈ F_0. The paired table is empty iff state 0 has no successor. |
| Converters.ConvertGeneralized | src/automaton/utils/converters.cpp:84-117 | With the corrected numbering, the conversion of a generalized automaton is rejected exactly when state 0 has no successor or no accepting pair is reachable. Otherwise it yields a valid automaton with one acceptance set that is the renamed reachable product, and that automaton is non-empty iff the input is. A rejected input is empty. |
| Converters.Nga2Nba | src/automaton/utils/converters.cpp:78-118 | With the corrected numbering: it returns nothing exactly for a simple input (K = 1), and is rejected exactly in the cases above. A result is a valid automaton with one acceptance set that renames the reachable counting product. The result has an accepting lasso iff the input has one, and a rejected input has none. |
| Converters.FinalsRenamed | src/automaton/utils/converters.cpp:62-65 | Under an injective renaming of the explored pairs, an id is in the renamed acceptance set iff its pair is (q, 0) with q ∈ F_0. |
| Converters.EdgesRenamed | src/automaton/utils/converters.cpp:67-71 | Under an injective renaming, two ids have an edge in the renamed table iff the product has an edge between their pairs. |
| Converters.EmptyTableIffNoStart | src/automaton/utils/converters.cpp:104-114 | The explored table is empty iff state 0 has no successor. |
| Converters.ConversionOutcome | src/automaton/utils/converters.cpp:62-117 | Given the explored sets and the constructor's verdict, the result is rejected iff state 0 has no successor or no accepting pair is reachable. Otherwise it is valid, with one acceptance set, and renames the reachable product. |
| Converters.AcceptingPairCycle | src/automaton/utils/converters.cpp:101-108 | An accepting lasso of the input gives a pair (p, 0) with p ∈ F_0 that is reachable from (0, 0) and lies on a product cycle. |
| Converters.PairCycleGivesLasso | src/automaton/utils/converters.cpp:101-108 | Conversely, a reachable pair (q, 0) with q ∈ F_0 on a product cycle gives an accepting lasso of the input, because the counter passes through every F_m on the way round. |
| Converters.RenamingCarriesEdges | src/automaton/utils/converters.cpp:62-73 | A renamed reachable product sends every product edge between reachable pairs to an edge between their ids. |
| Converters.ForwardRenamed | src/automaton/utils/converters.cpp:62-73 | A product path from a reachable pair stays among the reachable pairs, and its renaming is a path of the converted automaton. |
| Converters.BackRenamed | src/automaton/utils/converters.cpp:62-73 | A path of the converted automaton from the id of a reachable pair ends at the id of a pair the product reaches from it. |
| Converters.ConvertedKeepsLasso | src/automaton/utils/converters.cpp:78-118 | An accepting lasso of the input becomes an accepting lasso of the renamed reachable product. |
| Converters.ConvertedReflectsLasso | src/automaton/utils/converters.cpp:78-118 | An accepting lasso of the renamed reachable product comes from an accepting lasso of the input. |
| Converters.ConvertsToKeepsEmptiness | src/automaton/utils/converters.cpp:78-118 | The renamed reachable product is non-empty iff the input is. |
| Converters.NonEmptyExplores | src/automaton/utils/converters.cpp:91-115 | A non-empty input has an edge out of state 0 and a reachable accepting pair, so the constructor accepts its conversion. |
| Converters.RejectedIsEmpty | src/automaton/utils/converters.cpp:73 | When the constructor rejects the conversion, the input has no accepting lasso. |
| Converters.OutcomeKeepsEmptiness | src/automaton/utils/converters.cpp:73-117 | Whatever the constructor decides, emptiness is kept: a rejected conversion means the input is empty, and an accepted one is non-empty iff the input is. |
| Nested.Dfs2 | src/emptiness_check/dfs/nested.cpp:23-43 | The inner search only adds marks, all of them states the outer search entered. On `true` every successor of q is marked and none is on the outer path, and the same holds for every state it newly marked. On `false` the automaton has an accepting lasso. |
| Nested.Dfs1 | src/emptiness_check/dfs/nested.cpp:51-74 | The outer search only adds marks. On `true` the path set is restored and every successor of q is entered. An accepting q was also searched by the inner search. Three facts are kept: finished states have all successors entered; inner-marked states are closed under successors and have none on the path; no finished accepting state is on a cycle. On `false` there is an accepting lasso. |
| Nested.IsEmpty | src/emptiness_check/dfs/nested.cpp:78-84 | For a simple automaton, the answer is `true` (EMPTY) iff no accepting lasso is reachable from state 0. |
| Nested.NoCycleThroughRed | src/emptiness_check/dfs/nested.cpp:29-37 | A state on the outer path that the inner search has marked lies on no cycle: marked states are closed under successors and none of their successors is on the path. |
| TwoStack.AppendOrdered | src/emptiness_check/dfs/two_stack.cpp:37-38 | A state stamped later than every state of V can be pushed, keeping V in increasing discovery time. |
| TwoStack.GroupIndex | src/emptiness_check/dfs/two_stack.cpp:52-57 | Every V-state belongs to the group of exactly one candidate: the last one discovered no later than it. |
| TwoStack.MergeCycle | src/emptiness_check/dfs/two_stack.cpp:48-57 | An edge from the innermost running state q back to a V-state closes a cycle through q. Every candidate from the target's group upwards shares a cycle with q. |
| TwoStack.MergeStep | src/emptiness_check/dfs/two_stack.cpp:52-72 | Replacing the candidates from the target's group upwards by one entry with a witnessed index list keeps the search invariant. |
| TwoStack.PopGroup | src/emptiness_check/dfs/two_stack.cpp:78-84 | Popping V down to and including q leaves the prefix below q and clears exactly the on-V bits of the popped states. Discovery times are unchanged. |
| TwoStack.FinishState | src/emptiness_check/dfs/two_stack.cpp:76-85 | Leaving q keeps the invariant for the enclosing call path, including what the search has ruled out, and changes no discovery time. Discovered states stay discovered and none returns to V. |
| TwoStack.MergeCandidates | src/emptiness_check/dfs/two_stack.cpp:50-72 | The merge loop pops candidates down to the target's group and pushes one entry for that group's candidate. For K > 1 the entry carries exactly the union of the popped index lists, which is not all K indices, witnessed on a cycle through q; it stops with NONEMPTY when the union has all K. For K = 1 the entry has an empty list and no popped candidate is accepting; it stops when one is. Any `false` implies a lasso. |
| TwoStack.Step | src/emptiness_check/dfs/two_stack.cpp:43-73 | One successor r: an undiscovered r is searched, and an on-V r triggers a merge. Afterwards r is discovered and the edge from q is handled. The invariants, including what the search has ruled out, are kept. Discovered states only grow, the clock never goes back, and `false` implies a lasso. |
| TwoStack.Dfs | src/emptiness_check/dfs/two_stack.cpp:31-89 | `dfs(q)` discovers q, stamped t + 1, and every successor of q. Time strictly advances, and the invariants hold again on return, including that no finished state is on an accepting lasso. `false` implies a lasso. |
| TwoStack.IsEmpty | src/emptiness_check/dfs/two_stack.cpp:93-101 | Starting from state 0 with empty containers, the answer is `true` (EMPTY) iff the automaton has no accepting lasso. |
| TwoStack.SearchSuccessors | src/emptiness_check/dfs/two_stack.cpp:40-74 | The loop over the successors of q handles every successor in turn and keeps the invariants. It stops with `false` only when a lasso exists. |
| TwoStack.DiscoverSearched | src/emptiness_check/dfs/two_stack.cpp:36-38 | Pushing q onto C and V and stamping it keeps what the search has ruled out, provided q's index list covers its acceptance sets. |
| TwoStack.MergeTarget | src/emptiness_check/dfs/two_stack.cpp:50-71 | For an edge from q to an on-V state r, some candidate k is the last one discovered no later than r, and every candidate from k upwards shares a cycle with q. |
| TwoStack.CollectedWitnessed | src/emptiness_check/dfs/two_stack.cpp:58-63 | The union of the index lists of candidates that share a cycle with q is witnessed on a cycle through q. |
| TwoStack.CoveredLasso | src/emptiness_check/dfs/two_stack.cpp:61-62 | An index list with all K indices, witnessed on a reachable cycle through q, gives an accepting lasso. |
| TwoStack.AcceptingLasso | src/emptiness_check/dfs/two_stack.cpp:66-68 | For K = 1, an accepting candidate that shares a cycle with a reachable q gives an accepting lasso. |
| TwoStack.MergeDone | src/emptiness_check/dfs/two_stack.cpp:72 | Pushing the merged entry, with a list witnessed on a cycle through q, keeps the search invariant. |
| TwoStack.MergeSearched | src/emptiness_check/dfs/two_stack.cpp:50-72 | Merging keeps what the search has ruled out, and the merged candidate is not full. |
| TwoStack.PopNoLasso | src/emptiness_check/dfs/two_stack.cpp:76-84 | A state popped with its root q, after all its edges were handled, lies on no accepting lasso. |
| TwoStack.FinishPopSearched | src/emptiness_check/dfs/two_stack.cpp:76-84 | Popping q's candidate and its group from V keeps what the search has ruled out for the enclosing path. |
| TwoStack.SearchComplete | src/emptiness_check/dfs/two_stack.cpp:93-101 | When the top-level call returns with state 0 discovered and every stack empty, no accepting lasso exists. |
| SortedSets.SetUnion | src/emptiness_check/bfs/modified_emerson.cpp:36 | `std::set_union` on sorted duplicate-free vectors yields the sorted union. |
| SortedSets.SetDifference | src/emptiness_check/bfs/modified_emerson.cpp:33 | `std::set_difference` yields the sorted difference. |
| SortedSets.SetIntersection | src/emptiness_check/bfs/modified_emerson.cpp:51 | `std::set_intersection` yields the sorted intersection. |
| SortedSets.SortUnique | src/emptiness_check/bfs/modified_emerson.cpp:21-22 | Sort followed by `unique`/`erase` yields a strictly increasing list of exactly the input's members. |
| SortedSets.IncreasingUnique | src/emptiness_check/bfs/modified_emerson.cpp:54 | Two sorted duplicate-free vectors with the same members are equal, so vector equality is set equality. |
| ModifiedEmerson.Pre | src/emptiness_check/bfs/modified_emerson.cpp:11-25 | `pre(X)` is the sorted, duplicate-free list of exactly the states with an edge into X. |
| ModifiedEmerson.BfsStep | src/emptiness_check/bfs/modified_emerson.cpp:32-38 | One round keeps two facts: everything in S reaches X, and only the new frontier B can have predecessors outside S. S grows strictly while B is non-empty. |
| ModifiedEmerson.BackwardLeast | src/emptiness_check/bfs/modified_emerson.cpp:27-42 | A set that contains X, reaches X and is closed under predecessors is exactly the backward closure of X. |
| ModifiedEmerson.BackwardBfs | src/emptiness_check/bfs/modified_emerson.cpp:27-42 | `backward_bfs(X)` is the sorted list of exactly the states that reach X. |
| ModifiedEmerson.InfRound | src/emptiness_check/bfs/modified_emerson.cpp:49-53 | One round never drops a state of a subset in which every state has a successor. It is a fixpoint only when every state of the result has a successor inside it. |
| ModifiedEmerson.Inf | src/emptiness_check/bfs/modified_emerson.cpp:44-57 | `inf(X)` ⊆ X, and every member has a successor inside the result. It is the largest such subset of X. |
| ModifiedEmerson.PassChar | src/emptiness_check/bfs/modified_emerson.cpp:81-84 | A state survives a pass iff it reaches, in one or more steps, an accepting state of the old L. |
| ModifiedEmerson.StartFacts | src/emptiness_check/bfs/modified_emerson.cpp:66-67 | The edge states L starts from contain every lasso state, and a pass cannot enlarge them. |
| ModifiedEmerson.OuterStep | src/emptiness_check/bfs/modified_emerson.cpp:76-86 | A pass keeps every lasso state and never grows L. A changed L is strictly smaller, and an unchanged L is a fixpoint. |
| ModifiedEmerson.GreatestFixpoint | src/emptiness_check/bfs/modified_emerson.cpp:76-86 | If every state of Y reaches, in one or more steps, an accepting state of Y (a set the pass does not shrink), then every state of Y reaches an accepting cycle. |
| ModifiedEmerson.LassoInitial | src/emptiness_check/bfs/modified_emerson.cpp:88-91 | State 0 reaches an accepting cycle iff the automaton has an accepting lasso. |
| ModifiedEmerson.IsEmpty | src/emptiness_check/bfs/modified_emerson.cpp:61-92 | For the inverse view of a simple automaton, the answer is EMPTY exactly when the automaton has no accepting lasso. |
| FiniteAutomaton.Construct | include/automaton/automates/finite_automaton.hpp:22-39 | The base constructor succeeds iff states > 0 and 1 ≤ start ≤ states. 0 is not a state. The getters return exactly the constructor's arguments. |
| OneBasedDfa.Construct | src/automaton/automates/dfa.cpp:8-17 | The alphabet is the 32-bit table size divided by states. Construction succeeds iff all of these hold: the base checks pass, the table is states × alphabet entries, and every final state and table entry is ≤ states (0 is allowed). |
| OneBasedDfa.ActionInRange | src/automaton/automates/dfa.cpp:19-22 | For a state 1..states and a symbol 1..alphabet, `action` reads table[(curr−1)·alphabet + (sym−1)], and the entry is ≤ states. |
| OneBasedDfa.ActionRejectsMarker | src/automaton/automates/dfa.cpp:19-22 | For the marker 0, `curr − 1` wraps to 2^32 − 1 and the bounds-checked lookup fails, provided the table leaves room for one more row below 2^32. |
| OneBasedDfa.IsFinal | src/automaton/automates/dfa.cpp:24-28 | True iff st occurs in the finals list. |
| OneBasedDfa.DecodeConsumes | src/automaton/automates/dfa.cpp:47-73 | A successful read yields a constructed automaton. It consumes exactly the four header values, the final states and the table. |
| OneBasedDfa.DecodeEncode | src/automaton/automates/dfa.cpp:47-73 | Reading back the header, finals and table of a constructed automaton gives it again, whatever surrounds it. |
| OneBasedDfa.ConstructRead | src/automaton/automates/dfa.cpp:47-73 | The counted reading loops compute exactly the specification reading. |
| TokenStream.ReadValues | src/utils/automaton.cpp:44-56 | A counted read loop returns exactly the next n values, or fails when the tokens run out. |
| DfaAutomaton.Construct | src/utils/automaton.cpp:8-20 | Construction succeeds iff start < states, the table size is a multiple of states and every entry is < states. The alphabet times states is then the table size. |
| DfaAutomaton.ActionInRange | src/utils/automaton.cpp:22-26 | For a state and a symbol below the alphabet, `action` reads table[curr·alphabet + sym], and the result is a state. |
| DfaAutomaton.ActionPastLastRow | src/utils/automaton.cpp:22-26 | For curr ≥ states the bounds-checked lookup fails. |
| DfaAutomaton.ActionSymbolOverflow | src/utils/automaton.cpp:22-26 | The symbol is not range-checked: symbol `alphabet` of row curr reads the entry for symbol 0 of row curr + 1. |
| DfaAutomaton.GetAlphabetNum | src/utils/automaton.cpp:28-31 | The 32-bit table size divided by states is at most the true alphabet, and equal to it when the table has fewer than 2^32 entries. |
| DfaAutomaton.IsFinal | src/utils/automaton.cpp:61-65 | True iff st occurs in the finals list. |
| DfaAutomaton.RunTotal | src/utils/automaton.cpp:22-26 | On a constructed automaton, running a word over the alphabet from a state never fails and ends in a state. |
| DfaAutomaton.DecodeConsumes | src/utils/automaton.cpp:33-59 | A successful read consumes exactly 4 + fs_num + alph_num·states values and yields a constructed automaton. |
| DfaAutomaton.DecodeEncode | src/utils/automaton.cpp:33-59 | Reading back the header, finals and table of a constructed automaton gives it again, whatever surrounds it. |
| DfaAutomaton.ConstructRead | src/utils/automaton.cpp:33-59 | The counted reading loops compute exactly the specification reading. |
| BinaryAlgo.Step | src/binary_algo.cpp:32 | The successor of (p, q) on x is the pair of the two automata's actions on x, and both components are states. |
| BinaryAlgo.Row | src/binary_algo.cpp:30-39 | A popped pair contributes exactly `alphabet` entries, the successor on each symbol in order. |
| BinaryAlgo.TableLength | src/binary_algo.cpp:21-40 | The pair table has \|c_states\|·alphabet entries. |
| BinaryAlgo.TableEntry | src/binary_algo.cpp:21-40 | Entry i·alphabet + x of the pair table is the successor of the i-th explored pair on x. |
| BinaryAlgo.FirstIndex | src/binary_algo.cpp:47-52 | The index found is that of the first occurrence of the pair. |
| BinaryAlgo.Convert | src/binary_algo.cpp:42-56 | `convert_fn` maps every pair to the index of its first occurrence in c_states. Its size check holds exactly when every pair occurs. |
| BinaryAlgo.Expand | src/binary_algo.cpp:30-39 | The symbol loop appends the pair's row to the table. It pushes exactly the row entries not in c_states; the worklist check ignores the worklist itself. |
| BinaryAlgo.Visit | src/binary_algo.cpp:23-39 | One pop appends the popped pair to c_states and keeps the loop invariant: the table is the rows of c_states, every entry is visited or waiting, and the finals are exactly the visited pairs satisfying the condition. At most `alphabet` pairs are pushed, the last one unvisited. Either a new pair is visited, or the visited set stays and one visited entry leaves the worklist. |
| BinaryAlgo.Explore | src/binary_algo.cpp:19-40 | The worklist pops the start pair first. The table is the rows of the explored pairs in order, and every entry is an explored pair. A pair is final iff the condition holds on its components' finality. Explored pairs may repeat, but there are at most 1 + 2·alphabet·states(a)·states(b) of them. |
| BinaryAlgo.AccountStep | src/binary_algo.cpp:21-40 | After each pop, the visit order plus the worklist stay within 1 + alphabet·(distinct visited pairs + pops of a visited pair that pushed). Such a pop is always followed by the pop of an unvisited pair. |
| BinaryAlgo.VisitBound | src/binary_algo.cpp:21-40 | That accounting bounds the visit order by 1 + 2·alphabet·states(a)·states(b). |
| BinaryAlgo.AssembledEntry | src/binary_algo.cpp:58-63 | In the assembled automaton, state i on symbol x goes to the first index of the successor pair of the i-th explored pair. |
| BinaryAlgo.AssembledFinals | src/binary_algo.cpp:58-63 | State i is final iff it is the first occurrence of its pair and the condition holds on that pair. |
| BinaryAlgo.Assembled | src/binary_algo.cpp:58-63 | The numbered start, finals and table pass the constructor's checks and form the product over the explored pairs. |
| BinaryAlgo.ProductRun | src/binary_algo.cpp:21-63 | Running a word from state i of the product tracks both automata run from the components of the i-th pair. |
| BinaryAlgo.ProductLanguage | src/binary_algo.cpp:21-63 | The product accepts a word iff the condition holds on whether each operand accepts it. |
| BinaryAlgo.Product | src/binary_algo.cpp:11-64 | Different alphabet sizes fail. With equal ones, the explored pairs are non-empty, in range and at most 1 + 2·alphabet·states(a)·states(b). If fewer than 2^32 pairs are explored, the result is the product over them with start 0. |
| BinaryAlgo.DoActAsWritten | src/binary_algo.cpp:11-82 | `do_act` as written builds the product over the explored pairs with the literal `act_condition` as its final-state condition. It has the same bound on explored pairs as `Product`, and succeeds when that bound is below 2^32. It accepts a word iff that condition holds on the operands' verdicts; for DIFFERENCE that is a ∨ ¬b. |
| BinaryAlgo.DifferenceAsWrittenCounterexample | src/binary_algo.cpp:76-77 | For the one-state automaton with no final state, the empty word is accepted by neither operand. Yet the as-written DIFFERENCE condition holds and the corrected one does not. |
| BinaryAlgo.DoAct | src/binary_algo.cpp:11-82 | The corrected `do_act` builds the product over the visit order, with one state per entry of it; a pair visited twice gets two states. The visit order holds at most 1 + 2·alphabet·states(a)·states(b) entries, all in range. When that bound is below 2^32 the result is defined. It accepts a word iff a ∨ b, a ∧ b or a ∧ ¬b holds on the operands' verdicts, for ASSOCIATION, INTERSECTION and DIFFERENCE respectively. |
| BinaryAlgoMin.Keep | src/binary_algo/binary_algo.cpp:81-95 | Keeps exactly the first occurrence of each pair not yet seen, in order, without repeats. The first pair stays first. |
| BinaryAlgoMin.KeepBlocksTable | src/binary_algo/binary_algo.cpp:81-95 | Erasing the row block of each removed pair from the pair table leaves exactly the table of the deduplicated pairs. |
| BinaryAlgoMin.KeepBlocksWithin | src/binary_algo/binary_algo.cpp:88-92 | The surviving blocks contain only entries of the original table. |
| BinaryAlgoMin.Minimizate | src/binary_algo/binary_algo.cpp:76-96 | The in-place erase loop with its index rewind leaves the deduplicated states, in their relative order. The table keeps the surviving `alph_num`-wide blocks. |
| BinaryAlgoMin.Minimized | src/binary_algo/binary_algo.cpp:61 | After deduplication the states are the explored pairs without repeats, start pair first. The table is their rows, and the finals are still exactly the explored pairs satisfying the condition. |
| BinaryAlgoMin.MinimizedProduct | src/binary_algo/binary_algo.cpp:11-71 | The second `do_act` numbers distinct pairs only. They are always in range and at most states(a)·states(b). Different alphabets fail. Otherwise there is at least one pair, and with fewer than 2^32 of them the result is the product over the distinct explored pairs. |
| BinaryAlgoMin.DoAct | src/binary_algo/binary_algo.cpp:11-71 | Every explored pair is distinct and in range, so there are at most states(a)·states(b) of them, whatever the alphabets. With equal alphabets there is at least one pair, and the result is defined when states(a)·states(b) < 2^32. Then it is the product over the distinct explored pairs with the corrected condition, and the state count is their number. The result accepts a word iff the operator's condition holds on the operands' verdicts. |
| BinaryAlgoMin.DistinctPairsBound | src/binary_algo/binary_algo.cpp:61 | Distinct pairs of states of the two operands number at most states(a)·states(b). |

## Left out

- Nested.IsEmpty: the `assert(!automat.is_generalized())` at nested.cpp:80 is a precondition (a simple automaton). Linear running time is not stated.
- TwoStack.Dfs: the clock `t` is an unbounded integer. The wrap-around of the 32-bit `atm_size` counter after 2^32 ticks is not modelled.
- Nested.Dfs1, Nested.Dfs2, TwoStack.Dfs, Converters.Explore: successors are taken in an unspecified order, standing for the iteration order of `std::unordered_set`. The contracts hold for every order; which lasso is found first, and after how many steps, is not modelled.
- TwoStack.Dfs: the single recursive `dfs` function is split into `Dfs`, `Step`, `MergeCandidates` and `FinishState`/`PopGroup`, one per part of its body. The order of the container updates is kept.
- Nested.Dfs2: successors are plain states. The source's structured binding at nested.cpp:29 destructures pairs that the successor set does not hold; the model follows two_stack.cpp:42.
- ModifiedEmerson.IsEmpty: the `inf` result at modified_emerson.cpp:80 is computed and then overwritten, as in the source. Every pass therefore depends only on the last acceptance set; the inverse view admits only K = 1, so this does not change the answer.
- InvBuchi.MakeInv: the constructor's `assert(!is_generalized())` is a precondition. The other constructors' asserts are modelled as failing results (`None`).
- Representation.ReadFinalStates, Representation.ReadTransitionTable: the input is a finite token sequence. Running out of tokens is a failed read. Stream state, console prompts and the extra read a trailing newline can cause at end of file are not modelled.
- OneBasedDfa.ConstructRead: the number of table entries read is `alph_num · states` in 32-bit arithmetic. This assumes `reserve` gives exactly the requested capacity, which the standard does not promise (dfa.cpp:65).
- DfaAutomaton.Action: the index `curr · alphabet + sym` is unbounded, not `size_t`. Overflow past 2^64 is not modelled.
- BinaryAlgo.Product, BinaryAlgoMin.MinimizedProduct: when 2^32 or more pairs are explored, the `static_cast<uint32_t>` truncates the state count. The model returns the constructor's verdict on the truncated count and claims nothing about it. This needs 1 + 2·alphabet·states(a)·states(b) ≥ 2^32 (first version) or states(a)·states(b) ≥ 2^32 (second version).
- BinaryAlgoMin.Minimizate, BinaryAlgoMin.DoAct: the source's loop index in `minimizate` (src/binary_algo/binary_algo.cpp:83) is a signed `int`, modelled here as an unbounded integer. With 2^31 or more kept pairs, `++i` overflows, which is undefined behaviour in C++. So DoAct's promise of a result when states(a)·states(b) < 2^32 matches the source only below 2^31 distinct pairs.
- BinaryAlgo.Convert: the loop counter is an unbounded integer, not the source's `uint32_t`. With 2^32 or more explored pairs its wrap-around would make the loop never end; that case is not modelled.
- `act_condition`'s default branch (an operator outside the enumeration) cannot be formed from the three-valued `Operator` datatype.
- `print`, `print_pairs`, `operator<<`'s stream type and the `print` flag of the second `do_act` are output only.
- `hash_combine` and the hash of pairs are modelled by mathematical sets and maps.
- The command-line applications, the timing statistics, the random automaton generator, the Emerson-Lei stub and the unfinished NFA classes are not part of this model.

## Findings

| source | as written | input that shows it | evidently intended | confidence | as-written member | corrected member |
|---|---|---|---|---|---|---|
| src/automaton/utils/converters.cpp:60 | `state_num == INITIAL_STATE ? ++state_num : state_num++` gives id 1 to both the first and the second non-start pair | any explored set with at least two pairs besides (0, 0), e.g. pairs (0,0), (1,0), (2,0) in that iteration order | every pair gets its own id, with (0, 0) as 0 and the others 1 … \|Q\|−1 | high (proved; not executed) | Converters.NumberPairsAsWritten | Converters.NumberPairs |
| src/binary_algo.cpp:76-77 | DIFFERENCE returns `a \|\| !b` (same code at src/binary_algo/binary_algo.cpp:137-138) | a = b = the one-state automaton with no final state; the empty word is in neither language, yet the result accepts it | DIFFERENCE accepts exactly the words of a that are not in b: `a && !b` | high (proved; not executed) | BinaryAlgo.DoActAsWritten | BinaryAlgo.DoAct |
