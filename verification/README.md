# Verified models of KaHyPar

KaHyPar is a multilevel hypergraph partitioner. This project models the algorithms it rests
on and proves what they are for. Code that changes things in place is modelled as classes and
loops over the same arrays, lists and counters; every such method is tied to a function on
values, and the theorems are about those functions.

**Relabelling for fixed vertices.** `FlowNetwork`, `BreadthFirstSearch`, `Koenig` and
`BipartiteMatching` are the flow network on a residual matrix, the search, the matching that
is read off a maximum flow and Koenig's minimum vertex cover, computed by searches without
reset. `Assignment` is the Hungarian loop on top of it: it ends because the integer cost of
the labels drops, with a perfect matching of maximum weight. `Relabelling` shows that for
every permutation of the blocks the final objective (km1 or cut) is an upper bound less the
weight of the permutation, and `FixedVertices` puts everything together, on the hypergraph
object. Discarding pairs that would become too heavy, by giving them minus the weight of all
nets, does *not* guarantee that a balanced relabelling is found where there is one.
`DiscardedPairs` shows exactly when it does: for all inputs with the same weight of all nets and
the same overlap of free and fixed blocks (the most that a net can add to any permutation,
summed over the nets), every matching of maximum weight is balanced whenever some relabelling
is, if and only if the overlap is less than the weight (`EffectiveIff`). Both totals can be
computed before the call. A family of inputs shows the failure for every larger overlap, and
`TwoBlocksTie` is a small one with equal limits on both blocks.

**The n-level hypergraph.** `NLevel` is the hypergraph as a value: per net its pins and the
pins cut off past its end, per node its nets. Contraction, removal of a net, the merger of
two parallel nets and what undoes each of them are functions, and undoing any run of them in
reverse order is the identity.
`HypergraphClass` is the object with its one incidence array, sentinel, lists of incident
nets, pin counts, connectivity sets, border counters and block infos; every operation is
proved to do to the object what the function does to the value, and to keep the incremental
data equal to their from-scratch definitions (`Partitions`, `Gains`, `PinCounts`, `Sizes`,
`Uncontraction`, `Moves`, `Construction`, `Layout`). `Multilevel.PartitionMultilevel` is the
result over whole runs: any coarsening, any assignment of blocks, and the way back.
`Multilevel.PartitionAndRefine` lets any nodes be moved on every level. Three findings:

- The gain changes of the two-way uncontraction are off by the weight of each net that
  consists of a single pin, in the two cases where the code asserts that there is none;
  `Gains.ChangesExactIff` says exactly when they are right, `Gains.NetOfUMiscounted` and
  `Gains.NetOfVMiscounted` are inputs where they are not.
- Restoring a removed net does not count it at its pins, so the border counters stay exact if
  and only if the net is not cut (`Moves.BordersSurviveRestorationIff`, with the input
  `Moves.CutNetMissed`, and `Multilevel.MissedNothingIff` over whole runs). The overload for
  parallel nets does count. Moves keep what the counters are off by.
- The peek past the end of a net always picks the right case (`NLevel.PeekIsCorrect`).

`CutNetSplitting` and `Extraction` are the extraction of blocks for recursive bisection and
the identity that makes it exact; `ParallelNets` is the removal of parallel nets, and their
return.

**nextPrime.** `Primes` is the wheel sieve with its tables: it ends, and returns the least
prime that is not less than its argument, or an overflow error exactly if there is no such
prime in 64 bits. `LargestPrime` proves the bound of its overflow test to be the largest
64-bit prime, by Pocklington's criterion with Fermat's little theorem; `Divisibility` has the
definitions.

**Smaller structures.** `BucketQueue` refines a map from ids to keys; giving an id the key that
it has breaks the queue if and only if no other id has that key
(`BucketQueue.UpdateToSameKey`). `SegmentTree` has the bound on its array and the meaning of a
query; `LongestProcessingTime` has the rule, whose result does not depend on how ties are
broken, and Graham's bound; `HeavyNodes` ends with exactly the nodes that are not too heavy,
and removes as few as possible; `ClusterGraph` and `GraphContraction` are the contraction of
clusters in community detection, which keeps the modularity of every clustering of the
contracted graph, and `Louvain` is the way down through any number of contractions and back.

`Sums` holds facts about sums, products, sets and sequences that several modules need. Weights of graph edges and epsilon
are real numbers, all other numbers unbounded integers.

Metrics: a net of weight w that connects more than one block adds w to the cut and, connecting
lambda blocks, (lambda - 1) w to km1. A gain is by how much the cut shrinks when a node
changes sides in a two-way partition.

## Model

| member | source | states |
|---|---|---|
| FlowNetwork.NetworkIsZeroFlow | kahypar/partition/fixed_vertices.h:67-98 | The network built from a bipartite graph is the residual graph of a flow of value 0. |
| FlowNetwork.AugmentedIsResidual | kahypar/partition/fixed_vertices.h:127-135 | Augmenting keeps residual[a][b] + residual[b][a] equal to the two capacities, and no entry gets negative. |
| FlowNetwork.AugmentedRowSums | kahypar/partition/fixed_vertices.h:127-135 | Flow conservation: only the two ends of the path change the residual capacity out of a node. |
| FlowNetwork.AugmentationAddsOne | kahypar/partition/fixed_vertices.h:112-114 | One augmentation from source to sink turns the residual graph of a flow into that of a flow whose value is one larger. |
| BreadthFirstSearch.PathStaysInside | kahypar/partition/fixed_vertices.h:157-168 | A residual path that starts in a set closed under residual arcs never leaves it. |
| BipartiteMatching.MinimumBipartiteVertexCover.constructor | kahypar/partition/fixed_vertices.h:67-98 | A fresh object holds the zero flow of its graph and no matching. |
| BipartiteMatching.MinimumBipartiteVertexCover.Scan | kahypar/partition/fixed_vertices.h:160-166 | The inner loop of the search keeps the search invariant and makes progress. |
| BipartiteMatching.MinimumBipartiteVertexCover.Bfs | kahypar/partition/fixed_vertices.h:144-169 | Returns true exactly if the sink has been reached, with the path that the parents describe; otherwise the marks (those before, if not reset, plus the tree) are closed under residual arcs. |
| BipartiteMatching.MinimumBipartiteVertexCover.Augment | kahypar/partition/fixed_vertices.h:127-135 | Returns the bottleneck of the path that the parents describe and sends it along that path, recursively. |
| BipartiteMatching.MinimumBipartiteVertexCover.AugmentToSink | kahypar/partition/fixed_vertices.h:112-114 | Every augmentation of the loop adds exactly one unit and keeps a flow. |
| BipartiteMatching.MinimumBipartiteVertexCover.MaximumFlow | kahypar/partition/fixed_vertices.h:110-117 | Ends after at most k augmentations with the residual graph of a flow of the value returned; what the last search marked is an alternating cut. |
| BipartiteMatching.MinimumBipartiteVertexCover.ReadMatching | kahypar/partition/fixed_vertices.h:205-220 | The pairs read back are exactly the matched pairs, as many as the flow has units. |
| BipartiteMatching.MinimumBipartiteVertexCover.FindMaximumBipartiteMatching | kahypar/partition/fixed_vertices.h:198-227 | The size of the matching is the value of the flow it is read from, whose marks are an alternating cut. |
| BipartiteMatching.MinimumBipartiteVertexCover.ComputeMaximumBipartiteMatching | kahypar/partition/fixed_vertices.h:334-340 | Returns a maximum matching, computed once and then remembered unchanged. |
| BipartiteMatching.MinimumBipartiteVertexCover.UnmatchedVertices | kahypar/partition/fixed_vertices.h:260-270 | The left vertices returned are exactly those that no matching edge has. |
| BipartiteMatching.MinimumBipartiteVertexCover.StripOuterArcs | kahypar/partition/fixed_vertices.h:273-278 | Removes exactly the arcs at source and sink; doing it again changes nothing. |
| BipartiteMatching.MinimumBipartiteVertexCover.ExtendMarks | kahypar/partition/fixed_vertices.h:284-286 | One more search without reset, from an unmatched left vertex, keeps the marks a closed part of the cut that contains partners with their vertices. |
| BipartiteMatching.MinimumBipartiteVertexCover.MarkAlternating | kahypar/partition/fixed_vertices.h:283-286 | After the searches from all unmatched left vertices the marked set H is closed under alternating paths and misses the sink. |
| BipartiteMatching.MinimumBipartiteVertexCover.CollectCover | kahypar/partition/fixed_vertices.h:291-301 | The list is (L \ H) united with (R intersected with H), without repetition. |
| BipartiteMatching.MinimumBipartiteVertexCover.FindMinimumBipartiteVertexCover | kahypar/partition/fixed_vertices.h:253-332 | Returns a vertex cover of minimum size, exactly as large as the maximum matching; may be called again. |
| BipartiteMatching.SearchExtendsPart | kahypar/partition/fixed_vertices.h:284-286 | A search without reset from an unmatched left vertex misses the sink and extends the part found by its predecessors. |
| BipartiteMatching.CutIsAlternating | kahypar/partition/fixed_vertices.h:112-115 | When no augmenting path is left, the marks of the search are an alternating cut. |
| Koenig.MatchingBelowCover | kahypar/partition/fixed_vertices.h:248-252 | Weak duality: no matching is larger than any vertex cover. |
| Koenig.DegreesSum | kahypar/partition/fixed_vertices.h:223-224 | The matched pairs are as many as the flow has units. |
| Koenig.ReadBackIsMatching | kahypar/partition/fixed_vertices.h:222-224 | What is read back is a matching: edges of the graph, no two sharing a vertex. |
| Koenig.PartIsAlternating | kahypar/partition/fixed_vertices.h:283-286 | Once all unmatched left vertices are marked, the marked part of the cut is as good as the whole cut. |
| Koenig.CoverCovers | kahypar/partition/fixed_vertices.h:287-301 | (L \ H) united with (R intersected with H) contains an end of every edge. |
| Koenig.CoverSize | kahypar/partition/fixed_vertices.h:303-304 | That cover has exactly as many vertices as the matching has edges. |
| Koenig.KoenigTheorem | kahypar/partition/fixed_vertices.h:303-330 | The matching is maximum and the cover is minimum. |
| Assignment.WeightBelowCost | kahypar/partition/fixed_vertices.h:551-561 | No perfect matching weighs more than any labels u, v with u[i] + v[j] >= graph[i][j] cost. |
| Assignment.TightIsMaximum | kahypar/partition/fixed_vertices.h:573-577 | A perfect matching of tight pairs weighs what the labels cost and is of maximum weight among all k! perfect matchings. |
| Assignment.AdjustedIsCover | kahypar/partition/fixed_vertices.h:611-618 | Lowering and raising labels by the minimum excess keeps u[i] + v[j] >= graph[i][j]. |
| Assignment.AdjustedCost | kahypar/partition/fixed_vertices.h:611-618 | The adjustment changes the cost by exactly -min_excess * (k - size of the cover). |
| Assignment.InitialLabels | kahypar/partition/fixed_vertices.h:514-518 | The left labels are the row maxima, the right labels zero; they are feasible. |
| Assignment.ConstructMatchingGraph | kahypar/partition/fixed_vertices.h:523-533 | The unweighted graph has an edge exactly where the labels are tight. |
| Assignment.MinExcess | kahypar/partition/fixed_vertices.h:600-607 | The least excess of all pairs outside the cover, attained by one of them unless it is the largest weight, and positive. |
| Assignment.AdjustLabels | kahypar/partition/fixed_vertices.h:611-618 | The two loops compute exactly the lowered and raised labels. |
| Assignment.Relabel | kahypar/partition/fixed_vertices.h:578-619 | One adjustment, by exactly the least excess outside the cover, keeps the labels feasible and lowers their cost by min_excess * (k - size of the cover) > 0. |
| Assignment.FindMaximumWeightedBipartiteMatching | kahypar/partition/fixed_vertices.h:510-627 | Terminates for every integer matrix with a perfect matching of maximum weight. |
| Relabelling.FinalConnectivity | kahypar/partition/fixed_vertices.h:697-721 | Final connectivity plus the number of renamed free blocks that meet a fixed block is the connectivity of the free pins plus that of the fixed pins. |
| Relabelling.ObjectiveIsUpperLessPairs | kahypar/partition/fixed_vertices.h:695-734 | For every permutation the final objective is the upper bound less the weights of the matched pairs. |
| Relabelling.MatchingPermutes | kahypar/partition/fixed_vertices.h:684-687 | The renaming read off a perfect matching is a permutation of the blocks. |
| Relabelling.SameWeight | kahypar/partition/fixed_vertices.h:691 | The permutation weighs what the matching does that it is read from. |
| Relabelling.MatchingIsHeaviest | kahypar/partition/fixed_vertices.h:660-693 | The permutation read off a matching of maximum weight is a heaviest one of all, each weighing the sum of its pair totals with minus the weight of all nets for every pair that would be too heavy. |
| Relabelling.MatchingMinimisesObjective | kahypar/partition/fixed_vertices.h:660-674 | Among all permutations without discarded pairs the one read off a maximum-weight matching, if it has none itself, minimises the final objective. |
| Relabelling.FinalBlockWeight | kahypar/partition/fixed_vertices.h:426-431 | A renamed block weighs what it weighed before plus the nodes fixed to its new name. |
| Relabelling.BalancedIffAvoids | kahypar/partition/fixed_vertices.h:424-431 | The final partition is balanced if and only if the permutation uses no discarded pair. |
| Relabelling.PairsBounded | kahypar/partition/fixed_vertices.h:382-423 | A permutation weighs at most what free and fixed blocks can have in common. |
| Relabelling.DiscardedPairCosts | kahypar/partition/fixed_vertices.h:429 | With a discarded pair it weighs less by the weight of all nets. |
| Relabelling.DiscardingIsEffective | kahypar/partition/fixed_vertices.h:424-431 | If free and fixed blocks overlap in less than the weight of all nets, a matching of maximum weight uses no discarded pair whenever some permutation uses none; the converse is DiscardedPairs.EffectiveIff. |
| DiscardedPairs.OnlyShiftAvoids | kahypar/partition/fixed_vertices.h:426-431 | In the examples of the family exactly one permutation, the cyclic shift, uses no discarded pair. |
| DiscardedPairs.IdentityIsMaximum | kahypar/partition/fixed_vertices.h:424-431 | There the identity, which uses discarded pairs, is a matching of maximum weight as soon as free and fixed blocks overlap in at least the weight of all nets. |
| DiscardedPairs.BalancedRelabellingAlwaysMissed | kahypar/partition/fixed_vertices.h:424-431 | With more overlap than weight every matching of maximum weight misses the balanced relabelling. |
| DiscardedPairs.TwoBlocksTie | kahypar/partition/fixed_vertices.h:424-431 | Two blocks, block weights 1 and 2, limits of 3 and one net between a free and a fixed node of block 0: the unbalanced identity and the balanced exchange are both matchings of maximum weight. |
| DiscardedPairs.EnoughWeightIsEffective | kahypar/partition/fixed_vertices.h:424-431 | For all inputs whose nets weigh more than free and fixed blocks overlap, every matching of maximum weight is balanced whenever any relabelling is. |
| DiscardedPairs.EffectiveIff | kahypar/partition/fixed_vertices.h:424-431 | For every pair of totals that some input has: discarding is effective for all inputs with these totals if and only if the overlap is less than the weight of all nets. |
| FixedVertices.GroupFixed | kahypar/partition/fixed_vertices.h:359-362 | Every group lists exactly the nodes fixed to its block. |
| FixedVertices.FixedConnectivityOf | kahypar/partition/fixed_vertices.h:368-378 | The count with visited flags is the number of different blocks that the fixed pins of a net must go to. |
| FixedVertices.FixedConnectivities | kahypar/partition/fixed_vertices.h:364-379 | The number of different blocks that fixed pins must go to, for all nets, and the weight of all nets. |
| FixedVertices.FreeBlocksOfNet | kahypar/partition/fixed_vertices.h:402-417 | The incremental connectivity set of a net holds exactly the blocks of its free pins. |
| FixedVertices.AddNet | kahypar/partition/fixed_vertices.h:387-419 | Visiting a net adds to the row exactly its pair weights, by either objective. |
| FixedVertices.AddNetsOf | kahypar/partition/fixed_vertices.h:385-422 | Nets are counted once per fixed block, however many fixed pins they have in it. |
| FixedVertices.RowOf | kahypar/partition/fixed_vertices.h:383-423 | The row of fixed block i holds its pair totals with all blocks. |
| FixedVertices.DiscardHeavy | kahypar/partition/fixed_vertices.h:426-431 | Exactly the pairs that would be too heavy become minus the weight of all nets. |
| FixedVertices.SetupWeightedBipartiteMatchingGraph | kahypar/partition/fixed_vertices.h:354-435 | The matrix holds the pair totals, or minus the weight of all nets for pairs that violate the balance constraint. |
| FixedVertices.PermutationOf | kahypar/partition/fixed_vertices.h:677-693 | The loop over the matching yields the permutation that follows it. |
| FixedVertices.MoveNodes | kahypar/partition/fixed_vertices.h:747-759 | Fixed nodes are in their blocks and free nodes in their renamed ones; all incremental data stay exact. |
| FixedVertices.RelabellingIsOptimal | kahypar/partition/fixed_vertices.h:660-674 | If the result is balanced no balanced relabelling has a smaller objective. |
| FixedVertices.RelabellingIsBalanced | kahypar/partition/fixed_vertices.h:660-693 | With less overlap than net weight the result is balanced whenever some relabelling is. |
| FixedVertices.PartitionFixed | kahypar/partition/fixed_vertices.h:643-783 | The whole procedure: the hypergraph is unchanged, the data of the partition are exact, nodes are moved by a permutation than which none is heavier (pairs that would be too heavy counted as minus the weight of all nets); a balanced result is the best of all balanced relabellings; and with non-negative net weights and less overlap than weight the result is balanced whenever some relabelling is. |
| NLevel.ContractKeepsValid | kahypar/datastructure/hypergraph.h:963-1032 | Contraction keeps both sides of the incidence relation in agreement and cut-off slots disabled. |
| NLevel.PeekIsCorrect | kahypar/datastructure/hypergraph.h:1064-1066 | After contracting v into u the slot past the end of a net of v holds v if and only if u was a pin of the net before: the peek picks the right undo case. |
| NLevel.UncontractInverts | kahypar/datastructure/hypergraph.h:1143-1200 | Uncontraction undoes contraction: nodes, nets, pins, incident nets, weights and cut-off slots. |
| NLevel.RestoreInverts | kahypar/datastructure/hypergraph.h:1410-1426 | Restoring a net undoes its removal. |
| NLevel.UnmergeInverts | kahypar/partition/coarsening/hypergraph_pruner.h:80-96 | Restoring a merged net and taking its weight off its representative undoes the merger of parallel nets. |
| NLevel.RunKeepsValid | kahypar/datastructure/hypergraph.h:963-1032 | Any run of contractions, removals and mergers of parallel nets keeps the hypergraph valid. |
| NLevel.RoundTrip | kahypar/partition/coarsening/vertex_pair_coarsener_base.h:171-190 | Undoing any run of contractions, removals and mergers in reverse order gives back the original hypergraph. |
| Partitions.ProjectedBlock | kahypar/datastructure/hypergraph.h:1203-1222 | After the undo every node is in the block of its representative in the coarsest hypergraph. |
| Partitions.MetricsProjected | kahypar/datastructure/hypergraph.h:1143-1200 | Uncontraction changes neither cut nor km1. |
| Partitions.NetProjected | kahypar/datastructure/hypergraph.h:963-1426 | Over a whole run, every net that has not been removed connects the same blocks in the original hypergraph as the net that stands for it in the coarsest one. |
| Partitions.CoarseQualityIsFineQuality | README.md:42-48 | Over any run, mergers included, cut and km1 of a partition of the coarsest hypergraph are those of its projection over the nets that have not been removed. |
| Partitions.MergeKeepsMetrics | kahypar/datastructure/hypergraph.h:2773-2779 | Merging a parallel net into its representative changes neither metric of any partition. |
| Partitions.UncutDoesNotCount | README.md:44-48 | Removed nets that are not cut make no difference to either metric. |
| Partitions.SinglePinNetsUncut | kahypar/datastructure/hypergraph.h:1401-1426 | Nets removed when they have at most one pin are not cut in the end. |
| Partitions.CoarseBalanceIsFineBalance | kahypar/datastructure/hypergraph.h:1203-1222 | Over any run all block weights of the coarsest hypergraph are those of the original one. |
| Gains.GainCharacterised | kahypar/datastructure/hypergraph.h:1081-1086 | The from-scratch gain of a net for a pin, in terms of connectivity and pin counts. |
| Gains.ChangesAccountForGains | kahypar/datastructure/hypergraph.h:1034-1135 | After uncontraction gain(u) and gain(v) are the old gain of u plus the reported changes, less the weights of single-pin nets of case 2, respectively case 3. |
| Gains.ChangesExactIff | kahypar/datastructure/hypergraph.h:1109-1122 | The reported changes are exact if and only if no enabled net of case 2 (for u) or case 3 (for v) consists of a single pin; edge weights are positive. |
| Gains.NetOfUMiscounted | kahypar/datastructure/hypergraph.h:1113-1122 | An input where the change reported for v is off by one: a net that has only u. |
| Gains.NetOfVMiscounted | kahypar/datastructure/hypergraph.h:1088-1112 | An input where the change reported for u is off by one: a net that had only v. |
| Layout.Rearranged | kahypar/datastructure/hypergraph.h:996-1004 | Permuting the pins of a net within its slots changes no net. |
| Layout.CutOff | kahypar/datastructure/hypergraph.h:1008-1018 | Decrementing the size takes the pin in the last slot off the net and leaves it just past the end. |
| PinCounts.ExactConnectivity | kahypar/datastructure/hypergraph.h:1947-1978 | If pin counts are exact, connectivity and connectivity set are those of the definition. |
| PinCounts.Increment | kahypar/datastructure/hypergraph.h:1964-1978 | Keeps counts, connectivity and connectivity set consistent; returns true exactly at the first pin of the block. |
| PinCounts.Decrement | kahypar/datastructure/hypergraph.h:1947-1961 | The same downwards; returns true exactly when the last pin of the block goes. |
| PinCounts.CutIsDetected | kahypar/datastructure/hypergraph.h:1077 | The incremental connectivity tells whether a net is cut. |
| Uncontraction.TotalsEnd | kahypar/datastructure/hypergraph.h:1077-1102 | When all nets of u have been dealt with, the border counters of u and v are those of the definition. |
| Uncontraction.BordersProjected | kahypar/datastructure/hypergraph.h:1129-1134 | With the counters of u and v right, all border counters are exact again. |
| Moves.UncutIffTogether | kahypar/datastructure/hypergraph.h:1263 | A net is not cut exactly if all its pins are in the block of any one of them. |
| Moves.CutChangeDetected | kahypar/datastructure/hypergraph.h:1262-1277 | The tests on the new pin counts detect exactly the nets that leave, and those that enter, the cut. |
| Moves.BordersStep | kahypar/datastructure/hypergraph.h:1258-1290 | Dealing with one net of the moved node keeps the border counters exact with respect to the nets dealt with. |
| Moves.FoundIsInternal | kahypar/datastructure/hypergraph.h:1258-1290 | With exact border counters, a node that has been found with a zero counter on a net that left the cut is only on cut nets that the same move has made cut. |
| Moves.InfoMoved | kahypar/datastructure/hypergraph.h:1934-1944 | A move keeps block weights and sizes exact. |
| Moves.BordersMissed | kahypar/datastructure/hypergraph.h:1410-1426 | Restoring a net without counting it leaves the counters off by one more at each pin if the net is cut. |
| Moves.ErrorsRestored | kahypar/datastructure/hypergraph.h:1436-1456 | Restoring a net and counting it at its pins exactly if it is cut leaves the border counters as exact as they were. |
| Moves.BordersSurviveRestorationIff | kahypar/datastructure/hypergraph.h:1410-1426 | Plain restoring keeps the border counters exact if and only if the net is not cut. |
| Moves.CutNetMissed | kahypar/datastructure/hypergraph.h:1410-1426 | An input where plain restoring makes both border counters wrong: a net between two nodes in different blocks. |
| Moves.RestoredIsValid | kahypar/datastructure/hypergraph.h:1410-1426 | A restored net leaves the incidence relation in agreement. |
| Construction.BuiltIsValid | kahypar/datastructure/hypergraph.h:671-702 | What an index vector and an edge vector with distinct pins per net describe is a valid hypergraph. |
| Construction.LayoutIsRight | kahypar/datastructure/hypergraph.h:671-709 | The slots laid out by the constructor are in order and hold exactly the described nets, sentinel included. |
| HypergraphClass.GenericHypergraph.constructor | kahypar/datastructure/hypergraph.h:618-741 | Builds exactly the described hypergraph, unpartitioned, with consistent counts. |
| HypergraphClass.GenericHypergraph.MoveToEnd | kahypar/datastructure/hypergraph.h:991-1006 | The swapping loop puts v in the last slot, keeps the set of pins and finds u if it is there. |
| HypergraphClass.GenericHypergraph.ContractIncidentNet | kahypar/datastructure/hypergraph.h:990-1028 | Deals with one net of v as in case 1 or 2, pin counts included. |
| HypergraphClass.GenericHypergraph.Contract | kahypar/datastructure/hypergraph.h:963-1032 | The object represents the contracted hypergraph; pin counts and current sizes are exact, partition data unchanged. |
| HypergraphClass.GenericHypergraph.WasJustCutOff | kahypar/datastructure/hypergraph.h:1064-1065 | The peek past the end of the net, guarded by the next net or the sentinel, tells whether v was cut off. |
| HypergraphClass.GenericHypergraph.ResetReusedPinSlotToOriginalValue | kahypar/datastructure/hypergraph.h:2018-2032 | Writes v over u in the slots of the net; the pin counts stay exact. |
| HypergraphClass.GenericHypergraph.UncontractIncidentNet | kahypar/datastructure/hypergraph.h:1060-1126 | One round of the loop computes exactly the step of the specification. |
| HypergraphClass.GenericHypergraph.MarkIncidentNetsOf | kahypar/datastructure/hypergraph.h:2055-2061 | Flags exactly the nets of v. |
| HypergraphClass.GenericHypergraph.RestoreMemento | kahypar/datastructure/hypergraph.h:1203-1222 | Enables v in the block of u. |
| HypergraphClass.GenericHypergraph.Uncontract | kahypar/datastructure/hypergraph.h:1034-1135 | The object represents the hypergraph before the contraction, v is in the block of u, pin counts and sizes are exact, border counters are as exact as before, and the gain changes are those of all nets of u. |
| HypergraphClass.GenericHypergraph.IncrementPinCountInPart | kahypar/datastructure/hypergraph.h:1964-1978 | One pin more in one block of one net. |
| HypergraphClass.GenericHypergraph.DecrementPinCountInPart | kahypar/datastructure/hypergraph.h:1947-1961 | One pin less in one block of one net. |
| HypergraphClass.GenericHypergraph.ChangeNodePart | kahypar/datastructure/hypergraph.h:1249-1308 | Pin counts, connectivity, block weights and sizes stay exact; border counters stay exactly as wrong as they were, if at all. The nodes returned are, net by net in the order of the pins, exactly those pins of nets that left the cut whose counters were zero then: all nodes whose counters have turned from positive to zero or less, and with exact counters none that is on a cut net, unless this very move has made that net cut. |
| HypergraphClass.GenericHypergraph.SetNodePart | kahypar/datastructure/hypergraph.h:1320-1331 | The first block of a node: counts, weights and sizes stay exact. |
| HypergraphClass.GenericHypergraph.InitializeNumCutHyperedges | kahypar/datastructure/hypergraph.h:1752-1766 | The border counters are exact afterwards, whatever they were. |
| HypergraphClass.GenericHypergraph.RemoveEdge | kahypar/datastructure/hypergraph.h:1390-1399 | The object represents the hypergraph without the net; counts and sizes are exact. |
| HypergraphClass.GenericHypergraph.RestoreEdge | kahypar/datastructure/hypergraph.h:1410-1426 | The object represents the hypergraph with the net, which is valid; counts and sizes are exact; border counters unchanged. |
| HypergraphClass.GenericHypergraph.RestoreParallelEdge | kahypar/datastructure/hypergraph.h:1436-1456 | The object represents the hypergraph with the net, which is valid; the net is counted at its pins if its old representative is found to be cut, and where that is right the border counters stay as exact as they were. |
| HypergraphClass.GenericHypergraph.RepresentativeCut | kahypar/datastructure/hypergraph.h:1451 | If the pins have blocks, the representative is found to be cut exactly if the restored net is. |
| HypergraphClass.GenericHypergraph.SetEdgeWeight | kahypar/datastructure/hypergraph.h:1569-1572 | Changes one net weight and nothing else. |
| Multilevel.Coarsen | kahypar/datastructure/hypergraph.h:963-1399 | Any run on an unpartitioned hypergraph: all fields stay consistent, nobody gets a block. |
| Multilevel.AssignBlocks | kahypar/datastructure/hypergraph.h:1752-1766 | Giving the coarse nodes blocks and counting the cut nets makes all partition data exact. |
| Multilevel.MissedNothingIff | kahypar/datastructure/hypergraph.h:1401-1426 | Over a whole run the border counters are off by nothing if and only if no removed net is cut in the end. |
| Multilevel.Uncoarsen | kahypar/partition/coarsening/vertex_pair_coarsener_base.h:171-190 | Undoing any run in reverse order gives back the hypergraph with every node in the block of its representative; the border counters are off by exactly the missed nets. |
| Multilevel.PartitionMultilevel | kahypar/datastructure/hypergraph.h:963-1766 | The whole scheme, for every run of contractions, removals and mergers and every block assignment: same hypergraph, projected blocks, same block weights, same quality but for removed nets; all data exact if and only if no removed net is cut in the end. |
| Multilevel.Refine | kahypar/datastructure/hypergraph.h:1249-1308 | Any sequence of moves keeps pin counts, block weights and sizes exact, and the border counters as exact as they were. |
| Multilevel.MissedNothingRefinedIff | kahypar/datastructure/hypergraph.h:1401-1426 | With moves in between the border counters are off by nothing if and only if no removed net is cut at the time when it is restored. |
| Multilevel.SinglePinNetsNotMissed | kahypar/partition/coarsening/hypergraph_pruner.h:98-117 | Nets with a single pin are never missed, whatever is moved. |
| Multilevel.UncoarsenAndRefine | kahypar/partition/coarsening/vertex_pair_coarsener_base.h:171-190 | Uncoarsening any run with arbitrary moves on every level gives back the hypergraph with exact pin counts, block weights and sizes; the border counters are off by exactly the nets that are cut when they are restored. |
| Multilevel.PartitionAndRefine | kahypar/partition/multilevel.h:41-128 | The whole scheme with refinement, for every run, every block assignment and all moves: same hypergraph, exact block weights, sizes and pin counts; all data exact if and only if no removed net is cut when it is restored. |
| CutNetSplitting.SplitKm1 | kahypar/datastructure/hypergraph.h:2468-2495 | km1 of a net under a refinement is its km1 under the partition plus that of its parts. |
| CutNetSplitting.SplitCut | kahypar/datastructure/hypergraph.h:2496-2517 | The cut of a net under a refinement is its cut under the partition plus that of its parts, of which only uncut nets have any. |
| CutNetSplitting.ObjectiveOfExtraction | kahypar/datastructure/hypergraph.h:2440-2525 | The objective of an extracted hypergraph, net by net of the whole. |
| CutNetSplitting.SplittingIsExact | kahypar/datastructure/hypergraph.h:2440-2525 | For every refinement the objective of the whole is that of the partition plus the sum of those of all extracted hypergraphs, by km1 as by cut. |
| Extraction.NumberNodes | kahypar/datastructure/hypergraph.h:2449-2460 | The two mappings are inverse to each other and list exactly the nodes of the block, in ascending order. |
| Extraction.KeptByRow | kahypar/datastructure/hypergraph.h:2470-2501 | The tests on connectivity and pin counts keep exactly the nets of the definition. |
| Extraction.ExtractNets | kahypar/datastructure/hypergraph.h:2466-2517 | Kept nets in ascending order, with their pins in the block, renumbered, and their weights. |
| Extraction.ExtractPartAsUnpartitionedHypergraphForBisection | kahypar/datastructure/hypergraph.h:2440-2525 | The new hypergraph is the one the block induces, nodes and nets in their old order, with two blocks and no node in either; all its counters and sizes are exact. |
| Extraction.ExtractAllParts | kahypar/partition/recursive_bisection.h:409-433 | Extracts all blocks into different objects; for every refinement of the partition the objectives of its restrictions to these objects and that of the partition add up to that of the refinement. |
| ParallelNets.MergeNet | kahypar/partition/coarsening/hypergraph_pruner.h:239-247 | Moves the weight of a net to its representative and removes it; counts and sizes exact. |
| ParallelNets.UnmergeNet | kahypar/partition/coarsening/hypergraph_pruner.h:87-93 | Restores a merged net and takes its weight off the representative; if its pins have blocks the border counters stay as exact as they were. |
| ParallelNets.MergedIsEquivalent | kahypar/datastructure/hypergraph.h:2772-2780 | However far the loop has got, validity and both metrics of every partition are those of the original. |
| ParallelNets.RepresentativeLeft | kahypar/datastructure/hypergraph.h:2772-2780 | The representative of every net is left in the end and has its pins. |
| ParallelNets.NoParallelLeft | kahypar/datastructure/hypergraph.h:2695-2783 | No two nets that are left have the same pins. |
| ParallelNets.Checksum | kahypar/datastructure/hypergraph.h:2713-2718 | The checksum depends on the set of pins alone, for any hash function of pins, with wrap-around. |
| ParallelNets.IsParallel | kahypar/datastructure/hypergraph.h:2736-2752 | The test with flags compares the pin sets. |
| ParallelNets.FollowChain | kahypar/datastructure/hypergraph.h:2731-2762 | Following the links either finds a parallel net or passes the whole chain. |
| ParallelNets.FindRepresentative | kahypar/datastructure/hypergraph.h:2724-2768 | One round of the loop keeps the chains linked and gives the net its representative. |
| ParallelNets.FindRepresentatives | kahypar/datastructure/hypergraph.h:2704-2768 | Every net gets the first net with the same pins. |
| ParallelNets.RemoveParallelHyperedges | kahypar/datastructure/hypergraph.h:2695-2783 | Merges every net into the first one with the same pins; returns exactly the removed nets with their representatives; counts and sizes exact, blocks and border counters untouched. |
| ParallelNets.RemovedIsRun | kahypar/datastructure/hypergraph.h:2769-2783 | The list of removed nets is a legal run of mergers that leads to the hypergraph without them. |
| ParallelNets.RestoreParallelHyperedges | kahypar/partition/preprocessing/hypergraph_deduplicator.h:81-89 | Restores a whole list of merged nets in reverse order: the hypergraph is the one before they were merged, and the border counters are as exact as when the restoring began. |
| Divisibility.PrimeAbove | external_tools/primes/next_prime.h:182-548 | There is a prime above every number, so the search ends. |
| Divisibility.NoneBelowRootIsPrime | external_tools/primes/next_prime.h:183-186 | No divisor below i and n / i < i make n prime: stopping trial division there is sound. |
| LargestPrime.Fermat | external_tools/primes/next_prime.h:159-161 | Fermat's little theorem for 2: a prime p > 2 divides 2 to the p - 1 less one. |
| LargestPrime.OrderHasFactor | external_tools/primes/next_prime.h:159-161 | If a prime p divides 2 to the qm less one but not 2 to the m less one, and q is prime, then q divides p - 1. |
| LargestPrime.LargeFactorsOnly | external_tools/primes/next_prime.h:159-161 | A number whose prime factors are all above its root is prime. |
| LargestPrime.LimitIsPrime | external_tools/primes/next_prime.h:159-161 | The limit of the overflow test, 0xFFFFFFFFFFFFFFC5, is a prime number (by Pocklington's criterion). |
| LargestPrime.NoneAboveLimit | external_tools/primes/next_prime.h:159-161 | and no number above it that fits in 64 bits is prime. |
| Primes.OffWheel | external_tools/primes/next_prime.h:75-124 | Between two residues of the table every residue is divisible by 2, 3, 5 or 7. |
| Primes.BetweenPrimes | external_tools/primes/next_prime.h:21-70 | Between two numbers of the small table there is no prime. |
| Primes.SearchSmallPrimes | external_tools/primes/next_prime.h:168-170 | For n up to 211 the least prime not less than n, and 0 for 0. |
| Primes.TrySmallPrimes | external_tools/primes/next_prime.h:190-197 | Prime, composite or undecided, each rightly; undecided means no divisor below 211. |
| Primes.TryPotentialPrimes | external_tools/primes/next_prime.h:199-540 | Trial division by the wheel decides primality. |
| Primes.IsPotentialPrimePrime | external_tools/primes/next_prime.h:190-540 | Both together decide primality of any potential prime above the table. |
| Primes.FirstPotentialPrime | external_tools/primes/next_prime.h:176-181 | No prime between n and the first potential prime not less than n. |
| Primes.SearchPotentialPrimes | external_tools/primes/next_prime.h:182-548 | Ends at the least prime not less than n. |
| Primes.NextPrime | external_tools/primes/next_prime.h:165-549 | 0 for 0; an overflow error exactly if n is above 0xFFFFFFFFFFFFFFC5, and then no prime from n on fits in 64 bits; otherwise the least prime not less than n, which does. |
| BucketQueue.InsertedIff | kahypar/datastructure/bucket_queue.h:115-118 | Appending an id to a bucket leaves the structure consistent if and only if the bucket is valid. |
| BucketQueue.EnhancedBucketQueue.constructor | kahypar/datastructure/bucket_queue.h:53-63 | An empty queue. |
| BucketQueue.EnhancedBucketQueue.EmptyIffNoIndex | kahypar/datastructure/bucket_queue.h:139-147 | The queue is empty exactly if no bucket is valid; otherwise the bucket at the maximum address is not empty. |
| BucketQueue.EnhancedBucketQueue.Push | kahypar/datastructure/bucket_queue.h:100-119 | The map of keys gets the new id, which is appended to the bucket of its key; all other buckets stay. |
| BucketQueue.EnhancedBucketQueue.OpenBucket | kahypar/datastructure/bucket_queue.h:105-114 | A bucket that becomes valid is emptied first, so stale content never shows. |
| BucketQueue.EnhancedBucketQueue.Clear | kahypar/datastructure/bucket_queue.h:121-127 | No keys and no valid buckets, without the buckets being touched. |
| BucketQueue.EnhancedBucketQueue.Top | kahypar/datastructure/bucket_queue.h:129-147 | An id of maximum key, and that key. |
| BucketQueue.EnhancedBucketQueue.Pop | kahypar/datastructure/bucket_queue.h:149-163 | Removes the id that top returns, the last one of the highest bucket, and leaves all other ids in their places. |
| BucketQueue.EnhancedBucketQueue.Remove | kahypar/datastructure/bucket_queue.h:202-225 | Removes the id; the last id of its bucket takes its place, an empty bucket is not valid any more, all else stays. |
| BucketQueue.EnhancedBucketQueue.UpdateMaxAddress | kahypar/datastructure/bucket_queue.h:232-242 | The maximum address is that of the highest valid bucket, or none. |
| BucketQueue.EnhancedBucketQueue.UpdateKeyInternal | kahypar/datastructure/bucket_queue.h:258-294 | The id has its new key: the last id of its bucket takes its place and it goes to the end of the bucket of the new key; the queue stays right if and only if the key differs or the id was not alone in its bucket. |
| BucketQueue.EnhancedBucketQueue.SurvivesIff | kahypar/datastructure/bucket_queue.h:277-294 | That is: the key differs, or another id in the queue has the same key. |
| BucketQueue.UpdateToSameKey | kahypar/datastructure/bucket_queue.h:258-294 | An input where it fails: of two ids with different keys one gets the key that it has; the queue is not right any more although it still holds the id. |
| BucketQueue.EnhancedBucketQueue.UpdateKey | kahypar/datastructure/bucket_queue.h:172-178 | The id has the given key and its place in the buckets is that of the internal update; the queue stays right under the same condition. |
| BucketQueue.EnhancedBucketQueue.UpdateKeyBy | kahypar/datastructure/bucket_queue.h:192-199 | The key of the id is raised by the difference, with the same buckets and under the same condition. |
| BucketQueue.EnhancedBucketQueue.DecreaseKeyBy | kahypar/datastructure/bucket_queue.h:180-187 | The key of the id is lowered by the difference, with the same buckets and under the same condition. |
| SegmentTree.FitsBelow | kahypar/datastructure/segment_tree.h:48-52 | A node that covers several positions has index below 2n - 3, and so do the places of its children fit: no access beyond the array. |
| SegmentTree.ParametrizedSegmentTree.CombinationIsUnique | kahypar/datastructure/segment_tree.h:68-70 | For an associative combination every bracketing of the values on an interval gives the same. |
| SegmentTree.ParametrizedSegmentTree.BuildSegmentTree | kahypar/datastructure/segment_tree.h:80-91 | Writes the values combined by halving into its own subtree only, and returns that of the whole interval, for any combination. |
| SegmentTree.ParametrizedSegmentTree.AnswerIsCombination | kahypar/datastructure/segment_tree.h:59-78 | What a query gets, with intervals inside it combined by halving and all others halved, is a combination of the values of the queried positions in order. |
| SegmentTree.ParametrizedSegmentTree.constructor | kahypar/datastructure/segment_tree.h:48-52 | The tree is complete afterwards; an empty sequence is allowed. |
| SegmentTree.ParametrizedSegmentTree.QueryRec | kahypar/datastructure/segment_tree.h:59-78 | What the node answers, read from the array, is what halving its interval down to the query gets without a tree. |
| SegmentTree.ParametrizedSegmentTree.Query | kahypar/datastructure/segment_tree.h:54-56 | The base values on [i, j] combined in order, bracketed by halving; for an associative combination, the one after the other. A query that goes past the end is answered as far as the sequence goes. |
| LongestProcessingTime.LoadsAddUp | tools/calculate_epsilon.cc:59-64 | No weight is lost: the bins sum to the total. |
| LongestProcessingTime.WeightDistribution | tools/calculate_epsilon.cc:42-46 | The distribution holds every node once, heaviest first. |
| LongestProcessingTime.FewJobsFit | tools/calculate_epsilon.cc:37-72 | If no three jobs fit together, jobs that fit with no other one take up two places each. |
| LongestProcessingTime.NextJobFits | tools/calculate_epsilon.cc:59-64 | As long as no three jobs fit together, the greedy step keeps within every limit that can be kept at all. |
| LongestProcessingTime.GrahamStep | tools/calculate_epsilon.cc:59-64 | The greedy step keeps the bound of 4/3 - 1/(3k). |
| LongestProcessingTime.PackNodes | tools/calculate_epsilon.cc:48-65 | The bins are the loads of an actual assignment in which every job is on a bin that was lightest with the jobs before it, and keep both bounds; weightless nodes are left out. |
| LongestProcessingTime.LightestBinsAlike | tools/calculate_epsilon.cc:59-64 | Whichever of several lightest bins is taken, the loads end up the same but for their order. |
| LongestProcessingTime.RuleIsDeterminate | tools/calculate_epsilon.cc:37-72 | The largest load that the rule (heaviest first, onto a lightest bin) ends with depends on the weights alone. |
| LongestProcessingTime.MaxPartByLPT | tools/calculate_epsilon.cc:37-72 | The result is the largest load of every assignment by the rule (jobs in descending order, each onto a lightest bin), and there is one; of an actual assignment of the nodes; with k m <= W + (k - 1) w_max and m at most 4/3 - 1/(3k) times the heaviest block of any other assignment. |
| HeavyNodes.FewerThanBlocks | tools/remove_heavy_nodes.cc:33-45 | Fewer than new_k nodes can be too heavy in one round. |
| HeavyNodes.BoundDrops | tools/remove_heavy_nodes.cc:32-46 | The bound never rises from one round to the next. |
| HeavyNodes.StableStays | tools/remove_heavy_nodes.cc:32-46 | One round removes no node of any set that needs no removal itself and whose other nodes are too heavy for it. |
| HeavyNodes.RoundsKeepMost | tools/remove_heavy_nodes.cc:30-46 | So every such set is kept: the rounds end with the largest one. |
| HeavyNodes.CollectHeavy | tools/remove_heavy_nodes.cc:36-40 | Exactly the nodes above the bound. |
| HeavyNodes.RemoveNodes | tools/remove_heavy_nodes.cc:41-45 | Total weight and number of blocks after the removals. |
| HeavyNodes.RemoveHeavyNodes | tools/remove_heavy_nodes.cc:27-49 | The result is that of the rounds, for any epsilon: only nodes are kept that are not too heavy for the final total and number of blocks, with one block fewer per removed node. If epsilon is not negative, blocks are left, every such node is kept, and no other choice of nodes of which this is true keeps a node that has been removed. If no node is above the first bound, none is removed. |
| ClusterGraph.ContractionKeepsForm | kahypar/datastructure/graph.h:433-442 | For any values of the new nodes, a cluster weighs in the contracted graph what it weighs in the graph itself. |
| ClusterGraph.ContractionKeepsWeights | kahypar/datastructure/graph.h:433-442 | For every clustering of the contracted graph: the weight between any two clusters, the weighted degrees of a cluster and the total weight are those of the graph itself. |
| ClusterGraph.ContractionKeepsQuality | kahypar/partition/preprocessing/modularity.h:96-115 | The modularity of every clustering of the contracted graph is that of the same clustering of the graph itself. |
| ClusterGraph.UnusedClusters | kahypar/partition/preprocessing/modularity.h:99-103 | Clusters without nodes contribute nothing to modularity. |
| ClusterGraph.ContractedNode | kahypar/datastructure/graph.h:531-543 | The edge weight between two new nodes is the weight between their clusters, the weighted degree that of the cluster. |
| ClusterGraph.EntryIff | kahypar/datastructure/graph.h:600-640 | A cluster has an entry in the table exactly if some edge of the nodes leads to it. |
| GraphContraction.NumberedAll | kahypar/datastructure/graph.h:446-453 | Numbers given in the order of first meeting tell clusters apart and use all numbers below the number of clusters. |
| GraphContraction.LoopWeight | kahypar/datastructure/graph.h:545-551 | If no two edges of a node lead to the same node, the weight stored for its self-loop is the weight of all its edges to itself. |
| GraphContraction.Graph.SetClusterId | kahypar/datastructure/graph.h:293-313 | Cluster sizes and the number of communities stay exact. |
| GraphContraction.Graph.constructor | kahypar/datastructure/graph.h:187-213 | Every node in a cluster of its own and every hypernode at the node of its number; weighted degrees, self-loops and total weight are those of the edges. |
| GraphContraction.Graph.Contracted | kahypar/datastructure/graph.h:521-553 | For given clusters: weighted degrees, self-loops, total weight, cluster sizes and number of communities are exact. |
| GraphContraction.Graph.MeasureRow | kahypar/datastructure/graph.h:545-551 | One node: its weighted degree, and as its self-loop the weight of its last edge to itself. |
| GraphContraction.Graph.Renumber | kahypar/datastructure/graph.h:443-453 | The relabelling in place: same clusters, numbered from 0 in the order of their first nodes, sizes and number of communities exact throughout. |
| GraphContraction.Graph.MapHypernodes | kahypar/datastructure/graph.h:455-460 | Every hypernode is mapped to the new node of its node. |
| GraphContraction.Graph.IncidentClusterWeightOfCluster | kahypar/datastructure/graph.h:560-640 | The table gathers the edge weights of the nodes by the cluster they lead to, one entry for each cluster met, in the order of meeting. |
| GraphContraction.Graph.ContractEdges | kahypar/datastructure/graph.h:466-508 | The adjacency array of the contracted graph, each row with one entry per cluster met, in that order. |
| GraphContraction.Graph.ContractClusters | kahypar/datastructure/graph.h:442-512 | The new graph is the contraction: edge weights, weighted degrees, self-loops (intra-cluster weight) and total weight; no edges but those between clusters that some edge joins; the cluster ids become the node mapping, and hypernodes are where it takes them. |
| Louvain.HypernodeAt | kahypar/partition/preprocessing/louvain.h:109-121 | On every level a hypernode is at the node that its first one has become by the composed node mappings. |
| Louvain.HypernodesProjected | kahypar/partition/preprocessing/louvain.h:145-147 | In the end a hypernode is in the cluster of the coarsest graph's node that it is at. |
| Louvain.ProjectedDown | kahypar/partition/preprocessing/louvain.h:128-135 | Taking the clusters one level down keeps every node in the cluster of what it has become, and the modularity. |
| Louvain.Pass | kahypar/partition/preprocessing/louvain.h:165-242 | Whatever clusters a pass leaves the nodes in, taking them out and putting them in keeps cluster sizes and the number of communities exact. |
| Louvain.AssignClusterToNextLevelFinerGraph | kahypar/partition/preprocessing/louvain.h:158-163 | Every node of the finer graph is in the cluster of the node it is mapped to. |
| Louvain.Coarsen | kahypar/partition/preprocessing/louvain.h:76-125 | After any number of passes and contractions every level is the contraction of the one before, and the coarsest graph is in the clusters of its pass. |
| Louvain.Run | kahypar/partition/preprocessing/louvain.h:66-142 | For any passes and any number of contractions: every node of the graph ends up in the cluster of what the composed mappings make of it, and the modularity of these clusters is that of the coarsest graph's. |

## Left out

- Machine integers: sums, counters and weights do not wrap around, except for the checksum of a net, which does. The overflow test of `nextPrime` is modelled for 64-bit words.
- Floating point: edge weights of graphs, epsilon and modularity are exact reals.
- The `hash` of a net: uncontraction does not restore it, so it is no part of the round trip. `math::hash` does not appear, nor does the comparison of hashes by which the coarsener picks candidates for mergers; `math::cs2` is an arbitrary function of pins.
- Order: the pins of a net and the nets of a node are sets in the value `Abs()`; the object keeps them in arrays and lists in which the order changes as in the code.
- HypergraphClass.GenericHypergraph.constructor: takes no ignored hyperedges and ignored pins, which its callers here do not pass, and sets neither the hash of a net nor the type of the hypergraph.
- HypergraphClass.GenericHypergraph.Contract: leaves out the weights and the set of fixed vertices and the hash of a net.
- HypergraphClass.GenericHypergraph.RestoreMemento: leaves out the weights and the set of fixed vertices.
- Relabelling.DiscardingIsEffective: is one direction; `DiscardedPairs.EffectiveIff` is both. Where the overlap is not less than the weight of all nets, whether a single input meets the property depends on all of its weights.
- Multilevel.PartitionMultilevel: moves no nodes on the way back, which is what `Multilevel.PartitionAndRefine` is for; the quality of a partition changes with every move.
- Which nets a coarsener removes or merges, and when: runs are arbitrary. Finding parallel nets is modelled for the whole hypergraph, as in `hypergraph.h`, not net by net after each contraction.
- Fixed vertices in `contract`, `uncontract` and `setNodePart` (their weights and set), communities, activity marks and the type of a hypergraph: they do not interact with what is proved.
- `contract` does not update block sizes and border counters, and neither does the model; it is therefore used before blocks are assigned. V-cycles on a partitioned hypergraph are not modelled.
- The overload of `uncontract` without gain changes: the other overload does all that it does.
- The three classes `BipartiteMaximumFlow`, `MaximumBipartiteMatching` and `MinimumBipartiteVertexCover` form one class; `FastResetFlagArray` is a sequence of flags; `_pins_in_part`, `connectivity` and `_connectivity_sets` are grouped as one row per net.
- `extractPartAsUnpartitionedHypergraphForBisection` fills the fields of the new hypergraph itself; the model collects the same vectors and hands them to the constructor. The order of the pins within a net is not stated. For a block without nodes the code returns a default object, the model one without nodes and nets.
- FixedVertices.PartitionFixed: optimality is stated for balanced results, since others may use discarded pairs; what the border counters are afterwards is not stated, as the code moves nodes before they have been counted and its callers count them afresh (`multilevel.h`, `direct_kway.h`).
- BucketQueue.EnhancedBucketQueue.UpdateKeyInternal: the case that the only element of the queue gets the key that it has is excluded, as the code then reads the last element of an empty set.
- BucketQueue.EnhancedBucketQueue.Pop and BucketQueue.EnhancedBucketQueue.Remove share one step that swaps an id with the last one of its bucket; for the top id that is itself. A key change takes the id out and appends it, where the code leaves its `contains` flag set in between.
- HeavyNodes.RemoveHeavyNodes: with a negative epsilon the number of blocks may reach 0 or less, where the code divides by zero or its unsigned number wraps around; the model ends there with a result of its own.
- `std::sort`, `std::lower_bound`, `std::max_element`, `std::set::rbegin`, `std::map` and `std::priority_queue` are replaced by code with their contracts.
- Louvain.Run: how a pass chooses clusters (gains, random order, time stamps) is not modelled: what it leaves is any function of the level and the graph, and how often it improves the modularity is a parameter.
- GraphContraction.Graph.ContractClusters: the sentinel that the code pushes onto its cluster ids and pops again is on a copy here; all nodes must have a cluster, as in the code.
- The construction of a graph from a hypergraph, hash tables, sparse sets, file formats, command lines, contexts, coarsening and refinement strategies, initial partitioning, evolutionary search, timers and the debug output of `fixed_vertices.h`.
- What other files of KaHyPar call these functions with is not part of this model; preconditions are those that the code asserts.
