# Label propagation, vertex subsets and connectivity checks of gbbs, in Dafny

This project models three pieces of the gbbs graph library and proves
properties of them:

- **`vertexSubsetData`** (`vertex_subset.dfy`, module `VertexSubsets`): the
  adaptive frontier set over the vertex ids `0..n`. It is held as a sparse
  list of `(id, payload)` entries, a dense array of `(present, payload)`
  cells, or both, together with the cached count `m`, the `isDense` flag and
  the memoised out-degree sum. The class `VertexSubsetData<T>` has these
  fields, and `Contents()` is the set's abstract value, a map from member to
  payload. The `pbbslib::empty` specialisation is the instance `T = ()`
  (`VertexSubset`). The file also models `vertexMap`, `vertexFilter_dense`,
  `vertexFilter_sparse`, `vertexFilter` and `add_to_vsubset`.
- **The label-propagation spanning forest** (`spanning_forest.dfy`, module
  `LabelPropagation`): `lp_less`, the two edge functors `LabelProp_F` and
  `LabelProp_F_2` (classes that update the shared `Parents`, `changed` and
  `Edges` arrays in place), the round loop `compute_spanning_forest` and
  the entry point `SpanningForest`.
  - Each functor call is specified by a pure step function (`Relax`,
    `Witness`).
  - edgeMap is specified by folding that step over the frontier's edges
    (`RelaxAll`, `WitnessAll`).
  - The proved round invariant (`PassInv`, `RoundState`) gives the main
    results:
    - every round strictly lowers the label of each vertex in the next
      frontier, which is why the loop terminates;
    - when the loop ends, both ends of every graph edge carry the same label;
    - every filled `Edges` slot holds a graph edge that touches its vertex;
    - in every round, each vertex whose label dropped gets a slot holding
      the edge that delivered its new label, and each vertex whose label
      ever changed ends with a filled slot.
- **The connectivity checks** (`check.dfy`, module `ConnectivityCheck`):
  - `num_cc`: mark the labels, then take an exclusive in-place prefix sum;
  - `largest_cc`: build a histogram and take its maximum;
  - `RelabelDet`: renumber the labels in place;
  - `cc_check`: relabel, then compare position by position.

  Each is an array method proved against a specification function.

`seq_util.dfy` (module `SeqUtil`) holds shared helpers. These include
`Sum` and `MaxOf`, which stand for pbbslib's `reduce_add` and `reduce_max`.

## Label order

`spanning_forest::largest_comp` is the *least* element of `lp_less`
(`benchmarks/SpanningForest/LabelPropagation/SpanningForest.h:38-45`):
`lp_less(largest_comp, v)` holds for every other `v`, and nothing is
lp-less than it. The model's `Rank` puts it first.

## Model

| member | source | states |
|---|---|---|
| SeqUtil.MaxOf | benchmarks/Connectivity/Framework/mains/check.h:27 | reduce_max: the result bounds every element and is one of them, or 0 for an empty sequence |
| VertexSubsets.PackIndexContents | gbbs/vertex_subset.h:344-348 | pack_index over the dense array lists exactly the dense members with their payloads (in increasing id order, by `PackIndex`'s contract) |
| VertexSubsets.PackIndex | gbbs/vertex_subset.h:344-348 | the packed list has increasing, distinct ids below n, and its length is the number of present cells |
| VertexSubsets.CountPresentIsCardinality | gbbs/vertex_subset.h:274-282 | reduce_add over the presence flags equals the number of members of the dense array |
| VertexSubsets.MarkContents | gbbs/vertex_subset.h:363-368 | clearing n cells and then marking the first m sparse entries gives a dense array with the same members and payloads as the sparse list |
| VertexSubsets.SurvivorsWellFormed | gbbs/vertex_subset.h:471-477 | pack of the sparse ids by the filter bits keeps distinct ids below n; its ids are exactly the members passing the filter, and it has as many entries as there are such members |
| VertexSubsets.FilterDenseKeys | gbbs/vertex_subset.h:433-445 | the filtered dense array's members are exactly the members that pass the filter |
| VertexSubsets.VertexSubsetData.Contents | gbbs/vertex_subset.h:372-376 | the abstract set has exactly m members, all below n |
| VertexSubsets.VertexSubsetData.FormsAgree | gbbs/vertex_subset.h:372-376 | whichever of the sparse and dense forms exist, each describes the same members and payloads |
| VertexSubsets.VertexSubsetData.Empty | gbbs/vertex_subset.h:233-237 | the empty set: no members, size 0, not dense, degree cache unset |
| VertexSubsets.VertexSubsetData.Single | gbbs/vertex_subset.h:240-247 | the set holding the one vertex v, m == 1, sparse, degree cache unset |
| VertexSubsets.VertexSubsetData.FromSparseCount | gbbs/vertex_subset.h:250-255 | a sparse set with the given m whose members are the first m ids of A |
| VertexSubsets.VertexSubsetData.FromSparse | gbbs/vertex_subset.h:257-262 | a sparse set with m == \|A\| whose members are the ids of A |
| VertexSubsets.VertexSubsetData.FromDenseCount | gbbs/vertex_subset.h:265-270 | a dense set with the given count, whose members are the present cells |
| VertexSubsets.VertexSubsetData.FromDense | gbbs/vertex_subset.h:274-282 | a dense set whose m is computed as the number of present cells, which is its cardinality |
| VertexSubsets.VertexSubsetData.SetOutDegrees | gbbs/vertex_subset.h:284-290 | after set_out_degrees(x), get_out_degrees() is x, and out_degrees_set() holds exactly when x is not size_t max; nothing else changes |
| VertexSubsets.VertexSubsetData.Size | gbbs/vertex_subset.h:335 | size() is the number of members |
| VertexSubsets.VertexSubsetData.IsEmpty | gbbs/vertex_subset.h:341 | isEmpty() holds exactly when the set has no member |
| VertexSubsets.VertexSubsetData.IsIn | gbbs/vertex_subset.h:302-304 | on the dense form, isIn(v) holds exactly when v is a member |
| VertexSubsets.VertexSubsetData.IthData | gbbs/vertex_subset.h:135 | on the dense form, ithData(v) is the payload of a member v |
| VertexSubsets.VertexSubsetData.Vtx | gbbs/vertex_subset.h:293 | the i-th sparse entry (i < m) is a member below n |
| VertexSubsets.VertexSubsetData.VtxData | gbbs/vertex_subset.h:126 | the i-th sparse payload is that member's payload |
| VertexSubsets.VertexSubsetData.FnRepr | gbbs/vertex_subset.h:310-333 | dense: some value exactly for members; sparse: always some value; every value given is a member with its payload |
| VertexSubsets.VertexSubsetData.ToSparse | gbbs/vertex_subset.h:344-360 | the members do not change; s is filled by pack_index exactly when it was missing and m > 0; d and m are kept; the result is sparse; the abort is unreachable |
| VertexSubsets.VertexSubsetData.ToDense | gbbs/vertex_subset.h:363-370 | the members do not change; a missing d is built to hold exactly the first m sparse entries; an existing d is kept; s and m are kept; the result is dense |
| VertexSubsets.VertexMap | gbbs/vertex_subset.h:385-425 | f is called once per member with its payload: in increasing id order on a dense set, in list order over s[0..m) on a sparse one |
| VertexSubsets.FilterFlagsDense | gbbs/vertex_subset.h:433-445 | d_out[i] is true exactly when i is a member and passes the filter |
| VertexSubsets.VertexFilterDense | gbbs/vertex_subset.h:427-447 | V gains its dense form with unchanged members; the result is dense, its members are exactly the members passing the filter, and m is their number; V's degree cache is kept and the result's is unset |
| VertexSubsets.FilterBits | gbbs/vertex_subset.h:457-470 | bits[i] is the filter's verdict on the i-th sparse entry |
| VertexSubsets.VertexFilterSparse | gbbs/vertex_subset.h:449-478 | the result is empty when m == 0 and otherwise the members passing the filter, in list order; its size is their number; V is switched to sparse when m > 0; V's degree cache is kept and the result's is unset |
| VertexSubsets.VertexFilter | gbbs/vertex_subset.h:483-495 | dispatch: dense_only takes the dense path, no_dense the sparse one, and other flags follow dense(); the members of the result are the members passing the filter; V's degree cache is kept and the result's is unset |
| VertexSubsets.AddToVsubset | gbbs/vertex_subset.h:497 | new distinct ids outside the set are appended to the sparse list, m grows by their number, and the members become the old ones plus the new ids |
| LabelPropagation.LpLess | benchmarks/SpanningForest/LabelPropagation/SpanningForest.h:38-45 | lp_less is the order of Rank, which puts largest_comp first and then the other ids in numeric order |
| LabelPropagation.LpLessOrder | benchmarks/SpanningForest/LabelPropagation/SpanningForest.h:38-45 | lp_less is irreflexive, transitive and total on distinct values; largest_comp is below every other value and nothing is below it; elsewhere it agrees with < |
| LabelPropagation.LpMin | benchmarks/SpanningForest/LabelPropagation/SpanningForest.h:59 | what write_min under lp_less leaves: one of the two values, lp-no-greater than either |
| LabelPropagation.WriteMin | benchmarks/SpanningForest/LabelPropagation/SpanningForest.h:59-64 | pbbs::write_min as one atomic step: it writes exactly when the new value is less under the comparator, reports whether it wrote, and changes no other cell |
| LabelPropagation.CompareAndSwap | benchmarks/SpanningForest/LabelPropagation/SpanningForest.h:88 | atomic_compare_and_swap as one step: it writes exactly when the cell holds the expected value |
| LabelPropagation.RelaxAt | benchmarks/SpanningForest/LabelPropagation/SpanningForest.h:57-69 | per vertex, three cases. On a forward offer, Parents[d] becomes the lp-min of itself and PrevParents[s], and changed[d] is raised to emitted. On a reverse offer, Parents[s] becomes the lp-min of itself and PrevParents[d], and changed[s] becomes need_emit exactly when the offer won and changed[s] was unemitted. Any other vertex keeps its label and flag. The call returns true exactly on a forward offer to a d not yet emitted. Equal round-start labels change nothing |
| LabelPropagation.RelaxMonotone | benchmarks/SpanningForest/LabelPropagation/SpanningForest.h:59-64 | one functor call never raises a label under lp_less and never lowers a flag |
| LabelPropagation.RelaxAllLabel | benchmarks/SpanningForest/LabelPropagation/SpanningForest.h:57-66 | after the first pass, Parents[v] is the lp-minimum of its round-start value and every label offered to v |
| LabelPropagation.RelaxAllOrderIndependent | benchmarks/SpanningForest/LabelPropagation/SpanningForest.h:57-66 | the labels after the first pass depend only on the set of edges processed, not on their order |
| LabelPropagation.RelaxKeepsPassInv | benchmarks/SpanningForest/LabelPropagation/SpanningForest.h:57-69 | one functor call keeps the first pass's invariant (labels, output, need_emit flags, disagreeing edges) |
| LabelPropagation.RelaxAllPassInv | benchmarks/SpanningForest/LabelPropagation/SpanningForest.h:135 | after the whole first pass, these hold: labels only went down, and each is some round-start label. A vertex is flagged exactly when its label went strictly down. The output lists, once each, exactly the emitted vertices. Only frontier vertices need emitting. Every processed edge whose ends disagreed has a flagged end |
| LabelPropagation.FrontierEdges | benchmarks/SpanningForest/LabelPropagation/SpanningForest.h:135 | the edges edgeMap hands to the functor are exactly the graph edges leaving the frontier |
| LabelPropagation.RoundEnd | benchmarks/SpanningForest/LabelPropagation/SpanningForest.h:143-153 | with the next frontier = output + need_emit frontier vertices: every vertex outside it kept its label and a clear flag; every vertex in it strictly lowered its label; every edge whose ends now disagree has an end in it |
| LabelPropagation.WitnessAllClaims | benchmarks/SpanningForest/LabelPropagation/SpanningForest.h:84-97 | the second pass only fills a slot with a graph edge that touches that slot's vertex |
| LabelPropagation.WitnessAt | benchmarks/SpanningForest/LabelPropagation/SpanningForest.h:84-97 | one LabelProp_F_2 call claims v's slot for its edge exactly when the edge offered v v's current label (the other end's round-start label is lp-smaller and equals Parents[v]); otherwise the slot is kept |
| LabelPropagation.WitnessAllRecords | benchmarks/SpanningForest/LabelPropagation/SpanningForest.h:84-97 | after the second pass, a vertex that some edge offered its current label has a slot recording such an edge of the pass; every other slot is unchanged |
| LabelPropagation.WitnessAfterRelax | benchmarks/SpanningForest/LabelPropagation/SpanningForest.h:86-94 | after both passes, every vertex whose label dropped has a slot recording an edge of the pass that touches it and whose other end's round-start label is the vertex's new label (the edge over which "ours was the winner") |
| LabelPropagation.PassesWitnessed | benchmarks/SpanningForest/LabelPropagation/SpanningForest.h:135-137 | the same, for all vertices at once, from the second pass's per-vertex record |
| LabelPropagation.ClaimsAccumulate | benchmarks/SpanningForest/LabelPropagation/SpanningForest.h:131-155 | across rounds, every vertex whose label changed since the start keeps a filled slot |
| LabelPropagation.LabelPropF.constructor | benchmarks/SpanningForest/LabelPropagation/SpanningForest.h:52 | the functor refers to the three shared arrays |
| LabelPropagation.LabelPropF.UpdateAtomic | benchmarks/SpanningForest/LabelPropagation/SpanningForest.h:57-69 | the new Parents, the new changed and the return value are exactly Relax of the old state, through write_min steps |
| LabelPropagation.LabelPropWitnessF.constructor | benchmarks/SpanningForest/LabelPropagation/SpanningForest.h:78 | the functor refers to the shared arrays |
| LabelPropagation.LabelPropWitnessF.UpdateAtomic | benchmarks/SpanningForest/LabelPropagation/SpanningForest.h:84-97 | Edges changes exactly as Witness says (the winning edge is CAS-ed into the slot of the vertex whose label it carried); Parents is untouched; the call returns false |
| LabelPropagation.EdgeMapRelax | benchmarks/SpanningForest/LabelPropagation/SpanningForest.h:135 | edgeMap with LabelProp_F: the arrays and the output are RelaxAll over the frontier's edges |
| LabelPropagation.EdgeMapWitness | benchmarks/SpanningForest/LabelPropagation/SpanningForest.h:137 | edgeMap with LabelProp_F_2: Edges becomes WitnessAll over the frontier's edges |
| LabelPropagation.NeedEmitted | benchmarks/SpanningForest/LabelPropagation/SpanningForest.h:143-145 | the filter keeps exactly the listed vertices flagged need_emit, without repetition |
| LabelPropagation.EmitNeeded | benchmarks/SpanningForest/LabelPropagation/SpanningForest.h:139-145 | vs.toSparse() keeps the members; new_vtxs is exactly the members flagged need_emit, without repetition |
| LabelPropagation.ResetFrontier | benchmarks/SpanningForest/LabelPropagation/SpanningForest.h:150-153 | for every member u of the new frontier, PrevParents[u] becomes Parents[u] and changed[u] becomes unemitted; other cells are kept |
| LabelPropagation.OutputFrontier | benchmarks/SpanningForest/LabelPropagation/SpanningForest.h:135 | edgeMap's output as a sparse vertex set whose members are the listed vertices |
| LabelPropagation.NextFrontier | benchmarks/SpanningForest/LabelPropagation/SpanningForest.h:139-147 | the next frontier is edgeMap's output plus the current frontier's need_emit vertices |
| LabelPropagation.RelaxPass | benchmarks/SpanningForest/LabelPropagation/SpanningForest.h:135 | the first pass from a round start: Parents becomes RelaxAll's labels, and the pass invariant holds |
| LabelPropagation.WitnessPass | benchmarks/SpanningForest/LabelPropagation/SpanningForest.h:137 | the second pass: Edges becomes WitnessAll of its old contents; every vertex an edge offered its current label has a slot recording such an edge, every other slot is kept; filled slots stay filled and stay graph edges touching their vertex |
| LabelPropagation.RoundPasses | benchmarks/SpanningForest/LabelPropagation/SpanningForest.h:133-147 | both passes and the frontier update: the pass invariant; every vertex whose label dropped has a slot recording the frontier edge that delivered its new label; filled slots stay filled and sound; the next frontier's members |
| LabelPropagation.RoundCloses | benchmarks/SpanningForest/LabelPropagation/SpanningForest.h:131-155 | after the reset, the round-start invariant holds again for the next frontier, labels only went down, next-frontier labels strictly dropped, and every label outside the next frontier is unchanged |
| LabelPropagation.Round | benchmarks/SpanningForest/LabelPropagation/SpanningForest.h:131-155 | one loop iteration restores the round-start invariant on the new frontier; labels only go down, strictly for every vertex of the new frontier, and a vertex outside it keeps its label (so the new frontier is exactly the vertices whose label dropped); every vertex whose label dropped has a slot recording the frontier edge that delivered its new label; filled slots stay filled |
| LabelPropagation.InitialFrontier | benchmarks/SpanningForest/LabelPropagation/SpanningForest.h:114-123 | without sampling every vertex is in the initial frontier; with frequent_comp, exactly the vertices whose label differs from it |
| LabelPropagation.InitialDisagreeing | benchmarks/SpanningForest/LabelPropagation/SpanningForest.h:114-123 | every edge whose ends disagree initially has an end in the initial frontier |
| LabelPropagation.RoundProgress | benchmarks/SpanningForest/LabelPropagation/SpanningForest.h:131 | the sum of label ranks never grows over a round, and it strictly drops whenever the next frontier is non-empty |
| LabelPropagation.Settled | benchmarks/SpanningForest/LabelPropagation/SpanningForest.h:131 | when the frontier is empty, both ends of every graph edge carry the same label |
| LabelPropagation.RunRounds | benchmarks/SpanningForest/LabelPropagation/SpanningForest.h:131-155 | the while loop terminates; afterwards the ends of every edge agree, every label is one of the initial labels and no larger under lp_less, every filled slot is a graph edge touching its vertex, and every vertex whose label changed has a filled slot |
| LabelPropagation.ComputeSpanningForest | benchmarks/SpanningForest/LabelPropagation/SpanningForest.h:110-158 | compute_spanning_forest without sampling or with frequent_comp: on return every graph edge joins equally labelled vertices, labels only went down, filled slots hold graph edges touching their vertex, and every vertex whose label changed has a filled slot |
| LabelPropagation.ClaimedEdges | benchmarks/SpanningForest/LabelPropagation/SpanningForest.h:174-176 | the filter keeps exactly the non-empty slots, so at most one edge per vertex |
| LabelPropagation.SpanningForest | benchmarks/SpanningForest/LabelPropagation/SpanningForest.h:162-177 | from identity (or permuted) labels and all-empty slots, it returns exactly the filled slots' edges in vertex order (at most n, each a graph edge touching its slot's vertex); the final labels agree across every graph edge and are lowered from the starting ones; every vertex whose label changed contributed an edge |
| ConnectivityCheck.SumMarks | benchmarks/Connectivity/Framework/mains/check.h:8-16 | the prefix sum of the marks below k is the number of distinct labels below k |
| ConnectivityCheck.ScanAddInPlace | benchmarks/Connectivity/Framework/mains/check.h:14 | scan_add_inplace: every cell becomes the sum of the cells before it; the total is returned |
| ConnectivityCheck.MarkLabels | benchmarks/Connectivity/Framework/mains/check.h:8-13 | flags[x] is 1 exactly when some label is x |
| ConnectivityCheck.NumCC | benchmarks/Connectivity/Framework/mains/check.h:6-17 | num_cc is the number of distinct labels below n, which is the number of distinct labels when all are below n |
| ConnectivityCheck.CountOccurs | benchmarks/Connectivity/Framework/mains/check.h:24-26 | a label's count is positive exactly when it occurs |
| ConnectivityCheck.Histogram | benchmarks/Connectivity/Framework/mains/check.h:23-26 | flags[x] counts the positions labelled x |
| ConnectivityCheck.LargestCC | benchmarks/Connectivity/Framework/mains/check.h:20-30 | largest_cc is the largest number of positions sharing a label: no label has more, some label has exactly that many, and it is positive when n > 0 |
| ConnectivityCheck.RelabelRunInv | benchmarks/Connectivity/Framework/mains/check.h:36-46 | RelabelDet's loop keeps its invariant: a map entry is non-zero exactly for labels seen after position 0, positions after 0 hold their label's entry, entries are distinct and below cur_comp, and ids are bounded by their position |
| ConnectivityCheck.RelabelStepInv | benchmarks/Connectivity/Framework/mains/check.h:39-46 | one iteration of RelabelDet keeps that invariant |
| ConnectivityCheck.AssignDet | benchmarks/Connectivity/Framework/mains/check.h:39-46 | the loop body on component_map and cur_comp is one step of RelabelDet's specification |
| ConnectivityCheck.RelabelDet | benchmarks/Connectivity/Framework/mains/check.h:33-48 | the array is rewritten in place to RelabelDetOf of its old contents |
| ConnectivityCheck.RelabelDetBounds | benchmarks/Connectivity/Framework/mains/check.h:37-46 | out[0] == 0, no later position gets 0, and out[i] <= i |
| ConnectivityCheck.RelabelDetPartition | benchmarks/Connectivity/Framework/mains/check.h:40-46 | away from position 0, two positions get the same id exactly when they had the same label |
| ConnectivityCheck.RelabelRunRenaming | benchmarks/Connectivity/Framework/mains/check.h:39-46 | the loop looks at labels only through equality: inputs with the same partition give the same cur_comp, ids and entries |
| ConnectivityCheck.RelabelDetRenaming | benchmarks/Connectivity/Framework/mains/check.h:39-46 | inputs related by an injective renaming (the same partition) get identical ids |
| ConnectivityCheck.RelabelDetQuirk | benchmarks/Connectivity/Framework/mains/check.h:36-46 | [5,5,5,2,2,2] becomes [0,1,1,2,2,2] |
| ConnectivityCheck.RelabelDetMerges | benchmarks/Connectivity/Framework/mains/check.h:36-46 | [1,1] and [1,0] both become [0,1], although they put vertices 0 and 1 in different partitions |
| ConnectivityCheck.CanonRunInv | benchmarks/Connectivity/Framework/mains/check.h:36-46 | the corrected loop keeps its invariant: an entry is set exactly for seen labels, every position holds its label's entry, set entries are distinct and below cur_comp |
| ConnectivityCheck.CanonStepInv | benchmarks/Connectivity/Framework/mains/check.h:39-46 | one iteration of the corrected loop keeps its invariant |
| ConnectivityCheck.AssignCanon | benchmarks/Connectivity/Framework/mains/check.h:39-46 | the corrected loop body is one step of the corrected specification |
| ConnectivityCheck.RelabelCanonical | benchmarks/Connectivity/Framework/mains/check.h:33-48 | the corrected loop rewrites the array in place to CanonOf of its old contents |
| ConnectivityCheck.CanonPartition | benchmarks/Connectivity/Framework/mains/check.h:33-48 | the corrected relabelling has the same partition as its input at every position, starts at 0 and never exceeds the position |
| ConnectivityCheck.CanonRunRenaming | benchmarks/Connectivity/Framework/mains/check.h:39-46 | the corrected loop depends on the partition only |
| ConnectivityCheck.CanonDecides | benchmarks/Connectivity/Framework/mains/check.h:33-48 | two labellings get the same corrected ids exactly when they have the same partition |
| ConnectivityCheck.CompareLabels | benchmarks/Connectivity/Framework/mains/check.h:57-70 | it reports the first differing position, with both values, or agreement exactly when all positions agree, with max_cor and max_chk the maxima |
| ConnectivityCheck.CcCheck | benchmarks/Connectivity/Framework/mains/check.h:51-74 | check is replaced by its RelabelDet relabelling; it aborts at a differing position or completes exactly when all positions agree, reporting both maxima |
| ConnectivityCheck.CcCheckCanonical | benchmarks/Connectivity/Framework/mains/check.h:51-74 | cc_check over the corrected relabelling; when correct is already in first-seen form it accepts exactly when both labellings have the same partition |

## Left out

- Parallelism: `par_for`/`parallel_for` run sequentially. `write_min`'s
  compare-and-swap retry loop and `atomic_compare_and_swap` are each one
  atomic step on one cell. Interleavings are not modelled. The first pass's
  order independence (`RelaxAllOrderIndependent`) is the property that makes
  the per-cell result independent of the schedule.
- edgeMap's engine (sparse/dense selection, `dense_forward`, `no_output`) is
  external. It is modelled as applying the functor to the graph edges whose
  source is in the frontier, in graph order (`FrontierEdges`), and
  collecting the targets for which it returned true.
- I/O and aborts: `std::cout` logging is left out. The round and
  vertex counters of `compute_spanning_forest` are left out because only
  that logging uses them. The `abort()` in `toSparse` is shown unreachable under
  the representation invariant. cc_check's abort is the `Mismatch`
  result.
- Integer width: `uintE`, `parent` and `size_t` are unbounded naturals.
  Wrap-around of `cur_comp` and of the counts is not modelled. size_t max
  appears only as the degree-cache sentinel `SizeTMax`.
- `spanning_forest::largest_comp` is the parameter `lc`, because
  benchmarks/SpanningForest/common.h is not part of this model.
- `pbbs::random_permutation` is not modelled as a random process. With
  `use_permutation`, `SpanningForest` takes the initial labels as a given
  permutation of `0..n`.
- Memory management is left out: move constructors and assignment,
  `new_array_no_init`/`free_array`, the `std::function` plumbing of
  `get_fn_repr` (modelled as the function `FnRepr`), `granularity`
  parameters, and `numRows`/`numNonzeros`/`vtxAndData` (aliases of
  modelled accessors).
- VertexSubsets.VertexSubsetData.FromDenseCount: requires that the given count
  equals the number of present cells. The source's comment says the count
  *is* that number, and the set would be inconsistent otherwise.
- VertexSubsets.VertexSubsetData.FromSparse: requires the ids of the sparse
  list to be distinct (part of `Valid()`). The source accepts any array;
  with a repeated id its `m` overcounts the members and `vertexMap` calls
  `f` twice for that id. Every caller in the modelled core passes distinct
  ids.
- VertexSubsets.VertexSubsetData.FromSparseCount: the same distinctness
  requirement on the first m ids, for the same reason.
- VertexSubsets.AddToVsubset: the source only declares this function
  (gbbs/vertex_subset.h:497); its body is not part of this model. It is
  modelled as its use in the round loop implies: it appends ids that are new
  and distinct to a sparse set that has no dense form. Its callers
  establish these conditions.
- LabelPropagation.SpanningForest: the contract ties the result to the final
  slots and labels, but does not state that the edges form a spanning forest
  (acyclic, one tree per component). Per round,
  each vertex whose label dropped is proved to record the edge that
  delivered its new label (`WitnessAfterRelax`, `RoundPasses`), and each
  vertex whose label changed ends with a filled slot (`RunRounds`). Turning
  these into acyclicity needs an argument across rounds that is not proved
  here.
- The connectivity framework's sampling phase, which chooses
  `frequent_comp` and the initial labels, is not part of this model.
  Sampling is modelled only as the initial frontier it produces (the
  vertices not labelled `frequent_comp`). No assumption about the sampling
  phase is needed for `ComputeSpanningForest`'s postconditions:
  `InitialDisagreeing` proves that an edge whose ends disagree cannot have
  both ends labelled `frequent_comp`.
- ConnectivityCheck.NumCC: a label equal to n is marked in `flags[n]`, but
  the exclusive scan leaves that cell out. So the result counts the
  distinct labels below n, which is the number of distinct labels only
  when every label is below n. The contract states both.

## Findings

| source | as written | input that shows it | evidently intended | confidence | as-written member | corrected member |
|---|---|---|---|---|---|---|
| benchmarks/Connectivity/Framework/mains/check.h:36-46 | `component_map[comp] == 0` marks an unseen label, but the first label's id is also 0, so its entry still reads as unseen and its later occurrences get a fresh id | `[5,5,5,2,2,2]` becomes `[0,1,1,2,2,2]`; `[1,1]` and `[1,0]` both become `[0,1]`, so cc_check cannot tell vertex 0 joined to vertex 1 from vertex 0 apart from it | first-seen renumbering to `0..k-1` with a separate "unseen" marker: `[5,5,5,2,2,2]` becomes `[0,0,0,1,1,1]` and equal ids mean equal partitions | not executed; high (a two-element input exhibits it) | ConnectivityCheck.RelabelDetMerges | ConnectivityCheck.CanonDecides |

`CcCheck` keeps the as-written `RelabelDet`, because it models cc_check as
the code does it. `CcCheckCanonical` is cc_check over the corrected
relabelling (`RelabelCanonical`, with `Option`-valued map entries). Its
contract proves the evidently intended acceptance condition.
