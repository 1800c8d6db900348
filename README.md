# pubmed-temporal: node-index reconciliation and time-window snapshots

This project models two parts of the pubmed-temporal dataset builder in Dafny and proves properties of them.

**The node-index reconciler** (`get_planetoid_index_map` and `arrays_equal`). It matches every node of the rebuilt PubMed graph, in its original order, to the node of the Planetoid benchmark that has an identical feature vector. It works in four steps:
- Candidate matching, done either sequentially or by a chunked worker pool.
- Ties are broken by comparing neighbour counts.
- Two checks run: every node must be left with exactly one candidate, and each matched pair of vectors must be equal.
- The result is flattened and kept in a cache that is consulted first.

**The small pure helpers of the same build step.** These are the temporal train/validation/test masks, edge times taken from the source node, the relabelling of classes onto Planetoid's, and reading a year out of a metadata date.

**The time-window `snapshot` filter.** It works on a graph data object in place:
- It keeps the node-level or edge-level items whose time lies in `[start_time, end_time]`.
- With `filter_all`, it also keeps the items of the other level that are still connected to them.
- It updates a stored node count.

Files:
- `outcomes.dfy`: `Option` and `Result`.
- `positions.dfy`: ascending index lists, positions where a test holds, and counting a boolean mask.
- `index_map.dfy`: the reconciler (module `IndexMap`).
- `temporal.dfy`: the pure helpers (module `Temporal`).
- `snapshot.dfy`: the data object as a class, and the snapshot (module `Snapshot`).

How the source is represented:
- **Feature vectors** are sequences over any type with equality, because the code only ever compares them for exact equality.
- **Neighbour counts** are total functions from a node's position to a natural number, one function for each graph.
- **The cache file** becomes an `Option<seq<nat>>` passed in. The method returns the cache's new content next to its result.
- **The data object** is a class `Data` with these fields, which the methods reassign:
  - a map from node-attribute names to value sequences;
  - a map from edge-attribute names to value sequences;
  - the edge list as a sequence of pairs;
  - an optional stored node count.

`get_planetoid_index_map` never checks that the map is injective (`src/pubmed_temporal/build.py`, lines 289-296), so the model does not promise injectivity. `IndexMap.InjectiveUnderCorrespondence` proves it only under an injective, degree-preserving correspondence.

Behaviours the model states as the code has them:
- An empty source fails the "number of matches differ" check, because the set of lengths is then empty rather than `{1}`.
- A whitespace-only date makes the year extraction fail. `str.split()` returns an empty list, so `[0]` raises. The model calls this outcome `BlankDate`.
- The snapshot never renumbers `edge_index`.
  - In the node branch with `filter_all`, kept edges therefore keep their original endpoint numbers.
  - In the edge branch, the node mask has `num_nodes` positions. It is built from the endpoint numbers of the surviving edges.

## Model

| member | source | states |
|---|---|---|
| IndexMap.ArraysEqual | src/pubmed_temporal/build.py:480-487 | the result holds exactly the row positions equal to the query vector, in ascending order and without duplicates |
| IndexMap.Candidates | src/pubmed_temporal/build.py:265 | one candidate list per source row, in source order; list i holds exactly the reference positions whose row equals source row i, ascending |
| IndexMap.MatchSequential | src/pubmed_temporal/build.py:261-265 | the loop that appends one scan per source row produces exactly the candidate lists |
| IndexMap.ChunkSize | src/pubmed_temporal/build.py:268 | the worker chunk size is at least 1; it is 1 or fits `workers + 2` times into the row count; it never exceeds a non-zero row count |
| IndexMap.ChunkedCandidates | src/pubmed_temporal/build.py:267-281 | the worker pool's result, chunk by chunk: one entry per source row, and entry i is the scan of source row i, whatever the chunk size |
| IndexMap.ParallelCandidates | src/pubmed_temporal/build.py:267-281 | the parallel branch with its derived chunk size: one entry per source row, entry i the scan of source row i |
| IndexMap.ChunkedAgrees | src/pubmed_temporal/build.py:267-281 | matching in consecutive chunks of any size at least 1 and concatenating the results gives the sequential candidate lists |
| IndexMap.ParallelAgrees | src/pubmed_temporal/build.py:261-281 | the parallel branch, with its derived chunk size, gives the same candidate lists as the sequential branch |
| IndexMap.KeepDegree | src/pubmed_temporal/build.py:286-287 | keeps exactly the candidates whose neighbour count equals the given one and never grows the list; an ascending list (every list the matcher produces) stays ascending, so the kept candidates keep their order |
| IndexMap.AmbiguousPositions | src/pubmed_temporal/build.py:284 | exactly the source positions with more than one candidate, ascending |
| IndexMap.Disambiguated | src/pubmed_temporal/build.py:284-287 | lists with 0 or 1 candidates are unchanged; a longer list keeps exactly the candidates whose neighbour count equals the source node's; ascending order is preserved |
| IndexMap.Disambiguate | src/pubmed_temporal/build.py:284-287 | the pass over the ambiguous positions computes exactly the disambiguated lists |
| IndexMap.DisambiguatedWithin | src/pubmed_temporal/build.py:261-287 | every candidate left after matching and disambiguation is a valid reference position |
| IndexMap.LengthSet | src/pubmed_temporal/build.py:289 | the set of candidate-list lengths: every list's length is in it, and every member is some list's length |
| IndexMap.LengthSetIsOne | src/pubmed_temporal/build.py:289-290 | the set of list lengths equals {1} exactly when there is at least one list and every list has one element |
| IndexMap.Flatten | src/pubmed_temporal/build.py:296 | when every list has one element, the flattened map has one entry per list and entry i is list i's element |
| IndexMap.Validate | src/pubmed_temporal/build.py:289-296 | fails with "match counts differ" exactly when there are no lists or some list does not have one element; fails with "weight vectors differ" exactly when the counts pass and some matched pair differs; on success the map pairs every source row with an equal reference row |
| IndexMap.Reconcile | src/pubmed_temporal/build.py:261-296 | on success the map has one entry per source node, each entry is a reference position, and the paired rows are equal; an empty source always fails the count check |
| IndexMap.NeverWeightMismatch | src/pubmed_temporal/build.py:292-293 | after exact matching, the vector-equality check can never be the one that fails |
| IndexMap.FatalOnAmbiguity | src/pubmed_temporal/build.py:284-290 | two reference nodes with the same row and neighbour count as one source node make reconciliation fail the count check |
| IndexMap.CorrespondentSurvives | src/pubmed_temporal/build.py:261-287 | a reference node with the same row and neighbour count as a source node is among that node's candidates after disambiguation |
| IndexMap.RecoversCorrespondence | src/pubmed_temporal/build.py:284-296 | if a correspondence pairing each source node with a reference node of equal row and neighbour count exists, a successful reconciliation returns exactly it |
| IndexMap.InjectiveUnderCorrespondence | src/pubmed_temporal/build.py:289-296 | the map is injective when such a correspondence exists and is injective itself |
| IndexMap.GetPlanetoidIndexMap | src/pubmed_temporal/build.py:243-305 | a cached map is returned as it is and the cache stays unchanged; otherwise the result is the reconciliation, whichever branch computed it, and the stored value equals the returned map (nothing is stored on failure) |
| IndexMap.ExampleCandidates | src/pubmed_temporal/build.py:261-265 | source rows [1,0],[1,0],[0,1] against reference rows [0,1],[1,0],[1,0] give candidates [1,2],[1,2],[0] |
| IndexMap.ExampleDisambiguated | src/pubmed_temporal/build.py:284-287 | source neighbour counts 2,3,1 and reference neighbour counts 1,3,2 reduce those lists to [2],[1],[0] |
| IndexMap.ExampleValidated | src/pubmed_temporal/build.py:289-296 | those single matches pass both checks and flatten to [2,1,0] |
| IndexMap.WorkedExample | src/pubmed_temporal/build.py:261-296 | the whole reconciliation of the example yields [2,1,0] |
| Temporal.TrainMask | src/pubmed_temporal/build.py:78 | one flag per item, set exactly when the time step is below 37 |
| Temporal.ValMask | src/pubmed_temporal/build.py:79 | one flag per item, set exactly when the time step is between 37 and 40 inclusive |
| Temporal.TestMask | src/pubmed_temporal/build.py:80 | one flag per item, set exactly when the time step is above 40 |
| Temporal.MasksPartition | src/pubmed_temporal/build.py:78-80 | every item is in exactly one of the three sets |
| Temporal.SplitSizes | src/pubmed_temporal/build.py:78-80 | the three set sizes add up to the number of items |
| Temporal.EdgeTimes | src/pubmed_temporal/build.py:162 | every edge, and only edges, get a time, and that time is the time of the edge's source node |
| Temporal.EdgeTimesFromSources | src/pubmed_temporal/build.py:162 | edges leaving the same node share a time, and every edge time is some node's time |
| Temporal.RelabelClass | src/pubmed_temporal/build.py:156 | labels 1, 2 and 3 (and only those) get a new label, which lies in 0..2 |
| Temporal.RelabelBijective | src/pubmed_temporal/build.py:156 | the relabelling is one-to-one from {1,2,3} onto {0,1,2} |
| Temporal.ExtractYear | src/pubmed_temporal/build.py:451-455 | no year exactly for a missing or empty date; a failure exactly for a whitespace-only date; a year never holds whitespace or a colon |
| Temporal.FirstWordYear | src/pubmed_temporal/build.py:452 | the first whitespace-separated word of a year followed by an end, a whitespace or a colon, cut at its first colon, is that year |
| Temporal.YearOfDate | src/pubmed_temporal/build.py:451-455 | leading whitespace, then a word free of whitespace and colons, then an end, a whitespace or a colon, yields that word; the word may be empty when a colon follows directly, so a first word starting with ':' gives the empty year |
| Snapshot.Masked | src/pubmed_temporal/snapshot.py:39 | filtering by a mask keeps as many items as the mask has set positions |
| Snapshot.MaskedKeepsOrder | src/pubmed_temporal/snapshot.py:39 | the j-th kept item is the item at the mask's j-th set position, so relative order is preserved |
| Snapshot.WindowMask | src/pubmed_temporal/snapshot.py:32 | one flag per item, set exactly when start_time <= time <= end_time |
| Snapshot.WindowSelects | src/pubmed_temporal/snapshot.py:31-39 | the kept times are exactly those inside the inclusive window, in original order |
| Snapshot.MaskEach | src/pubmed_temporal/snapshot.py:34-39 | every attribute of the level is filtered by the same mask, so the names are kept and all new lengths are equal to the mask's count |
| Snapshot.TouchingMask | src/pubmed_temporal/snapshot.py:47-51 | an edge is selected exactly when one of its endpoints is a kept node |
| Snapshot.KeptEdgesTouch | src/pubmed_temporal/snapshot.py:47-58 | every kept edge touches a kept node, and every dropped edge touches none |
| Snapshot.Flat | src/pubmed_temporal/snapshot.py:54 | the flattened edge list has twice as many entries as edges: first every source, then every target, in edge order |
| Snapshot.Endpoints | src/pubmed_temporal/snapshot.py:54 | exactly the nodes that are the source or the target of some edge |
| Snapshot.MembershipMask | src/pubmed_temporal/snapshot.py:55-56 | a mask of the given length set exactly at the members of the given set |
| Snapshot.CountMembership | src/pubmed_temporal/snapshot.py:55-61 | that mask has as many set positions as the set has members |
| Snapshot.EndpointBound | src/pubmed_temporal/snapshot.py:55 | the node count inferred from the edges alone bounds every endpoint and is attained by one when there are edges |
| Snapshot.Data.SelectNodes | src/pubmed_temporal/snapshot.py:39 | every node attribute is filtered by the mask, and nothing else changes |
| Snapshot.Data.SelectEdges | src/pubmed_temporal/snapshot.py:39 | every edge attribute and the edge list are filtered by the mask, and nothing else changes |
| Snapshot.Data.NumNodes | src/pubmed_temporal/snapshot.py:55 | the stored count if there is one, else the node attributes' common length, else the count inferred from the edges |
| Snapshot.Data.KeepEndpointNodes | src/pubmed_temporal/snapshot.py:52-61 | node attributes keep exactly the endpoints of the current edges; a stored node count becomes their number; edges are unchanged; attribute lengths stay consistent |
| Snapshot.NodeSnapshot | src/pubmed_temporal/snapshot.py:34-51 | nodes are filtered by the window; a stored count becomes the kept count; edges are filtered by whether they touch kept nodes with `filter_all` and left unchanged without it; attribute lengths stay consistent |
| Snapshot.EdgeSnapshot | src/pubmed_temporal/snapshot.py:36-61 | edges and the edge list are filtered by the window; with `filter_all`, nodes are reduced to the endpoints of surviving edges and a stored count becomes their number; without it nodes are unchanged |
| Snapshot.Snapshot | src/pubmed_temporal/snapshot.py:9-63 | returns the very object given; an absent attribute changes nothing; a node-level or edge-level attribute filters as above, with the node level taking precedence; attribute lengths stay consistent |

## Left out

- Downloading, scraping the metadata, reading the raw archives, building the graphs with networkx and PyG, `verify_data`, saving the dataset, and `factorize`: these are I/O or foreign library code.
- The cache file's gzip and JSON encoding, and where it lives: the cache is the abstract slot passed in and returned.
- Worker processes, progress bars and scheduling order: only the reassembled, order-preserving result of the pool is modelled.
- IndexMap.GetPlanetoidIndexMap: `max_workers` is a natural number; `None` and 0 are both taken as sequential, and a negative count is not modelled.
- IndexMap.GetPlanetoidIndexMap: idempotence across two calls follows from its contract (a second call with the stored map returns it), but it is not stated as a separate lemma.
- Feature vectors of floating-point numbers: the element type is abstract and compared only for equality, so NaN inequality is not modelled.
- Temporal.ExtractYear: the whitespace set is Python's `str.split()` set as a fixed list of code points; reading the dictionary of all entries is the caller's map over this function.
- Temporal.RelabelClass: labels are integers; the pandas column's dtype is not modelled.
- Snapshot.Snapshot: `attr` given as a tensor, an attribute that is neither node- nor edge-level (the source then fails on an unbound variable), and `edge_index` or `num_nodes` used as the time attribute are not modelled; such an attribute counts as absent.
- Snapshot.Snapshot: attribute values are one integer per item; multi-column attributes, float times and PyG's attribute-level detection by shape are not modelled.
- Snapshot.Snapshot: in the edge branch with `filter_all`, the model requires that the surviving edges' endpoints are valid node positions; the source would raise an index error otherwise.
- Snapshot.Snapshot: the source asks again whether `attr` is node-level or edge-level after the first filtering; the model decides the level once, on entry, and does not model PyG's answer changing after the attribute lengths have changed.
- Snapshot.EndpointBound: PyG infers a node count with a warning when nothing else gives it; the model takes one more than the largest endpoint, or 0 without edges.
- `extra/build_extra.py` and `build_dataset.py` are callers, not part of this model.
