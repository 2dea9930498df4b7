# Janus clustering: neighbour ingestion, distance matrix and video segments

This project models the deterministic core of `janus_clustering.py`, a tool that cuts a video into
segments. It embeds sampled frames, asks a vector store for each frame's nearest neighbours,
clusters the frames with a density clustering over the neighbour distances, and exports one segment
per cluster. The model covers the data handling around the external services:

- **Ingestion** (`neighbors.dfy`, module `Neighbors`). The loop in `JanusClustering.cluster` drains
  the store's query iterator batch by batch. It extends `ids` with each batch's ids and records, for
  every queried id, the hits of its nearest-neighbour search. An entry is reset and then appended
  to, in search order. The loop stops at the first empty batch.
- **Distance matrix** (`distance_matrix.dfy`, module `DistanceMatrix`). This covers `ids2index`, the
  `N × N` matrix filled with `inf` (an `array2` of `Cell = Inf | Fin(d)`), and the nested loop that
  writes each directed hit into its cell in place. A neighbour id without an index raises a
  `KeyError`; the model returns that id, and the matrix it also returns then has no stated
  contents.
- **Cluster count and segments** (`segmentation.dfy`, module `Segmentation`). This covers the count
  in the "Clustering complete" message and, in `main`, the `cluster_groups` loop (label → ascending
  positions, keys in first-occurrence order). It also covers the export loop, which skips noise
  (`-1`) and gives each other group its first and last frame's timestamps.
- **Shared helpers** (`collections.dfy`, module `Collections`). These are `Option` and a few
  sequence functions. The most important is `Dedup`, the first occurrences of a sequence in order.
  It is the iteration order of a Python dict filled by walking that sequence; the models carry that
  order explicitly as a sequence of keys.

Behaviour of the code that a reader might not expect:

- The code groups by label only. A label whose frames lie in separate stretches of time gives ONE
  group and ONE segment, spanning from its first to its last frame. It does not give one segment
  per contiguous run (`SplitClusterIsOneGroup`, `SplitClusterIsOneSegment`).
- An id queried again is not rejected. Its `dist` entry is replaced by the later hits
  (`ResultsOfLastQuery`), and `ids2index` maps a repeated id to its last position (`IndexOf`).
- Segments come in the order of their labels' first frames, not sorted by start time. The two
  orders agree when the timestamps are non-decreasing (`ExportedSegmentsInStartOrder`).
- The modelled stages do not fail on an empty population: ingestion gives no ids, the fill gives a
  0 × 0 matrix, and grouping and export give no segments.
- The reported cluster count is not the number of distinct non-noise labels (see Findings).

## Model

| member | source | states |
|---|---|---|
| Neighbors.Consumed | janus_clustering.py:140-143 | the loop consumes exactly the batches before the first empty one: all of them are non-empty, and the next one, if any, is empty |
| Neighbors.ResultsOf | janus_clustering.py:160-163 | the keys of `dist` are exactly the ids queried so far |
| Neighbors.ResultsOfLastQuery | janus_clustering.py:160-163 | each queried id maps to exactly the hits of its last query, in search order; earlier hits of a re-queried id are discarded, not extended |
| Neighbors.RecordResults | janus_clustering.py:161-163 | resetting the entry and appending the hits one by one leaves the entry equal to the whole hit list and changes no other entry |
| Neighbors.Ingest | janus_clustering.py:140-166 | `ids` is the concatenation of the consumed batches' ids in batch order; `dist` is the last-query map of those queries; `keys` is the dict's insertion order (first occurrences of `ids`) |
| Collections.Dedup | janus_clustering.py:160-161 | the dict's key order has no repetitions and holds exactly the inserted keys |
| Collections.DedupFirstOccurrenceOrder | janus_clustering.py:243-250 | dict keys iterate in the order of their first insertion |
| DistanceMatrix.IndexOf | janus_clustering.py:170 | `ids2index` has exactly the ids as keys; each maps to a position holding it, and no later position holds it (a repeated id maps to its last position) |
| DistanceMatrix.IndexOfInvertsIds | janus_clustering.py:170 | without repeated ids, `ids2index` is a bijection onto `0..N-1` with `ids2index[ids[k]] == k` |
| DistanceMatrix.LastDistanceTo | janus_clustering.py:174-175 | a row cell stays `Inf` iff no hit names its column's id; otherwise it holds the distance of the last such hit (later hits overwrite) |
| DistanceMatrix.CellSetIffEdge | janus_clustering.py:171-175 | a cell holds a distance iff some hit goes from the id indexed by its row to the id indexed by its column; every other cell keeps the `inf` sentinel |
| DistanceMatrix.EdgeSetsCell | janus_clustering.py:173-175 | for each hit `(src, dst, d)` not overwritten later, cell `[index(src)][index(dst)]` is `d` |
| DistanceMatrix.UnknownIn | janus_clustering.py:174-175 | the first neighbour id of a hit list that has no index; none iff every neighbour is an ingested id |
| DistanceMatrix.FirstUnknown | janus_clustering.py:173-175 | the id whose lookup raises the `KeyError`, in dict order then search order; none iff every neighbour of every entry is an ingested id |
| DistanceMatrix.FirstUnknownCoversDict | janus_clustering.py:173-175 | walking every key of `dist`, the fill fails iff some hit of some entry names an id that has no index |
| DistanceMatrix.FillRow | janus_clustering.py:174-175 | the inner loop stops at the first unknown neighbour; otherwise it leaves its row equal to the expected row; it never touches another row |
| DistanceMatrix.BuildMatrix | janus_clustering.py:171-175 | the matrix is `N × N`; the fill fails exactly with the first unknown neighbour; otherwise every cell is the expected cell |
| DistanceMatrix.PrecomputedDistances | janus_clustering.py:140-175 | ingestion then fill: the `KeyError` happens iff some recorded hit names an id that was not ingested, and otherwise every cell is determined by the recorded hits |
| DistanceMatrix.FiveFrameEdgeIsDirected | janus_clustering.py:173-175 | in the five-frame example the edge 2→4 sets `[2][4]` to 0.3 while `[4][2]` stays `Inf` (no symmetrisation) |
| DistanceMatrix.FiveFrameRowOne | janus_clustering.py:173-175 | in the five-frame example row 1 has 0.1 in column 0 |
| DistanceMatrix.FiveFrameDiagonal | janus_clustering.py:171-175 | in the five-frame example `[0][0]` stays `Inf`: the diagonal is not forced to zero |
| Segmentation.PositionsExact | janus_clustering.py:243-247 | a group holds exactly the positions with its label, strictly ascending |
| Segmentation.PositionsStartAtFirstIndex | janus_clustering.py:243-247 | a present label's group is non-empty and starts at the label's first occurrence |
| Segmentation.PositionsAbsent | janus_clustering.py:243-247 | a label that does not occur has no positions |
| Segmentation.GroupedStep | janus_clustering.py:244-247 | appending position `i` to its label's group (created empty if new) keeps every group exact |
| Segmentation.GroupByLabel | janus_clustering.py:243-247 | `cluster_groups` has the labels as keys, in first-occurrence order, and maps each to its exact ascending positions |
| Segmentation.ClusterCount | janus_clustering.py:186 | the number of distinct labels other than noise |
| Segmentation.ReportedClusterCount | janus_clustering.py:186 | the printed count equals the cluster count when some frame is noise, and is one less otherwise |
| Segmentation.ReportedClusterCountWithoutNoise | janus_clustering.py:186 | labels `[0, 0, 1]` report 1 cluster while there are 2; no labels report -1 |
| Segmentation.ExportOrder | janus_clustering.py:250-252 | the exported labels are exactly the non-noise labels, each once, as many as the cluster count |
| Segmentation.ExportOrderFollowsFirstFrames | janus_clustering.py:250-252 | clusters are exported in the order of their first frame |
| Segmentation.EmitSegments | janus_clustering.py:250-256 | noise is skipped and each other group, in dict order, becomes a segment with the timestamps of its first and last frame; an index past the end of `timestamps` stops the loop and names that group |
| Segmentation.SegmentVideo | janus_clustering.py:243-256 | one segment per cluster in export order; the export fails exactly when fewer segments than clusters were made, and it cannot fail when there are at least as many timestamps as labels |
| Segmentation.SegmentShape | janus_clustering.py:255-256 | a segment holds exactly its cluster's frames in ascending order, starts at the timestamp of the cluster's first frame and ends at that of its last frame |
| Segmentation.SegmentSpansItsFrames | janus_clustering.py:255-256 | with non-decreasing timestamps, start ≤ end and the span contains the time of every frame of the cluster |
| Segmentation.ExportedSegmentsDisjoint | janus_clustering.py:243-256 | exported segments have distinct non-noise labels and pairwise disjoint frames, and their first frames ascend |
| Segmentation.ExportedSegmentsInStartOrder | janus_clustering.py:250-256 | with non-decreasing timestamps, segments come in order of start time |
| Segmentation.ExportedSegmentsCover | janus_clustering.py:243-256 | once every cluster is exported, every non-noise frame is in some segment |
| Segmentation.FiveFrameGroupOrder | janus_clustering.py:243-247 | labels `[0, 0, -1, 1, 1]` give the group keys 0, -1, 1 in that order |
| Segmentation.FiveFrameExportOrder | janus_clustering.py:250-252 | labels `[0, 0, -1, 1, 1]` export clusters 0 then 1 |
| Segmentation.FiveFrameFirstSegment | janus_clustering.py:243-256 | with timestamps equal to frame numbers, cluster 0's segment spans 0.0–1.0 with frames 0, 1 |
| Segmentation.FiveFrameSecondSegment | janus_clustering.py:243-256 | with timestamps equal to frame numbers, cluster 1's segment spans 3.0–4.0 with frames 3, 4, so the noise frame 2 is in no segment |
| Segmentation.SplitClusterIsOneGroup | janus_clustering.py:243-247 | labels `[5, -1, 5]` give one group `[0, 2]` for label 5 |
| Segmentation.SplitClusterIsOneSegment | janus_clustering.py:250-252 | labels `[5, -1, 5]` export a single cluster |

## Left out

- The vector store (connection, schema, insert, index, query iterator, search) is not part of this
  model. The iterator is a sequence of batches; a sequence that ends is read as an iterator that
  only returns empty batches from then on. Each query is paired with the hits its search returned.
- The search parameters (50 neighbours, L2 metric, `nprobe`) are not modelled. The hit lists are
  arbitrary inputs, of any length.
- The `embeddings` list and the progress message every 100 embeddings are not modelled. They do
  not affect `ids`, `dist` or the matrix.
- Frame embedding, the model-path dimension selection and the density clustering call are not
  part of this model. The labels are an arbitrary input sequence.
- UMAP and plotly visualisation, frame extraction, and the writing of segment videos are not part
  of this model. Timestamps are an input sequence, and position `i` of the labels is paired with
  `timestamps[i]`, as `main` does.
- Distances are copied and never computed, so they are `real` values. Float64 rounding and the
  `.1f` filename formatting are not modelled.
- All progress printing is not modelled. Of the final message, only its cluster count is.
- `Neighbors.Ingest`: the hits of one batch are read from the query batch itself, not from a
  separate search call indexed by position.
- `Segmentation.EmitSegments`: an `IndexError` on `timestamps` is a result, not an exception. The
  segments exported before it are kept and the failing label is returned.
- `DistanceMatrix.BuildMatrix`: a `KeyError` is a result. The partly filled matrix it returns
  then has no stated contents.

## Findings

| source | as written | input that shows it | evidently intended | confidence | as-written member | corrected member |
|---|---|---|---|---|---|---|
| janus_clustering.py:186 | the reported cluster count is the number of distinct labels minus one, which assumes that the noise label `-1` is always present | labels `[0, 0, 1]` (no noise) report 1 cluster while there are 2; an empty label array reports -1 | the number of distinct labels other than `-1` | not executed | Segmentation.ReportedClusterCountWithoutNoise | Segmentation.ClusterCount |
