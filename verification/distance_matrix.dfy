/**
 * The dense distance matrix handed to the precomputed-metric clustering
 * (`JanusClustering.cluster`, from `ids2index` to the end of the fill).
 *
 * Every cell starts unreachable and each directed search hit is written into
 * the cell of its (source, neighbour) pair. Nothing is symmetrised and the
 * diagonal is not forced to zero. A neighbour id that is not among the
 * ingested ids makes the `ids2index` lookup fail (a `KeyError`), which aborts
 * the whole operation; the model reports that id instead of a matrix.
 */
module DistanceMatrix {
  import opened Collections
  import opened Neighbors

  /** A matrix cell: `inf`, or a distance copied from a search hit. */
  datatype Cell = Inf | Fin(d: real)

  /**
   * `ids2index`, the dict comprehension over `enumerate(ids)`: every id maps
   * to a position holding it, and since later entries overwrite earlier ones,
   * a repeated id maps to its LAST position.
   */
  function IndexOf(ids: seq<Id>): (index: map<Id, nat>)
    ensures index.Keys == Elements(ids)
    ensures forall x :: x in index ==> index[x] < |ids| && ids[index[x]] == x
    ensures forall x :: x in index ==> forall k :: index[x] < k < |ids| ==> ids[k] != x
  {
    if ids == [] then map[]
    else
      var init, last := ids[..|ids| - 1], ids[|ids| - 1];
      assert ids == init + [last];
      ElementsSnoc(init, last);
      IndexOf(init)[last := |ids| - 1]
  }

  /** Without repeated ids, `ids2index` inverts `ids`: a bijection onto 0..N-1. */
  lemma IndexOfInvertsIds(ids: seq<Id>)
    requires NoDup(ids)
    ensures |IndexOf(ids)| == |ids|
    ensures forall k :: 0 <= k < |ids| ==> ids[k] in IndexOf(ids) && IndexOf(ids)[ids[k]] == k
  {
    NoDupCardinality(ids);
    var index := IndexOf(ids);
    forall k | 0 <= k < |ids|
      ensures ids[k] in index && index[ids[k]] == k
    {
      assert ids[k] in Elements(ids);
    }
  }

  /**
   * The distance that a list of hits gives to `target`: the distance of the
   * LAST hit naming it, since each hit overwrites the cell; `Inf` if none does.
   */
  function LastDistanceTo(hits: seq<Neighbor>, target: Id): (c: Cell)
    ensures c == Inf <==> forall k :: 0 <= k < |hits| ==> hits[k].id != target
    ensures forall k :: 0 <= k < |hits| && hits[k].id == target && (forall k' :: k < k' < |hits| ==> hits[k'].id != target) ==>
              c == Fin(hits[k].distance)
  {
    if hits == [] then Inf
    else
      var n := |hits| - 1;
      if hits[n].id == target then Fin(hits[n].distance)
      else
        var init := hits[..n];
        assert forall k :: 0 <= k < n ==> init[k] == hits[k];
        LastDistanceTo(init, target)
  }

  /**
   * Column `j` of the row filled from `hits`: a column is only ever written
   * through `ids2index`, so a column whose id maps elsewhere stays `Inf`.
   */
  function RowCell(ids: seq<Id>, hits: seq<Neighbor>, j: nat): Cell
    requires j < |ids|
  {
    assert ids[j] in Elements(ids);
    if IndexOf(ids)[ids[j]] == j then LastDistanceTo(hits, ids[j]) else Inf
  }

  /** The cell `[i][j]` that the fill leaves behind when no lookup fails. */
  function ExpectedCell(ids: seq<Id>, dist: map<Id, seq<Neighbor>>, i: nat, j: nat): Cell
    requires i < |ids| && j < |ids|
  {
    assert ids[i] in Elements(ids);
    if ids[i] in dist && IndexOf(ids)[ids[i]] == i then RowCell(ids, dist[ids[i]], j) else Inf
  }

  /**
   * The sentinel law: a cell holds a distance exactly when some hit of some
   * queried id goes from the id whose index is `i` to the id whose index is `j`.
   */
  lemma {:induction false} CellSetIffEdge(ids: seq<Id>, dist: map<Id, seq<Neighbor>>, i: nat, j: nat)
    requires i < |ids| && j < |ids|
    ensures ExpectedCell(ids, dist, i, j) != Inf <==>
              exists src, k :: src in dist && src in IndexOf(ids) && IndexOf(ids)[src] == i &&
                0 <= k < |dist[src]| && dist[src][k].id in IndexOf(ids) && IndexOf(ids)[dist[src][k].id] == j
  {
  }

  /**
   * The edge law: the hit `dist[src][k]`, when no later hit of `src` names the
   * same neighbour, is what the cell `[index(src)][index(neighbour)]` holds.
   */
  lemma EdgeSetsCell(ids: seq<Id>, dist: map<Id, seq<Neighbor>>, src: Id, k: nat)
    requires src in dist && src in ids
    requires k < |dist[src]| && dist[src][k].id in ids
    requires forall k' :: k < k' < |dist[src]| ==> dist[src][k'].id != dist[src][k].id
    ensures src in IndexOf(ids) && dist[src][k].id in IndexOf(ids)
    ensures ExpectedCell(ids, dist, IndexOf(ids)[src], IndexOf(ids)[dist[src][k].id]) == Fin(dist[src][k].distance)
  {
  }

  /** The first neighbour id of `hits`, in order, that is not an ingested id. */
  function UnknownIn(hits: seq<Neighbor>, ids: seq<Id>): (r: Option<Id>)
    ensures r == None <==> forall k :: 0 <= k < |hits| ==> hits[k].id in ids
    ensures r.Some? ==> exists k :: 0 <= k < |hits| && hits[k].id == r.value && hits[k].id !in ids &&
                                    (forall k' :: 0 <= k' < k ==> hits[k'].id in ids)
  {
    if hits == [] then None
    else if hits[0].id !in ids then Some(hits[0].id)
    else
      var r := UnknownIn(hits[1..], ids);
      assert r.Some? ==> forall k' :: 0 <= k' < 1 ==> hits[k'].id in ids;
      r
  }

  /**
   * The id whose lookup raises the `KeyError`: the first unknown neighbour
   * met while walking the dict in key order from the key at `from` on, and
   * each hit list in order. The whole walk starts at `from == 0`.
   */
  function FirstUnknown(keys: seq<Id>, dist: map<Id, seq<Neighbor>>, ids: seq<Id>, from: nat): (r: Option<Id>)
    requires from <= |keys| && forall t :: 0 <= t < |keys| ==> keys[t] in dist
    ensures r == None <==>
              forall t, k :: from <= t < |keys| && 0 <= k < |dist[keys[t]]| ==> dist[keys[t]][k].id in ids
    ensures r.Some? ==>
              && r.value !in ids
              && exists t :: from <= t < |keys| && UnknownIn(dist[keys[t]], ids) == r &&
                   (forall t' :: from <= t' < t ==> UnknownIn(dist[keys[t']], ids) == None)
    decreases |keys| - from
  {
    if from == |keys| then None
    else
      var r := UnknownIn(dist[keys[from]], ids);
      if r.Some? then r else FirstUnknown(keys, dist, ids, from + 1)
  }

  /**
   * When `keys` lists every key of `dist`, the fill fails exactly when some
   * hit of some entry names an id that has no index.
   */
  lemma FirstUnknownCoversDict(keys: seq<Id>, dist: map<Id, seq<Neighbor>>, ids: seq<Id>)
    requires forall t :: 0 <= t < |keys| ==> keys[t] in dist
    requires forall x :: x in dist ==> x in keys
    ensures FirstUnknown(keys, dist, ids, 0) == None <==>
              forall s, k :: s in dist && 0 <= k < |dist[s]| ==> dist[s][k].id in ids
  {
    if FirstUnknown(keys, dist, ids, 0) == None {
      forall s, k | s in dist && 0 <= k < |dist[s]|
        ensures dist[s][k].id in ids
      {
        var t :| 0 <= t < |keys| && keys[t] == s;
      }
    } else {
      var r := FirstUnknown(keys, dist, ids, 0);
      var t :| 0 <= t < |keys| && UnknownIn(dist[keys[t]], ids) == r;
      var src := keys[t];
      var k :| 0 <= k < |dist[src]| && dist[src][k].id !in ids;
      assert src in dist && 0 <= k < |dist[src]| && dist[src][k].id !in ids;
    }
  }

  /**
   * The inner fill loop for one queried id: writes each hit of `hits` into
   * row `r`, at the column `ids2index` gives its neighbour, stopping at the
   * first neighbour that has no index.
   */
  method FillRow(m: array2<Cell>, ids: seq<Id>, r: nat, hits: seq<Neighbor>) returns (missing: Option<Id>)
    requires m.Length0 == |ids| && m.Length1 == |ids| && r < |ids|
    requires forall j :: 0 <= j < |ids| ==> m[r, j] == Inf
    modifies m
    ensures missing == UnknownIn(hits, ids)
    ensures missing == None ==> forall j :: 0 <= j < |ids| ==> m[r, j] == RowCell(ids, hits, j)
    ensures forall i, j :: 0 <= i < |ids| && 0 <= j < |ids| && i != r ==> m[i, j] == old(m[i, j])
  {
    var index := IndexOf(ids);
    missing := None;
    for h := 0 to |hits|
      invariant UnknownIn(hits, ids) == UnknownIn(hits[h..], ids)
      invariant forall j :: 0 <= j < |ids| ==> m[r, j] == RowCell(ids, hits[..h], j)
      invariant forall i, j :: 0 <= i < |ids| && 0 <= j < |ids| && i != r ==> m[i, j] == old(m[i, j])
    {
      var dst := hits[h].id;
      assert hits[h..][1..] == hits[h + 1..];
      if dst !in index {
        missing := Some(dst);
        return;
      }
      assert hits[..h + 1][..h] == hits[..h];
      m[r, index[dst]] := Fin(hits[h].distance);
    }
    assert hits[..|hits|] == hits;
  }

  /**
   * `np.full((N, N), inf)` followed by the nested fill loop over the dict
   * (keys in insertion order, hits in search order). On success every cell is
   * the `ExpectedCell`; otherwise `missing` is the id whose lookup failed.
   */
  method BuildMatrix(ids: seq<Id>, keys: seq<Id>, dist: map<Id, seq<Neighbor>>)
    returns (m: array2<Cell>, missing: Option<Id>)
    requires forall x :: x in dist ==> x in ids
    requires NoDup(keys) && (forall t :: 0 <= t < |keys| ==> keys[t] in dist) && (forall x :: x in dist ==> x in keys)
    ensures fresh(m)
    ensures m.Length0 == |ids| && m.Length1 == |ids|
    ensures missing == FirstUnknown(keys, dist, ids, 0)
    ensures missing == None ==>
              forall i, j :: 0 <= i < |ids| && 0 <= j < |ids| ==> m[i, j] == ExpectedCell(ids, dist, i, j)
  {
    var n := |ids|;
    var index := IndexOf(ids);
    m := new Cell[n, n]((i, j) => Inf);
    missing := None;
    ghost var filled: set<Id> := {};
    for kk := 0 to |keys|
      invariant missing == None
      invariant FirstUnknown(keys, dist, ids, 0) == FirstUnknown(keys, dist, ids, kk)
      invariant forall t :: 0 <= t < kk ==> keys[t] in filled
      invariant forall t :: kk <= t < |keys| ==> keys[t] !in filled
      invariant filled <= dist.Keys
      invariant forall i, j :: 0 <= i < n && 0 <= j < n ==>
                  m[i, j] == if ids[i] in filled then ExpectedCell(ids, dist, i, j) else Inf
    {
      var src := keys[kk];
      assert src in Elements(ids);
      var r := index[src];
      missing := FillRow(m, ids, r, dist[src]);
      if missing.Some? {
        return;
      }
      forall i, j | 0 <= i < n && 0 <= j < n
        ensures m[i, j] == if ids[i] in filled + {src} then ExpectedCell(ids, dist, i, j) else Inf
      {
        assert ids[i] in Elements(ids);
      }
      filled := filled + {src};
    }
  }

  /**
   * The part of `JanusClustering.cluster` before the clustering call:
   * ingestion followed by the matrix fill.
   */
  method PrecomputedDistances(batches: seq<Batch>) returns (ids: seq<Id>, m: array2<Cell>, missing: Option<Id>)
    ensures ids == IdsOf(Concat(batches[..Consumed(batches)]))
    ensures m.Length0 == |ids| && m.Length1 == |ids|
    ensures var dist := ResultsOf(Concat(batches[..Consumed(batches)]));
            && (missing == None <==> forall s, k :: s in dist && 0 <= k < |dist[s]| ==> dist[s][k].id in ids)
            && (missing.Some? ==> missing.value !in ids)
            && (missing == None ==>
                  forall i, j :: 0 <= i < |ids| && 0 <= j < |ids| ==> m[i, j] == ExpectedCell(ids, dist, i, j))
  {
    var keys, dist;
    ids, keys, dist := Ingest(batches);
    assert forall x :: x in dist <==> x in Elements(ids);
    assert forall x :: x in keys <==> x in Elements(keys);
    m, missing := BuildMatrix(ids, keys, dist);
    FirstUnknownCoversDict(keys, dist, ids);
  }

  /** Five frames and their two nearest neighbours each, as directed edges. */
  const FiveIds: seq<Id> := [0, 1, 2, 3, 4]
  const FiveHits: map<Id, seq<Neighbor>> :=
    map[0 := [Neighbor(1, 0.1), Neighbor(2, 0.2)], 1 := [Neighbor(0, 0.1)],
        2 := [Neighbor(4, 0.3)], 3 := [Neighbor(4, 0.05)], 4 := [Neighbor(3, 0.05)]]

  /** The ids are distinct, so each id's index is its position. */
  lemma FiveIdsIndex()
    ensures forall k :: 0 <= k < 5 ==> FiveIds[k] in IndexOf(FiveIds) && IndexOf(FiveIds)[FiveIds[k]] == k
  {
    IndexOfInvertsIds(FiveIds);
  }

  /** The matrix is not symmetrised: the edge 2→4 is set, the cell for 4→2 stays `Inf`. */
  lemma FiveFrameEdgeIsDirected()
    ensures ExpectedCell(FiveIds, FiveHits, 2, 4) == Fin(0.3)
    ensures ExpectedCell(FiveIds, FiveHits, 4, 2) == Inf
  {
    FiveIdsIndex();
    assert FiveIds[2] == 2 && FiveIds[4] == 4;
    assert FiveHits[2] == [Neighbor(4, 0.3)] && FiveHits[4] == [Neighbor(3, 0.05)];
  }

  /** Row 1 has the distance 0.1 in column 0. */
  lemma FiveFrameRowOne()
    ensures ExpectedCell(FiveIds, FiveHits, 1, 0) == Fin(0.1)
  {
    var hits := FiveHits[1];
    assert hits == [Neighbor(0, 0.1)];
    assert LastDistanceTo(hits, 0) == Fin(0.1);
    FiveIdsIndex();
    assert IndexOf(FiveIds)[0] == 0 && IndexOf(FiveIds)[1] == 1 by {
      assert FiveIds[0] == 0 && FiveIds[1] == 1;
    }
  }

  /** The diagonal is not forced to zero: `[0][0]` stays `Inf`. */
  lemma FiveFrameDiagonal()
    ensures ExpectedCell(FiveIds, FiveHits, 0, 0) == Inf
  {
    FiveIdsIndex();
    assert FiveIds[0] == 0;
    assert FiveHits[0] == [Neighbor(1, 0.1), Neighbor(2, 0.2)];
    assert LastDistanceTo(FiveHits[0], 0) == Inf;
  }
}
