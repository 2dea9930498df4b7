/**
 * Ingestion of nearest-neighbour search results (`JanusClustering.cluster`,
 * the loop that drains the vector store's query iterator).
 *
 * The store is not modelled: what it hands back is an input. The query
 * iterator becomes a sequence of batches; a batch is a sequence of queries,
 * each pairing the id of a stored frame with the hits that the
 * nearest-neighbour search returned for that frame's embedding, in the order
 * the search returned them. The loop stops at the first empty batch; a
 * sequence that runs out is treated like an iterator that only returns empty
 * batches from then on.
 */
module Neighbors {
  import opened Collections

  /** The store's 64-bit primary key. */
  type Id = int

  /** One search hit: `(result.id, result.distance)`. Distances are only copied. */
  datatype Neighbor = Neighbor(id: Id, distance: real)

  /** A queried frame and the hits returned for it. */
  datatype Query = Query(id: Id, hits: seq<Neighbor>)

  type Batch = seq<Query>

  /** The number of batches the loop consumes: those before the first empty one. */
  function Consumed(batches: seq<Batch>): (n: nat)
    ensures n <= |batches|
    ensures forall b :: 0 <= b < n ==> batches[b] != []
    ensures n < |batches| ==> batches[n] == []
  {
    if batches == [] || batches[0] == [] then 0 else 1 + Consumed(batches[1..])
  }

  /** The ids of a sequence of queries, in order (`batch_ids`). */
  function IdsOf(qs: seq<Query>): seq<Id> {
    seq(|qs|, k requires 0 <= k < |qs| => qs[k].id)
  }

  /**
   * The `dist` dictionary after the queries `qs`: its keys are the queried ids
   * (see `ResultsOfLastQuery` for the values).
   */
  function ResultsOf(qs: seq<Query>): (dist: map<Id, seq<Neighbor>>)
    ensures dist.Keys == Elements(IdsOf(qs))
  {
    if qs == [] then map[]
    else
      var init, last := qs[..|qs| - 1], qs[|qs| - 1];
      assert IdsOf(qs) == IdsOf(init) + [last.id];
      ResultsOf(init)[last.id := last.hits]
  }

  /** No later query in `qs` has the id of `qs[k]`. */
  predicate LastQueryOf(qs: seq<Query>, k: nat)
    requires k < |qs|
  {
    forall k' :: k < k' < |qs| ==> qs[k'].id != qs[k].id
  }

  /**
   * Each queried id maps to the hits of its LAST query, exactly and in search
   * order: an id queried again has its earlier hits discarded, not extended.
   */
  lemma {:induction false} ResultsOfLastQuery(qs: seq<Query>, k: nat)
    requires k < |qs| && LastQueryOf(qs, k)
    ensures qs[k].id in ResultsOf(qs) && ResultsOf(qs)[qs[k].id] == qs[k].hits
  {
    var init, last := qs[..|qs| - 1], qs[|qs| - 1];
    if k < |init| {
      assert last.id != qs[k].id;
      assert LastQueryOf(init, k);
      ResultsOfLastQuery(init, k);
    }
  }

  lemma IdsOfAppend(qs: seq<Query>, rs: seq<Query>)
    ensures IdsOf(qs + rs) == IdsOf(qs) + IdsOf(rs)
  {
  }

  /** What one more query of a batch does to the ids and to the dictionary. */
  lemma QueryStep(done: seq<Query>, batch: Batch, i: nat)
    requires i < |batch|
    ensures IdsOf(done + batch[..i + 1]) == IdsOf(done + batch[..i]) + [batch[i].id]
    ensures ResultsOf(done + batch[..i + 1]) == ResultsOf(done + batch[..i])[batch[i].id := batch[i].hits]
    ensures batch[i].id in ResultsOf(done + batch[..i]) <==> batch[i].id in IdsOf(done + batch[..i])
  {
    var before := done + batch[..i];
    assert done + batch[..i + 1] == before + [batch[i]];
    assert (before + [batch[i]])[..|before|] == before;
    assert batch[i].id in Elements(IdsOf(before)) <==> batch[i].id in IdsOf(before);
  }

  /**
   * Stores the hits of one query: the entry for the queried id is reset to an
   * empty list and the hits are appended one by one, in search order.
   */
  method RecordResults(dist: map<Id, seq<Neighbor>>, q: Query) returns (dist': map<Id, seq<Neighbor>>)
    ensures dist' == dist[q.id := q.hits]
  {
    dist' := dist[q.id := []];
    for j := 0 to |q.hits|
      invariant dist' == dist[q.id := q.hits[..j]]
    {
      assert q.hits[..j + 1] == q.hits[..j] + [q.hits[j]];
      dist' := dist'[q.id := dist'[q.id] + [q.hits[j]]];
    }
    assert q.hits[..|q.hits|] == q.hits;
  }

  /**
   * The ingestion loop. `ids` is `ids` of the source, `dist` its `dist`
   * dictionary and `keys` the iteration order of that dictionary (the order
   * in which its keys were first inserted).
   */
  method Ingest(batches: seq<Batch>) returns (ids: seq<Id>, keys: seq<Id>, dist: map<Id, seq<Neighbor>>)
    ensures ids == IdsOf(Concat(batches[..Consumed(batches)]))
    ensures dist == ResultsOf(Concat(batches[..Consumed(batches)]))
    ensures keys == Dedup(ids)
  {
    ids, keys, dist := [], [], map[];
    var b := 0;
    while b < |batches| && batches[b] != []
      invariant b <= Consumed(batches)
      invariant ids == IdsOf(Concat(batches[..b]))
      invariant dist == ResultsOf(Concat(batches[..b]))
      invariant keys == Dedup(ids)
    {
      assert b < Consumed(batches);
      var batch := batches[b];
      ghost var done := Concat(batches[..b]);
      ConcatStep(batches, b);
      ids := ids + IdsOf(batch);
      IdsOfAppend(done, batch);
      assert done + batch[..0] == done;
      for i := 0 to |batch|
        invariant dist == ResultsOf(done + batch[..i])
        invariant keys == Dedup(IdsOf(done + batch[..i]))
      {
        var q := batch[i];
        QueryStep(done, batch, i);
        if q.id !in dist {
          keys := keys + [q.id];
        }
        dist := RecordResults(dist, q);
        DedupSnoc(IdsOf(done + batch[..i]), q.id);
      }
      assert batch[..|batch|] == batch;
      b := b + 1;
    }
  }
}
