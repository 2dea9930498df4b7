/**
 * Sequence helpers shared by the ingestion and segmentation models.
 *
 * A Python `dict` remembers the order in which its keys were first inserted;
 * the models keep that order explicitly as a sequence, and `Dedup` is the
 * specification of it: the first occurrences of a sequence, in order.
 */
module Collections {

  datatype Option<T> = None | Some(value: T)

  /** No element occurs twice. */
  predicate NoDup<T(==)>(s: seq<T>) {
    forall i, j :: 0 <= i < j < |s| ==> s[i] != s[j]
  }

  /** The set of elements of a sequence. */
  function Elements<T>(s: seq<T>): set<T> {
    set x | x in s
  }

  /** The concatenation of a sequence of sequences, in order. */
  function Concat<T>(ss: seq<seq<T>>): seq<T> {
    if ss == [] then [] else Concat(ss[..|ss| - 1]) + ss[|ss| - 1]
  }

  /** The first occurrences of the elements of `s`, in the order of those occurrences. */
  function Dedup<T(==, !new)>(s: seq<T>): (r: seq<T>)
    ensures NoDup(r)
    ensures Elements(r) == Elements(s)
  {
    if s == [] then []
    else
      var init, last := s[..|s| - 1], s[|s| - 1];
      ElementsSnoc(init, last);
      assert s == init + [last];
      if last in init then Dedup(init)
      else
        ElementsSnoc(Dedup(init), last);
        assert last !in Elements(Dedup(init));
        Dedup(init) + [last]
  }

  lemma DedupSnoc<T(!new)>(s: seq<T>, x: T)
    ensures Dedup(s + [x]) == if x in s then Dedup(s) else Dedup(s) + [x]
  {
  }

  lemma ConcatStep<T>(ss: seq<seq<T>>, b: nat)
    requires b < |ss|
    ensures Concat(ss[..b + 1]) == Concat(ss[..b]) + ss[b]
  {
    assert ss[..b + 1][..b] == ss[..b];
  }

  lemma ElementsSnoc<T>(s: seq<T>, x: T)
    ensures Elements(s + [x]) == Elements(s) + {x}
  {
  }

  /** The position of the first occurrence of `x` in `s`. */
  function FirstIndex<T(==)>(s: seq<T>, x: T): (i: nat)
    requires x in s
    ensures i < |s| && s[i] == x
    ensures forall j :: 0 <= j < i ==> s[j] != x
  {
    if s[0] == x then 0 else 1 + FirstIndex(s[1..], x)
  }

  /** Appending at the end does not move an earlier first occurrence. */
  lemma FirstIndexSnoc<T>(s: seq<T>, y: T, x: T)
    requires x in s
    ensures x in s + [y] && FirstIndex(s + [y], x) == FirstIndex(s, x)
  {
    var i, i' := FirstIndex(s, x), FirstIndex(s + [y], x);
    assert (s + [y])[i] == x;
    assert s[i'] == x by { assert i' <= i; }
  }

  /**
   * `Dedup` lists its elements in the order of their first occurrence in `s`:
   * this is the iteration order of a dict filled by walking `s`.
   */
  lemma {:induction false} DedupFirstOccurrenceOrder<T(!new)>(s: seq<T>, a: nat, b: nat)
    requires a < b < |Dedup(s)|
    ensures Dedup(s)[a] in s && Dedup(s)[b] in s
    ensures FirstIndex(s, Dedup(s)[a]) < FirstIndex(s, Dedup(s)[b])
  {
    var init, last := s[..|s| - 1], s[|s| - 1];
    assert s == init + [last];
    var d := Dedup(init);
    assert d[a] in Elements(init);
    if b < |d| {
      DedupFirstOccurrenceOrder(init, a, b);
      FirstIndexSnoc(init, last, d[a]);
      FirstIndexSnoc(init, last, d[b]);
    } else {
      // Dedup(s)[b] is `last`, which does not occur in `init`
      assert last !in init && Dedup(s)[b] == last;
      FirstIndexSnoc(init, last, d[a]);
      assert FirstIndex(s, last) == |init|;
    }
  }

  /** A sequence without repetitions has as many distinct elements as it is long. */
  lemma {:induction false} NoDupCardinality<T>(s: seq<T>)
    requires NoDup(s)
    ensures |Elements(s)| == |s|
  {
    if s != [] {
      var init, last := s[..|s| - 1], s[|s| - 1];
      assert s == init + [last];
      assert NoDup(init);
      NoDupCardinality(init);
      assert last !in init;
      assert Elements(s) == Elements(init) + {last};
    }
  }
}
