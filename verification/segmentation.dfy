/**
 * From cluster labels to video segments (`main`, the `cluster_groups` loop
 * and the per-group start and end times), and the cluster count reported by
 * `JanusClustering.cluster`.
 *
 * The labels come from the density clustering, one per ingested frame, and
 * are an arbitrary input here; `-1` marks noise. Positions are grouped by
 * label only: a label whose frames lie in several separate stretches of time
 * still yields ONE group, spanning from its first to its last frame.
 */
module Segmentation {
  import opened Collections

  /** The label the clustering gives to noise frames. */
  const Noise: int := -1

  /** One exported segment: its label, start and end time, and its frame positions. */
  datatype Segment = Segment(tag: int, startTime: real, endTime: real, frames: seq<nat>)

  predicate StrictlyAscending(s: seq<nat>) {
    forall a, b :: 0 <= a < b < |s| ==> s[a] < s[b]
  }

  /** `cluster_groups[l]`: the positions whose label is `l`, in the order they are met. */
  function Positions(labels: seq<int>, l: int): seq<nat> {
    if labels == [] then []
    else
      var n := |labels| - 1;
      if labels[n] == l then Positions(labels[..n], l) + [n] else Positions(labels[..n], l)
  }

  /**
   * A group holds exactly the positions whose label is `l`, each once and in
   * ascending order.
   */
  lemma {:induction false} PositionsExact(labels: seq<int>, l: int)
    ensures forall p: nat :: p in Positions(labels, l) <==> p < |labels| && labels[p] == l
    ensures StrictlyAscending(Positions(labels, l))
  {
    if labels != [] {
      var n := |labels| - 1;
      var init := labels[..n];
      PositionsExact(init, l);
      var ps := Positions(init, l);
      forall p: nat | p < n
        ensures labels[p] == init[p]
      {
      }
      if labels[n] == l {
        forall a | 0 <= a < |ps|
          ensures ps[a] < n
        {
          assert ps[a] in ps;
        }
      }
    }
  }

  /** A label that does not occur has no positions. */
  lemma {:induction false} PositionsAbsent(labels: seq<int>, l: int)
    requires l !in labels
    ensures Positions(labels, l) == []
  {
    if labels != [] {
      var n := |labels| - 1;
      assert labels[n] != l;
      PositionsAbsent(labels[..n], l);
    }
  }

  /** The first position of a label is the first occurrence of that label. */
  lemma PositionsStartAtFirstIndex(labels: seq<int>, l: int)
    requires l in labels
    ensures Positions(labels, l) != [] && Positions(labels, l)[0] == FirstIndex(labels, l)
  {
    PositionsExact(labels, l);
    var f := FirstIndex(labels, l);
    var ps := Positions(labels, l);
    assert f in ps;
    var k :| 0 <= k < |ps| && ps[k] == f;
    assert ps[0] in ps;
    assert ps[0] <= f && labels[ps[0]] == l;
  }

  /** The labels other than noise, in order. */
  function Live(labels: seq<int>): (r: seq<int>)
    ensures forall x :: x in r <==> x in labels && x != Noise
    ensures forall k :: 0 <= k < |r| ==> r[k] in labels && r[k] != Noise
  {
    if labels == [] then []
    else
      var n := |labels| - 1;
      if labels[n] == Noise then Live(labels[..n]) else Live(labels[..n]) + [labels[n]]
  }

  lemma {:induction false} LiveAppend(s: seq<int>, t: seq<int>)
    ensures Live(s + t) == Live(s) + Live(t)
  {
    if t == [] {
      assert s + t == s;
    } else {
      var n := |t| - 1;
      assert (s + t)[..|s| + n] == s + t[..n];
      assert (s + t)[|s| + n] == t[n];
      LiveAppend(s, t[..n]);
    }
  }

  lemma {:induction false} LiveKeepsNoDup(s: seq<int>)
    requires NoDup(s)
    ensures NoDup(Live(s))
  {
    if s != [] {
      var n := |s| - 1;
      assert NoDup(s[..n]);
      LiveKeepsNoDup(s[..n]);
      assert s[n] !in s[..n];
    }
  }

  /**
   * Labels in the order of their first occurrence in `labels`: the iteration
   * order of a dict filled by walking the labels.
   */
  ghost predicate FirstOccurrenceOrdered(xs: seq<int>, labels: seq<int>) {
    && (forall a :: 0 <= a < |xs| ==> xs[a] in labels)
    && (forall a, b :: 0 <= a < b < |xs| ==> FirstIndex(labels, xs[a]) < FirstIndex(labels, xs[b]))
  }

  lemma {:induction false} LiveKeepsFirstOccurrenceOrder(xs: seq<int>, labels: seq<int>)
    requires FirstOccurrenceOrdered(xs, labels)
    ensures FirstOccurrenceOrdered(Live(xs), labels)
  {
    if xs != [] {
      var n := |xs| - 1;
      var init := xs[..n];
      assert FirstOccurrenceOrdered(init, labels);
      LiveKeepsFirstOccurrenceOrder(init, labels);
      if xs[n] != Noise {
        var li := Live(init);
        forall a | 0 <= a < |li|
          ensures FirstIndex(labels, li[a]) < FirstIndex(labels, xs[n])
        {
          assert li[a] in init;
          var c :| 0 <= c < n && init[c] == li[a];
        }
      }
    }
  }

  /** `groups` holds, for every label of `labels`, the positions of that label. */
  ghost predicate Grouped(groups: map<int, seq<nat>>, labels: seq<int>) {
    && groups.Keys == Elements(labels)
    && forall l :: l in groups ==> groups[l] == Positions(labels, l)
  }

  /** Appending position `i` to the group of its label keeps the groups exact. */
  lemma GroupedStep(groups: map<int, seq<nat>>, labels: seq<int>, i: nat)
    requires i < |labels| && Grouped(groups, labels[..i])
    ensures Grouped(groups[labels[i] := (if labels[i] in groups then groups[labels[i]] else []) + [i]], labels[..i + 1])
  {
    var tag := labels[i];
    assert labels[..i + 1] == labels[..i] + [tag];
    assert labels[..i + 1][..i] == labels[..i];
    ElementsSnoc(labels[..i], tag);
    if tag !in groups {
      assert tag !in labels[..i];
      PositionsAbsent(labels[..i], tag);
    }
  }

  /**
   * The `cluster_groups` loop: `order` is the dict's key order and `groups`
   * its contents.
   */
  method GroupByLabel(labels: seq<int>) returns (order: seq<int>, groups: map<int, seq<nat>>)
    ensures order == Dedup(labels)
    ensures groups.Keys == Elements(labels)
    ensures forall l :: l in groups ==> groups[l] == Positions(labels, l)
  {
    order, groups := [], map[];
    for i := 0 to |labels|
      invariant order == Dedup(labels[..i])
      invariant Grouped(groups, labels[..i])
    {
      var tag := labels[i];
      GroupedStep(groups, labels, i);
      assert labels[..i + 1] == labels[..i] + [tag];
      DedupSnoc(labels[..i], tag);
      assert tag in groups <==> tag in labels[..i];
      if tag !in groups {
        order := order + [tag];
        groups := groups[tag := []];
      }
      groups := groups[tag := groups[tag] + [i]];
    }
    assert labels[..|labels|] == labels;
  }

  /** The indices `frame_indices[0]` and `frame_indices[-1]` both exist in `timestamps`. */
  predicate InRange(frames: seq<nat>, timestamps: seq<real>) {
    frames != [] && frames[0] < |timestamps| && frames[|frames| - 1] < |timestamps|
  }

  /** The segment exported for one group. */
  function SegmentOf(tag: int, frames: seq<nat>, timestamps: seq<real>): (s: Segment)
    requires InRange(frames, timestamps)
  {
    Segment(tag, timestamps[frames[0]], timestamps[frames[|frames| - 1]], frames)
  }

  /**
   * The export loop over `cluster_groups.items()`: noise is skipped and every
   * other group becomes a segment, in dict order. Indexing `timestamps` past
   * its end raises an `IndexError` that ends the loop; `failed` is then the
   * label of that group, and `segs` the segments exported before it.
   */
  method EmitSegments(order: seq<int>, groups: map<int, seq<nat>>, timestamps: seq<real>)
    returns (segs: seq<Segment>, failed: Option<int>)
    requires forall l :: l in order ==> l in groups && groups[l] != []
    ensures |segs| <= |Live(order)|
    ensures forall k :: 0 <= k < |segs| ==>
              InRange(groups[Live(order)[k]], timestamps) &&
              segs[k] == SegmentOf(Live(order)[k], groups[Live(order)[k]], timestamps)
    ensures failed == if |segs| < |Live(order)| then Some(Live(order)[|segs|]) else None
    ensures |segs| < |Live(order)| ==> !InRange(groups[Live(order)[|segs|]], timestamps)
  {
    segs, failed := [], None;
    for a := 0 to |order|
      invariant failed == None
      invariant |segs| == |Live(order[..a])|
      invariant forall k :: 0 <= k < |segs| ==>
                  InRange(groups[Live(order[..a])[k]], timestamps) &&
                  segs[k] == SegmentOf(Live(order[..a])[k], groups[Live(order[..a])[k]], timestamps)
    {
      var tag := order[a];
      assert order[..a + 1] == order[..a] + [tag];
      LiveAppend(order[..a], [tag]);
      if tag != Noise {
        var frames := groups[tag];
        if !InRange(frames, timestamps) {
          failed := Some(tag);
          LiveAppend(order[..a + 1], order[a + 1..]);
          assert order == order[..a + 1] + order[a + 1..];
          return;
        }
        segs := segs + [SegmentOf(tag, frames, timestamps)];
      }
    }
    assert order[..|order|] == order;
  }

  /** The number of clusters: the distinct labels other than noise. */
  function ClusterCount(labels: seq<int>): (c: nat)
    ensures c == |Elements(Live(labels))|
    ensures Noise !in labels ==> c == |Elements(labels)|
  {
    assert Elements(Live(labels)) == Elements(labels) - {Noise};
    |Elements(labels) - {Noise}|
  }

  /**
   * The count in the "Clustering complete" message: the number of distinct
   * labels minus one. It is the cluster count only when some frame is noise.
   */
  function ReportedClusterCount(labels: seq<int>): (c: int)
    ensures Noise in labels ==> c == ClusterCount(labels)
    ensures Noise !in labels ==> c == ClusterCount(labels) - 1
  {
    assert Noise in labels ==> Elements(labels) == (Elements(labels) - {Noise}) + {Noise};
    |Elements(labels)| - 1
  }

  /** Without noise the message reports one cluster too few, and -1 for no frames. */
  lemma ReportedClusterCountWithoutNoise()
    ensures ReportedClusterCount([0, 0, 1]) == 1 && ClusterCount([0, 0, 1]) == 2
    ensures ReportedClusterCount([]) == -1 && ClusterCount([]) == 0
  {
    assert Elements([0, 0, 1]) == {0, 1};
    assert Elements<int>([]) == {};
  }

  /**
   * The labels of the exported segments, in export order: the keys of
   * `cluster_groups` without noise. Each cluster appears once.
   */
  function ExportOrder(labels: seq<int>): (order: seq<int>)
    ensures forall x :: x in order <==> x in labels && x != Noise
    ensures NoDup(order) && |order| == ClusterCount(labels)
  {
    var d := Dedup(labels);
    assert forall x :: x in d <==> x in Elements(labels);
    LiveKeepsNoDup(d);
    NoDupCardinality(Live(d));
    assert Elements(Live(d)) == Elements(Live(labels));
    Live(d)
  }

  /** Clusters are exported in the order of their first frame. */
  lemma ExportOrderFollowsFirstFrames(labels: seq<int>)
    ensures FirstOccurrenceOrdered(ExportOrder(labels), labels)
  {
    var d := Dedup(labels);
    forall a, b | 0 <= a < b < |d|
      ensures d[a] in labels && d[b] in labels && FirstIndex(labels, d[a]) < FirstIndex(labels, d[b])
    {
      DedupFirstOccurrenceOrder(labels, a, b);
    }
    forall a | 0 <= a < |d|
      ensures d[a] in labels
    {
      assert d[a] in Elements(labels);
    }
    LiveKeepsFirstOccurrenceOrder(d, labels);
  }

  /** `segs` are the segments of the first `|segs|` clusters in export order. */
  ghost predicate ExportedPrefix(segs: seq<Segment>, labels: seq<int>, timestamps: seq<real>) {
    && |segs| <= |ExportOrder(labels)|
    && forall k :: 0 <= k < |segs| ==>
         var l := ExportOrder(labels)[k];
         InRange(Positions(labels, l), timestamps) && segs[k] == SegmentOf(l, Positions(labels, l), timestamps)
  }

  /**
   * `main` from the grouping to the end of the export loop: one segment per
   * cluster, in export order. If a group reaches past the end of `timestamps`
   * the export stops there and `failed` names that group's label.
   */
  method SegmentVideo(labels: seq<int>, timestamps: seq<real>) returns (segs: seq<Segment>, failed: Option<int>)
    ensures ExportedPrefix(segs, labels, timestamps)
    ensures failed == if |segs| < ClusterCount(labels) then Some(ExportOrder(labels)[|segs|]) else None
    ensures failed.Some? ==> !InRange(Positions(labels, failed.value), timestamps)
    ensures failed == None <==> |segs| == ClusterCount(labels)
    ensures |labels| <= |timestamps| ==> failed == None
  {
    var order, groups := GroupByLabel(labels);
    forall l | l in order
      ensures l in groups && groups[l] != []
      ensures |labels| <= |timestamps| ==> InRange(groups[l], timestamps)
    {
      assert l in Elements(labels);
      PositionsStartAtFirstIndex(labels, l);
      PositionsExact(labels, l);
      var ps := Positions(labels, l);
      assert ps[|ps| - 1] in ps;
    }
    segs, failed := EmitSegments(order, groups, timestamps);
  }

  /** The position of the last occurrence of `x` in `s`. */
  function LastIndex(s: seq<int>, x: int): (i: nat)
    requires x in s
    ensures i < |s| && s[i] == x
    ensures forall j :: i < j < |s| ==> s[j] != x
  {
    var n := |s| - 1;
    if s[n] == x then n else LastIndex(s[..n], x)
  }

  /**
   * The segment of cluster `l` holds every frame of that cluster and no other,
   * in ascending order; it starts at the time of the cluster's first frame
   * and ends at the time of its last frame.
   */
  lemma SegmentShape(labels: seq<int>, timestamps: seq<real>, l: int)
    requires l in labels && InRange(Positions(labels, l), timestamps)
    ensures var seg := SegmentOf(l, Positions(labels, l), timestamps);
            && (forall p: nat :: p in seg.frames <==> p < |labels| && labels[p] == l)
            && StrictlyAscending(seg.frames)
            && FirstIndex(labels, l) < |timestamps| && seg.startTime == timestamps[FirstIndex(labels, l)]
            && LastIndex(labels, l) < |timestamps| && seg.endTime == timestamps[LastIndex(labels, l)]
  {
    PositionsExact(labels, l);
    PositionsStartAtFirstIndex(labels, l);
    var ps := Positions(labels, l);
    var last, li := ps[|ps| - 1], LastIndex(labels, l);
    assert last in ps && li in ps;
    var k :| 0 <= k < |ps| && ps[k] == li;
    assert li <= last;
  }

  ghost predicate NonDecreasing(timestamps: seq<real>) {
    forall a, b :: 0 <= a <= b < |timestamps| ==> timestamps[a] <= timestamps[b]
  }

  /**
   * With timestamps in video order, a segment's time span contains the time
   * of every frame of its cluster, also when those frames lie in separate
   * stretches of the video.
   */
  lemma SegmentSpansItsFrames(labels: seq<int>, timestamps: seq<real>, l: int)
    requires l in labels && InRange(Positions(labels, l), timestamps) && NonDecreasing(timestamps)
    ensures var seg := SegmentOf(l, Positions(labels, l), timestamps);
            && seg.startTime <= seg.endTime
            && forall p :: 0 <= p < |labels| && labels[p] == l ==>
                 p < |timestamps| && seg.startTime <= timestamps[p] <= seg.endTime
  {
    SegmentShape(labels, timestamps, l);
  }

  /**
   * The exported segments have distinct, non-noise labels, no frame is in two
   * of them, and they come in the order of their clusters' first frames.
   */
  lemma ExportedSegmentsDisjoint(segs: seq<Segment>, labels: seq<int>, timestamps: seq<real>)
    requires ExportedPrefix(segs, labels, timestamps)
    ensures forall k :: 0 <= k < |segs| ==> segs[k].tag in labels && segs[k].tag != Noise
    ensures forall k, k' :: 0 <= k < k' < |segs| ==>
              segs[k].tag != segs[k'].tag &&
              segs[k].frames[0] < segs[k'].frames[0] &&
              forall p :: p in segs[k].frames ==> p !in segs[k'].frames
  {
    var order := ExportOrder(labels);
    ExportOrderFollowsFirstFrames(labels);
    forall k, k' | 0 <= k < k' < |segs|
      ensures segs[k].tag != segs[k'].tag && segs[k].frames[0] < segs[k'].frames[0]
      ensures forall p :: p in segs[k].frames ==> p !in segs[k'].frames
    {
      assert order[k] in order && order[k'] in order;
      PositionsStartAtFirstIndex(labels, order[k]);
      PositionsStartAtFirstIndex(labels, order[k']);
      PositionsExact(labels, order[k]);
      PositionsExact(labels, order[k']);
    }
    forall k | 0 <= k < |segs|
      ensures segs[k].tag in labels && segs[k].tag != Noise
    {
      assert order[k] in order;
    }
  }

  /** With timestamps in video order, segments are exported in order of their start times. */
  lemma ExportedSegmentsInStartOrder(segs: seq<Segment>, labels: seq<int>, timestamps: seq<real>)
    requires ExportedPrefix(segs, labels, timestamps) && NonDecreasing(timestamps)
    ensures forall k, k' :: 0 <= k < k' < |segs| ==> segs[k].startTime <= segs[k'].startTime
  {
    ExportedSegmentsDisjoint(segs, labels, timestamps);
  }

  /** When the export completes, every frame that is not noise is in some segment. */
  lemma ExportedSegmentsCover(segs: seq<Segment>, labels: seq<int>, timestamps: seq<real>)
    requires ExportedPrefix(segs, labels, timestamps) && |segs| == ClusterCount(labels)
    ensures forall p :: 0 <= p < |labels| && labels[p] != Noise ==>
              exists k :: 0 <= k < |segs| && p in segs[k].frames
  {
    var order := ExportOrder(labels);
    forall p | 0 <= p < |labels| && labels[p] != Noise
      ensures exists k :: 0 <= k < |segs| && p in segs[k].frames
    {
      assert labels[p] in order;
      var k :| 0 <= k < |order| && order[k] == labels[p];
      PositionsExact(labels, labels[p]);
      assert p in segs[k].frames;
    }
  }

  /** Frames 0 and 1 form cluster 0, frame 2 is noise and frames 3 and 4 form cluster 1. */
  const FiveLabels: seq<int> := [0, 0, Noise, 1, 1]

  lemma PositionsSnoc(s: seq<int>, x: int, l: int)
    ensures Positions(s + [x], l) == if x == l then Positions(s, l) + [|s|] else Positions(s, l)
  {
    assert (s + [x])[..|s|] == s;
  }

  lemma LiveSnoc(s: seq<int>, x: int)
    ensures Live(s + [x]) == if x == Noise then Live(s) else Live(s) + [x]
  {
  }

  /** The keys of `cluster_groups` for the five frames: 0, then noise, then 1. */
  lemma FiveFrameGroupOrder()
    ensures Dedup(FiveLabels) == [0, Noise, 1]
  {
    var s0: seq<int> := [];
    var s1 := s0 + [0];
    var s2 := s1 + [0];
    var s3 := s2 + [Noise];
    var s4 := s3 + [1];
    assert s4 + [1] == FiveLabels;
    DedupSnoc(s0, 0);
    DedupSnoc(s1, 0);
    DedupSnoc(s2, Noise);
    DedupSnoc(s3, 1);
    DedupSnoc(s4, 1);
  }

  /** Two clusters are exported, cluster 0 first. */
  lemma FiveFrameExportOrder()
    ensures ExportOrder(FiveLabels) == [0, 1]
  {
    FiveFrameGroupOrder();
    var s0: seq<int> := [];
    var t1 := s0 + [0];
    var t2 := t1 + [Noise];
    assert t2 + [1] == [0, Noise, 1];
    LiveSnoc(s0, 0);
    LiveSnoc(t1, Noise);
    LiveSnoc(t2, 1);
    assert Live(s0) == [];
  }

  /** Timestamps equal to the frame numbers. */
  const FiveTimestamps: seq<real> := [0.0, 1.0, 2.0, 3.0, 4.0]

  /** The segment of cluster 0 spans frames 0 and 1, from 0.0 to 1.0. */
  lemma FiveFrameFirstSegment()
    ensures Positions(FiveLabels, 0) == [0, 1]
    ensures SegmentOf(0, Positions(FiveLabels, 0), FiveTimestamps) == Segment(0, 0.0, 1.0, [0, 1])
  {
    var s0: seq<int> := [];
    var s1 := s0 + [0];
    var s2 := s1 + [0];
    var s3 := s2 + [Noise];
    var s4 := s3 + [1];
    assert s4 + [1] == FiveLabels;
    PositionsSnoc(s0, 0, 0);
    PositionsSnoc(s1, 0, 0);
    PositionsSnoc(s2, Noise, 0);
    PositionsSnoc(s3, 1, 0);
    PositionsSnoc(s4, 1, 0);
  }

  /** The segment of cluster 1 spans frames 3 and 4, from 3.0 to 4.0; frame 2 is in neither. */
  lemma FiveFrameSecondSegment()
    ensures Positions(FiveLabels, 1) == [3, 4]
    ensures SegmentOf(1, Positions(FiveLabels, 1), FiveTimestamps) == Segment(1, 3.0, 4.0, [3, 4])
  {
    var s3: seq<int> := [0, 0, Noise];
    var s4 := s3 + [1];
    assert s4 + [1] == FiveLabels;
    PositionsAbsent(s3, 1);
    PositionsSnoc(s3, 1, 1);
    PositionsSnoc(s4, 1, 1);
  }

  /** Frames 0 and 2 are in cluster 5, the frame between them is noise. */
  const SplitLabels: seq<int> := [5, Noise, 5]

  /** Cluster 5 forms ONE group holding both of its frames. */
  lemma SplitClusterIsOneGroup()
    ensures Dedup(SplitLabels) == [5, Noise] && Positions(SplitLabels, 5) == [0, 2]
  {
    var s0: seq<int> := [];
    var s1 := s0 + [5];
    var s2 := s1 + [Noise];
    assert s2 + [5] == SplitLabels;
    DedupSnoc(s0, 5);
    DedupSnoc(s1, Noise);
    DedupSnoc(s2, 5);
    PositionsSnoc(s0, 5, 5);
    PositionsSnoc(s1, Noise, 5);
    PositionsSnoc(s2, 5, 5);
  }

  /**
   * A cluster whose frames are separated by noise gives one segment, whose
   * span covers the noise frame between them.
   */
  lemma SplitClusterIsOneSegment()
    ensures ExportOrder(SplitLabels) == [5]
  {
    SplitClusterIsOneGroup();
    var s0: seq<int> := [];
    var s1 := s0 + [5];
    assert s1 + [Noise] == [5, Noise];
    LiveSnoc(s0, 5);
    LiveSnoc(s1, Noise);
    assert Live(s0) == [];
  }
}
