/**
  The timeline pass inside `analyze_openface_csv`
  (src/faceexpression/classifier.py): runs of equal smoothed labels are
  collapsed into (start time, end time, label) segments.
*/
module FaceTimeline {

  /** One row of the filtered table as the timeline sees it: its time and its smoothed label. */
  datatype Stamped<L> = Stamped(timestamp: real, emotion: L)

  /** One tuple `(start_time, end_time, emotion)` of `segments`. */
  datatype Segment<L> = Segment(start: real, end: real, emotion: L)

  /** A run of rows, from index `first` to index `last` inclusive. */
  datatype Run = Run(first: nat, last: nat)

  /**
    Reference definition of the runs: the run structure of `xs` extended by
    one row either grows the last run (same label as the previous row) or
    opens a new run of one row.
  */
  function Runs<L(==)>(xs: seq<Stamped<L>>): (r: seq<Run>)
    requires |xs| > 0
    ensures |r| > 0 && r[|r| - 1].last == |xs| - 1
  {
    var n := |xs| - 1;
    if n == 0 then [Run(0, 0)]
    else
      var prev := Runs(xs[..n]);
      if xs[n].emotion == xs[n - 1].emotion then prev[..|prev| - 1] + [Run(prev[|prev| - 1].first, n)]
      else prev + [Run(n, n)]
  }

  /** Every row of `run` carries the label of its first row. */
  ghost predicate Uniform<L>(xs: seq<Stamped<L>>, run: Run)
    requires run.first <= run.last < |xs|
  {
    forall i :: run.first <= i <= run.last ==> xs[i].emotion == xs[run.first].emotion
  }

  /** The runs are non-empty and tile `0 .. n-1` left to right without gap or overlap. */
  ghost predicate Tiles(n: nat, runs: seq<Run>) {
    && |runs| > 0
    && runs[0].first == 0
    && runs[|runs| - 1].last == n - 1
    && (forall k :: 0 <= k < |runs| ==> runs[k].first <= runs[k].last < n)
    && (forall k :: 0 <= k < |runs| - 1 ==> runs[k + 1].first == runs[k].last + 1)
  }

  /**
    `runs` splits the indices `0 .. |xs|-1` into consecutive, non-empty,
    maximal runs of one label each.
  */
  ghost predicate IsRunPartition<L>(xs: seq<Stamped<L>>, runs: seq<Run>) {
    && Tiles(|xs|, runs)
    && (forall k :: 0 <= k < |runs| ==> Uniform(xs, runs[k]))
    && (forall k :: 0 <= k < |runs| - 1 ==> xs[runs[k + 1].first].emotion != xs[runs[k].last].emotion)
  }

  lemma {:induction false} RunsArePartition<L>(xs: seq<Stamped<L>>)
    requires |xs| > 0
    ensures IsRunPartition(xs, Runs(xs))
  {
    var n := |xs| - 1;
    if n > 0 {
      var prev := Runs(xs[..n]);
      RunsArePartition(xs[..n]);
      if xs[n].emotion == xs[n - 1].emotion {
        RunsGrow(xs, prev);
      } else {
        RunsOpen(xs, prev);
      }
    }
  }

  lemma RunsGrow<L>(xs: seq<Stamped<L>>, prev: seq<Run>)
    requires |xs| > 1 && IsRunPartition(xs[..|xs| - 1], prev)
    requires xs[|xs| - 1].emotion == xs[|xs| - 2].emotion
    ensures IsRunPartition(xs, prev[..|prev| - 1] + [Run(prev[|prev| - 1].first, |xs| - 1)])
  {
    var n := |xs| - 1;
    var r := prev[..|prev| - 1] + [Run(prev[|prev| - 1].first, n)];
    forall k | 0 <= k < |r| ensures Uniform(xs, r[k]) {
      assert Uniform(xs[..n], prev[k]);
    }
  }

  lemma RunsOpen<L>(xs: seq<Stamped<L>>, prev: seq<Run>)
    requires |xs| > 1 && IsRunPartition(xs[..|xs| - 1], prev)
    requires xs[|xs| - 1].emotion != xs[|xs| - 2].emotion
    ensures IsRunPartition(xs, prev + [Run(|xs| - 1, |xs| - 1)])
  {
    var n := |xs| - 1;
    var r := prev + [Run(n, n)];
    forall k | 0 <= k < |r| ensures Uniform(xs, r[k]) {
      if k < |prev| {
        assert Uniform(xs[..n], prev[k]);
      }
    }
  }

  /** The segment a run stands for: times of its first and last rows, label of its rows. */
  function SegmentOf<L>(xs: seq<Stamped<L>>, run: Run): Segment<L>
    requires run.first <= run.last < |xs|
  {
    Segment(xs[run.first].timestamp, xs[run.last].timestamp, xs[run.first].emotion)
  }

  /** Specification of the timeline: one segment per maximal run, in order. */
  function Timeline<L(==)>(xs: seq<Stamped<L>>): (t: seq<Segment<L>>)
    requires |xs| > 0
    ensures |t| == |Runs(xs)|
  {
    var runs := Runs(xs);
    RunsArePartition(xs);
    seq(|runs|, k requires 0 <= k < |runs| => SegmentOf(xs, runs[k]))
  }

  /** Appending one row either stretches the last segment or opens a new one-row segment. */
  lemma TimelineExtend<L>(xs: seq<Stamped<L>>, n: nat)
    requires 0 < n < |xs|
    ensures var t := Timeline(xs[..n]);
            Timeline(xs[..n + 1]) ==
              if xs[n].emotion == xs[n - 1].emotion
              then t[..|t| - 1] + [Segment(t[|t| - 1].start, xs[n].timestamp, xs[n].emotion)]
              else t + [Segment(xs[n].timestamp, xs[n].timestamp, xs[n].emotion)]
  {
    if xs[n].emotion == xs[n - 1].emotion {
      TimelineGrow(xs, n);
    } else {
      TimelineOpen(xs, n);
    }
  }

  lemma TimelineGrow<L>(xs: seq<Stamped<L>>, n: nat)
    requires 0 < n < |xs| && xs[n].emotion == xs[n - 1].emotion
    ensures var t := Timeline(xs[..n]);
            Timeline(xs[..n + 1]) ==
              t[..|t| - 1] + [Segment(t[|t| - 1].start, xs[n].timestamp, xs[n].emotion)]
  {
    var ys := xs[..n + 1];
    assert ys[..n] == xs[..n];
    var prev := Runs(xs[..n]);
    var runs := Runs(ys);
    assert runs == prev[..|prev| - 1] + [Run(prev[|prev| - 1].first, n)];
    RunsArePartition(xs[..n]);
    var t, u := Timeline(xs[..n]), Timeline(ys);
    var v := t[..|t| - 1] + [Segment(t[|t| - 1].start, xs[n].timestamp, xs[n].emotion)];
    assert |u| == |v|;
    forall k | 0 <= k < |u| ensures u[k] == v[k] {
      if k < |u| - 1 {
        assert runs[k] == prev[k];
      } else {
        assert Uniform(xs[..n], prev[k]);
      }
    }
  }

  lemma TimelineOpen<L>(xs: seq<Stamped<L>>, n: nat)
    requires 0 < n < |xs| && xs[n].emotion != xs[n - 1].emotion
    ensures Timeline(xs[..n + 1]) ==
              Timeline(xs[..n]) + [Segment(xs[n].timestamp, xs[n].timestamp, xs[n].emotion)]
  {
    var ys := xs[..n + 1];
    assert ys[..n] == xs[..n];
    var prev := Runs(xs[..n]);
    var runs := Runs(ys);
    assert runs == prev + [Run(n, n)];
    RunsArePartition(xs[..n]);
    var t, u := Timeline(xs[..n]), Timeline(ys);
    var v := t + [Segment(xs[n].timestamp, xs[n].timestamp, xs[n].emotion)];
    assert |u| == |v|;
    forall k | 0 <= k < |u| ensures u[k] == v[k] {
      if k < |u| - 1 {
        assert runs[k] == prev[k];
      }
    }
  }

  /**
    The segmentation loop: keep the current label and the start time of
    its run, close a segment whenever the label changes, and close the
    last segment after the scan.
  */
  method BuildTimeline<L(==)>(xs: seq<Stamped<L>>) returns (segments: seq<Segment<L>>)
    requires |xs| > 0
    ensures segments == Timeline(xs)
  {
    segments := [];
    var currentEmotion := xs[0].emotion;
    var startTime := xs[0].timestamp;
    for i := 1 to |xs|
      invariant currentEmotion == xs[i - 1].emotion
      invariant Timeline(xs[..i]) == segments + [Segment(startTime, xs[i - 1].timestamp, currentEmotion)]
    {
      TimelineExtend(xs, i);
      if xs[i].emotion != currentEmotion {
        var endTime := xs[i - 1].timestamp;
        segments := segments + [Segment(startTime, endTime, currentEmotion)];
        currentEmotion := xs[i].emotion;
        startTime := xs[i].timestamp;
      }
    }
    segments := segments + [Segment(startTime, xs[|xs| - 1].timestamp, currentEmotion)];
    assert xs[..|xs|] == xs;
  }

  /** Number of positions `i >= 1` whose label differs from the label at `i - 1`. */
  function Changes<L(==)>(xs: seq<Stamped<L>>): nat {
    if |xs| <= 1 then 0
    else Changes(xs[..|xs| - 1]) + (if xs[|xs| - 1].emotion != xs[|xs| - 2].emotion then 1 else 0)
  }

  /** There is one segment more than there are label changes. */
  lemma {:induction false} TimelineCount<L>(xs: seq<Stamped<L>>)
    requires |xs| > 0
    ensures |Timeline(xs)| == 1 + Changes(xs)
  {
    var n := |xs| - 1;
    if n > 0 {
      TimelineCount(xs[..n]);
      assert xs[..n + 1] == xs;
      TimelineExtend(xs, n);
    }
  }

  /** The first segment starts at the first timestamp and the last ends at the last one. */
  lemma TimelineSpansSession<L>(xs: seq<Stamped<L>>)
    requires |xs| > 0
    ensures Timeline(xs)[0].start == xs[0].timestamp
    ensures Timeline(xs)[|Timeline(xs)| - 1].end == xs[|xs| - 1].timestamp
  {
    RunsArePartition(xs);
  }

  /** Adjacent segments carry different labels (runs are maximal). */
  lemma TimelineAdjacentDiffer<L>(xs: seq<Stamped<L>>)
    requires |xs| > 0
    ensures forall k :: 0 <= k < |Timeline(xs)| - 1 ==>
              Timeline(xs)[k].emotion != Timeline(xs)[k + 1].emotion
  {
    var runs, t := Runs(xs), Timeline(xs);
    RunsArePartition(xs);
    forall k | 0 <= k < |t| - 1 ensures t[k].emotion != t[k + 1].emotion {
      assert Uniform(xs, runs[k]);
    }
  }

  /** Every row falls in a segment whose label is the row's label. */
  lemma TimelineCoversRows<L>(xs: seq<Stamped<L>>, i: nat)
    requires i < |xs|
    ensures exists k :: 0 <= k < |Runs(xs)| && Runs(xs)[k].first <= i <= Runs(xs)[k].last &&
                        Timeline(xs)[k].emotion == xs[i].emotion
  {
    var runs := Runs(xs);
    RunsArePartition(xs);
    var k := CoveringRun(|xs|, runs, i, |runs| - 1);
    assert Uniform(xs, runs[k]);
  }

  /** The run among `runs[..bound + 1]` that holds index `i`. */
  lemma {:induction false} CoveringRun(n: nat, runs: seq<Run>, i: nat, bound: nat) returns (k: nat)
    requires Tiles(n, runs) && bound < |runs| && i <= runs[bound].last
    ensures k <= bound && runs[k].first <= i <= runs[k].last
  {
    if bound == 0 || runs[bound].first <= i {
      k := bound;
    } else {
      k := CoveringRun(n, runs, i, bound - 1);
    }
  }

  /** When the timestamps never decrease, segments are ordered in time and do not overlap. */
  lemma TimelineChronological<L>(xs: seq<Stamped<L>>)
    requires |xs| > 0
    requires forall i, j :: 0 <= i <= j < |xs| ==> xs[i].timestamp <= xs[j].timestamp
    ensures forall k :: 0 <= k < |Timeline(xs)| ==> Timeline(xs)[k].start <= Timeline(xs)[k].end
    ensures forall k :: 0 <= k < |Timeline(xs)| - 1 ==> Timeline(xs)[k].end <= Timeline(xs)[k + 1].start
  {
    RunsArePartition(xs);
  }

  /** A session with a single label yields exactly one segment spanning it. */
  lemma {:induction false} TimelineConstant<L>(xs: seq<Stamped<L>>)
    requires |xs| > 0
    requires forall i :: 0 <= i < |xs| ==> xs[i].emotion == xs[0].emotion
    ensures Timeline(xs) == [Segment(xs[0].timestamp, xs[|xs| - 1].timestamp, xs[0].emotion)]
  {
    ConstantHasNoChanges(xs);
    TimelineCount(xs);
    TimelineSpansSession(xs);
    RunsArePartition(xs);
    assert Timeline(xs)[0].emotion == xs[0].emotion;
  }

  lemma {:induction false} ConstantHasNoChanges<L>(xs: seq<Stamped<L>>)
    requires forall i :: 0 <= i < |xs| ==> xs[i].emotion == xs[0].emotion
    ensures Changes(xs) == 0
  {
    if |xs| > 1 {
      ConstantHasNoChanges(xs[..|xs| - 1]);
    }
  }

  /** The maximal-run partition is unique, so `Runs` is the only one. */
  lemma {:induction false} RunPartitionUnique<L>(xs: seq<Stamped<L>>, runs: seq<Run>)
    requires IsRunPartition(xs, runs)
    ensures runs == Runs(xs)
  {
    if |xs| > 1 {
      var n, m := |xs| - 1, |runs| - 1;
      if runs[m].first < n {
        var shorter := DropRowFromLastRun(xs, runs);
        RunPartitionUnique(xs[..n], shorter);
      } else {
        var shorter := DropLastRun(xs, runs);
        RunPartitionUnique(xs[..n], shorter);
      }
    } else {
      assert |runs| == 1 by {
        TilesOrdered(|xs|, runs, |runs| - 1);
      }
    }
  }

  /** Removing the last row from a last run longer than one row leaves a partition of the prefix. */
  lemma DropRowFromLastRun<L>(xs: seq<Stamped<L>>, runs: seq<Run>) returns (shorter: seq<Run>)
    requires IsRunPartition(xs, runs) && |xs| > 1 && runs[|runs| - 1].first < |xs| - 1
    ensures xs[|xs| - 1].emotion == xs[|xs| - 2].emotion
    ensures IsRunPartition(xs[..|xs| - 1], shorter)
    ensures runs == shorter[..|shorter| - 1] + [Run(shorter[|shorter| - 1].first, |xs| - 1)]
  {
    var n, m := |xs| - 1, |runs| - 1;
    var ys := xs[..n];
    var last := Run(runs[m].first, n - 1);
    shorter := runs[..m] + [last];
    TilesOrdered(|xs|, runs, m);
    assert Uniform(xs, runs[m]);
    assert forall k :: 0 <= k < m ==> shorter[k] == runs[k];
    assert Tiles(n, shorter) by {
      forall k | 0 <= k < |shorter| ensures shorter[k].first <= shorter[k].last < n {
        if k < m {
          assert runs[k].last < runs[m].first;
        }
      }
    }
    forall k | 0 <= k < |shorter| ensures Uniform(ys, shorter[k]) {
      assert Uniform(xs, runs[k]);
    }
    assert runs == runs[..m] + [runs[m]];
  }

  /** Removing a last run of exactly one row leaves a partition of the prefix. */
  lemma DropLastRun<L>(xs: seq<Stamped<L>>, runs: seq<Run>) returns (shorter: seq<Run>)
    requires IsRunPartition(xs, runs) && |xs| > 1 && runs[|runs| - 1].first == |xs| - 1
    ensures xs[|xs| - 1].emotion != xs[|xs| - 2].emotion
    ensures IsRunPartition(xs[..|xs| - 1], shorter)
    ensures runs == shorter + [Run(|xs| - 1, |xs| - 1)]
  {
    var n, m := |xs| - 1, |runs| - 1;
    var ys := xs[..n];
    shorter := runs[..m];
    TilesOrdered(|xs|, runs, m);
    assert m > 0 && runs[m - 1].last == n - 1;
    forall k | 0 <= k < |shorter| ensures Uniform(ys, shorter[k]) {
      assert Uniform(xs, runs[k]);
    }
    assert runs == runs[..m] + [runs[m]];
  }

  /** Runs that tile an index range are ordered: every run ends before any later run starts. */
  lemma {:induction false} TilesOrdered(n: nat, runs: seq<Run>, l: nat)
    requires Tiles(n, runs) && l < |runs|
    ensures forall k :: 0 <= k < l ==> runs[k].last < runs[l].first
  {
    if l > 0 {
      TilesOrdered(n, runs, l - 1);
    }
  }
}
