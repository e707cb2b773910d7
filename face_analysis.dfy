/**
  `analyze_openface_csv` of src/faceexpression/classifier.py without its file
  I/O: filter the OpenFace rows, classify every valid frame, smooth the labels
  with a window of 10 and collapse them into a timeline.
*/
module FaceAnalysis {
  import opened Wrappers
  import opened Vote
  import opened FaceRules
  import opened FaceSmoothing
  import opened FaceTimeline

  /** One row of the frame-level table: `timestamp, emotion, smooth_emotion`. */
  datatype FrameEmotion = FrameEmotion(timestamp: real, emotion: Label, smoothEmotion: Label)

  /** What one analysis produces: the frame-level table and the segments of the timeline. */
  datatype Analysis = Analysis(frames: seq<FrameEmotion>, segments: seq<Segment<Label>>)

  /** `df.apply(classify_emotion, axis=1)`. */
  function RawEmotions(valid: seq<Frame>): seq<Label> {
    seq(|valid|, i requires 0 <= i < |valid| => ClassifyEmotion(valid[i].au))
  }

  /** The rows the timeline pass reads: each valid frame's time with its smoothed label. */
  function StampedRows(valid: seq<Frame>, smooth: seq<Label>): seq<Stamped<Label>>
    requires |smooth| == |valid|
  {
    seq(|valid|, i requires 0 <= i < |valid| => Stamped(valid[i].timestamp, smooth[i]))
  }

  /** The frame-level table and the timeline of a non-empty filtered table. */
  function AnalysisOf(valid: seq<Frame>): Analysis
    requires |valid| > 0
  {
    var emotions := RawEmotions(valid);
    var smooth := Smoothed(emotions, DefaultWindow);
    var frames := seq(|valid|, i requires 0 <= i < |valid| =>
                        FrameEmotion(valid[i].timestamp, emotions[i], smooth[i]));
    Analysis(frames, Timeline(StampedRows(valid, smooth)))
  }

  /** Specification of one analysis; `None` is the early return on an empty filtered table. */
  function Analyze(rows: seq<Frame>): (r: Option<Analysis>)
    ensures r.Some? ==> |r.value.frames| == |FilterValid(rows)| > 0
  {
    var valid := FilterValid(rows);
    if valid == [] then None else Some(AnalysisOf(valid))
  }

  /** `analyze_openface_csv` on an already parsed table. */
  method AnalyzeOpenFace(rows: seq<Frame>) returns (result: Option<Analysis>)
    ensures result == Analyze(rows)
  {
    var valid := FilterValid(rows);
    if valid == [] {
      return None;
    }
    var emotions := RawEmotions(valid);
    var smooth := SmoothEmotions(emotions, DefaultWindow);
    var frames := seq(|valid|, i requires 0 <= i < |valid| =>
                        FrameEmotion(valid[i].timestamp, emotions[i], smooth[i]));
    var segments := BuildTimeline(StampedRows(valid, smooth));
    result := Some(Analysis(frames, segments));
  }

  /** No segments and no result exactly when no row passes the validity mask. */
  lemma AnalyzeEmptySession(rows: seq<Frame>)
    ensures Analyze(rows).None? <==> forall i :: 0 <= i < |rows| ==> !IsValidFrame(rows[i])
  {
    FilterValidEmpty(rows);
  }

  /**
    A non-empty analysis has one table row per valid frame, in order, with
    the frame's classification and its smoothed (window 10) label.
  */
  lemma AnalysisFrames(valid: seq<Frame>)
    requires |valid| > 0
    ensures var frames := AnalysisOf(valid).frames;
      && |frames| == |valid|
      && forall i :: 0 <= i < |frames| ==>
           && frames[i].timestamp == valid[i].timestamp
           && frames[i].emotion == ClassifyEmotion(valid[i].au)
           && frames[i].smoothEmotion == MostCommon(Window(RawEmotions(valid), DefaultWindow, i))
  {
  }

  /** A non-empty analysis has a non-empty timeline from the first to the last valid timestamp. */
  lemma AnalysisSegments(valid: seq<Frame>)
    requires |valid| > 0
    ensures var segments := AnalysisOf(valid).segments;
      && |segments| > 0
      && segments[0].start == valid[0].timestamp
      && segments[|segments| - 1].end == valid[|valid| - 1].timestamp
  {
    var smooth := Smoothed(RawEmotions(valid), DefaultWindow);
    var xs := StampedRows(valid, smooth);
    assert AnalysisOf(valid).segments == Timeline(xs);
    TimelineSpansSession(xs);
    assert xs[0].timestamp == valid[0].timestamp;
    assert xs[|xs| - 1].timestamp == valid[|valid| - 1].timestamp;
  }

  /** Two labels tied in count: the one met first wins (`Counter` order). */
  lemma TieGoesToFirstSeen()
    ensures MostCommon([Happy, Happy, Happy, Neutral, Neutral, Neutral]) == Happy
  {
    var s := [Happy, Happy, Happy, Neutral, Neutral, Neutral];
    assert multiset(s) == multiset{Happy, Happy, Happy, Neutral, Neutral, Neutral};
    assert Count(s, Happy) == 3 && Count(s, Neutral) == 3;
    assert FirstIndex(s, Happy) == 0;
    MostCommonCharacterized(s, Happy);
  }

  /** The tie-break is by first occurrence, not by name: Neutral, seen first, beats Happy. */
  lemma TieIgnoresNames()
    ensures MostCommon([Neutral, Happy, Happy, Neutral]) == Neutral
  {
    var s := [Neutral, Happy, Happy, Neutral];
    assert multiset(s) == multiset{Neutral, Happy, Happy, Neutral};
    assert Count(s, Happy) == 2 && Count(s, Neutral) == 2;
    assert FirstIndex(s, Neutral) == 0;
    MostCommonCharacterized(s, Neutral);
  }

  /** Three A's then ten B's: at index 12 the window is indices 2..12 and votes B. */
  lemma WindowOfElevenExample()
    ensures var e := [Angry, Angry, Angry] + seq(10, _ => Happy);
            Smoothed(e, DefaultWindow)[12] == Happy
  {
    var e := [Angry, Angry, Angry] + seq(10, _ => Happy);
    var w := Window(e, DefaultWindow, 12);
    assert w == [Angry, Happy, Happy, Happy, Happy, Happy, Happy, Happy, Happy, Happy, Happy];
    assert Count(w, Happy) == 10 && Count(w, Angry) == 1;
    MostCommonCharacterized(w, Happy);
  }
}
