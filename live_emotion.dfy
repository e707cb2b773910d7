/**
  The monitoring step of src/faceexpression/live_emotion_legacy.py: each time
  the growing OpenFace table is re-read, its new rows are classified into a
  label buffer and, once ten labels are buffered, the vote of the last ten is
  reported after every accepted row.
*/
module LiveEmotion {
  import opened Wrappers
  import opened Vote
  import FaceRules

  type Label = FaceRules.Label
  type Frame = FaceRules.Frame

  /** Number of trailing buffer entries the live vote looks at (`emotion_buffer[-10:]`). */
  const Span: nat := 10

  /** The live file's own copy of `classify_emotion`. */
  function ClassifyEmotion(a: FaceRules.ActionUnits): (r: Label)
    ensures FaceRules.HappyRule(a) ==> r == FaceRules.Happy
    ensures r == FaceRules.Neutral <==>
              !FaceRules.HappyRule(a) && !FaceRules.AngryRule(a) && !FaceRules.SadRule(a) && !FaceRules.SurprisedRule(a)
  {
    if a.au12 == 1 && a.au06 == 1 then FaceRules.Happy
    else if a.au04 == 1 && a.au07 == 1 && a.au23 == 1 then FaceRules.Angry
    else if a.au01 == 1 && a.au04 == 1 && a.au15 == 1 then FaceRules.Sad
    else if a.au01 == 1 && a.au02 == 1 && a.au26 == 1 then FaceRules.Surprised
    else FaceRules.Neutral
  }

  /** The two copies of the rules agree on every assignment of the action units. */
  lemma ClassifiersAgree(a: FaceRules.ActionUnits)
    ensures ClassifyEmotion(a) == FaceRules.ClassifyEmotion(a)
  {
  }

  /** A row is used unless `success != 1 or confidence < 0.8`. */
  predicate Accepts(f: Frame): (b: bool)
    ensures b <==> f.success == 1 && f.confidence >= 0.8
  {
    !(f.success != 1 || f.confidence < 0.8)
  }

  /**
    The live test keeps exactly the rows the batch filter keeps plus the
    rows whose confidence is exactly 0.8.
  */
  lemma AcceptsVersusBatchFilter(f: Frame)
    ensures Accepts(f) <==> FaceRules.IsValidFrame(f) || (f.success == 1 && f.confidence == 0.8)
  {
  }

  /** A successful row of confidence exactly 0.8 is used live and dropped by the batch filter. */
  lemma ConfidenceBoundaryDiffers()
    ensures var zero := FaceRules.ActionUnits(0, 0, 0, 0, 0, 0, 0, 0, 0);
            var f := FaceRules.Frame(0.0, 1, 0.8, zero);
            Accepts(f) && !FaceRules.IsValidFrame(f)
  {
  }

  /** What one row appends to the buffer: its label if it is accepted, nothing otherwise. */
  function RowLabels(f: Frame): seq<Label> {
    if Accepts(f) then [ClassifyEmotion(f.au)] else []
  }

  /** Labels appended for `rows`, in order. */
  function KeptLabels(rows: seq<Frame>): seq<Label> {
    if rows == [] then [] else KeptLabels(rows[..|rows| - 1]) + RowLabels(rows[|rows| - 1])
  }

  /** The vote reported for a buffer: the most common of its last ten labels, once it has ten. */
  function Dominant(buffer: seq<Label>): (r: Option<Label>)
    ensures r.Some? <==> |buffer| >= Span
    ensures r.Some? ==> r.value in buffer[|buffer| - Span..]
  {
    if |buffer| >= Span then Some(VoteEndingAt(buffer, |buffer|)) else None
  }

  /** `Counter(b[j-10:j]).most_common(1)[0][0]`: the vote of the ten labels ending at `j`. */
  function VoteEndingAt(b: seq<Label>, j: nat): Label
    requires Span <= j <= |b|
  {
    MostCommon(b[j - Span..j])
  }

  /** That vote meets the vote's specification on its window. */
  lemma VoteEndingAtIsVote(b: seq<Label>, j: nat)
    requires Span <= j <= |b|
    ensures IsMostCommon(b[j - Span..j], VoteEndingAt(b, j))
  {
    MostCommonIsVote(b[j - Span..j]);
  }

  /** Specification of the reports printed while `rows` are handled on top of `buffer`. */
  function Reports(buffer: seq<Label>, rows: seq<Frame>): seq<Label> {
    if rows == [] then []
    else
      var prev := rows[..|rows| - 1];
      var row := rows[|rows| - 1];
      var after := buffer + KeptLabels(rows);
      Reports(buffer, prev) + (if Accepts(row) && Dominant(after).Some? then [Dominant(after).value] else [])
  }

  /** Handling one more row extends the buffer and the reports at their ends. */
  lemma HandleOneMore(buffer: seq<Label>, rows: seq<Frame>, i: nat)
    requires i < |rows|
    ensures KeptLabels(rows[..i + 1]) == KeptLabels(rows[..i]) + RowLabels(rows[i])
    ensures var after := buffer + KeptLabels(rows[..i + 1]);
            Reports(buffer, rows[..i + 1]) == Reports(buffer, rows[..i]) +
              (if Accepts(rows[i]) && Dominant(after).Some? then [Dominant(after).value] else [])
  {
    assert rows[..i + 1][..i] == rows[..i];
  }

  /** Votes of the windows `b[j - 10 .. j]` for every end `j` from `from` to `|b|`, in order. */
  function TrailingVotes(b: seq<Label>, from: nat): (r: seq<Label>)
    requires from >= Span
    ensures |r| == if |b| < from then 0 else |b| - from + 1
  {
    if |b| < from then [] else TrailingVotes(b[..|b| - 1], from) + [VoteEndingAt(b, |b|)]
  }

  /** Vote `k` of `TrailingVotes(b, from)` is the one of the window ending at `from + k`. */
  lemma {:induction false} TrailingVoteAt(b: seq<Label>, from: nat, k: nat)
    requires from >= Span && k < |TrailingVotes(b, from)|
    ensures from + k <= |b| && TrailingVotes(b, from)[k] == VoteEndingAt(b, from + k)
  {
    var prev := b[..|b| - 1];
    if k < |TrailingVotes(prev, from)| {
      TrailingVoteAt(prev, from, k);
      assert prev[from + k - Span..from + k] == b[from + k - Span..from + k];
    }
  }

  /** Buffer length at which the first report of a handling pass can come. */
  function FirstReportAt(buffer: seq<Label>): nat {
    if |buffer| + 1 > Span then |buffer| + 1 else Span
  }

  /** One more label adds the vote of the ten labels ending with it. */
  lemma TrailingVotesAppend(b: seq<Label>, x: Label, from: nat)
    requires Span <= from <= |b| + 1
    ensures TrailingVotes(b + [x], from) == TrailingVotes(b, from) + [VoteEndingAt(b + [x], |b| + 1)]
  {
    assert (b + [x])[..|b|] == b;
  }

  /**
    The reports are the votes of the last ten labels after each accepted
    row at which the buffer holds at least ten labels, in order.
  */
  lemma {:induction false} ReportsAreTrailingVotes(buffer: seq<Label>, rows: seq<Frame>)
    ensures Reports(buffer, rows) == TrailingVotes(buffer + KeptLabels(rows), FirstReportAt(buffer))
  {
    if rows != [] {
      ReportsAreTrailingVotes(buffer, rows[..|rows| - 1]);
      ReportsStep(buffer, rows);
    }
  }

  /** Once the buffer reaches ten labels, the vote covers the last ten. */
  lemma DominantAppend(b: seq<Label>, x: Label)
    requires |b| + 1 >= Span
    ensures Dominant(b + [x]) == Some(VoteEndingAt(b + [x], |b| + 1))
  {
  }

  /** The induction step: the last row's contribution to both sides agrees. */
  lemma ReportsStep(buffer: seq<Label>, rows: seq<Frame>)
    requires rows != []
    requires var prev := rows[..|rows| - 1];
             Reports(buffer, prev) == TrailingVotes(buffer + KeptLabels(prev), FirstReportAt(buffer))
    ensures Reports(buffer, rows) == TrailingVotes(buffer + KeptLabels(rows), FirstReportAt(buffer))
  {
    var prev, row := rows[..|rows| - 1], rows[|rows| - 1];
    var b, after := buffer + KeptLabels(prev), buffer + KeptLabels(rows);
    var from := FirstReportAt(buffer);
    if Accepts(row) {
      var x := ClassifyEmotion(row.au);
      assert after == b + [x];
      if |b| + 1 >= from {
        TrailingVotesAppend(b, x, from);
        DominantAppend(b, x);
      } else {
        assert Dominant(after).None?;
      }
    } else {
      assert after == b;
    }
  }

  /** Nothing is reported before the buffer holds ten labels; after that, one report per accepted row. */
  lemma ReportsCount(buffer: seq<Label>, rows: seq<Frame>)
    ensures var n := |buffer| + |KeptLabels(rows)|;
            |Reports(buffer, rows)| ==
              if n < Span then 0
              else if |buffer| < Span then n - Span + 1
              else |KeptLabels(rows)|
  {
    ReportsAreTrailingVotes(buffer, rows);
  }

  /** Vote `k` of `TrailingVotes(b, from)` meets the vote's specification on its window. */
  lemma TrailingVoteIsVote(b: seq<Label>, from: nat, k: nat)
    requires from >= Span && k < |TrailingVotes(b, from)|
    ensures from + k <= |b|
    ensures IsMostCommon(b[from + k - Span..from + k], TrailingVotes(b, from)[k])
  {
    TrailingVoteAt(b, from, k);
    VoteEndingAtIsVote(b, from + k);
  }

  /**
    Report `k` is the vote of the ten buffered labels ending at position
    `FirstReportAt(buffer) + k`, i.e. right after an accepted row.
  */
  lemma ReportsAreVotes(buffer: seq<Label>, rows: seq<Frame>, k: nat)
    requires k < |Reports(buffer, rows)|
    ensures var b, j := buffer + KeptLabels(rows), FirstReportAt(buffer) + k;
            |buffer| < j <= |b| && IsMostCommon(b[j - Span..j], Reports(buffer, rows)[k])
  {
    ReportsAreTrailingVotes(buffer, rows);
    TrailingVoteIsVote(buffer + KeptLabels(rows), FirstReportAt(buffer), k);
  }

  class Monitor {
    /** `last_row`: number of table rows already handled. */
    var lastRow: nat
    /** `emotion_buffer`: one label per accepted row so far. */
    var emotionBuffer: seq<Label>

    constructor ()
      ensures lastRow == 0 && emotionBuffer == []
    {
      lastRow := 0;
      emotionBuffer := [];
    }

    /** The body of `for _, row in new_rows.iterrows()`. */
    method HandleRow(row: Frame) returns (report: Option<Label>)
      modifies this`emotionBuffer
      ensures emotionBuffer == old(emotionBuffer) + RowLabels(row)
      ensures report == if Accepts(row) then Dominant(emotionBuffer) else None
    {
      report := None;
      if row.success != 1 || row.confidence < 0.8 {
        return;
      }
      var emo := ClassifyEmotion(row.au);
      emotionBuffer := emotionBuffer + [emo];
      if |emotionBuffer| >= Span {
        var dominant := MostCommon(emotionBuffer[|emotionBuffer| - Span..]);
        assert emotionBuffer[|emotionBuffer| - Span..] == emotionBuffer[|emotionBuffer| - Span..|emotionBuffer|];
        report := Some(dominant);
      }
    }

    /**
      One iteration of the polling loop on a freshly read table: only when
      the table has grown are rows `last_row ..` handled, after which
      `last_row` is the table length.
    */
    method Poll(table: seq<Frame>) returns (reports: seq<Label>)
      modifies this
      ensures old(lastRow) < |table| ==>
                && lastRow == |table|
                && emotionBuffer == old(emotionBuffer) + KeptLabels(table[old(lastRow)..])
                && reports == Reports(old(emotionBuffer), table[old(lastRow)..])
      ensures |table| <= old(lastRow) ==>
                lastRow == old(lastRow) && emotionBuffer == old(emotionBuffer) && reports == []
    {
      reports := [];
      if |table| > lastRow {
        var newRows := table[lastRow..];
        lastRow := |table|;
        reports := HandleRows(newRows);
      }
    }

    /** `for _, row in new_rows.iterrows()`: handle the new rows in order, collecting the reports. */
    method HandleRows(newRows: seq<Frame>) returns (reports: seq<Label>)
      modifies this`emotionBuffer
      ensures emotionBuffer == old(emotionBuffer) + KeptLabels(newRows)
      ensures reports == Reports(old(emotionBuffer), newRows)
    {
      reports := [];
      for i := 0 to |newRows|
        invariant emotionBuffer == old(emotionBuffer) + KeptLabels(newRows[..i])
        invariant reports == Reports(old(emotionBuffer), newRows[..i])
      {
        HandleOneMore(old(emotionBuffer), newRows, i);
        var report := HandleRow(newRows[i]);
        if report.Some? {
          reports := reports + [report.value];
        }
      }
      assert newRows[..|newRows|] == newRows;
    }
  }
}
