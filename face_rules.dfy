/**
  Per-frame logic of the batch facial-expression classifier
  (src/faceexpression/classifier.py): the five labels, the priority-ordered
  action-unit rules and the validity filter applied to the OpenFace table.
*/
module FaceRules {

  /**
    The closed set of labels the classifier returns; `Name` is the string
    the source returns and writes out for each.
  */
  datatype Label = Happy | Angry | Sad | Surprised | Neutral {
    function Name(): string {
      match this
      case Happy => "Happy"
      case Angry => "Angry"
      case Sad => "Sad"
      case Surprised => "Surprised"
      case Neutral => "Neutral"
    }
  }

  /** Distinct labels are written as distinct strings. */
  lemma NamesDistinct(x: Label, y: Label)
    requires x.Name() == y.Name()
    ensures x == y
  {
  }

  /** The nine `AUxx_c` presence columns of an OpenFace row; a flag counts only when it equals 1. */
  datatype ActionUnits = ActionUnits(
    au01: int, au02: int, au04: int, au06: int, au07: int,
    au12: int, au15: int, au23: int, au26: int)

  /** One OpenFace row: time, tracker success flag, tracker confidence and the action units. */
  datatype Frame = Frame(timestamp: real, success: int, confidence: real, au: ActionUnits)

  predicate HappyRule(a: ActionUnits) { a.au12 == 1 && a.au06 == 1 }
  predicate AngryRule(a: ActionUnits) { a.au04 == 1 && a.au07 == 1 && a.au23 == 1 }
  predicate SadRule(a: ActionUnits) { a.au01 == 1 && a.au04 == 1 && a.au15 == 1 }
  predicate SurprisedRule(a: ActionUnits) { a.au01 == 1 && a.au02 == 1 && a.au26 == 1 }

  /** `classify_emotion`: the first rule that matches, in the order Happy, Angry, Sad, Surprised. */
  function ClassifyEmotion(a: ActionUnits): (r: Label)
    ensures HappyRule(a) ==> r == Happy
    ensures r == Neutral <==> !HappyRule(a) && !AngryRule(a) && !SadRule(a) && !SurprisedRule(a)
  {
    if a.au12 == 1 && a.au06 == 1 then Happy
    else if a.au04 == 1 && a.au07 == 1 && a.au23 == 1 then Angry
    else if a.au01 == 1 && a.au04 == 1 && a.au15 == 1 then Sad
    else if a.au01 == 1 && a.au02 == 1 && a.au26 == 1 then Surprised
    else Neutral
  }

  /** Each label is returned exactly when its rule holds and no rule of higher priority does. */
  lemma ClassifyEmotionPriority(a: ActionUnits)
    ensures ClassifyEmotion(a) == Happy <==> HappyRule(a)
    ensures ClassifyEmotion(a) == Angry <==> !HappyRule(a) && AngryRule(a)
    ensures ClassifyEmotion(a) == Sad <==> !HappyRule(a) && !AngryRule(a) && SadRule(a)
    ensures ClassifyEmotion(a) == Surprised <==>
              !HappyRule(a) && !AngryRule(a) && !SadRule(a) && SurprisedRule(a)
    ensures ClassifyEmotion(a) == Neutral <==>
              !HappyRule(a) && !AngryRule(a) && !SadRule(a) && !SurprisedRule(a)
  {
  }

  /** Happy wins whatever the other flags are, e.g. over a frame that also matches Angry. */
  lemma HappyDominates(a: ActionUnits)
    requires a.au12 == 1 && a.au06 == 1
    ensures ClassifyEmotion(a) == Happy
  {
  }

  /** Sad only when AU01, AU04 and AU15 all equal 1 and neither Happy nor Angry applies. */
  lemma SadOnlyWhen(a: ActionUnits)
    requires ClassifyEmotion(a) == Sad
    ensures a.au01 == 1 && a.au04 == 1 && a.au15 == 1
    ensures !HappyRule(a) && !AngryRule(a)
  {
  }

  /** A frame with no action unit present is Neutral. */
  lemma AllZeroIsNeutral()
    ensures ClassifyEmotion(ActionUnits(0, 0, 0, 0, 0, 0, 0, 0, 0)) == Neutral
  {
  }

  /** The validity mask `(success == 1) & (confidence > 0.8)`. */
  predicate IsValidFrame(f: Frame): (b: bool)
    ensures b <==> f.success == 1 && f.confidence > 0.8
  {
    f.success == 1 && f.confidence > 0.8
  }

  /** `df[mask].reset_index(drop=True)`: the valid rows, in order, indexed from 0. */
  function FilterValid(rows: seq<Frame>): (r: seq<Frame>)
    ensures |r| <= |rows|
    ensures forall i :: 0 <= i < |r| ==> IsValidFrame(r[i])
  {
    if rows == [] then []
    else (if IsValidFrame(rows[0]) then [rows[0]] else []) + FilterValid(rows[1..])
  }

  /** Positions, in increasing order, of the valid rows of `rows[from..]`. */
  function ValidPositions(rows: seq<Frame>, from: nat): (ps: seq<nat>)
    requires from <= |rows|
    ensures forall k :: 0 <= k < |ps| ==> from <= ps[k] < |rows| && IsValidFrame(rows[ps[k]])
    ensures forall k, l :: 0 <= k < l < |ps| ==> ps[k] < ps[l]
    ensures forall i :: from <= i < |rows| && IsValidFrame(rows[i]) ==> i in ps
    decreases |rows| - from
  {
    if from == |rows| then []
    else (if IsValidFrame(rows[from]) then [from] else []) + ValidPositions(rows, from + 1)
  }

  /**
    The filter keeps exactly the valid rows in their original relative
    order: the k-th kept row is the row at the k-th valid position.
  */
  lemma {:induction false} FilterValidKeepsValidInOrder(rows: seq<Frame>)
    ensures |FilterValid(rows)| == |ValidPositions(rows, 0)|
    ensures forall k :: 0 <= k < |FilterValid(rows)| ==>
              FilterValid(rows)[k] == rows[ValidPositions(rows, 0)[k]]
  {
    FilterValidFrom(rows, 0);
    assert rows[0..] == rows;
  }

  lemma {:induction false} FilterValidFrom(rows: seq<Frame>, from: nat)
    requires from <= |rows|
    ensures |FilterValid(rows[from..])| == |ValidPositions(rows, from)|
    ensures forall k :: 0 <= k < |ValidPositions(rows, from)| ==>
              FilterValid(rows[from..])[k] == rows[ValidPositions(rows, from)[k]]
    decreases |rows| - from
  {
    if from < |rows| {
      FilterValidFrom(rows, from + 1);
      assert rows[from..][1..] == rows[from + 1..];
    }
  }

  /** No valid row at all is exactly the case of an empty filtered table. */
  lemma {:induction false} FilterValidEmpty(rows: seq<Frame>)
    ensures FilterValid(rows) == [] <==> forall i :: 0 <= i < |rows| ==> !IsValidFrame(rows[i])
  {
    FilterValidKeepsValidInOrder(rows);
    if FilterValid(rows) != [] {
      assert IsValidFrame(FilterValid(rows)[0]);
    }
  }

  /** Filtering distributes over concatenation of tables: order is kept. */
  lemma {:induction false} FilterValidAppend(a: seq<Frame>, b: seq<Frame>)
    ensures FilterValid(a + b) == FilterValid(a) + FilterValid(b)
  {
    if a != [] {
      assert (a + b)[1..] == a[1..] + b;
      FilterValidAppend(a[1..], b);
    } else {
      assert a + b == b;
    }
  }

  /** Filtering an already filtered table changes nothing. */
  lemma {:induction false} FilterValidIdempotent(rows: seq<Frame>)
    ensures FilterValid(FilterValid(rows)) == FilterValid(rows)
  {
    if rows != [] {
      FilterValidIdempotent(rows[1..]);
      if IsValidFrame(rows[0]) {
        var f := FilterValid(rows);
        assert f == [rows[0]] + FilterValid(rows[1..]);
        assert f[0] == rows[0] && f[1..] == FilterValid(rows[1..]);
        assert FilterValid(f) == [rows[0]] + FilterValid(f[1..]);
      } else {
        assert FilterValid(rows) == FilterValid(rows[1..]);
      }
    }
  }
}
