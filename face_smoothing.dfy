/**
  `smooth_emotions` of src/faceexpression/classifier.py: a trailing-window
  majority vote over the per-frame labels.
*/
module FaceSmoothing {
  import opened Vote

  /** The window size the analysis passes (`window=10`). */
  const DefaultWindow: nat := 10

  /** `max(0, i - window)`. */
  function WindowStart(i: nat, window: nat): nat {
    if i < window then 0 else i - window
  }

  /** `emotions[max(0, i - window) : i + 1]`. */
  function Window<T>(emotions: seq<T>, window: nat, i: nat): (w: seq<T>)
    requires i < |emotions|
    ensures |w| == (if i < window then i + 1 else window + 1)
    ensures |w| <= window + 1 && w[|w| - 1] == emotions[i]
  {
    emotions[WindowStart(i, window)..i + 1]
  }

  /** Specification of the smoothed list: the vote of every position's window. */
  function Smoothed<T(==)>(emotions: seq<T>, window: nat): (r: seq<T>)
    ensures |r| == |emotions|
  {
    seq(|emotions|, i requires 0 <= i < |emotions| => MostCommon(Window(emotions, window, i)))
  }

  /** `smooth_emotions(emotions, window)`: the loop appending one vote per position. */
  method SmoothEmotions<T(==)>(emotions: seq<T>, window: nat) returns (smoothed: seq<T>)
    ensures smoothed == Smoothed(emotions, window)
  {
    smoothed := [];
    for i := 0 to |emotions|
      invariant |smoothed| == i
      invariant forall k :: 0 <= k < i ==> smoothed[k] == MostCommon(Window(emotions, window, k))
    {
      var start := if i < window then 0 else i - window;
      var windowVals := emotions[start..i + 1];
      assert windowVals == Window(emotions, window, i);
      var dominant := MostCommon(windowVals);
      smoothed := smoothed + [dominant];
    }
  }

  /**
    Each smoothed label is the window's vote: it has maximal count in the
    window and, among labels of that count, it occurs first.
  */
  lemma SmoothedIsVote<T>(emotions: seq<T>, window: nat, i: nat)
    requires i < |emotions|
    ensures IsMostCommon(Window(emotions, window, i), Smoothed(emotions, window)[i])
  {
    MostCommonIsVote(Window(emotions, window, i));
  }

  /** Each smoothed label occurs in its own window. */
  lemma SmoothedInWindow<T>(emotions: seq<T>, window: nat, i: nat)
    requires i < |emotions|
    ensures Smoothed(emotions, window)[i] in Window(emotions, window, i)
    ensures exists j :: WindowStart(i, window) <= j <= i && emotions[j] == Smoothed(emotions, window)[i]
  {
    var w := Window(emotions, window, i);
    var x := Smoothed(emotions, window)[i];
    var k :| 0 <= k < |w| && w[k] == x;
    assert emotions[WindowStart(i, window) + k] == x;
  }

  /** Position 0 is left as it is: its window is the single first label. */
  lemma SmoothedFirst<T>(emotions: seq<T>, window: nat)
    requires |emotions| > 0
    ensures Smoothed(emotions, window)[0] == emotions[0]
  {
    assert Window(emotions, window, 0) == [emotions[0]];
  }

  /** A constant label sequence is returned unchanged. */
  lemma SmoothedConstant<T>(emotions: seq<T>, window: nat, c: T)
    requires forall i :: 0 <= i < |emotions| ==> emotions[i] == c
    ensures Smoothed(emotions, window) == emotions
  {
    var r := Smoothed(emotions, window);
    forall i | 0 <= i < |emotions| ensures r[i] == emotions[i] {
      SmoothedInWindow(emotions, window, i);
    }
  }

  /** Smoothing produces only labels that were already in its input. */
  lemma SmoothedFromInput<T>(emotions: seq<T>, window: nat, i: nat)
    requires i < |emotions|
    ensures Smoothed(emotions, window)[i] in emotions
  {
    SmoothedInWindow(emotions, window, i);
  }
}
