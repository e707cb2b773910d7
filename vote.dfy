/**
  The majority vote `Counter(window).most_common(1)[0][0]` used by both the
  batch classifier and the live monitor.

  `Counter` remembers its keys in order of first insertion and
  `most_common(1)` returns the first key of maximal count in that order
  (`max` keeps the first maximum it meets).  So the vote picks, among the
  values of maximal count, the one whose first occurrence comes earliest.
*/
module Vote {

  /** Number of occurrences of `x` in `s`. */
  function Count<T(==)>(s: seq<T>, x: T): nat {
    multiset(s)[x]
  }

  /** Position of the first occurrence of `x` in `s`. */
  function FirstIndex<T(==)>(s: seq<T>, x: T): (i: nat)
    requires x in s
    ensures i < |s| && s[i] == x
    ensures x !in s[..i]
  {
    if s[0] == x then 0 else 1 + FirstIndex(s[1..], x)
  }

  /**
    `x` is what `Counter(s).most_common(1)[0][0]` answers: it occurs in
    `s`, no value occurs more often, and every value met before the first
    occurrence of `x` occurs strictly less often.
  */
  ghost predicate IsMostCommon<T>(s: seq<T>, x: T) {
    && x in s
    && (forall y :: y in s ==> Count(s, y) <= Count(s, x))
    && (forall y :: y in s[..FirstIndex(s, x)] ==> Count(s, y) < Count(s, x))
  }

  /**
    The scan `max(counter.items(), key=count)`: the leader among the
    values at positions `0 .. k-1`, replaced only by a strictly larger
    count.
  */
  function Leader<T(==)>(s: seq<T>, k: nat): (r: T)
    requires 0 < k <= |s|
    ensures r in s[..k]
  {
    if k == 1 then
      s[0]
    else
      var best := Leader(s, k - 1);
      if Count(s, s[k - 1]) > Count(s, best) then s[k - 1] else best
  }

  /**
    The leader of `s[..k]` has maximal count among those values, and every
    value before its first occurrence has a strictly smaller count.
  */
  lemma {:induction false} LeaderIsFirstMaximum<T>(s: seq<T>, k: nat)
    requires 0 < k <= |s|
    ensures forall j :: 0 <= j < k ==> Count(s, s[j]) <= Count(s, Leader(s, k))
    ensures forall j :: 0 <= j < FirstIndex(s, Leader(s, k)) ==> Count(s, s[j]) < Count(s, Leader(s, k))
  {
    if k > 1 {
      LeaderIsFirstMaximum(s, k - 1);
    }
  }

  /** `Counter(s).most_common(1)[0][0]`; `s` must be non-empty (the source indexes `[0]`). */
  function MostCommon<T(==)>(s: seq<T>): (r: T)
    requires |s| > 0
    ensures r in s
  {
    assert s[..|s|] == s;
    Leader(s, |s|)
  }

  /** `MostCommon` meets the specification of the vote. */
  lemma MostCommonIsVote<T>(s: seq<T>)
    requires |s| > 0
    ensures IsMostCommon(s, MostCommon(s))
  {
    var r := Leader(s, |s|);
    LeaderIsFirstMaximum(s, |s|);
    assert s[..|s|] == s;
    forall y | y in s ensures Count(s, y) <= Count(s, r) {
      var j :| 0 <= j < |s| && s[j] == y;
    }
    forall y | y in s[..FirstIndex(s, r)] ensures Count(s, y) < Count(s, r) {
      var j :| 0 <= j < FirstIndex(s, r) && s[j] == y;
    }
  }

  /** The vote is determined: at most one value satisfies `IsMostCommon`. */
  lemma MostCommonUnique<T>(s: seq<T>, x: T, y: T)
    requires IsMostCommon(s, x) && IsMostCommon(s, y)
    ensures x == y
  {
  }

  /** Any value satisfying the specification is the one `MostCommon` computes. */
  lemma MostCommonCharacterized<T>(s: seq<T>, x: T)
    requires IsMostCommon(s, x)
    ensures |s| > 0 && MostCommon(s) == x
  {
    MostCommonIsVote(s);
    MostCommonUnique(s, x, MostCommon(s));
  }

  /** A window holding a single value votes for that value. */
  lemma MostCommonConstant<T>(s: seq<T>, c: T)
    requires |s| > 0
    requires forall i :: 0 <= i < |s| ==> s[i] == c
    ensures MostCommon(s) == c
  {
  }
}
