/**
  The few Python `str` operations the notebook builder relies on:
  `strip()`, `sep in s`, `s.split(sep)` and `s.split(sep, 1)`, each
  characterised independently of how it is computed.
*/
module PyStr {
  import opened Wrappers

  /** Characters `str.isspace()` accepts, the ones `strip()` removes. */
  predicate IsSpace(c: char) {
    || '\t' <= c <= '\r'
    || '\U{1c}' <= c <= '\U{1f}' || c == ' '
    || c == '\U{85}' || c == '\U{a0}' || c == '\U{1680}'
    || '\U{2000}' <= c <= '\U{200a}'
    || c == '\U{2028}' || c == '\U{2029}' || c == '\U{202f}' || c == '\U{205f}' || c == '\U{3000}'
  }

  /** `lstrip()`: the suffix left once the leading whitespace is removed. */
  function StripLeft(s: string): (r: string)
    ensures |r| <= |s| && r == s[|s| - |r|..]
    ensures forall k :: 0 <= k < |s| - |r| ==> IsSpace(s[k])
    ensures r == [] || !IsSpace(r[0])
  {
    if s != [] && IsSpace(s[0]) then StripLeft(s[1..]) else s
  }

  /** `rstrip()`: the prefix left once the trailing whitespace is removed. */
  function StripRight(s: string): (r: string)
    ensures |r| <= |s| && r == s[..|r|]
    ensures forall k :: |r| <= k < |s| ==> IsSpace(s[k])
    ensures r == [] || !IsSpace(r[|r| - 1])
  {
    if s != [] && IsSpace(s[|s| - 1]) then StripRight(s[..|s| - 1]) else s
  }

  /** `strip()`. */
  function Strip(s: string): (r: string)
    ensures |r| <= |s|
    ensures r == [] || !IsSpace(r[0])
  {
    StripLeft(StripRight(s))
  }

  /**
    `strip()` cuts `s` to the slice between its leading and its trailing
    whitespace: that slice neither starts nor ends with whitespace, and
    everything cut off is whitespace.
  */
  lemma StripIsTrimmedSlice(s: string) returns (i: nat)
    ensures i + |Strip(s)| <= |s| && Strip(s) == s[i..i + |Strip(s)|]
    ensures forall k :: 0 <= k < i ==> IsSpace(s[k])
    ensures forall k :: i + |Strip(s)| <= k < |s| ==> IsSpace(s[k])
    ensures Strip(s) == [] || (!IsSpace(Strip(s)[0]) && !IsSpace(Strip(s)[|Strip(s)| - 1]))
  {
    var t := StripRight(s);
    var r := StripLeft(t);
    assert Strip(s) == r;
    i := |t| - |r|;
    StripLeftOfPrefix(s, t);
    StripRightOfStripLeft(t);
    assert i + |r| == |t|;
    assert r == [] || (!IsSpace(r[0]) && !IsSpace(r[|r| - 1]));
  }

  /** Leading whitespace of a prefix is leading whitespace of the whole. */
  lemma StripLeftOfPrefix(s: string, t: string)
    requires |t| <= |s| && t == s[..|t|]
    ensures var r := StripLeft(t);
            && r == s[|t| - |r|..|t|]
            && forall k :: 0 <= k < |t| - |r| ==> IsSpace(s[k])
  {
    var r := StripLeft(t);
    forall k | 0 <= k < |t| - |r| ensures IsSpace(s[k]) {
      assert s[k] == t[k];
    }
  }

  /** Stripping the left of a string that ends in non-whitespace keeps that end. */
  lemma StripRightOfStripLeft(t: string)
    requires t == [] || !IsSpace(t[|t| - 1])
    ensures var r := StripLeft(t);
            r == [] || !IsSpace(r[|r| - 1])
  {
    var r := StripLeft(t);
    if r != [] {
      assert r[|r| - 1] == t[|t| - 1];
    }
  }

  /** A string strips to nothing exactly when it is all whitespace. */
  lemma StripBlank(s: string)
    ensures Strip(s) == [] <==> forall k :: 0 <= k < |s| ==> IsSpace(s[k])
  {
    var r := Strip(s);
    var i := StripIsTrimmedSlice(s);
    if r != [] {
      assert s[i] == r[0];
    }
  }

  /** Stripping twice is stripping once. */
  lemma StripIdempotent(s: string)
    ensures Strip(Strip(s)) == Strip(s)
  {
    var r := Strip(s);
    var i := StripIsTrimmedSlice(s);
    if r != [] {
      assert StripRight(r) == r;
      assert StripLeft(r) == r;
    }
  }

  /** `p` occurs in `s` at position `i`. */
  predicate OccursAt(s: string, p: string, i: nat) {
    i + |p| <= |s| && s[i..i + |p|] == p
  }

  /** `s.find(p, i)`: the first occurrence of `p` in `s` at or after `i`. */
  function FindFrom(s: string, p: string, i: nat): (r: Option<nat>)
    requires i <= |s|
    ensures r.Some? ==> i <= r.value <= |s| && OccursAt(s, p, r.value)
    ensures r.Some? ==> forall k :: i <= k < r.value ==> !OccursAt(s, p, k)
    ensures r.None? ==> forall k :: i <= k <= |s| ==> !OccursAt(s, p, k)
    decreases |s| - i
  {
    if OccursAt(s, p, i) then Some(i)
    else if i == |s| then None
    else FindFrom(s, p, i + 1)
  }

  /** `s.find(p)`. */
  function Find(s: string, p: string): Option<nat> {
    FindFrom(s, p, 0)
  }

  /** `p in s`. */
  predicate Contains(s: string, p: string) {
    Find(s, p).Some?
  }

  /** `p in s` holds exactly when `p` occurs somewhere in `s`. */
  lemma ContainsOccurrence(s: string, p: string)
    ensures Contains(s, p) <==> exists k :: 0 <= k <= |s| && OccursAt(s, p, k)
  {
    if Contains(s, p) {
      assert OccursAt(s, p, Find(s, p).value);
    }
  }

  /** A prefix ending before the first occurrence of `p` does not contain `p`. */
  lemma NoneBeforeFirst(s: string, p: string, i: nat)
    requires |p| > 0
    requires Find(s, p) == Some(i)
    ensures !Contains(s[..i], p)
  {
    if Contains(s[..i], p) {
      var k := Find(s[..i], p).value;
      assert s[..i][k..k + |p|] == s[k..k + |p|];
      assert OccursAt(s, p, k);
      assert false;
    }
  }

  /** `s.split(sep)`: the pieces between successive leftmost occurrences of `sep`. */
  function Split(s: string, sep: string): (parts: seq<string>)
    requires |sep| > 0
    ensures |parts| > 0
    decreases |s|
  {
    match Find(s, sep)
    case None => [s]
    case Some(i) => [s[..i]] + Split(s[i + |sep|..], sep)
  }

  /** `sep.join(parts)`. */
  function Join(parts: seq<string>, sep: string): string
    requires |parts| > 0
  {
    if |parts| == 1 then parts[0] else parts[0] + sep + Join(parts[1..], sep)
  }

  /** Joining the pieces back with the separator gives the original string. */
  lemma {:induction false} SplitJoin(s: string, sep: string)
    requires |sep| > 0
    ensures Join(Split(s, sep), sep) == s
    decreases |s|
  {
    match Find(s, sep)
    case None =>
    case Some(i) =>
      var rest := s[i + |sep|..];
      SplitJoin(rest, sep);
      assert Split(s, sep)[1..] == Split(rest, sep);
      assert s == s[..i] + s[i..i + |sep|] + rest;
  }

  /** No piece of `s.split(sep)` contains `sep`. */
  lemma {:induction false} SplitPiecesFree(s: string, sep: string)
    requires |sep| > 0
    ensures forall k :: 0 <= k < |Split(s, sep)| ==> !Contains(Split(s, sep)[k], sep)
    decreases |s|
  {
    match Find(s, sep)
    case None =>
    case Some(i) =>
      var rest := s[i + |sep|..];
      SplitPiecesFree(rest, sep);
      NoneBeforeFirst(s, sep, i);
      assert Split(s, sep) == [s[..i]] + Split(rest, sep);
  }

  /**
    Every cut of `s.split(sep)` falls at the leftmost occurrence of `sep` in
    what is left of `s`: the pieces from `k` on, joined back, find their
    first `sep` right after piece `k`.
  */
  lemma {:induction false} SplitCutsAtLeftmost(s: string, sep: string)
    requires |sep| > 0
    ensures var parts := Split(s, sep);
            forall k :: 0 <= k < |parts| - 1 ==> Find(Join(parts[k..], sep), sep) == Some(|parts[k]|)
    decreases |s|
  {
    var parts := Split(s, sep);
    match Find(s, sep)
    case None =>
    case Some(i) =>
      var rest := s[i + |sep|..];
      SplitCutsAtLeftmost(rest, sep);
      SplitJoin(s, sep);
      assert parts == [s[..i]] + Split(rest, sep);
      forall k | 0 <= k < |parts| - 1
        ensures Find(Join(parts[k..], sep), sep) == Some(|parts[k]|)
      {
        if k == 0 {
          assert parts[0..] == parts;
        } else {
          assert parts[k..] == Split(rest, sep)[k - 1..];
        }
      }
  }

  /** `s.split(sep, 1)`: two pieces around the first `sep`, or `[s]` when there is none. */
  function SplitOnce(s: string, sep: string): (parts: seq<string>)
    requires |sep| > 0
    ensures |parts| == 1 || |parts| == 2
    ensures |parts| == 2 <==> Contains(s, sep)
  {
    match Find(s, sep)
    case None => [s]
    case Some(i) => [s[..i], s[i + |sep|..]]
  }

  /**
    A single piece of `s.split(sep, 1)` is `s` itself; two pieces put back
    together around `sep` give `s`, cut at the first `sep` of `s`.
  */
  lemma SplitOnceParts(s: string, sep: string)
    requires |sep| > 0
    ensures |SplitOnce(s, sep)| == 1 ==> SplitOnce(s, sep)[0] == s
    ensures |SplitOnce(s, sep)| == 2 ==>
              && s == SplitOnce(s, sep)[0] + sep + SplitOnce(s, sep)[1]
              && !Contains(SplitOnce(s, sep)[0], sep)
              && Find(s, sep) == Some(|SplitOnce(s, sep)[0]|)
  {
    match Find(s, sep)
    case None =>
    case Some(i) =>
      NoneBeforeFirst(s, sep, i);
      assert s == s[..i] + s[i..i + |sep|] + s[i + |sep|..];
  }
}
