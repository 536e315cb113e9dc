/** Points, the reference definitions the ring buffer is specified against,
    and the facts about them that the buffer's proofs rely on. */
module Samples {

  /** A plotted sample (QPointF). Coordinates are compared only, so they are
      modelled as mathematical reals without IEEE-754 special values. */
  datatype Point = Point(x: real, y: real)

  function Min(a: real, b: real): real { if b < a then b else a }
  function Max(a: real, b: real): real { if b > a then b else a }
  function MinInt(a: int, b: int): int { if a < b then a else b }
  function MaxInt(a: int, b: int): int { if a < b then b else a }

  /** `m` is a lower bound of every y in `s` and is the y of some point of `s`. */
  ghost predicate IsLeastY(s: seq<Point>, m: real) {
    (forall i :: 0 <= i < |s| ==> m <= s[i].y) &&
    (exists i :: 0 <= i < |s| && s[i].y == m)
  }

  /** `m` is an upper bound of every y in `s` and is the y of some point of `s`. */
  ghost predicate IsGreatestY(s: seq<Point>, m: real) {
    (forall i :: 0 <= i < |s| ==> s[i].y <= m) &&
    (exists i :: 0 <= i < |s| && s[i].y == m)
  }

  /** The smallest y value of a non-empty sequence: the naive full scan. */
  ghost function MinY(s: seq<Point>): (m: real)
    requires |s| > 0
    ensures IsLeastY(s, m)
    decreases |s|
  {
    if |s| == 1 then s[0].y
    else
      var init := s[..|s| - 1];
      var m0 := MinY(init);
      assert forall i :: 0 <= i < |init| ==> init[i] == s[i];
      var w :| 0 <= w < |init| && init[w].y == m0;
      assert s[w].y == m0;
      Min(m0, s[|s| - 1].y)
  }

  /** The largest y value of a non-empty sequence: the naive full scan. */
  ghost function MaxY(s: seq<Point>): (m: real)
    requires |s| > 0
    ensures IsGreatestY(s, m)
    decreases |s|
  {
    if |s| == 1 then s[0].y
    else
      var init := s[..|s| - 1];
      var m0 := MaxY(init);
      assert forall i :: 0 <= i < |init| ==> init[i] == s[i];
      var w :| 0 <= w < |init| && init[w].y == m0;
      assert s[w].y == m0;
      Max(m0, s[|s| - 1].y)
  }

  /** A lower bound that is attained is the minimum. */
  lemma LeastYIsMinY(s: seq<Point>, m: real)
    requires |s| > 0 && IsLeastY(s, m)
    ensures m == MinY(s)
  {
    var i :| 0 <= i < |s| && s[i].y == m;
    var j :| 0 <= j < |s| && s[j].y == MinY(s);
  }

  /** An upper bound that is attained is the maximum. */
  lemma GreatestYIsMaxY(s: seq<Point>, m: real)
    requires |s| > 0 && IsGreatestY(s, m)
    ensures m == MaxY(s)
  {
    var i :| 0 <= i < |s| && s[i].y == m;
    var j :| 0 <= j < |s| && s[j].y == MaxY(s);
  }

  /** Appending without eviction: extending a cached minimum by the new
      point's y gives the minimum of the longer sequence. */
  lemma SnocKeepsLeastY(s: seq<Point>, p: Point, m: real)
    requires IsLeastY(s, m)
    ensures IsLeastY(s + [p], Min(m, p.y))
  {
    var t := s + [p];
    var w :| 0 <= w < |s| && s[w].y == m;
    assert t[w] == s[w] && t[|s|] == p;
    assert forall i :: 0 <= i < |s| ==> t[i] == s[i];
  }

  lemma SnocKeepsGreatestY(s: seq<Point>, p: Point, m: real)
    requires IsGreatestY(s, m)
    ensures IsGreatestY(s + [p], Max(m, p.y))
  {
    var t := s + [p];
    var w :| 0 <= w < |s| && s[w].y == m;
    assert t[w] == s[w] && t[|s|] == p;
    assert forall i :: 0 <= i < |s| ==> t[i] == s[i];
  }

  /** One step of the naive scan: the extremes of the first i + 1 points
      from those of the first i. */
  lemma ScanStep(s: seq<Point>, i: nat, lo: real, hi: real)
    requires 0 < i < |s| && IsLeastY(s[..i], lo) && IsGreatestY(s[..i], hi)
    ensures IsLeastY(s[..i + 1], Min(lo, s[i].y)) && IsGreatestY(s[..i + 1], Max(hi, s[i].y))
  {
    assert s[..i + 1] == s[..i] + [s[i]];
    SnocKeepsLeastY(s[..i], s[i], lo);
    SnocKeepsGreatestY(s[..i], s[i], hi);
  }

  /** Appending with eviction of the oldest point: when the evicted y differs
      from the extended minimum, the extended minimum is still exact for the
      retained points, so no rescan is needed. */
  lemma EvictionKeepsLeastY(s: seq<Point>, p: Point, m: real)
    requires |s| > 0 && IsLeastY(s, m)
    requires s[0].y != Min(m, p.y)
    ensures IsLeastY(s[1..] + [p], Min(m, p.y))
  {
    var t := s[1..] + [p];
    assert forall i :: 0 <= i < |t| - 1 ==> t[i] == s[i + 1];
    if Min(m, p.y) == p.y {
      assert t[|t| - 1] == p;
    } else {
      var w :| 0 <= w < |s| && s[w].y == m;
      assert t[w - 1] == s[w];
    }
  }

  /** The maximum counterpart of EvictionKeepsLeastY. */
  lemma EvictionKeepsGreatestY(s: seq<Point>, p: Point, m: real)
    requires |s| > 0 && IsGreatestY(s, m)
    requires s[0].y != Max(m, p.y)
    ensures IsGreatestY(s[1..] + [p], Max(m, p.y))
  {
    var t := s[1..] + [p];
    assert forall i :: 0 <= i < |t| - 1 ==> t[i] == s[i + 1];
    if Max(m, p.y) == p.y {
      assert t[|t| - 1] == p;
    } else {
      var w :| 0 <= w < |s| && s[w].y == m;
      assert t[w - 1] == s[w];
    }
  }

  /** Why the rescan is needed: evicting a point whose y is the unique
      minimum leaves a stale cached minimum. */
  lemma EvictingUniqueMinimumIsStale(s: seq<Point>, p: Point)
    requires |s| > 1 && p.y > s[0].y
    requires forall i :: 1 <= i < |s| ==> s[i].y > s[0].y
    ensures IsLeastY(s, s[0].y)
    ensures !IsLeastY(s[1..] + [p], Min(s[0].y, p.y))
  {
    var t := s[1..] + [p];
    assert forall i :: 0 <= i < |t| - 1 ==> t[i] == s[i + 1];
  }

  /** The clamped window [max(0, imin) .. min(imax, |s| - 1)] of `s`, empty
      when `s` is empty or the clamped bounds are inverted. */
  ghost function Window<T>(s: seq<T>, imin: int, imax: int): (w: seq<T>)
    ensures |w| <= |s|
    ensures w == [] <==> (|s| == 0 || MaxInt(0, imin) > MinInt(imax, |s| - 1))
    ensures w != [] ==> |w| == MinInt(imax, |s| - 1) - MaxInt(0, imin) + 1
    ensures forall k :: 0 <= k < |w| ==> w[k] == s[MaxInt(0, imin) + k]
  {
    if |s| == 0 then []
    else
      var lo := MaxInt(0, imin);
      var hi := MinInt(imax, |s| - 1);
      if lo > hi then [] else s[lo..hi + 1]
  }

  /** A window whose bounds cover every index is the whole sequence. */
  lemma WindowCoveringAll<T>(s: seq<T>, imin: int, imax: int)
    requires imin <= 0 && imax >= |s| - 1
    ensures Window(s, imin, imax) == s
  {
    if |s| > 0 {
      assert Window(s, imin, imax) == s[0..|s|];
    }
  }

  /** Clamping is idempotent: clamping the bounds first changes nothing. */
  lemma WindowClampIdempotent<T>(s: seq<T>, imin: int, imax: int)
    ensures Window(s, MaxInt(0, imin), MinInt(imax, |s| - 1)) == Window(s, imin, imax)
  {
  }

  /** A one-index window at a valid index holds exactly that element. */
  lemma WindowSingle<T>(s: seq<T>, i: int)
    requires 0 <= i < |s|
    ensures Window(s, i, i) == [s[i]]
  {
  }

  /** Consecutive windows concatenate to the window of their union. */
  lemma {:induction false} WindowSplit<T>(s: seq<T>, imin: int, mid: int, imax: int)
    requires 0 <= imin <= mid < imax < |s|
    ensures Window(s, imin, mid) + Window(s, mid + 1, imax) == Window(s, imin, imax)
  {
    assert s[imin..mid + 1] + s[mid + 1..imax + 1] == s[imin..imax + 1];
  }
}
