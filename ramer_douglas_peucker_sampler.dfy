/**
 * `RamerDouglasPeuckerSampler`: keep the endpoints of a polyline; if the
 * interior coordinate farthest from the chord between them lies more than
 * `epsilon` from it, keep that coordinate too and simplify the two halves on
 * either side of it the same way. Coordinates are of an arbitrary type `P`,
 * and `crossTrack(point, start, end)` is any distance of `point` from the
 * chord `start`-`end`.
 */
module RamerDouglasPeuckerSampler {
  import opened Wrappers
  import opened Subsequences

  /** The cross-track distance of `polyline[index]` from the chord between the first and the last coordinate. */
  function Deviation<P>(crossTrack: (P, P, P) -> real, polyline: seq<P>, index: nat): real
    requires index < |polyline|
  {
    crossTrack(polyline[index], polyline[0], Last(polyline))
  }

  /**
   * `maxByOrNull` over the indices `i` to `hi - 1`, with the candidate `best`
   * found so far: a later index replaces the candidate only when its
   * deviation is strictly greater.
   */
  function MaxBy<P>(crossTrack: (P, P, P) -> real, polyline: seq<P>, best: nat, i: nat, hi: nat): (r: nat)
    requires best < i <= hi <= |polyline|
    ensures r == best || i <= r < hi
    decreases hi - i
  {
    if i == hi then best
    else
      var best' := if Deviation(crossTrack, polyline, best) < Deviation(crossTrack, polyline, i) then i else best;
      MaxBy(crossTrack, polyline, best', i + 1, hi)
  }

  /**
   * The index that `(1..polyline.lastIndex - 1).map { … }.maxByOrNull { it.second }`
   * selects: none for fewer than three coordinates, where the range is empty.
   */
  function MaxDistanceIndex<P>(crossTrack: (P, P, P) -> real, polyline: seq<P>): (r: Option<nat>)
    ensures r.Some? <==> |polyline| >= 3
    ensures r.Some? ==> 1 <= r.value <= |polyline| - 2
  {
    if |polyline| < 3 then None else Some(MaxBy(crossTrack, polyline, 1, 2, |polyline| - 1))
  }

  /** The split index of `ramerDouglasPeucker`: the farthest interior coordinate, `takeIf` it lies farther than `epsilon`. */
  function Pivot<P>(crossTrack: (P, P, P) -> real, epsilon: real, polyline: seq<P>): (r: Option<nat>)
    ensures r.Some? ==> 1 <= r.value <= |polyline| - 2
  {
    match MaxDistanceIndex(crossTrack, polyline)
    case None => None
    case Some(k) => if Deviation(crossTrack, polyline, k) > epsilon then Some(k) else None
  }

  /**
   * `ramerDouglasPeucker`: both endpoints when no interior coordinate is
   * farther than `epsilon`, otherwise the simplified first half up to and
   * including the pivot followed by the simplified second half from the pivot
   * on without its first element, so that the pivot appears once. Both halves
   * have at least two coordinates and fewer than the polyline, which is why
   * the recursion ends.
   */
  function Simplify<P>(crossTrack: (P, P, P) -> real, epsilon: real, polyline: seq<P>): (r: seq<P>)
    requires |polyline| >= 2
    ensures 2 <= |r| <= |polyline|
    ensures r[0] == polyline[0] && Last(r) == Last(polyline)
    decreases |polyline|
  {
    match Pivot(crossTrack, epsilon, polyline)
    case None => [polyline[0], Last(polyline)]
    case Some(k) =>
      Simplify(crossTrack, epsilon, polyline[..k + 1]) + Simplify(crossTrack, epsilon, polyline[k..])[1..]
  }

  /** `sample`: the coordinates as they are for an `epsilon` that is not positive or fewer than three of them. */
  function Sample<P>(crossTrack: (P, P, P) -> real, epsilon: real, coordinates: seq<P>): seq<P> {
    if epsilon <= 0.0 || |coordinates| < 3 then coordinates else Simplify(crossTrack, epsilon, coordinates)
  }

  // ---------------------------------------------------------------------------
  // The pivot
  // ---------------------------------------------------------------------------

  /** The candidate of `maxByOrNull` is the first index of the range seen so far with the largest deviation. */
  ghost predicate FirstMaximum<P>(crossTrack: (P, P, P) -> real, polyline: seq<P>, lo: nat, hi: nat, m: nat)
    requires lo <= m < hi <= |polyline|
  {
    && (forall j :: lo <= j < hi ==> Deviation(crossTrack, polyline, j) <= Deviation(crossTrack, polyline, m))
    && (forall j :: lo <= j < m ==> Deviation(crossTrack, polyline, j) < Deviation(crossTrack, polyline, m))
  }

  lemma {:induction false} MaxByFirstMaximum<P>(crossTrack: (P, P, P) -> real, polyline: seq<P>, lo: nat, best: nat, i: nat, hi: nat)
    requires lo <= best < i <= hi <= |polyline|
    requires FirstMaximum(crossTrack, polyline, lo, i, best)
    ensures lo <= MaxBy(crossTrack, polyline, best, i, hi) < hi
    ensures FirstMaximum(crossTrack, polyline, lo, hi, MaxBy(crossTrack, polyline, best, i, hi))
    decreases hi - i
  {
    if i < hi {
      var best' := if Deviation(crossTrack, polyline, best) < Deviation(crossTrack, polyline, i) then i else best;
      MaxByFirstMaximum(crossTrack, polyline, lo, best', i + 1, hi);
    }
  }

  /**
   * The pivot is the first interior index attaining the largest deviation,
   * and it exists exactly when that deviation exceeds `epsilon`.
   */
  lemma PivotChoice<P>(crossTrack: (P, P, P) -> real, epsilon: real, polyline: seq<P>)
    ensures Pivot(crossTrack, epsilon, polyline).Some? ==>
              var k := Pivot(crossTrack, epsilon, polyline).value;
              && 1 <= k <= |polyline| - 2
              && Deviation(crossTrack, polyline, k) > epsilon
              && FirstMaximum(crossTrack, polyline, 1, |polyline| - 1, k)
    ensures Pivot(crossTrack, epsilon, polyline).None? <==>
              forall j :: 1 <= j <= |polyline| - 2 ==> Deviation(crossTrack, polyline, j) <= epsilon
  {
    if |polyline| >= 3 {
      MaxByFirstMaximum(crossTrack, polyline, 1, 1, 2, |polyline| - 1);
    }
  }

  // ---------------------------------------------------------------------------
  // What the simplification keeps
  // ---------------------------------------------------------------------------

  /** The positions of the coordinates `Simplify` keeps, mirroring its recursion. */
  ghost function Kept<P>(crossTrack: (P, P, P) -> real, epsilon: real, polyline: seq<P>): (idx: seq<int>)
    requires |polyline| >= 2
    ensures |idx| >= 2
    decreases |polyline|
  {
    match Pivot(crossTrack, epsilon, polyline)
    case None => [0, |polyline| - 1]
    case Some(k) =>
      Kept(crossTrack, epsilon, polyline[..k + 1]) + Shift(Kept(crossTrack, epsilon, polyline[k..])[1..], k)
  }

  /**
   * Between any two consecutive kept positions, every dropped coordinate lies
   * within `epsilon` of the chord between the two kept ones.
   */
  ghost predicate WithinTolerance<P>(crossTrack: (P, P, P) -> real, epsilon: real, polyline: seq<P>, idx: seq<int>) {
    forall k, j :: 0 <= k < |idx| - 1 && 0 <= idx[k] < j < idx[k + 1] < |polyline| ==>
      crossTrack(polyline[j], polyline[idx[k]], polyline[idx[k + 1]]) <= epsilon
  }

  /** The kept positions of a polyline: an embedding from the first position to the last, within tolerance. */
  ghost predicate Keeps<P>(crossTrack: (P, P, P) -> real, epsilon: real, polyline: seq<P>, s: seq<P>, idx: seq<int>) {
    && Embeds(s, polyline, idx)
    && |idx| >= 2 && idx[0] == 0 && Last(idx) == |polyline| - 1
    && WithinTolerance(crossTrack, epsilon, polyline, idx)
  }

  /** The tolerance of both halves carries over to the joined positions. */
  lemma ToleranceJoin<P>(crossTrack: (P, P, P) -> real, epsilon: real, polyline: seq<P>, k: nat, ia: seq<int>, ib: seq<int>)
    requires k < |polyline|
    requires |ia| > 0 && Last(ia) == k && |ib| >= 2 && ib[0] == 0
    requires forall x :: 0 <= x < |ia| ==> 0 <= ia[x] <= k
    requires forall x :: 0 <= x < |ib| ==> 0 <= ib[x] < |polyline| - k
    requires WithinTolerance(crossTrack, epsilon, polyline[..k + 1], ia)
    requires WithinTolerance(crossTrack, epsilon, polyline[k..], ib)
    ensures WithinTolerance(crossTrack, epsilon, polyline, ia + Shift(ib[1..], k))
  {
    var joined := ia + Shift(ib[1..], k);
    forall m, j | 0 <= m < |joined| - 1 && 0 <= joined[m] < j < joined[m + 1] < |polyline|
      ensures crossTrack(polyline[j], polyline[joined[m]], polyline[joined[m + 1]]) <= epsilon
    {
      if m < |ia| - 1 {
        assert joined[m] == ia[m] && joined[m + 1] == ia[m + 1];
        ToleranceInFirstHalf(crossTrack, epsilon, polyline, k, ia, m, j);
      } else {
        var n := m - |ia| + 1;
        assert joined[m] == ib[n] + k && joined[m + 1] == ib[n + 1] + k;
        ToleranceInSecondHalf(crossTrack, epsilon, polyline, k, ib, n, j);
      }
    }
  }

  lemma ToleranceInFirstHalf<P>(crossTrack: (P, P, P) -> real, epsilon: real, polyline: seq<P>, k: nat, ia: seq<int>, m: nat, j: int)
    requires k < |polyline| && m < |ia| - 1
    requires 0 <= ia[m] < j < ia[m + 1] <= k
    requires WithinTolerance(crossTrack, epsilon, polyline[..k + 1], ia)
    ensures crossTrack(polyline[j], polyline[ia[m]], polyline[ia[m + 1]]) <= epsilon
  {
    var first := polyline[..k + 1];
    assert first[j] == polyline[j] && first[ia[m]] == polyline[ia[m]] && first[ia[m + 1]] == polyline[ia[m + 1]];
  }

  lemma ToleranceInSecondHalf<P>(crossTrack: (P, P, P) -> real, epsilon: real, polyline: seq<P>, k: nat, ib: seq<int>, n: nat, j: int)
    requires k < |polyline| && n < |ib| - 1
    requires 0 <= ib[n] && ib[n] + k < j < ib[n + 1] + k < |polyline|
    requires WithinTolerance(crossTrack, epsilon, polyline[k..], ib)
    ensures crossTrack(polyline[j], polyline[ib[n] + k], polyline[ib[n + 1] + k]) <= epsilon
  {
    var second := polyline[k..];
    assert second[j - k] == polyline[j] && second[ib[n]] == polyline[ib[n] + k] && second[ib[n + 1]] == polyline[ib[n + 1] + k];
  }

  /** With no pivot, the two endpoints are kept and every interior coordinate is within tolerance. */
  lemma KeepsEndpoints<P>(crossTrack: (P, P, P) -> real, epsilon: real, polyline: seq<P>)
    requires |polyline| >= 2
    requires forall j :: 1 <= j <= |polyline| - 2 ==> Deviation(crossTrack, polyline, j) <= epsilon
    ensures Keeps(crossTrack, epsilon, polyline, [polyline[0], Last(polyline)], [0, |polyline| - 1])
  {
    var idx := [0, |polyline| - 1];
    forall k, j | 0 <= k < |idx| - 1 && 0 <= idx[k] < j < idx[k + 1] < |polyline|
      ensures crossTrack(polyline[j], polyline[idx[k]], polyline[idx[k + 1]]) <= epsilon
    {
      assert Deviation(crossTrack, polyline, j) <= epsilon;
    }
  }

  /** What the two halves keep, joined at the pivot, is what the whole polyline keeps. */
  lemma KeepsJoin<P>(crossTrack: (P, P, P) -> real, epsilon: real, polyline: seq<P>, k: nat,
                     a: seq<P>, ia: seq<int>, b: seq<P>, ib: seq<int>)
    requires 1 <= k <= |polyline| - 2
    requires Keeps(crossTrack, epsilon, polyline[..k + 1], a, ia)
    requires Keeps(crossTrack, epsilon, polyline[k..], b, ib)
    ensures Keeps(crossTrack, epsilon, polyline, a + b[1..], ia + Shift(ib[1..], k))
  {
    EmbedsJoin(a, b, polyline, k, ia, ib);
    ToleranceJoin(crossTrack, epsilon, polyline, k, ia, ib);
    var joined := ia + Shift(ib[1..], k);
    assert joined[0] == ia[0];
    assert Last(joined) == Last(ib) + k;
  }

  /** `Kept` witnesses that `Simplify` keeps both endpoints, drops coordinates in order and only within tolerance. */
  lemma {:induction false} SimplifyKeeps<P>(crossTrack: (P, P, P) -> real, epsilon: real, polyline: seq<P>)
    requires |polyline| >= 2
    ensures Keeps(crossTrack, epsilon, polyline, Simplify(crossTrack, epsilon, polyline), Kept(crossTrack, epsilon, polyline))
    decreases |polyline|
  {
    PivotChoice(crossTrack, epsilon, polyline);
    match Pivot(crossTrack, epsilon, polyline)
    case None =>
      KeepsEndpoints(crossTrack, epsilon, polyline);
    case Some(k) =>
      var first, second := polyline[..k + 1], polyline[k..];
      SimplifyKeeps(crossTrack, epsilon, first);
      SimplifyKeeps(crossTrack, epsilon, second);
      var a, b := Simplify(crossTrack, epsilon, first), Simplify(crossTrack, epsilon, second);
      var ia, ib := Kept(crossTrack, epsilon, first), Kept(crossTrack, epsilon, second);
      KeepsJoin(crossTrack, epsilon, polyline, k, a, ia, b, ib);
  }

  /**
   * At a pivot `k`, the output is the simplified first half up to the pivot
   * followed by the simplified second half after it: its length is the sum of
   * the halves' lengths less one, and position `k` is kept exactly once, as
   * the last coordinate of the first half.
   */
  lemma PivotKeptOnce<P>(crossTrack: (P, P, P) -> real, epsilon: real, polyline: seq<P>, k: nat)
    requires |polyline| >= 2 && Pivot(crossTrack, epsilon, polyline) == Some(k)
    ensures |Simplify(crossTrack, epsilon, polyline)|
         == |Simplify(crossTrack, epsilon, polyline[..k + 1])| + |Simplify(crossTrack, epsilon, polyline[k..])| - 1
    ensures var idx := Kept(crossTrack, epsilon, polyline);
            var m := |Kept(crossTrack, epsilon, polyline[..k + 1])| - 1;
            && m < |idx| && idx[m] == k
            && forall n :: 0 <= n < |idx| && n != m ==> idx[n] != k
  {
    SimplifyKeeps(crossTrack, epsilon, polyline);
    SimplifyKeeps(crossTrack, epsilon, polyline[..k + 1]);
    var idx := Kept(crossTrack, epsilon, polyline);
    var m := |Kept(crossTrack, epsilon, polyline[..k + 1])| - 1;
    assert idx[m] == k;
    forall n | 0 <= n < |idx| && n != m
      ensures idx[n] != k
    {
      if n < m {
        StrictlyIncreasing(idx, n, m);
      } else {
        StrictlyIncreasing(idx, m, n);
      }
    }
  }

  /** The positions of the output increase strictly from one to the next, hence between any two. */
  lemma {:induction false} StrictlyIncreasing(idx: seq<int>, a: nat, b: nat)
    requires a < b < |idx|
    requires forall k :: 0 <= k < |idx| - 1 ==> idx[k] < idx[k + 1]
    ensures idx[a] < idx[b]
    decreases b - a
  {
    if a + 1 < b {
      StrictlyIncreasing(idx, a + 1, b);
    }
  }

  /**
   * A smaller `epsilon` keeps at least as many coordinates: every pivot
   * taken at the larger tolerance is taken at the smaller one too.
   */
  lemma {:induction false} MonotoneInEpsilon<P>(crossTrack: (P, P, P) -> real, smaller: real, larger: real, polyline: seq<P>)
    requires |polyline| >= 2 && smaller <= larger
    ensures |Simplify(crossTrack, smaller, polyline)| >= |Simplify(crossTrack, larger, polyline)|
    decreases |polyline|
  {
    match Pivot(crossTrack, larger, polyline)
    case None =>
    case Some(k) =>
      assert Pivot(crossTrack, smaller, polyline) == Some(k);
      MonotoneInEpsilon(crossTrack, smaller, larger, polyline[..k + 1]);
      MonotoneInEpsilon(crossTrack, smaller, larger, polyline[k..]);
  }

  // ---------------------------------------------------------------------------
  // The properties of `sample`
  // ---------------------------------------------------------------------------

  /** An `epsilon` that is not positive, or fewer than three coordinates, leave the coordinates as they are. */
  lemma SampleUnchanged<P>(crossTrack: (P, P, P) -> real, epsilon: real, coordinates: seq<P>)
    requires epsilon <= 0.0 || |coordinates| < 3
    ensures Sample(crossTrack, epsilon, coordinates) == coordinates
  {
  }

  /**
   * Otherwise the output keeps the first and the last coordinate, is an
   * order-preserving subsequence of the input with between 2 and n
   * coordinates, and every dropped coordinate lies within `epsilon` of the
   * chord between the kept coordinates on either side of it.
   */
  lemma SampleSimplifies<P>(crossTrack: (P, P, P) -> real, epsilon: real, coordinates: seq<P>)
    requires epsilon > 0.0 && |coordinates| >= 3
    ensures var r := Sample(crossTrack, epsilon, coordinates);
            && 2 <= |r| <= |coordinates|
            && r[0] == coordinates[0] && Last(r) == Last(coordinates)
            && IsSubsequence(r, coordinates)
            && exists idx :: Keeps(crossTrack, epsilon, coordinates, r, idx)
  {
    SimplifyKeeps(crossTrack, epsilon, coordinates);
  }

  /** The output is just the two endpoints exactly when no interior coordinate deviates by more than `epsilon`. */
  lemma EndpointsOnly<P>(crossTrack: (P, P, P) -> real, epsilon: real, polyline: seq<P>)
    requires |polyline| >= 2
    ensures Simplify(crossTrack, epsilon, polyline) == [polyline[0], Last(polyline)] <==>
              forall j :: 1 <= j <= |polyline| - 2 ==> Deviation(crossTrack, polyline, j) <= epsilon
  {
    PivotChoice(crossTrack, epsilon, polyline);
    match Pivot(crossTrack, epsilon, polyline)
    case None =>
    case Some(k) =>
      var a := Simplify(crossTrack, epsilon, polyline[..k + 1]);
      var b := Simplify(crossTrack, epsilon, polyline[k..]);
      assert |a + b[1..]| >= 3;
  }

  /** For the public `sample`, a smaller `epsilon` never returns fewer coordinates than a larger one. */
  lemma SampleMonotone<P>(crossTrack: (P, P, P) -> real, smaller: real, larger: real, coordinates: seq<P>)
    requires smaller <= larger
    ensures |Sample(crossTrack, smaller, coordinates)| >= |Sample(crossTrack, larger, coordinates)|
  {
    if larger > 0.0 && |coordinates| >= 3 && smaller > 0.0 {
      MonotoneInEpsilon(crossTrack, smaller, larger, coordinates);
    }
  }
}
