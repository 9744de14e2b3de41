/**
 * `DistanceThresholdSampler`: a single greedy pass that keeps a coordinate
 * only when it lies at least `thresholdInMeters` from the last coordinate kept.
 * Coordinates are of an arbitrary type `P` and `distanceTo` is any function
 * from two of them to a distance.
 */
module DistanceThresholdSampler {
  import opened Subsequences

  /**
   * What the `forEach` of `sample` appends, visiting `rest` with the anchor
   * `current`: a coordinate at least `threshold` from the anchor is appended
   * and becomes the anchor.
   */
  function Greedy<P>(distanceTo: (P, P) -> real, threshold: real, current: P, rest: seq<P>): (r: seq<P>)
    ensures |r| <= |rest|
    decreases |rest|
  {
    if |rest| == 0 then []
    else if distanceTo(current, rest[0]) >= threshold then [rest[0]] + Greedy(distanceTo, threshold, rest[0], rest[1..])
    else Greedy(distanceTo, threshold, current, rest[1..])
  }

  /**
   * The list `sample` returns: the input itself for a threshold that is not
   * positive or fewer than two coordinates; otherwise the first coordinate
   * and then what the greedy pass over all coordinates, the first included,
   * appends.
   */
  function Sampled<P>(distanceTo: (P, P) -> real, threshold: real, coordinates: seq<P>): seq<P> {
    if threshold <= 0.0 || |coordinates| < 2 then coordinates
    else [coordinates[0]] + Greedy(distanceTo, threshold, coordinates[0], coordinates)
  }

  /** `sample`, with the output list appended in place and the anchor reassigned in the loop. */
  method Sample<P>(distanceTo: (P, P) -> real, thresholdInMeters: real, coordinates: seq<P>) returns (sampled: seq<P>)
    ensures sampled == Sampled(distanceTo, thresholdInMeters, coordinates)
  {
    if thresholdInMeters <= 0.0 {
      return coordinates;
    }
    if |coordinates| < 2 {
      return coordinates;
    }
    sampled := [];
    var current := coordinates[0];
    sampled := sampled + [current];
    for i := 0 to |coordinates|
      invariant sampled + Greedy(distanceTo, thresholdInMeters, current, coordinates[i..])
             == Sampled(distanceTo, thresholdInMeters, coordinates)
    {
      var coordinate := coordinates[i];
      VisitNext(distanceTo, thresholdInMeters, current, coordinates, i, sampled);
      if distanceTo(current, coordinate) >= thresholdInMeters {
        sampled := sampled + [coordinate];
        current := coordinate;
      }
    }
    assert coordinates[|coordinates|..] == [];
    assert sampled + [] == sampled;
  }

  /** One turn of the `forEach` of `sample`: coordinate `i` is appended and becomes the anchor, or is passed over. */
  lemma VisitNext<P>(distanceTo: (P, P) -> real, threshold: real, current: P, coordinates: seq<P>, i: nat, sampled: seq<P>)
    requires i < |coordinates|
    ensures var rest := Greedy(distanceTo, threshold, current, coordinates[i..]);
            && (distanceTo(current, coordinates[i]) >= threshold ==>
                  sampled + rest == (sampled + [coordinates[i]]) + Greedy(distanceTo, threshold, coordinates[i], coordinates[i + 1..]))
            && (distanceTo(current, coordinates[i]) < threshold ==>
                  sampled + rest == sampled + Greedy(distanceTo, threshold, current, coordinates[i + 1..]))
  {
    assert coordinates[i..][1..] == coordinates[i + 1..];
  }

  /** A threshold that is not positive leaves the coordinates as they are, duplicates included. */
  lemma NonPositiveThreshold<P>(distanceTo: (P, P) -> real, threshold: real, coordinates: seq<P>)
    requires threshold <= 0.0
    ensures Sampled(distanceTo, threshold, coordinates) == coordinates
  {
  }

  /** Fewer than two coordinates are returned as they are. */
  lemma TooShort<P>(distanceTo: (P, P) -> real, threshold: real, coordinates: seq<P>)
    requires |coordinates| < 2
    ensures Sampled(distanceTo, threshold, coordinates) == coordinates
  {
  }

  /** The first coordinate always opens the output. */
  lemma FirstKept<P>(distanceTo: (P, P) -> real, threshold: real, coordinates: seq<P>)
    requires |coordinates| > 0
    ensures |Sampled(distanceTo, threshold, coordinates)| >= 1
    ensures Sampled(distanceTo, threshold, coordinates)[0] == coordinates[0]
  {
  }

  /** What the greedy pass appends is taken, in order, from what it visits. */
  lemma {:induction false} GreedySubsequence<P>(distanceTo: (P, P) -> real, threshold: real, current: P, rest: seq<P>)
    ensures IsSubsequence(Greedy(distanceTo, threshold, current, rest), rest)
    decreases |rest|
  {
    if |rest| == 0 {
      SubsequenceOfItself(rest);
    } else {
      assert rest == [rest[0]] + rest[1..];
      if distanceTo(current, rest[0]) >= threshold {
        GreedySubsequence(distanceTo, threshold, rest[0], rest[1..]);
        SubsequenceCons(rest[0], Greedy(distanceTo, threshold, rest[0], rest[1..]), rest[1..]);
      } else {
        GreedySubsequence(distanceTo, threshold, current, rest[1..]);
        SubsequenceSkip(rest[0], Greedy(distanceTo, threshold, current, rest[1..]), rest[1..]);
      }
    }
  }

  /**
   * The loop compares the first coordinate with itself. When that distance is
   * below the threshold, as for any distance that is 0 from a point to itself,
   * the first coordinate is not added twice, and the output is an
   * order-preserving subsequence of the input with between 1 and n elements.
   */
  lemma SampledSubsequence<P>(distanceTo: (P, P) -> real, threshold: real, coordinates: seq<P>)
    requires |coordinates| > 0
    requires distanceTo(coordinates[0], coordinates[0]) < threshold
    ensures IsSubsequence(Sampled(distanceTo, threshold, coordinates), coordinates)
    ensures 1 <= |Sampled(distanceTo, threshold, coordinates)| <= |coordinates|
  {
    if threshold <= 0.0 || |coordinates| < 2 {
      SubsequenceOfItself(coordinates);
    } else {
      var first := coordinates[0];
      var tail := Greedy(distanceTo, threshold, first, coordinates[1..]);
      assert Greedy(distanceTo, threshold, first, coordinates) == tail;
      GreedySubsequence(distanceTo, threshold, first, coordinates[1..]);
      SubsequenceCons(first, tail, coordinates[1..]);
      assert [first] + coordinates[1..] == coordinates;
    }
    SubsequenceLength(Sampled(distanceTo, threshold, coordinates), coordinates);
  }

  /** When the first coordinate is at least the threshold from itself, the output opens with it twice. */
  lemma FirstComparedWithItself<P>(distanceTo: (P, P) -> real, threshold: real, coordinates: seq<P>)
    requires threshold > 0.0 && |coordinates| >= 2
    requires distanceTo(coordinates[0], coordinates[0]) >= threshold
    ensures |Sampled(distanceTo, threshold, coordinates)| >= 2
    ensures Sampled(distanceTo, threshold, coordinates)[..2] == [coordinates[0], coordinates[0]]
  {
  }

  /** Consecutive coordinates of `s` are at least `threshold` apart. */
  ghost predicate Spaced<P>(distanceTo: (P, P) -> real, threshold: real, s: seq<P>) {
    forall k :: 0 <= k < |s| - 1 ==> distanceTo(s[k], s[k + 1]) >= threshold
  }

  lemma {:induction false} GreedySpaced<P>(distanceTo: (P, P) -> real, threshold: real, current: P, rest: seq<P>)
    ensures Spaced(distanceTo, threshold, [current] + Greedy(distanceTo, threshold, current, rest))
    decreases |rest|
  {
    if |rest| > 0 {
      if distanceTo(current, rest[0]) >= threshold {
        var tail := Greedy(distanceTo, threshold, rest[0], rest[1..]);
        GreedySpaced(distanceTo, threshold, rest[0], rest[1..]);
        var s := [current] + ([rest[0]] + tail);
        forall k | 0 <= k < |s| - 1
          ensures distanceTo(s[k], s[k + 1]) >= threshold
        {
          if k > 0 {
            assert s[k] == ([rest[0]] + tail)[k - 1] && s[k + 1] == ([rest[0]] + tail)[k];
          }
        }
      } else {
        GreedySpaced(distanceTo, threshold, current, rest[1..]);
      }
    }
  }

  /** For a positive threshold, consecutive output coordinates are at least the threshold apart. */
  lemma SampledSpaced<P>(distanceTo: (P, P) -> real, threshold: real, coordinates: seq<P>)
    requires threshold > 0.0 && |coordinates| >= 2
    ensures Spaced(distanceTo, threshold, Sampled(distanceTo, threshold, coordinates))
  {
    GreedySpaced(distanceTo, threshold, coordinates[0], coordinates);
  }

  /** The greedy pass over one more coordinate: it is appended exactly when it is far enough from the anchor reached so far. */
  lemma {:induction false} GreedySnoc<P>(distanceTo: (P, P) -> real, threshold: real, current: P, rest: seq<P>, x: P)
    ensures Greedy(distanceTo, threshold, current, rest + [x])
         == Greedy(distanceTo, threshold, current, rest)
            + if distanceTo(Last([current] + Greedy(distanceTo, threshold, current, rest)), x) >= threshold then [x] else []
    decreases |rest|
  {
    if |rest| == 0 {
      assert [x][1..] == [];
    } else {
      assert (rest + [x])[0] == rest[0] && (rest + [x])[1..] == rest[1..] + [x];
      if distanceTo(current, rest[0]) >= threshold {
        GreedySnoc(distanceTo, threshold, rest[0], rest[1..], x);
        var tail := Greedy(distanceTo, threshold, rest[0], rest[1..]);
        assert Last([current] + ([rest[0]] + tail)) == Last([rest[0]] + tail);
      } else {
        GreedySnoc(distanceTo, threshold, current, rest[1..], x);
      }
    }
  }

  /** The anchor `current` when the loop reaches coordinate `i`: the last coordinate kept before it. */
  function AnchorAt<P>(distanceTo: (P, P) -> real, threshold: real, coordinates: seq<P>, i: nat): P
    requires 0 < |coordinates| && i <= |coordinates|
  {
    Last([coordinates[0]] + Greedy(distanceTo, threshold, coordinates[0], coordinates[..i]))
  }

  /**
   * Read left to right, the output grows one visited coordinate at a time:
   * coordinate `i` is added exactly when it is at least the threshold from
   * the anchor current at that step, and is otherwise dropped at a distance
   * below the threshold from it. After the last coordinate the output is
   * complete.
   */
  lemma StepByStep<P>(distanceTo: (P, P) -> real, threshold: real, coordinates: seq<P>, i: nat)
    requires threshold > 0.0 && |coordinates| >= 2 && i < |coordinates|
    ensures var before := Greedy(distanceTo, threshold, coordinates[0], coordinates[..i]);
            var after := Greedy(distanceTo, threshold, coordinates[0], coordinates[..i + 1]);
            && (distanceTo(AnchorAt(distanceTo, threshold, coordinates, i), coordinates[i]) >= threshold ==> after == before + [coordinates[i]])
            && (distanceTo(AnchorAt(distanceTo, threshold, coordinates, i), coordinates[i]) < threshold ==> after == before)
    ensures Sampled(distanceTo, threshold, coordinates)
         == [coordinates[0]] + Greedy(distanceTo, threshold, coordinates[0], coordinates[..|coordinates|])
  {
    assert coordinates[..i + 1] == coordinates[..i] + [coordinates[i]];
    GreedySnoc(distanceTo, threshold, coordinates[0], coordinates[..i], coordinates[i]);
    assert coordinates[..|coordinates|] == coordinates;
  }

  /** The greedy pass keeps every coordinate of a run that is already spaced from the anchor on. */
  lemma {:induction false} GreedyOfSpaced<P>(distanceTo: (P, P) -> real, threshold: real, current: P, s: seq<P>)
    requires Spaced(distanceTo, threshold, [current] + s)
    ensures Greedy(distanceTo, threshold, current, s) == s
    decreases |s|
  {
    if |s| > 0 {
      assert ([current] + s)[0] == current && ([current] + s)[1] == s[0];
      assert [s[0]] + s[1..] == s;
      forall k | 0 <= k < |[s[0]] + s[1..]| - 1
        ensures distanceTo(([s[0]] + s[1..])[k], ([s[0]] + s[1..])[k + 1]) >= threshold
      {
        assert ([current] + s)[k + 1] == s[k] && ([current] + s)[k + 2] == s[k + 1];
      }
      GreedyOfSpaced(distanceTo, threshold, s[0], s[1..]);
    }
  }

  /**
   * Sampling twice with the same threshold gives what sampling once gives,
   * when the first coordinate is closer than the threshold to itself: every
   * gap of the output already reaches the threshold, so the second pass keeps
   * it all.
   */
  lemma SampledIdempotent<P>(distanceTo: (P, P) -> real, threshold: real, coordinates: seq<P>)
    requires |coordinates| > 0 && threshold > 0.0 ==> distanceTo(coordinates[0], coordinates[0]) < threshold
    ensures Sampled(distanceTo, threshold, Sampled(distanceTo, threshold, coordinates))
         == Sampled(distanceTo, threshold, coordinates)
  {
    if threshold > 0.0 && |coordinates| >= 2 {
      var first := coordinates[0];
      var tail := Greedy(distanceTo, threshold, first, coordinates[1..]);
      assert Greedy(distanceTo, threshold, first, coordinates) == tail;
      var once := [first] + tail;
      assert Sampled(distanceTo, threshold, coordinates) == once;
      GreedySpaced(distanceTo, threshold, first, coordinates[1..]);
      GreedyOfSpaced(distanceTo, threshold, first, tail);
      if |once| >= 2 {
        assert once[0] == first && once[1..] == tail;
        assert Greedy(distanceTo, threshold, first, once) == Greedy(distanceTo, threshold, first, tail);
      }
    }
  }
}
