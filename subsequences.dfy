/**
 * Order-preserving subsequences, witnessed by the strictly increasing
 * positions at which the elements of the shorter sequence occur in the longer.
 * Both samplers promise that their output is such a subsequence of their input.
 */
module Subsequences {
  function Last<T>(s: seq<T>): T
    requires |s| > 0
  {
    s[|s| - 1]
  }

  /** `idx` lists positions of `t`, strictly increasing, at which the elements of `s` occur. */
  ghost predicate Embeds<T>(s: seq<T>, t: seq<T>, idx: seq<int>) {
    && |idx| == |s|
    && (forall k :: 0 <= k < |idx| ==> 0 <= idx[k] < |t| && s[k] == t[idx[k]])
    && (forall k :: 0 <= k < |idx| - 1 ==> idx[k] < idx[k + 1])
  }

  /** `s` is obtained from `t` by dropping elements and keeping the order of the rest. */
  ghost predicate IsSubsequence<T>(s: seq<T>, t: seq<T>) {
    exists idx :: Embeds(s, t, idx)
  }

  /** Every position moved by `d`. */
  function Shift(idx: seq<int>, d: int): (r: seq<int>)
    ensures |r| == |idx|
    ensures forall k :: 0 <= k < |r| ==> r[k] == idx[k] + d
  {
    seq(|idx|, k requires 0 <= k < |idx| => idx[k] + d)
  }

  /** The positions of an embedding rise by at least one per element. */
  lemma {:induction false} Spread<T>(s: seq<T>, t: seq<T>, idx: seq<int>, k: nat)
    requires Embeds(s, t, idx) && k < |idx|
    ensures idx[k] >= idx[0] + k
  {
    if k > 0 {
      Spread(s, t, idx, k - 1);
    }
  }

  /** A subsequence is no longer than the sequence it is taken from. */
  lemma SubsequenceLength<T>(s: seq<T>, t: seq<T>)
    requires IsSubsequence(s, t)
    ensures |s| <= |t|
  {
    var idx :| Embeds(s, t, idx);
    if |idx| > 0 {
      Spread(s, t, idx, |idx| - 1);
    }
  }

  /** Every sequence embeds in itself. */
  lemma SubsequenceOfItself<T>(t: seq<T>)
    ensures IsSubsequence(t, t)
  {
    var idx := seq(|t|, k requires 0 <= k < |t| => k);
    assert Embeds(t, t, idx);
  }

  /** A common first element may be kept in both. */
  lemma SubsequenceCons<T>(x: T, s: seq<T>, t: seq<T>)
    requires IsSubsequence(s, t)
    ensures IsSubsequence([x] + s, [x] + t)
  {
    var idx :| Embeds(s, t, idx);
    var idx' := [0] + Shift(idx, 1);
    assert Embeds([x] + s, [x] + t, idx') by {
      forall k | 0 <= k < |idx'|
        ensures 0 <= idx'[k] < |[x] + t| && ([x] + s)[k] == ([x] + t)[idx'[k]]
      {
        if k > 0 {
          assert idx'[k] == idx[k - 1] + 1;
        }
      }
    }
  }

  /** An element in front of the longer sequence may be dropped. */
  lemma SubsequenceSkip<T>(x: T, s: seq<T>, t: seq<T>)
    requires IsSubsequence(s, t)
    ensures IsSubsequence(s, [x] + t)
  {
    var idx :| Embeds(s, t, idx);
    assert Embeds(s, [x] + t, Shift(idx, 1));
  }

  /**
   * Embeddings of `a` in `t[..k + 1]` ending at `k`, and of `b` in `t[k..]`,
   * join into an embedding of `a` followed by all of `b` but its first element.
   */
  lemma EmbedsJoin<T>(a: seq<T>, b: seq<T>, t: seq<T>, k: nat, ia: seq<int>, ib: seq<int>)
    requires k < |t|
    requires Embeds(a, t[..k + 1], ia) && |ia| > 0 && Last(ia) == k
    requires Embeds(b, t[k..], ib) && |ib| > 0
    ensures Embeds(a + b[1..], t, ia + Shift(ib[1..], k))
  {
    var joined := ia + Shift(ib[1..], k);
    forall m | 0 <= m < |joined|
      ensures 0 <= joined[m] < |t| && (a + b[1..])[m] == t[joined[m]]
    {
      if m >= |ia| {
        var n := m - |ia| + 1;
        assert joined[m] == ib[n] + k;
        assert t[k..][ib[n]] == t[ib[n] + k];
      }
    }
    forall m | 0 <= m < |joined| - 1
      ensures joined[m] < joined[m + 1]
    {
      if m == |ia| - 1 {
        assert ib[0] < ib[1];
      } else if m >= |ia| {
        var n := m - |ia| + 1;
        assert ib[n] < ib[n + 1];
      }
    }
  }
}
