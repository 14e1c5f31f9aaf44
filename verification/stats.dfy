/** Sums, pooled mean and pooled population variance over real numbers
    (numpy's `sum`, `average` and the square of `std`). */
module Stats {
  import opened Seqs

  function Sum(s: seq<real>): real
    decreases |s|
  {
    if |s| == 0 then 0.0 else s[0] + Sum(s[1..])
  }

  lemma {:induction false} SumAppend(a: seq<real>, b: seq<real>)
    ensures Sum(a + b) == Sum(a) + Sum(b)
    decreases |a|
  {
    if |a| == 0 {
      assert a + b == b;
    } else {
      assert (a + b)[1..] == a[1..] + b;
      SumAppend(a[1..], b);
    }
  }

  /** A sum of `n` copies of `v` is `n * v`. */
  lemma {:induction false} SumConstant(s: seq<real>, v: real)
    requires forall k :: 0 <= k < |s| ==> s[k] == v
    ensures Sum(s) == |s| as real * v
    decreases |s|
  {
    if |s| > 0 {
      SumConstant(s[1..], v);
    }
  }

  lemma {:induction false} SumNonNegative(s: seq<real>)
    requires forall k :: 0 <= k < |s| ==> s[k] >= 0.0
    ensures Sum(s) >= 0.0
    decreases |s|
  {
    if |s| > 0 {
      SumNonNegative(s[1..]);
    }
  }

  /** The arithmetic mean; an empty pool has no entries to compare, and its mean is taken as 0. */
  function Mean(s: seq<real>): real {
    if |s| == 0 then 0.0 else Sum(s) / (|s| as real)
  }

  /** Squared deviations of the entries from `mu`. */
  function SquaredDeviations(s: seq<real>, mu: real): (r: seq<real>)
    ensures |r| == |s|
    ensures forall k :: 0 <= k < |s| ==> r[k] == (s[k] - mu) * (s[k] - mu)
  {
    seq(|s|, k requires 0 <= k < |s| => (s[k] - mu) * (s[k] - mu))
  }

  /** Population variance (`np.std(s) ** 2`, i.e. divisor `|s|`). */
  function PopVariance(s: seq<real>): real {
    if |s| == 0 then 0.0 else Sum(SquaredDeviations(s, Mean(s))) / (|s| as real)
  }

  lemma PopVarianceNonNegative(s: seq<real>)
    ensures PopVariance(s) >= 0.0
  {
    if |s| > 0 {
      var d := SquaredDeviations(s, Mean(s));
      forall k | 0 <= k < |d|
        ensures d[k] >= 0.0
      {
        var x := s[k] - Mean(s);
        assert d[k] == x * x;
        if x < 0.0 {
          assert (-x) * (-x) > 0.0;
        }
      }
      SumNonNegative(d);
    }
  }

  /** The mean of a pool in which every entry is `v` is `v`. */
  lemma MeanOfConstant(s: seq<real>, v: real)
    requires |s| > 0
    requires forall k :: 0 <= k < |s| ==> s[k] == v
    ensures Mean(s) == v
  {
    SumConstant(s, v);
  }

  lemma MultisetRemoveFirst(a: seq<nat>, b: seq<nat>, k: nat)
    requires |a| > 0 && k < |b| && b[k] == a[0]
    requires multiset(a) == multiset(b)
    ensures multiset(a[1..]) == multiset(b[..k] + b[k + 1..])
  {
    var x := a[0];
    assert b == b[..k] + [x] + b[k + 1..];
    assert a == [x] + a[1..];
    assert multiset(a[1..]) == multiset(a) - multiset{x};
    assert multiset(b[..k] + b[k + 1..]) == multiset(b) - multiset{x};
  }

  /** Removing the entry visited at step `k` takes its value out of the sum. */
  lemma SumPickRemove(v: seq<real>, b: seq<nat>, k: nat)
    requires InRange(b, |v|) && k < |b|
    ensures InRange(b[..k] + b[k + 1..], |v|)
    ensures Sum(Pick(v, b)) == v[b[k]] + Sum(Pick(v, b[..k] + b[k + 1..]))
  {
    var p, q := Pick(v, b[..k]), Pick(v, b[k + 1..]);
    assert Pick(v, b) == p + [v[b[k]]] + q;
    assert Pick(v, b[..k] + b[k + 1..]) == p + q;
    SumAppend(p + [v[b[k]]], q);
    SumAppend(p, [v[b[k]]]);
    SumAppend(p, q);
  }

  /** Summation does not depend on the order in which the entries are visited:
      any two visiting orders that list the same positions give the same sum. */
  lemma {:induction false} SumPickPermutation(v: seq<real>, a: seq<nat>, b: seq<nat>)
    requires InRange(a, |v|) && InRange(b, |v|)
    requires multiset(a) == multiset(b)
    ensures Sum(Pick(v, a)) == Sum(Pick(v, b))
    decreases |a|
  {
    if |a| == 0 {
      assert |multiset(b)| == 0;
    } else {
      assert a[0] in multiset(b);
      var k :| 0 <= k < |b| && b[k] == a[0];
      MultisetRemoveFirst(a, b, k);
      SumPickPermutation(v, a[1..], b[..k] + b[k + 1..]);
      SumPickRemove(v, b, k);
      assert Pick(v, a) == [v[a[0]]] + Pick(v, a[1..]);
    }
  }

  /** Summing in a worker pool's completion order gives the index-order sum. */
  lemma SumInAnyOrder(v: seq<real>, order: seq<nat>)
    requires IsPermutation(order, |v|)
    ensures InRange(order, |v|)
    ensures Sum(Pick(v, order)) == Sum(v)
  {
    PermutationInRange(order, |v|);
    PickRange(v);
    SumPickPermutation(v, order, Range(|v|));
  }
}
