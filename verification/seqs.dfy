/** Sequences grouped into cycles: flattening (numpy's `hstack`), contiguous
    chunking (numpy's `array_split`), index selection (`where` + fancy indexing)
    and permutations of indices (the completion order of a worker pool). */
module Seqs {

  function Min(a: int, b: int): int {
    if a <= b then a else b
  }

  /** Concatenation of all cycles, in cycle order. */
  function Flatten<T>(xss: seq<seq<T>>): seq<T>
    decreases |xss|
  {
    if |xss| == 0 then [] else Flatten(xss[..|xss| - 1]) + xss[|xss| - 1]
  }

  /** Two cycle groupings with the same number of cycles and equal cycle lengths. */
  predicate SameShape<A, B>(a: seq<seq<A>>, b: seq<seq<B>>) {
    |a| == |b| && forall c :: 0 <= c < |a| ==> |a[c]| == |b[c]|
  }

  /** `big` has an entry at every position of `small`. */
  predicate Covers<A, B>(big: seq<seq<A>>, small: seq<seq<B>>) {
    |small| <= |big| && forall c :: 0 <= c < |small| ==> |small[c]| <= |big[c]|
  }

  lemma {:induction false} FlattenAppend<T>(a: seq<seq<T>>, b: seq<seq<T>>)
    ensures Flatten(a + b) == Flatten(a) + Flatten(b)
    decreases |b|
  {
    if |b| == 0 {
      assert a + b == a;
    } else {
      var b' := b[..|b| - 1];
      assert (a + b)[..|a + b| - 1] == a + b';
      FlattenAppend(a, b');
    }
  }

  /** Cycles of the same shape flatten to sequences of the same length. */
  lemma {:induction false} FlattenSameLength<A, B>(a: seq<seq<A>>, b: seq<seq<B>>)
    requires SameShape(a, b)
    ensures |Flatten(a)| == |Flatten(b)|
    decreases |a|
  {
    if |a| > 0 {
      FlattenSameLength(a[..|a| - 1], b[..|b| - 1]);
    }
  }

  /** Every element of a flattened grouping comes from some cycle. */
  lemma {:induction false} FlattenMember<T>(xss: seq<seq<T>>, k: nat)
    requires k < |Flatten(xss)|
    ensures exists c, i :: 0 <= c < |xss| && 0 <= i < |xss[c]| && Flatten(xss)[k] == xss[c][i]
    decreases |xss|
  {
    var n := |xss|;
    var front := Flatten(xss[..n - 1]);
    if k < |front| {
      FlattenMember(xss[..n - 1], k);
      var c, i :| 0 <= c < n - 1 && 0 <= i < |xss[..n - 1][c]| && front[k] == xss[..n - 1][c][i];
      assert Flatten(xss)[k] == xss[c][i];
    } else {
      assert Flatten(xss)[k] == xss[n - 1][k - |front|];
    }
  }

  /** A flattened grouping is at least as long as any one of its cycles. */
  lemma {:induction false} FlattenCovers<T>(xss: seq<seq<T>>, c: nat)
    requires c < |xss|
    ensures |xss[c]| <= |Flatten(xss)|
    decreases |xss|
  {
    if c < |xss| - 1 {
      FlattenCovers(xss[..|xss| - 1], c);
    }
  }

  /** Two groupings of the same shape that flatten to the same sequence are equal. */
  lemma {:induction false} FlattenInjective<T>(a: seq<seq<T>>, b: seq<seq<T>>)
    requires SameShape(a, b) && Flatten(a) == Flatten(b)
    ensures a == b
    decreases |a|
  {
    var n := |a|;
    if n > 0 {
      var fa, fb := Flatten(a[..n - 1]), Flatten(b[..n - 1]);
      FlattenSameLength(a[..n - 1], b[..n - 1]);
      assert fa == Flatten(a)[..|fa|] && fb == Flatten(b)[..|fb|];
      assert a[n - 1] == Flatten(a)[|fa|..] && b[n - 1] == Flatten(b)[|fb|..];
      FlattenInjective(a[..n - 1], b[..n - 1]);
      assert a == a[..n - 1] + [a[n - 1]] && b == b[..n - 1] + [b[n - 1]];
    }
  }

  /** `0, 1, ..., n-1`. */
  function Range(n: nat): (r: seq<nat>)
    ensures |r| == n && forall i :: 0 <= i < n ==> r[i] == i
  {
    seq(n, i requires 0 <= i < n => i)
  }

  predicate InRange(idx: seq<nat>, n: nat) {
    forall k :: 0 <= k < |idx| ==> idx[k] < n
  }

  /** `s[idx]`: the entries of `s` at the listed positions, in listed order. */
  function Pick<T>(s: seq<T>, idx: seq<nat>): (r: seq<T>)
    requires InRange(idx, |s|)
    ensures |r| == |idx| && forall k :: 0 <= k < |idx| ==> r[k] == s[idx[k]]
  {
    seq(|idx|, k requires 0 <= k < |idx| => s[idx[k]])
  }

  lemma PickRange<T>(s: seq<T>)
    ensures Pick(s, Range(|s|)) == s
  {
  }

  lemma PickAppend<T>(s: seq<T>, a: seq<nat>, b: seq<nat>)
    requires InRange(a, |s|) && InRange(b, |s|)
    ensures InRange(a + b, |s|)
    ensures Pick(s, a + b) == Pick(s, a) + Pick(s, b)
  {
  }

  /** `order` lists each of `0 .. n-1` exactly once, in some order. */
  predicate IsPermutation(order: seq<nat>, n: nat) {
    |order| == n && InRange(order, n) && multiset(order) == multiset(Range(n))
  }

  lemma PermutationOfOne()
    ensures IsPermutation([0], 1)
  {
    assert Range(1) == [0];
  }

  lemma PermutationInRange(order: seq<nat>, n: nat)
    requires IsPermutation(order, n)
    ensures |order| == n && InRange(order, n)
    ensures forall i :: 0 <= i < n ==> i in order
  {
    assert |multiset(order)| == |multiset(Range(n))|;
    forall k | 0 <= k < |order|
      ensures order[k] < n
    {
      assert order[k] in multiset(order);
      assert order[k] in multiset(Range(n));
      assert order[k] in Range(n);
    }
    forall i | 0 <= i < n
      ensures i in order
    {
      assert Range(n)[i] == i;
      assert i in multiset(Range(n));
      assert i in multiset(order);
    }
  }

  /** A sequence without repeated entries holds each value at most once. */
  lemma {:induction false} DistinctCount(s: seq<nat>, v: nat)
    requires forall a, b :: 0 <= a < b < |s| ==> s[a] != s[b]
    ensures multiset(s)[v] <= 1
    decreases |s|
  {
    if |s| > 0 {
      DistinctCount(s[1..], v);
      assert s == [s[0]] + s[1..];
      assert multiset(s) == multiset{s[0]} + multiset(s[1..]);
      if s[0] == v {
        assert forall k :: 0 <= k < |s[1..]| ==> s[1..][k] != v;
        assert v !in s[1..];
      }
    }
  }

  /** A value at two positions occurs at least twice. */
  lemma RepeatCount(s: seq<nat>, t: nat, u: nat)
    requires t < u < |s|
    ensures s[t] == s[u] ==> multiset(s)[s[t]] >= 2
  {
    assert s == s[..u] + [s[u]] + s[u + 1..];
    assert multiset(s) == multiset(s[..u]) + multiset{s[u]} + multiset(s[u + 1..]);
    assert s[..u][t] == s[t];
    assert s[t] in multiset(s[..u]);
  }

  /** A permutation lists no index twice. */
  lemma PermutationDistinct(order: seq<nat>, n: nat)
    requires IsPermutation(order, n)
    ensures forall t, u :: 0 <= t < u < |order| ==> order[t] != order[u]
  {
    forall t, u | 0 <= t < u < |order|
      ensures order[t] != order[u]
    {
      RepeatCount(order, t, u);
      DistinctCount(Range(n), order[t]);
    }
  }

  /** The positions of `true` entries, in increasing order (`np.where(mask == True)`). */
  function TruePositions(mask: seq<bool>): (r: seq<nat>)
    ensures InRange(r, |mask|)
    ensures forall k :: 0 <= k < |r| ==> mask[r[k]]
    ensures forall k, l :: 0 <= k < l < |r| ==> r[k] < r[l]
    ensures forall i :: 0 <= i < |mask| && mask[i] ==> i in r
    decreases |mask|
  {
    if |mask| == 0 then []
    else
      var front := TruePositions(mask[..|mask| - 1]);
      if mask[|mask| - 1] then front + [|mask| - 1] else front
  }

  /** Number of `true` entries. */
  function CountTrue(mask: seq<bool>): nat
    decreases |mask|
  {
    if |mask| == 0 then 0 else CountTrue(mask[..|mask| - 1]) + (if mask[|mask| - 1] then 1 else 0)
  }

  lemma {:induction false} TruePositionsCount(mask: seq<bool>)
    ensures |TruePositions(mask)| == CountTrue(mask)
    decreases |mask|
  {
    if |mask| > 0 {
      TruePositionsCount(mask[..|mask| - 1]);
    }
  }

  // ---------------------------------------------------------------------------
  // numpy.array_split along axis 0: k contiguous chunks, the first n % k of
  // which hold one element more than the others.
  // ---------------------------------------------------------------------------

  /** Length of chunk `c` when `n` items are split into `k` chunks. */
  function ChunkSize(n: nat, k: nat, c: nat): nat
    requires k >= 1
  {
    n / k + (if c < n % k then 1 else 0)
  }

  /** Offset of chunk `c` when `n` items are split into `k` chunks. */
  function ChunkStart(n: nat, k: nat, c: nat): nat
    requires k >= 1
  {
    c * (n / k) + Min(c, n % k)
  }

  lemma ChunkStartStep(n: nat, k: nat, c: nat)
    requires k >= 1
    ensures ChunkStart(n, k, c + 1) == ChunkStart(n, k, c) + ChunkSize(n, k, c)
  {
    assert (c + 1) * (n / k) == c * (n / k) + n / k;
  }

  lemma ChunkStartEnd(n: nat, k: nat)
    requires k >= 1
    ensures ChunkStart(n, k, k) == n
  {
    assert n % k < k;
    assert k * (n / k) + n % k == n;
  }

  lemma {:induction false} ChunkStartBounded(n: nat, k: nat, c: nat)
    requires k >= 1 && c <= k
    ensures ChunkStart(n, k, c) <= n
    decreases k - c
  {
    if c == k {
      ChunkStartEnd(n, k);
    } else {
      ChunkStartBounded(n, k, c + 1);
      ChunkStartStep(n, k, c);
    }
  }

  /** Chunk `c` of `np.array_split(s, k)`. */
  function Chunk<T>(s: seq<T>, k: nat, c: nat): (r: seq<T>)
    requires k >= 1 && c < k
    ensures |r| == ChunkSize(|s|, k, c)
  {
    ChunkStartStep(|s|, k, c);
    ChunkStartBounded(|s|, k, c + 1);
    s[ChunkStart(|s|, k, c) .. ChunkStart(|s|, k, c + 1)]
  }

  /** `np.array_split(s, k)`: `k` contiguous chunks whose concatenation is `s`;
      the first `|s| % k` chunks have `|s| / k + 1` elements, the rest `|s| / k`. */
  function ArraySplit<T>(s: seq<T>, k: nat): (r: seq<seq<T>>)
    requires k >= 1
    ensures |r| == k
    ensures forall c :: 0 <= c < k ==> |r[c]| == ChunkSize(|s|, k, c)
    ensures Flatten(r) == s
  {
    var r := seq(k, c requires 0 <= c < k => Chunk(s, k, c));
    SplitPrefix(s, k, r, k);
    ChunkStartEnd(|s|, k);
    assert r[..k] == r;
    r
  }

  lemma {:induction false} SplitPrefix<T>(s: seq<T>, k: nat, r: seq<seq<T>>, c: nat)
    requires k >= 1 && |r| == k && c <= k
    requires forall d :: 0 <= d < k ==> r[d] == Chunk(s, k, d)
    ensures ChunkStart(|s|, k, c) <= |s|
    ensures Flatten(r[..c]) == s[..ChunkStart(|s|, k, c)]
    decreases c
  {
    ChunkStartBounded(|s|, k, c);
    if c == 0 {
      assert r[..0] == [];
    } else {
      SplitPrefix(s, k, r, c - 1);
      assert r[..c][..c - 1] == r[..c - 1];
      var lo, hi := ChunkStart(|s|, k, c - 1), ChunkStart(|s|, k, c);
      ChunkStartStep(|s|, k, c - 1);
      assert r[c - 1] == s[lo..hi];
      assert s[..lo] + s[lo..hi] == s[..hi];
    }
  }

  /** An all-`true` mask of `n` entries split into `k` cycles. */
  function AllTrueSplit(n: nat, k: nat): (r: seq<seq<bool>>)
    requires k >= 1
    ensures |r| == k
    ensures forall c :: 0 <= c < k ==> |r[c]| == ChunkSize(n, k, c)
    ensures forall c, i :: 0 <= c < |r| && 0 <= i < |r[c]| ==> r[c][i]
  {
    var r := ArraySplit(seq(n, _ => true), k);
    forall c, i | 0 <= c < |r| && 0 <= i < |r[c]|
      ensures r[c][i]
    {
      ChunkStartStep(n, k, c);
      ChunkStartBounded(n, k, c + 1);
    }
    r
  }
}
