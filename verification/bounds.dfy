/** The acceptance-mask engine: start/stop trimming per cycle, rejection of
    outliers against the pooled mean and standard deviation, the AND-merge of
    the two sides' masks, and the reset-then-reapply recomputation. */
module Bounds {
  import opened Base
  import opened Seqs
  import opened Stats
  import opened Model

  // ---------------------------------------------------------------------------
  // start_stop_bounds
  // ---------------------------------------------------------------------------

  /** The first `count` flags of a cycle are cleared (those images are
      rejected), one position at a time; a cycle shorter than `count` is
      cleared entirely. */
  function DropFirst(row: seq<bool>, count: nat): (r: seq<bool>)
    ensures |r| == |row|
    ensures forall i :: 0 <= i < |row| ==> r[i] == (row[i] && i >= count)
    decreases count
  {
    if count == 0 then row
    else
      var prev := DropFirst(row, count - 1);
      if count - 1 < |prev| then prev[count - 1 := false] else prev
  }

  /** The last `count` flags of a cycle are cleared (those images are
      rejected), one position at a time counted from the end; a cycle shorter
      than `count` is cleared entirely. */
  function DropLast(row: seq<bool>, count: nat): (r: seq<bool>)
    ensures |r| == |row|
    ensures forall i :: 0 <= i < |row| ==> r[i] == (row[i] && i < |row| - count)
    decreases count
  {
    if count == 0 then row
    else
      var prev := DropLast(row, count - 1);
      if |prev| - 1 - (count - 1) >= 0 then prev[|prev| - 1 - (count - 1) := false] else prev
  }

  /** Every cycle keeps its length; its first `min(dropFirst, len)` and last
      `min(dropLast, len)` entries are cleared and every other entry is unchanged. */
  function StartStop(acc: seq<seq<bool>>, dropFirst: nat, dropLast: nat): (r: seq<seq<bool>>)
    ensures SameShape(r, acc)
    ensures forall c, i :: 0 <= c < |acc| && 0 <= i < |acc[c]| ==>
              r[c][i] == (acc[c][i] && Min(dropFirst, |acc[c]|) <= i < |acc[c]| - Min(dropLast, |acc[c]|))
  {
    seq(|acc|, c requires 0 <= c < |acc| => DropLast(DropFirst(acc[c], dropFirst), dropLast))
  }

  /** Trimming never accepts a rejected image, and trimming twice is trimming once. */
  lemma StartStopIdempotent(acc: seq<seq<bool>>, dropFirst: nat, dropLast: nat)
    ensures forall c, i :: 0 <= c < |acc| && 0 <= i < |acc[c]| && StartStop(acc, dropFirst, dropLast)[c][i] ==> acc[c][i]
    ensures StartStop(StartStop(acc, dropFirst, dropLast), dropFirst, dropLast) == StartStop(acc, dropFirst, dropLast)
  {
    var once := StartStop(acc, dropFirst, dropLast);
    var twice := StartStop(once, dropFirst, dropLast);
    forall c | 0 <= c < |acc|
      ensures twice[c] == once[c]
    {
    }
  }

  // ---------------------------------------------------------------------------
  // cycle_std_bounds
  // ---------------------------------------------------------------------------

  /** Outside the window `[mu - sigma * stdMin, mu + sigma * stdMax]`. */
  predicate Outlier(x: real, mu: real, sigma: real, w: Window) {
    x < mu - sigma * w.stdMin || x > mu + sigma * w.stdMax
  }

  /** `sigma` is the population standard deviation of the pooled values. */
  predicate IsPooledStd(norm: seq<seq<real>>, sigma: real) {
    sigma >= 0.0 && sigma * sigma == PopVariance(Flatten(norm))
  }

  /** Clear the flag of every entry whose value is an outlier for fixed statistics. */
  function MaskCycles(norm: seq<seq<real>>, acc: seq<seq<bool>>, mu: real, sigma: real, w: Window): (r: seq<seq<bool>>)
    requires Covers(norm, acc)
    ensures SameShape(r, acc)
    ensures forall c, i :: 0 <= c < |acc| && 0 <= i < |acc[c]| ==>
              r[c][i] == (acc[c][i] && !Outlier(norm[c][i], mu, sigma, w))
  {
    seq(|acc|, c requires 0 <= c < |acc| =>
      seq(|acc[c]|, i requires 0 <= i < |acc[c]| => acc[c][i] && !Outlier(norm[c][i], mu, sigma, w)))
  }

  /** The mean and the standard deviation are taken once over all cycles' values
      pooled together; then every entry outside the window is cleared. */
  function StdBounds(norm: seq<seq<real>>, acc: seq<seq<bool>>, w: Window, sigma: real): (r: seq<seq<bool>>)
    requires Covers(norm, acc)
    requires IsPooledStd(norm, sigma)
    ensures SameShape(r, acc)
  {
    MaskCycles(norm, acc, Mean(Flatten(norm)), sigma, w)
  }

  /** The same clearing over one flat pool of entries. */
  function MaskFlat(norm: seq<real>, acc: seq<bool>, mu: real, sigma: real, w: Window): (r: seq<bool>)
    requires |acc| <= |norm|
    ensures |r| == |acc|
    ensures forall k :: 0 <= k < |acc| ==> r[k] == (acc[k] && !Outlier(norm[k], mu, sigma, w))
  {
    seq(|acc|, k requires 0 <= k < |acc| => acc[k] && !Outlier(norm[k], mu, sigma, w))
  }

  lemma {:induction false} MaskCyclesFlattens(norm: seq<seq<real>>, acc: seq<seq<bool>>, mu: real, sigma: real, w: Window)
    requires SameShape(norm, acc)
    ensures |Flatten(acc)| == |Flatten(norm)|
    ensures Flatten(MaskCycles(norm, acc, mu, sigma, w)) == MaskFlat(Flatten(norm), Flatten(acc), mu, sigma, w)
    decreases |acc|
  {
    FlattenSameLength(norm, acc);
    var n := |acc|;
    if n > 0 {
      var r := MaskCycles(norm, acc, mu, sigma, w);
      var nf, af := norm[..n - 1], acc[..n - 1];
      MaskCyclesFlattens(nf, af, mu, sigma, w);
      assert r[..n - 1] == MaskCycles(nf, af, mu, sigma, w);
      FlattenSameLength(nf, af);
      var left := MaskFlat(Flatten(nf), Flatten(af), mu, sigma, w);
      var right := MaskFlat(norm[n - 1], acc[n - 1], mu, sigma, w);
      assert r[n - 1] == right;
      assert MaskFlat(Flatten(norm), Flatten(acc), mu, sigma, w) == left + right;
    }
  }

  /** Regrouping the same flattened values and flags into different cycles gives
      the same flattened result: only the pooled statistics matter, not the cycles. */
  lemma StdBoundsRegroup(norm1: seq<seq<real>>, acc1: seq<seq<bool>>, norm2: seq<seq<real>>, acc2: seq<seq<bool>>, w: Window, sigma: real)
    requires SameShape(norm1, acc1) && SameShape(norm2, acc2)
    requires Flatten(norm1) == Flatten(norm2) && Flatten(acc1) == Flatten(acc2)
    requires IsPooledStd(norm1, sigma)
    ensures IsPooledStd(norm2, sigma)
    ensures Flatten(StdBounds(norm1, acc1, w, sigma)) == Flatten(StdBounds(norm2, acc2, w, sigma))
  {
    var mu := Mean(Flatten(norm1));
    MaskCyclesFlattens(norm1, acc1, mu, sigma, w);
    MaskCyclesFlattens(norm2, acc2, mu, sigma, w);
  }

  /** Inside the window `[mu - sigma * stdMin, mu + sigma * stdMax]`, bounds included. */
  predicate InWindow(x: real, mu: real, sigma: real, w: Window) {
    mu - sigma * w.stdMin <= x <= mu + sigma * w.stdMax
  }

  /** An entry is cleared exactly when it lies outside the pooled window; no
      entry is set. */
  lemma StdBoundsWindow(norm: seq<seq<real>>, acc: seq<seq<bool>>, w: Window, sigma: real)
    requires Covers(norm, acc) && IsPooledStd(norm, sigma)
    ensures forall c, i :: 0 <= c < |acc| && 0 <= i < |acc[c]| ==>
              StdBounds(norm, acc, w, sigma)[c][i] == (acc[c][i] && InWindow(norm[c][i], Mean(Flatten(norm)), sigma, w))
  {
    var mu, r := Mean(Flatten(norm)), StdBounds(norm, acc, w, sigma);
    forall c, i | 0 <= c < |acc| && 0 <= i < |acc[c]|
      ensures r[c][i] == (acc[c][i] && InWindow(norm[c][i], mu, sigma, w))
    {
      assert Outlier(norm[c][i], mu, sigma, w) <==> !InWindow(norm[c][i], mu, sigma, w);
    }
  }

  /** With non-negative multipliers an entry equal to the pooled mean is never
      rejected. */
  lemma StdBoundsKeepsMean(norm: seq<seq<real>>, acc: seq<seq<bool>>, w: Window, sigma: real)
    requires Covers(norm, acc) && IsPooledStd(norm, sigma)
    requires w.stdMin >= 0.0 && w.stdMax >= 0.0
    ensures forall c, i :: 0 <= c < |acc| && 0 <= i < |acc[c]| && norm[c][i] == Mean(Flatten(norm)) ==>
              StdBounds(norm, acc, w, sigma)[c][i] == acc[c][i]
  {
    var mu, r := Mean(Flatten(norm)), StdBounds(norm, acc, w, sigma);
    assert sigma * w.stdMin >= 0.0 && sigma * w.stdMax >= 0.0;
    forall c, i | 0 <= c < |acc| && 0 <= i < |acc[c]| && norm[c][i] == mu
      ensures r[c][i] == acc[c][i]
    {
      assert !Outlier(norm[c][i], mu, sigma, w);
    }
  }

  /** When every normalization value is the same, nothing is rejected. */
  lemma StdBoundsUniformPool(norm: seq<seq<real>>, acc: seq<seq<bool>>, w: Window, sigma: real, v: real)
    requires Covers(norm, acc) && IsPooledStd(norm, sigma)
    requires w.stdMin >= 0.0 && w.stdMax >= 0.0
    requires forall c, i :: 0 <= c < |norm| && 0 <= i < |norm[c]| ==> norm[c][i] == v
    ensures StdBounds(norm, acc, w, sigma) == acc
  {
    var flat := Flatten(norm);
    if |flat| > 0 {
      forall k | 0 <= k < |flat|
        ensures flat[k] == v
      {
        FlattenMember(norm, k);
      }
      MeanOfConstant(flat, v);
      StdBoundsKeepsMean(norm, acc, w, sigma);
    } else {
      forall c | 0 <= c < |acc|
        ensures |acc[c]| == 0
      {
        FlattenCovers(norm, c);
      }
    }
    var r := StdBounds(norm, acc, w, sigma);
    forall c | 0 <= c < |acc|
      ensures r[c] == acc[c]
    {
      if |flat| > 0 {
        StdBoundsKeepsMean(norm, acc, w, sigma);
      }
    }
  }

  /** Applying the std bounds twice clears nothing more than applying them once. */
  lemma StdBoundsIdempotent(norm: seq<seq<real>>, acc: seq<seq<bool>>, w: Window, sigma: real)
    requires Covers(norm, acc) && IsPooledStd(norm, sigma)
    ensures StdBounds(norm, StdBounds(norm, acc, w, sigma), w, sigma) == StdBounds(norm, acc, w, sigma)
  {
    var once := StdBounds(norm, acc, w, sigma);
    var twice := StdBounds(norm, once, w, sigma);
    forall c | 0 <= c < |acc|
      ensures twice[c] == once[c]
    {
    }
  }

  // ---------------------------------------------------------------------------
  // merge_bounds (both sides constrained)
  // ---------------------------------------------------------------------------

  /** `np.logical_and` of two cycles of equal length. */
  function And(x: seq<bool>, y: seq<bool>): (r: seq<bool>)
    requires |x| == |y|
    ensures |r| == |x|
    ensures forall i :: 0 <= i < |x| ==> r[i] == (x[i] && y[i])
  {
    seq(|x|, i requires 0 <= i < |x| => x[i] && y[i])
  }

  /** The loops over the additive cycles index the subtractive ones without error. */
  predicate Mergeable(a: seq<seq<bool>>, b: seq<seq<bool>>) {
    |a| <= |b| && forall c :: 0 <= c < |a| ==> |a[c]| == |b[c]|
  }

  datatype Masks = Masks(additive: seq<seq<bool>>, subtractive: seq<seq<bool>>)

  /** `merge_bounds` first replaces the additive mask by `A and B`, then combines
      the already-updated additive mask with `B`, which is still `A and B`: both sides
      end with the same elementwise conjunction, over the additive cycles. */
  function Merge(a: seq<seq<bool>>, b: seq<seq<bool>>): (r: Masks)
    requires Mergeable(a, b)
    ensures SameShape(r.additive, a) && r.subtractive == r.additive
    ensures forall c, i :: 0 <= c < |a| && 0 <= i < |a[c]| ==> r.additive[c][i] == (a[c][i] && b[c][i])
  {
    var a' := seq(|a|, c requires 0 <= c < |a| => And(a[c], b[c]));
    var b' := seq(|a'|, c requires 0 <= c < |a'| => And(a'[c], b[c]));
    assert b' == a' by {
      forall c | 0 <= c < |a'|
        ensures b'[c] == a'[c]
      {
      }
    }
    Masks(a', b')
  }

  /** Merging an already merged pair changes nothing. */
  lemma MergeIdempotent(a: seq<seq<bool>>, b: seq<seq<bool>>)
    requires Mergeable(a, b)
    ensures Mergeable(Merge(a, b).additive, Merge(a, b).subtractive)
    ensures Merge(Merge(a, b).additive, Merge(a, b).subtractive) == Merge(a, b)
  {
    var m := Merge(a, b);
    var m2 := Merge(m.additive, m.subtractive);
    forall c | 0 <= c < |a|
      ensures m2.additive[c] == m.additive[c]
    {
    }
  }

  // ---------------------------------------------------------------------------
  // Recomputation over the tool state (merge_bounds, change_bounds, reset_bounds)
  // ---------------------------------------------------------------------------

  /** `sqrt` returns the non-negative square root of every non-negative real. */
  ghost predicate IsSqrt(sqrt: real -> real) {
    forall v: real :: 0.0 <= v ==> 0.0 <= sqrt(v) && sqrt(v) * sqrt(v) == v
  }

  /** `np.std` of a side's pooled normalization values. */
  function PooledStd(norm: seq<seq<real>>, sqrt: real -> real): (sigma: real)
    requires IsSqrt(sqrt)
    ensures IsPooledStd(norm, sigma)
  {
    PopVarianceNonNegative(Flatten(norm));
    sqrt(PopVariance(Flatten(norm)))
  }

  /** Every accepted flag of a side has a normalization value: `cycle_std_bounds`
      reads `norm_data[cycle][img]` for every flag. */
  predicate Covered(s: ImageSet) {
    Covers(s.normalization, s.accepted)
  }

  /** Start/stop trimming, then the std bounds, on a side's current mask. */
  function ApplyBounds(s: ImageSet, dropFirst: nat, dropLast: nat, w: Window, sqrt: real -> real): (r: ImageSet)
    requires Covered(s) && IsSqrt(sqrt)
    ensures r.names == s.names && r.normalization == s.normalization
    ensures SameShape(r.accepted, s.accepted) && Covered(r)
    ensures WellFormed(s) ==> WellFormed(r)
  {
    s.(accepted := StdBounds(s.normalization, StartStop(s.accepted, dropFirst, dropLast), w, PooledStd(s.normalization, sqrt)))
  }

  /** Every flag set to True, same shape. */
  function AllAccepted(acc: seq<seq<bool>>): (r: seq<seq<bool>>)
    ensures SameShape(r, acc)
    ensures forall c, i :: 0 <= c < |acc| && 0 <= i < |acc[c]| ==> r[c][i]
  {
    seq(|acc|, c requires 0 <= c < |acc| => seq(|acc[c]|, _ => true))
  }

  /** A mask with every flag set is its own reset. */
  lemma AllAcceptedOfTrue(acc: seq<seq<bool>>)
    requires forall c, i :: 0 <= c < |acc| && 0 <= i < |acc[c]| ==> acc[c][i]
    ensures AllAccepted(acc) == acc
  {
    var r := AllAccepted(acc);
    forall c | 0 <= c < |acc|
      ensures r[c] == acc[c]
    {
    }
  }

  /** Reset every flag to True, then trim, then apply the std bounds. */
  function Recompute(s: ImageSet, dropFirst: nat, dropLast: nat, w: Window, sqrt: real -> real): (r: ImageSet)
    requires Covered(s) && IsSqrt(sqrt)
    ensures r.names == s.names && r.normalization == s.normalization
    ensures SameShape(r.accepted, s.accepted) && Covered(r)
    ensures WellFormed(s) ==> WellFormed(r)
  {
    ApplyBounds(s.(accepted := AllAccepted(s.accepted)), dropFirst, dropLast, w, sqrt)
  }

  /** What a freshly recomputed mask says about flag `(c, i)` of a side:
      it survives trimming and its value lies inside the pooled window. */
  predicate Verdict(s: ImageSet, dropFirst: nat, dropLast: nat, w: Window, sigma: real, c: nat, i: nat)
    requires Covered(s) && c < |s.accepted| && i < |s.accepted[c]|
  {
    && Min(dropFirst, |s.accepted[c]|) <= i < |s.accepted[c]| - Min(dropLast, |s.accepted[c]|)
    && !Outlier(s.normalization[c][i], Mean(Flatten(s.normalization)), sigma, w)
  }

  /** A recomputed mask holds exactly the verdicts, and bounding it once more
      (as `merge_bounds` does for a lone constrained side) changes nothing. */
  lemma RecomputeVerdict(s: ImageSet, dropFirst: nat, dropLast: nat, w: Window, sqrt: real -> real)
    requires Covered(s) && IsSqrt(sqrt)
    ensures forall c, i :: 0 <= c < |s.accepted| && 0 <= i < |s.accepted[c]| ==>
              Recompute(s, dropFirst, dropLast, w, sqrt).accepted[c][i] ==
                Verdict(s, dropFirst, dropLast, w, PooledStd(s.normalization, sqrt), c, i)
    ensures ApplyBounds(Recompute(s, dropFirst, dropLast, w, sqrt), dropFirst, dropLast, w, sqrt) ==
              Recompute(s, dropFirst, dropLast, w, sqrt)
  {
    var r := Recompute(s, dropFirst, dropLast, w, sqrt);
    var r2 := ApplyBounds(r, dropFirst, dropLast, w, sqrt);
    forall c | 0 <= c < |s.accepted|
      ensures r2.accepted[c] == r.accepted[c]
    {
    }
  }

  /** The cycles both masks have agree in length, so `np.logical_and` pairs
      them flag by flag. */
  predicate PairShaped(a: seq<seq<bool>>, b: seq<seq<bool>>) {
    forall c :: 0 <= c < |a| && c < |b| ==> |a[c]| == |b[c]|
  }

  /** `merge_bounds` can read every mask it touches, except perhaps a missing
      subtractive cycle: with both add-set buttons checked the cycles the two
      masks share agree in length; with one checked, `cycle_std_bounds` reads a
      value for every flag of that side. */
  predicate MergeReady(st: State) {
    if st.additiveArmed && st.subtractiveArmed then
      PairShaped(st.additive.images.accepted, st.subtractive.images.accepted)
    else if st.additiveArmed then Covered(st.additive.images)
    else if st.subtractiveArmed then Covered(st.subtractive.images)
    else true
  }

  /** The merge of both masks raises `IndexError`: both buttons are checked and the loop over
      the additive cycles reaches one the subtractive mask does not have. */
  predicate MergeRaises(st: State) {
    && st.additiveArmed && st.subtractiveArmed
    && |st.additive.images.accepted| > |st.subtractive.images.accepted|
  }

  function WithMasks(st: State, a: seq<seq<bool>>, b: seq<seq<bool>>): State {
    st.(additive := st.additive.(images := st.additive.images.(accepted := a)),
        subtractive := st.subtractive.(images := st.subtractive.images.(accepted := b)))
  }

  /** `r` differs from `st` at most in the two masks. */
  predicate MasksOnly(st: State, r: State) {
    r == WithMasks(st, r.additive.images.accepted, r.subtractive.images.accepted)
  }

  /** `merge_bounds`: both add-set buttons checked -> AND-merge over the
      additive cycles, raising when the subtractive mask has fewer; exactly one
      checked -> that side is trimmed and std-bounded again; none -> no change. */
  function MergeBounds(st: State, sqrt: real -> real): (r: Result<State>)
    requires MergeReady(st) && IsSqrt(sqrt)
    ensures r.Failure? <==> MergeRaises(st)
    ensures r.Failure? ==> r.error == IndexOutOfRange
    ensures r.Success? ==> MasksOnly(st, r.value)
    ensures r.Success? ==> SameShape(r.value.additive.images.accepted, st.additive.images.accepted)
    ensures !st.additiveArmed && !st.subtractiveArmed ==> r == Success(st)
    ensures st.additiveArmed && st.subtractiveArmed && r.Success? ==>
              var m := Merge(st.additive.images.accepted, st.subtractive.images.accepted);
              r.value.additive.images.accepted == m.additive && r.value.subtractive.images.accepted == m.subtractive
    ensures st.additiveArmed && !st.subtractiveArmed ==>
              && r.Success?
              && r.value.additive.images == ApplyBounds(st.additive.images, st.dropFirst, st.dropLast, st.additive.window, sqrt)
              && r.value.subtractive == st.subtractive
    ensures !st.additiveArmed && st.subtractiveArmed ==>
              && r.Success?
              && r.value.subtractive.images == ApplyBounds(st.subtractive.images, st.dropFirst, st.dropLast, st.subtractive.window, sqrt)
              && r.value.additive == st.additive
  {
    var add, sub := st.additive, st.subtractive;
    if st.additiveArmed && st.subtractiveArmed then
      if |add.images.accepted| > |sub.images.accepted| then Failure(IndexOutOfRange)
      else
        var m := Merge(add.images.accepted, sub.images.accepted);
        Success(WithMasks(st, m.additive, m.subtractive))
    else if st.additiveArmed then
      Success(st.(additive := add.(images := ApplyBounds(add.images, st.dropFirst, st.dropLast, add.window, sqrt))))
    else if st.subtractiveArmed then
      Success(st.(subtractive := sub.(images := ApplyBounds(sub.images, st.dropFirst, st.dropLast, sub.window, sqrt))))
    else
      Success(st)
  }

  /** With at most one button checked, a side whose mask is already a fixed
      point of trimming and std-bounding comes out of `merge_bounds` as it went in. */
  lemma MergeBoundsLone(st: State, id: SetId, sqrt: real -> real)
    requires MergeReady(st) && IsSqrt(sqrt) && !(st.additiveArmed && st.subtractiveArmed)
    requires Covered(SideOf(st, id).images)
    requires ApplyBounds(SideOf(st, id).images, st.dropFirst, st.dropLast, SideOf(st, id).window, sqrt) == SideOf(st, id).images
    ensures MergeBounds(st, sqrt).Success?
    ensures SideOf(MergeBounds(st, sqrt).value, id) == SideOf(st, id)
  {
  }

  /** The states in which `merge_bounds` does not index past the subtractive
      mask: with both buttons checked, a loaded additive side has a loaded
      subtractive partner. */
  predicate MergeSafe(st: State) {
    st.additiveArmed && st.subtractiveArmed && Populated(st.additive.images) ==> Populated(st.subtractive.images)
  }

  /** Both buttons checked, only the subtractive side loaded: the merge ranges
      over no cycles. */
  predicate MergeWipes(st: State) {
    st.additiveArmed && st.subtractiveArmed && !Populated(st.additive.images) && Populated(st.subtractive.images)
  }

  /** On a valid state `merge_bounds` can run; it raises exactly when the merge
      is unsafe, keeps the state valid when it is safe, except that with both
      buttons checked and no additive cycles it replaces the subtractive mask
      by an empty one. */
  lemma MergeBoundsValid(st: State, sqrt: real -> real)
    requires Valid(st) && IsSqrt(sqrt)
    ensures MergeReady(st)
    ensures MergeBounds(st, sqrt).Success? <==> MergeSafe(st)
    ensures MergeSafe(st) && !MergeWipes(st) ==> Valid(MergeBounds(st, sqrt).value)
    ensures MergeWipes(st) ==> MergeBounds(st, sqrt).value.subtractive.images.accepted == []
  {
    ValidShapes(st);
  }

  /** `change_bounds` can read every mask it touches: each loaded side's flags
      all have values, and the final `merge_bounds` (reached when a side is
      loaded) can run up to a missing subtractive cycle. */
  predicate BoundsReady(st: State) {
    && (Populated(st.additive.images) ==> Covered(st.additive.images))
    && (Populated(st.subtractive.images) ==> Covered(st.subtractive.images))
    && (Populated(st.additive.images) || Populated(st.subtractive.images) ==> MergeReady(st))
  }

  /** Every valid state is one `change_bounds` can run on, and in a valid
      state the merge raises exactly when it is unsafe. */
  lemma ValidBoundsReady(st: State)
    requires Valid(st)
    ensures BoundsReady(st)
    ensures MergeRaises(st) <==> !MergeSafe(st)
  {
    ValidShapes(st);
  }

  /** `change_bounds`: every loaded side is reset to all-True and recomputed,
      then the sides are merged; with both trees empty nothing happens. */
  function ChangeBounds(st: State, sqrt: real -> real): (r: Result<State>)
    requires BoundsReady(st) && IsSqrt(sqrt)
    ensures r.Failure? <==> (Populated(st.additive.images) || Populated(st.subtractive.images)) && MergeRaises(st)
    ensures r.Failure? ==> r.error == IndexOutOfRange
    ensures !Populated(st.additive.images) && !Populated(st.subtractive.images) ==> r == Success(st)
    ensures r.Success? ==> MasksOnly(st, r.value)
  {
    var add, sub := st.additive, st.subtractive;
    var st1 := if Populated(add.images)
               then st.(additive := add.(images := Recompute(add.images, st.dropFirst, st.dropLast, add.window, sqrt)))
               else st;
    var st2 := if Populated(sub.images)
               then st1.(subtractive := sub.(images := Recompute(sub.images, st.dropFirst, st.dropLast, sub.window, sqrt)))
               else st1;
    if Populated(add.images) || Populated(sub.images) then MergeBounds(st2, sqrt) else Success(st2)
  }

  /** The recomputed masks are the reference verdicts: a loaded side that is
      not merged holds exactly its own verdicts; two loaded, merged sides both
      hold the conjunction of their verdicts. */
  lemma ChangeBoundsVerdict(st: State, sqrt: real -> real)
    requires BoundsReady(st) && IsSqrt(sqrt)
    ensures var r := ChangeBounds(st, sqrt);
            var add, sub := st.additive.images, st.subtractive.images;
            var sa, ss := PooledStd(add.normalization, sqrt), PooledStd(sub.normalization, sqrt);
            && (Populated(add) && !(st.additiveArmed && st.subtractiveArmed) ==>
                  r.Success? &&
                  forall c, i :: 0 <= c < |add.accepted| && 0 <= i < |add.accepted[c]| ==>
                    r.value.additive.images.accepted[c][i] == Verdict(add, st.dropFirst, st.dropLast, st.additive.window, sa, c, i))
            && (Populated(sub) && !(st.additiveArmed && st.subtractiveArmed) ==>
                  r.Success? &&
                  forall c, i :: 0 <= c < |sub.accepted| && 0 <= i < |sub.accepted[c]| ==>
                    r.value.subtractive.images.accepted[c][i] == Verdict(sub, st.dropFirst, st.dropLast, st.subtractive.window, ss, c, i))
            && (Populated(add) && Populated(sub) && st.additiveArmed && st.subtractiveArmed && r.Success? ==>
                  r.value.additive.images.accepted == r.value.subtractive.images.accepted &&
                  forall c, i :: 0 <= c < |add.accepted| && 0 <= i < |add.accepted[c]| ==>
                    r.value.additive.images.accepted[c][i] ==
                      (Verdict(add, st.dropFirst, st.dropLast, st.additive.window, sa, c, i) &&
                       Verdict(sub, st.dropFirst, st.dropLast, st.subtractive.window, ss, c, i)))
  {
    var add, sub := st.additive, st.subtractive;
    if Populated(add.images) {
      RecomputeVerdict(add.images, st.dropFirst, st.dropLast, add.window, sqrt);
    }
    if Populated(sub.images) {
      RecomputeVerdict(sub.images, st.dropFirst, st.dropLast, sub.window, sqrt);
    }
  }

  /** On a valid state `change_bounds` raises exactly when both buttons are
      checked while only the additive side is loaded. */
  lemma ChangeBoundsRaises(st: State, sqrt: real -> real)
    requires Valid(st) && IsSqrt(sqrt)
    ensures BoundsReady(st)
    ensures ChangeBounds(st, sqrt).Failure? <==>
              st.additiveArmed && st.subtractiveArmed && Populated(st.additive.images) && !Populated(st.subtractive.images)
  {
    ValidBoundsReady(st);
  }

  /** `change_bounds` keeps a valid state valid unless both buttons are checked
      while only one side is loaded. */
  lemma ChangeBoundsKeepsValid(st: State, sqrt: real -> real)
    requires Valid(st) && IsSqrt(sqrt)
    requires st.additiveArmed && st.subtractiveArmed ==>
               (Populated(st.additive.images) <==> Populated(st.subtractive.images))
    ensures BoundsReady(st)
    ensures ChangeBounds(st, sqrt).Success?
    ensures Valid(ChangeBounds(st, sqrt).value)
  {
    ValidBoundsReady(st);
  }

  /** With both buttons checked, an empty additive side and a loaded subtractive
      side (reachable because `swap_set` leaves the buttons in place), the merge
      ranges over no cycles and replaces the subtractive mask by an empty one. */
  lemma ChangeBoundsWipesSubtractive(st: State, sqrt: real -> real)
    requires Valid(st) && IsSqrt(sqrt) && MergeWipes(st)
    ensures BoundsReady(st)
    ensures ChangeBounds(st, sqrt).Success?
    ensures ChangeBounds(st, sqrt).value.subtractive.images.accepted == []
    ensures !Valid(ChangeBounds(st, sqrt).value)
  {
    ValidBoundsReady(st);
  }

  /** Recomputation starts from all-True, so the previous masks do not matter. */
  lemma ChangeBoundsForgetsMasks(st: State, a: seq<seq<bool>>, b: seq<seq<bool>>, sqrt: real -> real)
    requires Valid(st) && IsSqrt(sqrt)
    requires SameShape(a, st.additive.images.accepted) && SameShape(b, st.subtractive.images.accepted)
    ensures BoundsReady(st) && BoundsReady(WithMasks(st, a, b))
    ensures ChangeBounds(WithMasks(st, a, b), sqrt) == ChangeBounds(st, sqrt)
  {
    ValidBoundsReady(st);
    var st' := WithMasks(st, a, b);
    assert Valid(st');
    ValidBoundsReady(st');
    assert AllAccepted(a) == AllAccepted(st.additive.images.accepted);
    assert AllAccepted(b) == AllAccepted(st.subtractive.images.accepted);
    if !Populated(st.additive.images) {
      assert a == [] == st.additive.images.accepted;
    }
    if !Populated(st.subtractive.images) {
      assert b == [] == st.subtractive.images.accepted;
    }
  }

  /** The state `reset_bounds` hands to `change_bounds`: the side's multipliers
      at 4 and 4, everything else as it was. */
  function ResetWindow(st: State, id: SetId): (r: State)
    ensures SideOf(r, id) == SideOf(st, id).(window := DefaultWindow)
    ensures SideOf(r, Other(id)) == SideOf(st, Other(id))
    ensures r.additive.images == st.additive.images && r.subtractive.images == st.subtractive.images
    ensures r == st.(additive := r.additive, subtractive := r.subtractive)
  {
    WithSide(st, id, SideOf(st, id).(window := DefaultWindow))
  }

  /** `reset_bounds`: the side's multipliers become 4 and 4, then `change_bounds`
      recomputes both sides; the other side's multipliers are left alone. */
  function ResetBounds(st: State, id: SetId, sqrt: real -> real): (r: Result<State>)
    requires BoundsReady(st) && IsSqrt(sqrt)
    ensures r.Failure? <==> (Populated(st.additive.images) || Populated(st.subtractive.images)) && MergeRaises(st)
    ensures r.Success? ==> SideOf(r.value, id).window == DefaultWindow
    ensures r.Success? ==> SideOf(r.value, Other(id)).window == SideOf(st, Other(id)).window
    ensures r.Success? ==> SideOf(r.value, id).images.names == SideOf(st, id).images.names
    ensures r.Success? ==> SideOf(r.value, Other(id)).images.names == SideOf(st, Other(id)).images.names
    ensures r.Success? ==> MasksOnly(ResetWindow(st, id), r.value)
  {
    var st' := ResetWindow(st, id);
    assert SideOf(st', Other(id)) == SideOf(st, Other(id)) && SideOf(st', id).images == SideOf(st, id).images;
    ChangeBounds(st', sqrt)
  }

  /** After a reset each loaded side's mask holds the verdicts under its window,
      the default one for the reset side; with both buttons checked, both masks
      hold the conjunction of the two sides' verdicts. */
  lemma ResetBoundsVerdict(st: State, id: SetId, sqrt: real -> real)
    requires BoundsReady(st) && IsSqrt(sqrt)
    ensures var r := ResetBounds(st, id, sqrt);
            var add, sub := st.additive.images, st.subtractive.images;
            var reset := ResetWindow(st, id);
            var wa, ws := reset.additive.window, reset.subtractive.window;
            var sa, ss := PooledStd(add.normalization, sqrt), PooledStd(sub.normalization, sqrt);
            && (Populated(add) && !(st.additiveArmed && st.subtractiveArmed) ==>
                  r.Success? &&
                  forall c, i :: 0 <= c < |add.accepted| && 0 <= i < |add.accepted[c]| ==>
                    r.value.additive.images.accepted[c][i] == Verdict(add, st.dropFirst, st.dropLast, wa, sa, c, i))
            && (Populated(sub) && !(st.additiveArmed && st.subtractiveArmed) ==>
                  r.Success? &&
                  forall c, i :: 0 <= c < |sub.accepted| && 0 <= i < |sub.accepted[c]| ==>
                    r.value.subtractive.images.accepted[c][i] == Verdict(sub, st.dropFirst, st.dropLast, ws, ss, c, i))
            && (Populated(add) && Populated(sub) && st.additiveArmed && st.subtractiveArmed && r.Success? ==>
                  r.value.additive.images.accepted == r.value.subtractive.images.accepted &&
                  forall c, i :: 0 <= c < |add.accepted| && 0 <= i < |add.accepted[c]| ==>
                    r.value.additive.images.accepted[c][i] ==
                      (Verdict(add, st.dropFirst, st.dropLast, wa, sa, c, i) &&
                       Verdict(sub, st.dropFirst, st.dropLast, ws, ss, c, i)))
  {
    ChangeBoundsVerdict(ResetWindow(st, id), sqrt);
  }
}
