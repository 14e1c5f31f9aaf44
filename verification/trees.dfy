/** The image-set operations behind the tree widgets: loading a set (split into
    cycles, normalization per image, bounds), re-chunking when the cycle count
    changes, swapping the two sets, removing a set, and adding or removing the
    multiplicative correction. */
module Trees {
  import opened Base
  import opened Seqs
  import opened Images
  import opened Model
  import opened Bounds
  import opened Selection

  // ---------------------------------------------------------------------------
  // normalization_factors, scattered back by index
  // ---------------------------------------------------------------------------

  /** The first position whose path cannot be read, if any. */
  function FirstUnreadable(paths: seq<string>, store: Store): (r: Option<nat>)
    ensures r.None? <==> forall i :: 0 <= i < |paths| ==> paths[i] in store
    ensures r.Some? ==> r.value < |paths| && paths[r.value] !in store
    decreases |paths|
  {
    if |paths| == 0 then None
    else if paths[0] !in store then Some(0)
    else match FirstUnreadable(paths[1..], store)
      case None => None
      case Some(i) => Some(i + 1)
  }

  /** The normalization value of every image: its intensity summed over the
      1%-cropped region, in the order of the paths. */
  function Normalizations(paths: seq<string>, store: Store): (r: Result<seq<real>>)
    ensures r.Success? <==> forall i :: 0 <= i < |paths| ==> paths[i] in store
    ensures r.Success? ==> |r.value| == |paths|
    ensures r.Success? ==> forall i :: 0 <= i < |paths| ==> r.value[i] == CropSum(store[paths[i]])
    ensures r.Failure? ==> exists i :: 0 <= i < |paths| && paths[i] !in store && r.error == LoadFailure(paths[i])
  {
    match FirstUnreadable(paths, store)
    case Some(i) => Failure(LoadFailure(paths[i]))
    case None => Success(seq(|paths|, i requires 0 <= i < |paths| => CropSum(store[paths[i]])))
  }

  /** The worker pool's results `(index, value)` arrive in the completion order
      `order` and are written into a zero-filled array at their index. Whatever
      the order, the array ends up holding every image's own value; the first
      unreadable image met in completion order aborts the scatter. */
  method ScatterNormalization(paths: seq<string>, store: Store, order: seq<nat>) returns (r: Result<seq<real>>)
    requires IsPermutation(order, |paths|)
    ensures r.Success? <==> Normalizations(paths, store).Success?
    ensures r.Success? ==> r == Normalizations(paths, store)
    ensures r.Failure? ==> exists i :: 0 <= i < |paths| && paths[i] !in store && r.error == LoadFailure(paths[i])
  {
    PermutationInRange(order, |paths|);
    var norm := seq(|paths|, _ => 0.0);
    var t := 0;
    while t < |order|
      invariant 0 <= t <= |order|
      invariant |norm| == |paths|
      invariant forall u :: 0 <= u < t ==> paths[order[u]] in store && norm[order[u]] == CropSum(store[paths[order[u]]])
    {
      var index := order[t];
      if paths[index] !in store {
        return Failure(LoadFailure(paths[index]));
      }
      norm := norm[index := CropSum(store[paths[index]])];
      t := t + 1;
    }
    forall i | 0 <= i < |paths|
      ensures paths[i] in store && norm[i] == CropSum(store[paths[i]])
    {
      assert i in order;
      var u :| 0 <= u < |order| && order[u] == i;
    }
    r := Success(norm);
    assert norm == Normalizations(paths, store).value;
  }

  // ---------------------------------------------------------------------------
  // add_set and add_set_logic
  // ---------------------------------------------------------------------------

  /** A freshly loaded set: names and values split into `cycles` chunks, every flag True. */
  function Fresh(chosen: seq<string>, norms: seq<real>, cycles: nat): (s: ImageSet)
    requires cycles >= 1 && |norms| == |chosen|
    ensures WellFormed(s) && SplitShaped(s.names, cycles)
    ensures Flatten(s.names) == chosen && Flatten(s.normalization) == norms
    ensures forall c, i :: 0 <= c < |s.accepted| && 0 <= i < |s.accepted[c]| ==> s.accepted[c][i]
  {
    ImageSet(ArraySplit(chosen, cycles), AllTrueSplit(|chosen|, cycles), ArraySplit(norms, cycles))
  }

  /** A side holds the chosen paths in `cycles` array_split cycles, with every
      image's cropped intensity sum as its normalization, in the same order. */
  predicate LoadedFrom(s: ImageSet, chosen: seq<string>, store: Store, cycles: nat)
    requires cycles >= 1
  {
    && Flatten(s.names) == chosen
    && SplitShaped(s.names, cycles)
    && |Flatten(s.normalization)| == |chosen|
    && forall k :: 0 <= k < |chosen| ==>
         chosen[k] in store && Flatten(s.normalization)[k] == CropSum(store[chosen[k]])
  }

  lemma FreshLoadedFrom(s: ImageSet, chosen: seq<string>, store: Store, norms: seq<real>, cycles: nat)
    requires cycles >= 1 && Normalizations(chosen, store) == Success(norms)
    requires s.names == Fresh(chosen, norms, cycles).names
    requires s.normalization == Fresh(chosen, norms, cycles).normalization
    ensures LoadedFrom(s, chosen, store, cycles)
  {
  }

  /** The final merge of a load does not index past the subtractive mask: a
      load into the additive side, with both buttons checked, needs a loaded
      subtractive side. */
  predicate AddSafe(st: State, id: SetId) {
    id == AdditiveSet && st.additiveArmed && st.subtractiveArmed ==> Populated(st.subtractive.images)
  }

  /** A load into the subtractive side while the additive side is empty and both
      buttons are checked: the merge then ranges over no cycles. */
  predicate WipesMask(st: State, id: SetId) {
    id == SubtractiveSet && st.additiveArmed && st.subtractiveArmed && !Populated(st.additive.images)
  }

  /** The state once the loaded side holds the fresh set, trimmed and
      std-bounded, just before `merge_bounds`. */
  function LoadInto(st: State, id: SetId, chosen: seq<string>, norms: seq<real>, sqrt: real -> real): (r: State)
    requires Valid(st) && IsSqrt(sqrt) && |norms| == |chosen|
    requires Populated(SideOf(st, Other(id)).images) ==> |Flatten(SideOf(st, Other(id)).images.names)| == |chosen|
    ensures Valid(r)
    ensures Populated(SideOf(r, id).images)
    ensures SideOf(r, id) == SideOf(st, id).(images := SideOf(r, id).images)
    ensures SideOf(r, id).images ==
              ApplyBounds(Fresh(chosen, norms, st.cycles), st.dropFirst, st.dropLast, SideOf(st, id).window, sqrt)
    ensures r == WithSide(st, id, SideOf(r, id))
  {
    var side := SideOf(st, id);
    WithSide(st, id, side.(images := ApplyBounds(Fresh(chosen, norms, st.cycles), st.dropFirst, st.dropLast, side.window, sqrt)))
  }

  /** After a load `merge_bounds` can read the masks, and it raises exactly
      when the load is not `AddSafe`: an additive load with both buttons
      checked and no subtractive cycles to pair with. */
  lemma LoadReady(st: State, id: SetId, chosen: seq<string>, norms: seq<real>, sqrt: real -> real)
    requires Valid(st) && IsSqrt(sqrt) && |norms| == |chosen|
    requires Populated(SideOf(st, Other(id)).images) ==> |Flatten(SideOf(st, Other(id)).images.names)| == |chosen|
    ensures MergeReady(LoadInto(st, id, chosen, norms, sqrt))
    ensures MergeRaises(LoadInto(st, id, chosen, norms, sqrt)) <==> !AddSafe(st, id)
  {
    var st1 := LoadInto(st, id, chosen, norms, sqrt);
    ValidBoundsReady(st1);
    assert Populated(SideOf(st1, id).images);
    assert MergeSafe(st1) <==> AddSafe(st, id);
  }

  /** What `merge_bounds` leaves after a load: it raises `IndexError` exactly
      when the load is not `AddSafe`; otherwise the loaded side keeps the fresh
      names and values, the other side its own, and with both buttons checked
      the two masks are the same. */
  lemma LoadMerged(st: State, id: SetId, chosen: seq<string>, norms: seq<real>, sqrt: real -> real)
    requires Valid(st) && IsSqrt(sqrt) && |norms| == |chosen|
    requires Populated(SideOf(st, Other(id)).images) ==> |Flatten(SideOf(st, Other(id)).images.names)| == |chosen|
    ensures MergeReady(LoadInto(st, id, chosen, norms, sqrt))
    ensures var r := MergeBounds(LoadInto(st, id, chosen, norms, sqrt), sqrt);
            && (r.Success? <==> AddSafe(st, id))
            && (r.Failure? ==> r.error == IndexOutOfRange)
            && (r.Success? ==>
                  && SideOf(r.value, id).images.names == Fresh(chosen, norms, st.cycles).names
                  && SideOf(r.value, id).images.normalization == Fresh(chosen, norms, st.cycles).normalization
                  && SideOf(r.value, Other(id)).images.names == SideOf(st, Other(id)).images.names
                  && SideOf(r.value, Other(id)).images.normalization == SideOf(st, Other(id)).images.normalization
                  && r.value == st.(additive := r.value.additive, subtractive := r.value.subtractive)
                  && SideOf(r.value, id) == SideOf(st, id).(images := SideOf(r.value, id).images)
                  && SideOf(r.value, Other(id)) == SideOf(st, Other(id)).(images := SideOf(r.value, Other(id)).images))
            && (r.Success? && st.additiveArmed && st.subtractiveArmed ==>
                  r.value.additive.images.accepted == r.value.subtractive.images.accepted)
  {
    LoadReady(st, id, chosen, norms, sqrt);
  }

  /** The merge after a load keeps the state valid unless it raises or wipes
      the subtractive mask. */
  lemma LoadMergedValid(st: State, id: SetId, chosen: seq<string>, norms: seq<real>, sqrt: real -> real)
    requires Valid(st) && IsSqrt(sqrt) && |norms| == |chosen|
    requires Populated(SideOf(st, Other(id)).images) ==> |Flatten(SideOf(st, Other(id)).images.names)| == |chosen|
    ensures MergeReady(LoadInto(st, id, chosen, norms, sqrt))
    ensures var r := MergeBounds(LoadInto(st, id, chosen, norms, sqrt), sqrt);
            && (r.Success? && !WipesMask(st, id) ==> Valid(r.value))
            && (WipesMask(st, id) ==> r.Success? && r.value.subtractive.images.accepted == [])
  {
    LoadReady(st, id, chosen, norms, sqrt);
    MergeBoundsValid(LoadInto(st, id, chosen, norms, sqrt), sqrt);
  }

  /** With at most one button checked, `merge_bounds` trims and std-bounds the
      loaded side once more, which leaves the freshly recomputed mask as it is. */
  lemma LoadMergedLone(st: State, id: SetId, chosen: seq<string>, norms: seq<real>, sqrt: real -> real)
    requires Valid(st) && IsSqrt(sqrt) && |norms| == |chosen|
    requires Populated(SideOf(st, Other(id)).images) ==> |Flatten(SideOf(st, Other(id)).images.names)| == |chosen|
    requires !(st.additiveArmed && st.subtractiveArmed)
    ensures MergeReady(LoadInto(st, id, chosen, norms, sqrt))
    ensures MergeBounds(LoadInto(st, id, chosen, norms, sqrt), sqrt).Success?
    ensures SideOf(MergeBounds(LoadInto(st, id, chosen, norms, sqrt), sqrt).value, id).images ==
              Recompute(Fresh(chosen, norms, st.cycles), st.dropFirst, st.dropLast, SideOf(st, id).window, sqrt)
  {
    var loaded := Fresh(chosen, norms, st.cycles);
    var w := SideOf(st, id).window;
    var st1 := LoadInto(st, id, chosen, norms, sqrt);
    LoadReady(st, id, chosen, norms, sqrt);
    var once := ApplyBounds(loaded, st.dropFirst, st.dropLast, w, sqrt);
    AllAcceptedOfTrue(loaded.accepted);
    assert once == Recompute(loaded, st.dropFirst, st.dropLast, w, sqrt);
    RecomputeVerdict(loaded, st.dropFirst, st.dropLast, w, sqrt);
    assert SideOf(st1, id).images == once && SideOf(st1, id).window == w;
    MergeBoundsLone(st1, id, sqrt);
  }

  /** `add_set`: the chosen paths are split into cycles with an all-True mask,
      every image's normalization is computed and split the same way, then
      start/stop trimming, the std bounds and `merge_bounds` are applied; an
      unreadable image or the merge's `IndexError` stops it. What stays
      unchanged is stated by `AddSetFrame`, validity by `AddSetValid`. */
  function AddSet(st: State, id: SetId, chosen: seq<string>, store: Store, sqrt: real -> real): (r: Result<State>)
    requires Valid(st) && IsSqrt(sqrt)
    requires Populated(SideOf(st, Other(id)).images) ==> |Flatten(SideOf(st, Other(id)).images.names)| == |chosen|
    ensures r.Success? <==> (forall i :: 0 <= i < |chosen| ==> chosen[i] in store) && AddSafe(st, id)
    ensures r.Failure? && r.error != IndexOutOfRange ==>
              exists i :: 0 <= i < |chosen| && chosen[i] !in store && r.error == LoadFailure(chosen[i])
    ensures r.Failure? && (forall i :: 0 <= i < |chosen| ==> chosen[i] in store) ==> r.error == IndexOutOfRange
    ensures r.Success? ==> LoadedFrom(SideOf(r.value, id).images, chosen, store, st.cycles)
  {
    var norms :- Normalizations(chosen, store);
    LoadMerged(st, id, chosen, norms, sqrt);
    var merged :- MergeBounds(LoadInto(st, id, chosen, norms, sqrt), sqrt);
    FreshLoadedFrom(SideOf(merged, id).images, chosen, store, norms, st.cycles);
    Success(merged)
  }

  /** Once every image is read, `add_set` ends with the merge's outcome. */
  lemma AddSetMerges(st: State, id: SetId, chosen: seq<string>, store: Store, norms: seq<real>, sqrt: real -> real)
    requires Valid(st) && IsSqrt(sqrt)
    requires Populated(SideOf(st, Other(id)).images) ==> |Flatten(SideOf(st, Other(id)).images.names)| == |chosen|
    requires Normalizations(chosen, store) == Success(norms)
    ensures MergeReady(LoadInto(st, id, chosen, norms, sqrt))
    ensures AddSet(st, id, chosen, store, sqrt) == MergeBounds(LoadInto(st, id, chosen, norms, sqrt), sqrt)
  {
    LoadReady(st, id, chosen, norms, sqrt);
  }

  /** A load changes nothing but the two sides' images: the other side keeps
      its names and values, both sides their multipliers and rotation, and the
      buttons, cycle count, drop counts, correction and selection stay put; with
      both buttons checked the two masks end up equal. */
  lemma AddSetFrame(st: State, id: SetId, chosen: seq<string>, store: Store, sqrt: real -> real)
    requires Valid(st) && IsSqrt(sqrt)
    requires Populated(SideOf(st, Other(id)).images) ==> |Flatten(SideOf(st, Other(id)).images.names)| == |chosen|
    ensures var r := AddSet(st, id, chosen, store, sqrt);
            r.Success? ==>
              && SideOf(r.value, Other(id)).images.names == SideOf(st, Other(id)).images.names
              && SideOf(r.value, Other(id)).images.normalization == SideOf(st, Other(id)).images.normalization
              && r.value == st.(additive := r.value.additive, subtractive := r.value.subtractive)
              && SideOf(r.value, id) == SideOf(st, id).(images := SideOf(r.value, id).images)
              && SideOf(r.value, Other(id)) == SideOf(st, Other(id)).(images := SideOf(r.value, Other(id)).images)
              && (st.additiveArmed && st.subtractiveArmed ==>
                    r.value.additive.images.accepted == r.value.subtractive.images.accepted)
  {
    var r := Normalizations(chosen, store);
    if r.Success? {
      LoadMerged(st, id, chosen, r.value, sqrt);
      AddSetMerges(st, id, chosen, store, r.value, sqrt);
    }
  }

  /** A load keeps the state valid, except that with both buttons checked and
      no additive cycles the merge leaves an empty subtractive mask. */
  lemma AddSetValid(st: State, id: SetId, chosen: seq<string>, store: Store, sqrt: real -> real)
    requires Valid(st) && IsSqrt(sqrt)
    requires Populated(SideOf(st, Other(id)).images) ==> |Flatten(SideOf(st, Other(id)).images.names)| == |chosen|
    ensures var r := AddSet(st, id, chosen, store, sqrt);
            && (r.Success? && !WipesMask(st, id) ==> Valid(r.value))
            && (r.Success? && WipesMask(st, id) ==> r.value.subtractive.images.accepted == [])
  {
    var r := Normalizations(chosen, store);
    if r.Success? {
      LoadMergedValid(st, id, chosen, r.value, sqrt);
      AddSetMerges(st, id, chosen, store, r.value, sqrt);
    }
  }

  /** With at most one button checked, the loaded side ends up holding the
      fresh set's recomputed mask: start/stop, then std bounds, on an all-True
      mask, so each flag is its `Verdict` (`RecomputeVerdict`). */
  lemma AddSetVerdict(st: State, id: SetId, chosen: seq<string>, store: Store, norms: seq<real>, sqrt: real -> real)
    requires Valid(st) && IsSqrt(sqrt)
    requires Populated(SideOf(st, Other(id)).images) ==> |Flatten(SideOf(st, Other(id)).images.names)| == |chosen|
    requires !(st.additiveArmed && st.subtractiveArmed)
    requires Normalizations(chosen, store) == Success(norms)
    ensures AddSet(st, id, chosen, store, sqrt).Success?
    ensures SideOf(AddSet(st, id, chosen, store, sqrt).value, id).images ==
              Recompute(Fresh(chosen, norms, st.cycles), st.dropFirst, st.dropLast, SideOf(st, id).window, sqrt)
  {
    LoadMergedLone(st, id, chosen, norms, sqrt);
    assert AddSet(st, id, chosen, store, sqrt) == MergeBounds(LoadInto(st, id, chosen, norms, sqrt), sqrt);
  }

  /** The outcome of a click on an add-set button, with the error message shown, if any. */
  datatype Step = Step(state: State, message: Option<Error>)

  /** A click on side `id`'s add-set button toggles its checked state. */
  function Toggled(st: State, id: SetId): State {
    WithArmed(st, id, !ArmedOf(st, id))
  }

  /** The loading branch of `add_set_logic`: `add_set` on the state whose
      button the click has already toggled. */
  function LoadStep(st: State, id: SetId, chosen: seq<string>, store: Store, sqrt: real -> real): (r: Result<Step>)
    requires Valid(st) && IsSqrt(sqrt)
    requires Populated(SideOf(st, Other(id)).images) ==> |Flatten(SideOf(st, Other(id)).images.names)| == |chosen|
    ensures r.Success? ==>
              && r.value.message.None?
              && Flatten(SideOf(r.value.state, id).images.names) == chosen
              && ArmedOf(r.value.state, id) == ArmedOf(st, id)
    ensures r.Failure? && r.error != IndexOutOfRange ==>
              exists i :: 0 <= i < |chosen| && chosen[i] !in store && r.error == LoadFailure(chosen[i])
    ensures r.Failure? && r.error == IndexOutOfRange ==> !AddSafe(st, id)
    ensures (forall i :: 0 <= i < |chosen| ==> chosen[i] in store) && !AddSafe(st, id) ==> r == Failure(IndexOutOfRange)
    ensures r.Success? && !WipesMask(st, id) ==> Valid(r.value.state)
  {
    AddSetFrame(st, id, chosen, store, sqrt);
    AddSetValid(st, id, chosen, store, sqrt);
    var next :- AddSet(st, id, chosen, store, sqrt);
    assert ArmedOf(next, id) == ArmedOf(st, id);
    Success(Step(next, None))
  }

  /** The refusal of a load whose count differs from the other side's: the
      side is emptied and its button unchecked. */
  function Refused(st: State, id: SetId): (r: State)
    requires Valid(st)
    ensures Valid(r)
    ensures SideOf(r, id).images == NoImages && !ArmedOf(r, id)
    ensures SideOf(r, Other(id)) == SideOf(st, Other(id))
  {
    WithArmed(WithSide(st, id, SideOf(st, id).(images := NoImages)), id, false)
  }

  /** `add_set_logic` after a click on side `id`'s add-set button, which toggles
      its checked state; `chosen` are the paths picked in the file dialog. */
  function AddSetLogic(st: State, id: SetId, chosen: seq<string>, store: Store, sqrt: real -> real): (r: Result<Step>)
    requires Valid(st) && IsSqrt(sqrt)
    ensures Populated(SideOf(st, id).images) ==> r == Success(Step(WithArmed(st, id, true), None))
    ensures !Populated(SideOf(st, id).images) && |chosen| == 0 ==> r == Success(Step(WithArmed(st, id, false), None))
    ensures var other := SideOf(st, Other(id)).images;
            !Populated(SideOf(st, id).images) && |chosen| > 0 && Populated(other) && |Flatten(other.names)| != |chosen| ==>
              && r.Success?
              && r.value.message == Some(InputMismatch)
              && SideOf(r.value.state, id).images == NoImages
              && SideOf(r.value.state, Other(id)) == SideOf(st, Other(id))
              && !ArmedOf(r.value.state, id)
    ensures r.Success? && r.value.message.None? && !Populated(SideOf(st, id).images) && |chosen| > 0 ==>
              Flatten(SideOf(r.value.state, id).images.names) == chosen &&
              ArmedOf(r.value.state, id) == !ArmedOf(st, id)
    ensures r.Failure? ==> !Populated(SideOf(st, id).images) && |chosen| > 0
    ensures r.Failure? && r.error != IndexOutOfRange ==>
              exists i :: 0 <= i < |chosen| && chosen[i] !in store && r.error == LoadFailure(chosen[i])
    ensures r.Failure? && r.error == IndexOutOfRange ==> !AddSafe(Toggled(st, id), id)
    ensures var other := SideOf(st, Other(id)).images;
            && !Populated(SideOf(st, id).images) && |chosen| > 0
            && (Populated(other) ==> |Flatten(other.names)| == |chosen|)
            && (forall i :: 0 <= i < |chosen| ==> chosen[i] in store)
            && !AddSafe(Toggled(st, id), id)
            ==> r == Failure(IndexOutOfRange)
    ensures r.Success? && !WipesMask(Toggled(st, id), id) ==> Valid(r.value.state)
  {
    var side := SideOf(st, id);
    var other := SideOf(st, Other(id)).images;
    if Populated(side.images) then Success(Step(WithArmed(st, id, true), None))
    else if |chosen| == 0 then Success(Step(WithArmed(st, id, false), None))
    else if Populated(other) && |Flatten(other.names)| != |chosen| then
      Success(Step(Refused(st, id), Some(InputMismatch)))
    else
      var toggled := Toggled(st, id);
      assert Valid(toggled) && ArmedOf(toggled, id) == !ArmedOf(st, id) && SideOf(toggled, Other(id)) == SideOf(st, Other(id));
      LoadStep(toggled, id, chosen, store, sqrt)
  }

  // ---------------------------------------------------------------------------
  // change_cycles and update_cycles
  // ---------------------------------------------------------------------------

  /** `change_cycles`: flatten the names and values, re-split them into
      `cycles` chunks, and reset the mask to all-True in the new shape. */
  function ChangeCycles(s: ImageSet, cycles: nat): (r: ImageSet)
    requires cycles >= 1
    ensures Flatten(r.names) == Flatten(s.names)
    ensures Flatten(r.normalization) == Flatten(s.normalization)
    ensures SplitShaped(r.names, cycles)
    ensures SameShape(r.accepted, r.names)
    ensures forall c, i :: 0 <= c < |r.accepted| && 0 <= i < |r.accepted[c]| ==> r.accepted[c][i]
    ensures WellFormed(s) ==> WellFormed(r)
  {
    assert WellFormed(s) ==> |Flatten(s.names)| == |Flatten(s.normalization)| by {
      if WellFormed(s) {
        FlattenSameLength(s.names, s.normalization);
      }
    }
    var names := Flatten(s.names);
    ImageSet(ArraySplit(names, cycles), AllTrueSplit(|names|, cycles), ArraySplit(Flatten(s.normalization), cycles))
  }

  /** Re-chunking twice is re-chunking once into the final count. */
  lemma ChangeCyclesTwice(s: ImageSet, k1: nat, k2: nat)
    requires k1 >= 1 && k2 >= 1
    ensures ChangeCycles(ChangeCycles(s, k1), k2) == ChangeCycles(s, k2)
  {
  }

  /** Re-chunking a well-formed set into the count it is already split into
      keeps its names and values and only resets the mask. */
  lemma ChangeCyclesSameCount(s: ImageSet, k: nat)
    requires k >= 1 && WellFormed(s) && SplitShaped(s.names, k)
    ensures ChangeCycles(s, k).names == s.names
    ensures ChangeCycles(s, k).normalization == s.normalization
  {
    var r := ChangeCycles(s, k);
    FlattenInjective(r.names, s.names);
    FlattenSameLength(s.names, s.normalization);
    FlattenInjective(r.normalization, s.normalization);
  }

  /** The first half of `update_cycles`: every loaded side re-chunked into the
      new count, before the bounds are recomputed. */
  function Rechunk(st: State, cycles: nat): (r: State)
    requires Valid(st) && cycles >= 1
    ensures Valid(r) && r.cycles == cycles
    ensures r.additiveArmed == st.additiveArmed && r.subtractiveArmed == st.subtractiveArmed
    ensures Flatten(r.additive.images.names) == Flatten(st.additive.images.names)
    ensures Flatten(r.subtractive.images.names) == Flatten(st.subtractive.images.names)
    ensures Flatten(r.additive.images.normalization) == Flatten(st.additive.images.normalization)
    ensures Flatten(r.subtractive.images.normalization) == Flatten(st.subtractive.images.normalization)
    ensures Populated(r.additive.images) == Populated(st.additive.images)
    ensures Populated(r.subtractive.images) == Populated(st.subtractive.images)
    ensures r == st.(cycles := cycles, additive := r.additive, subtractive := r.subtractive)
    ensures r.additive == st.additive.(images := r.additive.images)
    ensures r.subtractive == st.subtractive.(images := r.subtractive.images)
    ensures BoundsReady(r)
  {
    var add, sub := st.additive, st.subtractive;
    var r := st.(cycles := cycles,
                 additive := if Populated(add.images) then add.(images := ChangeCycles(add.images, cycles)) else add,
                 subtractive := if Populated(sub.images) then sub.(images := ChangeCycles(sub.images, cycles)) else sub);
    assert Valid(r);
    ValidBoundsReady(r);
    r
  }

  /** `update_cycles`: every loaded side is re-chunked into the new count, then
      `change_bounds` recomputes the masks, raising `IndexError` when both
      buttons are checked and only the additive side is loaded. */
  function UpdateCycles(st: State, cycles: nat, sqrt: real -> real): (r: Result<State>)
    requires Valid(st) && cycles >= 1 && IsSqrt(sqrt)
    ensures r.Failure? <==> !MergeSafe(st)
    ensures r.Failure? ==> r.error == IndexOutOfRange
    ensures r.Success? ==> r.value.cycles == cycles
    ensures r.Success? ==> Flatten(r.value.additive.images.names) == Flatten(st.additive.images.names)
    ensures r.Success? ==> Flatten(r.value.subtractive.images.names) == Flatten(st.subtractive.images.names)
    ensures r.Success? ==> Flatten(r.value.additive.images.normalization) == Flatten(st.additive.images.normalization)
    ensures r.Success? ==> Flatten(r.value.subtractive.images.normalization) == Flatten(st.subtractive.images.normalization)
    ensures r.Success? ==> Populated(r.value.additive.images) == Populated(st.additive.images)
    ensures r.Success? ==> Populated(r.value.subtractive.images) == Populated(st.subtractive.images)
    ensures (st.additiveArmed && st.subtractiveArmed ==>
              (Populated(st.additive.images) <==> Populated(st.subtractive.images))) ==> r.Success? && Valid(r.value)
    ensures r.Success? ==> MasksOnly(Rechunk(st, cycles), r.value)
    ensures r.Success? ==> r.value == st.(cycles := cycles, additive := r.value.additive, subtractive := r.value.subtractive)
    ensures r.Success? ==> r.value.additive == st.additive.(images := r.value.additive.images)
    ensures r.Success? ==> r.value.subtractive == st.subtractive.(images := r.value.subtractive.images)
  {
    var st1 := Rechunk(st, cycles);
    ChangeBoundsRaises(st1, sqrt);
    if st.additiveArmed && st.subtractiveArmed ==> (Populated(st.additive.images) <==> Populated(st.subtractive.images)) then
      ChangeBoundsKeepsValid(st1, sqrt);
      ChangeBounds(st1, sqrt)
    else
      ChangeBounds(st1, sqrt)
  }

  /** `update_cycles` re-splits every loaded side with `change_cycles` into
      exactly `cycles` cycles before recomputing its mask. */
  lemma UpdateCyclesRegroups(st: State, cycles: nat)
    requires Valid(st) && cycles >= 1
    ensures var split := Rechunk(st, cycles);
            && (Populated(st.additive.images) ==>
                  split.additive.images == ChangeCycles(st.additive.images, cycles) && |split.additive.images.accepted| == cycles)
            && (Populated(st.subtractive.images) ==>
                  split.subtractive.images == ChangeCycles(st.subtractive.images, cycles) && |split.subtractive.images.accepted| == cycles)
  {
  }

  /** Unless both buttons are checked, `update_cycles` succeeds and each
      loaded side's mask holds, for every cycle of the new grouping, the
      verdicts of the re-split set under the side's own window. */
  lemma UpdateCyclesVerdict(st: State, cycles: nat, sqrt: real -> real)
    requires Valid(st) && cycles >= 1 && IsSqrt(sqrt)
    ensures var r, split := UpdateCycles(st, cycles, sqrt), Rechunk(st, cycles);
            var add, sub := split.additive.images, split.subtractive.images;
            var sa, ss := PooledStd(add.normalization, sqrt), PooledStd(sub.normalization, sqrt);
            && (Populated(add) && !(st.additiveArmed && st.subtractiveArmed) ==>
                  r.Success? &&
                  forall c, i :: 0 <= c < |add.accepted| && 0 <= i < |add.accepted[c]| ==>
                    r.value.additive.images.accepted[c][i] == Verdict(add, st.dropFirst, st.dropLast, st.additive.window, sa, c, i))
            && (Populated(sub) && !(st.additiveArmed && st.subtractiveArmed) ==>
                  r.Success? &&
                  forall c, i :: 0 <= c < |sub.accepted| && 0 <= i < |sub.accepted[c]| ==>
                    r.value.subtractive.images.accepted[c][i] == Verdict(sub, st.dropFirst, st.dropLast, st.subtractive.window, ss, c, i))
  {
    var st1 := Rechunk(st, cycles);
    ChangeBoundsRaises(st1, sqrt);
    ChangeBoundsVerdict(st1, sqrt);
  }

  /** With both buttons checked and both sides loaded, `update_cycles`
      succeeds and both masks hold, for every cycle of the new grouping, the
      conjunction of the two sides' verdicts. */
  lemma UpdateCyclesMergedVerdict(st: State, cycles: nat, sqrt: real -> real)
    requires Valid(st) && cycles >= 1 && IsSqrt(sqrt)
    ensures var r, split := UpdateCycles(st, cycles, sqrt), Rechunk(st, cycles);
            var add, sub := split.additive.images, split.subtractive.images;
            var sa, ss := PooledStd(add.normalization, sqrt), PooledStd(sub.normalization, sqrt);
            Populated(add) && Populated(sub) && st.additiveArmed && st.subtractiveArmed ==>
                  r.Success? &&
                  r.value.additive.images.accepted == r.value.subtractive.images.accepted &&
                  forall c, i :: 0 <= c < |add.accepted| && 0 <= i < |add.accepted[c]| ==>
                    r.value.additive.images.accepted[c][i] ==
                      (Verdict(add, st.dropFirst, st.dropLast, st.additive.window, sa, c, i) &&
                       Verdict(sub, st.dropFirst, st.dropLast, st.subtractive.window, ss, c, i))
  {
    var st1 := Rechunk(st, cycles);
    ChangeBoundsRaises(st1, sqrt);
    ChangeBoundsVerdict(st1, sqrt);
  }

  // ---------------------------------------------------------------------------
  // swap_set
  // ---------------------------------------------------------------------------

  /** `swap_set`: the two sides exchange their names, masks and values, their
      std min/max texts and their rotation slider values; a selection in the
      additive or subtractive tree moves to the other one. The add-set buttons'
      checked states stay where they are. */
  function SwapSet(st: State): (r: State)
    ensures r.additive == st.subtractive && r.subtractive == st.additive
    ensures r.additiveArmed == st.additiveArmed && r.subtractiveArmed == st.subtractiveArmed
    ensures r.selection == SwapSelected(st.selection)
    ensures r.correction == st.correction && r.correctionRotation == st.correctionRotation
    ensures r.cycles == st.cycles && r.dropFirst == st.dropFirst && r.dropLast == st.dropLast
    ensures Valid(st) ==> Valid(r)
  {
    st.(additive := st.subtractive, subtractive := st.additive, selection := SwapSelected(st.selection))
  }

  /** Swapping twice restores the state. */
  lemma SwapSetInvolution(st: State)
    ensures SwapSet(SwapSet(st)) == st
  {
    SwapSelectedInvolution(st.selection);
  }

  /** The selection follows its images to the other side, so a swap shows the
      same image for an additive, subtractive or correction selection. */
  lemma SwapSetKeepsSelectedImage(st: State, store: Store, rot: (Image, int) -> Image)
    requires st.selection.kind.Some? && st.selection.kind != Some(Total)
    ensures SwapSet(st).selection.kind.Some?
    ensures SelectedImage(SwapSet(st), store, rot) == SelectedImage(st, store, rot)
  {
  }

  /** For the total tree a swap exchanges the operands of `add - sub`: the
      difference shown is negated pixel by pixel. */
  lemma SwapSetNegatesTotal(st: State, store: Store, rot: (Image, int) -> Image)
    requires TotalDifference(st, store, rot).Success?
    ensures TotalDifference(SwapSet(st), store, rot).Success?
    ensures var d, d' := TotalDifference(st, store, rot).value, TotalDifference(SwapSet(st), store, rot).value;
            ShapeOf(d') == ShapeOf(d) && forall i, j :: InImage(d, i, j) ==> d'[i][j] == -d[i][j]
  {
  }

  // ---------------------------------------------------------------------------
  // remove_set
  // ---------------------------------------------------------------------------

  /** `remove_set` with the key written as `'Accepted'`: a loaded side is
      emptied, its add-set button unchecked and the bounds recomputed. */
  function RemoveSet(st: State, id: SetId, sqrt: real -> real): (r: State)
    requires Valid(st) && IsSqrt(sqrt)
    ensures !Populated(SideOf(st, id).images) ==> r == st
    ensures SideOf(r, id).images == NoImages
    ensures Populated(SideOf(st, id).images) ==> !ArmedOf(r, id)
    ensures SideOf(r, Other(id)).images.names == SideOf(st, Other(id)).images.names
    ensures SideOf(r, Other(id)).images.normalization == SideOf(st, Other(id)).images.normalization
    ensures SideOf(r, Other(id)).window == SideOf(st, Other(id)).window
    ensures Valid(r)
  {
    var side := SideOf(st, id);
    if !Populated(side.images) then
      ValidShapes(st);
      st
    else
      var st1 := WithArmed(WithSide(st, id, side.(images := NoImages)), id, false);
      assert Valid(st1);
      ChangeBoundsKeepsValid(st1, sqrt);
      ChangeBounds(st1, sqrt).value
  }

  /** `remove_set` as written: the names and values are emptied but the mask is
      stored under the misspelled key `'Accepeted'`, so the side's mask is kept. */
  function RemoveSetAsWritten(st: State, id: SetId, sqrt: real -> real): (r: State)
    requires Valid(st) && IsSqrt(sqrt)
    ensures !Populated(SideOf(st, id).images) ==> r == st
    ensures Populated(SideOf(st, id).images) ==>
              && SideOf(r, id).images.names == [] && SideOf(r, id).images.normalization == []
              && SideOf(r, id).images.accepted == SideOf(st, id).images.accepted
              && !ArmedOf(r, id)
  {
    var side := SideOf(st, id);
    if !Populated(side.images) then st
    else
      var st1 := WithArmed(WithSide(st, id, side.(images := side.images.(names := [], normalization := []))), id, false);
      assert BoundsReady(st1) && !MergeRaises(st1);
      ChangeBounds(st1, sqrt).value
  }

  /** After the misspelled removal the side keeps a mask of `cycles` cycles with
      no names or values behind it: the state is no longer valid, and the stale
      mask is not covered by values, so a later `merge_bounds` that bounds this
      side alone would index an empty normalization. */
  lemma RemoveSetLeavesStaleMask(st: State, id: SetId, sqrt: real -> real)
    requires Valid(st) && IsSqrt(sqrt) && Populated(SideOf(st, id).images)
    ensures |SideOf(RemoveSetAsWritten(st, id, sqrt), id).images.accepted| == st.cycles
    ensures !Covered(SideOf(RemoveSetAsWritten(st, id, sqrt), id).images)
    ensures !Valid(RemoveSetAsWritten(st, id, sqrt))
    ensures SideOf(RemoveSet(st, id, sqrt), id).images.accepted == []
  {
  }

  // ---------------------------------------------------------------------------
  // add_corr and remove_corr
  // ---------------------------------------------------------------------------

  /** `add_corr`: with the correction tree empty, a non-empty chosen path
      becomes the correction; otherwise only the buttons change. */
  function AddCorr(st: State, chosen: string): (r: State)
    ensures st.correction.Some? ==> r == st
    ensures st.correction.None? && |chosen| > 0 ==> r == st.(correction := Some(chosen))
    ensures st.correction.None? && |chosen| == 0 ==> r == st
  {
    if st.correction.None? && |chosen| != 0 then st.(correction := Some(chosen)) else st
  }

  /** `remove_corr`: the correction is forgotten; nothing else changes. */
  function RemoveCorr(st: State): (r: State)
    ensures r.correction.None?
    ensures r.(correction := st.correction) == st
  {
    st.(correction := None)
  }

  /** Adding a correction to a state without one and removing it again restores the state. */
  lemma AddRemoveCorr(st: State, chosen: string)
    requires st.correction.None?
    ensures RemoveCorr(AddCorr(st, chosen)) == st
  {
  }
}
