/** The compile arithmetic behind the save buttons: the accepted entries of
    each side, the baselines `1 + add - sub` and their mean, the rescaled
    composite of every accepted position, their sum in the worker pool's
    completion order, the division by the multiplicative correction, and the
    output file names. Reading and writing image files is abstracted: images
    come from a `Store`, and the files written are returned as `Output`s. */
module Files {
  import opened Base
  import opened Seqs
  import opened Stats
  import opened Images
  import opened Model
  import opened Naming
  import opened Selection
  import Trees

  /** A file written by `save_image`: its path and its contents. */
  datatype Output = Output(path: string, image: Image)

  // ---------------------------------------------------------------------------
  // load_correction
  // ---------------------------------------------------------------------------

  /** What every output is divided by: the scalar 1.0 or the correction image. */
  datatype Divisor = Unit | ByImage(image: Image)

  /** `load_correction`: the rotated correction image when one is loaded, the
      identity divisor 1.0 otherwise. */
  function LoadCorrection(st: State, store: Store, rot: (Image, int) -> Image): (r: Result<Divisor>)
    ensures st.correction.None? ==> r == Success(Unit)
    ensures st.correction.Some? ==> (r.Success? <==> st.correction.value in store)
    ensures st.correction.Some? && r.Success? ==>
              r.value == ByImage(rot(store[st.correction.value], -st.correctionRotation))
    ensures r.Failure? ==> st.correction.Some? && r.error == LoadFailure(st.correction.value)
  {
    if st.correction.None? then Success(Unit)
    else
      var img :- CorrectionImage(st, store, rot);
      Success(ByImage(img))
  }

  /** The divisor the saves use follows the correction tree: the identity after
      `remove_corr`, and after `add_corr` on a state without a correction the
      chosen image, rotated, exactly when it can be read. */
  lemma LoadCorrectionFollowsCorrection(st: State, chosen: string, store: Store, rot: (Image, int) -> Image)
    ensures LoadCorrection(Trees.RemoveCorr(st), store, rot) == Success(Unit)
    ensures st.correction.None? && |chosen| > 0 ==>
              (LoadCorrection(Trees.AddCorr(st, chosen), store, rot).Success? <==> chosen in store)
    ensures st.correction.None? && |chosen| > 0 && chosen in store ==>
              LoadCorrection(Trees.AddCorr(st, chosen), store, rot) ==
                Success(ByImage(rot(store[chosen], -st.correctionRotation)))
  {
  }

  /** `image / mul_img`: dividing by 1.0 changes nothing; dividing by an image
      is pixelwise. */
  function Divide(img: Image, d: Divisor): (r: Result<Image>)
    ensures d.Unit? ==> r == Success(img)
    ensures d.ByImage? ==> (r.Success? <==> ShapeOf(img) == ShapeOf(d.image) && NoZeroPixel(d.image))
    ensures d.ByImage? && r.Success? ==>
              ShapeOf(r.value) == ShapeOf(img) &&
              forall i, j :: InImage(img, i, j) ==> r.value[i][j] * d.image[i][j] == img[i][j]
  {
    match d
    case Unit => Success(img)
    case ByImage(c) => DivideImages(img, c)
  }

  /** An all-zero image stays all-zero whatever it is divided by. */
  lemma DivideZero(img: Image, d: Divisor)
    requires IsZero(img) && Divide(img, d).Success?
    ensures IsZero(Divide(img, d).value)
  {
    var r := Divide(img, d).value;
    if d.ByImage? {
      forall i, j | InImage(r, i, j)
        ensures r[i][j] == 0.0
      {
        assert InImage(img, i, j);
        assert r[i][j] * d.image[i][j] == 0.0;
      }
    }
  }

  // ---------------------------------------------------------------------------
  // The accepted entries of a side (np.where on the mask)
  // ---------------------------------------------------------------------------

  /** One side's accepted names and normalization values, in position order,
      with the side's rotation slider value. */
  datatype Operand = Operand(names: seq<string>, norms: seq<real>, rotation: int)

  /** The names and values at the True positions of `mask`. */
  function Accepted(names: seq<string>, norms: seq<real>, mask: seq<bool>, rotation: int): (r: Operand)
    requires |names| == |mask| && |norms| == |mask|
    ensures |r.names| == |TruePositions(mask)| == CountTrue(mask)
    ensures |r.norms| == |r.names| && r.rotation == rotation
    ensures forall k :: 0 <= k < |r.names| ==>
              && mask[TruePositions(mask)[k]]
              && r.names[k] == names[TruePositions(mask)[k]]
              && r.norms[k] == norms[TruePositions(mask)[k]]
    ensures forall i :: 0 <= i < |mask| && mask[i] ==> exists k :: 0 <= k < |r.names| && TruePositions(mask)[k] == i
  {
    var idx := TruePositions(mask);
    TruePositionsCount(mask);
    forall i | 0 <= i < |mask| && mask[i]
      ensures exists k :: 0 <= k < |idx| && idx[k] == i
    {
      assert i in idx;
    }
    Operand(Pick(names, idx), Pick(norms, idx), rotation)
  }

  /** `save_total`'s operand for a side: its accepted entries over all cycles,
      flattened; none when its tree is empty. */
  function TotalOperand(side: Side): (r: Option<Operand>)
    requires WellFormed(side.images)
    ensures r.Some? <==> Populated(side.images)
  {
    if !Populated(side.images) then None
    else
      var s := side.images;
      FlattenSameLength(s.names, s.accepted);
      FlattenSameLength(s.names, s.normalization);
      Some(Accepted(Flatten(s.names), Flatten(s.normalization), Flatten(s.accepted), side.rotation))
  }

  /** `save_cycles`'s operand for a side: the accepted entries of cycle `c`. */
  function CycleOperand(side: Side, c: nat): (r: Option<Operand>)
    requires WellFormed(side.images) && (Populated(side.images) ==> c < |side.images.names|)
    ensures r.Some? <==> Populated(side.images)
  {
    if !Populated(side.images) then None
    else
      var s := side.images;
      Some(Accepted(s.names[c], s.normalization[c], s.accepted[c], side.rotation))
  }

  function NormsOf(op: Option<Operand>): Option<seq<real>> {
    match op
    case None => None
    case Some(o) => Some(o.norms)
  }

  /** The number of composites the pool computes: `len(in_indicies[0])`, where
      `in_indicies` was last assigned from the subtractive side when it is loaded. */
  function ItemCount(add: Option<Operand>, sub: Option<Operand>): nat {
    if sub.Some? then |sub.value.names| else if add.Some? then |add.value.names| else 0
  }

  // ---------------------------------------------------------------------------
  // Baselines: compile_norms and its average
  // ---------------------------------------------------------------------------

  /** numpy broadcasting of two 1-D arrays under a pointwise operator: equal
      lengths pair up, a length-1 operand is repeated, anything else fails. */
  function Broadcast(a: seq<real>, b: seq<real>, f: (real, real) -> real): (r: Result<seq<real>>)
    ensures r.Success? <==> |a| == |b| || |a| == 1 || |b| == 1
    ensures r.Failure? ==> r.error == ShapeMismatch
    ensures r.Success? ==> |r.value| == (if |a| == 1 then |b| else |a|)
    ensures r.Success? ==> forall k :: 0 <= k < |r.value| ==>
              r.value[k] == f(a[if |a| == 1 then 0 else k], b[if |b| == 1 then 0 else k])
  {
    if |a| == |b| then Success(seq(|a|, k requires 0 <= k < |a| => f(a[k], b[k])))
    else if |a| == 1 then Success(seq(|b|, k requires 0 <= k < |b| => f(a[0], b[k])))
    else if |b| == 1 then Success(seq(|a|, k requires 0 <= k < |a| => f(a[k], b[0])))
    else Failure(ShapeMismatch)
  }

  /** `compile_norms`: start from `[1.0]`, add the additive values when that
      tree is loaded, then fold the subtractive values in with `combine`. */
  function BaselinesWith(add: Option<seq<real>>, sub: Option<seq<real>>, combine: (real, real) -> real): (r: Result<seq<real>>)
  {
    var withAdd :- if add.Some? then Broadcast(add.value, [1.0], (x, y) => x + y) else Success([1.0]);
    if sub.Some? then Broadcast(withAdd, sub.value, combine) else Success(withAdd)
  }

  /** The baseline of every accepted position, `1 + addNorm - subNorm`, an
      absent side contributing nothing; two loaded sides must have equal
      accepted counts unless one of them has exactly one. */
  function Baselines(add: Option<seq<real>>, sub: Option<seq<real>>): (r: Result<seq<real>>)
    ensures r.Success? <==>
              add.None? || sub.None? || |add.value| == |sub.value| || |add.value| == 1 || |sub.value| == 1
    ensures add.None? && sub.None? ==> r == Success([1.0])
    ensures add.Some? && sub.None? ==>
              r.Success? && |r.value| == |add.value| &&
              forall k :: 0 <= k < |add.value| ==> r.value[k] == 1.0 + add.value[k]
    ensures add.None? && sub.Some? ==>
              r.Success? && |r.value| == |sub.value| &&
              forall k :: 0 <= k < |sub.value| ==> r.value[k] == 1.0 - sub.value[k]
    ensures add.Some? && sub.Some? && |add.value| == |sub.value| ==>
              r.Success? && |r.value| == |add.value| &&
              forall k :: 0 <= k < |add.value| ==> r.value[k] == 1.0 + add.value[k] - sub.value[k]
  {
    BaselinesWith(add, sub, (c, s) => c - s)
  }

  /** Two loaded sides with the same values give every position the baseline 1. */
  lemma BaselinesOfIdenticalSides(norms: seq<real>)
    ensures Baselines(Some(norms), Some(norms)).Success?
    ensures var r := Baselines(Some(norms), Some(norms)).value;
            |r| == |norms| && forall k :: 0 <= k < |r| ==> r[k] == 1.0
  {
  }

  /** A cycle's baselines as `save_cycles` writes them: the subtractive values are added. */
  function CycleBaselinesAsWritten(add: Option<seq<real>>, sub: Option<seq<real>>): (r: Result<seq<real>>)
    ensures r.Success? <==> Baselines(add, sub).Success?
    ensures r.Success? ==> |r.value| == |Baselines(add, sub).value|
  {
    BaselinesWith(add, sub, (c, s) => c + s)
  }

  /** The written baselines exceed the intended ones by twice the subtractive
      values; e.g. additive `[1]` and subtractive `[1]` give `[3]`, not `[1]`. */
  lemma CycleBaselinesExcess(add: seq<real>, sub: seq<real>)
    requires |add| == |sub|
    ensures CycleBaselinesAsWritten(Some(add), Some(sub)).Success?
    ensures forall k :: 0 <= k < |add| ==>
              CycleBaselinesAsWritten(Some(add), Some(sub)).value[k] ==
                Baselines(Some(add), Some(sub)).value[k] + 2.0 * sub[k]
  {
  }

  lemma CycleBaselinesCounterexample()
    ensures CycleBaselinesAsWritten(Some([1.0]), Some([1.0])) == Success([3.0])
    ensures Baselines(Some([1.0]), Some([1.0])) == Success([1.0])
  {
    CycleBaselinesExcess([1.0], [1.0]);
    assert CycleBaselinesAsWritten(Some([1.0]), Some([1.0])).value == [3.0];
    assert Baselines(Some([1.0]), Some([1.0])).value == [1.0];
  }

  // ---------------------------------------------------------------------------
  // compile_image
  // ---------------------------------------------------------------------------

  /** The rotated image at position `k` of a loaded side; none for an empty tree. */
  function Fetch(op: Option<Operand>, store: Store, rot: (Image, int) -> Image, k: nat): (r: Result<Option<Image>>)
    ensures op.None? ==> r == Success(None)
    ensures op.Some? ==> (r.Success? <==> k < |op.value.names| && op.value.names[k] in store)
    ensures op.Some? && r.Success? ==> r.value == Some(rot(store[op.value.names[k]], -op.value.rotation))
    ensures op.Some? && k >= |op.value.names| ==> r == Failure(IndexOutOfRange)
  {
    match op
    case None => Success(None)
    case Some(o) =>
      if k >= |o.names| then Failure(IndexOutOfRange)
      else
        var img :- LoadRotated(store, o.names[k], rot, o.rotation);
        Success(Some(img))
  }

  /** `compile_image(..., k)`: the difference of the two rotated images at
      position `k`, divided by the position's baseline and scaled by `avg`. */
  function Item(add: Option<Operand>, sub: Option<Operand>, baselines: seq<real>, avg: real,
                store: Store, rot: (Image, int) -> Image, k: nat): (r: Result<Image>)
    ensures r.Success? ==>
              && Fetch(add, store, rot, k).Success? && Fetch(sub, store, rot, k).Success?
              && k < |baselines|
    ensures Fetch(add, store, rot, k).Success? && Fetch(sub, store, rot, k).Success? && k < |baselines| ==>
              r == Composite(Fetch(add, store, rot, k).value, Fetch(sub, store, rot, k).value, baselines[k], avg)
  {
    var a :- Fetch(add, store, rot, k);
    var s :- Fetch(sub, store, rot, k);
    if k < |baselines| then Composite(a, s, baselines[k], avg)
    else
      var d :- Difference(a, s);
      Failure(IndexOutOfRange)
  }

  /** With every baseline equal, `avg` is that baseline and each composite is
      the plain difference `add - sub`. */
  lemma ItemUnscaled(add: Option<Operand>, sub: Option<Operand>, baselines: seq<real>,
                     store: Store, rot: (Image, int) -> Image, k: nat)
    requires |baselines| >= 1 && baselines[0] != 0.0
    requires forall m :: 0 <= m < |baselines| ==> baselines[m] == baselines[0]
    requires Item(add, sub, baselines, Mean(baselines), store, rot, k).Success?
    ensures Item(add, sub, baselines, Mean(baselines), store, rot, k) ==
              Difference(Fetch(add, store, rot, k).value, Fetch(sub, store, rot, k).value)
  {
    MeanOfConstant(baselines, baselines[0]);
    var d := Difference(Fetch(add, store, rot, k).value, Fetch(sub, store, rot, k).value);
    RescaleByAverage(d.value, baselines[0]);
  }

  /** The composites of all positions, in position order, for the given
      baselines: `Item` for each of the `ItemCount` positions. */
  function Composites(add: Option<Operand>, sub: Option<Operand>, cn: seq<real>,
                      store: Store, rot: (Image, int) -> Image): (r: Result<seq<Image>>)
    ensures r.Success? <==>
              forall k :: 0 <= k < ItemCount(add, sub) ==> Item(add, sub, cn, Mean(cn), store, rot, k).Success?
    ensures r.Success? ==>
              && |r.value| == ItemCount(add, sub)
              && forall k :: 0 <= k < |r.value| ==> Item(add, sub, cn, Mean(cn), store, rot, k) == Success(r.value[k])
  {
    var n := ItemCount(add, sub);
    var rs := seq(n, k requires 0 <= k < n => Item(add, sub, cn, Mean(cn), store, rot, k));
    assert forall k :: 0 <= k < n ==> rs[k] == Item(add, sub, cn, Mean(cn), store, rot, k);
    Collect(rs)
  }

  /** `Baselines`, their mean, then the composites of all positions. */
  function Compile(add: Option<Operand>, sub: Option<Operand>, store: Store, rot: (Image, int) -> Image): (r: Result<seq<Image>>)
    ensures r.Success? <==>
              && Baselines(NormsOf(add), NormsOf(sub)).Success?
              && var cn := Baselines(NormsOf(add), NormsOf(sub)).value;
                 forall k :: 0 <= k < ItemCount(add, sub) ==> Item(add, sub, cn, Mean(cn), store, rot, k).Success?
    ensures r.Success? ==>
              && |r.value| == ItemCount(add, sub)
              && var cn := Baselines(NormsOf(add), NormsOf(sub)).value;
                 forall k :: 0 <= k < |r.value| ==> Item(add, sub, cn, Mean(cn), store, rot, k) == Success(r.value[k])
  {
    var cn :- Baselines(NormsOf(add), NormsOf(sub));
    Composites(add, sub, cn, store, rot)
  }

  /** Two identical operands cancel: every composite is all zero. */
  lemma CompileOfIdenticalSides(op: Operand, store: Store, rot: (Image, int) -> Image)
    requires Compile(Some(op), Some(op), store, rot).Success?
    ensures forall k :: 0 <= k < |Compile(Some(op), Some(op), store, rot).value| ==>
              IsZero(Compile(Some(op), Some(op), store, rot).value[k])
  {
    var items := Compile(Some(op), Some(op), store, rot).value;
    BaselinesOfIdenticalSides(op.norms);
    var cn := Baselines(Some(op.norms), Some(op.norms)).value;
    forall k | 0 <= k < |items|
      ensures IsZero(items[k])
    {
      ItemUnscaled(Some(op), Some(op), cn, store, rot, k);
      DifferenceOfEqualIsZero(Fetch(Some(op), store, rot, k).value.value);
    }
  }

  // ---------------------------------------------------------------------------
  // The pool's sum and the written files
  // ---------------------------------------------------------------------------

  /** `total_img`: the composites accumulated in the completion order `order`.
      When no composite arrives the total is never assigned; composites of
      different shapes cannot be added. Whatever the order, the total is the sum
      in position order. */
  function Total(items: seq<Image>, order: seq<nat>): (r: Result<Image>)
    requires IsPermutation(order, |items|)
    ensures r.Success? <==> |items| >= 1 && AllShaped(items, ShapeOf(items[0]))
    ensures |items| == 0 ==> r == Failure(NothingAccepted)
    ensures |items| >= 1 && r.Failure? ==> r.error == ShapeMismatch
    ensures r.Success? ==> r.value == SumImages(items, ShapeOf(items[0]))
  {
    if |items| == 0 then Failure(NothingAccepted)
    else if !AllShaped(items, ShapeOf(items[0])) then Failure(ShapeMismatch)
    else
      SumImagesInAnyOrder(items, ShapeOf(items[0]), order);
      Success(SumImages(Pick(items, order), ShapeOf(items[0])))
  }

  /** At least one composite, all of one shape, whose sum the correction divides. */
  predicate Writable(items: seq<Image>, corr: Divisor) {
    |items| >= 1 && AllShaped(items, ShapeOf(items[0])) &&
    Divide(SumImages(items, ShapeOf(items[0])), corr).Success?
  }

  /** The file holding the total divided by the correction, at `path`. */
  function WriteTotal(items: seq<Image>, order: seq<nat>, corr: Divisor, path: string): (r: Result<Output>)
    requires IsPermutation(order, |items|)
    ensures r.Success? <==>
              |items| >= 1 && AllShaped(items, ShapeOf(items[0])) &&
              Divide(SumImages(items, ShapeOf(items[0])), corr).Success?
    ensures r.Success? ==>
              r.value == Output(path, Divide(SumImages(items, ShapeOf(items[0])), corr).value)
  {
    var total :- Total(items, order);
    var img :- Divide(total, corr);
    Success(Output(path, img))
  }

  /** The file written does not depend on the completion order. */
  lemma WriteTotalOrderIndependent(items: seq<Image>, order1: seq<nat>, order2: seq<nat>, corr: Divisor, path: string)
    requires IsPermutation(order1, |items|) && IsPermutation(order2, |items|)
    ensures WriteTotal(items, order1, corr, path) == WriteTotal(items, order2, corr, path)
  {
  }

  /** `<folder>/<name><tag><j>.tiff`. */
  function Tagged(folder: string, name: string, tag: string, j: nat): string {
    folder + "/" + name + tag + Decimal(j) + ".tiff"
  }

  function TotalPath(folder: string, name: string): string {
    folder + "/" + name + ".tiff"
  }

  function ItemPath(folder: string, name: string, j: nat): string {
    Tagged(folder, name, "_Item_", j)
  }

  function CyclePath(folder: string, name: string, c: nat): string {
    Tagged(folder, name, "_Cycle_", c)
  }

  /** Different indices name different files. */
  lemma TaggedInjective(folder: string, name: string, tag: string, j1: nat, j2: nat)
    requires Tagged(folder, name, tag, j1) == Tagged(folder, name, tag, j2)
    ensures j1 == j2
  {
    var p := folder + "/" + name + tag;
    var d1, d2 := Decimal(j1), Decimal(j2);
    var s := Tagged(folder, name, tag, j1);
    assert s == p + d1 + ".tiff";
    assert s == p + d2 + ".tiff";
    assert |d1| == |d2|;
    assert s[|p|..|p| + |d1|] == d1;
    assert s[|p|..|p| + |d2|] == d2;
    DecimalInjective(j1, j2);
  }

  lemma ItemPathInjective(folder: string, name: string, j1: nat, j2: nat)
    requires ItemPath(folder, name, j1) == ItemPath(folder, name, j2)
    ensures j1 == j2
  {
    TaggedInjective(folder, name, "_Item_", j1, j2);
  }

  lemma CyclePathInjective(folder: string, name: string, c1: nat, c2: nat)
    requires CyclePath(folder, name, c1) == CyclePath(folder, name, c2)
    ensures c1 == c2
  {
    TaggedInjective(folder, name, "_Cycle_", c1, c2);
  }

  /** Composites of one shape, each of which the correction divides. */
  predicate SinglesWritable(items: seq<Image>, corr: Divisor) {
    (|items| == 0 || AllShaped(items, ShapeOf(items[0]))) &&
    forall j :: 0 <= j < |items| ==> Divide(items[j], corr).Success?
  }

  /** Singles mode: each composite, divided by the correction, is written as
      `_Item_<j>` with `j` its rank among the accepted positions, in completion
      order; the total is still accumulated, so the composites must share a shape. */
  function WriteSingles(items: seq<Image>, order: seq<nat>, corr: Divisor, folder: string, name: string): (r: Result<seq<Output>>)
    requires IsPermutation(order, |items|)
    ensures r.Success? <==> SinglesWritable(items, corr)
    ensures r.Success? ==>
              |r.value| == |items| &&
              forall t :: 0 <= t < |items| ==>
                r.value[t] == Output(ItemPath(folder, name, order[t]), Divide(items[order[t]], corr).value)
  {
    PermutationInRange(order, |items|);
    if |items| > 0 && !AllShaped(items, ShapeOf(items[0])) then Failure(ShapeMismatch)
    else
      var outs := seq(|items|, t requires 0 <= t < |items| =>
                        var img :- Divide(items[order[t]], corr);
                        Success(Output(ItemPath(folder, name, order[t]), img)));
      assert (forall t :: 0 <= t < |items| ==> outs[t].Success?) <==>
             (forall j :: 0 <= j < |items| ==> Divide(items[j], corr).Success?) by {
        forall j | 0 <= j < |items| && (forall t :: 0 <= t < |items| ==> outs[t].Success?)
          ensures Divide(items[j], corr).Success?
        {
          assert j in order;
          var t :| 0 <= t < |order| && order[t] == j;
          assert outs[t].Success?;
        }
      }
      Collect(outs)
  }

  /** Every accepted position gets exactly one `_Item_` file, whatever the
      completion order. */
  lemma SinglesCoverEveryItem(items: seq<Image>, order: seq<nat>, corr: Divisor, folder: string, name: string, j: nat)
    requires IsPermutation(order, |items|)
    requires WriteSingles(items, order, corr, folder, name).Success? && j < |items|
    ensures var outs := WriteSingles(items, order, corr, folder, name).value;
            exists t :: 0 <= t < |outs| && outs[t] == Output(ItemPath(folder, name, j), Divide(items[j], corr).value)
    ensures var outs := WriteSingles(items, order, corr, folder, name).value;
            forall t, u :: 0 <= t < |outs| && 0 <= u < |outs| && outs[t].path == outs[u].path ==> t == u
  {
    var outs := WriteSingles(items, order, corr, folder, name).value;
    PermutationInRange(order, |items|);
    assert j in order;
    var t :| 0 <= t < |order| && order[t] == j;
    assert outs[t] == Output(ItemPath(folder, name, j), Divide(items[j], corr).value);
    PermutationDistinct(order, |items|);
    forall t, u | 0 <= t < |outs| && 0 <= u < |outs| && outs[t].path == outs[u].path
      ensures t == u
    {
      ItemPathInjective(folder, name, order[t], order[u]);
    }
  }

  // ---------------------------------------------------------------------------
  // save_total
  // ---------------------------------------------------------------------------

  predicate SidesWellFormed(st: State) {
    WellFormed(st.additive.images) && WellFormed(st.subtractive.images)
  }

  predicate AnyLoaded(st: State) {
    Populated(st.additive.images) || Populated(st.subtractive.images)
  }

  /** A loaded side whose mask holds no cycle, as `change_bounds` leaves the
      subtractive side when both buttons are checked and only that side is
      loaded (`Bounds.ChangeBoundsWipesSubtractive`). */
  predicate MaskEmptied(s: ImageSet) {
    Populated(s) && s.accepted == [] && SameShape(s.names, s.normalization)
  }

  predicate AnyMaskEmptied(st: State) {
    MaskEmptied(st.additive.images) || MaskEmptied(st.subtractive.images)
  }

  /** A valid state has no emptied mask. */
  lemma ValidNotEmptied(st: State)
    requires Valid(st)
    ensures SidesSavable(st) && !AnyMaskEmptied(st)
  {
  }

  /** The sides the save operations can meet: each well formed or with an
      emptied mask. */
  predicate SidesSavable(st: State) {
    && (WellFormed(st.additive.images) || MaskEmptied(st.additive.images))
    && (WellFormed(st.subtractive.images) || MaskEmptied(st.subtractive.images))
  }

  /** The number of composites `save_total` computes. */
  function TotalItemCount(st: State): nat
    requires SidesWellFormed(st)
  {
    ItemCount(TotalOperand(st.additive), TotalOperand(st.subtractive))
  }

  /** The composites `save_total` adds up: every accepted position over all cycles. */
  function TotalItems(st: State, store: Store, rot: (Image, int) -> Image): (r: Result<seq<Image>>)
    requires SidesWellFormed(st)
    ensures r.Success? ==> |r.value| == TotalItemCount(st)
  {
    Compile(TotalOperand(st.additive), TotalOperand(st.subtractive), store, rot)
  }

  /** `save_total(single_check)` with the pool's completion order `order`: nothing
      when both trees are empty; otherwise either the total divided by the
      correction at `<folder>/<name>.tiff`, or, in singles mode, one `_Item_`
      file per composite. An unloaded side simply contributes nothing; a
      loaded side with an emptied mask makes `np.hstack` raise. */
  function SaveTotal(st: State, store: Store, rot: (Image, int) -> Image, folder: string, name: string,
                     singles: bool, order: seq<nat>): (r: Result<seq<Output>>)
    requires SidesSavable(st)
    requires SidesWellFormed(st) ==> IsPermutation(order, TotalItemCount(st))
    ensures !AnyLoaded(st) ==> r == Success([])
    ensures AnyLoaded(st) && LoadCorrection(st, store, rot).Failure? ==> r.Failure?
    ensures AnyLoaded(st) && LoadCorrection(st, store, rot).Success? && AnyMaskEmptied(st) ==> r == Failure(NothingToJoin)
    ensures r.Success? ==> SidesWellFormed(st)
    ensures SidesWellFormed(st) && AnyLoaded(st) && TotalItems(st, store, rot).Failure? ==> r.Failure?
    ensures AnyLoaded(st) && r.Success? ==>
              LoadCorrection(st, store, rot).Success? && TotalItems(st, store, rot).Success?
    ensures r.Success? && AnyLoaded(st) && !singles ==> |r.value| == 1 && r.value[0].path == TotalPath(folder, name)
    ensures r.Success? && singles ==> |r.value| == TotalItemCount(st)
    ensures AnyLoaded(st) && SidesWellFormed(st) && !AnyMaskEmptied(st) &&
            LoadCorrection(st, store, rot).Success? && TotalItems(st, store, rot).Success? ==>
              var items, corr := TotalItems(st, store, rot).value, LoadCorrection(st, store, rot).value;
              r.Success? <==> (if singles then SinglesWritable(items, corr) else Writable(items, corr))
  {
    if !AnyLoaded(st) then Success([])
    else
      var corr :- LoadCorrection(st, store, rot);
      if AnyMaskEmptied(st) then Failure(NothingToJoin)
      else
        var items :- TotalItems(st, store, rot);
        if singles then WriteSingles(items, order, corr, folder, name)
        else
          var out :- WriteTotal(items, order, corr, TotalPath(folder, name));
          Success([out])
  }

  /** The file written is the position-order sum of the composites divided by
      the correction, whatever the order in which the pool delivered them. */
  lemma SaveTotalWritesSum(st: State, store: Store, rot: (Image, int) -> Image, folder: string, name: string,
                           order: seq<nat>)
    requires SidesWellFormed(st)
    requires IsPermutation(order, TotalItemCount(st))
    requires AnyLoaded(st) && SaveTotal(st, store, rot, folder, name, false, order).Success?
    ensures LoadCorrection(st, store, rot).Success? && TotalItems(st, store, rot).Success?
    ensures var items := TotalItems(st, store, rot).value;
            && |items| >= 1 && AllShaped(items, ShapeOf(items[0]))
            && Divide(SumImages(items, ShapeOf(items[0])), LoadCorrection(st, store, rot).value).Success?
            && SaveTotal(st, store, rot, folder, name, false, order).value ==
                 [Output(TotalPath(folder, name), Divide(SumImages(items, ShapeOf(items[0])), LoadCorrection(st, store, rot).value).value)]
  {
    var corr := LoadCorrection(st, store, rot).value;
    var items := TotalItems(st, store, rot).value;
    assert WriteTotal(items, order, corr, TotalPath(folder, name)).Success?;
  }

  /** Hence the completion order of the pool does not change the total file. */
  lemma SaveTotalOrderIndependent(st: State, store: Store, rot: (Image, int) -> Image, folder: string, name: string,
                                  order1: seq<nat>, order2: seq<nat>)
    requires SidesWellFormed(st)
    requires IsPermutation(order1, TotalItemCount(st)) && IsPermutation(order2, TotalItemCount(st))
    ensures SaveTotal(st, store, rot, folder, name, false, order1) == SaveTotal(st, store, rot, folder, name, false, order2)
  {
    if AnyLoaded(st) && LoadCorrection(st, store, rot).Success? && TotalItems(st, store, rot).Success? {
      var corr := LoadCorrection(st, store, rot).value;
      var items := TotalItems(st, store, rot).value;
      WriteTotalOrderIndependent(items, order1, order2, corr, TotalPath(folder, name));
    }
  }

  /** The same images on both sides, rotated alike, cancel: the total is all zero. */
  lemma SaveTotalOfIdenticalSides(st: State, store: Store, rot: (Image, int) -> Image, folder: string, name: string,
                                  order: seq<nat>)
    requires SidesWellFormed(st)
    requires st.additive.images == st.subtractive.images && st.additive.rotation == st.subtractive.rotation
    requires IsPermutation(order, TotalItemCount(st))
    requires AnyLoaded(st) && SaveTotal(st, store, rot, folder, name, false, order).Success?
    ensures IsZero(SaveTotal(st, store, rot, folder, name, false, order).value[0].image)
  {
    var op := TotalOperand(st.additive).value;
    assert TotalOperand(st.subtractive) == Some(op);
    SaveTotalWritesSum(st, store, rot, folder, name, order);
    var items := TotalItems(st, store, rot).value;
    CompileOfIdenticalSides(op, store, rot);
    SumOfZeroImages(items, ShapeOf(items[0]));
    DivideZero(SumImages(items, ShapeOf(items[0])), LoadCorrection(st, store, rot).value);
  }

  /** `save_total` as written: with only one tree loaded, the names of the
      other side are passed to the pool without ever being assigned, which
      raises before any composite is computed. */
  function SaveTotalAsWritten(st: State, store: Store, rot: (Image, int) -> Image, folder: string, name: string,
                              singles: bool, order: seq<nat>): (r: Result<seq<Output>>)
    requires SidesSavable(st)
    requires SidesWellFormed(st) ==> IsPermutation(order, TotalItemCount(st))
    ensures Populated(st.additive.images) == Populated(st.subtractive.images) ==>
              r == SaveTotal(st, store, rot, folder, name, singles, order)
    ensures Populated(st.additive.images) != Populated(st.subtractive.images) ==> r.Failure?
    ensures (Populated(st.additive.images) != Populated(st.subtractive.images) &&
             LoadCorrection(st, store, rot).Success? && !AnyMaskEmptied(st)) ==>
              r == Failure(UnboundName)
  {
    if !AnyLoaded(st) then Success([])
    else
      var corr :- LoadCorrection(st, store, rot);
      if AnyMaskEmptied(st) then Failure(NothingToJoin)
      else if !Populated(st.additive.images) || !Populated(st.subtractive.images) then Failure(UnboundName)
      else SaveTotal(st, store, rot, folder, name, singles, order)
  }

  /** One accepted additive image `a` with normalization 1, an empty
      subtractive tree and no correction. */
  function OneSidedExample(): (st: State)
    ensures SidesWellFormed(st) && Populated(st.additive.images) && !Populated(st.subtractive.images)
  {
    State(Side(ImageSet([["a"]], [[true]], [[1.0]]), DefaultWindow, 0), Side(NoImages, DefaultWindow, 0),
          false, false, None, 0, 1, 0, 0, NoSelection)
  }

  function ExampleStore(): Store {
    map["a" := [[2.0]]]
  }

  function Unrotated(img: Image, quarterTurns: int): Image {
    img
  }

  /** The operand of the example's additive side: the one accepted entry. */
  lemma OneSidedExampleOperand()
    ensures TotalOperand(OneSidedExample().additive) == Some(Operand(["a"], [1.0], 0))
    ensures TotalOperand(OneSidedExample().subtractive) == None
  {
    var side := OneSidedExample().additive;
    assert side.images == ImageSet([["a"]], [[true]], [[1.0]]) && side.rotation == 0;
    assert Flatten([["a"]]) == ["a"] && Flatten([[true]]) == [true] && Flatten([[1.0]]) == [1.0];
    assert TotalOperand(side) == Some(Accepted(["a"], [1.0], [true], 0));
    AcceptedOfOne("a", 1.0, 0);
  }

  lemma AcceptedOfOne(name: string, norm: real, rotation: int)
    ensures Accepted([name], [norm], [true], rotation) == Operand([name], [norm], rotation)
  {
    assert [true][..0] == [];
    assert TruePositions([true]) == [0];
    assert Pick([name], [0]) == [name] && Pick([norm], [0]) == [norm];
  }

  /** The example's single composite is the image itself: baseline 2, average 2. */
  lemma OneSidedExampleComposite()
    ensures Baselines(Some([1.0]), None) == Success([2.0]) && Mean([2.0]) == 2.0
    ensures Item(Some(Operand(["a"], [1.0], 0)), None, [2.0], 2.0, ExampleStore(), Unrotated, 0) == Success([[2.0]])
  {
    var store := ExampleStore();
    assert Broadcast([1.0], [1.0], (x, y) => x + y).value == [2.0];
    assert Sum([2.0]) == 2.0;
    assert Fetch(Some(Operand(["a"], [1.0], 0)), store, Unrotated, 0) == Success(Some([[2.0]])) by {
      assert Unrotated([[2.0]], 0) == [[2.0]];
    }
    assert Fetch(None, store, Unrotated, 0) == Success(None);
    assert Difference(Some([[2.0]]), None).value == [[2.0]];
    var img := Composite(Some([[2.0]]), None, 2.0, 2.0).value;
    assert img == [[2.0]] by {
      assert img[0][0] * 2.0 == 2.0 * 2.0;
      ImageExtensionality(img, [[2.0]]);
    }
  }

  lemma OneSidedExampleItems()
    ensures TotalItemCount(OneSidedExample()) == 1
    ensures TotalItems(OneSidedExample(), ExampleStore(), Unrotated) == Success([[[2.0]]])
  {
    OneSidedExampleOperand();
    OneSidedExampleComposite();
    var op := Operand(["a"], [1.0], 0);
    assert ItemCount(Some(op), None) == 1;
    var r := Compile(Some(op), None, ExampleStore(), Unrotated);
    assert r.Success?;
    assert r.value == [[[2.0]]];
  }

  /** For that state the intended output is the image itself, while the
      written code raises. */
  lemma SaveTotalOneSidedCounterexample()
    ensures TotalItemCount(OneSidedExample()) == 1 && IsPermutation([0], 1)
    ensures SaveTotal(OneSidedExample(), ExampleStore(), Unrotated, "out", "total", false, [0]) ==
              Success([Output(TotalPath("out", "total"), [[2.0]])])
    ensures SaveTotalAsWritten(OneSidedExample(), ExampleStore(), Unrotated, "out", "total", false, [0]) ==
              Failure(UnboundName)
  {
    OneSidedExampleItems();
    PermutationOfOne();
    assert SumImages([[[2.0]]], ShapeOf([[2.0]])) == [[2.0]];
  }

  // ---------------------------------------------------------------------------
  // save_cycles
  // ---------------------------------------------------------------------------

  /** The number of composites of cycle `c`. */
  function CycleItemCount(st: State, c: nat): nat
    requires Valid(st) && c < st.cycles
  {
    ItemCount(CycleOperand(st.additive, c), CycleOperand(st.subtractive, c))
  }

  /** The composites of cycle `c`, baselines and average taken within the cycle. */
  function CycleItems(st: State, store: Store, rot: (Image, int) -> Image, c: nat): (r: Result<seq<Image>>)
    requires Valid(st) && c < st.cycles
    ensures r.Success? ==> |r.value| == CycleItemCount(st, c)
  {
    Compile(CycleOperand(st.additive, c), CycleOperand(st.subtractive, c), store, rot)
  }

  /** One completion order of the pool per cycle. */
  predicate CycleOrders(st: State, orders: seq<seq<nat>>)
    requires Valid(st)
  {
    |orders| == st.cycles && forall c :: 0 <= c < st.cycles ==> IsPermutation(orders[c], CycleItemCount(st, c))
  }

  /** Cycle `c` has composites that are writable. */
  predicate CycleWritable(st: State, store: Store, rot: (Image, int) -> Image, corr: Divisor, c: nat)
    requires Valid(st) && c < st.cycles
  {
    CycleItems(st, store, rot, c).Success? && Writable(CycleItems(st, store, rot, c).value, corr)
  }

  /** The file of cycle `c`: the sum of its composites divided by the correction. */
  function CycleOutput(st: State, store: Store, rot: (Image, int) -> Image, corr: Divisor,
                       folder: string, name: string, orders: seq<seq<nat>>, c: nat): (r: Result<Output>)
    requires Valid(st) && CycleOrders(st, orders) && c < st.cycles
    ensures r.Success? <==> CycleWritable(st, store, rot, corr, c)
    ensures r.Success? ==> r.value.path == CyclePath(folder, name, c)
  {
    var items :- CycleItems(st, store, rot, c);
    WriteTotal(items, orders[c], corr, CyclePath(folder, name, c))
  }

  /** The file of every cycle, in cycle order. */
  function CycleOutputs(st: State, store: Store, rot: (Image, int) -> Image, corr: Divisor,
                        folder: string, name: string, orders: seq<seq<nat>>): (r: seq<Result<Output>>)
    requires Valid(st) && CycleOrders(st, orders)
    ensures |r| == st.cycles
    ensures forall c :: 0 <= c < |r| ==> r[c] == CycleOutput(st, store, rot, corr, folder, name, orders, c)
  {
    seq(st.cycles, c requires 0 <= c < st.cycles => CycleOutput(st, store, rot, corr, folder, name, orders, c))
  }

  /** Every cycle has composites that are writable. */
  predicate CyclesWritable(st: State, store: Store, rot: (Image, int) -> Image, corr: Divisor)
    requires Valid(st)
  {
    forall c :: 0 <= c < st.cycles ==> CycleWritable(st, store, rot, corr, c)
  }

  /** Every cycle's file is written exactly when every cycle's composites are
      writable. */
  lemma CycleOutputsSucceed(st: State, store: Store, rot: (Image, int) -> Image, corr: Divisor,
                            folder: string, name: string, orders: seq<seq<nat>>)
    requires Valid(st) && CycleOrders(st, orders)
    ensures Collect(CycleOutputs(st, store, rot, corr, folder, name, orders)).Success? <==> CyclesWritable(st, store, rot, corr)
  {
    var outs := CycleOutputs(st, store, rot, corr, folder, name, orders);
    if CyclesWritable(st, store, rot, corr) {
      assert forall c :: 0 <= c < |outs| ==> outs[c].Success?;
    } else {
      var c :| 0 <= c < st.cycles && !CycleWritable(st, store, rot, corr, c);
      assert outs[c].Failure?;
    }
  }

  /** `save_cycles` as evidently intended: nothing when both trees are empty;
      otherwise one `_Cycle_<c>` file per cycle, each the sum of that cycle's
      composites (baselines `1 + add - sub`) divided by the correction. A
      loaded side with an emptied mask has no cycle to index. */
  function SaveCycles(st: State, store: Store, rot: (Image, int) -> Image, folder: string, name: string,
                      orders: seq<seq<nat>>): (r: Result<seq<Output>>)
    requires st.cycles >= 1 && SidesSavable(st)
    requires SidesWellFormed(st) ==> Valid(st) && CycleOrders(st, orders)
    ensures !AnyLoaded(st) ==> r == Success([])
    ensures AnyLoaded(st) && LoadCorrection(st, store, rot).Failure? ==> r.Failure?
    ensures AnyLoaded(st) && LoadCorrection(st, store, rot).Success? && AnyMaskEmptied(st) ==> r == Failure(IndexOutOfRange)
    ensures r.Success? ==> !AnyMaskEmptied(st)
    ensures AnyLoaded(st) && r.Success? ==> LoadCorrection(st, store, rot).Success? && |r.value| == st.cycles
    ensures AnyLoaded(st) && r.Success? ==> forall c :: 0 <= c < |r.value| ==> r.value[c].path == CyclePath(folder, name, c)
    ensures AnyLoaded(st) && LoadCorrection(st, store, rot).Success? && !AnyMaskEmptied(st) ==>
              && Valid(st)
              && (r.Success? <==> CyclesWritable(st, store, rot, LoadCorrection(st, store, rot).value))
  {
    if !AnyLoaded(st) then Success([])
    else
      var corr :- LoadCorrection(st, store, rot);
      if AnyMaskEmptied(st) then Failure(IndexOutOfRange)
      else
        assert SidesWellFormed(st) && Valid(st);
        CycleOutputsSucceed(st, store, rot, corr, folder, name, orders);
        Collect(CycleOutputs(st, store, rot, corr, folder, name, orders))
  }

  /** The file of each cycle is the position-order sum of that cycle's
      composites divided by the correction. */
  lemma SaveCyclesWritesSums(st: State, store: Store, rot: (Image, int) -> Image, folder: string, name: string,
                             orders: seq<seq<nat>>, c: nat)
    requires Valid(st) && CycleOrders(st, orders) && c < st.cycles
    requires AnyLoaded(st) && SaveCycles(st, store, rot, folder, name, orders).Success?
    ensures LoadCorrection(st, store, rot).Success? && CycleItems(st, store, rot, c).Success?
    ensures var items := CycleItems(st, store, rot, c).value;
            && |items| >= 1 && AllShaped(items, ShapeOf(items[0]))
            && Divide(SumImages(items, ShapeOf(items[0])), LoadCorrection(st, store, rot).value).Success?
            && SaveCycles(st, store, rot, folder, name, orders).value[c] ==
                 Output(CyclePath(folder, name, c), Divide(SumImages(items, ShapeOf(items[0])), LoadCorrection(st, store, rot).value).value)
  {
    var corr := LoadCorrection(st, store, rot).value;
    var outs := CycleOutputs(st, store, rot, corr, folder, name, orders);
    assert outs[c] == Success(SaveCycles(st, store, rot, folder, name, orders).value[c]);
  }

  lemma CycleOutputOrderIndependent(st: State, store: Store, rot: (Image, int) -> Image, corr: Divisor,
                                    folder: string, name: string, orders1: seq<seq<nat>>, orders2: seq<seq<nat>>, c: nat)
    requires Valid(st) && CycleOrders(st, orders1) && CycleOrders(st, orders2) && c < st.cycles
    ensures CycleOutput(st, store, rot, corr, folder, name, orders1, c) == CycleOutput(st, store, rot, corr, folder, name, orders2, c)
  {
    if CycleItems(st, store, rot, c).Success? {
      var items := CycleItems(st, store, rot, c).value;
      WriteTotalOrderIndependent(items, orders1[c], orders2[c], corr, CyclePath(folder, name, c));
    }
  }

  /** The completion orders of the pools do not change the cycle files. */
  lemma SaveCyclesOrderIndependent(st: State, store: Store, rot: (Image, int) -> Image, folder: string, name: string,
                                   orders1: seq<seq<nat>>, orders2: seq<seq<nat>>)
    requires Valid(st) && CycleOrders(st, orders1) && CycleOrders(st, orders2)
    ensures SaveCycles(st, store, rot, folder, name, orders1) == SaveCycles(st, store, rot, folder, name, orders2)
  {
    if AnyLoaded(st) && LoadCorrection(st, store, rot).Success? {
      var corr := LoadCorrection(st, store, rot).value;
      var outs1 := CycleOutputs(st, store, rot, corr, folder, name, orders1);
      var outs2 := CycleOutputs(st, store, rot, corr, folder, name, orders2);
      forall c | 0 <= c < st.cycles
        ensures outs1[c] == outs2[c]
      {
        CycleOutputOrderIndependent(st, store, rot, corr, folder, name, orders1, orders2, c);
      }
      assert outs1 == outs2;
    }
  }

  /** No two cycles are written to the same file. */
  lemma SaveCyclesPathsDistinct(st: State, store: Store, rot: (Image, int) -> Image, folder: string, name: string,
                                orders: seq<seq<nat>>)
    requires Valid(st) && CycleOrders(st, orders)
    requires SaveCycles(st, store, rot, folder, name, orders).Success?
    ensures var outs := SaveCycles(st, store, rot, folder, name, orders).value;
            forall c, d :: 0 <= c < |outs| && 0 <= d < |outs| && outs[c].path == outs[d].path ==> c == d
  {
    var outs := SaveCycles(st, store, rot, folder, name, orders).value;
    forall c, d | 0 <= c < |outs| && 0 <= d < |outs| && outs[c].path == outs[d].path
      ensures c == d
    {
      CyclePathInjective(folder, name, c, d);
    }
  }

  /** A side grouped into a single cycle has the same operand per cycle as in total. */
  lemma SingleCycleOperand(side: Side)
    requires WellFormed(side.images) && |side.images.names| == 1
    ensures CycleOperand(side, 0) == TotalOperand(side)
  {
    var s := side.images;
    assert Flatten(s.names) == s.names[0] by { assert s.names == [s.names[0]]; assert s.names[..0] == []; }
    assert Flatten(s.accepted) == s.accepted[0] by { assert s.accepted == [s.accepted[0]]; assert s.accepted[..0] == []; }
    assert Flatten(s.normalization) == s.normalization[0] by {
      assert s.normalization == [s.normalization[0]];
      assert s.normalization[..0] == [];
    }
  }

  /** With a single cycle, the composites of cycle 0 are those of the total. */
  lemma OneCycleItems(st: State, store: Store, rot: (Image, int) -> Image)
    requires Valid(st) && st.cycles == 1
    ensures SidesWellFormed(st) && CycleItemCount(st, 0) == TotalItemCount(st)
    ensures CycleItems(st, store, rot, 0) == TotalItems(st, store, rot)
  {
    if Populated(st.additive.images) {
      SingleCycleOperand(st.additive);
    }
    if Populated(st.subtractive.images) {
      SingleCycleOperand(st.subtractive);
    }
  }

  /** With a single cycle, `save_cycles` writes the file of cycle 0 alone. */
  lemma SaveCyclesOfOneOutput(st: State, store: Store, rot: (Image, int) -> Image, folder: string, name: string,
                              orders: seq<seq<nat>>)
    requires Valid(st) && st.cycles == 1 && CycleOrders(st, orders)
    requires AnyLoaded(st) && LoadCorrection(st, store, rot).Success?
    ensures var cyc := CycleOutput(st, store, rot, LoadCorrection(st, store, rot).value, folder, name, orders, 0);
            SaveCycles(st, store, rot, folder, name, orders) ==
              if cyc.Success? then Success([cyc.value]) else Failure(cyc.error)
  {
    ValidNotEmptied(st);
    var corr := LoadCorrection(st, store, rot).value;
    var outs := CycleOutputs(st, store, rot, corr, folder, name, orders);
    assert outs == [CycleOutput(st, store, rot, corr, folder, name, orders, 0)];
    CollectOne(outs[0]);
  }

  /** With a single cycle, the cycle file holds exactly what `save_total` writes. */
  lemma SaveCyclesOfOneCycle(st: State, store: Store, rot: (Image, int) -> Image, folder: string, name: string,
                             orders: seq<seq<nat>>)
    requires Valid(st) && st.cycles == 1 && CycleOrders(st, orders)
    ensures SidesWellFormed(st) && CycleItemCount(st, 0) == TotalItemCount(st)
    ensures SaveCycles(st, store, rot, folder, name, orders).Success? <==>
              SaveTotal(st, store, rot, folder, name, false, orders[0]).Success?
    ensures AnyLoaded(st) && SaveCycles(st, store, rot, folder, name, orders).Success? ==>
              SaveCycles(st, store, rot, folder, name, orders).value ==
                [SaveTotal(st, store, rot, folder, name, false, orders[0]).value[0].(path := CyclePath(folder, name, 0))]
  {
    OneCycleItems(st, store, rot);
    ValidNotEmptied(st);
    if AnyLoaded(st) && LoadCorrection(st, store, rot).Success? {
      var corr := LoadCorrection(st, store, rot).value;
      var cyc := CycleOutput(st, store, rot, corr, folder, name, orders, 0);
      SaveCyclesOfOneOutput(st, store, rot, folder, name, orders);
      if TotalItems(st, store, rot).Success? {
        var items := TotalItems(st, store, rot).value;
        var tot := WriteTotal(items, orders[0], corr, TotalPath(folder, name));
        assert cyc == WriteTotal(items, orders[0], corr, CyclePath(folder, name, 0));
        assert cyc.Success? <==> tot.Success?;
        if cyc.Success? {
          assert cyc.value == tot.value.(path := CyclePath(folder, name, 0));
        }
      }
    }
  }

  /** The baselines of every cycle as `save_cycles` computes them, adding the
      subtractive normalization. */
  function WrittenCycleBaselines(st: State): (r: seq<Result<seq<real>>>)
    requires Valid(st)
    ensures |r| == st.cycles
  {
    seq(st.cycles, c requires 0 <= c < st.cycles =>
          CycleBaselinesAsWritten(NormsOf(CycleOperand(st.additive, c)), NormsOf(CycleOperand(st.subtractive, c))))
  }

  /** `save_cycles` as written. A loaded side with an emptied mask has no
      cycle to index. Otherwise the baselines of every cycle are computed
      first, with the subtractive values added; with only one tree loaded, the
      other side's names are then read although never assigned. Otherwise the
      composites of cycle 0 are computed, but the pool delivers `(index, image)`
      pairs, which the loop concatenates as tuples, and dividing that tuple by
      the correction raises; with nothing accepted in cycle 0 the total is
      never assigned at all. No file is written in any case. */
  function SaveCyclesAsWritten(st: State, store: Store, rot: (Image, int) -> Image): (r: Result<seq<Output>>)
    requires st.cycles >= 1 && SidesSavable(st)
    requires SidesWellFormed(st) ==> Valid(st)
    ensures !AnyLoaded(st) ==> r == Success([])
    ensures AnyLoaded(st) ==> r.Failure?
    ensures AnyLoaded(st) && LoadCorrection(st, store, rot).Success? && AnyMaskEmptied(st) ==> r == Failure(IndexOutOfRange)
    ensures (Populated(st.additive.images) != Populated(st.subtractive.images) &&
             LoadCorrection(st, store, rot).Success? && !AnyMaskEmptied(st)) ==>
              r == Failure(UnboundName)
  {
    if !AnyLoaded(st) then Success([])
    else
      var corr :- LoadCorrection(st, store, rot);
      if AnyMaskEmptied(st) then Failure(IndexOutOfRange)
      else
        var cns :- Collect(WrittenCycleBaselines(st));
        if !Populated(st.additive.images) || !Populated(st.subtractive.images) then Failure(UnboundName)
        else
          var items :- Composites(CycleOperand(st.additive, 0), CycleOperand(st.subtractive, 0), cns[0], store, rot);
          if |items| == 0 then Failure(UnboundName) else Failure(NotAnImage)
  }

  /** One cycle holding one accepted image per side, `a` minus `b`, both with
      normalization 0, and no correction. */
  function TwoSidedExample(): (st: State)
    ensures Valid(st) && Populated(st.additive.images) && Populated(st.subtractive.images)
  {
    var st := State(Side(ImageSet([["a"]], [[true]], [[0.0]]), DefaultWindow, 0),
                    Side(ImageSet([["b"]], [[true]], [[0.0]]), DefaultWindow, 0),
                    false, false, None, 0, 1, 0, 0, NoSelection);
    assert Flatten([["a"]]) == ["a"] && Flatten([["b"]]) == ["b"];
    assert ChunkSize(1, 1, 0) == 1;
    st
  }

  function TwoSidedStore(): Store {
    map["a" := [[2.0]], "b" := [[1.0]]]
  }

  lemma TwoSidedExampleOperands()
    ensures CycleOperand(TwoSidedExample().additive, 0) == Some(Operand(["a"], [0.0], 0))
    ensures CycleOperand(TwoSidedExample().subtractive, 0) == Some(Operand(["b"], [0.0], 0))
  {
    AcceptedOfOne("a", 0.0, 0);
    AcceptedOfOne("b", 0.0, 0);
  }

  /** Zero normalizations give the baseline 1 with both the written and the
      intended combination. */
  lemma TwoSidedExampleBaselines()
    ensures CycleBaselinesAsWritten(Some([0.0]), Some([0.0])) == Success([1.0])
    ensures Baselines(Some([0.0]), Some([0.0])) == Success([1.0])
    ensures Mean([1.0]) == 1.0
  {
    CycleBaselinesExcess([0.0], [0.0]);
    assert Baselines(Some([0.0]), Some([0.0])).value == [1.0];
    assert CycleBaselinesAsWritten(Some([0.0]), Some([0.0])).value == [1.0];
    assert Sum([1.0]) == 1.0;
  }

  /** The example's single composite is `a - b` = `[[1]]`. */
  lemma TwoSidedExampleComposites()
    ensures Composites(Some(Operand(["a"], [0.0], 0)), Some(Operand(["b"], [0.0], 0)), [1.0],
                       TwoSidedStore(), Unrotated) == Success([[[1.0]]])
  {
    TwoSidedExampleBaselines();
    var store := TwoSidedStore();
    var add, sub := Some(Operand(["a"], [0.0], 0)), Some(Operand(["b"], [0.0], 0));
    assert Fetch(add, store, Unrotated, 0) == Success(Some([[2.0]])) by {
      assert Unrotated([[2.0]], 0) == [[2.0]];
    }
    assert Fetch(sub, store, Unrotated, 0) == Success(Some([[1.0]])) by {
      assert Unrotated([[1.0]], 0) == [[1.0]];
    }
    var d := Difference(Some([[2.0]]), Some([[1.0]])).value;
    assert d == [[1.0]] by {
      ImageExtensionality(d, [[1.0]]);
    }
    RescaleByAverage(d, 1.0);
    assert Item(add, sub, [1.0], Mean([1.0]), store, Unrotated, 0) == Success([[1.0]]);
    var r := Composites(add, sub, [1.0], store, Unrotated);
    assert ItemCount(add, sub) == 1;
    assert r.Success?;
    assert r.value == [[[1.0]]];
  }

  lemma TwoSidedExampleItems()
    ensures CycleItemCount(TwoSidedExample(), 0) == 1
    ensures CycleItems(TwoSidedExample(), TwoSidedStore(), Unrotated, 0) == Success([[[1.0]]])
  {
    TwoSidedExampleOperands();
    TwoSidedExampleBaselines();
    TwoSidedExampleComposites();
  }

  /** A single cycle whose only composite is `img`, with no correction, is
      written as `img` itself. */
  lemma SaveCyclesOfOneImage(st: State, store: Store, rot: (Image, int) -> Image, folder: string, name: string,
                             orders: seq<seq<nat>>, img: Image)
    requires Valid(st) && st.cycles == 1 && CycleOrders(st, orders)
    requires AnyLoaded(st) && st.correction.None?
    requires CycleItems(st, store, rot, 0) == Success([img])
    ensures SaveCycles(st, store, rot, folder, name, orders) == Success([Output(CyclePath(folder, name, 0), img)])
  {
    var path := CyclePath(folder, name, 0);
    assert orders[0] == [0] by {
      PermutationInRange(orders[0], 1);
    }
    assert Total([img], [0]) == Success(img);
    assert CycleOutput(st, store, rot, Unit, folder, name, orders, 0) == Success(Output(path, img));
    SaveCyclesOfOneOutput(st, store, rot, folder, name, orders);
  }

  lemma TwoSidedExampleOrders()
    ensures CycleOrders(TwoSidedExample(), [[0]])
  {
    TwoSidedExampleOperands();
    assert CycleItemCount(TwoSidedExample(), 0) == 1;
    PermutationOfOne();
  }

  /** For that state the intended file of cycle 0 is `a - b`. */
  lemma SaveCyclesOfTwoSidedExample()
    ensures CycleOrders(TwoSidedExample(), [[0]])
    ensures SaveCycles(TwoSidedExample(), TwoSidedStore(), Unrotated, "out", "run", [[0]]) ==
              Success([Output(CyclePath("out", "run", 0), [[1.0]])])
  {
    TwoSidedExampleItems();
    TwoSidedExampleOrders();
    SaveCyclesOfOneImage(TwoSidedExample(), TwoSidedStore(), Unrotated, "out", "run", [[0]], [[1.0]]);
  }

  /** For that state the written code raises on the tuple it accumulated,
      although the intended file exists. */
  lemma SaveCyclesTupleCounterexample()
    ensures SaveCycles(TwoSidedExample(), TwoSidedStore(), Unrotated, "out", "run", [[0]]).Success?
    ensures SaveCyclesAsWritten(TwoSidedExample(), TwoSidedStore(), Unrotated) == Failure(NotAnImage)
  {
    SaveCyclesOfTwoSidedExample();
    TwoSidedExampleOperands();
    TwoSidedExampleWrittenBaselines();
    TwoSidedExampleComposites();
  }

  lemma TwoSidedExampleWrittenBaselines()
    ensures Collect(WrittenCycleBaselines(TwoSidedExample())) == Success([[1.0]])
  {
    TwoSidedExampleOperands();
    TwoSidedExampleBaselines();
    var written := WrittenCycleBaselines(TwoSidedExample());
    assert written == [Success([1.0])];
    CollectOne(written[0]);
  }
}
