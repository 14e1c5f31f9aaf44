/** Two-dimensional detector images as rectangular grids of reals, the pixel
    arithmetic the pipeline applies to them, the order-independent sum of a batch
    of images, and the cropped intensity sum used as a normalization factor. */
module Images {
  import opened Base
  import opened Seqs
  import opened Stats

  predicate Rectangular(g: seq<seq<real>>) {
    forall i :: 0 <= i < |g| ==> |g[i]| == |g[0]|
  }

  /** A 2D array of pixel intensities (every row has the same length). */
  type Image = g: seq<seq<real>> | Rectangular(g)

  function Cols(img: Image): nat {
    if |img| == 0 then 0 else |img[0]|
  }

  datatype Shape = Shape(rows: nat, cols: nat)

  /** `np.shape` of a 2D array. */
  function ShapeOf(img: Image): Shape {
    Shape(|img|, Cols(img))
  }

  predicate InImage(img: Image, i: int, j: int) {
    0 <= i < |img| && 0 <= j < Cols(img)
  }

  /** Two images of the same shape with the same pixels are the same image. */
  lemma ImageExtensionality(a: Image, b: Image)
    requires ShapeOf(a) == ShapeOf(b)
    requires forall i, j :: InImage(a, i, j) ==> a[i][j] == b[i][j]
    ensures a == b
  {
    forall i | 0 <= i < |a|
      ensures a[i] == b[i]
    {
      assert |a[i]| == Cols(a) && |b[i]| == Cols(b);
      assert forall j :: 0 <= j < |a[i]| ==> InImage(a, i, j);
    }
  }

  /** An image every pixel of which is zero. */
  predicate IsZero(img: Image) {
    forall i, j :: 0 <= i < |img| && 0 <= j < Cols(img) ==> img[i][j] == 0.0
  }

  /** Pixelwise combination of two images of the same shape. */
  function Map2(a: Image, b: Image, f: (real, real) -> real): (r: Image)
    requires ShapeOf(a) == ShapeOf(b)
    ensures ShapeOf(r) == ShapeOf(a)
    ensures forall i, j :: InImage(a, i, j) ==> r[i][j] == f(a[i][j], b[i][j])
  {
    seq(|a|, i requires 0 <= i < |a| =>
      seq(Cols(a), j requires 0 <= j < Cols(a) => f(a[i][j], b[i][j])))
  }

  /** Pixelwise transformation of one image. */
  function Map1(a: Image, f: real -> real): (r: Image)
    ensures ShapeOf(r) == ShapeOf(a)
    ensures forall i, j :: InImage(a, i, j) ==> r[i][j] == f(a[i][j])
  {
    seq(|a|, i requires 0 <= i < |a| =>
      seq(Cols(a), j requires 0 <= j < Cols(a) => f(a[i][j])))
  }

  /** `a + b` for equal shapes. */
  function Plus(a: Image, b: Image): (r: Image)
    requires ShapeOf(a) == ShapeOf(b)
    ensures ShapeOf(r) == ShapeOf(a)
    ensures forall i, j :: InImage(a, i, j) ==> r[i][j] == a[i][j] + b[i][j]
  {
    Map2(a, b, (x, y) => x + y)
  }

  /** `a - b` for equal shapes. */
  function Minus(a: Image, b: Image): (r: Image)
    requires ShapeOf(a) == ShapeOf(b)
    ensures ShapeOf(r) == ShapeOf(a)
    ensures forall i, j :: InImage(a, i, j) ==> r[i][j] == a[i][j] - b[i][j]
  {
    Map2(a, b, (x, y) => x - y)
  }

  /** `-a`. */
  function Negate(a: Image): (r: Image)
    ensures ShapeOf(r) == ShapeOf(a)
    ensures forall i, j :: InImage(a, i, j) ==> r[i][j] == -a[i][j]
  {
    Map1(a, x => -x)
  }

  /** `add - sub` where an absent side is numpy's `[[0]]`, broadcast to the
      shape of the present side; two present sides must have the same shape. */
  function Difference(add: Option<Image>, sub: Option<Image>): (r: Result<Image>)
    ensures r.Failure? <==> add.Some? && sub.Some? && ShapeOf(add.value) != ShapeOf(sub.value)
    ensures r.Success? && add.Some? ==> ShapeOf(r.value) == ShapeOf(add.value)
    ensures r.Success? && sub.Some? ==> ShapeOf(r.value) == ShapeOf(sub.value)
    ensures r.Success? && add.Some? && sub.Some? ==>
              forall i, j :: InImage(add.value, i, j) ==>
                r.value[i][j] == add.value[i][j] - sub.value[i][j]
    ensures r.Success? && add.Some? && sub.None? ==> r.value == add.value
    ensures r.Success? && add.None? && sub.Some? ==>
              forall i, j :: InImage(sub.value, i, j) ==> r.value[i][j] == -sub.value[i][j]
    ensures add.None? && sub.None? ==> r == Success([[0.0]])
  {
    match (add, sub)
    case (Some(a), Some(s)) => if ShapeOf(a) == ShapeOf(s) then Success(Minus(a, s)) else Failure(ShapeMismatch)
    case (Some(a), None) => Success(a)
    case (None, Some(s)) => Success(Negate(s))
    case (None, None) => Success([[0.0]])
  }

  /** Identical sides cancel exactly. */
  lemma DifferenceOfEqualIsZero(img: Image)
    ensures Difference(Some(img), Some(img)).Success?
    ensures IsZero(Difference(Some(img), Some(img)).value)
  {
  }

  /** A pixelwise quotient: same shape, no zero pixel in the divisor. The
      floating-point result of a division by zero (an infinity or NaN pixel) is
      reported as an error instead. */
  predicate NoZeroPixel(img: Image) {
    forall i, j :: 0 <= i < |img| && 0 <= j < Cols(img) ==> img[i][j] != 0.0
  }

  /** `num / den` for two images. */
  function DivideImages(num: Image, den: Image): (r: Result<Image>)
    ensures r.Success? <==> ShapeOf(num) == ShapeOf(den) && NoZeroPixel(den)
    ensures r.Failure? && ShapeOf(num) != ShapeOf(den) ==> r.error == ShapeMismatch
    ensures r.Failure? && ShapeOf(num) == ShapeOf(den) ==> r.error == DivisionByZero
    ensures r.Success? ==> ShapeOf(r.value) == ShapeOf(num)
    ensures r.Success? ==> forall i, j :: InImage(num, i, j) ==> r.value[i][j] * den[i][j] == num[i][j]
  {
    if ShapeOf(num) != ShapeOf(den) then Failure(ShapeMismatch)
    else if !NoZeroPixel(den) then Failure(DivisionByZero)
    else
      var q := Map2(num, den, (x, y) => if y == 0.0 then 0.0 else x / y);
      assert forall i, j :: InImage(num, i, j) ==> q[i][j] == num[i][j] / den[i][j];
      Success(q)
  }

  /** `img / baseline * avg`: rescaling a composite by its normalization. */
  function Rescale(img: Image, baseline: real, avg: real): (r: Result<Image>)
    ensures r.Success? <==> baseline != 0.0
    ensures r.Failure? ==> r.error == DivisionByZero
    ensures r.Success? ==> ShapeOf(r.value) == ShapeOf(img)
    ensures r.Success? ==> forall i, j :: InImage(img, i, j) ==> r.value[i][j] * baseline == img[i][j] * avg
  {
    if baseline == 0.0 then Failure(DivisionByZero)
    else
      var q := Map1(img, x => x / baseline * avg);
      assert forall i, j :: InImage(img, i, j) ==> q[i][j] * baseline == img[i][j] * avg by {
        forall i, j | InImage(img, i, j)
          ensures q[i][j] * baseline == img[i][j] * avg
        {
          assert q[i][j] == img[i][j] / baseline * avg;
        }
      }
      Success(q)
  }

  /** Rescaling by a baseline equal to the average leaves the image unchanged. */
  lemma RescaleByAverage(img: Image, b: real)
    requires b != 0.0
    ensures Rescale(img, b, b) == Success(img)
  {
    var r := Rescale(img, b, b).value;
    forall i, j | InImage(img, i, j)
      ensures r[i][j] == img[i][j]
    {
      assert r[i][j] * b == img[i][j] * b;
    }
    ImageExtensionality(r, img);
  }

  /** `(add - sub) / baseline * avg` where an absent side contributes nothing. */
  function Composite(add: Option<Image>, sub: Option<Image>, baseline: real, avg: real): (r: Result<Image>)
    ensures r.Success? <==> Difference(add, sub).Success? && baseline != 0.0
    ensures r.Success? ==> ShapeOf(r.value) == ShapeOf(Difference(add, sub).value)
    ensures r.Success? ==> forall i, j :: InImage(r.value, i, j) ==>
              r.value[i][j] * baseline == Difference(add, sub).value[i][j] * avg
  {
    var d :- Difference(add, sub);
    var q := Rescale(d, baseline, avg);
    assert q.Success? ==> forall i, j :: InImage(q.value, i, j) ==> InImage(d, i, j);
    q
  }

  // ---------------------------------------------------------------------------
  // The image store: reading an image from a path
  // ---------------------------------------------------------------------------

  /** The images readable from disk, by path. */
  type Store = map<string, Image>

  /** `load_image(path)`: a path that cannot be read is an error. */
  function Load(store: Store, path: string): (r: Result<Image>)
    ensures r.Success? <==> path in store
    ensures r.Success? ==> r.value == store[path]
    ensures r.Failure? ==> r.error == LoadFailure(path)
  {
    if path in store then Success(store[path]) else Failure(LoadFailure(path))
  }

  /** `np.rot90(load_image(path), -steps)`, the rotation being a parameter. */
  function LoadRotated(store: Store, path: string, rot: (Image, int) -> Image, steps: int): (r: Result<Image>)
    ensures r.Success? <==> path in store
    ensures r.Success? ==> r.value == rot(store[path], -steps)
    ensures r.Failure? ==> r.error == LoadFailure(path)
  {
    var img :- Load(store, path);
    Success(rot(img, -steps))
  }

  // ---------------------------------------------------------------------------
  // Order-independent summation of a batch of images
  // ---------------------------------------------------------------------------

  predicate AllShaped(xs: seq<Image>, s: Shape) {
    forall k :: 0 <= k < |xs| ==> ShapeOf(xs[k]) == s
  }

  /** `total = xs[0]; total += xs[1]; ...` in the listed order. */
  function SumImages(xs: seq<Image>, s: Shape): (r: Image)
    requires |xs| >= 1 && AllShaped(xs, s)
    ensures ShapeOf(r) == s
    decreases |xs|
  {
    if |xs| == 1 then xs[0] else Plus(SumImages(xs[..|xs| - 1], s), xs[|xs| - 1])
  }

  /** The values of pixel `(i, j)` across a batch of images. */
  function Column(xs: seq<Image>, s: Shape, i: nat, j: nat): (r: seq<real>)
    requires AllShaped(xs, s) && i < s.rows && j < s.cols
    ensures |r| == |xs|
    ensures forall k :: 0 <= k < |xs| ==> r[k] == xs[k][i][j]
  {
    seq(|xs|, k requires 0 <= k < |xs| => assert InImage(xs[k], i, j); xs[k][i][j])
  }

  /** Pixel `(i, j)` of the batch sum is the sum of the batch's pixels `(i, j)`. */
  lemma {:induction false} SumImagesPixel(xs: seq<Image>, s: Shape, i: nat, j: nat)
    requires |xs| >= 1 && AllShaped(xs, s) && i < s.rows && j < s.cols
    ensures SumImages(xs, s)[i][j] == Sum(Column(xs, s, i, j))
    decreases |xs|
  {
    var n := |xs|;
    if n == 1 {
      assert Column(xs, s, i, j) == [xs[0][i][j]];
    } else {
      var front := xs[..n - 1];
      SumImagesPixel(front, s, i, j);
      assert Column(xs, s, i, j) == Column(front, s, i, j) + [xs[n - 1][i][j]];
      SumAppend(Column(front, s, i, j), [xs[n - 1][i][j]]);
      assert InImage(SumImages(front, s), i, j);
    }
  }

  /** The completion order of the worker pool does not change the batch sum. */
  lemma SumImagesInAnyOrder(xs: seq<Image>, s: Shape, order: seq<nat>)
    requires |xs| >= 1 && AllShaped(xs, s)
    requires IsPermutation(order, |xs|)
    ensures InRange(order, |xs|)
    ensures |Pick(xs, order)| >= 1 && AllShaped(Pick(xs, order), s)
    ensures SumImages(Pick(xs, order), s) == SumImages(xs, s)
  {
    PermutationInRange(order, |xs|);
    var ys := Pick(xs, order);
    forall i, j | InImage(SumImages(xs, s), i, j)
      ensures SumImages(ys, s)[i][j] == SumImages(xs, s)[i][j]
    {
      SumImagesPixel(xs, s, i, j);
      SumImagesPixel(ys, s, i, j);
      assert Column(ys, s, i, j) == Pick(Column(xs, s, i, j), order);
      SumInAnyOrder(Column(xs, s, i, j), order);
    }
    ImageExtensionality(SumImages(ys, s), SumImages(xs, s));
  }

  /** A batch of all-zero images sums to an all-zero image. */
  lemma {:induction false} SumOfZeroImages(xs: seq<Image>, s: Shape)
    requires |xs| >= 1 && AllShaped(xs, s)
    requires forall k :: 0 <= k < |xs| ==> IsZero(xs[k])
    ensures IsZero(SumImages(xs, s))
    decreases |xs|
  {
    if |xs| > 1 {
      SumOfZeroImages(xs[..|xs| - 1], s);
    }
  }

  // ---------------------------------------------------------------------------
  // Normalization factor: intensity summed over the image with 1% of the rows
  // and columns cropped from each edge (src/Trees.py normalization_factors)
  // ---------------------------------------------------------------------------

  /** The number of rows (or columns) cropped from each edge: a hundredth of
      the dimension, rounded down (see `CropMarginIsHundredth`). */
  function CropMargin(dim: nat): (m: nat)
    ensures 2 * m <= dim
  {
    dim / 100
  }

  /** The source computes the margin as `int(dim * 0.01)`; on a natural
      number that is the integer hundredth `CropMargin` uses. */
  lemma CropMarginIsHundredth(dim: nat)
    ensures ((dim as real) * 0.01).Floor == CropMargin(dim)
  {
    var q, r := dim / 100, dim % 100;
    assert dim == 100 * q + r;
    assert (dim as real) * 0.01 == q as real + (r as real) / 100.0;
    assert q as real <= (dim as real) * 0.01 < (q + 1) as real;
  }

  /** The sum of the pixels in rows `[top, bottom)` and columns `[lo, hi)`. */
  function WindowSum(img: Image, top: nat, bottom: nat, lo: nat, hi: nat): real
    requires top <= bottom <= |img| && lo <= hi <= Cols(img)
    decreases bottom - top
  {
    if top == bottom then 0.0
    else
      assert |img[top]| == Cols(img);
      Sum(img[top][lo .. hi]) + WindowSum(img, top + 1, bottom, lo, hi)
  }

  /** Sum of the pixels of rows `[R/100, R - R/100)` and columns `[C/100, C - C/100)`. */
  function CropSum(img: Image): real {
    var mr, mc := CropMargin(|img|), CropMargin(Cols(img));
    WindowSum(img, mr, |img| - mr, mc, Cols(img) - mc)
  }

  /** A window sum reads only the pixels inside the window. */
  lemma {:induction false} WindowSumFrame(a: Image, b: Image, top: nat, bottom: nat, lo: nat, hi: nat)
    requires ShapeOf(a) == ShapeOf(b)
    requires top <= bottom <= |a| && lo <= hi <= Cols(a)
    requires forall i, j :: top <= i < bottom && lo <= j < hi ==> a[i][j] == b[i][j]
    ensures WindowSum(a, top, bottom, lo, hi) == WindowSum(b, top, bottom, lo, hi)
    decreases bottom - top
  {
    if top < bottom {
      assert |a[top]| == |b[top]| == Cols(a);
      assert a[top][lo .. hi] == b[top][lo .. hi];
      WindowSumFrame(a, b, top + 1, bottom, lo, hi);
    }
  }

  /** The normalization ignores the 1% border: two images of the same shape
      that agree inside the cropped region have the same normalization. */
  lemma CropSumIgnoresMargin(a: Image, b: Image)
    requires ShapeOf(a) == ShapeOf(b)
    requires forall i, j ::
               (CropMargin(|a|) <= i < |a| - CropMargin(|a|) && CropMargin(Cols(a)) <= j < Cols(a) - CropMargin(Cols(a)))
               ==> a[i][j] == b[i][j]
    ensures CropSum(a) == CropSum(b)
  {
    WindowSumFrame(a, b, CropMargin(|a|), |a| - CropMargin(|a|), CropMargin(Cols(a)), Cols(a) - CropMargin(Cols(a)));
  }
}
