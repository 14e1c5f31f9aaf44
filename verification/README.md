# Image Compiler Tool — acceptance masks, image sets and compilation in Dafny

This project models the data pipeline of the Image Compiler Tool. The tool loads
an *additive* and a *subtractive* set of images. It splits each set into cycles
and decides which images are accepted. It then writes the compiled difference
`Σ (add − sub) / baseline · avg`, divided by an optional multiplicative
correction image. The model covers four source files:

- `src/Bounds.py` (module `Bounds`) computes the acceptance masks:
  - it trims the first and last images of every cycle;
  - it rejects outliers outside the pooled mean ± k·σ;
  - it ANDs the additive and subtractive masks together;
  - it recomputes everything from an all-True mask.
- `src/Trees.py` (module `Trees`) holds the image-set parameter dictionaries:
  - loading a set, including the count check and the scattered per-image normalization;
  - re-chunking the set when the cycle count changes;
  - swapping and removing sets;
  - adding and removing the correction image.
- `src/Files.py` (module `Files`) compiles the output:
  - picks the accepted positions;
  - computes the baselines `1 + addNorm − subNorm` and their mean;
  - computes each composite;
  - sums the composites in any completion order;
  - divides by the correction and names the output files.
- `src/Selection.py` (module `Selection`) maps a tree click to the selection
  indices, swaps the selection kind, and builds the image shown for a selection.

Shared vocabulary:

- `Base`: `Option`, `Result` and the error conditions.
- `Seqs`: `Flatten`, the `np.array_split` chunking, the pick-by-index helpers
  and permutations.
- `Stats`: sums, mean, population variance, and sums in any order.
- `Images`: images as rectangular `seq<seq<real>>`, pixelwise arithmetic, the
  batch sum, and the 1%-cropped intensity sum.
- `Naming`: decimal rendering of indices.
- `Model`: the datatypes `ImageSet`, `Side`, `State` and `Selection`, and the
  invariant `Valid`.

The model treats the following as parameters:

- Image files are a `Store` (a map from path to image), and a missing path is a load failure.
- `np.rot90` is a function `rot: (Image, int) -> Image`.
- The square root is a function `sqrt` constrained by `IsSqrt`. The pooled σ
  satisfies `σ ≥ 0 ∧ σ² = population variance`.
- The worker pool's completion order is a permutation `order` of `0 .. n-1`.
- The checked state of the two add-set buttons is `additiveArmed` and
  `subtractiveArmed`, because `merge_bounds` branches on them.

Written files are returned as a list of `Output(path, image)` values. Every
operation returns a `Result`, so an error the Python code would raise becomes a
`Failure` with a named condition.

## Model

| member | source | states |
|---|---|---|
| Bounds.StartStop | src/Bounds.py:42-58 | keeps the number of cycles and every cycle's length; position i of a cycle of length L is accepted afterwards exactly when it was accepted before and `min(dropFirst, L) <= i < L - min(dropLast, L)` |
| Bounds.StartStopIdempotent | src/Bounds.py:42-58 | trimming never turns a rejected image into an accepted one, and trimming twice equals trimming once |
| Bounds.MaskCycles | src/Bounds.py:88-95 | keeps the mask's shape; an entry stays accepted exactly when it was accepted and its value is not below `mu - sigma*min` or above `mu + sigma*max` |
| Bounds.PooledStd | src/Bounds.py:86-93 | the σ used is the population standard deviation of the whole flattened pool (non-negative, squared equals the pooled variance) |
| Bounds.MaskCyclesFlattens | src/Bounds.py:86-95 | masking cycle by cycle gives, once flattened, the pointwise masking of the flattened values and mask |
| Bounds.StdBoundsRegroup | src/Bounds.py:86-95 | regrouping the values and mask consistently into other cycles leaves both the pooled σ and the flattened result unchanged |
| Bounds.StdBoundsWindow | src/Bounds.py:92-95 | after std bounding, an entry is accepted exactly when it was accepted and its value lies in the closed window `[mu - sigma*min, mu + sigma*max]` around the pooled mean |
| Bounds.StdBoundsKeepsMean | src/Bounds.py:92-95 | with non-negative multipliers an entry whose value equals the pooled mean is never rejected |
| Bounds.StdBoundsUniformPool | src/Bounds.py:92-95 | when every value is equal (σ = 0) and the multipliers are non-negative, std bounding rejects nothing |
| Bounds.StdBoundsIdempotent | src/Bounds.py:84-99 | std bounding twice with the same values equals std bounding once |
| Bounds.Merge | src/Bounds.py:65-68 | both merged masks equal the elementwise `A ∧ B`, although line 68 reads the additive mask already overwritten at line 67 |
| Bounds.MergeIdempotent | src/Bounds.py:65-68 | merging already merged masks changes nothing |
| Bounds.ApplyBounds | src/Bounds.py:70-73 | trimming then std bounding keeps the names, values and mask shape, and keeps a well-formed set well-formed |
| Bounds.MergeBounds | src/Bounds.py:63-78 | raises `IndexError` exactly when both buttons are checked and the additive mask has more cycles than the subtractive one; otherwise only the masks change: with both checked, both become `Merge` of the two masks; with exactly one checked, that side becomes its own trimmed and std-bounded set and the other side is untouched; with neither, nothing changes |
| Bounds.MergeBoundsLone | src/Bounds.py:70-78 | with at most one button checked, a side already at its own trimmed and std-bounded fixpoint is left unchanged |
| Bounds.MergeBoundsValid | src/Bounds.py:63-78 | on a valid state the merge reads only masks it can read, and succeeds exactly when, with both buttons checked, a loaded additive side has a loaded subtractive partner; a successful merge keeps the state valid, except that with both checked and only the subtractive side loaded it empties the subtractive mask |
| Bounds.ValidBoundsReady | src/Bounds.py:63-67 | every valid state can enter `change_bounds`, and on it the merge raises exactly when both buttons are checked, the additive side is loaded and the subtractive side is not |
| Bounds.Recompute | src/Bounds.py:118-138 | resetting to all-True, then trimming and std bounding, keeps the names, values and shape of a side |
| Bounds.RecomputeVerdict | src/Bounds.py:118-138 | every recomputed mask entry equals the reference verdict (inside the trim range and the σ window); recomputing is a fixpoint of trim-then-std-bound |
| Bounds.ChangeBounds | src/Bounds.py:116-143 | raises `IndexError` exactly when a side is loaded and the final merge raises; with both trees empty nothing changes; otherwise only the masks change, and names, values, multipliers and every other setting are kept |
| Bounds.ChangeBoundsVerdict | src/Bounds.py:116-143 | an unmerged loaded side ends with exactly its own verdicts; two loaded sides that merge without error both end with the conjunction of their verdicts |
| Bounds.ChangeBoundsRaises | src/Bounds.py:116-143 | on a valid state `change_bounds` raises exactly when both buttons are checked while only the additive side is loaded |
| Bounds.ChangeBoundsForgetsMasks | src/Bounds.py:118-138 | the result does not depend on the masks held before the call |
| Bounds.ChangeBoundsKeepsValid | src/Bounds.py:116-143 | with both buttons checked only when both or neither side is loaded, a valid state is recomputed without error and stays valid |
| Bounds.ChangeBoundsWipesSubtractive | src/Bounds.py:63-68 | both buttons checked, additive empty and subtractive loaded: the merge leaves an empty subtractive mask and an invalid state |
| Bounds.ResetBounds | src/Bounds.py:104-108 | raises exactly when the following `change_bounds` does; otherwise the reset side's multipliers become 4 and 4, the other side's multipliers and both sides' names are kept, and only the two masks change besides those multipliers (correction, rotations, cycle count, drops, selection and buttons are kept) |
| Bounds.ResetBoundsVerdict | src/Bounds.py:104-108 | with at most one button checked a reset succeeds and each loaded side's mask is the reference verdict under its window (the default 4σ window for the reset side); with both checked and both loaded, a successful reset gives both sides one mask, the conjunction of the two sides' verdicts |
| Seqs.ArraySplit | src/Trees.py:142-143 | `np.array_split` gives k chunks whose concatenation is the input; chunk c has `n/k + 1` entries when `c < n mod k`, else `n/k` |
| Seqs.AllTrueSplit | src/Trees.py:142 | the fresh mask has the split's shape and every entry True |
| Seqs.TruePositions | src/Files.py:140 | `np.where(mask == True)` lists exactly the True positions, strictly increasing |
| Images.CropMarginIsHundredth | src/Trees.py:439 | `int(dim * 0.01)` equals `dim / 100` for every natural `dim` |
| Images.CropSumIgnoresMargin | src/Trees.py:430-439 | two images of the same shape that agree inside the cropped window have the same normalization |
| Images.Difference | src/Selection.py:118-132 | `add - sub` where an absent side is `[[0]]` broadcast to the other; a shape clash of two present images is an error |
| Images.DifferenceOfEqualIsZero | src/Selection.py:132 | an image minus itself is all zero |
| Images.Composite | src/Files.py:112-128 | the composite has the difference's shape and each pixel is `(add - sub) / baseline * avg`; a zero baseline is an error |
| Images.RescaleByAverage | src/Files.py:128 | dividing by a baseline equal to the average leaves the image unchanged |
| Images.Load | src/Files.py:84-88 | a readable path yields its image; any other path is a load failure naming the path |
| Images.SumImagesPixel | src/Files.py:164-172 | each pixel of the accumulated total is the sum of that pixel over the batch |
| Images.SumImagesInAnyOrder | src/Files.py:164-172 | the accumulated total does not depend on the order the worker pool delivers the composites in |
| Images.SumOfZeroImages | src/Files.py:164-172 | a batch of all-zero composites sums to an all-zero image |
| Stats.SumInAnyOrder | src/Files.py:164-172 | a sum taken in any permutation of the positions equals the sum in position order |
| Stats.PopVarianceNonNegative | src/Bounds.py:92-93 | the pooled population variance is non-negative, so its square root exists |
| Naming.DecimalRoundTrip | src/Files.py:178 | `str(j)` can be read back as `j`, so the index in a file name identifies the item |
| Trees.Normalizations | src/Trees.py:430-439 | succeeds exactly when every path is readable; value i is the cropped intensity sum of image i; otherwise the error names an unreadable path |
| Trees.ScatterNormalization | src/Trees.py:147-157 | scattering the pool's `(index, value)` results into a zero array, in any completion order, gives value i at position i: the same result as the in-order computation |
| Trees.Fresh | src/Trees.py:142-161 | a freshly split set is well formed and array_split shaped, flattens back to the chosen names and values, and has every flag True |
| Trees.LoadInto | src/Trees.py:142-164 | the loaded side holds the fresh set, trimmed and std-bounded, and nothing else in the state changes |
| Trees.LoadReady | src/Trees.py:163-165 | after a load `merge_bounds` reads only masks it can read, and it raises exactly when the load goes into the additive side with both buttons checked and no subtractive set loaded |
| Trees.LoadMerged | src/Trees.py:163-165 | the merge after a load raises `IndexError` exactly in that case; otherwise the loaded side keeps the fresh names and values, the other side its own, only the two sides' images change, and with both buttons checked both masks are equal |
| Trees.LoadMergedValid | src/Trees.py:163-165 | a merge after a load that succeeds keeps the state valid, unless it wipes the subtractive mask, which it then does without error |
| Trees.LoadMergedLone | src/Trees.py:163-165 | with at most one button checked the merge succeeds, and the loaded side's mask is its trimmed, std-bounded all-True mask |
| Trees.AddSet | src/Trees.py:132-178 | succeeds exactly when every chosen path is readable and the final merge does not raise; an unreadable path fails with a load failure naming it, a readable set with the merge's `IndexError`; on success the loaded side holds the chosen names split into cycles, and each image's normalization at its own position |
| Trees.AddSetFrame | src/Trees.py:132-178 | a load changes only the two sides' images: the other side keeps its names and values, both sides keep their multipliers and rotation, and the buttons, cycle and drop counts, correction and selection are unchanged; with both buttons checked the two masks end equal |
| Trees.AddSetValid | src/Trees.py:132-178 | a successful load keeps the state valid, except in the case where the merge wipes the subtractive mask |
| Trees.AddSetVerdict | src/Trees.py:142-165 | with at most one button checked, the loaded side's mask is exactly trim-then-std-bound of the all-True mask |
| Trees.LoadStep | src/Trees.py:115-121 | the loading branch of a click: on success the chosen names are loaded, no message is shown and the button keeps its toggled state; an unreadable path fails naming it; with every path readable it fails with `IndexError` exactly when the load is not safe to merge |
| Trees.Refused | src/Trees.py:102-111 | a refused load leaves this side empty and its button unchecked, the other side untouched and the state valid |
| Trees.AddSetLogic | src/Trees.py:87-130 | a populated tree only re-checks its button; an empty choice unchecks it; a count mismatch with the other loaded set empties this side, reports the mismatch and leaves the other side untouched; otherwise the chosen names are loaded and the button toggles, and the click fails with `IndexError` exactly when the toggled buttons would merge a loaded additive side with an empty subtractive one |
| Trees.ChangeCycles | src/Trees.py:345-359 | names and values keep their flattened order and are re-chunked into the new count; the mask is reset to all-True in the same shape |
| Trees.ChangeCyclesTwice | src/Trees.py:345-359 | re-chunking into k1 then k2 cycles equals re-chunking into k2 directly |
| Trees.ChangeCyclesSameCount | src/Trees.py:345-359 | re-chunking a set into the count it already has keeps its names and values |
| Trees.Rechunk | src/Trees.py:345-374 | re-chunking keeps each side's flattened names and values, whether it is loaded, the buttons and validity, under the new cycle count; only the cycle count and the sides' image sets change |
| Trees.UpdateCycles | src/Trees.py:361-377 | raises `IndexError` exactly when both buttons are checked and only the additive side is loaded; otherwise the cycle count changes, each side keeps its flattened names and values and whether it is loaded, and validity is kept unless only the subtractive side is loaded while both buttons are checked; the result is the re-split state with only its masks recomputed, and windows, rotations, correction, drops, selection and buttons are kept |
| Trees.UpdateCyclesRegroups | src/Trees.py:361-376 | each loaded side is re-split by `change_cycles` into exactly the new number of cycles |
| Trees.UpdateCyclesVerdict | src/Trees.py:361-377 | unless both buttons are checked the update succeeds, and each loaded side's mask holds, per cycle of the new grouping, the reference verdict of the re-split set under the side's own window |
| Trees.UpdateCyclesMergedVerdict | src/Trees.py:361-377 | with both buttons checked and both sides loaded the update succeeds, and both masks are one mask holding, per cycle of the new grouping, the conjunction of the two sides' verdicts |
| Trees.SwapSet | src/Trees.py:242-277 | the two sides exchange names, masks, values, multipliers and rotations; the selection kind swaps; the buttons, correction and cycle parameters stay; validity is kept |
| Trees.SwapSetInvolution | src/Trees.py:242-277 | swapping twice restores the state |
| Trees.SwapSetKeepsSelectedImage | src/Trees.py:249-268 | after a swap an additive, subtractive or correction selection shows the same image as before, because the selection follows its images |
| Trees.SwapSetNegatesTotal | src/Trees.py:249-268 | after a swap the total image is the pixelwise negation of the one before, with the same shape |
| Trees.RemoveSet | src/Trees.py:207-240 | corrected removal: an empty tree changes nothing; a loaded side is emptied (mask included) and its button unchecked; the other side keeps its names, values and multipliers; the state stays valid |
| Trees.RemoveSetAsWritten | src/Trees.py:207-240 | removal as written: names and values are emptied, but the mask is stored under `'Accepeted'` and so kept |
| Trees.RemoveSetLeavesStaleMask | src/Trees.py:236-238 | after the misspelled removal the side keeps a mask of `cycles` cycles that no values cover, so the state is invalid; the corrected removal leaves an empty mask |
| Trees.AddCorr | src/Trees.py:180-205 | a non-empty chosen path is stored only when no correction is loaded; otherwise nothing changes |
| Trees.RemoveCorr | src/Trees.py:306-319 | the correction is forgotten and nothing else changes |
| Trees.AddRemoveCorr | src/Trees.py:180-319 | adding a correction to a state without one, then removing it, restores the state |
| Selection.KindOfHeader | src/Trees.py:279-304 | a header text names at most one of the four trees; any other text names none |
| Selection.HeaderRoundTrip | src/Trees.py:279-304 | each tree's header text reads back as that tree, and only that text does |
| Selection.SelectedItemLogic | src/Selection.py:59-95 | a top-level click sets the cycle index and clears the item and total indices; a child click sets the cycle, item and `childCount(0)·cycle + item`; the type is the clicked tree; only a top-level click outside the correction tree shows the whole cycle |
| Selection.FlatPosition | src/Selection.py:71 | the corrected total index: the entry at that position of the flattened names is exactly the clicked item |
| Selection.TotalIndexUniform | src/Selection.py:71 | when every cycle has cycle 0's length, the written total index is the true flattened position |
| Selection.TotalIndexOvershoot | src/Selection.py:71 | for array_split cycles the written index is exact for `c <= n mod k` (or when k divides n), and overshoots by `c - n mod k` beyond that |
| Selection.SplitFlatPosition | src/Trees.py:142-143 | item i of array_split chunk c sits at flattened position `ChunkStart(c) + i` |
| Selection.TotalIndexCounterexample | src/Selection.py:71 | seven images in three cycles: the first item of the last cycle is at flattened position 5, but the written index is 6 |
| Selection.SwapSelected | src/Selection.py:171-193 | Additive becomes Subtractive and the reverse; Total, Correction and no selection are kept; the indices are untouched |
| Selection.SwapSelectedInvolution | src/Selection.py:171-193 | swapping the selection twice restores it |
| Selection.ClearSelection | src/Selection.py:219-250 | the type becomes the tree the header names; an unknown header leaves it unchanged; the indices are untouched |
| Selection.ClearSelectionIdempotent | src/Selection.py:219-250 | clearing twice with the same header equals clearing once |
| Selection.NameAt | src/Selection.py:106-113 | the selected name exists exactly when both indices are present and in range; otherwise the error is a missing item or an out-of-range index |
| Selection.SideImage | src/Selection.py:104-114 | the selected image of a side is its named image rotated by minus the side's slider; it fails exactly when the name is missing or unreadable |
| Selection.CorrectionImage | src/Selection.py:138-142 | the correction image, rotated by minus its slider, when its path is readable |
| Selection.TotalDifference | src/Selection.py:116-132 | succeeds exactly when each loaded side's selected image can be read and, with both loaded, the two have one shape; the total is then additive minus subtractive pixel by pixel, the additive image itself when only it is loaded, its negation when only the subtractive side is loaded, and `[[0]]` with both trees empty |
| Selection.SelectedImage | src/Selection.py:102-145 | for each selection type, the image shown: side images for Additive and Subtractive, the rotated correction for Correction, and for Total the difference, divided by the rotated correction when one is loaded, which succeeds exactly when the difference succeeds, the correction is readable, has the difference's shape and has no zero pixel; a Correction selection with no correction loaded is an error of its own |
| Files.LoadCorrection | src/Files.py:100-110 | the divisor is 1.0 when no correction is loaded, else the rotated correction image; an unreadable correction is a load failure |
| Files.LoadCorrectionFollowsCorrection | src/Files.py:100-110 | the saves divide by 1.0 after `remove_corr`, and after `add_corr` on a state without a correction by the chosen image, rotated, exactly when it is readable |
| Files.Divide | src/Files.py:187 | dividing by 1.0 changes nothing; dividing by an image needs equal shapes and no zero pixel, and each quotient times the divisor pixel gives back the pixel |
| Files.DivideZero | src/Files.py:187 | an all-zero image stays all zero whatever it is divided by |
| Files.Accepted | src/Files.py:140-143 | the accepted names and values are those at the True positions, in order, and every True position appears |
| Files.TotalOperand | src/Files.py:138-154 | a side contributes an operand exactly when its tree is loaded |
| Files.Broadcast | src/Files.py:145 | numpy broadcasting of two 1-D arrays: equal lengths pointwise, a length-1 side repeated, anything else a shape error |
| Files.Baselines | src/Files.py:136-158 | with no side `[1.0]`; with one side `1 + add` or `1 - sub`; with both sides of equal length, position k is `1 + add[k] - sub[k]` |
| Files.BaselinesOfIdenticalSides | src/Files.py:145-156 | two loaded sides with equal values give every position the baseline 1 |
| Files.CycleBaselinesAsWritten | src/Files.py:205-216 | line 216 as written: succeeds exactly when the intended baselines do, with the same length |
| Files.CycleBaselinesExcess | src/Files.py:216 | the written baselines exceed the intended ones by twice the subtractive value at every position |
| Files.CycleBaselinesCounterexample | src/Files.py:216 | values `[1.0]` on both sides give the written baseline 3.0 where the intended baseline is 1.0 |
| Files.Fetch | src/Files.py:116-126 | a loaded side's image at position k, rotated by minus its slider; an index past the accepted names is an error |
| Files.Item | src/Files.py:112-128 | the composite at position k is `(add - sub) / baseline[k] * avg` of the rotated images, and it exists when both images load and the baseline is present |
| Files.ItemUnscaled | src/Files.py:128 | when all baselines are equal, the composite equals the plain difference `add - sub` |
| Files.Composites | src/Files.py:163-172 | succeeds exactly when every position's composite does; the result lists them in position order |
| Files.Compile | src/Files.py:136-172 | succeeds exactly when the baselines and every composite do; the result holds one composite per accepted position |
| Files.CompileOfIdenticalSides | src/Files.py:147-158 | identical additive and subtractive operands give all-zero composites |
| Files.Total | src/Files.py:164-172 | the total is the sum of the composites in completion order; no composite gives an error, and so do shapes that differ |
| Files.WriteTotalOrderIndependent | src/Files.py:164-187 | the written total does not depend on the completion order |
| Files.TaggedInjective | src/Files.py:178 | two file names built from different indices differ |
| Files.ItemPathInjective | src/Files.py:178 | `_Item_<j>` names differ for different j |
| Files.CyclePathInjective | src/Files.py:248 | `_Cycle_<c>` names differ for different c |
| Files.WriteSingles | src/Files.py:176-178 | singles mode writes one `_Item_<j>` file per composite, in completion order, holding composite j divided by the correction |
| Files.SinglesCoverEveryItem | src/Files.py:164-178 | every accepted rank j gets exactly one `_Item_<j>` file, holding composite j divided by the correction, whatever the completion order |
| Files.SaveTotal | src/Files.py:130-187 | both trees empty: nothing is written; otherwise a correction failure is an error, then a loaded side with an emptied mask makes `np.hstack` raise, then a composite failure is an error; past those, the save succeeds exactly when the composites share a shape and the correction divides their sum (singles off) or each of them (singles on); with singles off, one file at `<folder>/<name>.tiff`; with singles on, one file per accepted position |
| Files.SaveTotalWritesSum | src/Files.py:164-187 | the single written file is the sum of all composites divided by the correction |
| Files.SaveTotalOrderIndependent | src/Files.py:163-187 | the result of `save_total` does not depend on the completion order |
| Files.SaveTotalOfIdenticalSides | src/Files.py:147-187 | identical additive and subtractive sets give an all-zero total |
| Files.SaveTotalAsWritten | src/Files.py:130-187 | as written: when both trees are loaded or both are empty it agrees with the corrected model; with exactly one loaded it fails, with an unbound name when the correction loads and no mask is emptied |
| Files.SaveTotalOneSidedCounterexample | src/Files.py:164 | one additive image with only the additive tree loaded: the corrected model writes that image, while the code as written reads the unbound `sub_names` |
| Files.SaveCycles | src/Files.py:189-250 | both trees empty: nothing is written; a loaded side with an emptied mask raises `IndexError` once the correction loads; otherwise the save succeeds exactly when every cycle has composites of one shape whose sum the correction divides, writing one file per cycle at `<folder>/<name>_Cycle_<c>.tiff`, in cycle order |
| Files.SaveCyclesWritesSums | src/Files.py:200-248 | cycle c's file is the sum of that cycle's composites, with that cycle's own baselines and average, divided by the correction |
| Files.SaveCyclesOrderIndependent | src/Files.py:226-248 | the cycle files do not depend on any cycle's completion order |
| Files.SaveCyclesPathsDistinct | src/Files.py:248 | different cycles are written to different paths |
| Files.SaveCyclesOfOneCycle | src/Files.py:189-250 | with one cycle, `save_cycles` succeeds exactly when `save_total` does, and writes the same image under the `_Cycle_0` name |
| Files.SaveCyclesAsWritten | src/Files.py:189-250 | as written: with either tree loaded it always fails, on an emptied mask, on an unbound name, or because the accumulated `(index, image)` tuple is not an image |
| Files.SaveCyclesOfTwoSidedExample | src/Files.py:189-250 | images 2.0 and 1.0 with zero norms: the corrected model writes the difference image 1.0 to `_Cycle_0` |
| Files.SaveCyclesTupleCounterexample | src/Files.py:233-237 | on that example the corrected model succeeds, while the code as written accumulates a tuple and fails |
| Model.ValidShapes | src/Trees.py:102-117 | in a valid state two loaded sides have identically shaped names, masks and values, and an empty side has empty masks and values |
| Model.Initial | src/Trees.py:41-51 | the start-up state with empty trees is valid |

## Left out

- The Qt widgets are not modelled: trees, plots, progress bars, message boxes,
  file dialogs, tree population and colouring (`populate_tree`,
  `update_trees`), `update_rotation`, and image redraws. A chosen file list is
  a parameter, and an error message is a returned value.
- `imread`, `imsave` and the `float32` cast are not modelled. Images live in a
  `Store`, and written files are returned as `Output` values.
- `np.rot90` and the square root are parameters. Nothing is proved about
  rotation beyond what the callers pass through.
- The `ThreadPool` and `imap_unordered` concurrency is modelled as a completion
  order that is an arbitrary permutation. Results are scattered or summed
  sequentially.
- Floating point is not modelled. Values are exact reals, so rounding, `inf`
  and `NaN` are absent. Division by a zero baseline or a zero correction pixel
  is an error (`DivisionByZero`), where numpy would produce `inf` or `NaN`.
- numpy broadcasting is modelled only for 1-D arrays with a length-1 side, plus
  the `[[0]]` placeholder of an absent side. Any other shape difference is a
  `ShapeMismatch` error.
- Widget text parsing (`int(CyclesBox.text())`, `float(box.text())`) is not
  modelled. Cycle counts (≥ 1), drop counts (≥ 0) and multipliers are typed
  parameters.
- Files.SaveTotal: in singles mode the code writes files one by one while the
  pool runs. The model returns either all files or an error, so the files
  written before an error are not modelled.
- Files.SaveCycles: when several cycles fail, the model reports the error of
  the first cycle in cycle order. The code stops at whichever failure it meets
  first. A cycle with no accepted image is `NothingAccepted` in the corrected
  model; the code as written fails earlier on the tuple accumulation.
- Trees.RemoveSet and Trees.SwapSet: the refresh of the displayed selection
  (`selected_cycle`, `selected_item`) after a removal or swap is not modelled,
  because it only redraws.
- Trees.AddSetLogic: a failed image load or the merge's `IndexError` is an
  error, and no state is returned. In the code the exception escapes after
  the names are already split, or with the parameters loaded but the tree
  never populated.
- Trees.AddSet: on the merge's `IndexError` no state is returned. The code
  keeps the loaded, bounded parameters and leaves the tree unpopulated.
- Bounds.MergeBounds: on `IndexError` no state is returned. The code raises
  before either mask is assigned, so its state is the input state.
- Bounds.ChangeBounds: on `IndexError` no state is returned. The code keeps
  the sides it already recomputed.
- Bounds.ResetBounds: on `IndexError` no state is returned. The code keeps
  the reset multipliers and the recomputed sides.
- Trees.UpdateCycles: on `IndexError` no state is returned. The code keeps
  the re-chunked sides and the new cycle count.
- Trees.UpdateCycles, Trees.RemoveSet, Trees.AddSetLogic and the other
  tree operations take a `Valid` state. The state in which a merge over no
  additive cycles emptied a loaded subtractive mask
  (`Bounds.ChangeBoundsWipesSubtractive`) is accepted by `change_bounds` and
  the save operations only; for example, `update_cycles` on it would raise in
  `np.hstack` of the empty mask.
- `selected_cycle` and `reselect_selected` are not modelled, because they only
  redraw plots and re-highlight tree rows.
- Selection.SelectedImage: a Correction selection without a loaded correction
  is the error `NoCorrection` here. The code would try to load the path `None`.

## Findings

| source | as written | input that shows it | evidently intended | confidence | as-written member | corrected member |
|---|---|---|---|---|---|---|
| src/Trees.py:238 | `remove_set` clears the key `'Accepeted'`, so the side's `Accepted` mask survives its names and values | any loaded side, removed | the mask is emptied with the names and values | high; not executed | Trees.RemoveSetAsWritten, Trees.RemoveSetLeavesStaleMask | Trees.RemoveSet |
| src/Files.py:216 | `save_cycles` adds the subtractive normalization to the baseline | one image per side with normalization 1.0: baseline 3.0 | `1 + add - sub` as in `save_total` line 156, giving 1.0 | high; not executed | Files.CycleBaselinesAsWritten, Files.CycleBaselinesCounterexample | Files.Baselines |
| src/Files.py:233-237 | `save_cycles` accumulates the `(index, image)` tuple from `imap_unordered`, not the image | one additive image 2.0, one subtractive image 1.0, one cycle: the first result is a tuple, and dividing it by the correction fails | accumulate `results[1]` as `save_total` does | high; not executed | Files.SaveCyclesAsWritten, Files.SaveCyclesTupleCounterexample | Files.SaveCycles |
| src/Selection.py:71 | `Total_Index` is `childCount(cycle 0) · cycle + row` | seven images in three cycles (3, 2, 2): the first item of cycle 2 gets 6, its flattened position is 5 | the flattened position of the item | high; not executed | Selection.SelectedItemLogic, Selection.TotalIndexCounterexample | Selection.FlatPosition |
| src/Files.py:164 | with only one tree loaded, `save_total` passes the other side's `add_names` or `sub_names`, which were never assigned | only the additive tree loaded with one image 2.0 | the loaded side alone is compiled, as `compile_image` allows | high; not executed | Files.SaveTotalAsWritten, Files.SaveTotalOneSidedCounterexample | Files.SaveTotal |
