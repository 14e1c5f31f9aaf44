/** What a click in one of the four image trees selects: the cycle, the item
    within the cycle, the item's running index and the kind of tree, and the
    image shown for that selection. */
module Selection {
  import opened Base
  import opened Seqs
  import opened Images
  import opened Model

  // ---------------------------------------------------------------------------
  // Tree headers
  // ---------------------------------------------------------------------------

  /** The header text of each tree; a selection's type is stored as this text. */
  function Header(k: Kind): string {
    match k
    case Additive => "Additive Images"
    case Subtractive => "Subtractive Images"
    case Total => "Total Images"
    case Correction => "Multiplicative Correction"
  }

  /** The tree a header text names, if any. */
  function KindOfHeader(h: string): (r: Option<Kind>)
    ensures r.Some? ==> Header(r.value) == h
  {
    if h == "Additive Images" then Some(Additive)
    else if h == "Subtractive Images" then Some(Subtractive)
    else if h == "Total Images" then Some(Total)
    else if h == "Multiplicative Correction" then Some(Correction)
    else None
  }

  /** The four headers are distinct and each one is read back as its tree. */
  lemma HeaderRoundTrip(k: Kind, h: string)
    ensures KindOfHeader(Header(k)) == Some(k)
    ensures KindOfHeader(h) == Some(k) <==> h == Header(k)
  {
  }

  // ---------------------------------------------------------------------------
  // selected_item_logic and clear_selection
  // ---------------------------------------------------------------------------

  /** The clicked row: a cycle (a top-level row) or an item inside a cycle. */
  datatype Click = TopLevel(row: nat) | Child(parent: nat, row: nat)

  /** Which display routine the click leads to. */
  datatype View = CycleView | ItemView

  datatype Clicked = Clicked(selection: Selection, view: View)

  /** `Total_Index` as the source computes it: the item's row plus the parent
      row times the number of children of the tree's first cycle. */
  function TotalIndex(firstCycleSize: nat, cycle: nat, item: nat): nat {
    firstCycleSize * cycle + item
  }

  /** `selected_item_logic` on tree `tree` whose first cycle has
      `firstCycleSize` children, followed by `clear_selection`. */
  function SelectedItemLogic(tree: Kind, click: Click, firstCycleSize: nat): (r: Clicked)
    ensures r.selection.kind == Some(tree)
    ensures click.TopLevel? ==>
              r.selection.cycle == Some(click.row) && r.selection.item.None? && r.selection.total.None?
    ensures click.Child? ==>
              && r.selection.cycle == Some(click.parent)
              && r.selection.item == Some(click.row)
              && r.selection.total == Some(TotalIndex(firstCycleSize, click.parent, click.row))
    ensures r.view == CycleView <==> click.TopLevel? && tree != Correction
  {
    var kind := KindOfHeader(Header(tree));
    HeaderRoundTrip(tree, Header(tree));
    var sel := match click
               case TopLevel(row) => Selection(Some(row), None, None, kind)
               case Child(parent, row) => Selection(Some(parent), Some(row), Some(TotalIndex(firstCycleSize, parent, row)), kind);
    var view := if click.TopLevel? && kind != Some(Correction) then CycleView else ItemView;
    Clicked(ClearSelection(sel, Header(tree)), view)
  }

  /** `clear_selection`: the type becomes the clicked tree's header when it is
      one of the four known headers; the indices are not touched. */
  function ClearSelection(sel: Selection, header: string): (r: Selection)
    ensures r.cycle == sel.cycle && r.item == sel.item && r.total == sel.total
    ensures KindOfHeader(header).Some? ==> r.kind.Some? && Header(r.kind.value) == header
    ensures KindOfHeader(header).None? ==> r.kind == sel.kind
  {
    match KindOfHeader(header)
    case Some(k) => sel.(kind := Some(k))
    case None => sel
  }

  /** Clearing with the header of the tree already selected changes nothing. */
  lemma ClearSelectionIdempotent(sel: Selection, header: string)
    ensures ClearSelection(ClearSelection(sel, header), header) == ClearSelection(sel, header)
  {
  }

  // ---------------------------------------------------------------------------
  // The true flattened position of an item, and how Total_Index differs
  // ---------------------------------------------------------------------------

  /** The position of item `item` of cycle `cycle` in the flattened grouping. */
  function FlatPosition<T>(groups: seq<seq<T>>, cycle: nat, item: nat): (p: nat)
    requires cycle < |groups| && item < |groups[cycle]|
    ensures p < |Flatten(groups)|
    ensures Flatten(groups)[p] == groups[cycle][item]
  {
    FlattenAppend(groups[..cycle + 1], groups[cycle + 1..]);
    assert groups == groups[..cycle + 1] + groups[cycle + 1..];
    assert groups[..cycle + 1][..cycle] == groups[..cycle];
    assert Flatten(groups[..cycle + 1]) == Flatten(groups[..cycle]) + groups[cycle];
    |Flatten(groups[..cycle])| + item
  }

  /** When every cycle has the first cycle's length, `Total_Index` is the
      item's flattened position. */
  lemma {:induction false} TotalIndexUniform<T>(groups: seq<seq<T>>, cycle: nat, item: nat)
    requires cycle < |groups| && item < |groups[cycle]|
    requires forall c :: 0 <= c < |groups| ==> |groups[c]| == |groups[0]|
    ensures TotalIndex(|groups[0]|, cycle, item) == FlatPosition(groups, cycle, item)
    decreases cycle
  {
    if cycle > 0 {
      TotalIndexUniform(groups, cycle - 1, 0);
      var front := groups[..cycle];
      assert front[..cycle - 1] == groups[..cycle - 1];
      assert |Flatten(front)| == |Flatten(groups[..cycle - 1])| + |groups[cycle - 1]|;
    }
  }

  /** For the cycles `array_split` produces from `n` items in `k` cycles,
      item `i` of cycle `c` sits at `ChunkStart(n, k, c) + i`; `Total_Index`
      overshoots that by `c - (n mod k)` for the cycles past the first
      `n mod k` longer ones, and is exact otherwise. */
  lemma TotalIndexOvershoot(n: nat, k: nat, c: nat, i: nat)
    requires k >= 1 && c < k
    ensures n % k == 0 || c <= n % k ==>
              TotalIndex(ChunkSize(n, k, 0), c, i) == ChunkStart(n, k, c) + i
    ensures n % k != 0 && c > n % k ==>
              TotalIndex(ChunkSize(n, k, 0), c, i) == ChunkStart(n, k, c) + i + (c - n % k)
  {
    var q := n / k;
    if n % k == 0 {
      assert ChunkSize(n, k, 0) == q;
      assert Min(c, 0) == 0;
    } else {
      assert ChunkSize(n, k, 0) == q + 1;
      assert (q + 1) * c == q * c + c;
    }
  }

  /** The flattened position of an item of an `array_split` grouping. */
  lemma SplitFlatPosition<T>(s: seq<T>, k: nat, c: nat, i: nat)
    requires k >= 1 && c < k && i < ChunkSize(|s|, k, c)
    ensures FlatPosition(ArraySplit(s, k), c, i) == ChunkStart(|s|, k, c) + i
  {
    var r := ArraySplit(s, k);
    SplitPrefix(s, k, r, c);
  }

  /** Seven images in three cycles split as 3, 2, 2: the first item of the last
      cycle is image 5, but `Total_Index` says 6. */
  lemma TotalIndexCounterexample()
    ensures ChunkSize(7, 3, 0) == 3 && ChunkStart(7, 3, 2) == 5
    ensures TotalIndex(ChunkSize(7, 3, 0), 2, 0) == 6
  {
  }

  // ---------------------------------------------------------------------------
  // swap_selected
  // ---------------------------------------------------------------------------

  /** `swap_selected`: an additive selection becomes subtractive and vice versa;
      the indices and any other type are left as they are. */
  function SwapSelected(sel: Selection): (r: Selection)
    ensures r.cycle == sel.cycle && r.item == sel.item && r.total == sel.total
    ensures sel.kind == Some(Additive) <==> r.kind == Some(Subtractive)
    ensures sel.kind == Some(Subtractive) <==> r.kind == Some(Additive)
    ensures sel.kind != Some(Additive) && sel.kind != Some(Subtractive) ==> r.kind == sel.kind
  {
    match sel.kind
    case Some(Additive) => sel.(kind := Some(Subtractive))
    case Some(Subtractive) => sel.(kind := Some(Additive))
    case _ => sel
  }

  lemma SwapSelectedInvolution(sel: Selection)
    ensures SwapSelected(SwapSelected(sel)) == sel
  {
  }

  // ---------------------------------------------------------------------------
  // selected_item: the image shown for a selection
  // ---------------------------------------------------------------------------

  /** The name at `(cycle, item)` of a side's names. */
  function NameAt(names: seq<seq<string>>, cycle: Option<nat>, item: Option<nat>): (r: Result<string>)
    ensures r.Success? <==>
              cycle.Some? && item.Some? && cycle.value < |names| && item.value < |names[cycle.value]|
    ensures r.Success? ==> r.value == names[cycle.value][item.value]
    ensures r.Failure? && (cycle.None? || item.None?) ==> r.error == NoItemSelected
    ensures r.Failure? && cycle.Some? && item.Some? ==> r.error == IndexOutOfRange
  {
    if cycle.None? || item.None? then Failure(NoItemSelected)
    else if cycle.value < |names| && item.value < |names[cycle.value]| then Success(names[cycle.value][item.value])
    else Failure(IndexOutOfRange)
  }

  /** The selected image of a side, rotated by minus the side's slider value. */
  function SideImage(side: Side, sel: Selection, store: Store, rot: (Image, int) -> Image): (r: Result<Image>)
    ensures r.Success? <==> NameAt(side.images.names, sel.cycle, sel.item).Success? &&
                            NameAt(side.images.names, sel.cycle, sel.item).value in store
    ensures r.Success? ==> r.value == rot(store[NameAt(side.images.names, sel.cycle, sel.item).value], -side.rotation)
  {
    var name :- NameAt(side.images.names, sel.cycle, sel.item);
    LoadRotated(store, name, rot, side.rotation)
  }

  /** The correction image rotated by minus its slider value. */
  function CorrectionImage(st: State, store: Store, rot: (Image, int) -> Image): (r: Result<Image>)
    requires st.correction.Some?
    ensures r.Success? <==> st.correction.value in store
    ensures r.Success? ==> r.value == rot(store[st.correction.value], -st.correctionRotation)
  {
    LoadRotated(store, st.correction.value, rot, st.correctionRotation)
  }

  /** `add - sub` for the total tree: each loaded side contributes its selected
      image, an unloaded side contributes zero. */
  function TotalDifference(st: State, store: Store, rot: (Image, int) -> Image): (r: Result<Image>)
    ensures r.Success? && Populated(st.additive.images) ==>
              SideImage(st.additive, st.selection, store, rot).Success? &&
              ShapeOf(r.value) == ShapeOf(SideImage(st.additive, st.selection, store, rot).value)
    ensures r.Success? && Populated(st.subtractive.images) ==>
              SideImage(st.subtractive, st.selection, store, rot).Success? &&
              ShapeOf(r.value) == ShapeOf(SideImage(st.subtractive, st.selection, store, rot).value)
    ensures r.Success? && Populated(st.additive.images) && Populated(st.subtractive.images) ==>
              var a, s := SideImage(st.additive, st.selection, store, rot).value,
                          SideImage(st.subtractive, st.selection, store, rot).value;
              forall i, j :: InImage(a, i, j) ==> r.value[i][j] == a[i][j] - s[i][j]
    ensures !Populated(st.additive.images) && !Populated(st.subtractive.images) ==> r == Success([[0.0]])
    ensures r.Success? && Populated(st.additive.images) && !Populated(st.subtractive.images) ==>
              r.value == SideImage(st.additive, st.selection, store, rot).value
    ensures r.Success? && !Populated(st.additive.images) && Populated(st.subtractive.images) ==>
              var s := SideImage(st.subtractive, st.selection, store, rot).value;
              forall i, j :: InImage(s, i, j) ==> r.value[i][j] == -s[i][j]
    ensures r.Success? <==>
              && (Populated(st.additive.images) ==> SideImage(st.additive, st.selection, store, rot).Success?)
              && (Populated(st.subtractive.images) ==> SideImage(st.subtractive, st.selection, store, rot).Success?)
              && (Populated(st.additive.images) && Populated(st.subtractive.images) ==>
                    ShapeOf(SideImage(st.additive, st.selection, store, rot).value) ==
                    ShapeOf(SideImage(st.subtractive, st.selection, store, rot).value))
  {
    var add :- if Populated(st.additive.images)
               then var a :- SideImage(st.additive, st.selection, store, rot); Success(Some(a))
               else Success(None);
    var sub :- if Populated(st.subtractive.images)
               then var s :- SideImage(st.subtractive, st.selection, store, rot); Success(Some(s))
               else Success(None);
    Difference(add, sub)
  }

  /** `selected_item`: the image for the current selection. For the total tree
      it is `add - sub`, divided by the correction image when one is loaded. */
  function SelectedImage(st: State, store: Store, rot: (Image, int) -> Image): (r: Result<Image>)
    requires st.selection.kind.Some?
    ensures st.selection.kind == Some(Total) && st.correction.None? ==> r == TotalDifference(st, store, rot)
    ensures st.selection.kind == Some(Total) && st.correction.Some? && r.Success? ==>
              && TotalDifference(st, store, rot).Success?
              && CorrectionImage(st, store, rot).Success?
              && ShapeOf(r.value) == ShapeOf(CorrectionImage(st, store, rot).value)
              && ShapeOf(r.value) == ShapeOf(TotalDifference(st, store, rot).value)
              && forall i, j :: InImage(r.value, i, j) ==>
                   r.value[i][j] * CorrectionImage(st, store, rot).value[i][j] == TotalDifference(st, store, rot).value[i][j]
    ensures st.selection.kind == Some(Total) && st.correction.Some? ==>
              (r.Success? <==>
                 && TotalDifference(st, store, rot).Success?
                 && st.correction.value in store
                 && ShapeOf(TotalDifference(st, store, rot).value) == ShapeOf(CorrectionImage(st, store, rot).value)
                 && NoZeroPixel(CorrectionImage(st, store, rot).value))
    ensures st.selection.kind == Some(Additive) ==> r == SideImage(st.additive, st.selection, store, rot)
    ensures st.selection.kind == Some(Subtractive) ==> r == SideImage(st.subtractive, st.selection, store, rot)
    ensures st.selection.kind == Some(Correction) ==>
              (r.Success? <==> st.correction.Some? && st.correction.value in store)
    ensures st.selection.kind == Some(Correction) && r.Success? ==> r == CorrectionImage(st, store, rot)
    ensures st.selection.kind == Some(Correction) && st.correction.None? ==> r == Failure(NoCorrection)
  {
    match st.selection.kind.value
    case Additive => SideImage(st.additive, st.selection, store, rot)
    case Subtractive => SideImage(st.subtractive, st.selection, store, rot)
    case Correction =>
      if st.correction.Some? then CorrectionImage(st, store, rot) else Failure(NoCorrection)
    case Total =>
      var diff :- TotalDifference(st, store, rot);
      if st.correction.Some? then
        var corr :- CorrectionImage(st, store, rot);
        DivideImages(diff, corr)
      else Success(diff)
  }
}
