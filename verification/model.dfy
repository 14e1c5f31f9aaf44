/** The state the tool keeps about loaded images: one image set per side
    (additive, subtractive), the bound configuration of each side, the
    multiplicative correction, the shared cycle/drop settings, the add-set
    buttons' checked flags and the current selection. */
module Model {
  import opened Base
  import opened Seqs

  /** `Names`, `Accepted` and `Normalization` of one side, each grouped by cycle. */
  datatype ImageSet = ImageSet(names: seq<seq<string>>, accepted: seq<seq<bool>>, normalization: seq<seq<real>>)

  const NoImages := ImageSet([], [], [])

  /** The three groupings have the same cycle/index shape. */
  predicate WellFormed(s: ImageSet) {
    SameShape(s.names, s.accepted) && SameShape(s.names, s.normalization)
  }

  /** The side's tree has top-level items, i.e. the side holds at least one cycle. */
  predicate Populated(s: ImageSet) {
    |s.names| != 0
  }

  /** The standard-deviation multipliers typed into a side's min/max boxes. */
  datatype Window = Window(stdMin: real, stdMax: real)

  const DefaultWindow := Window(4.0, 4.0)

  /** Everything `swap_set` exchanges between the two sides: the parameter
      dictionary, the std min/max texts and the rotation slider (quarter turns). */
  datatype Side = Side(images: ImageSet, window: Window, rotation: int)

  datatype SetId = AdditiveSet | SubtractiveSet

  function Other(id: SetId): SetId {
    if id == AdditiveSet then SubtractiveSet else AdditiveSet
  }

  /** The four trees a selection can come from, named by their header text. */
  datatype Kind = Additive | Subtractive | Total | Correction

  /** `selection_parameters` without the displayed image. */
  datatype Selection = Selection(cycle: Option<nat>, item: Option<nat>, total: Option<nat>, kind: Option<Kind>)

  const NoSelection := Selection(None, None, None, None)

  datatype State = State(
    additive: Side,
    subtractive: Side,
    additiveArmed: bool,          // AddAddSetButton is checked
    subtractiveArmed: bool,       // SubAddSetButton is checked
    correction: Option<string>,   // the multiplicative correction image, when its tree is populated
    correctionRotation: int,
    cycles: nat,                  // CyclesBox
    dropFirst: nat,               // DropFirstBox
    dropLast: nat,                // DropLastBox
    selection: Selection)

  function SideOf(st: State, id: SetId): Side {
    if id == AdditiveSet then st.additive else st.subtractive
  }

  function WithSide(st: State, id: SetId, side: Side): State {
    if id == AdditiveSet then st.(additive := side) else st.(subtractive := side)
  }

  function ArmedOf(st: State, id: SetId): bool {
    if id == AdditiveSet then st.additiveArmed else st.subtractiveArmed
  }

  function WithArmed(st: State, id: SetId, armed: bool): State {
    if id == AdditiveSet then st.(additiveArmed := armed) else st.(subtractiveArmed := armed)
  }

  /** The cycle shape `np.array_split` gives: `k` cycles whose lengths are
      those of splitting the flattened items into `k` chunks. */
  predicate SplitShaped<T>(g: seq<seq<T>>, k: nat)
    requires k >= 1
  {
    |g| == k && forall c :: 0 <= c < k ==> |g[c]| == ChunkSize(|Flatten(g)|, k, c)
  }

  /** The invariant the image-set operations keep: a positive cycle count, each
      side well formed, a loaded side split into the current number of cycles,
      and two loaded sides holding the same number of images. */
  predicate Valid(st: State) {
    && st.cycles >= 1
    && WellFormed(st.additive.images)
    && WellFormed(st.subtractive.images)
    && (Populated(st.additive.images) ==> SplitShaped(st.additive.images.names, st.cycles))
    && (Populated(st.subtractive.images) ==> SplitShaped(st.subtractive.images.names, st.cycles))
    && (Populated(st.additive.images) && Populated(st.subtractive.images) ==>
          |Flatten(st.additive.images.names)| == |Flatten(st.subtractive.images.names)|)
  }

  /** In a valid state two loaded sides are grouped identically, masks included;
      an unloaded side holds nothing. */
  lemma ValidShapes(st: State)
    requires Valid(st)
    ensures Populated(st.additive.images) && Populated(st.subtractive.images) ==>
              SameShape(st.additive.images.names, st.subtractive.images.names) &&
              SameShape(st.additive.images.accepted, st.subtractive.images.accepted)
    ensures !Populated(st.additive.images) ==> st.additive.images.accepted == [] && st.additive.images.normalization == []
    ensures !Populated(st.subtractive.images) ==> st.subtractive.images.accepted == [] && st.subtractive.images.normalization == []
  {
  }

  /** The state at start-up. */
  function Initial(cycles: nat, dropFirst: nat, dropLast: nat): (st: State)
    requires cycles >= 1
    ensures Valid(st)
  {
    State(Side(NoImages, DefaultWindow, 0), Side(NoImages, DefaultWindow, 0),
          false, false, None, 0, cycles, dropFirst, dropLast, NoSelection)
  }
}
