/** Failure-compatible wrappers and the error conditions the image pipeline can raise. */
module Base {

  /** An optional value: the source's `None` versus a present value. */
  datatype Option<+T> = None | Some(value: T)

  /** The conditions under which an operation of the pipeline stops without a result. */
  datatype Error =
    | LoadFailure(path: string)   // the image codec could not read `path`
    | InputMismatch               // additive and subtractive image counts differ
    | NothingToJoin               // `np.hstack` of a loaded side's mask that holds no cycle
    | ShapeMismatch               // two images of different shapes were combined
    | DivisionByZero              // a baseline or a correction pixel is zero
    | NothingAccepted             // an aggregate was requested over no accepted image
    | IndexOutOfRange             // a selection points outside the loaded names
    | NoItemSelected              // a single image was requested for a whole-cycle selection
    | NotAnImage                  // an arithmetic result is not an image (a Python tuple)
    | UnboundName                 // a local variable is read on a path that never assigned it
    | NoCorrection                // the correction image is read while its name is `None`

  /** Either a value or the error that prevented it; usable with `:-`. */
  datatype Result<+T> = Success(value: T) | Failure(error: Error) {

    predicate IsFailure() {
      Failure?
    }

    function PropagateFailure<U>(): Result<U>
      requires Failure?
    {
      Failure(error)
    }

    function Extract(): T
      requires Success?
    {
      value
    }
  }

  /** All the values, or the first error in list order. */
  function Collect<T>(rs: seq<Result<T>>): (r: Result<seq<T>>)
    ensures r.Success? <==> forall k :: 0 <= k < |rs| ==> rs[k].Success?
    ensures r.Success? ==> |r.value| == |rs| && forall k :: 0 <= k < |rs| ==> rs[k] == Success(r.value[k])
    ensures r.Failure? ==> exists k :: 0 <= k < |rs| && rs[k] == Failure(r.error)
    decreases |rs|
  {
    if |rs| == 0 then Success([])
    else if rs[0].Failure? then Failure(rs[0].error)
    else
      var rest :- Collect(rs[1..]);
      Success([rs[0].value] + rest)
  }

  /** Collecting a single result gives that result's value or error. */
  lemma CollectOne<T>(x: Result<T>)
    ensures Collect([x]) == if x.Success? then Success([x.value]) else Failure(x.error)
  {
    assert [x][1..] == [];
    assert Collect<T>([]) == Success([]);
    if x.Success? {
      assert [x.value] + [] == [x.value];
      assert Collect([x]) == Success([x.value] + []);
    }
  }
}
