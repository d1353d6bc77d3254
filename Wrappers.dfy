/** Failure-carrying results used by every stage of the pipeline. */
module Wrappers {

  datatype Option<+T> = None | Some(value: T)

  datatype Result<+T, +E> = Success(value: T) | Failure(error: E)

  /** The ways the anonymisation pipeline stops early. Each stands for an exception
      that the original program lets propagate. */
  datatype DeidError =
    | NoSlices                  // stacking an empty list of slices
    | ShapeMismatch             // stacking slices whose pixel arrays differ in shape
    | NoAirRegion(slice: nat)   // argmax over the areas of zero non-background labels
    | NoCandidates              // drawing samples from an empty candidate list
}
