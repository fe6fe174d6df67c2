/** Failure-compatible wrappers used throughout the model, and the error
    taxonomy of the decode pipeline. */
module Wrappers {

  /** A value that may be absent (a JavaScript `null`/`undefined`). */
  datatype Option<+T> = None | Some(value: T)

  /** Either a computed value or the error that aborted the computation. */
  datatype Result<+R, +E> = Success(value: R) | Failure(error: E) {
    predicate IsFailure() {
      Failure?
    }

    function PropagateFailure<U>(): Result<U, E>
      requires Failure?
    {
      Failure(error)
    }

    function Extract(): R
      requires Success?
    {
      value
    }
  }
}

/** The ways one run of the detection pipeline can be aborted. */
module Failures {

  datatype Error =
      /** The image-processing library rejected the (aligned) image size. */
    | PreprocessingFailure
      /** A colour string did not match the six-hex-digit pattern, so the
          match result was `null` and indexing it threw. */
    | InvalidColorFormat
      /** A property that is not a function was called; `member` names it. */
    | NotAFunction(member: string)
}
