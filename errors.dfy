/** The failures the patcher reports, and the two result shapes its checks
    return. Every failure below is raised in the source as a
    `ProgramException` whose message names the problem; the model keeps the
    kind of failure and drops the message text. */
module Errors {

  datatype Error =
    | InvalidHexString(byteStr: string)  // a patch payload that is not a hex string
    | RomNotExpanded                     // the ROM is smaller than 2 MiB
    | RomHeaderMismatch                  // the ROM is not the Japanese v1.0 release
    | SampleTooLarge                     // the BRR sample does not fit its slot

  /** A value or the failure that stopped its computation; usable with `:-`. */
  datatype Result<+T> = Success(value: T) | Failure(error: Error) {

    predicate IsFailure() {
      Failure?
    }

    function PropagateFailure<U>(): Result<U>
      requires Failure?
    {
      Failure(error)
    }

    function Extract(): T
      requires Success?
    {
      value
    }
  }

  /** The result of a check that either passes or fails with an error. */
  datatype Outcome = Pass | Fail(error: Error)
}
