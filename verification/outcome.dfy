/** Failure-carrying results for the operations of an indexed sequence that can
    signal an error instead of producing a value. */
module Outcome {

  /** The two error kinds the default algorithms can signal. In the library both
      surface as a no-such-element exception; they are kept apart here because
      they arise from different operations. */
  datatype Failure =
    | EmptySequence      // `last` of a sequence with no elements
    | IteratorExhausted  // `next` on an iterator that has no element left

  /** Either a value or the failure that prevented computing it. */
  datatype Result<+R> = Ok(value: R) | Err(error: Failure)
}
