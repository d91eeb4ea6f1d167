/** The optional value returned by the month classifier and the row-count computation. */
module Wrappers {

  /** `None` stands for JavaScript's `undefined` (no stage) or a failed computation. */
  datatype Option<+T> = None | Some(value: T)
}
