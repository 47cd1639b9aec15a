/** Option and the three ways one unit of untrusted input can end in a receive loop. */
module Wrappers {

  datatype Option<+T> = None | Some(value: T)

  /**
   * What a receive loop does with one unit of input: hand on a value, drop the
   * unit and keep listening (`continue`, a failed `if let`), or panic (an
   * out-of-range slice or `split_at`), which ends the thread that runs the loop.
   */
  datatype Handled<+T> = Accept(value: T) | Skip | Crash
}
