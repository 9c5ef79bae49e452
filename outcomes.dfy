/** Result shapes shared by the whole model. */
module Outcomes {

  /** A value that may be absent. */
  datatype Option<+T> = None | Some(value: T)

  /** How the evaluation of a JavaScript expression ends: with a value, or by
      throwing (a TypeError from reading a property of undefined, a failed
      `new URL`, ...). The exception itself is not kept: every catch in the
      aggregation discards it. */
  datatype Completion<+T> = Normal(value: T) | Throw
}
