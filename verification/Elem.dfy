/** One element of a ring's buffer. */
module Elem {
  import opened Words
  import opened Options

  /** Its lap, and its message while it is initialised and not yet moved out. */
  datatype Slot<T> = Slot(lap: U32, msg: Option<T>)

  /** How a selection or a wait ends. */
  datatype State = Success | Failed | Closed
}
