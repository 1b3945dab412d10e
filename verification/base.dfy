/** Small value wrappers shared by the rest of the model. */
module Base {

  /** A value that may be absent: Go's nil interface or nil pointer. */
  datatype Option<+T> = None | Some(value: T)

  /** How a Go call ends: with a returned value, or with a run-time panic. */
  datatype Outcome<+T> = Returned(value: T) | Panicked
}
