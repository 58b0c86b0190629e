/** Small result types shared by the model. */
module Wrappers {

  /** A value that may be absent (a null pointer, a missing delimiter). */
  datatype Option<+T> = None | Some(value: T)

  /** What a C computation does: produce a value, or reach undefined
      behaviour (a null-pointer offset, a string routine handed a buffer
      that is not a C string),
      after which the C standard says nothing about the program. */
  datatype Behaviour<+T> = Defined(value: T) | Undefined
}
