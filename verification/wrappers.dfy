/** The optional-value datatype shared by the other modules. */
module Wrappers {

  /** A value that may be absent: C#'s `null`, a failed `TryParse`, a `FirstOrDefault` that found nothing. */
  datatype Option<+T> = None | Some(value: T)
}
