/** The optional value used across the model. */
module Wrappers {

  /** A value that may be absent: a file whose read failed, a setting never assigned,
      a search that found nothing. */
  datatype Option<+T> = None | Some(value: T)
}
