/** The optional value used for results that may be missing, such as a
    regular-expression match that found nothing. */
module Wrappers {

  datatype Option<+T> = None | Some(value: T)
}
