/** The optional value used for the request parameter, which the servlet API
    reports as `null` when it is absent, and for the outcome of type lookup. */
module Wrappers {

  datatype Option<+T> = None | Some(value: T)
}
