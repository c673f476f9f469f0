/** The optional-value datatype used for the outcomes of remote calls and
    for partial decoders. */
module Wrappers {

  datatype Option<+T> = None | Some(value: T)
}
