/** The optional-value type shared by the decoders and by the row model. */
module Wrappers {

  datatype Option<+T> = None | Some(value: T)
}
