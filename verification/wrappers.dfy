/** The optional-value datatype used for recognizer results throughout the model. */
module Wrappers {

  datatype Option<+T> = None | Some(value: T)

}
