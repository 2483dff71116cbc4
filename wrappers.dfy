/** The optional-value datatype the rest of the model uses for "no match". */
module Wrappers {

  datatype Option<+T> = None | Some(value: T)
}
