/** The optional values of the model: a registry field that may be missing, an unset cache. */
module Wrappers {
  datatype Option<+T> = None | Some(value: T)
}
