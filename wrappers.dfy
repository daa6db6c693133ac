/** The optional value that the decoders return where the original code throws,
    fails a lexical cast or skips a callback. */
module Wrappers {

  datatype Option<+T> = None | Some(value: T)
}
