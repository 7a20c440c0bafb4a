/** The optional value used for `std::optional` in the tokenizer and the parser. */
module Wrappers {

  datatype Option<+T> = None | Some(value: T)
}
