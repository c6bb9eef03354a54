/** The optional value the chatbot's functions return where the program returns `None`. */
module Wrappers {
  datatype Option<+T> = None | Some(value: T)
}
