/** The optional values the bot passes around (`None` in Python). */
module Wrappers {
  datatype Option<+T> = None | Some(value: T)
}
