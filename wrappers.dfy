/** The optional value the bot's functions return: Python's `None` or a value. */
module Wrappers {

  datatype Option<+T> = None | Some(value: T)
}
