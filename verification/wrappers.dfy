/** Failure-compatible optional value, used where `generate/add_backgrounds.py` has "no match" or an exception. */
module Wrappers {

  datatype Option<+T> = None | Some(value: T)

}
