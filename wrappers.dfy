/** The optional value used where the scraper swallows an exception or finds nothing. */
module Wrappers {
  datatype Option<+T> = None | Some(value: T)
}
