/** An optional value: what `std::string::find` and a file that may fail to open give back. */
module Wrappers {

  datatype Option<+T> = None | Some(value: T)
}
