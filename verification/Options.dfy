/** The result of a search that may find nothing, such as `std::string::find`. */
module Options {
  datatype Option<+T> = None | Some(value: T)
}
