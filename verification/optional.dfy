/** A value that may be absent: the shape of `std::find` / `String.indexOf` results. */
module Optional {

  datatype Option<+T> = None | Some(value: T)

}
