/** The absent-or-present value that stands in for a C# null reference. */
module Optional {
  datatype Option<+T> = None | Some(value: T)
}
