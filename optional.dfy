/** A value that may be absent: Ruby's `nil` stands for `None`. */
module Optional {
  datatype Option<+T> = None | Some(value: T)
}
