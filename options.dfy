/** The `None`-or-value results that the Python source returns (a missing
    move, an index that raised). */
module Options {
  datatype Option<+T> = None | Some(value: T)
}
