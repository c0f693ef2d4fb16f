/** Python's `None`-or-value results. */
module Maybe {

  datatype Option<+T> = None | Some(value: T)

}
