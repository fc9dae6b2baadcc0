/** The optional-value datatype used across the model. */
module Maybe {
  datatype Option<+T> = None | Some(value: T)
}
