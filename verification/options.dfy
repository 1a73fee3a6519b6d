/** The optional value used throughout the model (an absent text alignment, no free label position). */
module Options {
  datatype Option<T> = None | Some(value: T)
}
