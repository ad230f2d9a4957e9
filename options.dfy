/** The optional value the kernel expresses with a NULL pointer or a failed ASSERT. */
module Options {
  datatype Option<T> = None | Some(value: T)
}
