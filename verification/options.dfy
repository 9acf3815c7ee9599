/** Stock optional and fallible values. */
module Options {
  datatype Option<+T> = None | Some(value: T)

  datatype Result<+T, +E> = Ok(value: T) | Err(error: E)

  function OrEmpty(value: Option<string>): string { if value.None? then "" else value.value }
}
