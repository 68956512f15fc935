/** A value that may be missing.  Where the source stops with `grub_util_error`,
    the model returns None. */
module Options {
  datatype Option<+T> = None | Some(value: T)
}
