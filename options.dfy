/** A value that may be missing. In the input it stands for a key the record does not
    have; in the output it stands for JSON `null`, or for a key that is left out. */
module Options {
  datatype Option<+T> = None | Some(value: T)
}
