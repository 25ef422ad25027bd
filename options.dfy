/** The optional value used wherever the source holds a reference that may be null. */
module Options {

  datatype Option<+T> = None | Some(value: T)

}
