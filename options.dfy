/** The Some/None datatype used wherever a search can come back empty-handed. */
module Options {

  datatype Option<+T> = None | Some(value: T)

}
