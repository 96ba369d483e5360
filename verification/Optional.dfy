/** The optional value used wherever the panel answers "nothing there". */
module Optional {

  datatype Option<+T> = None | Some(value: T)
}
