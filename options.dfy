/** The conventional Some/None datatype, used wherever the program may have nothing to produce. */
module Options {

  datatype Option<+T> = None | Some(value: T)
}
