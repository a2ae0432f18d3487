/** The optional value used wherever the program has `None` or an absent piece or move. */
module Options {

  datatype Option<+T> = None | Some(value: T)
}
