/** The optional value used wherever the game code may answer "nothing"
    (Python's `None`). */
module Options {

  datatype Option<T> = None | Some(value: T)
}
