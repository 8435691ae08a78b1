/** A value that may be absent: the pointer position before the first
    pointer event, or the outcome of a placement whose random supply ran out. */
module Options {

  datatype Option<+T> = None | Some(value: T)

}
