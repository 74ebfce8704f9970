/** A value that may be absent: a row the store did not return, or a draft
    that `Number(...)` reads as NaN. */
module Options {

  datatype Option<+T> = None | Some(value: T)
}
