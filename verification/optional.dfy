/** A value that may be absent: C#'s nullable references (`string`) and
    nullable values (`int?`) both become an `Option`. */
module Optional {

  datatype Option<+T> = None | Some(value: T)
}
