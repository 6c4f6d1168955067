/** Python's `None` next to a value: a nullable column, a missing row, a
    function that may return nothing. */
module Optional {

  datatype Option<+T> = None | Some(value: T)
}
