/** The Some/None datatype shared by the modules of this model. It stands for
    Rust's `Option`, for a nullable C pointer that is read as a value, and for
    the result of an operation that panics or fails (`None`). */
module Optional {

  datatype Option<+T> = None | Some(value: T)
}
