/** The optional value the program threads through discovery and startup
    (Rust's `Option<String>`). */
module Optional {

  datatype Option<+T> = None | Some(value: T)
}
