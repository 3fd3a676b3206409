/** Failure-carrying values shared by the whole model: Rust's `Option`, the
    library's `SecError` and its `SecResult` alias. */
module Errors {

  datatype Option<+T> = None | Some(value: T)

  /** The error kinds of src/error.rs. `Io` and `Reqwest` wrap foreign errors
      and are kept opaque. `ParseInt` and `NoMaterial` are the failures that
      src/parser.rs raises without src/error.rs declaring them. `Panic` stands
      for an `expect` that aborts the call instead of returning an error. */
  datatype SecError =
    | Io
    | Reqwest
    | Value(what: string)
    | ParseInt
    | NoMaterial
    | Panic(message: string)

  datatype Result<+T> = Ok(value: T) | Err(error: SecError)
}
