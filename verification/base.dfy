/** Small failure-carrying datatypes shared by the build-script model. */
module Base {

  /** An optional value, as Rust's `Option`. */
  datatype Option<+T> = None | Some(value: T)

  /** The two asset directories the build script scans. */
  datatype Directory = QueryDirectory | InputDirectory

  /** The fatal failures of a run. Every one of them is an `unwrap()` that
      panics in the build script, so the run stops and writes nothing. */
  datatype Failure =
    | DirectoryUnreadable(dir: Directory)
    | FileUnreadable(dir: Directory, stem: string, ext: string)

  /** The outcome of a run or of one of its stages. */
  datatype Result<+T> = Ok(value: T) | Abort(failure: Failure)
}
