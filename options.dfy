/** Optional values and results, used for missing cells and for failures raised by the pipeline. */
module Options {

  /** A cell that may be missing (pandas shows a missing cell as NaN). */
  datatype Option<+T> = None | Some(value: T)

  /** The outcome of a step that can raise. */
  datatype Result<+T, +E> = Ok(value: T) | Err(error: E)
}
