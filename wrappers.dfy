/** Optional values and results, used for the absent cells (NaN, NaT) and the
    exceptions of the dashboards. */
module Wrappers {

  datatype Option<+T> = None | Some(value: T)

  datatype Result<+T, +E> = Ok(value: T) | Err(error: E)
}
