/** Optional values, used for pandas' missing markers (NaT months, NaN years)
    and for operations of the dashboard that raise instead of returning. */
module Wrappers {

  datatype Option<+T> = None | Some(value: T)
}
