/** Optional values: a zonal statistic that may be missing (Python's None). */
module Wrappers {

  datatype Option<+T> = None | Some(value: T)
}
