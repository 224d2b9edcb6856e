/** Optional values, used where a C++ member may hold no defined value yet
    or where a scan may find nothing. */
module Wrappers {

  datatype Option<+T> = None | Some(value: T)
}
