/** Optional values, used where the modelled code can fail (an index outside an array). */
module Wrappers {

  datatype Option<+T> = None | Some(value: T)

}
