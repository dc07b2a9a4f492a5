/** Optional values, used where the C code returns NULL, -1 or aborts on a failed assertion. */
module Wrappers {

  datatype Option<+T> = None | Some(value: T)

}
