/** Optional values, used by the decoders that invert the renderer's text output. */
module Wrappers {
  datatype Option<+T> = None | Some(value: T)
}
