/** Option type shared by the codec, the extractor and the pipelines. */
module Wrappers {

  datatype Option<+T> = None | Some(value: T)
}
