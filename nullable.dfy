/** Java references that may be null (boxed Integer, Long, String, entity results of a query). */
module Nullable {

  datatype Option<+T> = None | Some(value: T)
}
