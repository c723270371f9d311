/** Optional values: `None` stands for JavaScript's `null`, `undefined` or `NaN`
    wherever the modelled code can produce one of them. */
module Wrappers {

  datatype Option<+T> = None | Some(value: T)
}
