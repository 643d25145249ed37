/** Optional values, standing in for the ORM's "find or fail" lookups:
    a lookup that throws becomes `None`, one that finds a row becomes `Some`. */
module Wrappers {

  datatype Option<+T> = None | Some(value: T)
}
