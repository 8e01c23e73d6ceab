/** Optional values and success/failure results, standing in for Python's
    `None` and for the exceptions the modelled code raises. */
module Wrappers {

  datatype Option<+T> = None | Some(value: T)

  datatype Result<+T, +E> = Success(value: T) | Failure(error: E)

  /** `d.get(k)` on a dictionary whose values may themselves be `None`. */
  function Get<K, V>(m: map<K, Option<V>>, k: K): Option<V>
  {
    if k in m then m[k] else None
  }
}
