/** Failure-carrying values shared by the other modules. */
module Wrappers {

  /** A value that may be missing: JavaScript's `undefined` from `Map.get`,
      or `null` from a structured completion. */
  datatype Option<+T> = None | Some(value: T)

  /** The outcome of an operation that may throw. */
  datatype Result<+R, +E> = Success(value: R) | Failure(error: E)

  /** `Map.prototype.get`: the value under `k`, or `undefined`. */
  function Get<K, V>(m: map<K, V>, k: K): (r: Option<V>)
    ensures r.Some? <==> k in m
    ensures r.Some? ==> r.value == m[k]
  {
    if k in m then Some(m[k]) else None
  }
}
