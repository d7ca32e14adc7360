/** The optional value the grid code gets from `?.` chains and missing keys. */
module Wrappers {

  datatype Option<+T> = None | Some(value: T)

  /** `m[k]`, or `undefined` when `k` is not a key of `m`. */
  function Lookup<K, V>(m: map<K, V>, k: K): (r: Option<V>)
    ensures r.Some? <==> k in m
    ensures r.Some? ==> r.value == m[k]
  {
    if k in m then Some(m[k]) else None
  }
}
