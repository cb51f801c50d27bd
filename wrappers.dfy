/** Option, used where the source works with a nullable reference. */
module Wrappers {

  datatype Option<+T> = None | Some(value: T)

  /** `HashMap.get`: the value stored under `key`, or None (Java's null) when absent. */
  function Get<K, V>(m: map<K, V>, key: K): (r: Option<V>)
    ensures r.Some? <==> key in m
    ensures r.Some? ==> r.value == m[key]
  {
    if key in m then Some(m[key]) else None
  }
}
