/** Optional values, for the source's `None` and its missing keys, and dictionaries that default
    to an empty list or set. */
module Wrappers {
  datatype Option<+T> = None | Some(value: T)

  function At<K, V>(m: map<K, seq<V>>, k: K): seq<V> {
    if k in m then m[k] else []
  }

  function Members<K, V>(m: map<K, set<V>>, k: K): set<V> {
    if k in m then m[k] else {}
  }
}
