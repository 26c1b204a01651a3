/** Values that may be absent. */
module Options {

  datatype Option<+T> = None | Some(value: T)

  /** `m.get(k)` */
  function Lookup<K, V>(m: map<K, V>, k: K): Option<V> {
    if k in m then Some(m[k]) else None
  }
}
