/** An optional value: JavaScript's `null`/`undefined` versus a present value. */
module Optional {

  datatype Option<+T> = None | Some(value: T)

  /** The value of `o`, or `default` when it is absent. */
  function GetOr<T>(o: Option<T>, default: T): T
  {
    match o
    case Some(v) => v
    case None => default
  }

  /** Map lookup that yields `None` for a missing key (`obj[key]` being `undefined`). */
  function Get<K, V>(m: map<K, V>, k: K): (r: Option<V>)
    ensures r.Some? <==> k in m
    ensures r.Some? ==> r.value == m[k]
  {
    if k in m then Some(m[k]) else None
  }
}
