/** Small value types shared by the modules of this model. */
module Common {

  /** A value that may be absent: Go's nil pointer, nil interface or failed lookup. */
  datatype Option<+T> = None | Some(value: T) {
    function GetOr(default: T): T {
      match this
      case Some(v) => v
      case None => default
    }
  }

  /** One octet, as in Go's []byte. */
  newtype byte = x: int | 0 <= x < 256

  /** The value stored under `k`, or `default` when `k` is absent (Go's zero-value map read). */
  function MapGet<K, V>(m: map<K, V>, k: K, default: V): V {
    if k in m then m[k] else default
  }
}
