/** Shared vocabulary: optional values (Java's null, Python's None) and bytes. */
module Common {

  /** A value that may be absent, in place of a null reference. */
  datatype Option<+T> = None | Some(value: T) {

    /** The value if present, else `default` (SharedPreferences' getX(key, default)). */
    function GetOr(default: T): T {
      match this
      case Some(v) => v
      case None => default
    }
  }

  /** A Java `byte`, read as its unsigned value `b & 0xFF`. */
  type byte = x: int | 0 <= x < 256

  /** `n` zero bytes: a freshly allocated Java `byte[n]`. */
  function Zeros(n: nat): (z: seq<byte>)
    ensures |z| == n
    ensures forall i :: 0 <= i < n ==> z[i] == 0
  {
    seq(n, _ => 0)
  }

  function Min(a: int, b: int): int {
    if a <= b then a else b
  }
}
