/** Small shared vocabulary: an optional value and raw bytes. */
module Base {

  /** A value that may be absent (an unset header, a body that did not bind). */
  datatype Option<T> = None | Some(value: T) {
    function GetOr(default: T): T {
      match this
      case Some(v) => v
      case None => default
    }
  }

  /** One octet, as Go's `byte`. */
  type byte = bv8

  /** A raw body or buffer, as Go's `[]byte`. */
  type Bytes = seq<byte>
}
