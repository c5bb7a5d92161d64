/** Small shared vocabulary: optional values (Java's `null` / `Optional`) and bytes. */
module Base {

  /** A value that may be absent: `None` stands for Java's `null` or an empty `Optional`,
      and for "the collaborator threw" where a foreign call is modelled as a partial function. */
  datatype Option<+T> = None | Some(value: T) {
    function GetOr(default: T): T {
      match this
      case Some(v) => v
      case None => default
    }
  }

  /** One octet of a file or of a zip entry. */
  type Byte = x: int | 0 <= x < 256
}
