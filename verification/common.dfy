/** Small shared vocabulary: optional values, bytes and sequence prefixes. */
module Common {

  /** An optional value; stands for Python's `None` versus a present value. */
  datatype Option<+T> = None | Some(value: T)

  /** One octet of an encoded record. */
  newtype byte = x: int | 0 <= x < 256

  /** Encoded bytes, opaque to the sender. */
  type Bytes = seq<byte>

  /** True when `p` is a prefix of `s` (Python's `s.startswith(p)`). */
  predicate HasPrefix<T(==)>(s: seq<T>, p: seq<T>) {
    |p| <= |s| && s[..|p|] == p
  }
}
