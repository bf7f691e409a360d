/** Small value types shared by every module of the model. */
module Common {

  /** Python's `None` or a value. */
  datatype Option<+T> = None | Some(value: T)

  /** One octet of file content. */
  type Byte = b: int | 0 <= b < 256

  /** File content as Python's `bytes`. */
  type Bytes = seq<Byte>

  /** An instant returned by `timezone.now()`; a larger value is a later instant. */
  type Time = nat
}
