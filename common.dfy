/** Shared vocabulary of the model: octets and optional values. */
module Common {

  /** One octet, as `uint8_t` in the component. */
  type byte = bv8

  /** `optional<T>` of the component (and "nothing happened" for I/O outcomes). */
  datatype Option<+T> = None | Some(value: T)

  function Min(a: int, b: int): int
  {
    if a <= b then a else b
  }
}
