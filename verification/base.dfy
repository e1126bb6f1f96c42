/** Shared vocabulary of the model: optional values, results, bytes and the
    machine integer widths the Rust source uses. */
module Base {

  /** An octet, as read from or written to a connection. */
  type byte = x: int | 0 <= x < 0x100

  /** `u16`, the type of a response status code. */
  type u16 = x: int | 0 <= x < 0x1_0000

  /** `usize::MAX` on the 64-bit targets the server is built for. */
  const USIZE_MAX: int := 0xFFFF_FFFF_FFFF_FFFF

  /** Rust's `Option`. */
  datatype Option<+T> = None | Some(value: T) {
    predicate IsFailure() { None? }

    function PropagateFailure<U>(): Option<U>
      requires None?
    {
      None
    }

    function Extract(): T
      requires Some?
    {
      value
    }
  }

  /** Rust's `Result`; usable with `:-`. */
  datatype Result<+T, +E> = Ok(value: T) | Err(error: E) {
    predicate IsFailure() { Err? }

    function PropagateFailure<U>(): Result<U, E>
      requires Err?
    {
      Err(error)
    }

    function Extract(): T
      requires Ok?
    {
      value
    }
  }
}
