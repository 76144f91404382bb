/** Value types shared by the whole installer model. */
module Base {

  /** Rust's `Option<T>`. */
  datatype Option<+T> = None | Some(value: T)

  /** Rust's `Result<T, E>` (and `anyhow::Result<T>` with a modelled error type). */
  datatype Result<+T, +E> = Ok(value: T) | Err(error: E)

  /** One byte of a file, of a downloaded chunk or of a block device (`u8`). */
  newtype byte = x: int | 0 <= x < 256

  /** Rust's `u64`: sizes in bytes. */
  type u64 = x: int | 0 <= x < 0x1_0000_0000_0000_0000

  /** Rust's `std::cmp::Ordering`. */
  datatype Ordering = Less | Equal | Greater {
    /** The ordering of the same two values taken the other way round. */
    function Flip(): Ordering {
      match this
      case Less => Greater
      case Equal => Equal
      case Greater => Less
    }
  }
}
