/**
 * Small value types shared by the model of the bmap creator: bytes, optional
 * values, results, and the outcome of a system call (its value, or the errno
 * it failed with).
 */
module Common {

  newtype byte = x: int | 0 <= x < 256

  datatype Option<T> = None | Some(value: T)

  datatype Result<T, E> = Success(value: T) | Failure(error: E)

  /** What a system call (open, ioctl, flush, fsync) gives back: a value, or the errno it failed with. */
  datatype Reply<T> = Done(value: T) | Failed(errno: int)

  function Min(a: int, b: int): int { if a <= b then a else b }

  function Max(a: int, b: int): int { if a <= b then b else a }
}
