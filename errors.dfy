/**
 * What the bmap creator raises. `BmapError` is the module's own `Error`
 * class: a cause (standing for its human-readable message) and the errno
 * of the failed system call. The two others are Python exceptions that the
 * code lets escape.
 */
module Errors {

  /** The Linux errno values the permission probe recognises. */
  const EPERM: int := 1
  const EACCES: int := 13

  /** Which message the `Error` carries. */
  datatype Cause =
    | CannotOpenImage         // open() failed
    | CannotGetBlockSize      // the FIGETBSZ ioctl failed
    | FibmapFailed            // the FIBMAP ioctl failed for some block
    | NoFibmapPermission      // the probe of block 0 failed with EPERM or EACCES
    | CannotFlushImage        // flush() failed
    | CannotSyncImage         // fsync() failed

  datatype Exception =
    | BmapError(cause: Cause, errno: int)
      /** The zero-size check names an `err` that is not bound at that point. */
    | UnboundLocalError
      /** A block size of 0 reaches the division that computes the block count. */
    | ZeroDivisionError
}
