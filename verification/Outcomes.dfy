/** Error codes and results of the volume operations. */
module Outcomes {
  datatype Errno = ENOENT | EEXIST | EINVAL | ENOSPC

  datatype Result<+T> = Ok(value: T) | Err(errno: Errno)
}
