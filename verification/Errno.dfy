/** The error numbers that the driver returns, negated. */
module Errno {
  const EIO: int := 5
  const ENOMEM: int := 12
  const EFAULT: int := 14
  const EINVAL: int := 22
  const ERESTARTSYS: int := 512
}
