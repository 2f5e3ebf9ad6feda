/** Error numbers of the kernel, negative as the drivers return them. */
module Errno {
  const EINTR: int := -4
  const EAGAIN: int := -11
  const ENOMEM: int := -12
  const EFAULT: int := -14
  const EBUSY: int := -16
  const EINVAL: int := -22
  const EPROTO: int := -71
  const EBADMSG: int := -74
  const EOPNOTSUPP: int := -95
  const ECONNREFUSED: int := -111
  const EREMOTEIO: int := -121
  const ERESTARTSYS: int := -512
}
