/*
 * Small shared vocabulary: an optional value and the negated errno codes
 * the hypervisor returns (xen/include/xen/errno.h, Linux numbering).
 */
module Opt {
  datatype Option<T> = None | Some(value: T)
}

module Errno {
  const EPERM: int := 1
  const EIO: int := 5
  const ENXIO: int := 6
  const E2BIG: int := 7
  const ENOMEM: int := 12
  const EFAULT: int := 14
  const ENODEV: int := 19
  const EINVAL: int := 22
  const ERANGE: int := 34
  const EOVERFLOW: int := 75
  const ERESTART: int := 85
  const EOPNOTSUPP: int := 95
  const ENOBUFS: int := 105
}
