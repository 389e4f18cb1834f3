/** The Linux errno values the modelled code returns, negated, as error results. */
module Errno {
  const EAGAIN := 11
  const ENOMEM := 12
  const ENXIO := 6
  const EINVAL := 22
  const EBUSY := 16
  const ENODEV := 19
  const EOPNOTSUPP := 95
}
