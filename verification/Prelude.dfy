/** What several modules need: an option type and the error numbers. */
module Prelude {

  datatype Option<+T> = None | Some(value: T)

  const EIO: int := 5
  const ENOMEM: int := 12
  const ENODEV: int := 19
  const EINVAL: int := 22
  const ENOTSUP: int := 45
  const ETIMEDOUT: int := 60

  function Min(a: int, b: int): int { if a <= b then a else b }
}
