/** Shared result type and the error numbers of the kernel (src/status.h). */
module Status {

  datatype Option<+T> = None | Some(value: T)

  const EIO := 5
  const ENOMEM := 12
  const EINVAL := 22
  const ENOMEDIUM := 123
}
