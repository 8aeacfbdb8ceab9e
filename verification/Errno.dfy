/** Error numbers of the system and of the interface; calls return them negated. */
module Errno {
  const EPERM := 1
  const ENOENT := 2
  const EINTR := 4
  const EIO := 5
  const EACCES := 13
  const EINVAL := 22
  const ENOLCK := 37
  const ENOSYS := 38
  const ENODATA := 61
  const EBADFD := 77
  const ETIMEDOUT := 110
  const EMISS_MARKER := 0x1001
  const EMISS_ENDMARKER := 0x1002
  const ENOTARGET := 0x1003
  const ENOBUSGRANT := 0x1004
}
