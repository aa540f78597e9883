/** What the reader and the writer of an asset share. */
module Assets {

  const BUFFER_SIZE: nat := 4096

  const EIO: int := 5
  const EBADF: int := 9
  const ENOSPC: int := 28
}
