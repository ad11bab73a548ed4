/** Numeric constants of the POSIX interface the filesystem emulates.
    Error numbers follow Linux (musl's errno.h); open flags follow musl's generic
    fcntl.h, whose values the Emscripten libc uses. Octal C literals are written in hex. */
module Posix {

  // Error numbers. Syscalls return their negation.
  const EPERM: int := 1
  const ENOENT: int := 2
  const EBADF: int := 9
  const EACCES: int := 13
  const EFAULT: int := 14
  const EBUSY: int := 16
  const EEXIST: int := 17
  const ENOTDIR: int := 20
  const EISDIR: int := 21
  const EINVAL: int := 22
  const ERANGE: int := 34
  const ENAMETOOLONG: int := 36
  const ENOTEMPTY: int := 39
  const EOVERFLOW: int := 75
  const ENOTSUP: int := 95
  const EOPNOTSUPP: int := 95

  // open(2) flags.
  const O_RDONLY: bv32 := 0x0
  const O_WRONLY: bv32 := 0x1
  const O_RDWR: bv32 := 0x2
  const O_CREAT: bv32 := 0x40          // 0100
  const O_EXCL: bv32 := 0x80           // 0200
  const O_TRUNC: bv32 := 0x200         // 01000
  const O_APPEND: bv32 := 0x400        // 02000
  const O_NONBLOCK: bv32 := 0x800      // 04000
  const O_NDELAY: bv32 := O_NONBLOCK
  const O_DSYNC: bv32 := 0x1000        // 010000
  const O_ASYNC: bv32 := 0x2000        // 020000
  const O_DIRECT: bv32 := 0x4000       // 040000
  const O_DIRECTORY: bv32 := 0x10000   // 0200000
  const O_SYNC: bv32 := 0x101000       // 04010000
  const O_PATH: bv32 := 0x200000       // 010000000
  const O_TMPFILE: bv32 := 0x410000    // 020200000, i.e. 020000000 | O_DIRECTORY
  const O_ACCMODE: bv32 := 0x200003    // 03 | O_SEARCH, O_SEARCH == O_PATH

  // Permission masks: any of the owner/group/other bits.
  const ANY_READ: bv32 := 0x124        // 0444
  const ANY_WRITE: bv32 := 0x92        // 0222
  const ANY_EXEC: bv32 := 0x49         // 0111
  const ROOT_MODE: bv32 := 0x1FF       // 0777

  // access(2) modes.
  const F_OK: bv32 := 0
  const X_OK: bv32 := 1
  const W_OK: bv32 := 2
  const R_OK: bv32 := 4

  // lseek(2) whence values.
  const SEEK_SET: int := 0
  const SEEK_CUR: int := 1
  const SEEK_END: int := 2

  // Directory entry types of getdents64.
  const DT_DIR: int := 4
  const DT_REG: int := 8

  /** Longest path the syscalls accept. */
  const MAX_PATHNAME_LENGTH: int := 2000
  /** Longest directory-entry name copied by getdents64. */
  const NAME_MAX: int := 255
  /** Ancestors walked when rebuilding an absolute path. */
  const MAX_DIRECTORY_DEPTH: nat := 512
  /** sizeof(struct dirent) on wasm32 musl: 8 + 8 + 2 + 1 + 256, padded to 8. */
  const DIRENT_SIZE: int := 280
  /** sizeof(dirent *) on wasm32. */
  const PTR_SIZE: int := 4
  /** Size of each console line buffer. */
  const CONSOLE_BUFFER_SIZE: int := 4096
  /** Largest offset llseek accepts. */
  const OFF_MAX: int := 0x7FFF_FFFF
  /** HTTP status of a successful remote fetch. */
  const HTTP_OK: int := 200
}
