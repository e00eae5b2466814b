/** Constants of kernel/param.h and kernel/fs.h that more than one module uses. */
module Params {
  const MAXOPBLOCKS := 10
  const LOGSIZE := MAXOPBLOCKS * 3
  const NBUF := MAXOPBLOCKS * 3
  const NPROC := 64
  const BSIZE := 1024
  /** A block seen as 32-bit words. */
  const WORDS := BSIZE / 4
}

/** An optional value. */
module Options {
  datatype Option<+T> = None | Some(value: T)
}
