/**
 The in-memory state of kernel/log.c (`struct log`) and the decisions its entry
 points take under `log.lock`.
 */
module LogState {
  import opened Params
  import opened LogDisk

  /** `lh` is log.lh.block[0..log.lh.n]. */
  datatype LogState = LogState(lh: seq<nat>, outstanding: int, committing: bool)

  /** begin_op lets the operation in: no commit is running and the worst case fits. */
  predicate Admits(l: LogState) {
    !l.committing && |l.lh| + (l.outstanding + 1) * MAXOPBLOCKS <= LOGSIZE
  }

  function Began(l: LogState): LogState {
    l.(outstanding := l.outstanding + 1)
  }

  /** log_write panics with "too big a transaction" or "log_write outside of trans". */
  predicate LogWritePanics(g: Geometry, l: LogState) {
    |l.lh| >= LOGSIZE || |l.lh| >= g.nlog - 1 || l.outstanding < 1
  }

  /** log_write's record: a block that is already listed is absorbed. */
  function Logged(l: LogState, b: nat): LogState {
    if b in l.lh then l else l.(lh := l.lh + [b])
  }

  /** end_op panics with "log.committing". */
  predicate EndPanics(l: LogState) {
    l.committing
  }

  /** end_op's decision: the last operation out starts the commit. */
  function Ended(l: LogState): LogState {
    LogState(l.lh, l.outstanding - 1, l.committing || l.outstanding == 1)
  }
}
