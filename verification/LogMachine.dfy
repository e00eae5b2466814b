/**
 The log and the buffer cache shared by concurrent system calls.  One step is
 what a thread does between two points where another thread, or a crash, can be
 seen to intervene: a buffer reference or lock, a log.lock section, or one bwrite.

 What clients do: get only buffers outside the log region, modify a buffer only inside
 an operation, and release every buffer before end_op.  A client should also hand a
 buffer it has modified to log_write before brelse.  writei does not when its copy from
 user space faults part way, so a modified buffer may be released here all the same:
 such a release spoils the buffer.
 */
module LogMachine {
  import opened Params
  import opened Options
  import opened LogDisk
  import opened LogState

  type Pid = nat

  /**
   A cached block: struct buf with the set of threads that hold a reference to it.
   `dirty` is set while its holder has modified it and not yet called log_write;
   `spoilt` once it has been released with other contents than it should have, until
   the next log_write of it or until it is installed.
   */
  datatype Buf = Buf(data: Block, valid: bool, refcnt: int, users: set<Pid>, holder: Option<Pid>,
                     dirty: bool, spoilt: bool)

  /**
   A change to a logged block: which operation, which block, and the new contents;
   `handed` if log_write was called for it.
   */
  datatype Rec = Rec(op: nat, block: nat, data: Block, handed: bool)

  datatype Phase =
    | Running                 // no commit
    | Logging(k: nat)         // write_log has filled k slots
    | Installing(k: nat)      // install_trans has installed k blocks
    | Finishing               // the log is erased, committing not yet cleared
    | Booted                  // after a crash, before read_head
    | Recovering(k: nat)      // recovery has installed k blocks

  /**
   `ops` maps the threads inside begin_op/end_op to the serial number of their
   operation.  `epoch` lists the changes to logged blocks since the last commit,
   `groups` those of each commit so far, `issued` all of them; `base` is the first
   serial number of the current epoch.
   */
  datatype State = State(
    disk: Disk, bufs: map<nat, Buf>, log: LogState, phase: Phase,
    ops: map<Pid, nat>, nextOp: nat, base: nat,
    epoch: seq<Rec>, groups: seq<seq<Rec>>, issued: seq<Rec>)

  datatype Step =
    | BeginOp(p: Pid) | EndOp(p: Pid)
    | Get(p: Pid, b: nat, junk: Block) | Lock(p: Pid, b: nat) | Release(p: Pid, b: nat) | Evict(b: nat)
    | Modify(p: Pid, b: nat, data: Block) | LogWrite(p: Pid, b: nat)
    | WriteSlot | WriteHead | InstallOne | EraseHead | Finish
    | Crash | ReadHead | RecoverOne | RecoverErase

  // ---- transitions ----

  /** The contents bread returns. */
  function Seen(s: State, b: nat): Block
    requires b < |s.disk|
  {
    if b in s.bufs && s.bufs[b].valid then s.bufs[b].data else s.disk[b]
  }

  /** bread of `b` would not wait. */
  predicate Unlocked(s: State, b: nat) {
    b in s.bufs ==> s.bufs[b].holder == None
  }

  predicate Holds(s: State, p: Pid, b: nat) {
    b in s.bufs && s.bufs[b].holder == Some(p)
  }

  predicate UserPhase(s: State) {
    !s.phase.Booted? && !s.phase.Recovering?
  }

  function Idle(data: Block): Buf {
    Buf(data, true, 0, {}, None, false, false)
  }

  ghost predicate Enabled(g: Geometry, s: State, t: Step) {
    match t
    case BeginOp(p) => UserPhase(s) && p !in s.ops && Admits(s.log)
    case EndOp(p) =>
      && UserPhase(s) && p in s.ops
      && forall b :: b in s.bufs ==> p !in s.bufs[b].users
    case Get(p, b, _) => UserPhase(s) && g.Home(b) && (if b in s.bufs then p !in s.bufs[b].users else |s.bufs| < NBUF)
    case Lock(p, b) => UserPhase(s) && b in s.bufs && p in s.bufs[b].users && s.bufs[b].holder == None && b < |s.disk|
    case Release(p, b) => Holds(s, p, b) && b < |s.disk| && (s.bufs[b].dirty ==> p in s.ops)
    case Evict(b) => b in s.bufs && s.bufs[b].refcnt == 0
    case Modify(p, b, _) => UserPhase(s) && Holds(s, p, b) && p in s.ops
    case LogWrite(p, b) => UserPhase(s) && Holds(s, p, b) && p in s.ops && !LogWritePanics(g, s.log)
    case WriteSlot =>
      && s.phase.Logging? && s.phase.k < |s.log.lh| && Unlocked(s, s.log.lh[s.phase.k])
      && s.log.lh[s.phase.k] < |s.disk| && g.Slot(s.phase.k) < |s.disk|
    case WriteHead =>
      && s.phase.Logging? && s.phase.k == |s.log.lh| < WORDS && g.logstart < |s.disk|
    case InstallOne =>
      && s.phase.Installing? && s.phase.k < |s.log.lh| && Unlocked(s, s.log.lh[s.phase.k])
      && s.log.lh[s.phase.k] < |s.disk| && g.Slot(s.phase.k) < |s.disk|
    case EraseHead => s.phase.Installing? && s.phase.k == |s.log.lh| && g.logstart < |s.disk|
    case Finish => s.phase.Finishing?
    case Crash => true
    case ReadHead => s.phase.Booted? && g.logstart < |s.disk| && s.disk[g.logstart][0] < WORDS
    case RecoverOne =>
      && s.phase.Recovering? && s.phase.k < |s.log.lh|
      && s.log.lh[s.phase.k] < |s.disk| && g.Slot(s.phase.k) < |s.disk|
    case RecoverErase => s.phase.Recovering? && s.phase.k == |s.log.lh| && g.logstart < |s.disk|
  }

  function DoEnd(s: State, p: Pid): State
    requires p in s.ops
  {
    var log := Ended(s.log);
    s.(log := log, ops := s.ops - {p},
       phase := if !log.committing then s.phase else if log.lh == [] then Finishing else Logging(0))
  }

  function DoGet(s: State, p: Pid, b: nat, junk: Block): State {
    if b in s.bufs then
      var u := s.bufs[b];
      s.(bufs := s.bufs[b := u.(refcnt := u.refcnt + 1, users := u.users + {p})])
    else
      s.(bufs := s.bufs[b := Buf(junk, false, 1, {p}, None, false, false)])
  }

  function DoLock(s: State, p: Pid, b: nat): State
    requires b in s.bufs && b < |s.disk|
  {
    s.(bufs := s.bufs[b := s.bufs[b].(holder := Some(p), valid := true, data := Seen(s, b))])
  }

  /** What an unmodified buffer of `b` holds: what log_write was last handed, or the disk's block. */
  function Clean(s: State, b: nat): Block
    requires b < |s.disk|
  {
    match LastHanded(s.epoch, b) case Some(x) => x case None => s.disk[b]
  }

  /** brelse; a modification that log_write has not been told of stays in the buffer. */
  function DoRelease(s: State, p: Pid, b: nat): State
    requires b in s.bufs && b < |s.disk| && (s.bufs[b].dirty ==> p in s.ops)
  {
    var u := s.bufs[b];
    var s' := s.(bufs := s.bufs[b := u.(refcnt := u.refcnt - 1, users := u.users - {p}, holder := None, dirty := false,
                                        spoilt := if u.dirty then u.data != Clean(s, b) else u.spoilt)]);
    if u.dirty && b in s.log.lh then Record(s', Rec(s.ops[p], b, u.data, false)) else s'
  }

  function Record(s: State, r: Rec): State {
    s.(epoch := s.epoch + [r], issued := s.issued + [r])
  }

  function DoLogWrite(s: State, p: Pid, b: nat): State
    requires b in s.bufs && p in s.ops
  {
    var u := s.bufs[b];
    Record(s.(log := Logged(s.log, b),
              bufs := s.bufs[b := u.(dirty := false, spoilt := false, refcnt := u.refcnt + if b in s.log.lh then 0 else 1)]),
           Rec(s.ops[p], b, u.data, true))
  }

  /** Write `data` to block `b` through its buffer, leaving the buffer unreferenced. */
  function WriteThrough(s: State, b: nat, data: Block): State
    requires b < |s.disk|
  {
    s.(disk := s.disk[b := data], bufs := s.bufs[b := Idle(data)])
  }

  function DoWriteSlot(g: Geometry, s: State): State
    requires s.phase.Logging? && s.phase.k < |s.log.lh|
    requires s.log.lh[s.phase.k] < |s.disk| && g.Slot(s.phase.k) < |s.disk|
  {
    WriteThrough(s, g.Slot(s.phase.k), Seen(s, s.log.lh[s.phase.k])).(phase := Logging(s.phase.k + 1))
  }

  function DoWriteHead(g: Geometry, s: State): State
    requires |s.log.lh| < WORDS && g.logstart < |s.disk|
  {
    WriteThrough(s, g.logstart, PutHead(Seen(s, g.logstart), s.log.lh))
      .(phase := Installing(0), groups := s.groups + [s.epoch], epoch := [], base := s.nextOp)
  }

  function DoInstallOne(g: Geometry, s: State): State
    requires s.phase.Installing? && s.phase.k < |s.log.lh|
    requires s.log.lh[s.phase.k] < |s.disk| && g.Slot(s.phase.k) < |s.disk|
  {
    var b, data := s.log.lh[s.phase.k], Seen(s, g.Slot(s.phase.k));
    s.(disk := s.disk[b := data], phase := Installing(s.phase.k + 1),
       bufs := if b in s.bufs then s.bufs[b := s.bufs[b].(data := data, refcnt := s.bufs[b].refcnt - 1, spoilt := false)] else s.bufs)
  }

  function DoErase(g: Geometry, s: State, next: Phase): State
    requires g.logstart < |s.disk|
  {
    WriteThrough(s, g.logstart, PutHead(Seen(s, g.logstart), [])).(phase := next, log := s.log.(lh := []))
  }

  function DoCrash(s: State): State {
    s.(bufs := map[], log := LogState([], 0, false), phase := Booted, ops := map[], base := s.nextOp, epoch := [])
  }

  function DoRecoverOne(g: Geometry, s: State): State
    requires s.phase.Recovering? && s.phase.k < |s.log.lh|
    requires s.log.lh[s.phase.k] < |s.disk| && g.Slot(s.phase.k) < |s.disk|
  {
    WriteThrough(s, s.log.lh[s.phase.k], Seen(s, g.Slot(s.phase.k))).(phase := Recovering(s.phase.k + 1))
  }

  ghost function Do(g: Geometry, s: State, t: Step): State
    requires Enabled(g, s, t)
  {
    match t
    case BeginOp(p) => s.(log := Began(s.log), ops := s.ops[p := s.nextOp], nextOp := s.nextOp + 1)
    case EndOp(p) => DoEnd(s, p)
    case Get(p, b, junk) => DoGet(s, p, b, junk)
    case Lock(p, b) => DoLock(s, p, b)
    case Release(p, b) => DoRelease(s, p, b)
    case Evict(b) => s.(bufs := s.bufs - {b})
    case Modify(p, b, data) => s.(bufs := s.bufs[b := s.bufs[b].(data := data, dirty := true)])
    case LogWrite(p, b) => DoLogWrite(s, p, b)
    case WriteSlot => DoWriteSlot(g, s)
    case WriteHead => DoWriteHead(g, s)
    case InstallOne => DoInstallOne(g, s)
    case EraseHead => DoErase(g, s, Finishing)
    case Finish => s.(phase := Running, log := s.log.(committing := false))
    case Crash => DoCrash(s)
    case ReadHead => s.(log := s.log.(lh := GetHead(s.disk[g.logstart])), phase := Recovering(0))
    case RecoverOne => DoRecoverOne(g, s)
    case RecoverErase => DoErase(g, s, Running)
  }

  /** A disk that mkfs or an earlier run left, not yet mounted. */
  function Init(disk: Disk): State {
    State(disk, map[], LogState([], 0, false), Booted, map[], 0, 0, [], [], [])
  }

  /** The state after the steps `ts`, if every one of them was enabled in turn. */
  ghost function Exec(g: Geometry, s: State, ts: seq<Step>): Option<State>
    decreases |ts|
  {
    if ts == [] then Some(s)
    else if Enabled(g, s, ts[0]) then Exec(g, Do(g, s, ts[0]), ts[1..])
    else None
  }

  // ---- what the commits so far amount to ----

  /** The contents of `b` after the last change to it in `rs`. */
  function Last(rs: seq<Rec>, b: nat): Option<Block>
    decreases |rs|
  {
    if rs == [] then None
    else if rs[|rs| - 1].block == b then Some(rs[|rs| - 1].data)
    else Last(rs[..|rs| - 1], b)
  }

  /** The changes that log_write was called for. */
  function Handed(rs: seq<Rec>): (r: seq<Rec>)
    ensures forall q :: q in r ==> q in rs && q.handed
    ensures forall q :: q in rs && q.handed ==> q in r
    decreases |rs|
  {
    if rs == [] then []
    else
      var r := rs[|rs| - 1];
      if r.handed then Handed(rs[..|rs| - 1]) + [r] else Handed(rs[..|rs| - 1])
  }

  /** The contents of `b` last handed to log_write in `rs`. */
  function LastHanded(rs: seq<Rec>, b: nat): Option<Block> {
    Last(Handed(rs), b)
  }

  /** The disk after the changes `rs`, each applied in place, in order. */
  function ApplyRecs(d: Disk, rs: seq<Rec>): (r: Disk)
    ensures |r| == |d|
    decreases |rs|
  {
    if rs == [] then d
    else
      var r := ApplyRecs(d, rs[..|rs| - 1]);
      var w := rs[|rs| - 1];
      if w.block < |d| then r[w.block := w.data] else r
  }

  /** The disk after whole groups of changes. */
  function View(d: Disk, groups: seq<seq<Rec>>): (r: Disk)
    ensures |r| == |d|
    decreases |groups|
  {
    if groups == [] then d else ApplyRecs(View(d, groups[..|groups| - 1]), groups[|groups| - 1])
  }

  lemma {:induction false} ApplyRecsAt(d: Disk, rs: seq<Rec>, b: nat)
    requires b < |d|
    ensures ApplyRecs(d, rs)[b] == match Last(rs, b) case Some(x) => x case None => d[b]
    decreases |rs|
  {
    if rs != [] {
      ApplyRecsAt(d, rs[..|rs| - 1], b);
    }
  }

  lemma LastSnoc(rs: seq<Rec>, r: Rec, b: nat)
    ensures Last(rs + [r], b) == if r.block == b then Some(r.data) else Last(rs, b)
  {
    assert (rs + [r])[..|rs|] == rs;
  }

  lemma HandedSnoc(rs: seq<Rec>, r: Rec, b: nat)
    ensures LastHanded(rs + [r], b) == if r.handed && r.block == b then Some(r.data) else LastHanded(rs, b)
  {
    assert (rs + [r])[..|rs|] == rs;
    if r.handed {
      LastSnoc(Handed(rs), r, b);
    }
  }

  lemma ViewSnoc(d: Disk, groups: seq<seq<Rec>>, rs: seq<Rec>)
    ensures View(d, groups + [rs]) == ApplyRecs(View(d, groups), rs)
  {
    assert (groups + [rs])[..|groups|] == groups;
  }

  // ---- the invariant ----

  /** log_write's pin on `b` is still held. */
  predicate Pinned(s: State, b: nat) {
    match s.phase
    case Running => b in s.log.lh
    case Logging(_) => b in s.log.lh
    case Installing(k) => k <= |s.log.lh| && b in s.log.lh[k..]
    case _ => false
  }

  /** Control: who is in an operation and where the committer is. */
  ghost predicate ControlOk(g: Geometry, s: State) {
    && g.Valid() && |s.disk| == g.size
    && Loggable(g, s.log.lh)
    && s.log.outstanding == |s.ops|
    && (s.log.committing <==> s.phase.Logging? || s.phase.Installing? || s.phase.Finishing?)
    && (!s.phase.Running? ==> s.ops == map[])
    && (s.phase.Logging? || s.phase.Installing? || s.phase.Recovering? ==> s.phase.k <= |s.log.lh|)
    && (s.phase.Installing? ==> s.log.lh != [])
    && (s.phase.Logging? ==> s.log.lh != [])
    && (s.phase.Finishing? || s.phase.Booted? ==> s.log.lh == [])
    && (s.phase.Booted? ==> s.bufs == map[])
  }

  /** A buffer of the log region is only ever the committer's, and equals the disk. */
  ghost predicate LogBufOk(s: State, b: nat)
    requires b in s.bufs && b < |s.disk|
  {
    s.bufs[b] == Idle(s.disk[b])
  }

  /** A buffer of a home block. */
  ghost predicate HomeBufOk(s: State, view: Disk, b: nat)
    requires b in s.bufs && b < |s.disk| == |view|
  {
    var u := s.bufs[b];
    && u.refcnt == |u.users| + (if Pinned(s, b) then 1 else 0)
    && (u.holder.Some? ==> u.holder.value in u.users && u.valid)
    && (u.dirty ==> u.holder.Some? && u.holder.value in s.ops)
    && (Pinned(s, b) || u.spoilt ==> u.valid)
    && (u.valid && !u.dirty && !Pinned(s, b) ==> (u.data == s.disk[b] <==> !u.spoilt))
    && (Pinned(s, b) && !u.dirty ==>
          if s.phase.Installing? then u.data == view[b] else PinnedOk(s, b))
    && (!UserPhase(s) ==> u.users == {})
  }

  /** A pinned buffer holds the last change; it is what log_write was handed unless it is spoilt. */
  ghost predicate PinnedOk(s: State, b: nat)
    requires b in s.bufs
  {
    && Last(s.epoch, b) == Some(s.bufs[b].data)
    && (LastHanded(s.epoch, b) == Some(s.bufs[b].data) <==> !s.bufs[b].spoilt)
  }

  ghost predicate BufOk(g: Geometry, s: State, view: Disk, b: nat)
    requires b in s.bufs && |s.disk| == |view|
  {
    b < |s.disk| && if g.InLog(b) then LogBufOk(s, b) else HomeBufOk(s, view, b)
  }

  ghost predicate BufsOk(g: Geometry, s: State, view: Disk)
    requires |s.disk| == |view|
  {
    && (forall b :: b in s.bufs ==> BufOk(g, s, view, b))
    && (forall b :: Pinned(s, b) ==> b in s.bufs)
  }

  /** Until the commit point the log lists exactly the blocks handed to log_write in this epoch. */
  ghost predicate EpochOk(s: State) {
    if s.phase.Running? || s.phase.Logging? then
      && (forall b: nat :: b in s.log.lh <==> Last(s.epoch, b).Some?)
      && (forall b: nat :: b in s.log.lh <==> LastHanded(s.epoch, b).Some?)
    else s.epoch == []
  }

  /** Outside a commit's second half, only finished commits are in the home blocks. */
  ghost predicate HomeOk(g: Geometry, s: State, view: Disk)
    requires |s.disk| == |view| == g.size
  {
    match s.phase
    case Installing(k) => forall b: nat :: g.Home(b) && !Pinned(s, b) ==> s.disk[b] == view[b]
    case Recovering(k) =>
      k <= |s.log.lh| && forall b: nat :: g.Home(b) && b !in s.log.lh[k..] ==> s.disk[b] == view[b]
    case Booted => true
    case _ => SameHome(g, s.disk, view)
  }

  /** What the log region holds in each phase. */
  ghost predicate LogRegionOk(g: Geometry, s: State, view: Disk)
    requires g.Valid() && |s.disk| == |view| == g.size && Loggable(g, s.log.lh)
  {
    && DiskValid(g, s.disk)
    && match s.phase
       case Booted => SameHome(g, Replay(g, s.disk), view)
       case Installing(_) =>
         Head(g, s.disk) == s.log.lh && forall i :: 0 <= i < |s.log.lh| ==> s.disk[g.Slot(i)] == view[s.log.lh[i]]
       case Recovering(_) =>
         Head(g, s.disk) == s.log.lh && forall i :: 0 <= i < |s.log.lh| ==> s.disk[g.Slot(i)] == view[s.log.lh[i]]
       case Logging(k) =>
         && Head(g, s.disk) == []
         && k <= |s.log.lh|
         && forall i :: 0 <= i < k ==> Last(s.epoch, s.log.lh[i]) == Some(s.disk[g.Slot(i)])
       case _ => Head(g, s.disk) == []
  }

  /** Serial numbers: committed operations are older than the current epoch, and whole. */
  ghost predicate SerialsOk(s: State) {
    && s.base <= s.nextOp
    && (forall p :: p in s.ops ==> s.base <= s.ops[p] < s.nextOp)
    && (forall r :: r in s.epoch ==> s.base <= r.op && r in s.issued)
    && (forall r :: r in s.issued ==> r.op < s.nextOp)
    && (forall r :: r in s.issued && s.base <= r.op ==> r in s.epoch)
    && (forall i :: 0 <= i < |s.groups| ==> GroupOk(s, i))
    && (forall i, j :: 0 <= i < j < |s.groups| ==> Older(s.groups[i], s.groups[j]))
  }

  /** Group `i` is older than the epoch and holds every write of each of its operations. */
  ghost predicate GroupOk(s: State, i: nat)
    requires i < |s.groups|
  {
    forall r :: r in s.groups[i] ==> r.op < s.base && Whole(s, i, r.op)
  }

  ghost predicate Whole(s: State, i: nat, op: nat)
    requires i < |s.groups|
  {
    forall r :: r in s.issued && r.op == op ==> r in s.groups[i]
  }

  ghost predicate Older(x: seq<Rec>, y: seq<Rec>) {
    forall r, q :: r in x && q in y ==> r.op < q.op
  }

  ghost predicate Inv(g: Geometry, d0: Disk, s: State) {
    && |d0| == g.size
    && ControlOk(g, s)
    && BufsOk(g, s, View(d0, s.groups))
    && EpochOk(s)
    && HomeOk(g, s, View(d0, s.groups))
    && LogRegionOk(g, s, View(d0, s.groups))
    && SerialsOk(s)
  }
}
