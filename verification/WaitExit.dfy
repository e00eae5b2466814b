/**
 fork, exit, wait, reparent and kill of kernel/proc.c over sleep() and wakeup(), as
 interleaved steps of any number of processes.  A step is one access to a lock or to
 what held locks protect.  Process 0 is initproc.
 */
module WaitExit {
  import opened Options

  const INIT: nat := 0

  datatype Why = NoChildren | Killed | Reaped(k: nat) | Fault(k: nat)

  /** Where a process is; `Absent` for a table slot without one. */
  datatype Pc =
    | Absent | Ready | User | Napping
    | WaitEnter | Scan(k: nat, kids: bool) | Check(k: nat) | Reap(k: nat) | WaitLeave(why: Why)
    | SleepEnter | SleepDrop | SleepMark | Asleep | SleepTidy | SleepBack
    | ExitEnter | Reparent(k: nat) | WakeInit(k: nat, j: nat) | WakeInitHold(k: nat, j: nat)
    | WakeParent(j: nat) | WakeParentHold(j: nat) | ExitLock | ExitMark | ExitDrop | Gone
    | ForkEnter(c: nat) | ForkParent(c: nat) | ForkDrop(c: nat) | ForkRun(c: nat)

  datatype Life = Unused | Used | Sleeping | Runnable | Running | Zombie

  /** `chan` is the process whose address p->chan is, if it is one.  `lock`: who holds p->lock. */
  datatype Proc = Proc(pc: Pc, life: Life, chan: Option<nat>, parent: Option<nat>, killed: bool, lock: Option<nat>)

  /** The process table and the holder of wait_lock. */
  datatype State = State(procs: seq<Proc>, wait: Option<nat>)

  /**
   A process takes its next step (`fault`: copyout of the status fails), calls wait, exit
   or fork into free slot `c`, which fails when no memory is left, goes to sleep on some
   other channel and is woken from there; the scheduler lets go of it or runs it; it is
   killed.
   */
  datatype Step =
    | Go(i: nat, fault: bool) | CallWait(i: nat) | CallExit(i: nat) | CallFork(i: nat, c: nat) | FailFork(i: nat)
    | Nap(i: nat) | Poke(i: nat) | SwitchedOut(i: nat) | Resume(i: nat) | Kill(i: nat)

  // ---- the program ----

  predicate WantsWait(pc: Pc) {
    pc.WaitEnter? || pc.SleepBack? || pc.ExitEnter? || pc.ForkEnter?
  }

  /** The p->lock that the next step of process `i` at `pc` takes and keeps. */
  function WantsLock(s: State, i: nat): Option<nat>
    requires i < |s.procs|
  {
    match s.procs[i].pc
    case Scan(k, _) => if k < |s.procs| && s.procs[k].parent == Some(i) then Some(k) else None
    case SleepEnter => Some(i)
    case WakeInit(_, j) => if j < |s.procs| && j != i then Some(j) else None
    case WakeParent(j) => if j < |s.procs| && j != i then Some(j) else None
    case ExitLock => Some(i)
    case _ => None
  }

  /** The p->lock that it takes and releases within the step. */
  function TouchesLock(s: State, i: nat): Option<nat>
    requires i < |s.procs|
  {
    match s.procs[i].pc
    case Scan(k, kids) => if k >= |s.procs| && kids then Some(i) else None
    case ForkRun(c) => Some(c)
    case _ => None
  }

  predicate LockFree(s: State, j: Option<nat>) {
    j.Some? ==> j.value < |s.procs| && s.procs[j.value].lock.None?
  }

  predicate Enabled(s: State, st: Step) {
    st.i < |s.procs| &&
    var p := s.procs[st.i];
    match st
    case Go(i, _) =>
      && !p.pc.Absent? && !p.pc.Ready? && !p.pc.User? && !p.pc.Napping? && !p.pc.Asleep? && !p.pc.Gone?
      && (WantsWait(p.pc) ==> s.wait.None?) && LockFree(s, WantsLock(s, i)) && LockFree(s, TouchesLock(s, i))
    case CallWait(_) => p.pc.User?
    case CallExit(i) => p.pc.User? && i != INIT
    case CallFork(i, c) => p.pc.User? && c < |s.procs| && s.procs[c].life.Unused? && s.procs[c].lock.None?
    case FailFork(_) => p.pc.ForkEnter? && p.pc.c < |s.procs| && s.procs[p.pc.c].lock.None?
    case Nap(_) => p.pc.User? && p.lock.None?
    case Poke(_) => p.pc.Napping? && p.life.Sleeping? && p.lock.None?
    case SwitchedOut(i) => (p.pc.Asleep? || p.pc.Gone?) && p.lock == Some(i)
    case Resume(_) => p.life.Runnable? && p.lock.None?
    case Kill(_) => !p.life.Unused? && p.lock.None?
  }

  /** Where process `st.i` goes. */
  function Next(s: State, st: Step): Pc
    requires st.i < |s.procs|
  {
    var p, n := s.procs[st.i], |s.procs|;
    match st
    case CallWait(_) => WaitEnter
    case CallExit(_) => ExitEnter
    case CallFork(_, c) => ForkEnter(c)
    case FailFork(_) => User
    case Nap(_) => Napping
    case Resume(_) => if p.pc.Asleep? then SleepTidy else User
    case Go(i, fault) =>
      (match p.pc
       case WaitEnter => Scan(0, false)
       case Scan(k, kids) =>
         if k < n then (if s.procs[k].parent == Some(i) then Check(k) else Scan(k + 1, kids))
         else if !kids then WaitLeave(NoChildren)
         else if p.killed then WaitLeave(Killed)
         else SleepEnter
       case Check(k) => if k < n && s.procs[k].life.Zombie? then Reap(k) else Scan(k + 1, true)
       case Reap(k) => WaitLeave(if fault then Fault(k) else Reaped(k))
       case WaitLeave(_) => User
       case SleepEnter => SleepDrop
       case SleepDrop => SleepMark
       case SleepMark => Asleep
       case SleepTidy => SleepBack
       case SleepBack => Scan(0, false)
       case ExitEnter => Reparent(0)
       case Reparent(k) =>
         if k >= n then WakeParent(0) else if s.procs[k].parent == Some(i) then WakeInit(k, 0) else Reparent(k + 1)
       case WakeInit(k, j) => if j >= n then Reparent(k + 1) else if j == i then WakeInit(k, j + 1) else WakeInitHold(k, j)
       case WakeInitHold(k, j) => WakeInit(k, j + 1)
       case WakeParent(j) => if j >= n then ExitLock else if j == i then WakeParent(j + 1) else WakeParentHold(j)
       case WakeParentHold(j) => WakeParent(j + 1)
       case ExitLock => ExitMark
       case ExitMark => ExitDrop
       case ExitDrop => Gone
       case ForkEnter(c) => ForkParent(c)
       case ForkParent(c) => ForkDrop(c)
       case ForkDrop(c) => ForkRun(c)
       case ForkRun(_) => User
       case _ => p.pc)
    case _ => p.pc
  }

  /** Process `st.i` frees the slot of process `k` in this step. */
  predicate Frees(s: State, st: Step, k: nat)
    requires st.i < |s.procs|
  {
    (st.Go? && !st.fault && s.procs[st.i].pc == Reap(k)) || (st.FailFork? && s.procs[st.i].pc == ForkEnter(k))
  }

  function PcAfter(s: State, st: Step, k: nat): Pc
    requires st.i < |s.procs| && k < |s.procs|
  {
    if k == st.i then Next(s, st)
    else if Frees(s, st, k) then Absent
    else if st.Go? && s.procs[st.i].pc == ForkRun(k) then Ready
    else s.procs[k].pc
  }

  function WaitAfter(s: State, st: Step): Option<nat>
    requires st.i < |s.procs|
  {
    var pc := s.procs[st.i].pc;
    if !st.Go? then s.wait
    else if WantsWait(pc) then Some(st.i)
    else if pc.WaitLeave? || pc.SleepDrop? || pc.ExitDrop? || pc.ForkDrop? then None
    else s.wait
  }

  /** wakeup(chan) while holding the lock of process `q`. */
  predicate Woken(s: State, st: Step, k: nat)
    requires st.i < |s.procs| && k < |s.procs|
  {
    var pc, q := s.procs[st.i].pc, s.procs[k];
    && st.Go? && q.life.Sleeping? && q.chan.Some?
    && ((pc.WakeInitHold? && pc.j == k && q.chan.value == INIT) || (pc == WakeParentHold(k) && q.chan == s.procs[st.i].parent))
  }

  function LifeAfter(s: State, st: Step, k: nat): Life
    requires st.i < |s.procs| && k < |s.procs|
  {
    var pc, q := s.procs[st.i].pc, s.procs[k];
    match st
    case CallFork(_, c) => if k == c then Used else q.life
    case FailFork(_) => if Frees(s, st, k) then Unused else q.life
    case Nap(i) => if k == i then Sleeping else q.life
    case Poke(i) => if k == i then Runnable else q.life
    case Resume(i) => if k == i then Running else q.life
    case Kill(i) => if k == i && q.life.Sleeping? then Runnable else q.life
    case Go(i, _) =>
      if Frees(s, st, k) then Unused
      else if Woken(s, st, k) then Runnable
      else if pc == ForkRun(k) then Runnable
      else if k == i && pc.SleepMark? then Sleeping
      else if k == i && pc.ExitMark? then Zombie
      else q.life
    case _ => q.life
  }

  function ChanAfter(s: State, st: Step, k: nat): Option<nat>
    requires st.i < |s.procs| && k < |s.procs|
  {
    var pc, q := s.procs[st.i].pc, s.procs[k];
    if Frees(s, st, k) || (st.Nap? && k == st.i) then None
    else if st.Go? && k == st.i && pc.SleepMark? then Some(k)
    else if st.Go? && k == st.i && pc.SleepTidy? then None
    else q.chan
  }

  function ParentAfter(s: State, st: Step, k: nat): Option<nat>
    requires st.i < |s.procs| && k < |s.procs|
  {
    var pc, q := s.procs[st.i].pc, s.procs[k];
    if Frees(s, st, k) then None
    else if st.Go? && pc == ForkParent(k) then Some(st.i)
    else if st.Go? && pc == Reparent(k) && q.parent == Some(st.i) then Some(INIT)
    else q.parent
  }

  function KilledAfter(s: State, st: Step, k: nat): bool
    requires st.i < |s.procs| && k < |s.procs|
  {
    if Frees(s, st, k) then false else if st == Kill(k) then true else s.procs[k].killed
  }

  /** The p->lock that process `i` holds at `pc`. */
  function LockOf(pc: Pc, i: nat): Option<nat> {
    match pc
    case Check(k) => Some(k)
    case Reap(k) => Some(k)
    case SleepDrop | SleepMark | SleepTidy | ExitMark | ExitDrop => Some(i)
    case WakeInitHold(_, j) => Some(j)
    case WakeParentHold(j) => Some(j)
    case _ => None
  }

  function LockAfter(s: State, st: Step, k: nat): Option<nat>
    requires st.i < |s.procs| && k < |s.procs|
  {
    var pc, q := s.procs[st.i].pc, s.procs[k];
    match st
    case Go(i, _) =>
      if WantsLock(s, i) == Some(k) then Some(i)
      else if pc == Check(k) then (if q.life.Zombie? then q.lock else None)
      else if pc == Reap(k) || (pc.WakeInitHold? && pc.j == k) || pc == WakeParentHold(k) || (pc.SleepTidy? && k == i) then None
      else q.lock
    case SwitchedOut(i) => if k == i then None else q.lock
    case Resume(i) => if k == i && q.pc.Asleep? then Some(i) else q.lock
    case _ => q.lock
  }

  function Do(s: State, st: Step): (s': State)
    requires st.i < |s.procs|
    ensures |s'.procs| == |s.procs|
  {
    State(seq(|s.procs|, k requires 0 <= k < |s.procs| =>
            Proc(PcAfter(s, st, k), LifeAfter(s, st, k), ChanAfter(s, st, k), ParentAfter(s, st, k), KilledAfter(s, st, k), LockAfter(s, st, k))),
          WaitAfter(s, st))
  }

  /** A table with only initproc, running. */
  function Start(n: nat): State {
    State(seq(n, i => Proc(if i == INIT then User else Absent, if i == INIT then Running else Unused, None, None, false, None)), None)
  }

  ghost predicate Runs(s: State, steps: seq<Step>, s': State)
    decreases |steps|
  {
    if steps == [] then s' == s
    else Enabled(s, steps[0]) && Runs(Do(s, steps[0]), steps[1..], s')
  }

  // ---- invariants ----

  predicate InWait(pc: Pc) {
    match pc
    case Scan(_, _) | Check(_) | Reap(_) | WaitLeave(_) | SleepEnter | SleepDrop => true
    case Reparent(_) | WakeInit(_, _) | WakeInitHold(_, _) | WakeParent(_) | WakeParentHold(_) | ExitLock | ExitMark | ExitDrop => true
    case ForkParent(_) | ForkDrop(_) => true
    case _ => false
  }

  predicate WaitAt(s: State, i: nat)
    requires i < |s.procs|
  {
    (InWait(s.procs[i].pc) <==> s.wait == Some(i)) && (s.wait.Some? ==> s.wait.value < |s.procs|)
  }

  /** The lock a process holds says so. */
  predicate HeldAt(s: State, i: nat)
    requires i < |s.procs|
  {
    var held := LockOf(s.procs[i].pc, i);
    held.Some? ==> held.value < |s.procs| && s.procs[held.value].lock == Some(i)
  }

  /** Whoever a lock names holds it, or has left it to the scheduler. */
  predicate TakenAt(s: State, i: nat)
    requires i < |s.procs|
  {
    var taker := s.procs[i].lock;
    && (taker.Some? ==> taker.value < |s.procs|)
    && (taker.Some? ==> LockOf(s.procs[taker.value].pc, taker.value) == Some(i) || (taker.value == i && (s.procs[i].pc.Asleep? || s.procs[i].pc.Gone?)))
  }

  predicate LifeOk(pc: Pc, life: Life) {
    match pc
    case Absent => life.Unused? || life.Used?
    case Ready => life.Runnable?
    case Asleep | Napping => life.Sleeping? || life.Runnable?
    case ExitDrop | Gone => life.Zombie?
    case _ => life.Running?
  }

  predicate Exiting(pc: Pc) {
    match pc
    case ExitEnter | Reparent(_) | WakeInit(_, _) | WakeInitHold(_, _) | WakeParent(_) | WakeParentHold(_) | ExitLock | ExitMark | ExitDrop | Gone => true
    case _ => false
  }

  /** State, channel and parent. */
  predicate LifeAt(s: State, i: nat)
    requires i < |s.procs|
  {
    var p := s.procs[i];
    && LifeOk(p.pc, p.life)
    && (p.pc.Asleep? ==> p.chan == Some(i)) && (p.pc.Napping? ==> p.chan == None)
    && (p.parent.Some? ==> p.parent.value < |s.procs| && p.parent.value != i)
    && (p.life.Unused? ==> p.parent.None?)
    && (i != INIT && !p.life.Unused? && !p.life.Used? ==> p.parent.Some?)
    && (i == INIT ==> p.parent.None? && !Exiting(p.pc) && !p.pc.Absent?)
  }

  /** The slots a process is looking at: wait's are its children's, and the one it frees is a zombie's. */
  predicate SlotAt(s: State, i: nat)
    requires i < |s.procs|
  {
    var p := s.procs[i];
    && (p.pc.Check? || p.pc.Reap? ==> p.pc.k < |s.procs| && p.pc.k != i && s.procs[p.pc.k].parent == Some(i))
    && (p.pc.Reap? ==> s.procs[p.pc.k].life.Zombie?)
    && (p.pc.WakeInitHold? || p.pc.WakeParentHold? ==> p.pc.j < |s.procs| && p.pc.j != i)
  }

  function ForkOf(pc: Pc): Option<nat> {
    match pc
    case ForkEnter(c) => Some(c)
    case ForkParent(c) => Some(c)
    case ForkDrop(c) => Some(c)
    case ForkRun(c) => Some(c)
    case _ => None
  }

  /** A process works on a fork's slot alone, and the slot is Used, nobody's child until fork has wait_lock, then its own. */
  predicate ForkPair(s: State, i: nat, k: nat)
    requires i < |s.procs| && k < |s.procs|
  {
    var c := ForkOf(s.procs[i].pc);
    c.Some? ==>
      && c.value < |s.procs| && c.value != i && (k != i ==> ForkOf(s.procs[k].pc) != c)
      && (c.value == k ==> s.procs[k].life.Used? && (s.procs[i].pc.ForkEnter? ==> s.procs[k].parent.None?))
      && (c.value == k && (s.procs[i].pc.ForkDrop? || s.procs[i].pc.ForkRun?) ==> s.procs[k].parent == Some(i))
  }

  /** Asleep in wait, or past the point of no return. */
  predicate Committed(p: Proc) {
    p.pc.SleepMark? || (p.pc.Asleep? && p.life.Sleeping?)
  }

  /** A process at `pc` is waking initproc and has not come to it yet. */
  predicate WillWakeInit(pc: Pc) {
    (pc.WakeInit? || pc.WakeInitHold?) && pc.j <= INIT
  }

  /** No zombie child of a sleeper, unless it is init's and someone is about to wake init. */
  predicate SleepPair(s: State, i: nat, k: nat)
    requires i < |s.procs| && k < |s.procs|
  {
    Committed(s.procs[i]) && s.procs[k].parent == Some(i) && s.procs[k].life.Zombie? ==>
      i == INIT && s.wait.Some? && s.wait.value < |s.procs| && WillWakeInit(s.procs[s.wait.value].pc)
  }

  /** What wait has found so far: no zombie among the children scanned. */
  predicate ScanPair(s: State, i: nat, k: nat)
    requires i < |s.procs| && k < |s.procs|
  {
    var pc, q := s.procs[i].pc, s.procs[k];
    && (pc.Scan? && k < pc.k && q.parent == Some(i) ==> pc.kids && !q.life.Zombie?)
    && (pc.Check? && k < pc.k && q.parent == Some(i) ==> !q.life.Zombie?)
    && (pc.SleepEnter? || pc.SleepDrop? ==> !(q.parent == Some(i) && q.life.Zombie?))
    && (pc == WaitLeave(NoChildren) ==> q.parent != Some(i))
  }

  /** exit has given away the children up to here; a process that is gone has none. */
  predicate Orphaned(pc: Pc, k: nat) {
    match pc
    case Reparent(x) => k < x
    case WakeInit(x, _) => k <= x
    case WakeInitHold(x, _) => k <= x
    case WakeParent(_) | WakeParentHold(_) | ExitLock | ExitMark | ExitDrop | Gone | Absent => true
    case _ => false
  }

  predicate OrphanPair(s: State, i: nat, k: nat)
    requires i < |s.procs| && k < |s.procs|
  {
    Orphaned(s.procs[i].pc, k) ==> s.procs[k].parent != Some(i)
  }

  /** exit's wakeup of the parent has passed process `p`. */
  predicate Passed(pc: Pc, p: nat) {
    match pc
    case WakeParent(j) => p < j
    case WakeParentHold(j) => p < j
    case ExitLock | ExitMark | ExitDrop => true
    case _ => false
  }

  predicate ExitPair(s: State, i: nat, k: nat)
    requires i < |s.procs| && k < |s.procs|
  {
    s.procs[i].parent == Some(k) && Passed(s.procs[i].pc, k) ==> !Committed(s.procs[k])
  }

  predicate HasChild(s: State, i: nat) {
    exists x: nat :: x < |s.procs| && ChildOf(s, x, i)
  }

  predicate ChildOf(s: State, x: nat, i: nat)
    requires x < |s.procs|
  {
    s.procs[x].parent == Some(i)
  }

  /** What wait is about to answer is so, and children it has found are there. */
  predicate WhyAt(s: State, i: nat)
    requires i < |s.procs|
  {
    var pc := s.procs[i].pc;
    && (pc == WaitLeave(Killed) ==> s.procs[i].killed)
    && (pc.WaitLeave? && pc.why.Reaped? ==>
          pc.why.k < |s.procs| && (s.procs[pc.why.k].life.Unused? || s.procs[pc.why.k].life.Used?) && s.procs[pc.why.k].parent.None?)
    && (pc.WaitLeave? && pc.why.Fault? ==>
          pc.why.k < |s.procs| && s.procs[pc.why.k].life.Zombie? && s.procs[pc.why.k].parent == Some(i))
  }

  predicate KidsAt(s: State, i: nat)
    requires i < |s.procs|
  {
    s.procs[i].pc.Scan? && s.procs[i].pc.kids ==> HasChild(s, i)
  }

  predicate Good(s: State, i: nat)
    requires i < |s.procs|
  {
    WaitAt(s, i) && HeldAt(s, i) && TakenAt(s, i) && LifeAt(s, i) && SlotAt(s, i) && WhyAt(s, i) && KidsAt(s, i)
  }

  predicate Pair(s: State, i: nat, k: nat)
    requires i < |s.procs| && k < |s.procs|
  {
    ForkPair(s, i, k) && SleepPair(s, i, k) && ScanPair(s, i, k) && OrphanPair(s, i, k) && ExitPair(s, i, k)
  }

  ghost predicate Inv(s: State) {
    && (forall i: nat :: i < |s.procs| ==> Good(s, i))
    && (forall i: nat, k: nat :: i < |s.procs| && k < |s.procs| ==> Pair(s, i, k))
  }

  lemma StartInv(n: nat)
    ensures Inv(Start(n))
  {
  }

  // ---- every step keeps it, process by process and pair by pair ----

  /** The slot that process `i` is looking at in wait; itself otherwise. */
  function Looks(s: State, i: nat): nat
    requires i < |s.procs|
  {
    var pc := s.procs[i].pc;
    if (pc.Check? || pc.Reap?) && pc.k < |s.procs| then pc.k else i
  }

  lemma WaitKeeps(s: State, st: Step, k: nat)
    requires Enabled(s, st) && k < |s.procs| && WaitAt(s, st.i) && WaitAt(s, k) && LifeAt(s, st.i) && LifeAt(s, k) && SlotAt(s, st.i)
    requires ForkPair(s, st.i, k)
    ensures WaitAt(Do(s, st), k)
  {
    hide LifeAfter, ChanAfter, ParentAfter, KilledAfter, LockAfter;
  }

  lemma HeldKeeps(s: State, st: Step, k: nat)
    requires Enabled(s, st) && k < |s.procs| && HeldAt(s, st.i) && HeldAt(s, k) && SlotAt(s, st.i) && SlotAt(s, k)
    requires ForkPair(s, st.i, k) && LifeAt(s, k)
    ensures HeldAt(Do(s, st), k)
  {
    hide Do, Enabled, WaitAt, HeldAt, TakenAt, LifeAt, SlotAt, ForkPair, SleepPair, ScanPair, OrphanPair, ExitPair, Looks;
    if st.Go? {
      HeldKeepsGo(s, st, k);
    } else {
      HeldKeepsOther(s, st, k);
    }
  }

  lemma HeldKeepsGo(s: State, st: Step, k: nat)
    requires st.Go?
    requires Enabled(s, st) && k < |s.procs| && HeldAt(s, st.i) && HeldAt(s, k) && SlotAt(s, st.i) && SlotAt(s, k)
    requires ForkPair(s, st.i, k) && LifeAt(s, k)
    ensures HeldAt(Do(s, st), k)
  {
    hide LifeAfter, ChanAfter, ParentAfter, KilledAfter, WaitAfter;
  }

  lemma HeldKeepsOther(s: State, st: Step, k: nat)
    requires !st.Go?
    requires Enabled(s, st) && k < |s.procs| && HeldAt(s, st.i) && HeldAt(s, k) && SlotAt(s, st.i) && SlotAt(s, k)
    requires ForkPair(s, st.i, k) && LifeAt(s, k)
    ensures HeldAt(Do(s, st), k)
  {
    hide LifeAfter, ChanAfter, ParentAfter, KilledAfter, WaitAfter;
  }

  lemma TakenKeeps(s: State, st: Step, k: nat)
    requires Enabled(s, st) && k < |s.procs| && TakenAt(s, k) && HeldAt(s, st.i) && SlotAt(s, st.i)
    requires s.procs[k].lock.Some? && s.procs[k].lock.value < |s.procs| ==>
      LifeAt(s, s.procs[k].lock.value) && ForkPair(s, st.i, s.procs[k].lock.value)
    ensures TakenAt(Do(s, st), k)
  {
    hide Do, Enabled, WaitAt, HeldAt, TakenAt, LifeAt, SlotAt, ForkPair, SleepPair, ScanPair, OrphanPair, ExitPair, Looks;
    if st.Go? {
      TakenKeepsGo(s, st, k);
    } else {
      TakenKeepsOther(s, st, k);
    }
  }

  lemma TakenKeepsGo(s: State, st: Step, k: nat)
    requires st.Go?
    requires Enabled(s, st) && k < |s.procs| && TakenAt(s, k) && HeldAt(s, st.i) && SlotAt(s, st.i)
    requires s.procs[k].lock.Some? && s.procs[k].lock.value < |s.procs| ==>
      LifeAt(s, s.procs[k].lock.value) && ForkPair(s, st.i, s.procs[k].lock.value)
    ensures TakenAt(Do(s, st), k)
  {
    hide LifeAfter, ChanAfter, ParentAfter, KilledAfter, WaitAfter;
  }

  lemma TakenKeepsOther(s: State, st: Step, k: nat)
    requires !st.Go?
    requires Enabled(s, st) && k < |s.procs| && TakenAt(s, k) && HeldAt(s, st.i) && SlotAt(s, st.i)
    requires s.procs[k].lock.Some? && s.procs[k].lock.value < |s.procs| ==>
      LifeAt(s, s.procs[k].lock.value) && ForkPair(s, st.i, s.procs[k].lock.value)
    ensures TakenAt(Do(s, st), k)
  {
    hide LifeAfter, ChanAfter, ParentAfter, KilledAfter, WaitAfter;
  }

  lemma LifeKeeps(s: State, st: Step, k: nat)
    requires Enabled(s, st) && k < |s.procs| && LifeAt(s, st.i) && LifeAt(s, k) && HeldAt(s, st.i) && HeldAt(s, k) && SlotAt(s, st.i)
    requires ForkPair(s, st.i, k)
    ensures LifeAt(Do(s, st), k)
  {
    hide LifeOk;
    LifeOkKeeps(s, st, k);
    RestKeeps(s, st, k);
  }

  lemma LifeOkKeeps(s: State, st: Step, k: nat)
    requires Enabled(s, st) && k < |s.procs| && LifeAt(s, st.i) && LifeAt(s, k) && HeldAt(s, st.i) && HeldAt(s, k) && SlotAt(s, st.i)
    requires ForkPair(s, st.i, k)
    ensures LifeOk(Do(s, st).procs[k].pc, Do(s, st).procs[k].life)
  {
    hide KilledAfter, LockAfter, WaitAfter, ChanAfter, ParentAfter;
  }

  lemma RestKeeps(s: State, st: Step, k: nat)
    requires Enabled(s, st) && k < |s.procs| && LifeAt(s, st.i) && LifeAt(s, k) && SlotAt(s, st.i) && ForkPair(s, st.i, k)
    ensures
      var p := Do(s, st).procs[k];
      && (p.pc.Asleep? ==> p.chan == Some(k)) && (p.pc.Napping? ==> p.chan == None)
      && (p.parent.Some? ==> p.parent.value < |s.procs| && p.parent.value != k)
      && (p.life.Unused? ==> p.parent.None?)
      && (k != INIT && !p.life.Unused? && !p.life.Used? ==> p.parent.Some?)
      && (k == INIT ==> p.parent.None? && !Exiting(p.pc) && !p.pc.Absent?)
  {
    hide KilledAfter, LockAfter, WaitAfter;
  }

  lemma SlotKeeps(s: State, st: Step, k: nat)
    requires Enabled(s, st) && k < |s.procs| && SlotAt(s, st.i) && SlotAt(s, k) && LifeAt(s, k) && LifeAt(s, st.i) && LifeAt(s, Looks(s, k))
    requires WaitAt(s, st.i) && WaitAt(s, k) && ForkPair(s, st.i, k) && ForkPair(s, st.i, Looks(s, k))
    requires s.procs[st.i].pc.Scan? && s.procs[st.i].pc.k < |s.procs| ==> LifeAt(s, s.procs[st.i].pc.k)
    ensures SlotAt(Do(s, st), k)
  {
    hide Do, Enabled, WaitAt, HeldAt, TakenAt, LifeAt, SlotAt, ForkPair, SleepPair, ScanPair, OrphanPair, ExitPair, Looks;
    if st.Go? {
      SlotKeepsGo(s, st, k);
    } else {
      SlotKeepsOther(s, st, k);
    }
  }

  lemma SlotKeepsGo(s: State, st: Step, k: nat)
    requires st.Go?
    requires Enabled(s, st) && k < |s.procs| && SlotAt(s, st.i) && SlotAt(s, k) && LifeAt(s, k) && LifeAt(s, st.i) && LifeAt(s, Looks(s, k))
    requires WaitAt(s, st.i) && WaitAt(s, k) && ForkPair(s, st.i, k) && ForkPair(s, st.i, Looks(s, k))
    requires s.procs[st.i].pc.Scan? && s.procs[st.i].pc.k < |s.procs| ==> LifeAt(s, s.procs[st.i].pc.k)
    ensures SlotAt(Do(s, st), k)
  {
    hide KilledAfter, LockAfter, WaitAfter, ChanAfter;
  }

  lemma SlotKeepsOther(s: State, st: Step, k: nat)
    requires !st.Go?
    requires Enabled(s, st) && k < |s.procs| && SlotAt(s, st.i) && SlotAt(s, k) && LifeAt(s, k) && LifeAt(s, st.i) && LifeAt(s, Looks(s, k))
    requires WaitAt(s, st.i) && WaitAt(s, k) && ForkPair(s, st.i, k) && ForkPair(s, st.i, Looks(s, k))
    requires s.procs[st.i].pc.Scan? && s.procs[st.i].pc.k < |s.procs| ==> LifeAt(s, s.procs[st.i].pc.k)
    ensures SlotAt(Do(s, st), k)
  {
    hide KilledAfter, LockAfter, WaitAfter, ChanAfter;
  }

  /** The slot that wait's answer is about; itself otherwise. */
  function About(s: State, i: nat): nat
    requires i < |s.procs|
  {
    match s.procs[i].pc
    case WaitLeave(Reaped(k)) => if k < |s.procs| then k else i
    case WaitLeave(Fault(k)) => if k < |s.procs| then k else i
    case Reap(k) => if k < |s.procs| then k else i
    case _ => i
  }

  lemma WhyKeeps(s: State, st: Step, i: nat)
    requires Enabled(s, st) && i < |s.procs| && WhyAt(s, i) && LifeAt(s, i) && LifeAt(s, About(s, i)) && SlotAt(s, i) && SlotAt(s, st.i)
    requires WaitAt(s, st.i) && WaitAt(s, i) && ForkPair(s, st.i, About(s, i)) && ForkPair(s, st.i, i) && LifeAt(s, st.i)
    ensures WhyAt(Do(s, st), i)
  {
    hide Do, Enabled, WhyAt, WaitAt, LifeAt, SlotAt, ForkPair, About;
    if st.Go? {
      WhyKeepsGo(s, st, i);
    } else {
      WhyKeepsOther(s, st, i);
    }
  }

  lemma WhyKeepsGo(s: State, st: Step, i: nat)
    requires st.Go?
    requires Enabled(s, st) && i < |s.procs| && WhyAt(s, i) && LifeAt(s, i) && LifeAt(s, About(s, i)) && SlotAt(s, i) && SlotAt(s, st.i)
    requires WaitAt(s, st.i) && WaitAt(s, i) && ForkPair(s, st.i, About(s, i)) && ForkPair(s, st.i, i) && LifeAt(s, st.i)
    ensures WhyAt(Do(s, st), i)
  {
    hide LockAfter, WaitAfter, ChanAfter;
  }

  lemma WhyKeepsOther(s: State, st: Step, i: nat)
    requires !st.Go?
    requires Enabled(s, st) && i < |s.procs| && WhyAt(s, i) && LifeAt(s, i) && LifeAt(s, About(s, i)) && SlotAt(s, i) && SlotAt(s, st.i)
    requires WaitAt(s, st.i) && WaitAt(s, i) && ForkPair(s, st.i, About(s, i)) && ForkPair(s, st.i, i) && LifeAt(s, st.i)
    ensures WhyAt(Do(s, st), i)
  {
    hide LockAfter, WaitAfter, ChanAfter;
  }

  /** While its parent scans, a child stays its child. */
  lemma ChildStays(s: State, st: Step, i: nat, x: nat)
    requires Enabled(s, st) && i < |s.procs| && x < |s.procs| && ChildOf(s, x, i) && (s.procs[i].pc.Scan? || s.procs[i].pc.Check?)
    requires WaitAt(s, st.i) && WaitAt(s, i) && ForkPair(s, st.i, x)
    ensures ChildOf(Do(s, st), x, i)
  {
    hide LockAfter, WaitAfter, ChanAfter, PcAfter, KilledAfter, LifeAfter;
  }

  lemma KidsKeeps(s: State, st: Step, i: nat, x: nat)
    requires Enabled(s, st) && i < |s.procs| && x < |s.procs| && KidsAt(s, i) && SlotAt(s, i) && LifeAt(s, i)
    requires s.procs[i].pc.Scan? && s.procs[i].pc.kids ==> ChildOf(s, x, i)
    requires s.procs[i].pc.Check? ==> x == s.procs[i].pc.k
    requires WaitAt(s, st.i) && WaitAt(s, i) && ForkPair(s, st.i, x) && ForkPair(s, st.i, i)
    ensures KidsAt(Do(s, st), i)
  {
    hide LockAfter, WaitAfter, ChanAfter, KilledAfter, LifeAfter, ParentAfter;
    if (s.procs[i].pc.Scan? && s.procs[i].pc.kids) || s.procs[i].pc.Check? {
      assert ChildOf(s, x, i);
      ChildStays(s, st, i, x);
    }
  }

  lemma ForkKeeps(s: State, st: Step, i: nat, k: nat)
    requires Enabled(s, st) && i < |s.procs| && k < |s.procs| && ForkPair(s, i, k) && ForkPair(s, st.i, i) && ForkPair(s, st.i, k) && ForkPair(s, i, st.i)
    requires LifeAt(s, st.i) && LifeAt(s, i) && LifeAt(s, k) && SlotAt(s, st.i)
    requires st.CallFork? ==> ForkPair(s, i, st.c) && ForkPair(s, k, st.c)
    ensures ForkPair(Do(s, st), i, k)
  {
    hide Do, Enabled, WaitAt, HeldAt, TakenAt, LifeAt, SlotAt, ForkPair, SleepPair, ScanPair, OrphanPair, ExitPair, Looks;
    if st.Go? {
      ForkKeepsGo(s, st, i, k);
    } else {
      ForkKeepsOther(s, st, i, k);
    }
  }

  lemma ForkKeepsGo(s: State, st: Step, i: nat, k: nat)
    requires st.Go?
    requires Enabled(s, st) && i < |s.procs| && k < |s.procs| && ForkPair(s, i, k) && ForkPair(s, st.i, i) && ForkPair(s, st.i, k) && ForkPair(s, i, st.i)
    requires LifeAt(s, st.i) && LifeAt(s, i) && LifeAt(s, k) && SlotAt(s, st.i)
    ensures ForkPair(Do(s, st), i, k)
  {
    hide KilledAfter, LockAfter, WaitAfter, ChanAfter;
  }

  lemma ForkKeepsOther(s: State, st: Step, i: nat, k: nat)
    requires !st.Go?
    requires Enabled(s, st) && i < |s.procs| && k < |s.procs| && ForkPair(s, i, k) && ForkPair(s, st.i, i) && ForkPair(s, st.i, k) && ForkPair(s, i, st.i)
    requires LifeAt(s, st.i) && LifeAt(s, i) && LifeAt(s, k) && SlotAt(s, st.i)
    requires st.CallFork? ==> ForkPair(s, i, st.c) && ForkPair(s, k, st.c)
    ensures ForkPair(Do(s, st), i, k)
  {
    hide KilledAfter, LockAfter, WaitAfter, ChanAfter;
  }

  lemma ScanKeeps(s: State, st: Step, i: nat, k: nat)
    requires Enabled(s, st) && i < |s.procs| && k < |s.procs| && ScanPair(s, i, k)
    requires LifeAt(s, st.i) && LifeAt(s, i) && LifeAt(s, k) && WaitAt(s, st.i) && WaitAt(s, i)
    ensures ScanPair(Do(s, st), i, k)
  {
    hide Do, Enabled, WaitAt, HeldAt, TakenAt, LifeAt, SlotAt, ForkPair, SleepPair, ScanPair, OrphanPair, ExitPair, Looks;
    if st.Go? {
      ScanKeepsGo(s, st, i, k);
    } else {
      ScanKeepsOther(s, st, i, k);
    }
  }

  lemma ScanKeepsGo(s: State, st: Step, i: nat, k: nat)
    requires st.Go?
    requires Enabled(s, st) && i < |s.procs| && k < |s.procs| && ScanPair(s, i, k)
    requires LifeAt(s, st.i) && LifeAt(s, i) && LifeAt(s, k) && WaitAt(s, st.i) && WaitAt(s, i)
    ensures ScanPair(Do(s, st), i, k)
  {
    hide KilledAfter, LockAfter, WaitAfter, ChanAfter;
  }

  lemma ScanKeepsOther(s: State, st: Step, i: nat, k: nat)
    requires !st.Go?
    requires Enabled(s, st) && i < |s.procs| && k < |s.procs| && ScanPair(s, i, k)
    requires LifeAt(s, st.i) && LifeAt(s, i) && LifeAt(s, k) && WaitAt(s, st.i) && WaitAt(s, i)
    ensures ScanPair(Do(s, st), i, k)
  {
    hide KilledAfter, LockAfter, WaitAfter, ChanAfter;
  }

  lemma OrphanKeeps(s: State, st: Step, i: nat, k: nat)
    requires Enabled(s, st) && i < |s.procs| && k < |s.procs| && OrphanPair(s, i, k)
    requires LifeAt(s, st.i) && LifeAt(s, i) && LifeAt(s, k) && SlotAt(s, st.i) && ForkPair(s, st.i, i)
    ensures OrphanPair(Do(s, st), i, k)
  {
    hide KilledAfter, LockAfter, WaitAfter, ChanAfter;
  }

  lemma ExitKeeps(s: State, st: Step, i: nat, k: nat)
    requires Enabled(s, st) && i < |s.procs| && k < |s.procs| && ExitPair(s, i, k)
    requires LifeAt(s, st.i) && LifeAt(s, i) && LifeAt(s, k) && HeldAt(s, k) && HeldAt(s, i) && WaitAt(s, st.i) && WaitAt(s, i)
    ensures ExitPair(Do(s, st), i, k)
  {
    hide KilledAfter, LockAfter, WaitAfter;
  }

  /** Who is committed to sleeping after a step was before, or has just finished wait's scan. */
  lemma CommittedBefore(s: State, st: Step, i: nat)
    requires Enabled(s, st) && i < |s.procs| && LifeAt(s, i)
    ensures Committed(Do(s, st).procs[i]) ==> (Committed(s.procs[i]) && !Woken(s, st, i)) || (st.Go? && st.i == i && s.procs[i].pc.SleepDrop?)
  {
    hide KilledAfter, LockAfter, WaitAfter, ChanAfter, ParentAfter;
  }

  /** A zombie child after a step was one before, or has just become a zombie, or has just been given to init. */
  lemma ChildBefore(s: State, st: Step, i: nat, k: nat)
    requires Enabled(s, st) && i < |s.procs| && k < |s.procs| && LifeAt(s, st.i) && LifeAt(s, k)
    requires Do(s, st).procs[k].parent == Some(i) && Do(s, st).procs[k].life.Zombie?
    ensures
      || (s.procs[k].parent == Some(i) && s.procs[k].life.Zombie?)
      || (s.procs[k].parent == Some(i) && st.Go? && st.i == k && s.procs[k].pc.ExitMark?)
      || (i == INIT && st.Go? && s.procs[st.i].pc == Reparent(k) && s.procs[k].parent == Some(st.i))
      || (st.Go? && s.procs[st.i].pc == ForkParent(k))
  {
    hide KilledAfter, LockAfter, WaitAfter, ChanAfter, PcAfter;
  }

  lemma SleepKeeps(s: State, st: Step, i: nat, k: nat)
    requires Enabled(s, st) && i < |s.procs| && k < |s.procs| && SleepPair(s, i, k) && ScanPair(s, i, k) && ExitPair(s, k, i)
    requires LifeAt(s, st.i) && LifeAt(s, i) && LifeAt(s, k) && HeldAt(s, st.i) && HeldAt(s, i) && WaitAt(s, st.i) && WaitAt(s, i)
    requires s.wait.Some? && s.wait.value < |s.procs| ==> LifeAt(s, s.wait.value) && ForkPair(s, st.i, s.wait.value)
    requires ForkPair(s, st.i, k)
    ensures SleepPair(Do(s, st), i, k)
  {
    hide Do, Enabled, WaitAt, HeldAt, TakenAt, LifeAt, SlotAt, ForkPair, SleepPair, ScanPair, OrphanPair, ExitPair, Looks;
    if st.Go? {
      SleepKeepsGo(s, st, i, k);
    } else {
      SleepKeepsOther(s, st, i, k);
    }
  }

  lemma SleepKeepsGo(s: State, st: Step, i: nat, k: nat)
    requires st.Go?
    requires Enabled(s, st) && i < |s.procs| && k < |s.procs| && SleepPair(s, i, k) && ScanPair(s, i, k) && ExitPair(s, k, i)
    requires LifeAt(s, st.i) && LifeAt(s, i) && LifeAt(s, k) && HeldAt(s, st.i) && HeldAt(s, i) && WaitAt(s, st.i) && WaitAt(s, i)
    requires s.wait.Some? && s.wait.value < |s.procs| ==> LifeAt(s, s.wait.value) && ForkPair(s, st.i, s.wait.value)
    requires ForkPair(s, st.i, k)
    ensures SleepPair(Do(s, st), i, k)
  {
    CommittedBefore(s, st, i);
    if Do(s, st).procs[k].parent == Some(i) && Do(s, st).procs[k].life.Zombie? {
      ChildBefore(s, st, i, k);
    }
    hide KilledAfter, LockAfter, ChanAfter, ParentAfter, LifeAfter;
  }

  lemma SleepKeepsOther(s: State, st: Step, i: nat, k: nat)
    requires !st.Go?
    requires Enabled(s, st) && i < |s.procs| && k < |s.procs| && SleepPair(s, i, k) && ScanPair(s, i, k) && ExitPair(s, k, i)
    requires LifeAt(s, st.i) && LifeAt(s, i) && LifeAt(s, k) && HeldAt(s, st.i) && HeldAt(s, i) && WaitAt(s, st.i) && WaitAt(s, i)
    requires s.wait.Some? && s.wait.value < |s.procs| ==> LifeAt(s, s.wait.value) && ForkPair(s, st.i, s.wait.value)
    requires ForkPair(s, st.i, k)
    ensures SleepPair(Do(s, st), i, k)
  {
    CommittedBefore(s, st, i);
    if Do(s, st).procs[k].parent == Some(i) && Do(s, st).procs[k].life.Zombie? {
      ChildBefore(s, st, i, k);
    }
    hide KilledAfter, LockAfter, ChanAfter, ParentAfter, LifeAfter;
  }

  /** Every step keeps the invariant. */
  lemma StepKeeps(s: State, st: Step)
    requires Inv(s) && Enabled(s, st)
    ensures Inv(Do(s, st))
  {
    hide Do, WhyAt, KidsAt, WaitAt, HeldAt, TakenAt, LifeAt, SlotAt, ForkPair, SleepPair, ScanPair, OrphanPair, ExitPair, Looks;
    forall k: nat | k < |s.procs| ensures Good(Do(s, st), k) {
      GoodKeeps(s, st, k);
    }
    forall i: nat, k: nat | i < |s.procs| && k < |s.procs| ensures Pair(Do(s, st), i, k) {
      PairKeeps(s, st, i, k);
    }
  }

  lemma GoodKeeps(s: State, st: Step, k: nat)
    requires Inv(s) && Enabled(s, st) && k < |s.procs|
    ensures Good(Do(s, st), k)
  {
    hide Do, WhyAt, KidsAt, WaitAt, HeldAt, TakenAt, LifeAt, SlotAt, ForkPair, SleepPair, ScanPair, OrphanPair, ExitPair;
    assert Good(s, st.i) && Good(s, k) && Good(s, Looks(s, k)) && Pair(s, st.i, k) && Pair(s, st.i, Looks(s, k));
    if s.procs[k].lock.Some? && s.procs[k].lock.value < |s.procs| {
      assert Good(s, s.procs[k].lock.value) && Pair(s, st.i, s.procs[k].lock.value);
    }
    if s.procs[st.i].pc.Scan? && s.procs[st.i].pc.k < |s.procs| {
      assert Good(s, s.procs[st.i].pc.k);
    }
    WaitKeeps(s, st, k);
    HeldKeeps(s, st, k);
    TakenKeeps(s, st, k);
    LifeKeeps(s, st, k);
    SlotKeeps(s, st, k);
    assert Good(s, About(s, k)) && Pair(s, st.i, About(s, k));
    WhyKeeps(s, st, k);
    var x := Kid(s, k);
    assert Pair(s, st.i, x);
    KidsKeeps(s, st, k, x);
  }

  /** A child that the scan of process `i` has found. */
  lemma Kid(s: State, i: nat) returns (x: nat)
    requires i < |s.procs| && KidsAt(s, i) && SlotAt(s, i)
    ensures x < |s.procs|
    ensures s.procs[i].pc.Scan? && s.procs[i].pc.kids ==> ChildOf(s, x, i)
    ensures s.procs[i].pc.Check? ==> x == s.procs[i].pc.k
  {
    x := i;
    if s.procs[i].pc.Scan? && s.procs[i].pc.kids {
      x :| x < |s.procs| && ChildOf(s, x, i);
    } else if s.procs[i].pc.Check? {
      x := s.procs[i].pc.k;
    }
  }

  lemma PairKeeps(s: State, st: Step, i: nat, k: nat)
    requires Inv(s) && Enabled(s, st) && i < |s.procs| && k < |s.procs|
    ensures Pair(Do(s, st), i, k)
  {
    hide Do, WhyAt, KidsAt, WaitAt, HeldAt, TakenAt, LifeAt, SlotAt, ForkPair, SleepPair, ScanPair, OrphanPair, ExitPair;
    assert Good(s, st.i) && Good(s, i) && Good(s, k);
    assert Pair(s, i, k) && Pair(s, k, i) && Pair(s, st.i, i) && Pair(s, st.i, k) && Pair(s, i, st.i);
    if st.CallFork? {
      assert Pair(s, i, st.c) && Pair(s, k, st.c);
    }
    if s.wait.Some? && s.wait.value < |s.procs| {
      assert Good(s, s.wait.value) && Pair(s, st.i, s.wait.value);
    }
    ForkKeeps(s, st, i, k);
    ScanKeeps(s, st, i, k);
    OrphanKeeps(s, st, i, k);
    ExitKeeps(s, st, i, k);
    SleepKeeps(s, st, i, k);
  }

  lemma {:induction false} RunKeeps(s: State, steps: seq<Step>, s': State)
    requires Inv(s) && Runs(s, steps, s')
    ensures Inv(s')
    decreases |steps|
  {
    hide Inv, Do;
    if steps != [] {
      StepKeeps(s, steps[0]);
      RunKeeps(Do(s, steps[0]), steps[1..], s');
    }
  }

  lemma Reachable(n: nat, steps: seq<Step>, s: State)
    requires Runs(Start(n), steps, s)
    ensures Inv(s)
  {
    StartInv(n);
    RunKeeps(Start(n), steps, s);
  }

  // ---- what it means ----

  /**
   In every reachable state in which wait_lock is free, no process is asleep in wait, or
   committed to it, while a child of its own, or one it has been given, is a zombie.
   */
  lemma NoLostChild(n: nat, steps: seq<Step>, s: State, i: nat, k: nat)
    requires Runs(Start(n), steps, s) && s.wait.None? && i < |s.procs| && k < |s.procs| && Committed(s.procs[i])
    ensures !(s.procs[k].parent == Some(i) && s.procs[k].life.Zombie?)
  {
    Reachable(n, steps, s);
    assert Pair(s, i, k);
  }

  /** With wait_lock held the one exception is init, with the holder about to wake it. */
  lemma OnlyInitLags(n: nat, steps: seq<Step>, s: State, i: nat, k: nat)
    requires Runs(Start(n), steps, s) && i < |s.procs| && k < |s.procs| && Committed(s.procs[i])
    requires s.procs[k].parent == Some(i) && s.procs[k].life.Zombie?
    ensures i == INIT && s.wait.Some? && s.wait.value < |s.procs| && WillWakeInit(s.procs[s.wait.value].pc)
  {
    Reachable(n, steps, s);
    assert Pair(s, i, k);
  }

  /**
   Where a scan of wait ends, none of the children is a zombie, and wait goes to sleep
   exactly if there is a child and the caller has not been killed, says that it has been
   killed exactly if there is a child and it has, and that there is no child exactly if
   there is none.
   */
  lemma WaitDecides(n: nat, steps: seq<Step>, s: State, i: nat, fault: bool)
    requires Runs(Start(n), steps, s) && i < |s.procs| && Enabled(s, Go(i, fault))
    requires s.procs[i].pc.Scan? && s.procs[i].pc.k >= |s.procs|
    ensures forall x: nat :: x < |s.procs| && s.procs[x].parent == Some(i) ==> !s.procs[x].life.Zombie?
    ensures
      var child := exists x: nat :: x < |s.procs| && s.procs[x].parent == Some(i);
      var pc := Do(s, Go(i, fault)).procs[i].pc;
      && (pc == SleepEnter <==> child && !s.procs[i].killed)
      && (pc == WaitLeave(Killed) <==> child && s.procs[i].killed)
      && (pc == WaitLeave(NoChildren) <==> !child)
  {
    Reachable(n, steps, s);
    assert Good(s, i);
    forall x: nat | x < |s.procs| && s.procs[x].parent == Some(i) ensures !s.procs[x].life.Zombie? && s.procs[i].pc.kids {
      assert Pair(s, i, x);
    }
    if HasChild(s, i) {
      var x: nat :| x < |s.procs| && ChildOf(s, x, i);
      assert s.procs[x].parent == Some(i);
    }
  }

  /**
   What wait answers is so until it has let go of wait_lock: a caller told that it has
   been killed has been; the child it reaped is no longer one, and its slot is free or
   already being reused by a fork; a child whose status could not be copied out is left a
   zombie.
   */
  lemma WaitAnswers(n: nat, steps: seq<Step>, s: State, i: nat)
    requires Runs(Start(n), steps, s) && i < |s.procs| && s.procs[i].pc.WaitLeave?
    ensures match s.procs[i].pc.why
      case NoChildren => forall x: nat :: x < |s.procs| ==> s.procs[x].parent != Some(i)
      case Killed => s.procs[i].killed
      case Reaped(k) => k < |s.procs| && (s.procs[k].life.Unused? || s.procs[k].life.Used?) && s.procs[k].parent == None
      case Fault(k) => k < |s.procs| && s.procs[k].life.Zombie? && s.procs[k].parent == Some(i)
  {
    Reachable(n, steps, s);
    assert Good(s, i);
    forall x: nat | x < |s.procs| && s.procs[i].pc == WaitLeave(NoChildren) ensures s.procs[x].parent != Some(i) {
      assert Pair(s, i, x);
    }
  }

  /** Reaping clears the whole slot; when the status cannot be copied out it changes nothing but the lock. */
  lemma ReapFrees(n: nat, steps: seq<Step>, s: State, i: nat, k: nat)
    requires Runs(Start(n), steps, s) && i < |s.procs| && s.procs[i].pc == Reap(k)
    ensures k < |s.procs| && Do(s, Go(i, false)).procs[k] == Proc(Absent, Unused, None, None, false, None)
    ensures Do(s, Go(i, false)).procs[i].pc == WaitLeave(Reaped(k)) && Do(s, Go(i, true)).procs[i].pc == WaitLeave(Fault(k))
    ensures Do(s, Go(i, true)).procs[k] == s.procs[k].(lock := None)
    ensures forall x: nat, fault: bool :: x < |s.procs| && x != i && x != k ==> Do(s, Go(i, fault)).procs[x] == s.procs[x]
  {
    hide Do;
    Reachable(n, steps, s);
    assert Good(s, i);
    ReapStep(s, i, k);
  }

  lemma ReapStep(s: State, i: nat, k: nat)
    requires i < |s.procs| && s.procs[i].pc == Reap(k) && k < |s.procs| && k != i && s.procs[k].life.Zombie?
    ensures Do(s, Go(i, false)).procs[k] == Proc(Absent, Unused, None, None, false, None)
    ensures Do(s, Go(i, false)).procs[i].pc == WaitLeave(Reaped(k)) && Do(s, Go(i, true)).procs[i].pc == WaitLeave(Fault(k))
    ensures Do(s, Go(i, true)).procs[k] == s.procs[k].(lock := None)
    ensures forall x: nat, fault: bool :: x < |s.procs| && x != i && x != k ==> Do(s, Go(i, fault)).procs[x] == s.procs[x]
  {
  }

  /** fork ends with its slot a runnable child of the caller. */
  lemma ForkMakesChild(n: nat, steps: seq<Step>, s: State, i: nat, c: nat)
    requires Runs(Start(n), steps, s) && i < |s.procs| && s.procs[i].pc == ForkRun(c) && Enabled(s, Go(i, false))
    ensures c < |s.procs| && c != i
    ensures
      var s' := Do(s, Go(i, false));
      && s'.procs[i].pc == User && s'.procs[c].pc == Ready && s'.procs[c].life == Runnable && s'.procs[c].parent == Some(i)
  {
    Reachable(n, steps, s);
    assert Good(s, i) && Pair(s, i, i);
    assert Pair(s, i, c);
  }

  /** exit gives a child to initproc, and turns to waking it. */
  lemma ExitGivesToInit(s: State, i: nat, k: nat)
    requires i < |s.procs| && k < |s.procs| && s.procs[i].pc == Reparent(k) && s.procs[k].parent == Some(i)
    ensures Do(s, Go(i, false)).procs[k].parent == Some(INIT) && Do(s, Go(i, false)).procs[i].pc == WakeInit(k, 0)
    ensures forall x: nat :: x < |s.procs| && x != i && x != k ==> Do(s, Go(i, false)).procs[x] == s.procs[x]
  {
  }

  /** kill marks the process, and wakes it if it sleeps. */
  lemma KillWakes(s: State, i: nat)
    requires i < |s.procs|
    ensures Do(s, Kill(i)).procs[i].killed && !Do(s, Kill(i)).procs[i].life.Sleeping? && Do(s, Kill(i)).wait == s.wait
    ensures forall k: nat :: k < |s.procs| && k != i ==> Do(s, Kill(i)).procs[k] == s.procs[k]
    ensures Do(s, Kill(i)).procs[i] == s.procs[i].(killed := true, life := if s.procs[i].life.Sleeping? then Runnable else s.procs[i].life)
  {
  }

  /** Every process but initproc, once fork has finished it and until it is reaped, has a parent. */
  lemma HasParent(n: nat, steps: seq<Step>, s: State, k: nat)
    requires Runs(Start(n), steps, s) && k < |s.procs| && k != INIT && !s.procs[k].life.Unused? && !s.procs[k].life.Used?
    ensures s.procs[k].parent.Some?
  {
    Reachable(n, steps, s);
    assert Good(s, k);
  }

  /** wait reports that there are no children only when there are none. */
  lemma NoChildrenIsTrue(n: nat, steps: seq<Step>, s: State, i: nat, k: nat)
    requires Runs(Start(n), steps, s) && i < |s.procs| && k < |s.procs| && s.procs[i].pc == WaitLeave(NoChildren)
    ensures s.procs[k].parent != Some(i)
  {
    Reachable(n, steps, s);
    assert Pair(s, i, k);
  }

  /**
   The slot wait frees is a zombie child's that has left its kernel stack for good and
   has no children of its own left.
   */
  lemma ReapIsSafe(n: nat, steps: seq<Step>, s: State, i: nat, k: nat, x: nat)
    requires Runs(Start(n), steps, s) && i < |s.procs| && s.procs[i].pc == Reap(k) && x < |s.procs|
    ensures k < |s.procs| && k != i && s.procs[k].parent == Some(i) && s.procs[k].life.Zombie?
    ensures s.procs[k].pc.Gone? && s.procs[k].lock == Some(i) && s.procs[x].parent != Some(k)
  {
    Reachable(n, steps, s);
    assert Good(s, i);
    assert Good(s, k) && Pair(s, k, x);
  }

  /** No process is ever left with a parent that is a zombie or a free slot. */
  lemma ParentsAlive(n: nat, steps: seq<Step>, s: State, k: nat)
    requires Runs(Start(n), steps, s) && k < |s.procs| && s.procs[k].parent.Some?
    ensures
      var p := s.procs[k].parent.value;
      p < |s.procs| && p != k && !s.procs[p].life.Zombie? && !s.procs[p].life.Unused?
  {
    Reachable(n, steps, s);
    assert Good(s, k);
    assert Good(s, s.procs[k].parent.value) && Pair(s, s.procs[k].parent.value, k);
  }
}
