/**
 kernel/sleeplock.c over sleep() and wakeup() of kernel/proc.c: any number of processes
 acquiring, releasing and querying one sleep lock, as interleaved steps.  A step is one
 access to a lock or to what a held lock protects; the scheduler and kill interleave
 anywhere.
 */
module SleepLock {
  import opened Options

  /** Where a process is in acquiresleep, sleep, releasesleep, wakeup or holdingsleep. */
  datatype Pc =
    | Outside(holds: bool)
    | AcqEnter | AcqTest | AcqSet | AcqPid | AcqLeave
    | SleepEnter | SleepDrop | SleepMark | Asleep | SleepTidy | SleepBack
    | RelEnter | RelClear | RelPid | WakeAt(j: nat) | WakeHold(j: nat) | RelLeave
    | HoldEnter(holds: bool) | HoldTest(holds: bool)

  datatype Run = Running | Sleeping | Runnable

  /** `chan`: p->chan is this lock.  `lock`: who holds p->lock. */
  datatype Proc = Proc(pc: Pc, run: Run, chan: bool, lock: Option<nat>)

  /**
   The sleep lock's fields, its spinlock's holder, and the processes.  `owner` is an
   auxiliary variable: who has acquired the sleep lock and not released it.
   */
  datatype State = State(locked: bool, pid: Option<nat>, spin: Option<nat>, owner: Option<nat>, procs: seq<Proc>)

  datatype Op = Acquire | Release | Query

  /**
   A process enters an operation; takes its next step; the scheduler lets go of a
   process that called sched(), or resumes a runnable one; another process kills it.
   */
  datatype Step = Enter(i: nat, op: Op) | Go(i: nat) | SwitchedOut(i: nat) | Resume(i: nat) | Kill(i: nat)

  // ---- the program ----

  /** The p->lock that process `i` is about to take, if its next step is that. */
  function WantsLock(s: State, i: nat): Option<nat>
    requires i < |s.procs|
  {
    match s.procs[i].pc
    case SleepEnter => Some(i)
    case WakeAt(j) => if j < |s.procs| && j != i then Some(j) else None
    case _ => None
  }

  predicate WantsSpin(pc: Pc) {
    pc.AcqEnter? || pc.SleepBack? || pc.RelEnter? || pc.HoldEnter?
  }

  predicate Enabled(s: State, st: Step) {
    st.i < |s.procs| &&
    var p := s.procs[st.i];
    match st
    case Enter(_, op) => p.pc.Outside? && (op.Acquire? ==> !p.pc.holds) && (op.Release? ==> p.pc.holds)
    case Go(i) =>
      && !p.pc.Outside? && !p.pc.Asleep?
      && (WantsSpin(p.pc) ==> s.spin.None?)
      && (WantsLock(s, i).Some? ==> s.procs[WantsLock(s, i).value].lock.None?)
    case SwitchedOut(i) => p.pc.Asleep? && p.lock == Some(i)
    case Resume(i) => p.pc.Asleep? && p.run.Runnable? && p.lock.None?
    case Kill(i) => p.lock.None?
  }

  /** Control flow: where process `st.i` goes. */
  function PcAfter(s: State, st: Step): Pc
    requires st.i < |s.procs|
  {
    var pc := s.procs[st.i].pc;
    match st
    case Enter(_, Acquire) => AcqEnter
    case Enter(_, Release) => RelEnter
    case Enter(_, Query) => HoldEnter(Owns(pc))
    case SwitchedOut(_) => pc
    case Resume(_) => SleepTidy
    case Kill(_) => pc
    case Go(i) =>
      match pc
      case AcqEnter => AcqTest
      case AcqTest => if s.locked then SleepEnter else AcqSet
      case AcqSet => AcqPid
      case AcqPid => AcqLeave
      case AcqLeave => Outside(true)
      case SleepEnter => SleepDrop
      case SleepDrop => SleepMark
      case SleepMark => Asleep
      case SleepTidy => SleepBack
      case SleepBack => AcqTest
      case RelEnter => RelClear
      case RelClear => RelPid
      case RelPid => WakeAt(0)
      case WakeAt(j) => if j >= |s.procs| then RelLeave else if j == i then WakeAt(j + 1) else WakeHold(j)
      case WakeHold(j) => WakeAt(j + 1)
      case RelLeave => Outside(false)
      case HoldEnter(h) => HoldTest(h)
      case HoldTest(h) => Outside(h)
      case _ => pc
  }

  /** lk->lk: taken and released. */
  function SpinAfter(s: State, st: Step): Option<nat>
    requires st.i < |s.procs|
  {
    var pc := s.procs[st.i].pc;
    if !st.Go? then s.spin
    else if WantsSpin(pc) then Some(st.i)
    else if pc.AcqLeave? || pc.SleepDrop? || pc.RelLeave? || pc.HoldTest? then None
    else s.spin
  }

  /** lk->locked, and who owns the lock. */
  function LockedAfter(s: State, st: Step): bool
    requires st.i < |s.procs|
  {
    if st.Go? && s.procs[st.i].pc.AcqSet? then true
    else if st.Go? && s.procs[st.i].pc.RelClear? then false
    else s.locked
  }

  function OwnerAfter(s: State, st: Step): Option<nat>
    requires st.i < |s.procs|
  {
    if st.Go? && s.procs[st.i].pc.AcqSet? then Some(st.i)
    else if st.Go? && s.procs[st.i].pc.RelClear? then None
    else s.owner
  }

  /** lk->pid. */
  function PidAfter(s: State, st: Step): Option<nat>
    requires st.i < |s.procs|
  {
    if st.Go? && s.procs[st.i].pc.AcqPid? then Some(st.i)
    else if st.Go? && s.procs[st.i].pc.RelPid? then None
    else s.pid
  }

  /** p->lock of process `k`. */
  function LockAfter(s: State, st: Step, k: nat): Option<nat>
    requires st.i < |s.procs| && k < |s.procs|
  {
    var pc := s.procs[st.i].pc;
    match st
    case Go(i) =>
      if WantsLock(s, i) == Some(k) then Some(i)
      else if (pc.SleepTidy? && k == i) || pc == WakeHold(k) then None
      else s.procs[k].lock
    case SwitchedOut(i) => if k == i then None else s.procs[k].lock
    case Resume(i) => if k == i then Some(i) else s.procs[k].lock
    case _ => s.procs[k].lock
  }

  /** p->state and p->chan of process `k`. */
  function RunAfter(s: State, st: Step, k: nat): Run
    requires st.i < |s.procs| && k < |s.procs|
  {
    var pc, q := s.procs[st.i].pc, s.procs[k];
    match st
    case Go(i) =>
      if pc.SleepMark? && k == i then Sleeping
      else if pc == WakeHold(k) && q.run.Sleeping? && q.chan then Runnable
      else q.run
    case Resume(i) => if k == i then Running else q.run
    case Kill(i) => if k == i && q.run.Sleeping? then Runnable else q.run
    case _ => q.run
  }

  function ChanAfter(s: State, st: Step, k: nat): bool
    requires st.i < |s.procs| && k < |s.procs|
  {
    var pc := s.procs[st.i].pc;
    if st.Go? && k == st.i && pc.SleepMark? then true
    else if st.Go? && k == st.i && pc.SleepTidy? then false
    else s.procs[k].chan
  }

  function Do(s: State, st: Step): (s': State)
    requires st.i < |s.procs|
    ensures |s'.procs| == |s.procs|
  {
    State(LockedAfter(s, st), PidAfter(s, st), SpinAfter(s, st), OwnerAfter(s, st),
          seq(|s.procs|, k requires 0 <= k < |s.procs| =>
            Proc(if k == st.i then PcAfter(s, st) else s.procs[k].pc, RunAfter(s, st, k), ChanAfter(s, st, k), LockAfter(s, st, k))))
  }

  /** n processes, none inside an operation, the lock free. */
  function Start(n: nat): State {
    State(false, None, None, None, seq(n, _ => Proc(Outside(false), Running, false, None)))
  }

  ghost predicate Runs(s: State, steps: seq<Step>, s': State)
    decreases |steps|
  {
    if steps == [] then s' == s
    else Enabled(s, steps[0]) && Runs(Do(s, steps[0]), steps[1..], s')
  }

  // ---- invariants ----

  /** The spinlock is held at these points. */
  predicate InSpin(pc: Pc) {
    match pc
    case AcqTest | AcqSet | AcqPid | AcqLeave | SleepEnter | SleepDrop => true
    case RelClear | RelPid | WakeAt(_) | WakeHold(_) | RelLeave | HoldTest(_) => true
    case _ => false
  }

  /** The p->lock that process `i` holds at `pc`. */
  function LockOf(pc: Pc, i: nat): Option<nat> {
    match pc
    case SleepDrop | SleepMark | SleepTidy => Some(i)
    case WakeHold(j) => Some(j)
    case _ => None
  }

  /** It has acquired the sleep lock and not yet released it. */
  predicate Owns(pc: Pc) {
    match pc
    case Outside(h) => h
    case AcqPid | AcqLeave | RelEnter | RelClear => true
    case HoldEnter(h) => h
    case HoldTest(h) => h
    case _ => false
  }

  /** Asleep on the lock, or past the point of no return: it has dropped the spinlock and will mark itself sleeping. */
  predicate Committed(p: Proc) {
    p.pc.SleepMark? || (p.pc.Asleep? && p.run.Sleeping?)
  }

  /** A process at `pc` has cleared the lock and its wakeup has not passed process `i`. */
  predicate WillWake(pc: Pc, i: nat) {
    match pc
    case RelPid => true
    case WakeAt(j) => j <= i
    case WakeHold(j) => j <= i
    case _ => false
  }

  predicate InRange(s: State) {
    && (s.spin.Some? ==> s.spin.value < |s.procs|)
    && (s.owner.Some? ==> s.owner.value < |s.procs|)
    && (s.locked <==> s.owner.Some?)
  }

  predicate SpinAt(s: State, i: nat)
    requires i < |s.procs|
  {
    InSpin(s.procs[i].pc) <==> s.spin == Some(i)
  }

  predicate OwnerAt(s: State, i: nat)
    requires i < |s.procs|
  {
    Owns(s.procs[i].pc) <==> s.owner == Some(i)
  }

  /** The pid field lags behind the owner only while the spinlock holder is about to set it. */
  predicate PidOk(s: State)
    requires InRange(s)
  {
    s.pid == s.owner || (s.spin.Some? && (s.procs[s.spin.value].pc.AcqPid? || s.procs[s.spin.value].pc.RelPid?))
  }

  /** The lock a process holds says so. */
  predicate HeldAt(s: State, i: nat)
    requires i < |s.procs|
  {
    var held := LockOf(s.procs[i].pc, i);
    held.Some? ==> held.value < |s.procs| && s.procs[held.value].lock == Some(i)
  }

  /** Whoever a lock names holds it, or has left it to the scheduler. */
  predicate TakenAt(s: State, i: nat)
    requires i < |s.procs|
  {
    var taker := s.procs[i].lock;
    && (taker.Some? ==> taker.value < |s.procs|)
    && (taker.Some? ==> LockOf(s.procs[taker.value].pc, taker.value) == Some(i) || (taker.value == i && s.procs[i].pc.Asleep?))
  }

  predicate SleeperAt(s: State, i: nat)
    requires i < |s.procs| && InRange(s)
  {
    && (Committed(s.procs[i]) ==> s.locked || (s.spin.Some? && WillWake(s.procs[s.spin.value].pc, i)))
    && (s.procs[i].run.Sleeping? ==> s.procs[i].pc.Asleep? && s.procs[i].chan)
  }

  /** What a process has tested while holding the spinlock still holds. */
  predicate TestedAt(s: State, i: nat)
    requires i < |s.procs|
  {
    var pc := s.procs[i].pc;
    && (pc.SleepEnter? || pc.SleepDrop? ==> s.locked)
    && (pc.AcqSet? ==> !s.locked)
    && (pc.WakeHold? ==> pc.j < |s.procs| && pc.j != i)
    && (pc.RelPid? || pc.WakeAt? || pc.WakeHold? || pc.RelLeave? ==> !s.locked)
  }

  predicate Good(s: State, i: nat)
    requires i < |s.procs| && InRange(s)
  {
    SpinAt(s, i) && OwnerAt(s, i) && HeldAt(s, i) && TakenAt(s, i) && SleeperAt(s, i) && TestedAt(s, i)
  }

  ghost predicate Inv(s: State) {
    InRange(s) && PidOk(s) && forall i: nat :: i < |s.procs| ==> Good(s, i)
  }

  lemma StartInv(n: nat)
    ensures Inv(Start(n))
  {
  }

  // ---- every step keeps it, process by process ----

  lemma RangeKeeps(s: State, st: Step)
    requires Enabled(s, st) && InRange(s) && OwnerAt(s, st.i) && PidOk(s) && SpinAt(s, st.i) && TestedAt(s, st.i)
    ensures InRange(Do(s, st)) && PidOk(Do(s, st))
  {
    hide LockAfter, RunAfter, ChanAfter;
  }

  lemma SpinKeeps(s: State, st: Step, k: nat)
    requires Enabled(s, st) && k < |s.procs| && SpinAt(s, st.i) && SpinAt(s, k)
    ensures SpinAt(Do(s, st), k)
  {
    hide LockAfter, RunAfter, ChanAfter, LockedAfter, OwnerAfter, PidAfter;
  }

  lemma OwnerKeeps(s: State, st: Step, k: nat)
    requires Enabled(s, st) && k < |s.procs| && OwnerAt(s, st.i) && OwnerAt(s, k) && TestedAt(s, st.i) && InRange(s)
    ensures OwnerAt(Do(s, st), k)
  {
    hide LockAfter, RunAfter, ChanAfter, SpinAfter, PidAfter;
  }

  lemma TestedKeeps(s: State, st: Step, k: nat)
    requires Enabled(s, st) && k < |s.procs| && TestedAt(s, st.i) && TestedAt(s, k) && SpinAt(s, st.i) && SpinAt(s, k)
    ensures TestedAt(Do(s, st), k)
  {
    hide LockAfter, RunAfter, ChanAfter, OwnerAfter, PidAfter, SpinAfter;
  }

  lemma HeldKeeps(s: State, st: Step, k: nat)
    requires Enabled(s, st) && k < |s.procs| && HeldAt(s, st.i) && HeldAt(s, k) && TestedAt(s, st.i)
    ensures HeldAt(Do(s, st), k)
  {
    hide RunAfter, ChanAfter, LockedAfter, OwnerAfter, PidAfter, SpinAfter;
  }

  lemma TakenKeeps(s: State, st: Step, k: nat)
    requires Enabled(s, st) && k < |s.procs| && HeldAt(s, st.i) && TakenAt(s, k) && TestedAt(s, st.i)
    ensures TakenAt(Do(s, st), k)
  {
    hide RunAfter, ChanAfter, LockedAfter, OwnerAfter, PidAfter, SpinAfter;
  }

  lemma SleeperKeeps(s: State, st: Step, k: nat)
    requires Enabled(s, st) && k < |s.procs| && InRange(s) && InRange(Do(s, st))
    requires SleeperAt(s, st.i) && SleeperAt(s, k) && SpinAt(s, st.i) && SpinAt(s, k) && HeldAt(s, k) && HeldAt(s, st.i) && TestedAt(s, st.i)
    ensures SleeperAt(Do(s, st), k)
  {
    hide OwnerAfter, PidAfter;
  }

  /** Every step keeps the invariant. */
  lemma StepKeeps(s: State, st: Step)
    requires Inv(s) && Enabled(s, st)
    ensures Inv(Do(s, st))
  {
    hide Do, InRange, PidOk, SpinAt, OwnerAt, HeldAt, TakenAt, SleeperAt, TestedAt;
    assert Good(s, st.i);
    RangeKeeps(s, st);
    forall k: nat | k < |s.procs| ensures Good(Do(s, st), k) {
      assert Good(s, k);
      SpinKeeps(s, st, k);
      OwnerKeeps(s, st, k);
      TestedKeeps(s, st, k);
      HeldKeeps(s, st, k);
      TakenKeeps(s, st, k);
      SleeperKeeps(s, st, k);
    }
  }

  lemma {:induction false} RunKeeps(s: State, steps: seq<Step>, s': State)
    requires Inv(s) && Runs(s, steps, s')
    ensures Inv(s')
    decreases |steps|
  {
    if steps != [] {
      StepKeeps(s, steps[0]);
      RunKeeps(Do(s, steps[0]), steps[1..], s');
    }
  }

  // ---- what it means ----

  /**
   In every reachable state in which the spinlock is free and the lock is not taken,
   no process is asleep on it or committed to sleeping.
   */
  lemma NoLostWakeup(n: nat, steps: seq<Step>, s: State)
    requires Runs(Start(n), steps, s) && s.spin.None? && !s.locked
    ensures forall i: nat :: i < |s.procs| ==> !Committed(s.procs[i])
  {
    StartInv(n);
    RunKeeps(Start(n), steps, s);
    forall i: nat | i < |s.procs| ensures !Committed(s.procs[i]) {
      assert Good(s, i);
    }
  }

  /**
   At any other moment a process that is asleep, or committed to it, has someone to
   wake it: the lock's owner, or a release whose wakeup has yet to reach it.
   */
  lemma SleeperHasWaker(n: nat, steps: seq<Step>, s: State, i: nat)
    requires Runs(Start(n), steps, s) && i < |s.procs| && Committed(s.procs[i])
    ensures
      || (s.owner.Some? && s.owner.value < |s.procs| && s.owner.value != i && Owns(s.procs[s.owner.value].pc))
      || (s.spin.Some? && s.spin.value < |s.procs| && s.spin.value != i && WillWake(s.procs[s.spin.value].pc, i))
  {
    StartInv(n);
    RunKeeps(Start(n), steps, s);
    assert Good(s, i);
    if s.locked {
      assert Good(s, s.owner.value);
    }
  }

  /** At most one process owns the lock, and one does exactly when it is locked. */
  lemma MutualExclusion(n: nat, steps: seq<Step>, s: State)
    requires Runs(Start(n), steps, s)
    ensures forall i: nat, j: nat :: i < |s.procs| && j < |s.procs| && Owns(s.procs[i].pc) && Owns(s.procs[j].pc) ==> i == j
    ensures s.locked <==> exists i: nat :: i < |s.procs| && Owns(s.procs[i].pc)
  {
    StartInv(n);
    RunKeeps(Start(n), steps, s);
    forall i: nat | i < |s.procs| ensures Owns(s.procs[i].pc) <==> s.owner == Some(i) {
      assert Good(s, i);
    }
    if s.locked {
      assert Owns(s.procs[s.owner.value].pc);
    }
  }

  /** holdingsleep's answer, when it reads the fields, is whether the caller owns the lock. */
  lemma HoldingExact(n: nat, steps: seq<Step>, s: State, i: nat)
    requires Runs(Start(n), steps, s) && i < |s.procs| && s.procs[i].pc.HoldTest?
    ensures s.locked && s.pid == Some(i) <==> Owns(s.procs[i].pc)
  {
    StartInv(n);
    RunKeeps(Start(n), steps, s);
    assert Good(s, i);
  }

  /** kill wakes a process that sleeps on the lock, and changes nothing else. */
  lemma KillWakes(s: State, i: nat)
    requires i < |s.procs|
    ensures Do(s, Kill(i)).procs[i].run == if s.procs[i].run.Sleeping? then Runnable else s.procs[i].run
    ensures Do(s, Kill(i)) == s.(procs := s.procs[i := s.procs[i].(run := Do(s, Kill(i)).procs[i].run)])
  {
  }
}
