/**
 What a modified buffer released without log_write does to the guarantees of
 LogSafety: exactly which blocks lose them, and runs in which they are lost.
 */
module LogFaults {
  import opened Params
  import opened Options
  import opened LogDisk
  import opened LogState
  import opened LogMachine
  import opened LogSafety

  // ---- a block over a run ----

  /** Step `t` releases block `b` modified since its last log_write. */
  ghost predicate Careless(s: State, t: Step, b: nat) {
    t.Release? && t.b == b && b in s.bufs && s.bufs[b].dirty
  }

  /** No step of the run releases `b` modified. */
  ghost predicate Careful(g: Geometry, s: State, ts: seq<Step>, b: nat)
    requires Exec(g, s, ts).Some?
    decreases |ts|
  {
    ts == [] || (!Careless(s, ts[0], b) && Careful(g, Do(g, s, ts[0]), ts[1..], b))
  }

  /** ... and none hands it to log_write either. */
  ghost predicate Quiet(g: Geometry, s: State, ts: seq<Step>, b: nat)
    requires Exec(g, s, ts).Some?
    decreases |ts|
  {
    ts == [] || (!Careless(s, ts[0], b) && !(ts[0].LogWrite? && ts[0].b == b) && Quiet(g, Do(g, s, ts[0]), ts[1..], b))
  }

  /** The commit that will write `b` is still to come. */
  predicate Awaiting(s: State, b: nat) {
    (s.phase.Running? || s.phase.Logging?) && b in s.log.lh
  }

  ghost predicate Spoilt(s: State, b: nat) {
    b in s.bufs && s.bufs[b].spoilt
  }

  /** Only a careless release spoils a buffer. */
  lemma SpoiltOnlyBy(g: Geometry, s: State, t: Step, b: nat)
    requires Enabled(g, s, t) && !Careless(s, t, b)
    ensures Spoilt(Do(g, s, t), b) ==> Spoilt(s, b)
  {
    hide Last, Clean, Handed;
  }

  lemma AwaitingWas(g: Geometry, d0: Disk, s: State, t: Step, b: nat)
    requires Inv(g, d0, s) && Enabled(g, s, t) && !(t.LogWrite? && t.b == b) && Awaiting(Do(g, s, t), b)
    ensures Awaiting(s, b) && !t.Crash?
  {
    hide SerialsOk, EpochOk, HomeOk, LogRegionOk, BufsOk, View, Last, Clean, Handed, Seen;
  }

  lemma AwaitingHeld(g: Geometry, d0: Disk, s: State, b: nat)
    requires Inv(g, d0, s) && Awaiting(s, b)
    ensures b in s.bufs && s.bufs[b].refcnt >= 1 && !g.InLog(b)
  {
    hide SerialsOk, EpochOk, HomeOk, LogRegionOk, View, Last;
    assert Pinned(s, b);
    assert BufOk(g, s, View(d0, s.groups), b);
    PinnedHome(g, s, b);
  }

  lemma SpoiltStays(g: Geometry, s: State, t: Step, b: nat)
    requires Enabled(g, s, t) && !(t.LogWrite? && t.b == b) && !Careless(s, t, b)
    requires Spoilt(s, b) && s.bufs[b].refcnt >= 1 && b != g.logstart && (t.WriteSlot? ==> b != g.Slot(s.phase.k))
    requires (s.phase.Running? || s.phase.Logging?) && !t.Crash?
    ensures Spoilt(Do(g, s, t), b)
  {
    hide Last, Clean, Handed, Seen;
  }

  /** While a block awaits its commit, only log_write mends it. */
  lemma AwaitingKeeps(g: Geometry, d0: Disk, s: State, t: Step, b: nat)
    requires Inv(g, d0, s) && Enabled(g, s, t) && !(t.LogWrite? && t.b == b) && Awaiting(Do(g, s, t), b)
    ensures Awaiting(s, b) && (Spoilt(s, b) && !Careless(s, t, b) ==> Spoilt(Do(g, s, t), b))
  {
    hide Inv, Do, Enabled;
    AwaitingWas(g, d0, s, t, b);
    AwaitingHeld(g, d0, s, b);
    if Spoilt(s, b) && !Careless(s, t, b) {
      LogBlocks(g, d0, s, t);
      SpoiltStays(g, s, t, b);
    }
  }

  lemma LogBlocks(g: Geometry, d0: Disk, s: State, t: Step)
    requires Inv(g, d0, s) && Enabled(g, s, t)
    ensures g.InLog(g.logstart) && (t.WriteSlot? ==> g.InLog(g.Slot(s.phase.k)))
  {
  }

  lemma {:induction false} QuietRun(g: Geometry, d0: Disk, s: State, ts: seq<Step>, b: nat)
    requires Inv(g, d0, s) && Exec(g, s, ts).Some? && Quiet(g, s, ts, b)
    requires Awaiting(Exec(g, s, ts).value, b)
    ensures Awaiting(s, b) && (Spoilt(Exec(g, s, ts).value, b) <==> Spoilt(s, b))
    decreases |ts|
  {
    if ts != [] {
      var s1 := Do(g, s, ts[0]);
      StepKeeps(g, d0, s, ts[0]);
      QuietRun(g, d0, s1, ts[1..], b);
      AwaitingKeeps(g, d0, s, ts[0], b);
      SpoiltOnlyBy(g, s, ts[0], b);
    }
  }

  /** Before the commit, after the last log_write or careless release of `b`, which was the step `e`. */
  ghost predicate SinceLast(g: Geometry, disk: Disk, s0: State, e: Step, ts: seq<Step>, s: State, b: nat) {
    && Reachable(g, disk, s0) && Enabled(g, s0, e) && (Careless(s0, e, b) || (e.LogWrite? && e.b == b))
    && Exec(g, Do(g, s0, e), ts) == Some(s) && Quiet(g, Do(g, s0, e), ts, b)
    && Enabled(g, s, WriteSlot) && s.log.lh[s.phase.k] == b
  }

  /**
   The slot of `b` gets the contents last handed to log_write exactly when no release
   after that log_write left other contents in the buffer.
   */
  lemma SlotHoldsHandedIff(g: Geometry, disk: Disk, s0: State, e: Step, ts: seq<Step>, s: State, b: nat)
    requires SinceLast(g, disk, s0, e, ts, s, b)
    ensures b < |s0.disk| && b in s0.bufs
    ensures LastHanded(s.epoch, b) == Some(Seen(s, b)) <==> e.LogWrite? || s0.bufs[b].data == Clean(s0, b)
  {
    hide HomeOk, LogRegionOk, EpochOk, BufOk, View, Last, Handed, SerialsOk;
    var d0, s1 := Replay(g, disk), Do(g, s0, e);
    ReachableInv(g, disk, s0);
    StepKeeps(g, d0, s0, e);
    ExecKeeps(g, d0, s1, ts);
    QuietRun(g, d0, s1, ts, b);
    WriteSlotSource(g, d0, s);
    assert BufOk(g, s0, View(d0, s0.groups), b);
    OnDisk(g, d0, s0, b);
  }

  lemma OnDisk(g: Geometry, d0: Disk, s: State, b: nat)
    requires Inv(g, d0, s) && b in s.bufs
    ensures b < |s.disk|
  {
    assert BufOk(g, s, View(d0, s.groups), b);
  }

  /** No step of the run recycles the buffer of `b` or is a crash. */
  predicate Stays(ts: seq<Step>, b: nat) {
    forall i :: 0 <= i < |ts| ==> ts[i] != Evict(b) && !ts[i].Crash?
  }

  /** A spoilt buffer of a block that is not logged stays so. */
  lemma UnloggedStays(g: Geometry, d0: Disk, s: State, t: Step, b: nat)
    requires Inv(g, d0, s) && Enabled(g, s, t) && !Careless(s, t, b) && !(t.LogWrite? && t.b == b)
    requires t != Evict(b) && !t.Crash? && UserPhase(s) && Spoilt(s, b) && b !in s.log.lh
    ensures UserPhase(Do(g, s, t)) && Spoilt(Do(g, s, t), b) && b !in Do(g, s, t).log.lh
  {
    hide SerialsOk, EpochOk, HomeOk, LogRegionOk, BufsOk, View, Last, Clean, Handed, Seen;
    SpoiltHome(g, d0, s, b);
    if (t.WriteSlot? || t.InstallOne?) {
      assert g.InLog(g.Slot(s.phase.k));
    }
  }

  /** The committer's buffers of the log region are never spoilt. */
  lemma SpoiltHome(g: Geometry, d0: Disk, s: State, b: nat)
    requires Inv(g, d0, s) && Spoilt(s, b)
    ensures !g.InLog(b)
  {
    assert BufOk(g, s, View(d0, s.groups), b);
  }

  lemma {:induction false} UnloggedRun(g: Geometry, d0: Disk, s: State, ts: seq<Step>, b: nat)
    requires Inv(g, d0, s) && Exec(g, s, ts).Some? && Quiet(g, s, ts, b) && Stays(ts, b)
    requires UserPhase(s) && b !in s.log.lh
    ensures Spoilt(s, b) ==> Spoilt(Exec(g, s, ts).value, b)
    ensures Spoilt(Exec(g, s, ts).value, b) ==> Spoilt(s, b)
    decreases |ts|
  {
    if ts != [] {
      var s1 := Do(g, s, ts[0]);
      StepKeeps(g, d0, s, ts[0]);
      SpoiltOnlyBy(g, s, ts[0], b);
      NeverSpoilt(g, s, ts, b);
      if Spoilt(s, b) {
        UnloggedStays(g, d0, s, ts[0], b);
        assert Stays(ts[1..], b);
        UnloggedRun(g, d0, s1, ts[1..], b);
      }
    }
  }

  lemma {:induction false} NeverSpoilt(g: Geometry, s: State, ts: seq<Step>, b: nat)
    requires Exec(g, s, ts).Some? && Quiet(g, s, ts, b)
    ensures Spoilt(Exec(g, s, ts).value, b) ==> Spoilt(s, b)
    decreases |ts|
  {
    if ts != [] {
      SpoiltOnlyBy(g, s, ts[0], b);
      NeverSpoilt(g, Do(g, s, ts[0]), ts[1..], b);
    }
  }

  /**
   After a careless release of a block that is not logged, its unreferenced buffer
   equals the disk exactly when the release left what is on the disk.
   */
  lemma UnreferencedIff(g: Geometry, disk: Disk, s0: State, e: Step, ts: seq<Step>, s: State, b: nat)
    requires Reachable(g, disk, s0) && Enabled(g, s0, e) && Careless(s0, e, b) && b !in s0.log.lh
    requires Exec(g, Do(g, s0, e), ts) == Some(s) && Quiet(g, Do(g, s0, e), ts, b) && Stays(ts, b)
    requires b in s.bufs && s.bufs[b].refcnt == 0 && s.bufs[b].valid
    ensures b < |s0.disk| && b < |s.disk| && (s.bufs[b].data == s.disk[b] <==> s0.bufs[b].data == s0.disk[b])
  {
    hide HomeOk, LogRegionOk, View, Last, Handed, SerialsOk;
    var d0, s1 := Replay(g, disk), Do(g, s0, e);
    ReachableInv(g, disk, s0);
    StepKeeps(g, d0, s0, e);
    assert BufOk(g, s0, View(d0, s0.groups), b);
    UnloggedRun(g, d0, s1, ts, b);
    ExecKeeps(g, d0, s1, ts);
    assert BufOk(g, s, View(d0, s.groups), b);
  }

  // ---- blocks that are always handed over ----

  predicate HandedAll(rs: seq<Rec>, b: nat) {
    forall r :: r in rs && r.block == b ==> r.handed
  }

  lemma {:induction false} HandedAllLast(rs: seq<Rec>, b: nat)
    requires HandedAll(rs, b)
    ensures Last(rs, b) == LastHanded(rs, b)
    decreases |rs|
  {
    if rs != [] {
      var init, r := rs[..|rs| - 1], rs[|rs| - 1];
      assert rs == init + [r];
      HandedAllLast(init, b);
      LastSnoc(init, r, b);
      HandedSnoc(init, r, b);
    }
  }

  lemma {:induction false} HandedAllSettled(gs: seq<seq<Rec>>, b: nat)
    requires forall i :: 0 <= i < |gs| ==> HandedAll(gs[i], b)
    ensures Settled(gs, b)
    decreases |gs|
  {
    if gs != [] {
      HandedAllLast(gs[|gs| - 1], b);
      HandedAllSettled(gs[..|gs| - 1], b);
    }
  }

  /** Every change of `b` in the run so far was handed to log_write. */
  ghost predicate AllHanded(s: State, b: nat) {
    && HandedAll(s.issued, b) && HandedAll(s.epoch, b)
    && (forall i :: 0 <= i < |s.groups| ==> HandedAll(s.groups[i], b))
    && !Spoilt(s, b)
  }

  lemma CarefulStep(g: Geometry, s: State, t: Step, b: nat)
    requires Enabled(g, s, t) && !Careless(s, t, b) && AllHanded(s, b)
    ensures AllHanded(Do(g, s, t), b)
  {
    hide Last, Clean, Handed;
    SpoiltOnlyBy(g, s, t, b);
  }

  lemma {:induction false} CarefulRun(g: Geometry, s: State, ts: seq<Step>, b: nat)
    requires Exec(g, s, ts).Some? && Careful(g, s, ts, b) && AllHanded(s, b)
    ensures AllHanded(Exec(g, s, ts).value, b)
    decreases |ts|
  {
    if ts != [] {
      CarefulStep(g, s, ts[0], b);
      CarefulRun(g, Do(g, s, ts[0]), ts[1..], b);
    }
  }

  /** A block that no operation releases modified keeps every guarantee, whatever is done to the others. */
  lemma CarefulBlock(g: Geometry, disk: Disk, ts: seq<Step>, b: nat)
    requires DiskValid(g, disk) && Exec(g, Init(disk), ts).Some? && Careful(g, Init(disk), ts, b)
    ensures
      var s := Exec(g, Init(disk), ts).value;
      && AllHanded(s, b) && Reachable(g, disk, s) && Settled(s.groups, b)
      && (Enabled(g, s, WriteSlot) && s.log.lh[s.phase.k] == b ==> LastHanded(s.epoch, b) == Some(Seen(s, b)))
      && (b in s.bufs && s.bufs[b].refcnt == 0 && s.bufs[b].valid ==> b < |s.disk| && s.bufs[b].data == s.disk[b])
  {
    hide Inv, Handed, Last;
    var s := Exec(g, Init(disk), ts).value;
    CarefulRun(g, Init(disk), ts, b);
    assert Exec(g, Init(disk), ts) == Some(s);
    ReachableInv(g, disk, s);
    HandedAllSettled(s.groups, b);
    if Enabled(g, s, WriteSlot) && s.log.lh[s.phase.k] == b {
      WriteSlotSource(g, Replay(g, disk), s);
    }
    if b in s.bufs && s.bufs[b].refcnt == 0 && s.bufs[b].valid {
      UnreferencedMatchesDisk(g, disk, s, b);
    }
  }

  // ---- what a recovery yields, in terms of log_writes alone ----

  function HandedGroups(gs: seq<seq<Rec>>): (r: seq<seq<Rec>>)
    ensures |r| == |gs|
  {
    seq(|gs|, i requires 0 <= i < |gs| => Handed(gs[i]))
  }

  /** The last group that changes `b` ends with what log_write was handed. */
  ghost predicate Settled(gs: seq<seq<Rec>>, b: nat)
    decreases |gs|
  {
    gs == []
    || var last := gs[|gs| - 1];
       if Last(last, b).None? then Settled(gs[..|gs| - 1], b) else Last(last, b) == LastHanded(last, b)
  }

  /** Every block that a group changes was handed to log_write in that group. */
  ghost predicate HandedToo(gs: seq<seq<Rec>>) {
    forall i: nat, b: nat :: i < |gs| && Last(gs[i], b).Some? ==> LastHanded(gs[i], b).Some?
  }

  lemma {:induction false} HandedWas(rs: seq<Rec>, b: nat)
    ensures LastHanded(rs, b).Some? ==> Last(rs, b).Some?
    decreases |rs|
  {
    if rs != [] {
      var init, r := rs[..|rs| - 1], rs[|rs| - 1];
      assert rs == init + [r];
      HandedWas(init, b);
      LastSnoc(init, r, b);
      HandedSnoc(init, r, b);
    }
  }

  lemma {:induction false} HandedViewIff(d: Disk, gs: seq<seq<Rec>>, b: nat)
    requires b < |d| && HandedToo(gs)
    ensures View(d, gs)[b] == View(d, HandedGroups(gs))[b] <==> Settled(gs, b)
    decreases |gs|
  {
    if gs != [] {
      var init, last := gs[..|gs| - 1], gs[|gs| - 1];
      assert HandedToo(init) by {
        forall i: nat, c: nat | i < |init| && Last(init[i], c).Some? ensures LastHanded(init[i], c).Some? {
          assert init[i] == gs[i];
        }
      }
      HandedViewIff(d, init, b);
      assert HandedGroups(gs) == HandedGroups(init) + [Handed(last)];
      ViewSnoc(d, HandedGroups(init), Handed(last));
      ApplyRecsAt(View(d, init), last, b);
      ApplyRecsAt(View(d, HandedGroups(init)), Handed(last), b);
      HandedWas(last, b);
      assert Last(last, b).Some? ==> LastHanded(last, b).Some?;
    }
  }

  lemma GroupsStep(g: Geometry, d0: Disk, s: State, t: Step)
    requires Inv(g, d0, s) && Enabled(g, s, t) && HandedToo(s.groups)
    ensures HandedToo(Do(g, s, t).groups)
  {
    hide SerialsOk, BufsOk, HomeOk, LogRegionOk, View, Last, Handed, LastHanded, Clean;
    var gs, gs' := s.groups, Do(g, s, t).groups;
    if t.WriteHead? {
      forall i: nat, b: nat | i < |gs'| && Last(gs'[i], b).Some? ensures LastHanded(gs'[i], b).Some? {
        if i < |gs| {
          assert gs'[i] == gs[i];
        } else {
          assert gs'[i] == s.epoch;
        }
      }
    } else {
      assert gs' == gs;
    }
  }

  lemma {:induction false} GroupsRun(g: Geometry, d0: Disk, s: State, ts: seq<Step>)
    requires Inv(g, d0, s) && Exec(g, s, ts).Some? && HandedToo(s.groups)
    ensures HandedToo(Exec(g, s, ts).value.groups)
    decreases |ts|
  {
    if ts != [] {
      GroupsStep(g, d0, s, ts[0]);
      StepKeeps(g, d0, s, ts[0]);
      GroupsRun(g, d0, Do(g, s, ts[0]), ts[1..]);
    }
  }

  /**
   A recovered home block is what the committed groups' log_writes alone make of it
   exactly when the last group to change it ended with what log_write was handed.
   */
  lemma RecoveredIsHandedIff(g: Geometry, disk: Disk, s: State, b: nat)
    requires Reachable(g, disk, s) && g.Home(b)
    ensures b < |disk| && b < |s.disk| && DiskValid(g, s.disk)
    ensures Replay(g, s.disk)[b] == View(Replay(g, disk), HandedGroups(s.groups))[b] <==> Settled(s.groups, b)
  {
    hide Last, Handed;
    RecoveredDiskIsPrefixOfGroups(g, disk, s);
    var ts :| Exec(g, Init(disk), ts) == Some(s);
    assert Inv(g, Replay(g, disk), Init(disk));
    GroupsRun(g, Replay(g, disk), Init(disk), ts);
    HandedViewIff(Replay(g, disk), s.groups, b);
  }

  lemma {:induction false} GroupsGrow(g: Geometry, s: State, ts: seq<Step>)
    requires Exec(g, s, ts).Some?
    ensures s.groups <= Exec(g, s, ts).value.groups
    decreases |ts|
  {
    hide Clean, Last, Handed;
    if ts != [] {
      assert s.groups <= Do(g, s, ts[0]).groups;
      GroupsGrow(g, Do(g, s, ts[0]), ts[1..]);
    }
  }

  /** No group from the `n`-th on changes `b`. */
  ghost predicate UnchangedFrom(gs: seq<seq<Rec>>, n: nat, b: nat) {
    forall i :: n <= i < |gs| ==> Last(gs[i], b).None?
  }

  lemma {:induction false} SettledLater(gs: seq<seq<Rec>>, more: seq<seq<Rec>>, b: nat)
    requires gs <= more && UnchangedFrom(more, |gs|, b)
    ensures Settled(more, b) <==> Settled(gs, b)
    decreases |more|
  {
    hide Last, Handed;
    if |more| == |gs| {
      assert more == gs;
    } else {
      assert Last(more[|more| - 1], b).None?;
      SettledLater(gs, more[..|more| - 1], b);
    }
  }

  /** The step `e` is the last log_write or careless release of `b` before a commit of it that the state `s` is about to make. */
  ghost predicate LastBeforeCommit(g: Geometry, disk: Disk, s0: State, e: Step, ts: seq<Step>, s: State, b: nat) {
    && Reachable(g, disk, s0) && Enabled(g, s0, e) && (Careless(s0, e, b) || (e.LogWrite? && e.b == b))
    && Exec(g, Do(g, s0, e), ts) == Some(s) && Quiet(g, Do(g, s0, e), ts, b)
    && Enabled(g, s, WriteHead) && b in s.log.lh
  }

  /** The group that commits `b` ends with what log_write was handed exactly when the last of those steps left it so. */
  lemma GroupHandedIff(g: Geometry, disk: Disk, s0: State, e: Step, ts: seq<Step>, s: State, b: nat)
    requires LastBeforeCommit(g, disk, s0, e, ts, s, b)
    ensures b < |s0.disk| && b in s0.bufs && Last(s.epoch, b).Some?
    ensures Last(s.epoch, b) == LastHanded(s.epoch, b) <==> e.LogWrite? || s0.bufs[b].data == Clean(s0, b)
  {
    hide HomeOk, LogRegionOk, EpochOk, BufOk, View, Last, Handed, LastHanded, SerialsOk;
    var d0, s1 := Replay(g, disk), Do(g, s0, e);
    ReachableInv(g, disk, s0);
    StepKeeps(g, d0, s0, e);
    ExecKeeps(g, d0, s1, ts);
    QuietRun(g, d0, s1, ts, b);
    AwaitingHeld(g, d0, s, b);
    CommittedData(g, d0, s, b);
    assert BufOk(g, s0, View(d0, s0.groups), b);
    OnDisk(g, d0, s0, b);
  }

  /** A block about to be committed holds the last change to it. */
  lemma CommittedData(g: Geometry, d0: Disk, s: State, b: nat)
    requires Inv(g, d0, s) && Enabled(g, s, WriteHead) && b in s.log.lh && b in s.bufs
    ensures Last(s.epoch, b).Some? && (Last(s.epoch, b) == LastHanded(s.epoch, b) <==> !Spoilt(s, b))
  {
    hide HomeOk, LogRegionOk, View, Last, Handed, LastHanded, SerialsOk;
    assert Pinned(s, b) && BufOk(g, s, View(d0, s.groups), b);
  }

  /**
   After a commit of `b`, and until a later commit changes it, whatever else happens and
   wherever a crash falls, the recovered block is what the log_writes alone make of it
   exactly when the last log_write or modified release before that commit was a log_write,
   or a release that left what had been handed over.
   */
  lemma RecoveredBlockIff(g: Geometry, disk: Disk, s0: State, e: Step, ts: seq<Step>, s: State, us: seq<Step>, s2: State, b: nat)
    requires LastBeforeCommit(g, disk, s0, e, ts, s, b)
    requires Exec(g, Do(g, s, WriteHead), us) == Some(s2) && UnchangedFrom(s2.groups, |s.groups| + 1, b)
    ensures b < |disk| && b < |s2.disk| && DiskValid(g, s2.disk) && b < |s0.disk| && b in s0.bufs
    ensures Replay(g, s2.disk)[b] == View(Replay(g, disk), HandedGroups(s2.groups))[b]
       <==> e.LogWrite? || s0.bufs[b].data == Clean(s0, b)
  {
    hide Last, Handed, LastHanded, Inv, Clean, Quiet, Careless;
    GroupHandedIff(g, disk, s0, e, ts, s, b);
    CommitReaches(g, disk, s0, e, ts, s, us, s2, b);
    var gs := s.groups + [s.epoch];
    assert Do(g, s, WriteHead).groups == gs;
    GroupsGrow(g, Do(g, s, WriteHead), us);
    SettledLater(gs, s2.groups, b);
    assert gs[|gs| - 1] == s.epoch;
    RecoveredIsHandedIff(g, disk, s2, b);
  }

  lemma CommitReaches(g: Geometry, disk: Disk, s0: State, e: Step, ts: seq<Step>, s: State, us: seq<Step>, s2: State, b: nat)
    requires LastBeforeCommit(g, disk, s0, e, ts, s, b) && Exec(g, Do(g, s, WriteHead), us) == Some(s2)
    ensures Reachable(g, disk, s2) && g.Home(b)
  {
    hide Last, Handed, LastHanded, Clean, Do, Enabled, BufsOk, SerialsOk, EpochOk, HomeOk, LogRegionOk;
    ReachStep(g, disk, s0, e);
    ReachRun(g, disk, Do(g, s0, e), ts);
    ReachableInv(g, disk, s);
    ReachStep(g, disk, s, WriteHead);
    ReachRun(g, disk, Do(g, s, WriteHead), us);
  }

  lemma {:induction false} ReachRun(g: Geometry, disk: Disk, s: State, ts: seq<Step>)
    requires Reachable(g, disk, s) && Exec(g, s, ts).Some?
    ensures Reachable(g, disk, Exec(g, s, ts).value)
    decreases |ts|
  {
    hide Do, Enabled;
    if ts != [] {
      ReachStep(g, disk, s, ts[0]);
      ReachRun(g, disk, Do(g, s, ts[0]), ts[1..]);
    }
  }

  // ---- runs in which a guarantee is lost ----

  lemma ExecSnoc(g: Geometry, s: State, ts: seq<Step>, t: Step)
    requires Exec(g, s, ts).Some? && Enabled(g, Exec(g, s, ts).value, t)
    ensures Exec(g, s, ts + [t]) == Some(Do(g, Exec(g, s, ts).value, t))
    decreases |ts|
  {
    if ts != [] {
      assert (ts + [t])[1..] == ts[1..] + [t];
      ExecSnoc(g, Do(g, s, ts[0]), ts[1..], t);
    }
  }

  lemma ReachStep(g: Geometry, disk: Disk, s: State, t: Step)
    requires Reachable(g, disk, s) && Enabled(g, s, t)
    ensures Reachable(g, disk, Do(g, s, t))
  {
    hide Inv;
    var ts :| Exec(g, Init(disk), ts) == Some(s);
    ExecSnoc(g, Init(disk), ts, t);
  }

  /** A mounted file system whose log was empty. */
  function Mounted(g: Geometry, disk: Disk): State
    requires g.logstart < |disk|
  {
    var head := PutHead(disk[g.logstart], []);
    State(disk[g.logstart := head], map[g.logstart := Idle(head)], LogState([], 0, false), Running, map[], 0, 0, [], [], [])
  }

  lemma MountReachable(g: Geometry, disk: Disk)
    requires DiskValid(g, disk) && Head(g, disk) == []
    ensures Reachable(g, disk, Mounted(g, disk))
  {
    var s0, s1 := Init(disk), Do(g, Init(disk), ReadHead);
    assert Exec(g, s0, []) == Some(s0);
    ReachStep(g, disk, s0, ReadHead);
    ReachStep(g, disk, s1, RecoverErase);
    assert Do(g, s1, RecoverErase) == Mounted(g, disk);
  }

  /** Operation 0, by process 1, holds `b`, not cached before, after mounting. */
  function Held(g: Geometry, disk: Disk, b: nat): State
    requires g.logstart < |disk| && b < |disk|
  {
    var m := Mounted(g, disk);
    m.(log := LogState([], 1, false), ops := map[1 := 0], nextOp := 1,
       bufs := m.bufs[b := Buf(disk[b], true, 1, {1}, Some(1), false, false)])
  }

  lemma HeldReachable(g: Geometry, disk: Disk, b: nat)
    requires DiskValid(g, disk) && Head(g, disk) == [] && g.Home(b)
    ensures Reachable(g, disk, Held(g, disk, b))
  {
    var m := Mounted(g, disk);
    MountReachable(g, disk);
    ReachStep(g, disk, m, BeginOp(1));
    var s1 := Do(g, m, BeginOp(1));
    ReachStep(g, disk, s1, Get(1, b, disk[b]));
    var s2 := Do(g, s1, Get(1, b, disk[b]));
    ReachStep(g, disk, s2, Lock(1, b));
    var s3, h := Do(g, s2, Lock(1, b)), Held(g, disk, b);
    assert {} + {1} == {1};
    assert s3.bufs[b] == h.bufs[b];
    assert s3.bufs == h.bufs;
    assert s3 == h;
  }

  /** A failing write to a block that is not logged: its unreferenced buffer is not what is on the disk. */
  lemma SpoiltUnreferenced(g: Geometry, disk: Disk, b: nat, x: Block) returns (s: State)
    requires DiskValid(g, disk) && Head(g, disk) == [] && g.Home(b) && x != disk[b]
    ensures Reachable(g, disk, s) && b in s.bufs && s.bufs[b].valid && s.bufs[b].refcnt == 0
    ensures b < |s.disk| && s.bufs[b].data == x != s.disk[b]
  {
    var h := Held(g, disk, b);
    HeldReachable(g, disk, b);
    ReachStep(g, disk, h, Modify(1, b, x));
    var s1 := Do(g, h, Modify(1, b, x));
    ReachStep(g, disk, s1, Release(1, b));
    s := Do(g, s1, Release(1, b));
  }

  /** As Held, after changing the block to `x` and handing it to log_write. */
  function LoggedHeld(g: Geometry, disk: Disk, b: nat, x: Block): State
    requires g.logstart < |disk| && b < |disk|
  {
    var h, r := Held(g, disk, b), Rec(0, b, x, true);
    h.(log := LogState([b], 1, false), bufs := h.bufs[b := Buf(x, true, 2, {1}, Some(1), false, false)],
       epoch := [r], issued := [r])
  }

  lemma LoggedReachable(g: Geometry, disk: Disk, b: nat, x: Block)
    requires DiskValid(g, disk) && Head(g, disk) == [] && g.Home(b)
    ensures Reachable(g, disk, LoggedHeld(g, disk, b, x))
  {
    hide Reachable, Last, Handed, LastHanded, Clean;
    var h, l := Held(g, disk, b), LoggedHeld(g, disk, b, x);
    HeldReachable(g, disk, b);
    ReachStep(g, disk, h, Modify(1, b, x));
    var s1 := Do(g, h, Modify(1, b, x));
    ReachStep(g, disk, s1, LogWrite(1, b));
    var s2 := Do(g, s1, LogWrite(1, b));
    assert [] + [b] == [b] && [] + [Rec(0, b, x, true)] == [Rec(0, b, x, true)];
    assert s2.bufs[b] == l.bufs[b];
    assert s2.bufs == l.bufs;
    assert s2 == l;
  }

  /** ... and after a second change, to `y`, released without log_write. */
  function SpoiltState(g: Geometry, disk: Disk, b: nat, x: Block, y: Block): State
    requires g.logstart < |disk| && b < |disk|
  {
    var l, rs := LoggedHeld(g, disk, b, x), [Rec(0, b, x, true), Rec(0, b, y, false)];
    l.(bufs := l.bufs[b := Buf(y, true, 1, {}, None, false, true)], epoch := rs, issued := rs)
  }

  lemma HandedFirst(b: nat, x: Block, y: Block)
    ensures LastHanded([Rec(0, b, x, true)], b) == LastHanded([Rec(0, b, x, true), Rec(0, b, y, false)], b) == Some(x)
  {
    var r, q := Rec(0, b, x, true), Rec(0, b, y, false);
    assert [] + [r] == [r] && [r] + [q] == [r, q];
    HandedSnoc([], r, b);
    HandedSnoc([r], q, b);
  }

  lemma SpoiltReachable(g: Geometry, disk: Disk, b: nat, x: Block, y: Block)
    requires DiskValid(g, disk) && Head(g, disk) == [] && g.Home(b) && x != y
    ensures Reachable(g, disk, SpoiltState(g, disk, b, x, y))
  {
    hide Last, LastHanded, Handed, Reachable;
    var l, p := LoggedHeld(g, disk, b, x), SpoiltState(g, disk, b, x, y);
    LoggedReachable(g, disk, b, x);
    ReachStep(g, disk, l, Modify(1, b, y));
    var s1 := Do(g, l, Modify(1, b, y));
    ReachStep(g, disk, s1, Release(1, b));
    var s2 := Do(g, s1, Release(1, b));
    HandedFirst(b, x, y);
    assert {1} - {1} == {};
    assert s2.bufs[b] == p.bufs[b];
    assert s2.bufs == p.bufs;
    assert s2 == p;
  }

  /** A failing write to a block just logged: its slot gets what no log_write handed over. */
  lemma SpoiltSlot(g: Geometry, disk: Disk, b: nat, x: Block, y: Block) returns (s: State)
    requires DiskValid(g, disk) && Head(g, disk) == [] && g.Home(b) && x != y
    ensures Reachable(g, disk, s) && s.phase == Logging(1) && s.log.lh == [b] && g.Slot(0) < |s.disk|
    ensures LastHanded(s.epoch, b) == Some(x) && s.disk[g.Slot(0)] == y
  {
    hide Last, LastHanded, Handed, Reachable, Clean;
    var p := SpoiltState(g, disk, b, x, y);
    SpoiltReachable(g, disk, b, x, y);
    HandedFirst(b, x, y);
    ReachStep(g, disk, p, EndOp(1));
    var s1 := Do(g, p, EndOp(1));
    assert g.InLog(g.Slot(0)) && s1.bufs[b].data == y;
    ReachStep(g, disk, s1, WriteSlot);
    s := Do(g, s1, WriteSlot);
  }
}
