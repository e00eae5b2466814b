/** Every step of LogMachine keeps the invariant; what that means for whole runs. */
module LogSafety {
  import opened Params
  import opened Options
  import opened LogDisk
  import opened LogState
  import opened LogMachine

  // ---- operations and buffers ----

  lemma BeginKeeps(g: Geometry, d0: Disk, s: State, p: Pid)
    requires Inv(g, d0, s) && Enabled(g, s, BeginOp(p))
    ensures Inv(g, d0, Do(g, s, BeginOp(p)))
  {
    var s' := Do(g, s, BeginOp(p));
    var view := View(d0, s.groups);
    forall b | b in s'.bufs ensures BufOk(g, s', view, b) {
      assert BufOk(g, s, view, b);
    }
    forall i | 0 <= i < |s.groups| ensures GroupOk(s', i) {
      assert GroupOk(s, i);
      forall r | r in s.groups[i] ensures Whole(s', i, r.op) {
        assert Whole(s, i, r.op);
      }
    }
  }

  lemma EndBuf(g: Geometry, d0: Disk, s: State, p: Pid, b: nat)
    requires Inv(g, d0, s) && Enabled(g, s, EndOp(p)) && b in s.bufs
    ensures BufOk(g, Do(g, s, EndOp(p)), View(d0, s.groups), b)
  {
    hide SerialsOk, EpochOk, HomeOk, LogRegionOk, View, Last;
    assert BufOk(g, s, View(d0, s.groups), b);
  }

  lemma EndRegions(g: Geometry, d0: Disk, s: State, p: Pid)
    requires Inv(g, d0, s) && Enabled(g, s, EndOp(p))
    ensures
      var s', view := Do(g, s, EndOp(p)), View(d0, s.groups);
      EpochOk(s') && HomeOk(g, s', view) && LogRegionOk(g, s', view)
  {
    hide BufsOk, SerialsOk, View, Handed;
    if s.epoch != [] {
      assert Last(s.epoch, s.epoch[|s.epoch| - 1].block).Some?;
    }
  }

  lemma EndKeeps(g: Geometry, d0: Disk, s: State, p: Pid)
    requires Inv(g, d0, s) && Enabled(g, s, EndOp(p))
    ensures Inv(g, d0, Do(g, s, EndOp(p)))
  {
    hide BufOk, View, EpochOk, HomeOk, LogRegionOk;
    var s' := Do(g, s, EndOp(p));
    var view := View(d0, s.groups);
    EndRegions(g, d0, s, p);
    assert s.ops.Keys == s'.ops.Keys + {p};
    assert |s.ops.Keys| == |s'.ops.Keys| + 1;
    forall b | b in s'.bufs ensures BufOk(g, s', view, b) {
      EndBuf(g, d0, s, p, b);
    }
    GroupsKept(s, s');
  }

  /** The group clauses look only at groups, base and issued. */
  lemma GroupsKept(s: State, s': State)
    requires s'.groups == s.groups && s'.issued == s.issued && s'.base >= s.base
    ensures forall i :: 0 <= i < |s.groups| && GroupOk(s, i) ==> GroupOk(s', i)
  {
    forall i | 0 <= i < |s.groups| && GroupOk(s, i) ensures GroupOk(s', i) {
      forall r | r in s.groups[i] ensures Whole(s', i, r.op) {
        assert Whole(s, i, r.op);
      }
    }
  }

  lemma GetKeeps(g: Geometry, d0: Disk, s: State, p: Pid, b: nat, junk: Block)
    requires Inv(g, d0, s) && Enabled(g, s, Get(p, b, junk))
    ensures Inv(g, d0, Do(g, s, Get(p, b, junk)))
  {
    var s' := Do(g, s, Get(p, b, junk));
    BufferStepKeeps(g, d0, s, s', b);
  }

  lemma LockKeeps(g: Geometry, d0: Disk, s: State, p: Pid, b: nat)
    requires Inv(g, d0, s) && Enabled(g, s, Lock(p, b))
    ensures Inv(g, d0, Do(g, s, Lock(p, b)))
  {
    var s' := Do(g, s, Lock(p, b));
    assert BufOk(g, s, View(d0, s.groups), b);
    BufferStepKeeps(g, d0, s, s', b);
  }

  lemma ReleaseBuf(g: Geometry, d0: Disk, s: State, p: Pid, b: nat, c: nat)
    requires Inv(g, d0, s) && Enabled(g, s, Release(p, b)) && c in s.bufs
    ensures BufOk(g, Do(g, s, Release(p, b)), View(d0, s.groups), c)
  {
    hide SerialsOk, HomeOk, LogRegionOk, View, Last, LastHanded;
    var s', r := Do(g, s, Release(p, b)), Rec(if p in s.ops then s.ops[p] else 0, b, s.bufs[b].data, false);
    assert BufOk(g, s, View(d0, s.groups), b);
    assert BufOk(g, s, View(d0, s.groups), c);
    LastSnoc(s.epoch, r, c);
    HandedSnoc(s.epoch, r, c);
  }

  lemma ReleaseKeeps(g: Geometry, d0: Disk, s: State, p: Pid, b: nat)
    requires Inv(g, d0, s) && Enabled(g, s, Release(p, b))
    ensures Inv(g, d0, Do(g, s, Release(p, b)))
  {
    hide HomeBufOk, View, SerialsOk;
    var s' := Do(g, s, Release(p, b));
    var view := View(d0, s.groups);
    forall c | c in s'.bufs ensures BufOk(g, s', view, c) {
      ReleaseBuf(g, d0, s, p, b, c);
    }
    if s'.epoch == s.epoch {
      SerialsKept(s, s');
    } else {
      var r := Rec(s.ops[p], b, s.bufs[b].data, false);
      RecordEpoch(s, s', r);
      RecordSerials(s, s', p, r);
    }
  }

  lemma SerialsKept(s: State, s': State)
    requires SerialsOk(s) && s'.groups == s.groups && s'.issued == s.issued && s'.base == s.base
    requires s'.epoch == s.epoch && s'.ops == s.ops && s'.nextOp == s.nextOp
    ensures SerialsOk(s')
  {
    GroupsKept(s, s');
  }

  /** A change recorded for a logged block leaves the log listing what the epoch changes. */
  lemma RecordEpoch(s: State, s': State, r: Rec)
    requires EpochOk(s) && s.phase.Running? && s'.phase.Running? && s'.epoch == s.epoch + [r]
    requires s'.log.lh == Logged(s.log, r.block).lh && (r.handed || r.block in s.log.lh)
    ensures EpochOk(s')
  {
    hide Last, LastHanded;
    forall c: nat
      ensures (c in s'.log.lh <==> Last(s'.epoch, c).Some?) && (c in s'.log.lh <==> LastHanded(s'.epoch, c).Some?)
    {
      LastSnoc(s.epoch, r, c);
      HandedSnoc(s.epoch, r, c);
    }
  }

  lemma RecordSerials(s: State, s': State, p: Pid, r: Rec)
    requires SerialsOk(s) && s'.groups == s.groups && s'.base == s.base && s'.ops == s.ops && s'.nextOp == s.nextOp
    requires s'.epoch == s.epoch + [r] && s'.issued == s.issued + [r] && p in s.ops && r.op == s.ops[p]
    ensures SerialsOk(s')
  {
    forall i | 0 <= i < |s.groups| ensures GroupOk(s', i) {
      assert GroupOk(s, i);
      forall r | r in s.groups[i] ensures Whole(s', i, r.op) {
        assert Whole(s, i, r.op);
      }
    }
  }

  lemma ModifyKeeps(g: Geometry, d0: Disk, s: State, p: Pid, b: nat, data: Block)
    requires Inv(g, d0, s) && Enabled(g, s, Modify(p, b, data))
    ensures Inv(g, d0, Do(g, s, Modify(p, b, data)))
  {
    var s' := Do(g, s, Modify(p, b, data));
    assert BufOk(g, s, View(d0, s.groups), b);
    BufferStepKeeps(g, d0, s, s', b);
  }

  /** A step that only changes the buffer of `b` need only keep that buffer sound. */
  lemma BufferStepKeeps(g: Geometry, d0: Disk, s: State, s': State, b: nat)
    requires Inv(g, d0, s)
    requires b in s'.bufs && s' == s.(bufs := s.bufs[b := s'.bufs[b]])
    requires !s.phase.Booted?
    requires BufOk(g, s', View(d0, s.groups), b)
    ensures Inv(g, d0, s')
  {
    var view := View(d0, s.groups);
    forall c | c in s'.bufs ensures BufOk(g, s', view, c) {
      if c != b {
        assert BufOk(g, s, view, c);
      }
    }
    GroupsKept(s, s');
  }

  lemma EvictKeeps(g: Geometry, d0: Disk, s: State, b: nat)
    requires Inv(g, d0, s) && Enabled(g, s, Evict(b))
    ensures Inv(g, d0, Do(g, s, Evict(b)))
  {
    var s' := Do(g, s, Evict(b));
    var view := View(d0, s.groups);
    assert BufOk(g, s, view, b);
    PinnedHome(g, s, b);
    assert !Pinned(s, b);
    forall c | c in s'.bufs ensures BufOk(g, s', view, c) {
      assert BufOk(g, s, view, c);
    }
    GroupsKept(s, s');
  }

  /** Only home blocks are pinned. */
  lemma PinnedHome(g: Geometry, s: State, b: nat)
    requires ControlOk(g, s)
    ensures Pinned(s, b) ==> g.Home(b) && b in s.log.lh
  {
    if Pinned(s, b) {
      assert b in s.log.lh;
    }
  }

  lemma LogWriteBuf(g: Geometry, d0: Disk, s: State, p: Pid, b: nat, c: nat)
    requires Inv(g, d0, s) && Enabled(g, s, LogWrite(p, b)) && c in s.bufs
    ensures BufOk(g, Do(g, s, LogWrite(p, b)), View(d0, s.groups), c)
  {
    hide SerialsOk, HomeOk, LogRegionOk, View, Last, LastHanded;
    var r := Rec(s.ops[p], b, s.bufs[b].data, true);
    assert s.phase.Running?;
    assert BufOk(g, s, View(d0, s.groups), b);
    assert BufOk(g, s, View(d0, s.groups), c);
    LastSnoc(s.epoch, r, c);
    HandedSnoc(s.epoch, r, c);
  }

  lemma LogWriteKeeps(g: Geometry, d0: Disk, s: State, p: Pid, b: nat)
    requires Inv(g, d0, s) && Enabled(g, s, LogWrite(p, b))
    ensures Inv(g, d0, Do(g, s, LogWrite(p, b)))
  {
    hide HomeBufOk, View, SerialsOk;
    var s' := Do(g, s, LogWrite(p, b));
    assert s.phase.Running?;
    assert BufOk(g, s, View(d0, s.groups), b);
    forall c | c in s'.bufs ensures BufOk(g, s', View(d0, s.groups), c) {
      LogWriteBuf(g, d0, s, p, b, c);
    }
    var r := Rec(s.ops[p], b, s.bufs[b].data, true);
    RecordEpoch(s, s', r);
    RecordSerials(s, s', p, r);
  }

  // ---- the committer ----

  /**
   write_log copies from the pinned buffer, never from the disk: the contents after the
   last change, which are those last handed to log_write exactly when no release since
   then has spoilt the buffer.
   */
  lemma WriteSlotSource(g: Geometry, d0: Disk, s: State)
    requires Inv(g, d0, s) && Enabled(g, s, WriteSlot)
    ensures
      var b := s.log.lh[s.phase.k];
      && b in s.bufs && s.bufs[b].valid && s.bufs[b].refcnt >= 1
      && Last(s.epoch, b) == Some(Seen(s, b))
      && (LastHanded(s.epoch, b) == Some(Seen(s, b)) <==> !s.bufs[b].spoilt)
  {
    var b := s.log.lh[s.phase.k];
    assert Pinned(s, b) && BufOk(g, s, View(d0, s.groups), b);
  }

  lemma WriteSlotBuf(g: Geometry, d0: Disk, s: State, c: nat)
    requires Inv(g, d0, s) && Enabled(g, s, WriteSlot) && c in s.bufs && c != g.Slot(s.phase.k)
    ensures BufOk(g, Do(g, s, WriteSlot), View(d0, s.groups), c)
  {
    hide SerialsOk, EpochOk, HomeOk, LogRegionOk, View, Last, LastHanded;
    assert BufOk(g, s, View(d0, s.groups), c);
  }

  lemma WriteSlotRegion(g: Geometry, d0: Disk, s: State)
    requires Inv(g, d0, s) && Enabled(g, s, WriteSlot)
    ensures HomeOk(g, Do(g, s, WriteSlot), View(d0, s.groups))
    ensures LogRegionOk(g, Do(g, s, WriteSlot), View(d0, s.groups))
  {
    hide BufsOk, SerialsOk, EpochOk, View, Last, LastHanded;
    WriteSlotSource(g, d0, s);
    assert g.InLog(g.Slot(s.phase.k));
  }

  lemma WriteSlotKeeps(g: Geometry, d0: Disk, s: State)
    requires Inv(g, d0, s) && Enabled(g, s, WriteSlot)
    ensures Inv(g, d0, Do(g, s, WriteSlot))
  {
    hide View, Last, LastHanded, HomeBufOk, HomeOk, LogRegionOk, SerialsOk;
    var s' := Do(g, s, WriteSlot);
    var view := View(d0, s.groups);
    WriteSlotRegion(g, d0, s);
    assert g.InLog(g.Slot(s.phase.k));
    forall c | c in s'.bufs ensures BufOk(g, s', view, c) {
      if c != g.Slot(s.phase.k) {
        WriteSlotBuf(g, d0, s, c);
      }
    }
    SerialsKept(s, s');
  }

  lemma SeenLog(g: Geometry, d0: Disk, s: State, b: nat)
    requires Inv(g, d0, s) && g.InLog(b)
    ensures Seen(s, b) == s.disk[b]
  {
    if b in s.bufs {
      assert BufOk(g, s, View(d0, s.groups), b);
    }
  }

  /** At the commit point the group's last writes become the view. */
  lemma CommitView(g: Geometry, d0: Disk, s: State)
    requires Inv(g, d0, s) && Enabled(g, s, WriteHead)
    ensures
      var view := View(d0, s.groups + [s.epoch]);
      forall b: nat :: g.Home(b) ==>
        view[b] == match Last(s.epoch, b) case Some(x) => x case None => s.disk[b]
  {
    ViewSnoc(d0, s.groups, s.epoch);
    forall b: nat | g.Home(b)
      ensures View(d0, s.groups + [s.epoch])[b]
           == match Last(s.epoch, b) case Some(x) => x case None => s.disk[b]
    {
      ApplyRecsAt(View(d0, s.groups), s.epoch, b);
    }
  }

  /** A buffer that a step does not touch stays sound if its pin and what the pin promises do. */
  lemma BufCarried(g: Geometry, s: State, s': State, view: Disk, view': Disk, c: nat)
    requires c in s.bufs && |s.disk| == |view| == |s'.disk| == |view'| && BufOk(g, s, view, c)
    requires c in s'.bufs && s'.bufs[c] == s.bufs[c] && s'.disk[c] == s.disk[c] && s'.ops == s.ops
    requires (Pinned(s', c) <==> Pinned(s, c)) && (UserPhase(s') || s'.phase == s.phase)
    requires !g.InLog(c) && Pinned(s', c) && !s.bufs[c].dirty ==>
      if s'.phase.Installing? then s.bufs[c].data == view'[c] else PinnedOk(s', c)
    ensures BufOk(g, s', view', c)
  {
    hide Last, LastHanded, Pinned;
  }

  lemma WriteHeadBuf(g: Geometry, d0: Disk, s: State, c: nat)
    requires Inv(g, d0, s) && Enabled(g, s, WriteHead) && c in s.bufs && c != g.logstart
    ensures BufOk(g, Do(g, s, WriteHead), View(d0, s.groups + [s.epoch]), c)
  {
    hide SerialsOk, EpochOk, HomeOk, LogRegionOk, View, Last;
    var s' := Do(g, s, WriteHead);
    CommitView(g, d0, s);
    assert s.log.lh[0..] == s.log.lh;
    PinnedHome(g, s, c);
    assert BufOk(g, s, View(d0, s.groups), c);
    BufCarried(g, s, s', View(d0, s.groups), View(d0, s.groups + [s.epoch]), c);
  }

  lemma WriteHeadBufs(g: Geometry, d0: Disk, s: State)
    requires Inv(g, d0, s) && Enabled(g, s, WriteHead)
    ensures BufsOk(g, Do(g, s, WriteHead), View(d0, s.groups + [s.epoch]))
  {
    hide SerialsOk, EpochOk, HomeOk, LogRegionOk, View, Last, HomeBufOk;
    var s' := Do(g, s, WriteHead);
    assert s.log.lh[0..] == s.log.lh;
    forall c | c in s'.bufs ensures BufOk(g, s', View(d0, s.groups + [s.epoch]), c) {
      if c != g.logstart {
        WriteHeadBuf(g, d0, s, c);
      }
    }
  }

  lemma WriteHeadRegions(g: Geometry, d0: Disk, s: State)
    requires Inv(g, d0, s) && Enabled(g, s, WriteHead)
    ensures HomeOk(g, Do(g, s, WriteHead), View(d0, s.groups + [s.epoch]))
    ensures LogRegionOk(g, Do(g, s, WriteHead), View(d0, s.groups + [s.epoch]))
  {
    var s' := Do(g, s, WriteHead);
    var view := View(d0, s.groups + [s.epoch]);
    CommitView(g, d0, s);
    HeadRoundTrip(Seen(s, g.logstart), s.log.lh);
    assert s.log.lh[0..] == s.log.lh;
    forall i | 0 <= i < |s.log.lh| ensures s'.disk[g.Slot(i)] == view[s.log.lh[i]] {
      assert g.Home(s.log.lh[i]);
    }
  }

  lemma WriteHeadSerials(g: Geometry, d0: Disk, s: State)
    requires Inv(g, d0, s) && Enabled(g, s, WriteHead)
    ensures SerialsOk(Do(g, s, WriteHead))
  {
    var s' := Do(g, s, WriteHead);
    var n := |s.groups|;
    forall i | 0 <= i < |s'.groups| ensures GroupOk(s', i) {
      if i < n {
        assert GroupOk(s, i);
        forall r | r in s'.groups[i] ensures Whole(s', i, r.op) {
          assert r in s.groups[i] && Whole(s, i, r.op);
        }
      } else {
        forall r | r in s'.groups[n] ensures r.op < s'.base && Whole(s', n, r.op) {
        }
      }
    }
    forall i, j | 0 <= i < j < |s'.groups| ensures Older(s'.groups[i], s'.groups[j]) {
      if j < n {
        assert Older(s.groups[i], s.groups[j]);
      } else {
        assert GroupOk(s, i);
      }
    }
  }

  lemma WriteHeadKeeps(g: Geometry, d0: Disk, s: State)
    requires Inv(g, d0, s) && Enabled(g, s, WriteHead)
    ensures Inv(g, d0, Do(g, s, WriteHead))
  {
    WriteHeadBufs(g, d0, s);
    WriteHeadRegions(g, d0, s);
    WriteHeadSerials(g, d0, s);
  }

  /** The block being installed is pinned, and its slot holds what the commit gave it. */
  lemma InstallFacts(g: Geometry, d0: Disk, s: State)
    requires Inv(g, d0, s) && Enabled(g, s, InstallOne)
    ensures
      var k, b := s.phase.k, s.log.lh[s.phase.k];
      && g.InLog(g.Slot(k)) && g.Home(b) && Pinned(s, b) && b in s.bufs
      && Seen(s, g.Slot(k)) == View(d0, s.groups)[b]
      && forall c: nat :: c in s.log.lh[k + 1..] <==> c in s.log.lh[k..] && c != b
  {
    hide BufOk, SerialsOk, EpochOk, HomeOk, View;
    var k := s.phase.k;
    assert g.InLog(g.Slot(k));
    SeenLog(g, d0, s, g.Slot(k));
    assert s.log.lh[k..] == [s.log.lh[k]] + s.log.lh[k + 1..];
  }

  lemma InstallPins(g: Geometry, d0: Disk, s: State)
    requires Inv(g, d0, s) && Enabled(g, s, InstallOne)
    ensures forall c: nat :: Pinned(Do(g, s, InstallOne), c) <==> Pinned(s, c) && c != s.log.lh[s.phase.k]
  {
    hide BufsOk, SerialsOk, EpochOk, HomeOk, LogRegionOk, View;
    InstallFacts(g, d0, s);
    var k, s' := s.phase.k, Do(g, s, InstallOne);
    assert s'.phase == Installing(k + 1) && s'.log == s.log;
    forall c: nat ensures Pinned(s', c) <==> Pinned(s, c) && c != s.log.lh[k] {
      assert Pinned(s', c) <==> c in s.log.lh[k + 1..];
    }
  }

  lemma InstallOneBuf(g: Geometry, d0: Disk, s: State, c: nat)
    requires Inv(g, d0, s) && Enabled(g, s, InstallOne) && c in s.bufs
    ensures BufOk(g, Do(g, s, InstallOne), View(d0, s.groups), c)
  {
    hide SerialsOk, EpochOk, HomeOk, LogRegionOk, View, Last, Pinned;
    InstallFacts(g, d0, s);
    InstallPins(g, d0, s);
    assert BufOk(g, s, View(d0, s.groups), c);
    if c != s.log.lh[s.phase.k] {
      BufCarried(g, s, Do(g, s, InstallOne), View(d0, s.groups), View(d0, s.groups), c);
    }
  }

  lemma InstallOneBufs(g: Geometry, d0: Disk, s: State)
    requires Inv(g, d0, s) && Enabled(g, s, InstallOne)
    ensures BufsOk(g, Do(g, s, InstallOne), View(d0, s.groups))
  {
    hide SerialsOk, EpochOk, HomeOk, LogRegionOk, View, Last, Pinned, HomeBufOk;
    InstallPins(g, d0, s);
    forall c | c in s.bufs ensures BufOk(g, Do(g, s, InstallOne), View(d0, s.groups), c) {
      InstallOneBuf(g, d0, s, c);
    }
  }

  lemma InstallOneRegions(g: Geometry, d0: Disk, s: State)
    requires Inv(g, d0, s) && Enabled(g, s, InstallOne)
    ensures HomeOk(g, Do(g, s, InstallOne), View(d0, s.groups))
    ensures LogRegionOk(g, Do(g, s, InstallOne), View(d0, s.groups))
  {
    hide BufsOk, SerialsOk, EpochOk, View, Pinned;
    InstallFacts(g, d0, s);
    InstallPins(g, d0, s);
  }

  lemma InstallOneKeeps(g: Geometry, d0: Disk, s: State)
    requires Inv(g, d0, s) && Enabled(g, s, InstallOne)
    ensures Inv(g, d0, Do(g, s, InstallOne))
  {
    InstallOneBufs(g, d0, s);
    InstallOneRegions(g, d0, s);
    GroupsKept(s, Do(g, s, InstallOne));
  }

  lemma EraseHeadKeeps(g: Geometry, d0: Disk, s: State)
    requires Inv(g, d0, s) && Enabled(g, s, EraseHead)
    ensures Inv(g, d0, Do(g, s, EraseHead))
  {
    EraseKeeps(g, d0, s, Finishing);
  }

  lemma RecoverEraseKeeps(g: Geometry, d0: Disk, s: State)
    requires Inv(g, d0, s) && Enabled(g, s, RecoverErase)
    ensures Inv(g, d0, Do(g, s, RecoverErase))
  {
    EraseKeeps(g, d0, s, Running);
  }

  /** Erasing the header of a fully installed log. */
  lemma EraseKeeps(g: Geometry, d0: Disk, s: State, next: Phase)
    requires Inv(g, d0, s) && g.logstart < |s.disk|
    requires || (s.phase == Installing(|s.log.lh|) && next == Finishing)
             || (s.phase == Recovering(|s.log.lh|) && next == Running)
    ensures Inv(g, d0, DoErase(g, s, next))
  {
    var s' := DoErase(g, s, next);
    var view := View(d0, s.groups);
    HeadRoundTrip(Seen(s, g.logstart), []);
    assert forall b :: !Pinned(s, b) && !Pinned(s', b);
    forall c | c in s'.bufs ensures BufOk(g, s', view, c) {
      if c != g.logstart {
        assert BufOk(g, s, view, c);
      }
    }
    GroupsKept(s, s');
  }

  lemma FinishKeeps(g: Geometry, d0: Disk, s: State)
    requires Inv(g, d0, s) && Enabled(g, s, Finish)
    ensures Inv(g, d0, Do(g, s, Finish))
  {
    var s' := Do(g, s, Finish);
    var view := View(d0, s.groups);
    forall c | c in s'.bufs ensures BufOk(g, s', view, c) {
      assert BufOk(g, s, view, c);
    }
    GroupsKept(s, s');
  }

  // ---- crash and recovery ----

  /** In every phase, recovery from the disk as it stands gives the committed view. */
  lemma ReplayIsView(g: Geometry, d0: Disk, s: State)
    requires Inv(g, d0, s)
    ensures SameHome(g, Replay(g, s.disk), View(d0, s.groups))
  {
    if s.phase.Installing? || s.phase.Recovering? {
      var lh, k := s.log.lh, s.phase.k;
      InstallAt(g, s.disk, lh, |lh|);
      assert lh[..|lh|] == lh;
      forall b: nat | g.Home(b) ensures Replay(g, s.disk)[b] == View(d0, s.groups)[b] {
        if b in lh {
          var i :| 0 <= i < |lh| && lh[i] == b;
          assert Replay(g, s.disk)[lh[i]] == s.disk[g.Slot(i)];
        } else {
          assert b !in lh[k..];
        }
      }
    }
  }

  lemma CrashKeeps(g: Geometry, d0: Disk, s: State)
    requires Inv(g, d0, s)
    ensures Inv(g, d0, Do(g, s, Crash))
  {
    ReplayIsView(g, d0, s);
    GroupsKept(s, Do(g, s, Crash));
  }

  /** What recovery will have done to each home block. */
  lemma ReplayAt(g: Geometry, d: Disk)
    requires DiskValid(g, d)
    ensures forall i: nat :: i < |Head(g, d)| ==>
      g.Home(Head(g, d)[i]) && g.Slot(i) < |d| && Replay(g, d)[Head(g, d)[i]] == d[g.Slot(i)]
    ensures forall b: nat :: g.Home(b) && b !in Head(g, d) ==> Replay(g, d)[b] == d[b]
  {
    var lh := Head(g, d);
    InstallAt(g, d, lh, |lh|);
    assert lh[..|lh|] == lh;
  }

  lemma ReadHeadRegions(g: Geometry, d0: Disk, s: State)
    requires Inv(g, d0, s) && Enabled(g, s, ReadHead)
    ensures
      var s', view := Do(g, s, ReadHead), View(d0, s.groups);
      && Loggable(g, s'.log.lh) && HomeOk(g, s', view) && LogRegionOk(g, s', view)
  {
    hide BufsOk, EpochOk, SerialsOk, View, Replay, Distinct;
    var lh := Head(g, s.disk);
    ReplayAt(g, s.disk);
    assert lh[0..] == lh;
  }

  lemma ReadHeadKeeps(g: Geometry, d0: Disk, s: State)
    requires Inv(g, d0, s) && Enabled(g, s, ReadHead)
    ensures Inv(g, d0, Do(g, s, ReadHead))
  {
    hide HomeOk, LogRegionOk, HomeBufOk, SerialsOk, View, Last, Handed;
    ReadHeadRegions(g, d0, s);
    SerialsKept(s, Do(g, s, ReadHead));
  }

  lemma RecoverOneBufs(g: Geometry, d0: Disk, s: State)
    requires Inv(g, d0, s) && Enabled(g, s, RecoverOne)
    ensures BufsOk(g, Do(g, s, RecoverOne), View(d0, s.groups))
  {
    var s' := Do(g, s, RecoverOne);
    var view := View(d0, s.groups);
    var b := s.log.lh[s.phase.k];
    assert g.Home(b);
    forall c | c in s'.bufs ensures BufOk(g, s', view, c) {
      if c != b {
        assert BufOk(g, s, view, c);
      }
    }
  }

  lemma RecoverFacts(g: Geometry, d0: Disk, s: State)
    requires Inv(g, d0, s) && Enabled(g, s, RecoverOne)
    ensures
      var k, b := s.phase.k, s.log.lh[s.phase.k];
      && g.InLog(g.Slot(k)) && g.Home(b) && Seen(s, g.Slot(k)) == View(d0, s.groups)[b]
      && forall c: nat :: c in s.log.lh[k..] <==> c == b || c in s.log.lh[k + 1..]
  {
    hide BufOk, SerialsOk, EpochOk, HomeOk, View;
    var k := s.phase.k;
    assert g.InLog(g.Slot(k));
    SeenLog(g, d0, s, g.Slot(k));
    assert s.log.lh[k..] == [s.log.lh[k]] + s.log.lh[k + 1..];
  }

  lemma RecoverOneHome(g: Geometry, d0: Disk, s: State)
    requires Inv(g, d0, s) && Enabled(g, s, RecoverOne)
    ensures HomeOk(g, Do(g, s, RecoverOne), View(d0, s.groups))
  {
    hide BufsOk, SerialsOk, EpochOk, LogRegionOk, View, Pinned, Seen;
    RecoverFacts(g, d0, s);
  }

  /** The log region is not written. */
  lemma RecoverOneRegion(g: Geometry, d0: Disk, s: State)
    requires Inv(g, d0, s) && Enabled(g, s, RecoverOne)
    ensures LogRegionOk(g, Do(g, s, RecoverOne), View(d0, s.groups))
  {
    hide BufsOk, SerialsOk, EpochOk, HomeOk, View, Pinned, Seen;
    var s' := Do(g, s, RecoverOne);
    RecoverFacts(g, d0, s);
    assert forall b: nat :: g.InLog(b) ==> s'.disk[b] == s.disk[b];
    assert g.InLog(g.logstart) && forall i: nat :: i < |s.log.lh| ==> g.InLog(g.Slot(i));
  }

  lemma RecoverOneRegions(g: Geometry, d0: Disk, s: State)
    requires Inv(g, d0, s) && Enabled(g, s, RecoverOne)
    ensures HomeOk(g, Do(g, s, RecoverOne), View(d0, s.groups))
    ensures LogRegionOk(g, Do(g, s, RecoverOne), View(d0, s.groups))
  {
    RecoverOneHome(g, d0, s);
    RecoverOneRegion(g, d0, s);
  }

  lemma RecoverOneKeeps(g: Geometry, d0: Disk, s: State)
    requires Inv(g, d0, s) && Enabled(g, s, RecoverOne)
    ensures Inv(g, d0, Do(g, s, RecoverOne))
  {
    RecoverOneBufs(g, d0, s);
    RecoverOneRegions(g, d0, s);
    GroupsKept(s, Do(g, s, RecoverOne));
  }

  // ---- whole runs ----

  lemma StepKeeps(g: Geometry, d0: Disk, s: State, t: Step)
    requires Inv(g, d0, s) && Enabled(g, s, t)
    ensures Inv(g, d0, Do(g, s, t))
  {
    hide Inv;
    match t
    case BeginOp(p) => BeginKeeps(g, d0, s, p);
    case EndOp(p) => EndKeeps(g, d0, s, p);
    case Get(p, b, junk) => GetKeeps(g, d0, s, p, b, junk);
    case Lock(p, b) => LockKeeps(g, d0, s, p, b);
    case Release(p, b) => ReleaseKeeps(g, d0, s, p, b);
    case Evict(b) => EvictKeeps(g, d0, s, b);
    case Modify(p, b, data) => ModifyKeeps(g, d0, s, p, b, data);
    case LogWrite(p, b) => LogWriteKeeps(g, d0, s, p, b);
    case WriteSlot => WriteSlotKeeps(g, d0, s);
    case WriteHead => WriteHeadKeeps(g, d0, s);
    case InstallOne => InstallOneKeeps(g, d0, s);
    case EraseHead => EraseHeadKeeps(g, d0, s);
    case Finish => FinishKeeps(g, d0, s);
    case Crash => CrashKeeps(g, d0, s);
    case ReadHead => ReadHeadKeeps(g, d0, s);
    case RecoverOne => RecoverOneKeeps(g, d0, s);
    case RecoverErase => RecoverEraseKeeps(g, d0, s);
  }

  lemma {:induction false} ExecKeeps(g: Geometry, d0: Disk, s: State, ts: seq<Step>)
    requires Inv(g, d0, s) && Exec(g, s, ts).Some?
    ensures Inv(g, d0, Exec(g, s, ts).value)
    decreases |ts|
  {
    if ts != [] {
      StepKeeps(g, d0, s, ts[0]);
      ExecKeeps(g, d0, Do(g, s, ts[0]), ts[1..]);
    }
  }

  /** A state that some run from a mountable disk reaches. */
  ghost predicate Reachable(g: Geometry, disk: Disk, s: State) {
    DiskValid(g, disk) && exists ts :: Exec(g, Init(disk), ts) == Some(s)
  }

  lemma ReachableInv(g: Geometry, disk: Disk, s: State)
    requires Reachable(g, disk, s)
    ensures Inv(g, Replay(g, disk), s)
  {
    var ts :| Exec(g, Init(disk), ts) == Some(s);
    assert Inv(g, Replay(g, disk), Init(disk));
    ExecKeeps(g, Replay(g, disk), Init(disk), ts);
  }

  /**
   Group commit.  Whatever the interleaving and wherever the crashes fall, a
   recovery from the disk yields the home blocks that result from applying the
   committed groups, in order, to the disk first mounted: a prefix of the groups,
   never part of one.
   */
  lemma RecoveredDiskIsPrefixOfGroups(g: Geometry, disk: Disk, s: State)
    requires Reachable(g, disk, s)
    ensures DiskValid(g, s.disk)
    ensures SameHome(g, Replay(g, s.disk), View(Replay(g, disk), s.groups))
    ensures s.phase.Running? ==> SameHome(g, s.disk, View(Replay(g, disk), s.groups))
  {
    ReachableInv(g, disk, s);
    ReplayIsView(g, Replay(g, disk), s);
  }

  /** All the log_writes of an operation are in one group, or none of them is in any. */
  lemma OperationsAreWhole(g: Geometry, disk: Disk, s: State, i: nat, r: Rec, q: Rec)
    requires Reachable(g, disk, s)
    requires i < |s.groups| && r in s.groups[i]
    requires q in s.issued && q.op == r.op
    ensures q in s.groups[i]
    ensures forall j :: 0 <= j < |s.groups| && j != i ==> q !in s.groups[j]
    ensures forall p :: p in s.ops ==> s.ops[p] != r.op
  {
    ReachableInv(g, disk, s);
    assert GroupOk(s, i) && Whole(s, i, r.op);
    forall j | 0 <= j < |s.groups| && j != i ensures q !in s.groups[j] {
      assert if i < j then Older(s.groups[i], s.groups[j]) else Older(s.groups[j], s.groups[i]);
    }
  }

  /** commit runs alone, and neither end_op's panic nor a log_write during a commit can happen. */
  lemma CommitRunsAlone(g: Geometry, disk: Disk, s: State)
    requires Reachable(g, disk, s)
    ensures s.log.committing ==> s.log.outstanding == 0 && s.ops == map[]
    ensures forall p :: p in s.ops ==> !EndPanics(s.log)
    ensures forall p, b :: Enabled(g, s, LogWrite(p, b)) ==> s.phase.Running? && !s.log.committing
    ensures forall p :: Enabled(g, s, BeginOp(p)) ==> s.phase.Running?
  {
    ReachableInv(g, disk, s);
  }

  /**
   An operation is let in exactly when none of commit, boot and recovery is going on and
   the blocks logged so far, with MAXOPBLOCKS for each operation in progress and for the
   new one, fit LOGSIZE.
   */
  lemma BeginIff(g: Geometry, disk: Disk, s: State, p: Pid)
    requires Reachable(g, disk, s) && p !in s.ops
    ensures Enabled(g, s, BeginOp(p)) <==> s.phase.Running? && |s.log.lh| + |s.ops| * MAXOPBLOCKS + MAXOPBLOCKS <= LOGSIZE
  {
    hide HomeOk, LogRegionOk, EpochOk, BufsOk, SerialsOk;
    ReachableInv(g, disk, s);
  }

  /**
   From log_write until install_trans unpins it, a logged block's buffer is referenced
   and cannot be recycled.  Unless an operation is modifying it, it holds the last change;
   what log_write was last handed, exactly when it is not spoilt; and once committed, what
   the commit gave the block.
   */
  lemma LoggedStaysCached(g: Geometry, disk: Disk, s: State, b: nat)
    requires Reachable(g, disk, s) && Pinned(s, b)
    ensures b in s.bufs && s.bufs[b].valid && s.bufs[b].refcnt >= 1
    ensures !Enabled(g, s, Evict(b))
    ensures s.bufs[b].dirty ==> s.phase.Running?
    ensures !s.bufs[b].dirty && !s.phase.Installing? ==> Last(s.epoch, b) == Some(s.bufs[b].data)
    ensures !s.bufs[b].dirty && !s.phase.Installing? ==> (LastHanded(s.epoch, b) == Some(s.bufs[b].data) <==> !s.bufs[b].spoilt)
    ensures s.phase.Installing? ==> b < g.size == |disk| && s.bufs[b].data == View(Replay(g, disk), s.groups)[b]
  {
    hide HomeOk, LogRegionOk, EpochOk, View, Last, LastHanded, SerialsOk;
    ReachableInv(g, disk, s);
    PinnedHome(g, s, b);
    assert BufOk(g, s, View(Replay(g, disk), s.groups), b);
  }

  /** An unreferenced buffer equals the disk, so that recycling it loses nothing, exactly when it is not spoilt. */
  lemma UnreferencedMatchesDisk(g: Geometry, disk: Disk, s: State, b: nat)
    requires Reachable(g, disk, s) && b in s.bufs && s.bufs[b].refcnt == 0 && s.bufs[b].valid
    ensures b < |s.disk| && (s.bufs[b].data == s.disk[b] <==> !s.bufs[b].spoilt)
  {
    hide HomeOk, LogRegionOk, EpochOk, View, Last, LastHanded, SerialsOk;
    ReachableInv(g, disk, s);
    assert BufOk(g, s, View(Replay(g, disk), s.groups), b);
  }
}
