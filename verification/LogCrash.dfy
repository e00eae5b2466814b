/**
 Crash atomicity of kernel/log.c: cut commit's block writes anywhere, run
 recovery any number of times with each run cut anywhere, then let one recovery
 finish.  The home blocks are all old or all new.
 */
module LogCrash {
  import opened Params
  import opened LogDisk
  import opened LogCode

  /** The writes that reach the disk when the machine stops after `k` of them. */
  function Cut(ws: seq<Write>, k: nat): seq<Write> {
    if k <= |ws| then ws[..k] else ws
  }

  lemma {:induction false} ApplyAppend(d: Disk, ws: seq<Write>, vs: seq<Write>)
    requires OnDisk(|d|, ws) && OnDisk(|d|, vs)
    ensures OnDisk(|d|, ws + vs)
    ensures Apply(d, ws + vs) == Apply(Apply(d, ws), vs)
    decreases |vs|
  {
    if |vs| == 0 {
      assert ws + vs == ws;
    } else {
      var us := vs[..|vs| - 1];
      assert (ws + vs)[..|ws + vs| - 1] == ws + us;
      ApplyAppend(d, ws, us);
    }
  }

  lemma ApplySnoc(d: Disk, ws: seq<Write>, w: Write)
    requires OnDisk(|d|, ws) && w.block < |d|
    ensures OnDisk(|d|, ws + [w])
    ensures Apply(d, ws + [w]) == Apply(d, ws)[w.block := w.data]
  {
    assert (ws + [w])[..|ws|] == ws;
  }

  lemma {:induction false} InstallsPrefix(lh: seq<nat>, slots: seq<Block>, n: nat, k: nat)
    requires k <= n <= |lh| == |slots|
    ensures InstallWrites(lh, slots, n)[..k] == InstallWrites(lh, slots, k)
  {
    if k < n {
      InstallsPrefix(lh, slots, n - 1, k);
      assert InstallWrites(lh, slots, n)[..k] == InstallWrites(lh, slots, n - 1)[..k];
    }
  }

  lemma {:induction false} LogWritesPrefix(g: Geometry, cache: map<nat, Block>, lh: seq<nat>, n: nat, k: nat)
    requires k <= n <= |lh|
    requires forall i :: 0 <= i < |lh| ==> lh[i] in cache
    ensures LogWrites(g, cache, lh, n)[..k] == LogWrites(g, cache, lh, k)
  {
    if k < n {
      LogWritesPrefix(g, cache, lh, n - 1, k);
      assert LogWrites(g, cache, lh, n)[..k] == LogWrites(g, cache, lh, n - 1)[..k];
    }
  }

  /** Writing the first `k` installs is `Install`. */
  lemma {:induction false} ApplyInstalls(g: Geometry, d: Disk, lh: seq<nat>, slots: seq<Block>, k: nat)
    requires g.Valid() && |d| == g.size && Loggable(g, lh) && k <= |lh| == |slots|
    requires forall i :: 0 <= i < |lh| ==> slots[i] == d[g.Slot(i)]
    ensures OnDisk(g.size, InstallWrites(lh, slots, k))
    ensures Apply(d, InstallWrites(lh, slots, k)) == Install(g, d, lh, k)
  {
    if k > 0 {
      ApplyInstalls(g, d, lh, slots, k - 1);
      ApplySnoc(d, InstallWrites(lh, slots, k - 1), Write(lh[k - 1], slots[k - 1]));
    }
  }

  /** Writing the first `k` log slots is `Fill`. */
  lemma {:induction false} ApplyFills(g: Geometry, d: Disk, cache: map<nat, Block>, lh: seq<nat>, k: nat)
    requires g.Valid() && |d| == g.size && k <= |lh| <= g.Capacity()
    requires forall i :: 0 <= i < |lh| ==> lh[i] in cache
    ensures OnDisk(g.size, LogWrites(g, cache, lh, k))
    ensures Apply(d, LogWrites(g, cache, lh, k)) == Fill(g, d, cache, lh, k)
  {
    if k > 0 {
      ApplyFills(g, d, cache, lh, k - 1);
      ApplySnoc(d, LogWrites(g, cache, lh, k - 1), Write(g.Slot(k - 1), cache[lh[k - 1]]));
    }
  }

  /** A partly installed disk replays to the same home blocks. */
  lemma ReplayInstalled(g: Geometry, d: Disk, k: nat)
    requires DiskValid(g, d) && k <= |Head(g, d)|
    ensures
      var e := Install(g, d, Head(g, d), k);
      DiskValid(g, e) && Head(g, e) == Head(g, d) && SameHome(g, Replay(g, e), Replay(g, d))
  {
    var lh := Head(g, d);
    var e := Install(g, d, lh, k);
    InstallKeepsLog(g, d, lh, k, g.logstart);
    forall b: nat | g.Home(b) ensures Replay(g, e)[b] == Replay(g, d)[b] {
      InstallAt(g, d, lh, k);
      InstallAt(g, d, lh, |lh|);
      InstallAt(g, e, lh, |lh|);
      assert lh[..|lh|] == lh;
      if b in lh {
        var i :| 0 <= i < |lh| && lh[i] == b;
        InstallKeepsLog(g, d, lh, k, g.Slot(i));
        assert Replay(g, d)[lh[i]] == d[g.Slot(i)] && Replay(g, e)[lh[i]] == e[g.Slot(i)];
      } else {
        assert b !in lh[..k];
      }
    }
  }

  /** An erased log replays to itself. */
  lemma ReplayErased(g: Geometry, d: Disk, head: Block)
    requires g.Valid() && |d| == g.size
    ensures
      var e := d[g.logstart := PutHead(head, [])];
      DiskValid(g, e) && Head(g, e) == [] && Replay(g, e) == e && SameHome(g, d, e)
  {
    HeadRoundTrip(head, []);
  }

  /** Recovery's writes, cut after `k`, and the disk they leave. */
  lemma RecoveryForm(g: Geometry, d: Disk, k: nat)
    requires DiskValid(g, d)
    ensures
      var lh := Head(g, d);
      var ws := Cut(RecoveryWrites(g, d), k);
      && OnDisk(g.size, ws)
      && Apply(d, ws) == if k <= |lh| then Install(g, d, lh, k)
                         else Replay(g, d)[g.logstart := PutHead(d[g.logstart], [])]
  {
    var lh := Head(g, d);
    var slots := SlotContents(g, d, |lh|);
    var erase := Write(g.logstart, PutHead(d[g.logstart], []));
    var ins := InstallWrites(lh, slots, |lh|);
    if k <= |lh| {
      assert RecoveryWrites(g, d)[..k] == ins[..k];
      InstallsPrefix(lh, slots, |lh|, k);
      ApplyInstalls(g, d, lh, slots, k);
    } else {
      assert Cut(RecoveryWrites(g, d), k) == ins + [erase];
      ApplyInstalls(g, d, lh, slots, |lh|);
      ApplySnoc(d, ins, erase);
    }
  }

  /** The disk after a recovery of which only the first `k` writes happened. */
  ghost function CutRecovery(g: Geometry, d: Disk, k: nat): (e: Disk)
    requires DiskValid(g, d)
    ensures |e| == g.size
  {
    RecoveryForm(g, d, k);
    Apply(d, Cut(RecoveryWrites(g, d), k))
  }

  /** A cut recovery changes nothing that a later recovery would see differently. */
  lemma CutRecoveryKeepsReplay(g: Geometry, d: Disk, k: nat)
    requires DiskValid(g, d)
    ensures
      var e := CutRecovery(g, d, k);
      && DiskValid(g, e)
      && SameHome(g, Replay(g, e), Replay(g, d))
      && (k > |Head(g, d)| ==> Head(g, e) == [] && SameHome(g, e, Replay(g, d)))
  {
    RecoveryForm(g, d, k);
    if k <= |Head(g, d)| {
      ReplayInstalled(g, d, k);
    } else {
      ReplayErased(g, Replay(g, d), d[g.logstart]);
    }
  }

  /** Recoveries that stop after `cuts[0]`, `cuts[1]`, ... writes. */
  ghost function CutRecoveries(g: Geometry, d: Disk, cuts: seq<nat>): (e: Disk)
    requires DiskValid(g, d)
    ensures DiskValid(g, e)
    decreases |cuts|
  {
    if cuts == [] then d
    else
      CutRecoveryKeepsReplay(g, d, cuts[0]);
      CutRecoveries(g, CutRecovery(g, d, cuts[0]), cuts[1..])
  }

  lemma {:induction false} CutRecoveriesKeepReplay(g: Geometry, d: Disk, cuts: seq<nat>)
    requires DiskValid(g, d)
    ensures SameHome(g, Replay(g, CutRecoveries(g, d, cuts)), Replay(g, d))
    decreases |cuts|
  {
    if cuts != [] {
      CutRecoveryKeepsReplay(g, d, cuts[0]);
      CutRecoveriesKeepReplay(g, CutRecovery(g, d, cuts[0]), cuts[1..]);
    }
  }

  /** However often recovery was interrupted, one that finishes leaves Replay and an erased log. */
  lemma RecoveryConverges(g: Geometry, d: Disk, cuts: seq<nat>)
    requires DiskValid(g, d)
    ensures
      var e := CutRecoveries(g, d, cuts);
      var f := CutRecovery(g, e, |Head(g, e)| + 1);
      DiskValid(g, f) && Head(g, f) == [] && SameHome(g, f, Replay(g, d))
  {
    CutRecoveriesKeepReplay(g, d, cuts);
    var e := CutRecoveries(g, d, cuts);
    CutRecoveryKeepsReplay(g, e, |Head(g, e)| + 1);
  }

  /** A transaction about to be committed: the log is empty and every listed block is cached. */
  ghost predicate ReadyToCommit(g: Geometry, d: Disk, cache: map<nat, Block>, lh: seq<nat>) {
    && DiskValid(g, d)
    && Head(g, d) == []
    && Loggable(g, lh)
    && forall i :: 0 <= i < |lh| ==> lh[i] in cache
  }

  /** The disk just after the header write that commits the transaction. */
  ghost function Marked(g: Geometry, d: Disk, cache: map<nat, Block>, lh: seq<nat>): (e: Disk)
    requires ReadyToCommit(g, d, cache, lh)
    ensures |e| == g.size
  {
    Fill(g, d, cache, lh, |lh|)[g.logstart := PutHead(d[g.logstart], lh)]
  }

  /** From the commit point on, replaying gives the cached contents. */
  lemma MarkedReplay(g: Geometry, d: Disk, cache: map<nat, Block>, lh: seq<nat>)
    requires ReadyToCommit(g, d, cache, lh)
    ensures
      var e := Marked(g, d, cache, lh);
      && DiskValid(g, e) && Head(g, e) == lh
      && SlotContents(g, e, |lh|) == Contents(cache, lh)
      && HomeUpdated(g, d, cache, lh, Replay(g, e))
  {
    var h := PutHead(d[g.logstart], lh);
    HeadRoundTrip(d[g.logstart], lh);
    FillThenInstall(g, d, cache, lh, h, h);
    assert Replay(g, Marked(g, d, cache, lh))[g.logstart := h] == Replay(g, Marked(g, d, cache, lh));
  }

  /** The disk that the first `k` writes of a non-empty commit leave. */
  ghost function CutCommitForm(g: Geometry, d: Disk, cache: map<nat, Block>, lh: seq<nat>, k: nat): Disk
    requires ReadyToCommit(g, d, cache, lh)
  {
    var n := |lh|;
    var m := Marked(g, d, cache, lh);
    if k <= n then Fill(g, d, cache, lh, k)
    else if k <= 2 * n + 1 then Install(g, m, lh, k - n - 1)
    else Install(g, m, lh, n)[g.logstart := PutHead(PutHead(d[g.logstart], lh), [])]
  }

  lemma ApplyMark(g: Geometry, d: Disk, cache: map<nat, Block>, lh: seq<nat>, vs: seq<Write>)
    requires ReadyToCommit(g, d, cache, lh) && OnDisk(g.size, vs)
    ensures
      var pre := LogWrites(g, cache, lh, |lh|) + [Write(g.logstart, PutHead(d[g.logstart], lh))];
      OnDisk(g.size, pre + vs) && Apply(d, pre + vs) == Apply(Marked(g, d, cache, lh), vs)
  {
    var ws := LogWrites(g, cache, lh, |lh|);
    var mark := Write(g.logstart, PutHead(d[g.logstart], lh));
    ApplyFills(g, d, cache, lh, |lh|);
    ApplySnoc(d, ws, mark);
    ApplyAppend(d, ws + [mark], vs);
  }

  /** Where a cut falls in the writes of a commit. */
  lemma CutOfJoin(a: seq<Write>, m: Write, b: seq<Write>, e: Write, k: nat)
    ensures
      Cut(a + [m] + b + [e], k) ==
        if k <= |a| then a[..k]
        else if k <= |a| + 1 + |b| then a + [m] + b[..k - |a| - 1]
        else a + [m] + (b + [e])
  {
  }

  /** A cut among the installs. */
  lemma CutInInstalls(g: Geometry, d: Disk, cache: map<nat, Block>, lh: seq<nat>, j: nat)
    requires ReadyToCommit(g, d, cache, lh) && j <= |lh|
    ensures
      var vs := InstallWrites(lh, Contents(cache, lh), |lh|)[..j];
      OnDisk(g.size, vs) && Apply(Marked(g, d, cache, lh), vs) == Install(g, Marked(g, d, cache, lh), lh, j)
  {
    MarkedReplay(g, d, cache, lh);
    InstallsPrefix(lh, Contents(cache, lh), |lh|, j);
    ApplyInstalls(g, Marked(g, d, cache, lh), lh, Contents(cache, lh), j);
  }

  /** No cut: the log has been erased. */
  lemma WholeCommit(g: Geometry, d: Disk, cache: map<nat, Block>, lh: seq<nat>)
    requires ReadyToCommit(g, d, cache, lh)
    ensures
      var vs := InstallWrites(lh, Contents(cache, lh), |lh|);
      var erase := Write(g.logstart, PutHead(PutHead(d[g.logstart], lh), []));
      && OnDisk(g.size, vs + [erase])
      && Apply(Marked(g, d, cache, lh), vs + [erase])
         == Install(g, Marked(g, d, cache, lh), lh, |lh|)[g.logstart := erase.data]
  {
    var vs := InstallWrites(lh, Contents(cache, lh), |lh|);
    CutInInstalls(g, d, cache, lh, |lh|);
    assert vs[..|lh|] == vs;
    ApplySnoc(Marked(g, d, cache, lh), vs, Write(g.logstart, PutHead(PutHead(d[g.logstart], lh), [])));
  }

  lemma CutBeforeMark(g: Geometry, d: Disk, cache: map<nat, Block>, lh: seq<nat>, k: nat)
    requires ReadyToCommit(g, d, cache, lh) && lh != [] && k <= |lh|
    ensures
      var ws := LogWrites(g, cache, lh, |lh|)[..k];
      OnDisk(g.size, ws) && Apply(d, ws) == CutCommitForm(g, d, cache, lh, k)
  {
    LogWritesPrefix(g, cache, lh, |lh|, k);
    ApplyFills(g, d, cache, lh, k);
  }

  lemma CutAfterMark(g: Geometry, d: Disk, cache: map<nat, Block>, lh: seq<nat>, k: nat)
    requires ReadyToCommit(g, d, cache, lh) && lh != [] && |lh| < k
    ensures
      var n := |lh|;
      var ins := InstallWrites(lh, Contents(cache, lh), n);
      var erase := Write(g.logstart, PutHead(PutHead(d[g.logstart], lh), []));
      var vs := if k <= 2 * n + 1 then ins[..k - n - 1] else ins + [erase];
      var ws := LogWrites(g, cache, lh, n) + [Write(g.logstart, PutHead(d[g.logstart], lh))] + vs;
      OnDisk(g.size, ws) && Apply(d, ws) == CutCommitForm(g, d, cache, lh, k)
  {
    hide LogWrites, InstallWrites, Install, Apply;
    var n := |lh|;
    var ins := InstallWrites(lh, Contents(cache, lh), n);
    var erase := Write(g.logstart, PutHead(PutHead(d[g.logstart], lh), []));
    if k <= 2 * n + 1 {
      CutInInstalls(g, d, cache, lh, k - n - 1);
      ApplyMark(g, d, cache, lh, ins[..k - n - 1]);
    } else {
      WholeCommit(g, d, cache, lh);
      ApplyMark(g, d, cache, lh, ins + [erase]);
    }
  }

  lemma CommitCutForm(g: Geometry, d: Disk, cache: map<nat, Block>, lh: seq<nat>, k: nat)
    requires ReadyToCommit(g, d, cache, lh) && lh != []
    ensures
      var ws := Cut(CommitWrites(g, d[g.logstart], cache, lh), k);
      OnDisk(g.size, ws) && Apply(d, ws) == CutCommitForm(g, d, cache, lh, k)
  {
    hide CutCommitForm, OnDisk, Apply, LogWrites, InstallWrites, PutHead, Cut;
    var n := |lh|;
    var log := LogWrites(g, cache, lh, n);
    var ins := InstallWrites(lh, Contents(cache, lh), n);
    var erase := Write(g.logstart, PutHead(PutHead(d[g.logstart], lh), []));
    CutOfJoin(log, Write(g.logstart, PutHead(d[g.logstart], lh)), ins, erase, k);
    if k <= n {
      CutBeforeMark(g, d, cache, lh, k);
    } else {
      CutAfterMark(g, d, cache, lh, k);
    }
  }

  /** The disk after the first `k` block writes of a commit. */
  ghost function CutCommit(g: Geometry, d: Disk, cache: map<nat, Block>, lh: seq<nat>, k: nat): (e: Disk)
    requires ReadyToCommit(g, d, cache, lh)
    ensures |e| == g.size
  {
    if lh == [] then d
    else
      CommitCutForm(g, d, cache, lh, k);
      Apply(d, Cut(CommitWrites(g, d[g.logstart], cache, lh), k))
  }

  /** Before the header write recovery gives the old home blocks. */
  lemma ReplayBeforeMark(g: Geometry, d: Disk, cache: map<nat, Block>, lh: seq<nat>, k: nat)
    requires ReadyToCommit(g, d, cache, lh) && lh != [] && k <= |lh|
    ensures
      var e := CutCommitForm(g, d, cache, lh, k);
      && |e| == g.size && DiskValid(g, e) && SameHome(g, d, Replay(g, e))
  {
    FillAt(g, d, cache, lh, k);
  }

  /** After it, the new ones. */
  lemma ReplayAfterMark(g: Geometry, d: Disk, cache: map<nat, Block>, lh: seq<nat>, k: nat)
    requires ReadyToCommit(g, d, cache, lh) && lh != [] && |lh| < k
    ensures
      var e := CutCommitForm(g, d, cache, lh, k);
      && |e| == g.size && DiskValid(g, e) && HomeUpdated(g, d, cache, lh, Replay(g, e))
  {
    if k <= 2 * |lh| + 1 {
      ReplayAmongInstalls(g, d, cache, lh, k);
    } else {
      ReplayErasedCommit(g, d, cache, lh, k);
    }
  }

  lemma ReplayAmongInstalls(g: Geometry, d: Disk, cache: map<nat, Block>, lh: seq<nat>, k: nat)
    requires ReadyToCommit(g, d, cache, lh) && lh != [] && |lh| < k <= 2 * |lh| + 1
    ensures
      var e := CutCommitForm(g, d, cache, lh, k);
      && |e| == g.size && DiskValid(g, e) && HomeUpdated(g, d, cache, lh, Replay(g, e))
  {
    hide PutHead, Fill, Loggable, DiskValid, Replay;
    MarkedReplay(g, d, cache, lh);
    ReplayInstalled(g, Marked(g, d, cache, lh), k - |lh| - 1);
  }

  lemma ReplayErasedCommit(g: Geometry, d: Disk, cache: map<nat, Block>, lh: seq<nat>, k: nat)
    requires ReadyToCommit(g, d, cache, lh) && lh != [] && 2 * |lh| + 1 < k
    ensures
      var e := CutCommitForm(g, d, cache, lh, k);
      && |e| == g.size && DiskValid(g, e) && HomeUpdated(g, d, cache, lh, Replay(g, e))
  {
    hide Fill;
    MarkedReplay(g, d, cache, lh);
    ReplayErased(g, Replay(g, Marked(g, d, cache, lh)), PutHead(d[g.logstart], lh));
  }

  /** What recovery makes of a commit that stopped after `k` writes. */
  lemma CutCommitReplay(g: Geometry, d: Disk, cache: map<nat, Block>, lh: seq<nat>, k: nat)
    requires ReadyToCommit(g, d, cache, lh)
    ensures
      var e := CutCommit(g, d, cache, lh, k);
      && |e| == g.size && DiskValid(g, e)
      && if k <= |lh| then SameHome(g, d, Replay(g, e)) else HomeUpdated(g, d, cache, lh, Replay(g, e))
  {
    if lh == [] {
      NothingToCommit(g, d, cache, k);
    } else {
      hide CutCommitForm, DiskValid, SameHome, HomeUpdated, Replay, Cut, CommitWrites, Apply, ReadyToCommit;
      CommitCutForm(g, d, cache, lh, k);
      if k <= |lh| {
        ReplayBeforeMark(g, d, cache, lh, k);
      } else {
        ReplayAfterMark(g, d, cache, lh, k);
      }
    }
  }

  lemma NothingToCommit(g: Geometry, d: Disk, cache: map<nat, Block>, k: nat)
    requires ReadyToCommit(g, d, cache, [])
    ensures DiskValid(g, d) && SameHome(g, d, Replay(g, d)) && HomeUpdated(g, d, cache, [], Replay(g, d))
  {
  }

  /**
   Crash atomicity.  `k` block writes of the commit happen, recovery is then
   interrupted any number of times, and finally completes.  The home blocks are
   all new exactly when the header write was among the `k`, and all old otherwise.
   */
  lemma CrashAtomicity(g: Geometry, d: Disk, cache: map<nat, Block>, lh: seq<nat>, k: nat, cuts: seq<nat>)
    requires ReadyToCommit(g, d, cache, lh)
    ensures DiskValid(g, CutCommit(g, d, cache, lh, k))
    ensures
      var e := CutRecoveries(g, CutCommit(g, d, cache, lh, k), cuts);
      var f := CutRecovery(g, e, |Head(g, e)| + 1);
      && DiskValid(g, f) && Head(g, f) == []
      && (if k <= |lh| then SameHome(g, d, f) else HomeUpdated(g, d, cache, lh, f))
  {
    hide CutCommit, Replay, CutRecoveries, CutRecovery, DiskValid;
    CutCommitReplay(g, d, cache, lh, k);
    RecoveryConverges(g, CutCommit(g, d, cache, lh, k), cuts);
  }

  /** Whatever operations have done since the last commit or recovery, the next commit is crash-safe. */
  lemma ValidIsReady(l: Log)
    requires l.Valid()
    ensures l.n <= l.block.Length && l.g.logstart < |l.disk|
    ensures ReadyToCommit(l.g, l.disk, l.cache, l.block[..l.n])
  {
  }

  /**
   The commit that the code performs, cut after any number of its block writes and
   recovered with any number of interruptions.
   */
  method CommitThenCrash(l: Log, k: nat, ghost cuts: seq<nat>) returns (ghost crashed: Disk, ghost recovered: Disk)
    requires l.Valid()
    modifies l`n, l`disk, l`cache, l`trace, l`pins
    ensures l.Valid() && |old(l.trace)| <= |l.trace|
    ensures OnDisk(l.g.size, Cut(l.trace[|old(l.trace)|..], k))
    ensures crashed == Apply(old(l.disk), Cut(l.trace[|old(l.trace)|..], k)) && DiskValid(l.g, crashed)
    ensures
      var e := CutRecoveries(l.g, crashed, cuts);
      recovered == CutRecovery(l.g, e, |Head(l.g, e)| + 1)
    ensures DiskValid(l.g, recovered) && Head(l.g, recovered) == []
    ensures if k <= old(l.n) then SameHome(l.g, old(l.disk), recovered)
            else HomeUpdated(l.g, old(l.disk), old(l.cache), old(l.block[..l.n]), recovered)
  {
    hide CutRecoveries, CutRecovery, DiskValid, Log.Valid, HomeUpdated, SameHome, Cut, OnDisk;
    ValidIsReady(l);
    ghost var d, cache, lh, t := l.disk, l.cache, l.block[..l.n], l.trace;
    CrashAtomicity(l.g, d, cache, lh, k, cuts);
    CutTrace(l.g, d, cache, lh, k);
    l.Commit();
    crashed := CutCommit(l.g, d, cache, lh, k);
    ghost var e := CutRecoveries(l.g, crashed, cuts);
    recovered := CutRecovery(l.g, e, |Head(l.g, e)| + 1);
    assert l.trace[|t|..] == CommitWrites(l.g, d[l.g.logstart], cache, lh);
  }

  lemma CutTrace(g: Geometry, d: Disk, cache: map<nat, Block>, lh: seq<nat>, k: nat)
    requires ReadyToCommit(g, d, cache, lh)
    ensures
      var ws := Cut(CommitWrites(g, d[g.logstart], cache, lh), k);
      OnDisk(g.size, ws) && CutCommit(g, d, cache, lh, k) == Apply(d, ws)
  {
    if lh != [] {
      CommitCutForm(g, d, cache, lh, k);
    }
  }
}
