/**
 The runs of LogMachine, seen as runs of LogSpace: what admission reserves holds of the
 concurrent machine, and log_write's size panic is unreachable in it too.
 */
module LogProjection {
  import opened Params
  import opened Options
  import opened LogDisk
  import opened LogState
  import opened LogMachine
  import LogSafety
  import LogSpace

  /** How many blocks each operation in progress has added to the log. */
  type Counts = map<Pid, nat>

  function Tally(s: State, c: Counts, t: Step): Counts {
    match t
    case BeginOp(p) => c[p := 0]
    case EndOp(p) => c - {p}
    case LogWrite(p, b) => if b in s.log.lh || p !in c then c else c[p := c[p] + 1]
    case Crash => map[]
    case _ => c
  }

  /** A step within the allowance of `K` new blocks for each operation. */
  predicate Allowed(K: nat, s: State, c: Counts, t: Step) {
    t.LogWrite? && t.b !in s.log.lh ==> t.p in c && c[t.p] < K
  }

  /** Every step of the run is within the allowance. */
  ghost predicate Modest(g: Geometry, K: nat, s: State, c: Counts, ts: seq<Step>)
    requires Exec(g, s, ts).Some?
    decreases |ts|
  {
    ts == [] || (Allowed(K, s, c, ts[0]) && Modest(g, K, Do(g, s, ts[0]), Tally(s, c, ts[0]), ts[1..]))
  }

  ghost function CountsAfter(g: Geometry, s: State, c: Counts, ts: seq<Step>): Counts
    requires Exec(g, s, ts).Some?
    decreases |ts|
  {
    if ts == [] then c else CountsAfter(g, Do(g, s, ts[0]), Tally(s, c, ts[0]), ts[1..])
  }

  /** `order` lists the operations in progress, and `newly` their counts. */
  ghost predicate Listing(order: seq<Pid>, newly: seq<nat>, c: Counts) {
    && |order| == |newly|
    && (forall i, j :: 0 <= i < j < |order| ==> order[i] != order[j])
    && (forall p :: p in order <==> p in c)
    && (forall i :: 0 <= i < |order| ==> newly[i] == c[order[i]])
  }

  /** The state of LogSpace that a state of LogMachine corresponds to. */
  ghost predicate Match(s: State, c: Counts, q: LogSpace.Space, order: seq<Pid>) {
    && c.Keys == s.ops.Keys && Listing(order, q.newly, c)
    && if UserPhase(s) then
         && q.log.outstanding == s.log.outstanding && q.log.committing == s.log.committing
         && (!s.phase.Finishing? ==> q.log.lh == s.log.lh)
       else q == LogSpace.Empty
  }

  ghost predicate SpaceReachable(g: Geometry, K: nat, q: LogSpace.Space) {
    exists us :: LogSpace.Exec(g, K, LogSpace.Empty, us) == Some(q)
  }

  lemma {:induction false} SpaceSnoc(g: Geometry, K: nat, q: LogSpace.Space, us: seq<LogSpace.Step>, u: LogSpace.Step)
    requires LogSpace.Exec(g, K, q, us).Some? && LogSpace.Enabled(g, K, LogSpace.Exec(g, K, q, us).value, u)
    ensures LogSpace.Exec(g, K, q, us + [u]) == Some(LogSpace.Do(g, K, LogSpace.Exec(g, K, q, us).value, u))
    decreases |us|
  {
    if us != [] {
      assert (us + [u])[1..] == us[1..] + [u];
      SpaceSnoc(g, K, LogSpace.Do(g, K, q, us[0]), us[1..], u);
    }
  }

  lemma SpaceStep(g: Geometry, K: nat, q: LogSpace.Space, u: LogSpace.Step)
    requires SpaceReachable(g, K, q) && LogSpace.Enabled(g, K, q, u)
    ensures SpaceReachable(g, K, LogSpace.Do(g, K, q, u))
  {
    var us :| LogSpace.Exec(g, K, LogSpace.Empty, us) == Some(q);
    SpaceSnoc(g, K, LogSpace.Empty, us, u);
  }

  lemma SpaceStart(g: Geometry, K: nat)
    ensures SpaceReachable(g, K, LogSpace.Empty)
  {
    assert LogSpace.Exec(g, K, LogSpace.Empty, []) == Some(LogSpace.Empty);
  }

  // ---- one step ----

  lemma BeginMatches(g: Geometry, d0: Disk, K: nat, s: State, c: Counts, q: LogSpace.Space, order: seq<Pid>, p: Pid)
    requires Inv(g, d0, s) && Enabled(g, s, BeginOp(p)) && Match(s, c, q, order)
    ensures LogSpace.Enabled(g, K, q, LogSpace.Begin)
    ensures Match(Do(g, s, BeginOp(p)), Tally(s, c, BeginOp(p)), LogSpace.Do(g, K, q, LogSpace.Begin), order + [p])
  {
    hide BufsOk, EpochOk, HomeOk, LogRegionOk, SerialsOk;
  }

  /** Where an operation stands in the list. */
  lemma Place(order: seq<Pid>, newly: seq<nat>, c: Counts, p: Pid) returns (i: nat)
    requires Listing(order, newly, c) && p in c
    ensures i < |order| && order[i] == p && newly[i] == c[p]
  {
    assert p in order;
    i :| i < |order| && order[i] == p;
  }

  lemma ListingWithout(order: seq<Pid>, newly: seq<nat>, c: Counts, i: nat)
    requires Listing(order, newly, c) && i < |order|
    ensures Listing(order[..i] + order[i + 1..], newly[..i] + newly[i + 1..], c - {order[i]})
  {
    var rest := order[..i] + order[i + 1..];
    forall p ensures p in rest <==> p in c - {order[i]} {
      if p in c - {order[i]} {
        assert p in order;
        var j :| 0 <= j < |order| && order[j] == p;
        assert rest[if j < i then j else j - 1] == p;
      }
      if p in rest {
        var j :| 0 <= j < |rest| && rest[j] == p;
        assert order[if j < i then j else j + 1] == p;
      }
    }
  }

  lemma EndMatches(g: Geometry, d0: Disk, K: nat, s: State, c: Counts, q: LogSpace.Space, order: seq<Pid>, p: Pid) returns (i: nat)
    requires Inv(g, d0, s) && Enabled(g, s, EndOp(p)) && Match(s, c, q, order)
    ensures i < |order| && LogSpace.Enabled(g, K, q, LogSpace.End(i))
    ensures Match(Do(g, s, EndOp(p)), Tally(s, c, EndOp(p)), LogSpace.Do(g, K, q, LogSpace.End(i)), order[..i] + order[i + 1..])
  {
    hide BufsOk, EpochOk, HomeOk, LogRegionOk, SerialsOk, Listing;
    i := Place(order, q.newly, c, p);
    LengthOf(order, q.newly, c);
    ListingWithout(order, q.newly, c, i);
  }

  lemma LengthOf(order: seq<Pid>, newly: seq<nat>, c: Counts)
    requires Listing(order, newly, c)
    ensures |order| == |newly|
  {
  }

  lemma ListingCounted(order: seq<Pid>, newly: seq<nat>, c: Counts, i: nat)
    requires Listing(order, newly, c) && i < |order|
    ensures Listing(order, newly[i := newly[i] + 1], c[order[i] := c[order[i]] + 1])
  {
  }

  lemma LogMatches(g: Geometry, d0: Disk, K: nat, s: State, c: Counts, q: LogSpace.Space, order: seq<Pid>, p: Pid, b: nat)
    returns (i: nat)
    requires Inv(g, d0, s) && Enabled(g, s, LogWrite(p, b)) && Match(s, c, q, order) && Allowed(K, s, c, LogWrite(p, b))
    ensures LogSpace.Enabled(g, K, q, LogSpace.Put(i, b))
    ensures Match(Do(g, s, LogWrite(p, b)), Tally(s, c, LogWrite(p, b)), LogSpace.Do(g, K, q, LogSpace.Put(i, b)), order)
  {
    hide EpochOk, HomeOk, LogRegionOk, SerialsOk, Listing;
    assert BufOk(g, s, View(d0, s.groups), b);
    i := Place(order, q.newly, c, p);
    LengthOf(order, q.newly, c);
    ListingCounted(order, q.newly, c, i);
  }

  /** A step that leaves the in-memory log alone, apart from the erased list of a finished commit. */
  predicate Silent(t: Step) {
    !t.BeginOp? && !t.EndOp? && !t.LogWrite? && !t.Finish? && !t.Crash?
  }

  lemma SilentMatches(g: Geometry, d0: Disk, s: State, c: Counts, q: LogSpace.Space, order: seq<Pid>, t: Step)
    requires Inv(g, d0, s) && Enabled(g, s, t) && Match(s, c, q, order) && Silent(t)
    ensures Match(Do(g, s, t), Tally(s, c, t), q, order)
  {
    hide BufsOk, EpochOk, HomeOk, LogRegionOk, SerialsOk, Listing, Clean, Seen;
  }

  lemma FinishMatches(g: Geometry, d0: Disk, K: nat, s: State, c: Counts, q: LogSpace.Space, order: seq<Pid>)
    requires Inv(g, d0, s) && Enabled(g, s, Finish) && Match(s, c, q, order)
    ensures LogSpace.Enabled(g, K, q, LogSpace.Commit)
    ensures Match(Do(g, s, Finish), Tally(s, c, Finish), LogSpace.Do(g, K, q, LogSpace.Commit), order)
  {
    hide BufsOk, EpochOk, HomeOk, LogRegionOk, SerialsOk, Listing;
  }

  /** Every step of LogMachine within the allowance is one of LogSpace, none, or a restart. */
  lemma StepMatches(g: Geometry, d0: Disk, K: nat, s: State, c: Counts, q: LogSpace.Space, order: seq<Pid>, t: Step)
    returns (q': LogSpace.Space, order': seq<Pid>)
    requires Inv(g, d0, s) && Enabled(g, s, t) && Allowed(K, s, c, t)
    requires Match(s, c, q, order) && SpaceReachable(g, K, q)
    ensures Match(Do(g, s, t), Tally(s, c, t), q', order') && SpaceReachable(g, K, q')
  {
    hide Inv, Match, SpaceReachable, Enabled, Do;
    q', order' := q, order;
    if t.BeginOp? {
      BeginMatches(g, d0, K, s, c, q, order, t.p);
      SpaceStep(g, K, q, LogSpace.Begin);
      q', order' := LogSpace.Do(g, K, q, LogSpace.Begin), order + [t.p];
    } else if t.EndOp? {
      var i := EndMatches(g, d0, K, s, c, q, order, t.p);
      SpaceStep(g, K, q, LogSpace.End(i));
      q', order' := LogSpace.Do(g, K, q, LogSpace.End(i)), order[..i] + order[i + 1..];
    } else if t.LogWrite? {
      var i := LogMatches(g, d0, K, s, c, q, order, t.p, t.b);
      SpaceStep(g, K, q, LogSpace.Put(i, t.b));
      q' := LogSpace.Do(g, K, q, LogSpace.Put(i, t.b));
    } else if t.Finish? {
      FinishMatches(g, d0, K, s, c, q, order);
      SpaceStep(g, K, q, LogSpace.Commit);
      q' := LogSpace.Do(g, K, q, LogSpace.Commit);
    } else if t.Crash? {
      CrashMatches(g, s, c);
      SpaceStart(g, K);
      q', order' := LogSpace.Empty, [];
    } else {
      SilentMatches(g, d0, s, c, q, order, t);
    }
  }

  lemma CrashMatches(g: Geometry, s: State, c: Counts)
    ensures Match(Do(g, s, Crash), Tally(s, c, Crash), LogSpace.Empty, [])
  {
  }

  // ---- whole runs ----

  lemma {:induction false} RunMatches(g: Geometry, d0: Disk, K: nat, s: State, c: Counts, q: LogSpace.Space, order: seq<Pid>, ts: seq<Step>)
    returns (q': LogSpace.Space, order': seq<Pid>)
    requires Inv(g, d0, s) && Exec(g, s, ts).Some? && Modest(g, K, s, c, ts)
    requires Match(s, c, q, order) && SpaceReachable(g, K, q)
    ensures Match(Exec(g, s, ts).value, CountsAfter(g, s, c, ts), q', order') && SpaceReachable(g, K, q')
    decreases |ts|
  {
    hide Inv, Match, SpaceReachable, Enabled, Do, Tally, Allowed;
    q', order' := q, order;
    if ts != [] {
      var q1, order1 := StepMatches(g, d0, K, s, c, q, order, ts[0]);
      LogSafety.StepKeeps(g, d0, s, ts[0]);
      q', order' := RunMatches(g, d0, K, Do(g, s, ts[0]), Tally(s, c, ts[0]), q1, order1, ts[1..]);
    }
  }

  /** Every run of the machine within the allowance ends in a state that a run of LogSpace reaches. */
  lemma Projection(g: Geometry, K: nat, disk: Disk, ts: seq<Step>) returns (q: LogSpace.Space, order: seq<Pid>)
    requires DiskValid(g, disk) && Exec(g, Init(disk), ts).Some? && Modest(g, K, Init(disk), map[], ts)
    ensures SpaceReachable(g, K, q)
    ensures Match(Exec(g, Init(disk), ts).value, CountsAfter(g, Init(disk), map[], ts), q, order)
  {
    hide Exec, Modest, CountsAfter, SpaceReachable;
    assert Inv(g, Replay(g, disk), Init(disk));
    SpaceStart(g, K);
    q, order := RunMatches(g, Replay(g, disk), K, Init(disk), map[], LogSpace.Empty, [], ts);
  }

  /**
   In every run of concurrent operations, commits and crashes in which each operation
   newly logs fewer than MAXOPBLOCKS blocks, no log_write meets the size panic.
   */
  lemma MachineNeverPanics(g: Geometry, K: nat, disk: Disk, ts: seq<Step>, p: Pid, b: nat)
    requires g.nlog >= LOGSIZE && K < MAXOPBLOCKS
    requires DiskValid(g, disk) && Exec(g, Init(disk), ts).Some? && Modest(g, K, Init(disk), map[], ts)
    requires
      var s := Exec(g, Init(disk), ts).value;
      && UserPhase(s) && Holds(s, p, b) && p in s.ops
      && Allowed(K, s, CountsAfter(g, Init(disk), map[], ts), LogWrite(p, b))
    ensures !LogWritePanics(g, Exec(g, Init(disk), ts).value.log)
  {
    hide Exec, Modest, CountsAfter, SpaceReachable, Inv, LogSpace.PanicFree;
    var s, c := Exec(g, Init(disk), ts).value, CountsAfter(g, Init(disk), map[], ts);
    var q, order := Projection(g, K, disk, ts);
    var i := Place(order, q.newly, c, p);
    HeldIsHome(g, disk, ts, p, b);
    LogSpace.SmallOperationsNeverPanic(g, K);
    NoPanicThere(g, K, q, i, b);
  }

  lemma HeldIsHome(g: Geometry, disk: Disk, ts: seq<Step>, p: Pid, b: nat)
    requires DiskValid(g, disk) && Exec(g, Init(disk), ts).Some?
    requires var s := Exec(g, Init(disk), ts).value; UserPhase(s) && Holds(s, p, b) && p in s.ops
    ensures g.Home(b) && Exec(g, Init(disk), ts).value.phase.Running?
  {
    hide Exec, EpochOk, HomeOk, LogRegionOk, SerialsOk;
    var s := Exec(g, Init(disk), ts).value;
    assert LogSafety.Reachable(g, disk, s);
    LogSafety.ReachableInv(g, disk, s);
    assert BufOk(g, s, View(Replay(g, disk), s.groups), b);
  }

  lemma NoPanicThere(g: Geometry, K: nat, q: LogSpace.Space, i: nat, b: nat)
    requires SpaceReachable(g, K, q) && LogSpace.PanicFree(g, K) && LogSpace.MayWrite(g, K, q, i, b)
    ensures !LogWritePanics(g, q.log)
  {
    hide LogWritePanics, LogSpace.MayWrite, LogSpace.Exec;
    var us :| LogSpace.Exec(g, K, LogSpace.Empty, us) == Some(q);
  }

  /** ... and with the documented allowance admission has always reserved what the operations in progress may still add. */
  lemma MachineReserves(g: Geometry, disk: Disk, ts: seq<Step>) returns (order: seq<Pid>, newly: seq<nat>)
    requires DiskValid(g, disk) && Exec(g, Init(disk), ts).Some? && Modest(g, MAXOPBLOCKS, Init(disk), map[], ts)
    ensures Listing(order, newly, CountsAfter(g, Init(disk), map[], ts))
    ensures
      var s := Exec(g, Init(disk), ts).value;
      s.ops != map[] && UserPhase(s) ==> |s.log.lh| + LogSpace.Reserve(MAXOPBLOCKS, newly) <= LOGSIZE
  {
    hide Exec, Modest, CountsAfter, SpaceReachable, EpochOk, HomeOk, LogRegionOk, SerialsOk, BufsOk, LogSpace.Reserve;
    var s, c := Exec(g, Init(disk), ts).value, CountsAfter(g, Init(disk), map[], ts);
    var q;
    q, order := Projection(g, MAXOPBLOCKS, disk, ts);
    newly := q.newly;
    ReservedThere(g, q);
    assert LogSafety.Reachable(g, disk, s);
    LogSafety.ReachableInv(g, disk, s);
    if s.ops != map[] {
      var p :| p in s.ops;
      assert p in c;
      var i := Place(order, newly, c, p);
    }
  }

  lemma ReservedThere(g: Geometry, q: LogSpace.Space)
    requires SpaceReachable(g, MAXOPBLOCKS, q)
    ensures q.newly != [] ==> |q.log.lh| + LogSpace.Reserve(MAXOPBLOCKS, q.newly) <= LOGSIZE
  {
    var us :| LogSpace.Exec(g, MAXOPBLOCKS, LogSpace.Empty, us) == Some(q);
    LogSpace.AdmissionReserves(g, us);
  }
}
