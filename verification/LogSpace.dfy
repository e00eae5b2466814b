/**
 Log space: can log_write's "too big a transaction" panic happen?  Operations run
 concurrently; each may newly log at most `K` blocks, and may rewrite blocks that
 are already in the log as often as it likes.
 */
module LogSpace {
  import opened Params
  import opened Options
  import opened LogDisk
  import opened LogState

  /** `newly` has, for each operation in progress, how many blocks it added to the log. */
  datatype Space = Space(log: LogState, newly: seq<nat>)

  datatype Step = Begin | Put(i: nat, b: nat) | End(i: nat) | Commit

  /** Operation `i` may call log_write on block `b`, which is on the disk outside the log region. */
  predicate MayWrite(g: Geometry, K: nat, s: Space, i: nat, b: nat) {
    g.Home(b) && i < |s.newly| && (b in s.log.lh || s.newly[i] < K)
  }

  /** A log as large as mkfs makes it, on a disk with at least LOGSIZE other blocks. */
  ghost predicate Ample(g: Geometry) {
    g.Valid() && g.nlog >= LOGSIZE && g.size >= g.nlog + LOGSIZE
  }

  predicate Enabled(g: Geometry, K: nat, s: Space, t: Step) {
    match t
    case Begin => Admits(s.log)
    case Put(i, b) => MayWrite(g, K, s, i, b) && !LogWritePanics(g, s.log)
    case End(i) => i < |s.newly|
    case Commit => s.log.committing
  }

  function Do(g: Geometry, K: nat, s: Space, t: Step): Space
    requires Enabled(g, K, s, t)
  {
    match t
    case Begin => Space(Began(s.log), s.newly + [0])
    case Put(i, b) =>
      Space(Logged(s.log, b), if b in s.log.lh then s.newly else s.newly[i := s.newly[i] + 1])
    case End(i) => Space(Ended(s.log), s.newly[..i] + s.newly[i + 1..])
    case Commit => Space(LogState([], 0, false), s.newly)
  }

  function Exec(g: Geometry, K: nat, s: Space, ts: seq<Step>): Option<Space>
    decreases |ts|
  {
    if ts == [] then Some(s)
    else if Enabled(g, K, s, ts[0]) then Exec(g, K, Do(g, K, s, ts[0]), ts[1..])
    else None
  }

  const Empty := Space(LogState([], 0, false), [])

  /** No run lets an operation run into log_write's panic. */
  ghost predicate PanicFree(g: Geometry, K: nat) {
    forall ts, i, b | Exec(g, K, Empty, ts).Some? ::
      MayWrite(g, K, Exec(g, K, Empty, ts).value, i, b) ==> !LogWritePanics(g, Exec(g, K, Empty, ts).value.log)
  }

  /** The blocks the operations in progress may still add. */
  function Reserve(K: nat, newly: seq<nat>): int {
    if newly == [] then 0 else K - newly[0] + Reserve(K, newly[1..])
  }

  lemma {:induction false} ReserveAppend(K: nat, xs: seq<nat>, ys: seq<nat>)
    ensures Reserve(K, xs + ys) == Reserve(K, xs) + Reserve(K, ys)
  {
    if xs == [] {
      assert xs + ys == ys;
    } else {
      assert (xs + ys)[1..] == xs[1..] + ys;
      ReserveAppend(K, xs[1..], ys);
    }
  }

  lemma ReserveSplit(K: nat, xs: seq<nat>, i: nat)
    requires i < |xs|
    ensures Reserve(K, xs) == Reserve(K, xs[..i]) + (K - xs[i]) + Reserve(K, xs[i + 1..])
  {
    assert xs == xs[..i] + xs[i..] && xs[i..][1..] == xs[i + 1..];
    ReserveAppend(K, xs[..i], xs[i..]);
  }

  lemma {:induction false} ReserveNonNegative(K: nat, xs: seq<nat>)
    requires forall i :: 0 <= i < |xs| ==> xs[i] <= K
    ensures Reserve(K, xs) >= 0 && Reserve(K, xs) <= K * |xs|
  {
    if xs != [] {
      ReserveNonNegative(K, xs[1..]);
    }
  }

  /** What admission reserves, for operations of at most K <= MAXOPBLOCKS blocks. */
  ghost predicate SpaceOk(K: nat, s: Space) {
    && s.log.outstanding == |s.newly|
    && (forall i :: 0 <= i < |s.newly| ==> s.newly[i] <= K)
    && (s.log.committing ==> s.newly == [])
    && (s.newly == [] && !s.log.committing ==> s.log.lh == [])
    && (s.newly != [] ==> |s.log.lh| + Reserve(K, s.newly) <= LOGSIZE - 2 * (MAXOPBLOCKS - K))
  }

  /** Trading MAXOPBLOCKS per operation for K, with at least two operations. */
  lemma Trade(n: nat, m: nat, K: nat)
    requires n + m * MAXOPBLOCKS <= LOGSIZE && m >= 2 && K <= MAXOPBLOCKS
    ensures n + K * m <= LOGSIZE - 2 * (MAXOPBLOCKS - K)
  {
    var spare := MAXOPBLOCKS - K;
    assert m * MAXOPBLOCKS == K * m + spare * m;
    assert spare * m >= spare * 2;
  }

  lemma BeginKeeps(g: Geometry, K: nat, s: Space)
    requires K <= MAXOPBLOCKS && SpaceOk(K, s) && Admits(s.log)
    ensures SpaceOk(K, Do(g, K, s, Begin))
  {
    ReserveAppend(K, s.newly, [0]);
    ReserveNonNegative(K, s.newly);
    if s.newly == [] {
      assert s.newly + [0] == [0];
    } else {
      Trade(|s.log.lh|, |s.newly| + 1, K);
      assert K * (|s.newly| + 1) == K * |s.newly| + K;
    }
  }

  lemma PutKeeps(g: Geometry, K: nat, s: Space, i: nat, b: nat)
    requires K <= MAXOPBLOCKS && SpaceOk(K, s) && Enabled(g, K, s, Put(i, b))
    ensures SpaceOk(K, Do(g, K, s, Put(i, b)))
  {
    if b !in s.log.lh {
      var newly := s.newly[i := s.newly[i] + 1];
      ReserveSplit(K, s.newly, i);
      ReserveSplit(K, newly, i);
      assert newly[..i] == s.newly[..i] && newly[i + 1..] == s.newly[i + 1..];
    }
  }

  lemma StepKeeps(g: Geometry, K: nat, s: Space, t: Step)
    requires K <= MAXOPBLOCKS && SpaceOk(K, s) && Enabled(g, K, s, t)
    ensures SpaceOk(K, Do(g, K, s, t))
  {
    match t
    case Begin => BeginKeeps(g, K, s);
    case Put(i, b) => PutKeeps(g, K, s, i, b);
    case End(i) =>
      ReserveSplit(K, s.newly, i);
      ReserveAppend(K, s.newly[..i], s.newly[i + 1..]);
    case Commit =>
  }

  lemma {:induction false} ExecKeeps(g: Geometry, K: nat, s: Space, ts: seq<Step>)
    requires K <= MAXOPBLOCKS && SpaceOk(K, s) && Exec(g, K, s, ts).Some?
    ensures SpaceOk(K, Exec(g, K, s, ts).value)
    decreases |ts|
  {
    if ts != [] {
      StepKeeps(g, K, s, ts[0]);
      ExecKeeps(g, K, Do(g, K, s, ts[0]), ts[1..]);
    }
  }

  /** The reservation the comment in begin_op promises: room for MAXOPBLOCKS per operation. */
  lemma AdmissionReserves(g: Geometry, ts: seq<Step>)
    requires Exec(g, MAXOPBLOCKS, Empty, ts).Some?
    ensures
      var s := Exec(g, MAXOPBLOCKS, Empty, ts).value;
      s.newly != [] ==> |s.log.lh| + Reserve(MAXOPBLOCKS, s.newly) <= LOGSIZE
  {
    ExecKeeps(g, MAXOPBLOCKS, Empty, ts);
  }

  predicate Counted(s: Space) {
    s.log.outstanding == |s.newly| && (s.log.committing ==> s.newly == [])
  }

  lemma {:induction false} CountsOperations(g: Geometry, K: nat, s: Space, ts: seq<Step>)
    requires Counted(s) && Exec(g, K, s, ts).Some?
    ensures Counted(Exec(g, K, s, ts).value)
    decreases |ts|
  {
    if ts != [] {
      CountsOperations(g, K, Do(g, K, s, ts[0]), ts[1..]);
    }
  }

  /**
   begin_op lets the caller in exactly when no commit is running and the blocks already
   logged, with MAXOPBLOCKS for each operation in progress and for the caller, fit LOGSIZE.
   */
  lemma BeginIff(g: Geometry, K: nat, ts: seq<Step>)
    requires Exec(g, K, Empty, ts).Some?
    ensures
      var s := Exec(g, K, Empty, ts).value;
      Enabled(g, K, s, Begin) <==> !s.log.committing && |s.log.lh| + |s.newly| * MAXOPBLOCKS + MAXOPBLOCKS <= LOGSIZE
  {
    CountsOperations(g, K, Empty, ts);
  }

  lemma SmallOperationsNeverPanic(g: Geometry, K: nat)
    requires g.nlog >= LOGSIZE && K < MAXOPBLOCKS
    ensures PanicFree(g, K)
  {
    forall ts, i, b | Exec(g, K, Empty, ts).Some? && MayWrite(g, K, Exec(g, K, Empty, ts).value, i, b)
      ensures !LogWritePanics(g, Exec(g, K, Empty, ts).value.log)
    {
      var s := Exec(g, K, Empty, ts).value;
      ExecKeeps(g, K, Empty, ts);
      ReserveNonNegative(K, s.newly);
    }
  }

  // ---- a run that panics although no operation exceeds MAXOPBLOCKS ----

  /** The i-th block outside the log region. */
  function HomeBlock(g: Geometry, i: nat): nat {
    if i < g.logstart then i else i + g.nlog
  }

  /** The first `k` of them. */
  function Homes(g: Geometry, k: nat): (r: seq<nat>)
    ensures |r| == k && forall i :: 0 <= i < k ==> r[i] == HomeBlock(g, i)
  {
    seq(k, i requires 0 <= i => HomeBlock(g, i))
  }

  /** Operation `i` logs home blocks from, from+1, ..., from+k-1. */
  function Writes(g: Geometry, i: nat, from: nat, k: nat): seq<Step>
    decreases k
  {
    if k == 0 then [] else [Put(i, HomeBlock(g, from))] + Writes(g, i, from + 1, k - 1)
  }

  lemma {:induction false} ExecAppend(g: Geometry, K: nat, s: Space, ts: seq<Step>, us: seq<Step>)
    requires Exec(g, K, s, ts).Some?
    ensures Exec(g, K, s, ts + us) == Exec(g, K, Exec(g, K, s, ts).value, us)
    decreases |ts|
  {
    if ts == [] {
      assert ts + us == us;
    } else {
      assert (ts + us)[1..] == ts[1..] + us;
      ExecAppend(g, K, Do(g, K, s, ts[0]), ts[1..], us);
    }
  }

  /** A state with `n` blocks logged by three operations in progress. */
  function Filled(g: Geometry, n: nat, newly: seq<nat>): Space {
    Space(LogState(Homes(g, n), 3, false), newly)
  }

  lemma WriteRuns(g: Geometry, K: nat, n: nat, newly: seq<nat>, i: nat)
    requires Ample(g) && |newly| == 3 && i < 3 && newly[i] < K && n < LOGSIZE && n < g.nlog - 1
    ensures Enabled(g, K, Filled(g, n, newly), Put(i, HomeBlock(g, n)))
    ensures Do(g, K, Filled(g, n, newly), Put(i, HomeBlock(g, n))) == Filled(g, n + 1, newly[i := newly[i] + 1])
  {
    assert HomeBlock(g, n) !in Homes(g, n) && Homes(g, n) + [HomeBlock(g, n)] == Homes(g, n + 1);
  }

  lemma {:induction false} WritesRun(g: Geometry, K: nat, n: nat, newly: seq<nat>, i: nat, k: nat)
    requires Ample(g) && |newly| == 3 && i < 3 && newly[i] + k <= K && n + k <= LOGSIZE && n + k <= g.nlog - 1
    ensures Exec(g, K, Filled(g, n, newly), Writes(g, i, n, k)) == Some(Filled(g, n + k, newly[i := newly[i] + k]))
    decreases k
  {
    hide Do, Enabled, Filled, HomeBlock, Ample;
    if k == 0 {
      assert newly[i := newly[i] + 0] == newly;
    } else {
      var more := newly[i := newly[i] + 1];
      WriteRuns(g, K, n, newly, i);
      WritesRun(g, K, n + 1, more, i, k - 1);
      assert Writes(g, i, n, k)[1..] == Writes(g, i, n + 1, k - 1);
      assert more[i := more[i] + (k - 1)] == newly[i := newly[i] + k];
    }
  }

  const ThreeOps: seq<Step> := [Begin, Begin, Begin]

  lemma ThreeBegin(g: Geometry, K: nat)
    ensures Exec(g, K, Empty, ThreeOps) == Some(Space(LogState([], 3, false), [0, 0, 0]))
  {
    var s1 := Do(g, K, Empty, Begin);
    assert s1 == Space(LogState([], 1, false), [0]);
    var s2 := Do(g, K, s1, Begin);
    assert s2 == Space(LogState([], 2, false), [0, 0]);
    var s3 := Do(g, K, s2, Begin);
    assert s3 == Space(LogState([], 3, false), [0, 0, 0]);
    assert ThreeOps[1..] == [Begin, Begin] && [Begin, Begin][1..] == [Begin];
    assert Exec(g, K, s2, [Begin]) == Exec(g, K, s3, []);
  }

  lemma Fill(g: Geometry, K: nat, n: nat, newly: seq<nat>, i: nat, k: nat, ts: seq<Step>)
    requires Ample(g) && |newly| == 3 && i < 3 && newly[i] + k <= K && n + k <= LOGSIZE && n + k <= g.nlog - 1
    requires Exec(g, K, Empty, ts) == Some(Filled(g, n, newly))
    ensures Exec(g, K, Empty, ts + Writes(g, i, n, k)) == Some(Filled(g, n + k, newly[i := newly[i] + k]))
  {
    WritesRun(g, K, n, newly, i, k);
    ExecAppend(g, K, Empty, ts, Writes(g, i, n, k));
  }

  /** One operation in progress that has logged 6 blocks: a second one is let in, and a third is not. */
  lemma PartlyFull(g: Geometry, K: nat) returns (s: Space, ts: seq<Step>)
    requires Ample(g) && K >= 6
    ensures Exec(g, K, Empty, ts) == Some(s) && |s.log.lh| == 6 && |s.newly| == 1 && Enabled(g, K, s, Begin)
    ensures !Enabled(g, K, Do(g, K, s, Begin), Begin)
  {
    var s1 := Do(g, K, Empty, Begin);
    assert s1 == Space(LogState([], 1, false), [0]);
    assert Exec(g, K, s1, []) == Some(s1);
    assert [Begin][1..] == [];
    ts := [Begin];
    s := s1;
    var n := 0;
    while n < 6
      invariant n <= 6 && Exec(g, K, Empty, ts) == Some(s) && s == Space(LogState(Homes(g, n), 1, false), [n])
    {
      OneMore(g, K, n);
      ExecAppend(g, K, Empty, ts, [Put(0, HomeBlock(g, n))]);
      var s' := Do(g, K, s, Put(0, HomeBlock(g, n)));
      assert [Put(0, HomeBlock(g, n))][1..] == [];
      assert Exec(g, K, s', []) == Some(s');
      ts, s, n := ts + [Put(0, HomeBlock(g, n))], s', n + 1;
    }
  }

  lemma OneMore(g: Geometry, K: nat, n: nat)
    requires Ample(g) && n < 6 <= K
    ensures
      var s := Space(LogState(Homes(g, n), 1, false), [n]);
      && Enabled(g, K, s, Put(0, HomeBlock(g, n)))
      && Do(g, K, s, Put(0, HomeBlock(g, n))) == Space(LogState(Homes(g, n + 1), 1, false), [n + 1])
  {
    assert HomeBlock(g, n) !in Homes(g, n) && Homes(g, n) + [HomeBlock(g, n)] == Homes(g, n + 1);
  }

  /** Three operations that log `x`, `y` and `z` new blocks. */
  lemma FillThree(g: Geometry, K: nat, x: nat, y: nat, z: nat) returns (ts: seq<Step>)
    requires Ample(g) && x <= K && y <= K && z <= K
    requires x + y + z <= LOGSIZE && x + y + z <= g.nlog - 1
    ensures Exec(g, K, Empty, ts) == Some(Filled(g, x + y + z, [x, y, z]))
  {
    hide Exec, Writes, Homes, HomeBlock, Ample;
    ThreeBegin(g, K);
    assert Homes(g, 0) == [];
    Fill(g, K, 0, [0, 0, 0], 0, x, ThreeOps);
    assert [0, 0, 0][0 := x] == [x, 0, 0];
    ts := ThreeOps + Writes(g, 0, 0, x);
    Fill(g, K, x, [x, 0, 0], 1, y, ts);
    assert [x, 0, 0][1 := y] == [x, y, 0];
    ts := ts + Writes(g, 1, x, y);
    Fill(g, K, x + y, [x, y, 0], 2, z, ts);
    assert [x, y, 0][2 := z] == [x, y, z];
    ts := ts + Writes(g, 2, x + y, z);
  }

  /** Three concurrent operations of MAXOPBLOCKS blocks each fill the log and panic. */
  lemma FullOperationsPanic(g: Geometry, K: nat)
    requires Ample(g) && K >= MAXOPBLOCKS
    ensures !PanicFree(g, K)
  {
    var ts := FillThree(g, K, 10, 10, if g.nlog == LOGSIZE then 9 else 10);
    var s := Exec(g, K, Empty, ts).value;
    var b := HomeBlock(g, 0);
    assert s.log.lh[0] == b;
    assert MayWrite(g, K, s, 2, b) && LogWritePanics(g, s.log);
  }

  /**
   The log is large enough exactly for operations of fewer than MAXOPBLOCKS
   blocks.  An operation that uses its whole allowance can panic, because
   log_write tests for a full log before it looks for absorption and because
   the header takes one of the nlog blocks.
   */
  lemma PanicFreeIff(g: Geometry, K: nat)
    requires Ample(g)
    ensures PanicFree(g, K) <==> K < MAXOPBLOCKS
  {
    if K < MAXOPBLOCKS {
      SmallOperationsNeverPanic(g, K);
    } else {
      FullOperationsPanic(g, K);
    }
  }
}
