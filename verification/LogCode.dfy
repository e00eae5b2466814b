/**
 kernel/log.c as it runs in one thread: the in-place updates of `struct log`,
 and the block writes that commit and recovery issue, in order.
 */
module LogCode {
  import opened Params
  import opened LogDisk
  import opened LogState

  /** bread: a cached copy wins over the disk. */
  function Seen(d: Disk, cache: map<nat, Block>, b: nat): Block
    requires b < |d|
  {
    if b in cache then cache[b] else d[b]
  }

  // ---- the block writes of commit() and recover_from_log() ----

  /** write_log: copies the current contents of each logged block to its slot. */
  function LogWrites(g: Geometry, cache: map<nat, Block>, lh: seq<nat>, k: nat): (ws: seq<Write>)
    requires k <= |lh|
    requires forall i :: 0 <= i < |lh| ==> lh[i] in cache
    ensures |ws| == k
    ensures forall i :: 0 <= i < k ==> ws[i] == Write(g.logstart + 1 + i, cache[lh[i]])
  {
    if k == 0 then [] else LogWrites(g, cache, lh, k - 1) + [Write(g.Slot(k - 1), cache[lh[k - 1]])]
  }

  /** install_trans: copies each slot to its home block. */
  function InstallWrites(lh: seq<nat>, slots: seq<Block>, k: nat): (ws: seq<Write>)
    requires k <= |lh| == |slots|
    ensures |ws| == k
    ensures forall i :: 0 <= i < k ==> ws[i] == Write(lh[i], slots[i])
  {
    if k == 0 then [] else InstallWrites(lh, slots, k - 1) + [Write(lh[k - 1], slots[k - 1])]
  }

  function Contents(cache: map<nat, Block>, lh: seq<nat>): (r: seq<Block>)
    requires forall i :: 0 <= i < |lh| ==> lh[i] in cache
    ensures |r| == |lh|
  {
    seq(|lh|, i requires 0 <= i < |lh| => cache[lh[i]])
  }

  function SlotContents(g: Geometry, d: Disk, n: nat): (r: seq<Block>)
    requires g.Valid() && |d| == g.size && n <= g.Capacity()
    ensures |r| == n && forall i :: 0 <= i < n ==> r[i] == d[g.logstart + 1 + i]
  {
    seq(n, i requires 0 <= i < n => d[g.Slot(i)])
  }

  /** commit(): log, commit point, install, erase; nothing for an empty transaction. */
  function CommitWrites(g: Geometry, head: Block, cache: map<nat, Block>, lh: seq<nat>): seq<Write>
    requires |lh| < WORDS
    requires forall i :: 0 <= i < |lh| ==> lh[i] in cache
  {
    if lh == [] then []
    else
      LogWrites(g, cache, lh, |lh|)
      + [Write(g.logstart, PutHead(head, lh))]
      + InstallWrites(lh, Contents(cache, lh), |lh|)
      + [Write(g.logstart, PutHead(PutHead(head, lh), []))]
  }

  /** recover_from_log(): install what the header names, then erase it. */
  ghost function RecoveryWrites(g: Geometry, d: Disk): seq<Write>
    requires DiskValid(g, d)
  {
    var lh := Head(g, d);
    InstallWrites(lh, SlotContents(g, d, |lh|), |lh|) + [Write(g.logstart, PutHead(d[g.logstart], []))]
  }

  /** bunpin, once for each of the first `k` listed blocks. */
  function Unpin(pins: map<nat, int>, lh: seq<nat>, k: nat): (r: map<nat, int>)
    requires k <= |lh| && forall i :: 0 <= i < |lh| ==> lh[i] in pins
    ensures r.Keys == pins.Keys
  {
    if k == 0 then pins
    else
      var r := Unpin(pins, lh, k - 1);
      r[lh[k - 1] := r[lh[k - 1]] - 1]
  }

  /** Each listed block loses exactly one pin, the others none. */
  lemma {:induction false} UnpinAt(pins: map<nat, int>, lh: seq<nat>, k: nat, b: nat)
    requires k <= |lh| && forall i :: 0 <= i < |lh| ==> lh[i] in pins
    requires Distinct(lh) && b in pins
    ensures Unpin(pins, lh, k)[b] == pins[b] - if b in lh[..k] then 1 else 0
  {
    if k > 0 {
      UnpinAt(pins, lh, k - 1, b);
      assert lh[..k] == lh[..k - 1] + [lh[k - 1]];
    }
  }

  /** The disk once write_log has filled the first `k` slots. */
  function Fill(g: Geometry, d: Disk, cache: map<nat, Block>, lh: seq<nat>, k: nat): (r: Disk)
    requires g.Valid() && |d| == g.size && k <= |lh| <= g.Capacity()
    requires forall i :: 0 <= i < |lh| ==> lh[i] in cache
    ensures |r| == g.size
  {
    if k == 0 then d else Fill(g, d, cache, lh, k - 1)[g.Slot(k - 1) := cache[lh[k - 1]]]
  }

  /** write_log fills exactly the first `k` slots, each with the cached contents. */
  lemma {:induction false} FillAt(g: Geometry, d: Disk, cache: map<nat, Block>, lh: seq<nat>, k: nat)
    requires g.Valid() && |d| == g.size && k <= |lh| <= g.Capacity()
    requires forall i :: 0 <= i < |lh| ==> lh[i] in cache
    ensures forall i :: 0 <= i < k ==> Fill(g, d, cache, lh, k)[g.Slot(i)] == cache[lh[i]]
    ensures forall b: nat :: b < g.size && !(g.logstart < b < g.Slot(k)) ==> Fill(g, d, cache, lh, k)[b] == d[b]
  {
    if k > 0 {
      FillAt(g, d, cache, lh, k - 1);
    }
  }

  /** `e` is `d` with the listed home blocks as the cache has them. */
  ghost predicate HomeUpdated(g: Geometry, d: Disk, cache: map<nat, Block>, lh: seq<nat>, e: Disk)
    requires |d| == |e| == g.size
  {
    forall b: nat :: g.Home(b) ==> (b in lh ==> b in cache) && e[b] == if b in lh then cache[b] else d[b]
  }

  /** Filling the slots, then installing them, updates the home blocks from the cache. */
  lemma FillThenInstall(g: Geometry, d: Disk, cache: map<nat, Block>, lh: seq<nat>, h1: Block, h2: Block)
    requires g.Valid() && |d| == g.size && Loggable(g, lh)
    requires forall i :: 0 <= i < |lh| ==> lh[i] in cache
    ensures
      var e := Fill(g, d, cache, lh, |lh|)[g.logstart := h1];
      && SlotContents(g, e, |lh|) == Contents(cache, lh)
      && Install(g, e, lh, |lh|)[g.logstart] == h1
      && HomeUpdated(g, d, cache, lh, Install(g, e, lh, |lh|)[g.logstart := h2])
  {
    var e := Fill(g, d, cache, lh, |lh|)[g.logstart := h1];
    FillAt(g, d, cache, lh, |lh|);
    InstallKeepsLog(g, e, lh, |lh|, g.logstart);
    InstallAt(g, e, lh, |lh|);
    assert lh[..|lh|] == lh;
    forall b: nat | g.Home(b) && b in lh ensures Install(g, e, lh, |lh|)[b] == cache[b] && b in cache {
      var i :| 0 <= i < |lh| && lh[i] == b;
      assert Install(g, e, lh, |lh|)[lh[i]] == e[g.Slot(i)];
    }
  }

  lemma Join(t: seq<Write>, a: seq<Write>, h: Write, b: seq<Write>, c: Write)
    ensures t + a + [h] + b + [c] == t + (a + [h] + b + [c])
  {
  }

  lemma WriteLogStart(g: Geometry, d: Disk, cache: map<nat, Block>, lh: seq<nat>)
    requires g.Valid() && |d| == g.size && |lh| <= g.Capacity()
    requires forall i :: 0 <= i < |lh| ==> lh[i] in cache
    ensures LogWrites(g, cache, lh, 0) == [] && Fill(g, d, cache, lh, 0) == d
  {
  }

  lemma WriteLogStep(g: Geometry, d: Disk, cache: map<nat, Block>, lh: seq<nat>, k: nat)
    requires g.Valid() && |d| == g.size && k < |lh| <= g.Capacity()
    requires forall i :: 0 <= i < |lh| ==> lh[i] in cache
    ensures LogWrites(g, cache, lh, k + 1) == LogWrites(g, cache, lh, k) + [Write(g.Slot(k), cache[lh[k]])]
    ensures Fill(g, d, cache, lh, k + 1) == Fill(g, d, cache, lh, k)[g.Slot(k) := cache[lh[k]]]
  {
  }

  lemma InstallStart(g: Geometry, d: Disk, lh: seq<nat>, slots: seq<Block>, pins: map<nat, int>)
    requires g.Valid() && |d| == g.size && Loggable(g, lh) && |slots| == |lh|
    ensures InstallWrites(lh, slots, 0) == [] && Install(g, d, lh, 0) == d
    ensures (forall i :: 0 <= i < |lh| ==> lh[i] in pins) ==> Unpin(pins, lh, 0) == pins
  {
  }

  lemma InstallStep(g: Geometry, d: Disk, lh: seq<nat>, slots: seq<Block>, pins: map<nat, int>, k: nat, recovering: bool)
    requires g.Valid() && |d| == g.size && Loggable(g, lh) && k < |lh| == |slots|
    requires !recovering ==> forall i :: 0 <= i < |lh| ==> lh[i] in pins
    ensures InstallWrites(lh, slots, k + 1) == InstallWrites(lh, slots, k) + [Write(lh[k], slots[k])]
    ensures lh[k] < g.size && Install(g, d, lh, k + 1) == Install(g, d, lh, k)[lh[k] := Install(g, d, lh, k)[g.Slot(k)]]
    ensures !recovering ==> Unpin(pins, lh, k + 1) == Unpin(pins, lh, k)[lh[k] := Unpin(pins, lh, k)[lh[k]] - 1]
  {
    InstallKeepsLog(g, d, lh, k, g.Slot(k));
  }

  // ---- the code ----

  class Log {
    const g: Geometry
    // struct log
    const block: array<nat>
    var n: nat
    var outstanding: int
    var committing: bool
    // the disk, the contents of cached buffers, and how often each is pinned
    var disk: Disk
    var cache: map<nat, Block>
    var pins: map<nat, int>
    // every bwrite so far
    ghost var trace: seq<Write>

    /** The log list is sound and the cache never disagrees with the log region. */
    ghost predicate Consistent()
      reads this, block
    {
      && g.Valid()
      && |disk| == g.size
      && block.Length == LOGSIZE
      && n <= LOGSIZE
      && Loggable(g, block[..n])
      && (forall b :: b in cache ==> b < g.size)
      && (forall b :: b in cache && g.InLog(b) ==> cache[b] == disk[b])
    }

    /** In addition every logged block is cached and pinned. */
    ghost predicate Cached()
      reads this, block
    {
      && Consistent()
      && (forall i :: 0 <= i < n ==> block[i] in cache && block[i] in pins)
    }

    /** Outside commit and recovery the header on the disk is erased. */
    ghost predicate Valid()
      reads this, block
    {
      Cached() && disk[g.logstart][0] == 0
    }

    ghost function State(): LogState
      reads this, block
      requires n <= block.Length
    {
      LogState(block[..n], outstanding, committing)
    }

    constructor Initlog(g: Geometry, disk: Disk)
      requires DiskValid(g, disk)
      ensures Valid() && this.g == g
      ensures this.disk == Replay(g, disk)[g.logstart := PutHead(disk[g.logstart], [])]
      ensures trace == RecoveryWrites(g, disk)
      ensures State() == LogState([], 0, false)
    {
      this.g := g;
      this.disk := disk;
      block := new nat[LOGSIZE];
      n, outstanding, committing := 0, 0, false;
      cache, pins, trace := map[], map[], [];
      new;
      RecoverFromLog();
      assert trace == RecoveryWrites(g, disk);
    }

    method Bwrite(b: nat, data: Block)
      requires b < |disk|
      modifies this`disk, this`cache, this`trace
      ensures disk == old(disk)[b := data] && cache == old(cache)[b := data]
      ensures trace == old(trace) + [Write(b, data)]
    {
      disk := disk[b := data];
      cache := cache[b := data];
      trace := trace + [Write(b, data)];
    }

    /** Copy the on-disk header into memory. */
    method ReadHead()
      requires DiskValid(g, disk) && block.Length == LOGSIZE
      requires g.logstart in cache ==> cache[g.logstart] == disk[g.logstart]
      modifies this`n, block
      ensures n <= LOGSIZE && block[..n] == Head(g, disk)
    {
      var buf := Seen(disk, cache, g.logstart);
      n := buf[0];
      var i := 0;
      while i < n
        invariant 0 <= i <= n == buf[0]
        invariant forall j :: 0 <= j < i ==> block[j] == buf[1 + j]
      {
        block[i] := buf[1 + i];
        i := i + 1;
      }
      assert block[..n] == Head(g, disk);
    }

    /** Store the in-memory header in the header block. */
    method WriteHead()
      requires Consistent()
      modifies this`disk, this`cache, this`trace
      ensures Consistent()
      ensures trace == old(trace) + [Write(g.logstart, PutHead(old(disk)[g.logstart], block[..n]))]
      ensures disk == old(disk)[g.logstart := PutHead(old(disk)[g.logstart], block[..n])]
      ensures forall b :: b != g.logstart ==> (b in cache <==> b in old(cache))
      ensures forall b :: b != g.logstart && b in cache ==> cache[b] == old(cache)[b]
    {
      var hb: Block := Seen(disk, cache, g.logstart);
      var head := hb;
      hb := hb[0 := n];
      var i := 0;
      while i < n
        invariant 0 <= i <= n
        invariant hb == [n] + block[..i] + head[1 + i..]
      {
        hb := hb[1 + i := block[i]];
        i := i + 1;
      }
      assert hb == PutHead(head, block[..n]);
      Bwrite(g.logstart, hb);
    }

    /** Copy the current contents of the logged blocks to the log. */
    method WriteLog()
      requires Cached()
      modifies this`disk, this`cache, this`trace
      ensures Cached()
      ensures trace == old(trace) + LogWrites(g, old(cache), block[..n], n)
      ensures disk == Fill(g, old(disk), old(cache), block[..n], n)
    {
      hide Fill, LogWrites;
      var tail := 0;
      ghost var lh := block[..n];
      WriteLogStart(g, disk, cache, lh);
      while tail < n
        invariant 0 <= tail <= n && lh == block[..n] && Cached()
        invariant trace == old(trace) + LogWrites(g, old(cache), lh, tail)
        invariant disk == Fill(g, old(disk), old(cache), lh, tail)
        invariant forall i :: 0 <= i < |lh| ==> cache[lh[i]] == old(cache)[lh[i]]
      {
        var from := Seen(disk, cache, block[tail]);
        assert g.InLog(g.Slot(tail)) && g.Home(lh[tail]);
        WriteLogStep(g, old(disk), old(cache), lh, tail);
        Bwrite(g.Slot(tail), from);
        tail := tail + 1;
      }
    }

    /** Copy each slot to its home block; a commit also drops the pin that log_write took. */
    method InstallTrans(recovering: bool)
      requires Consistent()
      requires !recovering ==> forall i :: 0 <= i < n ==> block[i] in pins
      modifies this`disk, this`cache, this`trace, this`pins
      ensures Consistent()
      ensures trace == old(trace) + InstallWrites(block[..n], SlotContents(g, old(disk), n), n)
      ensures disk == Install(g, old(disk), block[..n], n)
      ensures pins == if recovering then old(pins) else Unpin(old(pins), block[..n], n)
    {
      hide Install, InstallWrites, Unpin;
      var tail := 0;
      ghost var lh := block[..n];
      ghost var slots := SlotContents(g, disk, n);
      InstallStart(g, disk, lh, slots, pins);
      while tail < n
        invariant 0 <= tail <= n && lh == block[..n] && Consistent()
        invariant trace == old(trace) + InstallWrites(lh, slots, tail)
        invariant disk == Install(g, old(disk), lh, tail)
        invariant pins == if recovering then old(pins) else Unpin(old(pins), lh, tail)
      {
        assert g.InLog(g.Slot(tail));
        InstallKeepsLog(g, old(disk), lh, tail, g.Slot(tail));
        InstallStep(g, old(disk), lh, slots, old(pins), tail, recovering);
        InstallOne(tail, recovering);
        tail := tail + 1;
      }
    }

    /** The body of install_trans's loop. */
    method InstallOne(tail: nat, recovering: bool)
      requires Consistent() && tail < n
      requires !recovering ==> block[tail] in pins
      modifies this`disk, this`cache, this`trace, this`pins
      ensures Consistent()
      ensures g.Slot(tail) < g.size && block[tail] < g.size
      ensures trace == old(trace) + [Write(block[tail], old(disk)[g.Slot(tail)])]
      ensures disk == old(disk)[block[tail] := old(disk)[g.Slot(tail)]]
      ensures pins == if recovering then old(pins) else old(pins)[block[tail] := old(pins)[block[tail]] - 1]
    {
      assert g.InLog(g.Slot(tail)) && g.Home(block[..n][tail]);
      var lbuf := Seen(disk, cache, g.Slot(tail));
      Bwrite(block[tail], lbuf);
      if !recovering {
        pins := pins[block[tail] := pins[block[tail]] - 1];
      }
    }

    method RecoverFromLog()
      requires DiskValid(g, disk) && block.Length == LOGSIZE && cache == map[]
      modifies this`n, this`disk, this`cache, this`trace, this`pins, block
      ensures Consistent() && n == 0
      ensures trace == old(trace) + RecoveryWrites(g, old(disk))
      ensures outstanding == old(outstanding) && committing == old(committing)
      ensures disk == Replay(g, old(disk))[g.logstart := PutHead(old(disk)[g.logstart], [])]
    {
      ReadHead();
      ghost var lh := block[..n];
      InstallTrans(true);
      InstallKeepsLog(g, old(disk), lh, |lh|, g.logstart);
      n := 0;
      WriteHead();
      assert block[..n] == [];
    }

    /** Log, commit, install, erase. */
    method Commit()
      requires Valid()
      modifies this`n, this`disk, this`cache, this`trace, this`pins
      ensures Valid() && n == 0
      ensures trace == old(trace) + CommitWrites(g, old(disk)[g.logstart], old(cache), old(block[..n]))
      ensures HomeUpdated(g, old(disk), old(cache), old(block[..n]), disk)
      ensures pins == Unpin(old(pins), old(block[..n]), old(n))
    {
      ghost var lh, head := block[..n], disk[g.logstart];
      if n > 0 {
        FillThenInstall(g, disk, cache, lh, PutHead(head, lh), PutHead(PutHead(head, lh), []));
        LogAndMark();
        InstallAndErase();
        Join(old(trace), LogWrites(g, old(cache), lh, |lh|), Write(g.logstart, PutHead(head, lh)),
             InstallWrites(lh, Contents(old(cache), lh), |lh|), Write(g.logstart, PutHead(PutHead(head, lh), [])));
      }
      assert block[..n] == [];
    }

    /** commit's first half, up to the header write that commits the transaction. */
    method LogAndMark()
      requires Cached()
      modifies this`disk, this`cache, this`trace
      ensures Cached()
      ensures trace == old(trace) + LogWrites(g, old(cache), block[..n], n)
                       + [Write(g.logstart, PutHead(old(disk)[g.logstart], block[..n]))]
      ensures disk == Fill(g, old(disk), old(cache), block[..n], n)
                      [g.logstart := PutHead(old(disk)[g.logstart], block[..n])]
    {
      FillAt(g, disk, cache, block[..n], n);
      WriteLog();
      WriteHead();
    }

    /** commit's second half: install the transaction and erase it from the log. */
    method InstallAndErase()
      requires Cached()
      modifies this`n, this`disk, this`cache, this`trace, this`pins
      ensures Consistent() && n == 0
      ensures trace == old(trace) + InstallWrites(old(block[..n]), SlotContents(g, old(disk), old(n)), old(n))
                       + [Write(g.logstart, PutHead(old(disk)[g.logstart], []))]
      ensures disk == Install(g, old(disk), old(block[..n]), old(n))
                      [g.logstart := PutHead(old(disk)[g.logstart], [])]
      ensures pins == Unpin(old(pins), old(block[..n]), old(n))
    {
      InstallKeepsLog(g, disk, block[..n], n, g.logstart);
      InstallTrans(false);
      n := 0;
      assert block[..n] == [];
      WriteHead();
    }

    /** One pass of begin_op's loop; the caller sleeps when it returns false. */
    method BeginOp() returns (admitted: bool)
      requires Valid()
      modifies this`outstanding
      ensures Valid()
      ensures !admitted <==> committing || n + (old(outstanding) + 1) * MAXOPBLOCKS > LOGSIZE
      ensures outstanding == old(outstanding) + if admitted then 1 else 0
      ensures admitted <==> Admits(old(State()))
      ensures State() == if admitted then Began(old(State())) else old(State())
    {
      if committing {
        admitted := false;
      } else if n + (outstanding + 1) * MAXOPBLOCKS > LOGSIZE {
        admitted := false;
      } else {
        outstanding := outstanding + 1;
        admitted := true;
      }
    }

    /** The locked part of end_op; the caller commits when it says so. */
    method EndOp() returns (panics: bool, doCommit: bool)
      requires Valid()
      modifies this`outstanding, this`committing
      ensures Valid() && (panics <==> old(committing)) && (panics <==> EndPanics(old(State())))
      ensures outstanding == old(outstanding) - 1
      ensures !panics ==> State() == Ended(old(State())) && (doCommit <==> old(outstanding) == 1) && committing == doCommit
    {
      panics, doCommit := false, false;
      outstanding := outstanding - 1;
      if committing {
        return true, false;
      }
      if outstanding == 0 {
        doCommit := true;
        committing := true;
      }
    }

    /** A client of the buffer cache reads home block `b`, or changes its cached contents. */
    method Modify(b: nat, data: Block)
      requires Valid() && g.Home(b)
      modifies this`cache
      ensures Valid() && cache == old(cache)[b := data]
    {
      cache := cache[b := data];
    }

    /** Record that cached block `b` was modified, pinning it the first time; or the panics for a full log and for no transaction. */
    method LogWrite(b: nat) returns (panics: bool)
      requires Valid() && g.Home(b) && b in cache
      modifies this`n, this`pins, block
      ensures Valid()
      ensures panics <==> old(n) >= LOGSIZE || old(n) >= g.nlog - 1 || outstanding < 1
      ensures panics <==> LogWritePanics(g, old(State()))
      ensures panics ==> State() == old(State()) && pins == old(pins)
      ensures !panics ==> block[..n] == if b in old(block[..n]) then old(block[..n]) else old(block[..n]) + [b]
      ensures !panics ==> State() == Logged(old(State()), b)
      ensures !panics ==>
        pins == if b in old(block[..n]) then old(pins)
                else old(pins)[b := (if b in old(pins) then old(pins)[b] else 0) + 1]
    {
      if n >= LOGSIZE || n >= g.nlog - 1 {
        return true;
      }
      if outstanding < 1 {
        return true;
      }
      ghost var lh := block[..n];
      var i := 0;
      while i < n && block[i] != b
        invariant 0 <= i <= n
        invariant b !in block[..i]
      {
        i := i + 1;
      }
      block[i] := b;
      if i == n {
        assert block[..n + 1] == lh + [b];
        pins := pins[b := (if b in pins then pins[b] else 0) + 1];
        n := n + 1;
      } else {
        assert block[..n] == lh;
      }
      panics := false;
    }
  }
}
