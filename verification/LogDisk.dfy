/**
 The on-disk write-ahead log of kernel/log.c: a header block that names home
 blocks, followed by one slot per logged block.  This module defines the disk,
 the header format and `Replay`, the disk that recovery produces.
 */
module LogDisk {
  import opened Params

  /** A block of BSIZE bytes, seen as words. */
  type Block = b: seq<nat> | |b| == WORDS witness seq(WORDS, _ => 0)

  type Disk = seq<Block>

  /** The part of the superblock that the log uses. */
  datatype Geometry = Geometry(size: nat, logstart: nat, nlog: nat)
  {
    /** A log with room for its header and at least one slot, inside the disk. */
    ghost predicate Valid() {
      2 <= nlog && logstart + nlog <= size
    }

    predicate InLog(b: nat) {
      logstart <= b < logstart + nlog
    }

    /** A block that may be logged: on the disk and outside the log region. */
    predicate Home(b: nat) {
      b < size && !InLog(b)
    }

    function Slot(i: nat): nat {
      logstart + 1 + i
    }

    /** The most blocks that one transaction can hold. */
    function Capacity(): int {
      if LOGSIZE < nlog - 1 then LOGSIZE else nlog - 1
    }
  }

  ghost predicate Distinct(xs: seq<nat>) {
    forall i, j :: 0 <= i < j < |xs| ==> xs[i] != xs[j]
  }

  /** A list of logged block numbers that fits the log. */
  ghost predicate Loggable(g: Geometry, lh: seq<nat>) {
    && |lh| <= g.Capacity()
    && Distinct(lh)
    && forall i :: 0 <= i < |lh| ==> g.Home(lh[i])
  }

  // ---- header format ----

  /** The block numbers a header block names. */
  function GetHead(b: Block): seq<nat>
    requires b[0] < WORDS
  {
    b[1..1 + b[0]]
  }

  /** The header block `b` after `lh` has been stored in it; the words after the list stay. */
  function PutHead(b: Block, lh: seq<nat>): Block
    requires |lh| < WORDS
  {
    [|lh|] + lh + b[1 + |lh|..]
  }

  lemma HeadRoundTrip(b: Block, lh: seq<nat>)
    requires |lh| < WORDS
    ensures PutHead(b, lh)[0] == |lh| && GetHead(PutHead(b, lh)) == lh
    ensures forall k: nat :: 0 < k < WORDS ==> PutHead(b, lh)[k] == if k <= |lh| then lh[k - 1] else b[k]
  {
    assert PutHead(b, lh)[1..1 + |lh|] == lh;
  }

  /** The disk has the right size and its header is one that commit or recovery wrote. */
  ghost predicate DiskValid(g: Geometry, d: Disk) {
    && g.Valid()
    && |d| == g.size
    && d[g.logstart][0] < WORDS
    && Loggable(g, GetHead(d[g.logstart]))
  }

  ghost function Head(g: Geometry, d: Disk): seq<nat>
    requires DiskValid(g, d)
  {
    GetHead(d[g.logstart])
  }

  // ---- block writes ----

  datatype Write = Write(block: nat, data: Block)

  ghost predicate OnDisk(size: nat, ws: seq<Write>) {
    forall i :: 0 <= i < |ws| ==> ws[i].block < size
  }

  /** The disk after the writes `ws`, in order. */
  ghost function Apply(d: Disk, ws: seq<Write>): (r: Disk)
    requires OnDisk(|d|, ws)
    ensures |r| == |d|
    decreases |ws|
  {
    if |ws| == 0 then d
    else Apply(d, ws[..|ws| - 1])[ws[|ws| - 1].block := ws[|ws| - 1].data]
  }

  // ---- installing a transaction ----

  /** The disk once the first `k` slots have been copied to their home blocks. */
  function Install(g: Geometry, d: Disk, lh: seq<nat>, k: nat): (r: Disk)
    requires g.Valid() && |d| == g.size
    requires k <= |lh| <= g.Capacity()
    requires forall i :: 0 <= i < |lh| ==> g.Home(lh[i])
    ensures |r| == |d|
  {
    if k == 0 then d
    else Install(g, d, lh, k - 1)[lh[k - 1] := d[g.Slot(k - 1)]]
  }

  /** Installation never touches the log region. */
  lemma {:induction false} InstallKeepsLog(g: Geometry, d: Disk, lh: seq<nat>, k: nat, b: nat)
    requires g.Valid() && |d| == g.size
    requires k <= |lh| <= g.Capacity()
    requires forall i :: 0 <= i < |lh| ==> g.Home(lh[i])
    requires g.InLog(b)
    ensures Install(g, d, lh, k)[b] == d[b]
  {
    if k > 0 {
      InstallKeepsLog(g, d, lh, k - 1, b);
    }
  }

  /** What installation does to each block: the first `k` listed blocks get their slots. */
  lemma {:induction false} InstallAt(g: Geometry, d: Disk, lh: seq<nat>, k: nat)
    requires g.Valid() && |d| == g.size && Loggable(g, lh) && k <= |lh|
    ensures forall i :: 0 <= i < k ==> Install(g, d, lh, k)[lh[i]] == d[g.Slot(i)]
    ensures forall b :: 0 <= b < g.size && b !in lh[..k] ==> Install(g, d, lh, k)[b] == d[b]
  {
    if k > 0 {
      InstallAt(g, d, lh, k - 1);
      assert lh[..k] == lh[..k - 1] + [lh[k - 1]];
    }
  }

  /** The disk that a complete recovery leaves: every logged block installed. */
  ghost function Replay(g: Geometry, d: Disk): (r: Disk)
    requires DiskValid(g, d)
    ensures |r| == |d|
  {
    Install(g, d, Head(g, d), |Head(g, d)|)
  }

  /** Two disks agree outside the log region. */
  ghost predicate SameHome(g: Geometry, d: Disk, e: Disk)
    requires |d| == |e| == g.size
  {
    forall b: nat :: g.Home(b) ==> d[b] == e[b]
  }
}
