/** How many blocks mapping a range of a file takes, and when the disk has them. */
module FsSpace {
  import opened Params
  import opened FsImage
  import opened FsBytes

  ghost function FreeBlocks(m: Image): (s: set<nat>) {
    set b: nat | b < |m.bitmap| && !m.bitmap[b]
  }

  /** 1 if slot `k` of file `i` is empty. */
  ghost function Empty(m: Image, i: nat, k: nat): nat
    requires Shaped(m) && IsSlot(m, i, k)
  {
    if At(m, i, k) == 0 then 1 else 0
  }

  /** Empty slots among those of file blocks from..to-1. */
  ghost function Gaps(m: Image, i: nat, from: nat, to: nat): nat
    requires Shaped(m) && i < |m.inodes| && to <= MAXFILE
    decreases MAXFILE - from
  {
    if from >= to then 0 else Empty(m, i, FileSlot(from)) + Gaps(m, i, from + 1, to)
  }

  /** Blocks to allocate so that file blocks from..to-1 are mapped, the indirect block included. */
  ghost function Need(m: Image, i: nat, from: nat, to: nat): nat
    requires Shaped(m) && i < |m.inodes| && to <= MAXFILE
  {
    if from >= to then 0 else Gaps(m, i, from, to) + if to > NDIRECT then Empty(m, i, NDIRECT) else 0
  }

  // ---- what one allocation does ----

  /** Block `b`, free before, is now named by slot `k` of file `i`, empty before. */
  ghost predicate Added(m: Image, m': Image, i: nat, k: nat, b: nat) {
    && Shaped(m) && Shaped(m') && |m.inodes| == |m'.inodes| && IsSlot(m, i, k)
    && b < |m.bitmap| && !m.bitmap[b] && m'.bitmap == m.bitmap[b := true]
    && At(m, i, k) == 0 && At(m', i, k) == b != 0 && m'.owner == m.owner[b := (i, k)]
  }

  /** Owners determine slots. */
  lemma SameSlot(m: Image, m': Image, start: nat, j: nat, l: nat)
    requires Exact(m, start, {}) && Exact(m', start, {}) && IsSlot(m, j, l) && |m.inodes| == |m'.inodes|
    requires forall b :: b in m.owner && m.owner[b] == (j, l) ==> b in m'.owner && m'.owner[b] == (j, l)
    requires forall b :: b in m'.owner && m'.owner[b] == (j, l) ==> b in m.owner && m.owner[b] == (j, l)
    ensures At(m', j, l) == At(m, j, l)
  {
    if At(m, j, l) != 0 {
      assert m.owner[At(m, j, l)] == (j, l);
    }
  }

  lemma AddedSlot(m: Image, m': Image, start: nat, i: nat, k: nat, b: nat, j: nat, l: nat)
    requires Exact(m, start, {}) && Exact(m', start, {}) && Added(m, m', i, k, b)
    requires IsSlot(m, j, l) && (j, l) != (i, k)
    ensures At(m', j, l) == At(m, j, l)
  {
    assert b !in m.owner;
    SameSlot(m, m', start, j, l);
  }

  lemma AddedFree(m: Image, m': Image, i: nat, k: nat, b: nat)
    requires Added(m, m', i, k, b)
    ensures |FreeBlocks(m)| == |FreeBlocks(m')| + 1
  {
    assert FreeBlocks(m) == FreeBlocks(m') + {b} && b !in FreeBlocks(m');
  }

  // ---- what bmap of block `bn` does ----

  /**
   Only the slot of `bn` and, for an indirect block, the root may have been filled,
   each with a block that was free.
   */
  ghost predicate Allocated(m: Image, m': Image, i: nat, bn: nat) {
    && Shaped(m) && Shaped(m') && |m.inodes| == |m'.inodes| && i < |m.inodes| && bn < MAXFILE
    && (forall c: nat {:trigger At(m', i, FileSlot(c))} :: c < MAXFILE && c != bn ==>
          At(m', i, FileSlot(c)) == At(m, i, FileSlot(c)))
    && (bn < NDIRECT ==> At(m', i, NDIRECT) == At(m, i, NDIRECT))
    && |FreeBlocks(m')| - Empty(m', i, FileSlot(bn)) - Empty(m', i, NDIRECT)
       == |FreeBlocks(m)| - Empty(m, i, FileSlot(bn)) - Empty(m, i, NDIRECT)
  }

  lemma AllocatedNothing(m: Image, i: nat, bn: nat)
    requires Shaped(m) && i < |m.inodes| && bn < MAXFILE
    ensures Allocated(m, m, i, bn)
  {
  }

  /** Filling the slot of `bn`, or the root on the way to it. */
  lemma AllocatedOne(m: Image, m': Image, start: nat, i: nat, bn: nat, k: nat, b: nat)
    requires Exact(m, start, {}) && Exact(m', start, {}) && bn < MAXFILE && Added(m, m', i, k, b)
    requires k == FileSlot(bn) || (k == NDIRECT && bn >= NDIRECT)
    ensures Allocated(m, m', i, bn)
  {
    hide Exact, At;
    AddedFree(m, m', i, k, b);
    forall c: nat | c < MAXFILE && c != bn ensures At(m', i, FileSlot(c)) == At(m, i, FileSlot(c)) {
      AddedSlot(m, m', start, i, k, b, i, FileSlot(c));
    }
    if k == NDIRECT {
      AddedSlot(m, m', start, i, k, b, i, FileSlot(bn));
    } else {
      AddedSlot(m, m', start, i, k, b, i, NDIRECT);
    }
  }

  lemma AllocatedTrans(m: Image, m1: Image, m2: Image, i: nat, bn: nat)
    requires Allocated(m, m1, i, bn) && Allocated(m1, m2, i, bn)
    ensures Allocated(m, m2, i, bn)
  {
    hide At, Shaped;
    forall c: nat | c < MAXFILE && c != bn ensures At(m2, i, FileSlot(c)) == At(m, i, FileSlot(c)) {
      assert At(m1, i, FileSlot(c)) == At(m, i, FileSlot(c));
    }
  }

  /** Storing bytes in a mapped block allocates nothing. */
  lemma AllocatedStore(m: Image, m1: Image, m2: Image, start: nat, i: nat, bn: nat)
    requires Allocated(m, m1, i, bn) && Shaped(m2) && Exact(m1, start, {}) && Exact(m2, start, {})
    requires m2.owner == m1.owner && m2.bitmap == m1.bitmap && |m2.inodes| == |m1.inodes|
    ensures Allocated(m, m2, i, bn)
  {
    hide Exact, At;
    forall k: nat | k < SLOTS ensures At(m2, i, k) == At(m1, i, k) {
      SameSlot(m1, m2, start, i, k);
    }
    assert FreeBlocks(m2) == FreeBlocks(m1);
    forall c: nat | c < MAXFILE && c != bn ensures At(m2, i, FileSlot(c)) == At(m, i, FileSlot(c)) {
      assert At(m1, i, FileSlot(c)) == At(m, i, FileSlot(c));
    }
  }

  // ---- over a range of blocks ----

  lemma {:induction false} GapsSame(m: Image, m': Image, i: nat, bn: nat, from: nat, to: nat)
    requires Allocated(m, m', i, bn) && bn < from && to <= MAXFILE
    ensures Gaps(m', i, from, to) == Gaps(m, i, from, to)
    decreases MAXFILE - from
  {
    if from < to {
      assert At(m', i, FileSlot(from)) == At(m, i, FileSlot(from));
      GapsSame(m, m', i, bn, from + 1, to);
    }
  }

  /** Mapping `bn` uses up free blocks exactly as it reduces what the range from `bn` on needs. */
  lemma NeedStep(m: Image, m': Image, i: nat, bn: nat, to: nat)
    requires Allocated(m, m', i, bn) && bn < to <= MAXFILE
    ensures |FreeBlocks(m')| - Need(m', i, bn, to) == |FreeBlocks(m)| - Need(m, i, bn, to)
    ensures At(m', i, FileSlot(bn)) != 0 ==> Need(m', i, bn, to) == Need(m', i, bn + 1, to)
    ensures At(m', i, FileSlot(bn)) == 0 ==> Need(m', i, bn, to) > 0
  {
    GapsSame(m, m', i, bn, bn + 1, to);
    if to <= NDIRECT {
      assert At(m', i, NDIRECT) == At(m, i, NDIRECT);
    }
    if bn >= NDIRECT && At(m', i, FileSlot(bn)) != 0 {
      assert At(m', i, NDIRECT) != 0;
    }
  }

  /** From image `m0` to `m`, blocks first..bn-1 have been mapped: free blocks and what is needed balance. */
  ghost predicate Balanced(m0: Image, m: Image, i: nat, first: nat, bn: nat) {
    && Shaped(m0) && Shaped(m) && i < |m0.inodes| == |m.inodes| && first <= bn <= MAXFILE
    && forall to: nat {:trigger Need(m, i, bn, to)} {:trigger Need(m0, i, first, to)} :: bn <= to <= MAXFILE ==>
         |FreeBlocks(m)| - Need(m, i, bn, to) == |FreeBlocks(m0)| - Need(m0, i, first, to)
  }

  lemma BalancedMore(m0: Image, m1: Image, m: Image, i: nat, first: nat, bn: nat)
    requires Balanced(m0, m1, i, first, bn) && Allocated(m1, m, i, bn) && At(m, i, FileSlot(bn)) != 0
    ensures Balanced(m0, m, i, first, bn + 1)
  {
    hide At, Need, Shaped;
    forall to: nat | bn + 1 <= to <= MAXFILE
      ensures |FreeBlocks(m)| - Need(m, i, bn + 1, to) == |FreeBlocks(m0)| - Need(m0, i, first, to)
    {
      NeedStep(m1, m, i, bn, to);
    }
  }

  // ---- how far a write gets ----

  /** The file blocks that a write of `n` bytes at `off` maps, of which `len` can be copied in, end here. */
  function EndBlock(off: nat, n: nat, len: nat): nat {
    if n == 0 then off / BSIZE
    else if len < n then (off + len) / BSIZE + 1
    else (off + n - 1) / BSIZE + 1
  }

  lemma EndBlockFits(off: nat, n: nat, len: nat)
    requires len <= n && off + n <= MAXFILE * BSIZE
    ensures off / BSIZE <= EndBlock(off, n, len) <= MAXFILE
    ensures n > 0 ==> off / BSIZE < EndBlock(off, n, len)
  {
  }

  /** The disk has room for every block that such a write maps. */
  ghost predicate Enough(m: Image, i: nat, off: nat, n: nat, len: nat)
    requires Shaped(m) && i < |m.inodes| && len <= n && off + n <= MAXFILE * BSIZE
  {
    EndBlockFits(off, n, len);
    Need(m, i, off / BSIZE, EndBlock(off, n, len)) <= |FreeBlocks(m)|
  }

  /** Bytes written before the chunk in which the copy of the byte after `len` fails. */
  function FaultAt(off: nat, len: nat): (r: nat)
    ensures r <= len && len - r < BSIZE
    ensures r == 0 || (off + r) % BSIZE == 0
  {
    if (off + len) / BSIZE == off / BSIZE then 0 else (off + len) / BSIZE * BSIZE - off
  }

  /** The free blocks last for `r` bytes at `off` and for no more. */
  ghost predicate RunsOutAt(m: Image, i: nat, off: nat, r: nat)
    requires Shaped(m) && i < |m.inodes|
  {
    && off + r < MAXFILE * BSIZE && (r == 0 || (off + r) % BSIZE == 0)
    && Need(m, i, off / BSIZE, (off + r) / BSIZE) <= |FreeBlocks(m)| < Need(m, i, off / BSIZE, (off + r) / BSIZE + 1)
  }

  lemma {:induction false} GapsMore(m: Image, i: nat, from: nat, to: nat, more: nat)
    requires Shaped(m) && i < |m.inodes| && to <= more <= MAXFILE
    ensures Gaps(m, i, from, to) <= Gaps(m, i, from, more)
    decreases MAXFILE - from
  {
    if from < to {
      GapsMore(m, i, from + 1, to, more);
    }
  }

  lemma NeedMore(m: Image, i: nat, from: nat, to: nat, more: nat)
    requires Shaped(m) && i < |m.inodes| && to <= more <= MAXFILE
    ensures Need(m, i, from, to) <= Need(m, i, from, more)
  {
    GapsMore(m, i, from, to, more);
  }

  /** The free blocks run out in one place only, so that a write's result is determined before it. */
  lemma RunsOutOnce(m: Image, i: nat, off: nat, r: nat, q: nat)
    requires Shaped(m) && i < |m.inodes| && RunsOutAt(m, i, off, r) && RunsOutAt(m, i, off, q)
    ensures r == q
  {
    hide Need, Shaped;
    var a, b := (off + r) / BSIZE, (off + q) / BSIZE;
    if a < b {
      NeedMore(m, i, off / BSIZE, a + 1, b);
    } else if b < a {
      NeedMore(m, i, off / BSIZE, b + 1, a);
    }
  }

  /**
   What a write of `n` bytes at `off`, of which `src` can be copied in, returns and does
   to the file, from the image before it.  It is complete when the disk has room and all
   bytes can be copied; it stops where the free blocks run out; and when the copy faults
   it counts the chunks before, while what was copied of the failing one shows where it
   falls inside the file.
   */
  ghost predicate WriteResult(m: Image, i: nat, now: seq<Byte>, off: nat, src: seq<Byte>, n: nat, r: nat)
    requires Shaped(m) && i < |m.inodes| && |src| <= n && off + n <= MAXFILE * BSIZE && off <= m.inodes[i].size
  {
    var was := Contents(m, i);
    if !Enough(m, i, off, n, |src|) then r <= |src| && r < n && RunsOutAt(m, i, off, r) && now == Overwrite(was, off, src[..r])
    else if |src| == n then r == n && now == Overwrite(was, off, src)
    else r == FaultAt(off, |src|) && now == Smear(Overwrite(was, off, src[..r]), off + r, src[r..])
  }

  /** Some byte copied from the chunk that faults lands inside the file on a byte that differs. */
  ghost predicate Differs(was: seq<Byte>, off: nat, src: seq<Byte>) {
    exists p :: off + FaultAt(off, |src|) <= p < off + |src| && p < |was| && was[p] != src[p - off]
  }

  /**
   A write changes more of the file than it reports exactly when the disk has room, the
   copy faults, and one of the bytes copied from the failing chunk differs from the byte
   of the file that it lands on.
   */
  lemma LeakShowsIff(m: Image, i: nat, now: seq<Byte>, off: nat, src: seq<Byte>, n: nat, r: nat)
    requires Shaped(m) && i < |m.inodes| && |src| <= n && off + n <= MAXFILE * BSIZE && off <= m.inodes[i].size
    requires WriteResult(m, i, now, off, src, n, r)
    ensures r <= |src|
    ensures now != Overwrite(Contents(m, i), off, src[..r])
       <==> Enough(m, i, off, n, |src|) && |src| < n && Differs(Contents(m, i), off, src)
  {
    hide Enough, RunsOutAt, Contents, Smear, Overwrite;
    if |src| == n {
      assert r == n ==> src[..r] == src;
    } else if Enough(m, i, off, n, |src|) {
      SmearShowsIff(Contents(m, i), off, src, r);
    }
  }
}
