/** kernel/fs.c and kernel/file.c: the block allocator, the block map, truncation, reading and writing. */
module FsCode {
  import opened Params
  import opened FsImage
  import opened FsBytes
  import opened FsSpace

  class FileSystem {
    /** Superblock: blocks on the disk, first block that may hold file data, first bitmap and inode block. */
    const size: nat
    const start: nat
    const bmapstart: nat
    const inodestart: nat

    /** The free map, the block contents, and the in-memory and on-disk inodes. */
    var bitmap: seq<bool>
    var data: seq<Bytes>
    var inodes: seq<Inode>
    var dinodes: seq<Inode>

    /** Who names each block, and the blocks passed to log_write in this transaction. */
    ghost var owner: map<nat, Slot>
    ghost var logged: set<nat>

    ghost function Img(): Image
      reads this
    {
      Image(bitmap, data, inodes, owner)
    }

    /** Exact ownership, apart from the blocks in `held`. */
    ghost predicate Owned(held: set<nat>)
      reads this
    {
      size == |data| && Shaped(Img()) && Exact(Img(), start, held)
    }

    ghost predicate Valid()
      reads this
    {
      Owned({}) && NoHoles(Img()) && dinodes == inodes
    }

    ghost predicate Full()
      reads this
    {
      forall c :: 0 <= c < |bitmap| ==> bitmap[c]
    }

    ghost function Now(): Snap
      reads this
    {
      Snap(bitmap, data, dinodes, logged)
    }

    /**
     Everything that changed from `a` to `b` was handed to log_write: each block, apart from
     those in `loose`; the free-map block of each bit; and the block of each inode.
     */
    ghost predicate Recorded(a: Snap, b: Snap, loose: set<nat>) {
      && |a.bitmap| == |b.bitmap| && |a.data| == |b.data| && |a.dinodes| == |b.dinodes| && a.logged <= b.logged
      && (forall c: nat :: c < |a.data| && b.data[c] != a.data[c] ==> c in b.logged || c in loose)
      && (forall c: nat :: c < |a.bitmap| && b.bitmap[c] != a.bitmap[c] ==> Bblock(c) in b.logged)
      && (forall j: nat :: j < |a.dinodes| && b.dinodes[j] != a.dinodes[j] ==> Iblock(j) in b.logged)
    }

    lemma RecordedNothing(a: Snap)
      ensures Recorded(a, a, {})
    {
    }

    lemma RecordedOn(a: Snap, b: Snap, c: Snap, loose: set<nat>)
      requires Recorded(a, b, {}) && Recorded(b, c, loose)
      ensures Recorded(a, c, loose)
    {
    }

    lemma RecordedSize(a: Snap, b: Snap, c: Snap, loose: set<nat>)
      requires Recorded(a, b, loose) && Recorded(b, c, {})
      ensures Recorded(a, c, loose)
    {
    }

    /**
     The block that a write of `n` bytes at `off`, of which `len` can be copied in, changes
     without logging it: the one of the chunk that faults, if it gets there.
     */
    ghost function Loose(m: Image, m': Image, i: nat, off: nat, n: nat, len: nat): set<nat>
      requires Shaped(m) && Shaped(m') && i < |m.inodes| == |m'.inodes| && len <= n
    {
      if off + n <= MAXFILE * BSIZE && len < n && Enough(m, i, off, n, len) then {At(m', i, FileSlot((off + len) / BSIZE))} else {}
    }

    /** One block changes, and is logged or not. */
    lemma RecordedStore(a: Snap, b: nat, x: Bytes, done: bool)
      requires b < |a.data|
      ensures
        var c := Snap(a.bitmap, a.data[b := x], a.dinodes, if done then a.logged + {b} else a.logged);
        Recorded(a, c, if done then {} else {b})
    {
    }

    lemma RecordedInode(a: Snap, i: nat, x: Inode)
      requires i < |a.dinodes|
      ensures Recorded(a, Snap(a.bitmap, a.data, a.dinodes[i := x], a.logged + {Iblock(i)}), {})
    {
    }

    lemma RecordedFree(a: Snap, b: nat)
      requires b < |a.bitmap|
      ensures Recorded(a, Snap(a.bitmap[b := false], a.data, a.dinodes, a.logged + {Bblock(b)}), {})
    {
    }

    /** Bit `b` of the free map lies in that block of it, at bit b % BPB; inode `i` at position i % IPB. */
    lemma BlockNumbers(b: nat, i: nat)
      ensures (Bblock(b) - bmapstart) * BPB + b % BPB == b && Bblock(b) >= bmapstart
      ensures (Iblock(i) - inodestart) * IPB + i % IPB == i && Iblock(i) >= inodestart
    {
    }

    function Bblock(b: nat): nat {
      b / BPB + bmapstart
    }

    function Iblock(i: nat): nat {
      i / IPB + inodestart
    }

    /** Blocks of the free map. */
    ghost predicate IsBitmapBlock(b: nat) {
      bmapstart <= b <= bmapstart + size / BPB
    }

    // ---- blocks ----

    /** Allocate a zeroed block; 0 if there is none. */
    method Balloc(ghost held: set<nat>) returns (b: nat)
      requires Owned(held)
      modifies this`bitmap, this`data, this`logged
      ensures b == 0 ==> Full() && Img() == old(Img()) && logged == old(logged)
      ensures b != 0 ==>
        && b < size && !old(bitmap[b]) && Img() == Take(old(Img()), b)
        && (forall c :: 0 <= c < b ==> old(bitmap[c]))
        && logged == old(logged) + {Bblock(b), b} && IsBitmapBlock(Bblock(b))
      ensures Recorded(old(Now()), Now(), {})
    {
      b := 0;
      var base := 0;
      while base < size
        invariant forall c :: 0 <= c < base && c < size ==> bitmap[c]
        decreases size - base
      {
        var bi := 0;
        while bi < BPB && base + bi < size
          invariant 0 <= bi <= BPB
          invariant forall c :: 0 <= c < base + bi && c < size ==> bitmap[c]
        {
          if !bitmap[base + bi] {
            bitmap := bitmap[base + bi := true];
            logged := logged + {Bblock(base + bi)};
            Bzero(base + bi);
            BblockPlace(base + bi);
            return base + bi;
          }
          bi := bi + 1;
        }
        base := base + BPB;
      }
    }

    lemma BblockPlace(b: nat)
      requires b < size
      ensures IsBitmapBlock(Bblock(b))
    {
    }

    method Bzero(b: nat)
      requires b < |data|
      modifies this`data, this`logged
      ensures data == old(data)[b := Zeros()] && logged == old(logged) + {b}
    {
      data := data[b := Zeros()];
      logged := logged + {b};
    }

    /** Free a block; the source panics unless its bit is set. */
    method Bfree(b: nat)
      requires b < |bitmap| && bitmap[b]
      modifies this`bitmap, this`logged
      ensures bitmap == old(bitmap)[b := false] && logged == old(logged) + {Bblock(b)}
    {
      bitmap := bitmap[b := false];
      logged := logged + {Bblock(b)};
    }

    /** Write the in-memory inode to its disk block. */
    method Iupdate(i: nat)
      requires i < |inodes| == |dinodes|
      modifies this`dinodes, this`logged
      ensures dinodes == old(dinodes)[i := inodes[i]] && logged == old(logged) + {Iblock(i)}
    {
      dinodes := dinodes[i := inodes[i]];
      logged := logged + {Iblock(i)};
    }

    // ---- the block map ----

    /** What bmap promises about the image, the log and the inodes. */
    twostate predicate Mapped(i: nat, bn: nat, addr: nat)
      reads this
    {
      && Owned({}) && i < |inodes| && bn < MAXFILE
      && SameFiles(old(Img()), Img()) && KeepsSlots(old(Img()), Img())
      && addr == At(Img(), i, FileSlot(bn))
      && (addr == 0 ==> Full())
      && (forall b :: b in logged ==>
            || b in old(logged) || IsBitmapBlock(b)
            || (b != 0 && (b == At(Img(), i, NDIRECT) || b == At(Img(), i, FileSlot(bn)))))
      && (forall j: nat :: j < |inodes| && j != i ==> inodes[j] == old(inodes)[j])
    }

    /** The block that holds block `bn` of file `i`, allocating it if there is none; 0 if the disk is full. */
    method Bmap(i: nat, bn: nat) returns (addr: nat)
      requires Owned({}) && i < |inodes| && bn < MAXFILE
      modifies this`bitmap, this`data, this`inodes, this`owner, this`logged
      ensures Mapped(i, bn, addr) && Allocated(old(Img()), Img(), i, bn)
      ensures old(At(Img(), i, FileSlot(bn))) != 0 ==> Img() == old(Img()) && logged == old(logged)
      ensures Recorded(old(Now()), Now(), {})
    {
      if bn < NDIRECT {
        addr := BmapDirect(i, bn);
        AllocatedBy(old(Img()), Img(), i, bn, bn, addr);
      } else {
        addr := BmapIndirect(i, bn - NDIRECT);
      }
    }

    lemma AllocatedBy(m: Image, m': Image, i: nat, bn: nat, k: nat, b: nat)
      requires Exact(m, start, {}) && Exact(m', start, {}) && i < |m.inodes| && bn < MAXFILE
      requires m' == m || Added(m, m', i, k, b)
      requires k == FileSlot(bn) || (k == NDIRECT && bn >= NDIRECT)
      ensures Allocated(m, m', i, bn)
    {
      if m' == m {
        AllocatedNothing(m, i, bn);
      } else {
        AllocatedOne(m, m', start, i, bn, k, b);
      }
    }

    /** A direct slot, or the indirect root: the block it names, allocated and linked if it named none. */
    method BmapDirect(i: nat, k: nat) returns (addr: nat)
      requires Owned({}) && i < |inodes| && k <= NDIRECT
      modifies this`bitmap, this`data, this`inodes, this`owner, this`logged
      ensures Owned({})
      ensures SameFiles(old(Img()), Img()) && KeepsSlots(old(Img()), Img())
      ensures addr == At(Img(), i, k) && (addr == 0 ==> Full())
      ensures old(At(Img(), i, k)) != 0 ==> Img() == old(Img()) && logged == old(logged)
      ensures Img() == old(Img()) || Added(old(Img()), Img(), i, k, addr)
      ensures forall b :: b in logged ==> b in old(logged) || IsBitmapBlock(b) || b == addr != 0
      ensures forall j: nat :: j < |inodes| && j != i ==> inodes[j] == old(inodes)[j]
      ensures Recorded(old(Now()), Now(), {})
    {
      addr := inodes[i].addrs[k];
      assert addr == At(Img(), i, k);
      if addr == 0 {
        addr := Balloc({});
        if addr == 0 {
          return;
        }
        AddKeeps(old(Img()), start, i, k, addr);
        inodes := inodes[i := inodes[i].(addrs := inodes[i].addrs[k := addr])];
        owner := owner[addr := (i, k)];
      }
    }

    /** Entry `j` of the indirect block, allocating root and entry as needed. */
    method BmapIndirect(i: nat, j: nat) returns (addr: nat)
      requires Owned({}) && i < |inodes| && j < NINDIRECT
      modifies this`bitmap, this`data, this`inodes, this`owner, this`logged
      ensures Mapped(i, NDIRECT + j, addr) && Allocated(old(Img()), Img(), i, NDIRECT + j)
      ensures old(At(Img(), i, NDIRECT + 1 + j)) != 0 ==> Img() == old(Img()) && logged == old(logged)
      ensures Recorded(old(Now()), Now(), {})
    {
      hide Recorded, Exact, Allocated, Added, SameFiles, KeepsSlots;
      assert old(Img()) == Img();
      assert At(Img(), i, NDIRECT) == 0 ==> At(Img(), i, NDIRECT + 1 + j) == 0;
      var root := BmapDirect(i, NDIRECT);
      AllocatedBy(old(Img()), Img(), i, NDIRECT + j, NDIRECT, root);
      if root == 0 {
        return 0;
      }
      ghost var m1, now1 := Img(), Now();
      addr := Word(data[root], j);
      assert addr == At(m1, i, NDIRECT + 1 + j);
      if addr == 0 {
        addr := BmapEntry(i, j, root);
        RecordedOn(old(Now()), now1, Now(), {});
        AllocatedBy(m1, Img(), i, NDIRECT + j, NDIRECT + 1 + j, addr);
        AllocatedTrans(old(Img()), m1, Img(), i, NDIRECT + j);
        SameFilesTrans(old(Img()), m1, Img());
        KeepsSlotsTrans(old(Img()), m1, Img());
      }
    }

    /** Allocate entry `j` of inode `i`'s indirect block `root`. */
    method BmapEntry(i: nat, j: nat, root: nat) returns (addr: nat)
      requires Owned({}) && i < |inodes| && j < NINDIRECT
      requires root == inodes[i].addrs[NDIRECT] != 0 && At(Img(), i, NDIRECT + 1 + j) == 0
      modifies this`bitmap, this`data, this`owner, this`logged
      ensures Owned({})
      ensures SameFiles(old(Img()), Img()) && KeepsSlots(old(Img()), Img())
      ensures addr == At(Img(), i, NDIRECT + 1 + j) && (addr == 0 ==> Full())
      ensures Img() == old(Img()) || Added(old(Img()), Img(), i, NDIRECT + 1 + j, addr)
      ensures forall b :: b in logged ==> b in old(logged) || IsBitmapBlock(b) || b == addr != 0 || b == root
      ensures Recorded(old(Now()), Now(), {})
    {
      hide Recorded;
      addr := Balloc({});
      if addr != 0 {
        ghost var now1 := Now();
        AddEntryKeeps(old(Img()), start, i, j, addr);
        data := data[root := PutWord(data[root], j, addr)];
        owner := owner[addr := (i, NDIRECT + 1 + j)];
        logged := logged + {root};
        RecordedStore(now1, root, data[root], true);
        RecordedOn(old(Now()), now1, Now(), {});
      }
    }

    // ---- writing ----

    /** Block `b` may be logged by a write of [off, off + n) to file `i`. */
    ghost predicate WriteLogs(m: Image, i: nat, off: nat, n: nat, b: nat)
      requires Shaped(m) && i < |m.inodes|
    {
      || IsBitmapBlock(b)
      || b == Iblock(i)
      || (b != 0 && b == At(m, i, NDIRECT))
      || (b != 0 && exists bn: nat :: InRange(bn, off, n) && b == At(m, i, FileSlot(bn)))
    }

    /** The body of writei's loop: copy what the source holds of the chunk at `pos`. */
    method WriteChunk(i: nat, pos: nat, left: nat, src: seq<Byte>)
      returns (m: nat, stop: Stop, ghost x: seq<Byte>)
      requires Owned({}) && i < |inodes| && 0 < left && pos + left <= MAXFILE * BSIZE && |src| <= left
      modifies this`bitmap, this`data, this`inodes, this`owner, this`logged
      ensures Owned({}) && i < |inodes| && m == (if left < BSIZE - pos % BSIZE then left else BSIZE - pos % BSIZE)
      ensures ChunkDone(old(Img()), old(logged), Img(), logged, i, pos, x, !stop.OutOfSpace?)
      ensures Allocated(old(Img()), Img(), i, pos / BSIZE)
      ensures stop.OutOfSpace? <==> At(Img(), i, FileSlot(pos / BSIZE)) == 0
      ensures match stop
        case Done => m <= |src| && x == src[..m]
        case OutOfSpace => Full() && x == []
        case Fault => |src| < m && x == src
      ensures Recorded(old(Now()), Now(), if stop.Fault? then {At(Img(), i, FileSlot(pos / BSIZE))} else {})
    {
      hide Recorded, Wrote, SameFiles, KeepsSlots, Allocated, Exact;
      m := if left < BSIZE - pos % BSIZE then left else BSIZE - pos % BSIZE;
      var addr := Bmap(i, pos / BSIZE);
      ghost var m1, now1 := Img(), Now();
      if addr == 0 {
        WroteNothing(old(Img()), i, pos);
        WroteThenSame(old(Img()), old(Img()), m1, i, pos, []);
        return m, OutOfSpace, [];
      }
      stop := if m <= |src| then Done else Fault;
      var copied := if m <= |src| then src[..m] else src;
      x := copied;
      CopyInto(i, pos, addr, copied, stop.Done?, old(Img()));
      RecordedOn(old(Now()), now1, Now(), if stop.Done? then {} else {addr});
    }

    /** Copy `x` into the buffer of the block at `pos`, and pass it to log_write if the copy was complete. */
    method CopyInto(i: nat, pos: nat, addr: nat, x: seq<Byte>, complete: bool, ghost m0: Image)
      requires Owned({}) && i < |inodes| == |m0.inodes| && pos < MAXFILE * BSIZE && pos % BSIZE + |x| <= BSIZE
      requires addr == At(Img(), i, FileSlot(pos / BSIZE)) != 0
      requires SameFiles(m0, Img()) && KeepsSlots(m0, Img()) && Allocated(m0, Img(), i, pos / BSIZE)
      modifies this`data, this`logged
      ensures Owned({}) && Wrote(m0, Img(), i, pos, x) && Allocated(m0, Img(), i, pos / BSIZE)
      ensures At(Img(), i, FileSlot(pos / BSIZE)) == addr && At(Img(), i, NDIRECT) == old(At(Img(), i, NDIRECT))
      ensures logged == if complete then old(logged) + {addr} else old(logged)
      ensures Recorded(old(Now()), Now(), if complete then {} else {addr})
    {
      hide Recorded, Wrote, SameFiles, KeepsSlots, Allocated, Exact;
      ghost var m1, now1 := Img(), Now();
      MapThenStore(m0, m1, start, i, pos, x);
      data := data[addr := Splice(data[addr], pos % BSIZE, x)];
      assert Img() == StoreAt(m1, i, pos, x);
      AllocatedStore(m0, m1, Img(), start, i, pos / BSIZE);
      if complete {
        logged := logged + {addr};
      }
      RecordedStore(now1, addr, data[addr], complete);
    }

    /** writei refuses the request. */
    predicate WriteRefused(i: nat, off: nat, n: nat)
      requires i < |inodes|
      reads this`inodes
    {
      off > inodes[i].size || (off + n) % UINT < off || off + n > MAXFILE * BSIZE
    }

    /**
     After `tot` bytes of a write to [off0, off0 + n), of which `x` has reached the
     blocks: from image `m0` and log `log0` to `m` and `log`.
     */
    ghost predicate Progress(m0: Image, log0: set<nat>, m: Image, log: set<nat>,
                             i: nat, off0: nat, n: nat, x: seq<Byte>, tot: nat)
    {
      && Wrote(m0, m, i, off0, x)
      && Covered(m, i, off0, tot)
      && (forall j: nat :: j < |m.inodes| && j != i ==> m.inodes[j] == m0.inodes[j])
      && (forall b :: b in log ==> b in log0 || WriteLogs(m, i, off0, n, b))
    }

    /** What one chunk at `pos` did. */
    ghost predicate ChunkDone(m1: Image, log1: set<nat>, m: Image, log: set<nat>, i: nat, pos: nat, x: seq<Byte>, mapped: bool)
    {
      && Wrote(m1, m, i, pos, x) && pos < MAXFILE * BSIZE
      && (mapped ==> At(m, i, FileSlot(pos / BSIZE)) != 0)
      && (forall j: nat :: j < |m.inodes| && j != i ==> m.inodes[j] == m1.inodes[j])
      && (forall b :: b in log ==>
            || b in log1 || IsBitmapBlock(b)
            || (b != 0 && (b == At(m, i, NDIRECT) || b == At(m, i, FileSlot(pos / BSIZE)))))
    }

    lemma ProgressMore(m0: Image, log0: set<nat>, m1: Image, log1: set<nat>, m: Image, log: set<nat>,
                       i: nat, off0: nat, n: nat, x: seq<Byte>, tot: nat, y: seq<Byte>, mapped: bool, k: nat)
      requires Progress(m0, log0, m1, log1, i, off0, n, x, tot) && |x| == tot < n && off0 + n <= MAXFILE * BSIZE
      requires ChunkDone(m1, log1, m, log, i, off0 + tot, y, mapped)
      requires (off0 + tot) % BSIZE + k <= BSIZE && (k > 0 ==> mapped)
      ensures Progress(m0, log0, m, log, i, off0, n, x + y, tot + k)
    {
      WroteMore(m0, m1, m, i, off0, x, y);
      assert InRange((off0 + tot) / BSIZE, off0, n);
      forall b | b in log && b !in log0 ensures WriteLogs(m, i, off0, n, b) {
        if b in log1 {
          assert WriteLogs(m1, i, off0, n, b);
        }
      }
      CoveredMore(m1, m, i, off0, tot, k);
    }

    /** writei's loop, from `off0` on. */
    method WriteLoop(i: nat, src: seq<Byte>, off0: nat, n: nat) returns (tot: nat, stop: Stop)
      requires Owned({}) && i < |inodes| && off0 + n <= MAXFILE * BSIZE && |src| <= n
      modifies this`bitmap, this`data, this`inodes, this`owner, this`logged
      ensures tot <= n && tot <= |src| && (stop.Done? <==> tot == n)
      ensures stop.OutOfSpace? ==> Full() && RunsOutAt(old(Img()), i, off0, tot)
      ensures stop.OutOfSpace? <==> !Enough(old(Img()), i, off0, n, |src|)
      ensures stop.Fault? ==> |src| < n && tot == FaultAt(off0, |src|)
      ensures stop.Done? ==> |src| == n
      ensures Owned({})
      ensures Progress(old(Img()), old(logged), Img(), logged, i, off0, n, if stop.Fault? then src else src[..tot], tot)
      ensures Recorded(old(Now()), Now(), if stop.Fault? then {At(Img(), i, FileSlot((off0 + |src|) / BSIZE))} else {})
    {
      hide Recorded, Progress, Exact, Allocated, Balanced, Enough, RunsOutAt;
      tot, stop := 0, Done;
      ghost var first, bn: nat := off0 / BSIZE, off0 / BSIZE;
      WriteStart(i, off0, n);
      RecordedNothing(Now());
      while tot < n
        invariant tot <= n && tot <= |src| && stop.Done? && Owned({}) && i < |inodes|
        invariant Progress(old(Img()), old(logged), Img(), logged, i, off0, n, src[..tot], tot)
        invariant Recorded(old(Now()), Now(), {})
        invariant bn <= MAXFILE && Balanced(old(Img()), Img(), i, first, bn)
        invariant tot < n ==> bn == (off0 + tot) / BSIZE && (tot == 0 || (off0 + tot) % BSIZE == 0)
        invariant tot == n ==> bn == EndBlock(off0, n, n)
      {
        var m;
        ghost var y, m1, now1 := [], Img(), Now();
        m, stop, y := WriteStep(i, src, off0, n, tot, old(Img()), old(logged), src[..tot]);
        RecordedOn(old(Now()), now1, Now(), if stop.Fault? then {At(Img(), i, FileSlot((off0 + |src|) / BSIZE))} else {});
        assert src[..tot] + y == match stop case Done => src[..tot + m] case OutOfSpace => src[..tot] case Fault => src;
        if !stop.Done? {
          StepStops(old(Img()), m1, Img(), i, off0, n, |src|, tot, stop);
          return;
        }
        BalancedMore(old(Img()), m1, Img(), i, first, bn);
        bn := bn + 1;
        NextBlock(off0, n, tot, m);
        tot := tot + m;
      }
      Reached(old(Img()), Img(), i, off0, n, n);
    }

    lemma WriteStart(i: nat, off0: nat, n: nat)
      requires Owned({}) && i < |inodes| && off0 + n <= MAXFILE * BSIZE
      ensures Progress(Img(), logged, Img(), logged, i, off0, n, [], 0) && Balanced(Img(), Img(), i, off0 / BSIZE, off0 / BSIZE)
    {
      WroteNothing(Img(), i, off0);
    }

    lemma NextBlock(off0: nat, n: nat, tot: nat, m: nat)
      requires tot < n && m == (if n - tot < BSIZE - (off0 + tot) % BSIZE then n - tot else BSIZE - (off0 + tot) % BSIZE)
      ensures tot + m < n ==> (off0 + tot + m) / BSIZE == (off0 + tot) / BSIZE + 1 && (off0 + tot + m) % BSIZE == 0
      ensures tot + m == n ==> EndBlock(off0, n, n) == (off0 + tot) / BSIZE + 1
    {
    }

    /** Everything up to the end of the write has been mapped: there was enough. */
    lemma Reached(m0: Image, m: Image, i: nat, off0: nat, n: nat, len: nat)
      requires len <= n && off0 + n <= MAXFILE * BSIZE && Balanced(m0, m, i, off0 / BSIZE, EndBlock(off0, n, len))
      ensures Enough(m0, i, off0, n, len)
    {
      hide Shaped, At;
      EndBlockFits(off0, n, len);
      assert Need(m, i, EndBlock(off0, n, len), EndBlock(off0, n, len)) == 0;
    }

    /** Where a write stops, and why. */
    lemma StepStops(m0: Image, m1: Image, m: Image, i: nat, off0: nat, n: nat, len: nat, tot: nat, stop: Stop)
      requires tot <= len <= n && tot < n && off0 + n <= MAXFILE * BSIZE && (tot == 0 || (off0 + tot) % BSIZE == 0)
      requires Balanced(m0, m1, i, off0 / BSIZE, (off0 + tot) / BSIZE) && Allocated(m1, m, i, (off0 + tot) / BSIZE)
      requires !stop.Done? && (stop.OutOfSpace? <==> At(m, i, FileSlot((off0 + tot) / BSIZE)) == 0)
      requires stop.OutOfSpace? ==> FreeBlocks(m) == {}
      requires stop.Fault? ==> len < n && (off0 + len) / BSIZE == (off0 + tot) / BSIZE
      ensures stop.OutOfSpace? <==> !Enough(m0, i, off0, n, len)
      ensures stop.OutOfSpace? ==> RunsOutAt(m0, i, off0, tot)
      ensures stop.Fault? ==> tot == FaultAt(off0, len)
    {
      hide Shaped, At, Need, Allocated, FreeBlocks;
      var first, bn := off0 / BSIZE, (off0 + tot) / BSIZE;
      if stop.Fault? {
        BalancedMore(m0, m1, m, i, first, bn);
        Reached(m0, m, i, off0, n, len);
      } else {
        RunsOut(m0, m1, m, i, off0, n, len, tot);
      }
    }

    lemma RunsOut(m0: Image, m1: Image, m: Image, i: nat, off0: nat, n: nat, len: nat, tot: nat)
      requires tot <= len <= n && tot < n && off0 + n <= MAXFILE * BSIZE && (tot == 0 || (off0 + tot) % BSIZE == 0)
      requires Balanced(m0, m1, i, off0 / BSIZE, (off0 + tot) / BSIZE) && Allocated(m1, m, i, (off0 + tot) / BSIZE)
      requires At(m, i, FileSlot((off0 + tot) / BSIZE)) == 0 && FreeBlocks(m) == {}
      ensures RunsOutAt(m0, i, off0, tot) && !Enough(m0, i, off0, n, len)
    {
      hide Shaped, At, Allocated;
      var first, bn, end := off0 / BSIZE, (off0 + tot) / BSIZE, EndBlock(off0, n, len);
      EndBlockFits(off0, n, len);
      assert bn < end;
      NeedStep(m1, m, i, bn, bn + 1);
      NeedStep(m1, m, i, bn, end);
      assert Need(m1, i, bn, bn) == 0;
    }

    /** One iteration of writei's loop: `x` is what has been written so far, `y` what this step adds. */
    method WriteStep(i: nat, src: seq<Byte>, off0: nat, n: nat, tot: nat,
                     ghost m0: Image, ghost log0: set<nat>, ghost x: seq<Byte>)
      returns (m: nat, stop: Stop, ghost y: seq<Byte>)
      requires Owned({}) && i < |inodes| && off0 + n <= MAXFILE * BSIZE && tot <= |src| <= n && tot < n
      requires Progress(m0, log0, Img(), logged, i, off0, n, x, tot) && |x| == tot
      modifies this`bitmap, this`data, this`inodes, this`owner, this`logged
      ensures Owned({}) && i < |inodes| && m == if n - tot < BSIZE - (off0 + tot) % BSIZE then n - tot else BSIZE - (off0 + tot) % BSIZE
      ensures match stop
        case Done => tot + m <= |src| && y == src[tot..][..m]
        case OutOfSpace => FreeBlocks(Img()) == {} && Full() && y == []
        case Fault => |src| < n && y == src[tot..] && (off0 + |src|) / BSIZE == (off0 + tot) / BSIZE
      ensures Allocated(old(Img()), Img(), i, (off0 + tot) / BSIZE)
      ensures stop.OutOfSpace? <==> At(Img(), i, FileSlot((off0 + tot) / BSIZE)) == 0
      ensures Progress(m0, log0, Img(), logged, i, off0, n, x + y, if stop.Done? then tot + m else tot)
      ensures Recorded(old(Now()), Now(), if stop.Fault? then {At(Img(), i, FileSlot((off0 + |src|) / BSIZE))} else {})
    {
      hide Recorded, Progress, ChunkDone, Exact, Allocated;
      ghost var m1, log1 := Img(), logged;
      m, stop, y := WriteChunk(i, off0 + tot, n - tot, src[tot..]);
      ghost var k := if stop.Done? then m else 0;
      ProgressMore(m0, log0, m1, log1, Img(), logged, i, off0, n, x, tot, y, !stop.OutOfSpace?, k);
    }

    /** The end of writei: raise the size to cover what was written, and write the inode back. */
    method SetSize(i: nat, off0: nat, tot: nat, ghost x: seq<Byte>, ghost m0: Image)
      requires Owned({}) && NoHoles(m0) && Exact(m0, start, {}) && Wrote(m0, Img(), i, off0, x)
      requires tot <= |x| && off0 <= m0.inodes[i].size && off0 + tot <= MAXFILE * BSIZE
      requires Covered(Img(), i, off0, tot)
      requires dinodes == m0.inodes && forall j: nat :: j < |inodes| && j != i ==> inodes[j] == m0.inodes[j]
      modifies this`inodes, this`dinodes, this`logged
      ensures Valid() && |inodes| == |old(inodes)|
      ensures logged == old(logged) + {Iblock(i)}
      ensures forall b: nat, n: nat :: WriteLogs(old(Img()), i, off0, n, b) ==> WriteLogs(Img(), i, off0, n, b)
      ensures Contents(Img(), i) == Smear(Overwrite(Contents(m0, i), off0, x[..tot]), off0 + tot, x[tot..])
      ensures OtherContents(m0, Img(), i) && bitmap == old(bitmap)
      ensures Recorded(old(Now()), Now(), {})
      ensures forall k: nat :: k < SLOTS ==> At(Img(), i, k) == old(At(Img(), i, k))
    {
      assert Solid(m0, i);
      ghost var m1 := Img();
      ghost var end := if off0 + tot > m0.inodes[i].size then off0 + tot else m0.inodes[i].size;
      if off0 + tot > inodes[i].size {
        inodes := inodes[i := inodes[i].(size := off0 + tot)];
      }
      ResizeKeeps(m1, start, {}, i, end);
      assert Img() == Resize(m1, i, end);
      WroteContents(m0, m1, start, i, off0, x, tot, end);
      forall j: nat | j < |inodes| && j != i ensures Contents(Img(), j) == Contents(m0, j) {
        SameContents(m0, Img(), j);
      }
      StillSolid(m0, m1, start, i, off0, tot, end);
      Iupdate(i);
    }

    /**
     writei.  `src` is the part of the user's buffer that can be read; when it is
     shorter than `n` the copy faults.  Returns the bytes written, or -1.
     */
    method Writei(i: nat, src: seq<Byte>, off0: nat, n: nat) returns (r: int)
      requires Valid() && i < |inodes| && off0 < UINT && n < UINT && |src| <= n
      modifies this
      ensures Valid() && |inodes| == |old(inodes)|
      ensures r == -1 <==> old(WriteRefused(i, off0, n))
      ensures r == -1 <==> off0 > |old(Contents(Img(), i))| || off0 + n > MAXFILE * BSIZE
      ensures r == -1 ==> Img() == old(Img())
      ensures OtherContents(old(Img()), Img(), i)
      ensures r != -1 ==> 0 <= r <= n && WriteResult(old(Img()), i, Contents(Img(), i), off0, src, n, r)
      ensures r != -1 && !Enough(old(Img()), i, off0, n, |src|) ==> Full()
      ensures r != -1 ==>
        (Contents(Img(), i) != Overwrite(old(Contents(Img(), i)), off0, src[..r])
         <==> Enough(old(Img()), i, off0, n, |src|) && |src| < n && Differs(old(Contents(Img(), i)), off0, src))
      ensures Recorded(old(Now()), Now(), if r == -1 then {} else Loose(old(Img()), Img(), i, off0, n, |src|))
      ensures forall b :: b in logged ==> b in old(logged) || WriteLogs(Img(), i, off0, n, b)
    {
      hide WriteRefused, Recorded, Exact, NoHoles, Progress, Smear, Overwrite, Enough, RunsOutAt, Contents, Differs, FaultAt, WriteResult, Wrote, Covered;
      RefusedIff(i, off0, n);
      if WriteRefused(i, off0, n) {
        RecordedNothing(Now());
        return -1;
      }
      var tot, stop := WriteLoop(i, src, off0, n);
      ghost var now1 := Now();
      ghost var x := if stop.Fault? then src else src[..tot];
      assert Progress(old(Img()), old(logged), Img(), logged, i, off0, n, x, tot);
      Unfold(old(Img()), old(logged), Img(), logged, i, off0, n, x, tot);
      SetSize(i, off0, tot, x, old(Img()));
      RecordedSize(old(Now()), now1, Now(), if stop.Fault? then {At(Img(), i, FileSlot((off0 + |src|) / BSIZE))} else {});
      r := tot;
      WriteOutcome(old(Img()), i, Contents(Img(), i), off0, n, src, x, tot, stop);
      LeakShowsIff(old(Img()), i, Contents(Img(), i), off0, src, n, r);
    }

    lemma WriteOutcome(m: Image, i: nat, now: seq<Byte>, off: nat, n: nat, src: seq<Byte>, x: seq<Byte>, tot: nat, stop: Stop)
      requires Shaped(m) && i < |m.inodes| && off <= m.inodes[i].size && off + n <= MAXFILE * BSIZE
      requires tot <= |src| <= n && (stop.Done? <==> tot == n) && x == if stop.Fault? then src else src[..tot]
      requires stop.OutOfSpace? ==> RunsOutAt(m, i, off, tot)
      requires stop.OutOfSpace? <==> !Enough(m, i, off, n, |src|)
      requires stop.Fault? ==> |src| < n && tot == FaultAt(off, |src|)
      requires now == Smear(Overwrite(Contents(m, i), off, x[..tot]), off + tot, x[tot..])
      ensures WriteResult(m, i, now, off, src, n, tot)
    {
      hide Enough, RunsOutAt, Contents, Smear, Overwrite;
      assert x[..tot] == src[..tot];
      if !stop.Fault? {
        assert x[tot..] == [];
        SmearNothing(Overwrite(Contents(m, i), off, src[..tot]), off + tot);
        assert tot == |src| ==> src[..tot] == src;
      }
    }

    /** It is refused exactly when it starts past the end or would end past the largest file. */
    lemma RefusedIff(i: nat, off0: nat, n: nat)
      requires Shaped(Img()) && i < |inodes| && off0 < UINT && n < UINT
      ensures WriteRefused(i, off0, n) <==> off0 > |Contents(Img(), i)| || off0 + n > MAXFILE * BSIZE
    {
    }

    lemma Unfold(m0: Image, log0: set<nat>, m: Image, log: set<nat>, i: nat, off0: nat, n: nat, x: seq<Byte>, tot: nat)
      requires Progress(m0, log0, m, log, i, off0, n, x, tot)
      ensures Wrote(m0, m, i, off0, x) && Covered(m, i, off0, tot)
      ensures forall j: nat :: j < |m.inodes| && j != i ==> m.inodes[j] == m0.inodes[j]
      ensures forall b :: b in log ==> b in log0 || WriteLogs(m, i, off0, n, b)
    {
    }

    // ---- truncation ----

    /** Discard the contents of file `i`. */
    method Itrunc(i: nat)
      requires Valid() && i < |inodes|
      modifies this
      ensures Valid() && |inodes| == |old(inodes)|
      ensures Contents(Img(), i) == [] && OtherContents(old(Img()), Img(), i)
      ensures Truncated(old(Img()), Img(), i)
      ensures forall b: nat :: b < size ==>
        (bitmap[b] <==> old(bitmap)[b] && !(b in old(owner) && old(owner)[b].0 == i))
      ensures Recorded(old(Now()), Now(), {})
    {
      hide Recorded, Truncated;
      ghost var m0, now0 := Img(), Now();
      TruncSlots(i);
      ghost var m2, now2 := Img(), Now();
      TruncatedFile(m0, m2, i);
      inodes := inodes[i := inodes[i].(size := 0)];
      assert Img() == Resize(m2, i, 0);
      TruncatedFrees(m0, Img(), start, i);
      Iupdate(i);
      RecordedInode(now2, i, dinodes[i]);
      RecordedOn(now0, now2, Now(), {});
    }

    /** Give up every slot. */
    method TruncSlots(i: nat)
      requires Owned({}) && i < |inodes|
      modifies this`bitmap, this`inodes, this`owner, this`logged
      ensures Owned({}) && |inodes| == |old(inodes)| && Truncated(old(Img()), Img(), i)
      ensures forall j: nat :: j < |inodes| && j != i ==> inodes[j] == old(inodes)[j]
      ensures Recorded(old(Now()), Now(), {})
    {
      hide Recorded, Exact, Truncated;
      ghost var m0, now0 := Img(), Now();
      TruncDirect(i);
      ghost var m1, now1 := Img(), Now();
      if inodes[i].addrs[NDIRECT] != 0 {
        TruncIndirect(i);
        RecordedOn(now0, now1, Now(), {});
      }
      TruncateBoth(m0, m1, Img(), i);
    }

    /** A file whose slots are all empty, once its size is 0. */
    lemma TruncatedFile(m0: Image, m2: Image, i: nat)
      requires NoHoles(m0) && Exact(m2, start, {}) && Truncated(m0, m2, i)
      ensures
        var m := Resize(m2, i, 0);
        && Exact(m, start, {}) && NoHoles(m) && Truncated(m0, m, i)
        && Contents(m, i) == [] && OtherContents(m0, m, i)
    {
      var m := Resize(m2, i, 0);
      ResizeKeeps(m2, start, {}, i, 0);
      forall j: nat | j < |m.inodes| && j != i ensures Contents(m, j) == Contents(m0, j) && Solid(m, j) {
        forall bn: nat | bn < MAXFILE
          ensures At(m, j, FileSlot(bn)) == At(m0, j, FileSlot(bn)) && FileBlock(m, j, bn) == FileBlock(m0, j, bn)
        {
          assert At(m2, j, FileSlot(bn)) == At(m0, j, FileSlot(bn));
          assert FileBlock(m2, j, bn) == FileBlock(m0, j, bn);
        }
        SameContents(m0, m, j);
        assert Solid(m0, j);
      }
      forall j: nat, k: nat | IsSlot(m0, j, k) && j != i ensures At(m, j, k) == At(m0, j, k) {
        assert At(m2, j, k) == At(m0, j, k);
      }
      forall j: nat, bn: nat | j < |m0.inodes| && j != i && bn < MAXFILE ensures FileBlock(m, j, bn) == FileBlock(m0, j, bn) {
        assert FileBlock(m2, j, bn) == FileBlock(m0, j, bn);
      }
    }

    lemma TruncateBoth(m0: Image, m1: Image, m2: Image, i: nat)
      requires OtherFilesSame(m0, m1, i) && OtherFilesSame(m1, m2, i) && i < |m0.inodes|
      requires forall l: nat :: l < NDIRECT ==> At(m1, i, l) == 0
      requires forall l: nat :: l < SLOTS ==> At(m2, i, l) == if l >= NDIRECT then 0 else At(m1, i, l)
      ensures Truncated(m0, m2, i)
    {
      forall j: nat, k: nat | IsSlot(m0, j, k) && j != i ensures At(m2, j, k) == At(m0, j, k) {
        assert At(m1, j, k) == At(m0, j, k);
      }
      forall j: nat, bn: nat | j < |m0.inodes| && j != i && bn < MAXFILE ensures FileBlock(m2, j, bn) == FileBlock(m0, j, bn) {
        assert FileBlock(m1, j, bn) == FileBlock(m0, j, bn);
      }
    }

    /** itrunc's first loop: free the direct blocks. */
    method TruncDirect(i: nat)
      requires Owned({}) && i < |inodes|
      modifies this`bitmap, this`inodes, this`owner, this`logged
      ensures Owned({}) && OtherFilesSame(old(Img()), Img(), i)
      ensures forall l: nat :: l < SLOTS ==> At(Img(), i, l) == if l < NDIRECT then 0 else old(At(Img(), i, l))
      ensures Recorded(old(Now()), Now(), {})
    {
      hide Recorded, Exact, OtherFilesSame;
      RecordedNothing(Now());
      NothingUnlinked(i);
      var k := 0;
      while k < NDIRECT
        invariant k <= NDIRECT && Owned({}) && i < |inodes| && OtherFilesSame(old(Img()), Img(), i)
        invariant Recorded(old(Now()), Now(), {})
        invariant forall l: nat :: l < SLOTS ==> At(Img(), i, l) == if l < k then 0 else old(At(Img(), i, l))
      {
        ghost var now1 := Now();
        if inodes[i].addrs[k] != 0 {
          TruncSlot(i, k, old(Img()));
          RecordedOn(old(Now()), now1, Now(), {});
        } else {
          assert At(Img(), i, k) == 0;
        }
        k := k + 1;
      }
    }

    lemma NothingUnlinked(i: nat)
      requires Owned({})
      ensures OtherFilesSame(Img(), Img(), i)
    {
    }

    method TruncSlot(i: nat, k: nat, ghost m0: Image)
      requires Owned({}) && i < |inodes| && k < NDIRECT && inodes[i].addrs[k] != 0
      requires OtherFilesSame(m0, Img(), i)
      modifies this`bitmap, this`inodes, this`owner, this`logged
      ensures Owned({}) && i < |inodes| && OtherFilesSame(m0, Img(), i)
      ensures forall l: nat :: l < SLOTS ==> At(Img(), i, l) == if l == k then 0 else old(At(Img(), i, l))
      ensures Recorded(old(Now()), Now(), {})
    {
      hide Recorded;
      ghost var m, b := Img(), inodes[i].addrs[k];
      UnlinkKeeps(m, start, {}, i, k);
      assert {} + {b} == {b} && {b} - {b} == {};
      FreeKeeps(Unlink(m, i, k), start, {b}, b);
      RecordedFree(Now(), b);
      Bfree(inodes[i].addrs[k]);
      inodes := inodes[i := inodes[i].(addrs := inodes[i].addrs[k := 0])];
      owner := owner - {b};
      assert Img() == Free(Unlink(m, i, k), b);
      TruncKeepsOthers(m0, m, Unlink(m, i, k), Img(), i);
    }

    lemma TruncKeepsOthers(m0: Image, m: Image, m1: Image, m2: Image, i: nat)
      requires OtherFilesSame(m0, m, i) && OtherFilesSame(m, m1, i) && Shaped(m2)
      requires m2 == m1.(bitmap := m2.bitmap)
      ensures OtherFilesSame(m0, m2, i)
      ensures forall j: nat, k: nat :: IsSlot(m1, j, k) ==> At(m2, j, k) == At(m1, j, k)
    {
      forall j: nat, k: nat | IsSlot(m1, j, k) ensures At(m2, j, k) == At(m1, j, k) {
      }
      forall j: nat, k: nat | IsSlot(m0, j, k) && j != i ensures At(m2, j, k) == At(m0, j, k) {
        assert At(m1, j, k) == At(m, j, k) == At(m0, j, k);
      }
      forall j: nat, bn: nat | j < |m0.inodes| && j != i && bn < MAXFILE ensures FileBlock(m2, j, bn) == FileBlock(m0, j, bn) {
        assert FileBlock(m1, j, bn) == FileBlock(m, j, bn) == FileBlock(m0, j, bn);
      }
    }

    /** itrunc's second half: free what the indirect block names, then the block itself. */
    method TruncIndirect(i: nat)
      requires Owned({}) && i < |inodes| && inodes[i].addrs[NDIRECT] != 0
      modifies this`bitmap, this`inodes, this`owner, this`logged
      ensures Owned({}) && OtherFilesSame(old(Img()), Img(), i)
      ensures forall l: nat :: l < SLOTS ==> At(Img(), i, l) == if l >= NDIRECT then 0 else old(At(Img(), i, l))
      ensures Recorded(old(Now()), Now(), {})
    {
      hide Recorded, Exact, OtherFilesSame, At, Entries, FileBlock;
      ghost var m := Img();
      var root := inodes[i].addrs[NDIRECT];
      UnlinkRootKeeps(m, start, {}, i);
      assert {} + (Entries(m, i, 0) + {root}) == Entries(m, i, 0) + {root};
      FreeEntries(i, m, UnlinkRoot(m, i));
      RootFreed(m, bitmap, i);
      ghost var now1 := Now();
      RecordedFree(now1, root);
      Bfree(root);
      RecordedOn(old(Now()), now1, Now(), {});
      inodes := inodes[i := inodes[i].(addrs := inodes[i].addrs[NDIRECT := 0])];
      owner := UnlinkRoot(m, i).owner;
      assert Img() == UnlinkRoot(m, i).(bitmap := bitmap);
    }

    /** With only the indirect block itself left to free. */
    lemma RootFreed(m: Image, bm: seq<bool>, i: nat)
      requires Exact(m, start, {}) && i < |m.inodes| && m.inodes[i].addrs[NDIRECT] != 0
      requires |bm| == |m.bitmap|
      requires Exact(UnlinkRoot(m, i).(bitmap := bm), start, {m.inodes[i].addrs[NDIRECT]})
      ensures m.inodes[i].addrs[NDIRECT] < |bm| && bm[m.inodes[i].addrs[NDIRECT]]
      ensures
        var m2 := UnlinkRoot(m, i).(bitmap := bm[m.inodes[i].addrs[NDIRECT] := false]);
        && Exact(m2, start, {}) && OtherFilesSame(m, m2, i)
        && forall l: nat :: l < SLOTS ==> At(m2, i, l) == if l >= NDIRECT then 0 else At(m, i, l)
    {
      var root := m.inodes[i].addrs[NDIRECT];
      var m1 := UnlinkRoot(m, i);
      assert {root} - {root} == {};
      FreeKeeps(m1.(bitmap := bm), start, {root}, root);
      UnlinkRootSlots(m, start, {}, i);
      assert OtherFilesSame(m, m, i);
      TruncKeepsOthers(m, m, m1, m1.(bitmap := bm[root := false]), i);
    }

    /** itrunc's second loop: free everything the indirect block names. */
    method FreeEntries(i: nat, ghost m: Image, ghost m1: Image)
      requires Shaped(m) && Exact(m, start, {}) && data == m.data && i < |inodes|
      requires inodes == m.inodes && m.inodes[i].addrs[NDIRECT] != 0
      requires |bitmap| == |m1.bitmap|
      requires Exact(m1.(bitmap := bitmap), start, Entries(m, i, 0) + {m.inodes[i].addrs[NDIRECT]})
      modifies this`bitmap, this`logged
      ensures |bitmap| == |m1.bitmap|
      ensures Exact(m1.(bitmap := bitmap), start, {m.inodes[i].addrs[NDIRECT]})
      ensures Recorded(old(Now()), Now(), {})
    {
      hide Recorded, Exact;
      RecordedNothing(Now());
      var j := 0;
      while j < NINDIRECT
        invariant j <= NINDIRECT && |bitmap| == |m1.bitmap|
        invariant Recorded(old(Now()), Now(), {})
        invariant Exact(m1.(bitmap := bitmap), start, Entries(m, i, j) + {m.inodes[i].addrs[NDIRECT]})
      {
        ghost var now1 := Now();
        FreeEntry(i, j, m, m1);
        RecordedOn(old(Now()), now1, Now(), {});
        j := j + 1;
      }
      ghost var root := m.inodes[i].addrs[NDIRECT];
      assert Entries(m, i, NINDIRECT) + {root} == {root};
    }

    /** Free what entry `j` names; `m1` is the image `m` without the indirect block. */
    method FreeEntry(i: nat, j: nat, ghost m: Image, ghost m1: Image)
      requires Exact(m, start, {}) && data == m.data && i < |inodes| && j < NINDIRECT
      requires inodes == m.inodes && m.inodes[i].addrs[NDIRECT] != 0
      requires |bitmap| == |m1.bitmap|
      requires Exact(m1.(bitmap := bitmap), start, Entries(m, i, j) + {m.inodes[i].addrs[NDIRECT]})
      modifies this`bitmap, this`logged
      ensures |bitmap| == |m1.bitmap|
      ensures Exact(m1.(bitmap := bitmap), start, Entries(m, i, j + 1) + {m.inodes[i].addrs[NDIRECT]})
      ensures Recorded(old(Now()), Now(), {})
    {
      hide Recorded;
      RecordedNothing(Now());
      var root := inodes[i].addrs[NDIRECT];
      EntriesStep(m, start, i, j);
      var a := Word(data[root], j);
      assert a == At(m, i, NDIRECT + 1 + j);
      if a != 0 {
        ghost var held := Entries(m, i, j) + {root};
        FreeKeeps(m1.(bitmap := bitmap), start, held, a);
        assert held - {a} == Entries(m, i, j + 1) + {root};
        RecordedFree(Now(), a);
        Bfree(a);
      } else {
        assert Entries(m, i, j) == Entries(m, i, j + 1);
      }
    }

    // ---- reading ----

    /**
     readi.  `room` is how many bytes the user's buffer can take; when a chunk does
     not fit, the copy faults and the result is -1.  Reading never allocates.
     */
    method Readi(i: nat, off0: nat, n0: nat, room: nat) returns (r: int, dst: seq<Byte>)
      requires Valid() && i < |inodes| && off0 < UINT && n0 < UINT
      modifies this`bitmap, this`data, this`inodes, this`owner, this`logged
      ensures Img() == old(Img()) && logged == old(logged)
      ensures
        var was := old(Contents(Img(), i));
        if off0 > |was| || (off0 + n0) % UINT < off0 then r == 0 && dst == []
        else
          var n := if off0 + n0 > |was| then |was| - off0 else n0;
          if n <= room then r == n && dst == was[off0..off0 + n]
          else r == -1 && dst == was[off0..off0 + room]
    {
      hide Contents, Exact;
      if off0 > inodes[i].size || (off0 + n0) % UINT < off0 {
        return 0, [];
      }
      var n := if off0 + n0 > inodes[i].size then inodes[i].size - off0 else n0;
      assert Solid(Img(), i);
      ghost var m0, was := Img(), Contents(Img(), i);
      var tot := 0;
      dst := [];
      while tot < n
        invariant tot <= n && tot <= room
        invariant Img() == m0 && logged == old(logged)
        invariant dst == was[off0..off0 + tot]
      {
        var off := off0 + tot;
        assert At(m0, i, FileSlot(off / BSIZE)) != 0;
        var addr := Bmap(i, off / BSIZE);
        if addr == 0 {
          break;
        }
        var m := if n - tot < BSIZE - off % BSIZE then n - tot else BSIZE - off % BSIZE;
        var copied := if tot + m <= room then m else room - tot;
        dst := ReadChunk(i, addr, off, copied, dst, was, off0);
        if copied < m {
          return -1, dst;
        }
        tot := tot + m;
      }
      r := tot;
    }

    /** Copy `n` bytes at `off` out of the block that holds them. */
    method ReadChunk(i: nat, addr: nat, off: nat, n: nat, dst: seq<Byte>, ghost was: seq<Byte>, ghost off0: nat)
      returns (out: seq<Byte>)
      requires Owned({}) && i < |inodes| && off + n <= inodes[i].size <= MAXFILE * BSIZE
      requires off < MAXFILE * BSIZE && off % BSIZE + n <= BSIZE
      requires addr == At(Img(), i, FileSlot(off / BSIZE)) != 0
      requires was == Contents(Img(), i) && off0 <= off && dst == was[off0..off]
      ensures out == was[off0..off + n]
    {
      ChunkContents(Img(), i, off, n);
      out := dst + data[addr][off % BSIZE..off % BSIZE + n];
      assert was[off0..off + n] == was[off0..off] + was[off..off + n];
    }

    // ---- file.c ----

    /** The most bytes filewrite puts in one transaction. */
    const MAXCHUNK := (MAXOPBLOCKS - 1 - 1 - 2) / 2 * BSIZE

    /** File block `bn`'s disk block. */
    ghost function BlockOf(m: Image, i: nat, bn: nat): nat
      requires Shaped(m) && i < |m.inodes|
    {
      if bn < MAXFILE then At(m, i, FileSlot(bn)) else 0
    }

    /** With a single bitmap block, a chunk of filewrite logs at most 7 distinct blocks. */
    lemma ChunkLogsAtMostSeven(m: Image, i: nat, off: nat, n: nat, log: set<nat>)
      requires Shaped(m) && i < |m.inodes| && n <= MAXCHUNK && size < BPB
      requires forall b :: b in log ==> WriteLogs(m, i, off, n, b)
      ensures |log| <= 7
    {
      var k := off / BSIZE;
      var all := {bmapstart, Iblock(i), At(m, i, NDIRECT),
                  BlockOf(m, i, k), BlockOf(m, i, k + 1), BlockOf(m, i, k + 2), BlockOf(m, i, k + 3)};
      forall b | b in log ensures b in all {
        if exists bn: nat :: InRange(bn, off, n) && b == At(m, i, FileSlot(bn)) {
          var bn: nat :| InRange(bn, off, n) && b == At(m, i, FileSlot(bn));
          assert k <= bn <= k + 3 && b == BlockOf(m, i, bn);
        }
      }
      assert log <= all;
      Subset(log, all);
    }

    /** One transaction of filewrite: begin_op, writei, end_op. */
    method WriteTransaction(f: File, src: seq<Byte>, n: nat) returns (r: int, ghost leak: seq<Byte>)
      requires Valid() && f.ip < |inodes| && f.off < UINT && 0 < n <= MAXCHUNK && |src| <= n
      modifies this, f`off
      ensures Valid() && |inodes| == |old(inodes)| && OtherContents(old(Img()), Img(), f.ip)
      ensures size < BPB ==> |logged| <= 7
      ensures r <= |src|
      ensures Recorded(old(Now()).(logged := {}), Now(), if r == -1 then {} else Loose(old(Img()), Img(), f.ip, old(f.off), n, |src|))
      ensures -1 <= r <= n && f.off == old(f.off) + (if r > 0 then r else 0) < UINT
      ensures FileState(old(Contents(Img(), f.ip)), Contents(Img(), f.ip), old(f.off), src, if r > 0 then r else 0, leak)
      ensures leak != [] ==> |src| < n
      ensures r == n ==> leak == [] && |src| == n && old(f.off) <= |old(Contents(Img(), f.ip))|
    {
      hide Recorded, Exact, NoHoles, Loose, WriteLogs;
      ghost var was, off := Contents(Img(), f.ip), f.off;
      logged := {};
      r := Writei(f.ip, src, f.off, n);
      if size < BPB {
        ChunkLogsAtMostSeven(Img(), f.ip, off, n, logged);
      }
      leak := LeakOf(old(Img()), f.ip, Contents(Img(), f.ip), off, src, n, r);
      if r > 0 {
        f.off := f.off + r;
      }
    }

    /** filewrite on an inode: writei in chunks.  `counts` has the number of distinct blocks each transaction logged. */
    method Filewrite(f: File, src: seq<Byte>, n: int) returns (ret: int, ghost counts: seq<nat>, ghost leak: seq<Byte>)
      requires Valid() && f.ip < |inodes| && f.off < UINT && |src| <= (if n > 0 then n else 0)
      modifies this, f`off
      ensures Valid() && |inodes| == |old(inodes)| && OtherContents(old(Img()), Img(), f.ip)
      ensures size < BPB ==> forall c :: c in counts ==> c <= 7
      ensures ret == n || ret == -1
      ensures ret == n > 0 ==> (|counts| - 1) * (3 * BSIZE) < n <= |counts| * (3 * BSIZE)
      ensures 0 <= f.off - old(f.off) <= |src|
      ensures FileState(old(Contents(Img(), f.ip)), Contents(Img(), f.ip), old(f.off), src, f.off - old(f.off), leak)
      ensures leak != [] ==> |src| < n
      ensures (n > 0 ==> (ret == n <==> f.off == old(f.off) + n)) && (n <= 0 ==> ret == if n == 0 then 0 else -1)
      ensures n > 0 && ret == n ==> leak == [] && |src| == n
    {
      hide Recorded, Loose, Exact, NoHoles, FileState, Contents;
      var i := 0;
      counts, leak := [], [];
      ghost var was, off0 := Contents(Img(), f.ip), f.off;
      FileStateStart(was, off0, src);
      while i < n
        invariant 0 <= i <= |src| && f.off == off0 + i < UINT
        invariant Valid() && |inodes| == |old(inodes)| && OtherContents(old(Img()), Img(), f.ip)
        invariant size < BPB ==> forall c :: c in counts ==> c <= 7
        invariant if i < n then i == |counts| * (3 * BSIZE) else n <= 0 || (|counts| - 1) * (3 * BSIZE) < n <= |counts| * (3 * BSIZE)
        invariant leak == [] && FileState(was, Contents(Img(), f.ip), off0, src, i, leak)
      {
        var n1 := if n - i > MAXCHUNK then MAXCHUNK else n - i;
        ghost var mid := Contents(Img(), f.ip);
        var part := if i + n1 <= |src| then src[i..i + n1] else src[i..];
        var r;
        r, leak := WriteTransaction(f, part, n1);
        FileStateMore(was, mid, Contents(Img(), f.ip), off0, src, i, part, if r > 0 then r else 0, leak);
        counts := counts + [|logged|];
        if r != n1 {
          break;
        }
        i := i + r;
      }
      ret := if i == n then n else -1;
    }
  }

  /** What a transaction can change on the disk, and the blocks it has passed to log_write. */
  datatype Snap = Snap(bitmap: seq<bool>, data: seq<Bytes>, dinodes: seq<Inode>, logged: set<nat>)

  /** An open file on an inode: struct file's ip and off. */
  class File {
    const ip: nat
    var off: nat

    constructor (ip: nat)
      ensures this.ip == ip && off == 0
    {
      this.ip, off := ip, 0;
    }
  }

  /**
   A write of three bytes at the start of a file of two equal bytes, of which only two can be
   copied in: it reports none, and both bytes of the file have changed.
   */
  method FaultingWrite(fs: FileSystem, i: nat, a: Byte, b: Byte) returns (r: int)
    requires fs.Valid() && i < |fs.inodes| && Contents(fs.Img(), i) == [a, a] && a != b
    modifies fs
    ensures fs.Valid() && i < |fs.inodes| && r == 0 && Contents(fs.Img(), i) == [b, b]
  {
    hide Exact, Contents;
    assert fs.inodes[i].size == |Contents(fs.Img(), i)| && Solid(fs.Img(), i);
    assert At(fs.Img(), i, FileSlot(0)) != 0;
    assert Gaps(fs.Img(), i, 1, 1) == 0 && Need(fs.Img(), i, 0, 1) == 0;
    r := fs.Writei(i, [b, b], 0, 3);
    assert Overwrite([a, a], 0, []) == [a, a];
    assert Smear([a, a], 0, [b, b]) == [b, b];
  }

  /** The part of a write's source that shows in the file without being counted. */
  lemma LeakOf(m: Image, i: nat, now: seq<Byte>, off: nat, src: seq<Byte>, n: nat, r: int) returns (leak: seq<Byte>)
    requires Shaped(m) && i < |m.inodes| && |src| <= n && r <= n
    requires r == -1 ==> now == Contents(m, i)
    requires r != -1 ==> 0 <= r && off + n <= MAXFILE * BSIZE && off <= m.inodes[i].size && WriteResult(m, i, now, off, src, n, r)
    ensures FileState(Contents(m, i), now, off, src, if r > 0 then r else 0, leak)
    ensures leak != [] ==> |src| < n
    ensures r == n ==> leak == [] && |src| == n && off <= |Contents(m, i)|
  {
    hide Enough, RunsOutAt, Contents;
    var was := Contents(m, i);
    FileStateStart(was, off, src);
    if r == n {
      assert src[..r] == src;
    }
    if r == -1 || now == Overwrite(was, off, src[..r]) {
      leak := [];
      if r >= 0 {
        SmearNothing(now, off + r);
      }
    } else {
      leak := src[r..];
    }
  }

  lemma Subset(a: set<nat>, b: set<nat>)
    requires a <= b
    ensures |a| <= |b|
  {
    assert b == a + (b - a);
  }

  /** How one step of writei's loop ended. */
  datatype Stop = Done | OutOfSpace | Fault
}
