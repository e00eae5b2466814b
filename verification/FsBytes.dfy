/** Files as byte sequences: what writing a range of bytes does to them. */
module FsBytes {
  import opened Params
  import opened FsImage

  /** `s` with `x` put over it at `off`, longer if `x` reaches past the end. */
  function Overwrite(s: seq<Byte>, off: nat, x: seq<Byte>): (r: seq<Byte>)
    requires off <= |s|
    ensures |r| == if off + |x| > |s| then off + |x| else |s|
  {
    s[..off] + x + if off + |x| < |s| then s[off + |x|..] else []
  }

  /** `s` with the part of `x` that falls inside it put over it at `off`. */
  function Smear(s: seq<Byte>, off: nat, x: seq<Byte>): (r: seq<Byte>)
    ensures |r| == |s|
  {
    seq(|s|, p requires 0 <= p < |s| => if off <= p < off + |x| then x[p - off] else s[p])
  }

  /** `b` with `x` put over it at `o`. */
  function Splice(b: Bytes, o: nat, x: seq<Byte>): Bytes
    requires o + |x| <= BSIZE
  {
    b[..o] + x + b[o + |x|..]
  }

  ghost predicate OthersSame(m: Image, m': Image, i: nat) {
    && Shaped(m) && Shaped(m') && |m.inodes| == |m'.inodes|
    && (forall j: nat :: j < |m.inodes| ==> m'.inodes[j].size == m.inodes[j].size)
    && forall j: nat, bn: nat {:trigger FileBlock(m', j, bn)} :: j < |m.inodes| && j != i && bn < MAXFILE ==>
         FileBlock(m', j, bn) == FileBlock(m, j, bn)
  }

  /** The bytes from `off` on are `x`; everything else, in every file, is as in `m`. */
  ghost predicate Wrote(m: Image, m': Image, i: nat, off: nat, x: seq<Byte>) {
    && OthersSame(m, m', i) && KeepsSlots(m, m')
    && i < |m.inodes|
    && forall p: nat {:trigger ByteAt(m', i, p)} :: p < MAXFILE * BSIZE ==>
         ByteAt(m', i, p) == if off <= p < off + |x| then x[p - off] else ByteAt(m, i, p)
  }

  lemma WroteNothing(m: Image, i: nat, off: nat)
    requires Shaped(m) && i < |m.inodes|
    ensures Wrote(m, m, i, off, [])
  {
  }

  /** Mapping a block leaves what was written as it is. */
  lemma WroteThenSame(m: Image, m1: Image, m2: Image, i: nat, off: nat, x: seq<Byte>)
    requires Wrote(m, m1, i, off, x) && SameFiles(m1, m2) && KeepsSlots(m1, m2)
    ensures Wrote(m, m2, i, off, x)
  {
    forall j: nat, bn: nat | j < |m.inodes| && j != i && bn < MAXFILE ensures FileBlock(m2, j, bn) == FileBlock(m, j, bn) {
      assert FileBlock(m1, j, bn) == FileBlock(m, j, bn);
    }
    forall p: nat | p < MAXFILE * BSIZE ensures ByteAt(m2, i, p) == ByteAt(m1, i, p) {
      assert FileBlock(m2, i, p / BSIZE) == FileBlock(m1, i, p / BSIZE);
    }
    forall j: nat, k: nat | IsSlot(m, j, k) && At(m, j, k) != 0 ensures At(m2, j, k) == At(m, j, k) {
      assert At(m1, j, k) == At(m, j, k);
    }
  }

  /** The image after `x` has been copied into the block of file `i` that holds byte `pos`. */
  ghost function StoreAt(m: Image, i: nat, pos: nat, x: seq<Byte>): Image
    requires Shaped(m) && i < |m.inodes| && pos < MAXFILE * BSIZE && pos % BSIZE + |x| <= BSIZE
    requires At(m, i, FileSlot(pos / BSIZE)) < |m.data|
  {
    Store(m, i, pos / BSIZE, Splice(m.data[At(m, i, FileSlot(pos / BSIZE))], pos % BSIZE, x))
  }

  /** One byte of a block that has been spliced. */
  lemma SpliceAt(b: Bytes, o: nat, x: seq<Byte>, k: nat)
    requires o + |x| <= BSIZE && k < BSIZE
    ensures Splice(b, o, x)[k] == if o <= k < o + |x| then x[k - o] else b[k]
  {
  }

  /** Byte `p` and byte `pos` share a block, or p is outside the chunk at `pos`. */
  lemma ChunkPlace(p: nat, pos: nat, n: nat)
    requires pos % BSIZE + n <= BSIZE
    ensures pos <= p < pos + n <==> p / BSIZE == pos / BSIZE && pos % BSIZE <= p % BSIZE < pos % BSIZE + n
    ensures p / BSIZE == pos / BSIZE ==> p - pos == p % BSIZE - pos % BSIZE
  {
  }

  lemma StoreAtBytes(m: Image, start: nat, held: set<nat>, i: nat, pos: nat, x: seq<Byte>)
    requires Exact(m, start, held) && i < |m.inodes| && pos < MAXFILE * BSIZE && pos % BSIZE + |x| <= BSIZE
    requires At(m, i, FileSlot(pos / BSIZE)) != 0
    ensures At(m, i, FileSlot(pos / BSIZE)) < |m.data|
    ensures Exact(StoreAt(m, i, pos, x), start, held)
    ensures Wrote(m, StoreAt(m, i, pos, x), i, pos, x)
  {
    var bn := pos / BSIZE;
    StoreKeeps(m, start, held, i, bn, Splice(m.data[At(m, i, FileSlot(bn))], pos % BSIZE, x));
    var m' := StoreAt(m, i, pos, x);
    forall p: nat | p < MAXFILE * BSIZE
      ensures ByteAt(m', i, p) == if pos <= p < pos + |x| then x[p - pos] else ByteAt(m, i, p)
    {
      ChunkPlace(p, pos, |x|);
      SpliceAt(m.data[At(m, i, FileSlot(bn))], pos % BSIZE, x, p % BSIZE);
      assert FileBlock(m', i, p / BSIZE) ==
        if p / BSIZE == bn then Splice(m.data[At(m, i, FileSlot(bn))], pos % BSIZE, x) else FileBlock(m, i, p / BSIZE);
    }
  }

  /** Two adjacent writes are one. */
  lemma WroteMore(m: Image, m1: Image, m2: Image, i: nat, off: nat, x: seq<Byte>, y: seq<Byte>)
    requires Wrote(m, m1, i, off, x) && Wrote(m1, m2, i, off + |x|, y)
    ensures Wrote(m, m2, i, off, x + y)
  {
    forall j: nat, bn: nat | j < |m.inodes| && j != i && bn < MAXFILE ensures FileBlock(m2, j, bn) == FileBlock(m, j, bn) {
      assert FileBlock(m1, j, bn) == FileBlock(m, j, bn);
    }
    forall p: nat | p < MAXFILE * BSIZE
      ensures ByteAt(m2, i, p) == if off <= p < off + |x + y| then (x + y)[p - off] else ByteAt(m, i, p)
    {
      assert ByteAt(m1, i, p) == if off <= p < off + |x| then x[p - off] else ByteAt(m, i, p);
    }
    forall j: nat, k: nat | IsSlot(m, j, k) && At(m, j, k) != 0 ensures At(m2, j, k) == At(m, j, k) {
      assert At(m1, j, k) == At(m, j, k);
    }
  }

  /** Mapping a block and then storing a chunk in it writes exactly that chunk. */
  lemma MapThenStore(m: Image, m1: Image, start: nat, i: nat, pos: nat, x: seq<Byte>)
    requires SameFiles(m, m1) && KeepsSlots(m, m1) && Exact(m1, start, {})
    requires i < |m.inodes| && pos < MAXFILE * BSIZE && pos % BSIZE + |x| <= BSIZE
    requires At(m1, i, FileSlot(pos / BSIZE)) != 0
    ensures At(m1, i, FileSlot(pos / BSIZE)) < |m1.data|
    ensures
      var m2 := StoreAt(m1, i, pos, x);
      && Exact(m2, start, {}) && Wrote(m, m2, i, pos, x)
      && At(m2, i, FileSlot(pos / BSIZE)) == At(m1, i, FileSlot(pos / BSIZE))
      && At(m2, i, NDIRECT) == At(m1, i, NDIRECT)
  {
    StoreAtBytes(m1, start, {}, i, pos, x);
    WroteNothing(m, i, pos);
    WroteThenSame(m, m, m1, i, pos, []);
    WroteMore(m, m1, StoreAt(m1, i, pos, x), i, pos, [], x);
    assert [] + x == x;
  }

  /** The image after the inode's size has been set. */
  function Resize(m: Image, i: nat, size: nat): Image
    requires i < |m.inodes|
  {
    m.(inodes := m.inodes[i := m.inodes[i].(size := size)])
  }

  lemma ResizeKeeps(m: Image, start: nat, held: set<nat>, i: nat, size: nat)
    requires Exact(m, start, held) && i < |m.inodes|
    ensures Exact(Resize(m, i, size), start, held) && KeepsSlots(m, Resize(m, i, size))
    ensures forall j: nat, k: nat :: IsSlot(m, j, k) ==> At(Resize(m, i, size), j, k) == At(m, j, k)
    ensures forall j: nat, bn: nat :: j < |m.inodes| && bn < MAXFILE ==> FileBlock(Resize(m, i, size), j, bn) == FileBlock(m, j, bn)
  {
    var m' := Resize(m, i, size);
    forall j: nat, k: nat | IsSlot(m, j, k) ensures At(m', j, k) == At(m, j, k) {
    }
  }

  /** A file whose inode and blocks are unchanged has the same contents. */
  lemma SameContents(m: Image, m': Image, j: nat)
    requires Shaped(m) && Shaped(m') && j < |m.inodes| == |m'.inodes|
    requires m'.inodes[j].size == m.inodes[j].size
    requires forall bn: nat :: bn < MAXFILE ==> FileBlock(m', j, bn) == FileBlock(m, j, bn)
    ensures Contents(m', j) == Contents(m, j)
  {
    forall p: nat | p < m.inodes[j].size && p < MAXFILE * BSIZE ensures ByteAt(m', j, p) == ByteAt(m, j, p) {
      assert FileBlock(m', j, p / BSIZE) == FileBlock(m, j, p / BSIZE);
    }
  }

  /**
   The contents of a file after `x` has been written at `off` and the size raised
   to cover the first `r` bytes of it: those bytes count as written, the rest only
   shows where it falls inside the file.
   */
  lemma WroteContents(m: Image, m1: Image, start: nat, i: nat, off: nat, x: seq<Byte>, r: nat, size: nat)
    requires Exact(m, start, {}) && Exact(m1, start, {}) && Wrote(m, m1, i, off, x)
    requires r <= |x| && off <= m.inodes[i].size <= MAXFILE * BSIZE && off + r <= MAXFILE * BSIZE
    requires size == if off + r > m.inodes[i].size then off + r else m.inodes[i].size
    ensures Contents(Resize(m1, i, size), i) == Smear(Overwrite(Contents(m, i), off, x[..r]), off + r, x[r..])
  {
    var m2 := Resize(m1, i, size);
    ResizeKeeps(m1, start, {}, i, size);
    var was := Contents(m, i);
    var now := Smear(Overwrite(was, off, x[..r]), off + r, x[r..]);
    forall p: nat | p < size ensures Contents(m2, i)[p] == now[p] {
      assert FileBlock(m2, i, p / BSIZE) == FileBlock(m1, i, p / BSIZE);
      assert Contents(m2, i)[p] == ByteAt(m1, i, p);
      SmearAt(was, off, x, r, p);
    }
  }

  lemma SmearAt(s: seq<Byte>, off: nat, x: seq<Byte>, r: nat, p: nat)
    requires off <= |s| && r <= |x| && p < |Overwrite(s, off, x[..r])|
    ensures p < |s| || off <= p < off + |x|
    ensures Smear(Overwrite(s, off, x[..r]), off + r, x[r..])[p] == if off <= p < off + |x| then x[p - off] else s[p]
  {
  }

  /** Every file but `i` has the contents it had. */
  ghost predicate OtherContents(m: Image, m': Image, i: nat)
    requires Shaped(m) && Shaped(m')
  {
    |m.inodes| == |m'.inodes| && forall j: nat :: j < |m.inodes| && j != i ==> Contents(m', j) == Contents(m, j)
  }

  /** File block `bn` meets the bytes [off, off + n). */
  ghost predicate InRange(bn: nat, off: nat, n: nat) {
    0 < n && off / BSIZE <= bn && bn * BSIZE < off + n && bn < MAXFILE
  }

  /** Every file block that meets [off, off + n) is mapped. */
  ghost predicate Covered(m: Image, i: nat, off: nat, n: nat)
    requires Shaped(m) && i < |m.inodes|
  {
    forall bn: nat :: InRange(bn, off, n) ==> At(m, i, FileSlot(bn)) != 0
  }

  /** A chunk of `k` bytes inside one block extends what is covered, if that block is mapped. */
  lemma CoveredMore(m1: Image, m: Image, i: nat, off: nat, n: nat, k: nat)
    requires Shaped(m1) && KeepsSlots(m1, m) && i < |m.inodes| && Covered(m1, i, off, n)
    requires off + n < MAXFILE * BSIZE && (off + n) % BSIZE + k <= BSIZE
    requires k > 0 ==> At(m, i, FileSlot((off + n) / BSIZE)) != 0
    ensures Covered(m, i, off, n + k)
  {
    forall bn: nat | InRange(bn, off, n + k) ensures At(m, i, FileSlot(bn)) != 0 {
      if InRange(bn, off, n) {
        assert At(m1, i, FileSlot(bn)) != 0;
      } else {
        assert bn == (off + n) / BSIZE;
      }
    }
  }

  /** Raising the size to the end of what is covered leaves no hole. */
  lemma StillSolid(m0: Image, m1: Image, start: nat, i: nat, off: nat, n: nat, end: nat)
    requires NoHoles(m0) && KeepsSlots(m0, m1) && Exact(m1, start, {}) && i < |m1.inodes|
    requires off <= m0.inodes[i].size && off + n <= MAXFILE * BSIZE
    requires end == if off + n > m0.inodes[i].size then off + n else m0.inodes[i].size
    requires forall j: nat :: j < |m1.inodes| && j != i ==> m1.inodes[j].size == m0.inodes[j].size
    requires Covered(m1, i, off, n)
    ensures NoHoles(Resize(m1, i, end))
  {
    var m := Resize(m1, i, end);
    ResizeKeeps(m1, start, {}, i, end);
    forall j: nat | j < |m1.inodes| ensures Solid(m, j) {
      assert Solid(m0, j);
      forall bn: nat | bn < MAXFILE && bn * BSIZE < m.inodes[j].size ensures At(m, j, FileSlot(bn)) != 0 {
        assert At(m, j, FileSlot(bn)) == At(m1, j, FileSlot(bn));
        if bn * BSIZE < m0.inodes[j].size {
          assert At(m0, j, FileSlot(bn)) != 0;
        } else {
          assert InRange(bn, off, n);
        }
      }
    }
  }

  /** With nothing beyond the first `r` bytes there is nothing to smear. */
  lemma SmearNothing(s: seq<Byte>, off: nat)
    ensures Smear(s, off, []) == s
  {
  }

  /** `x` has been written at `off`, and every block it meets is mapped. */
  ghost predicate Writing(m0: Image, m: Image, i: nat, off: nat, x: seq<Byte>) {
    Wrote(m0, m, i, off, x) && Covered(m, i, off, |x|)
  }

  lemma WritingNothing(m: Image, i: nat, off: nat)
    requires Shaped(m) && i < |m.inodes|
    ensures Writing(m, m, i, off, [])
  {
    WroteNothing(m, i, off);
  }

  lemma WritingMore(m0: Image, m1: Image, m: Image, i: nat, off: nat, x: seq<Byte>, y: seq<Byte>)
    requires Writing(m0, m1, i, off, x) && Wrote(m1, m, i, off + |x|, y)
    requires off + |x| < MAXFILE * BSIZE && (off + |x|) % BSIZE + |y| <= BSIZE
    requires At(m, i, FileSlot((off + |x|) / BSIZE)) != 0
    ensures Writing(m0, m, i, off, x + y)
  {
    WroteMore(m0, m1, m, i, off, x, y);
    CoveredMore(m1, m, i, off, |x|, |y|);
  }

  /** Writing at the end of a file and raising its size appends. */
  lemma AppendedContents(m0: Image, m1: Image, start: nat, i: nat, p: seq<Byte>)
    requires Exact(m0, start, {}) && Exact(m1, start, {}) && i < |m0.inodes|
    requires m0.inodes[i].size + |p| <= MAXFILE * BSIZE && Wrote(m0, m1, i, m0.inodes[i].size, p)
    ensures Contents(Resize(m1, i, m0.inodes[i].size + |p|), i) == Contents(m0, i) + p
    ensures OtherContents(m0, Resize(m1, i, m0.inodes[i].size + |p|), i)
  {
    hide Exact, Contents, Smear;
    var off := m0.inodes[i].size;
    var m := Resize(m1, i, off + |p|);
    ResizeKeeps(m1, start, {}, i, off + |p|);
    WroteContents(m0, m1, start, i, off, p, |p|, off + |p|);
    assert p[..|p|] == p && p[|p|..] == [];
    SmearNothing(Overwrite(Contents(m0, i), off, p), off + |p|);
    forall j: nat | j < |m0.inodes| && j != i ensures Contents(m, j) == Contents(m0, j) {
      SameContents(m0, m, j);
    }
  }

  /** Writing `x` and then `y` right after it is writing `x + y`. */
  lemma OverwriteTwice(s: seq<Byte>, off: nat, x: seq<Byte>, y: seq<Byte>)
    requires off <= |s|
    ensures off + |x| <= |Overwrite(s, off, x)|
    ensures Overwrite(Overwrite(s, off, x), off + |x|, y) == Overwrite(s, off, x + y)
  {
    var a, b := Overwrite(Overwrite(s, off, x), off + |x|, y), Overwrite(s, off, x + y);
    assert |a| == |b|;
    forall p | 0 <= p < |a| ensures a[p] == b[p] {
    }
  }

  /** The bytes of a file that lie in one block are a slice of that block. */
  lemma ChunkContents(m: Image, i: nat, pos: nat, n: nat)
    requires Shaped(m) && i < |m.inodes| && pos + n <= m.inodes[i].size <= MAXFILE * BSIZE
    requires pos % BSIZE + n <= BSIZE && pos < MAXFILE * BSIZE
    ensures Contents(m, i)[pos..pos + n] == FileBlock(m, i, pos / BSIZE)[pos % BSIZE..pos % BSIZE + n]
  {
    var a := Contents(m, i)[pos..pos + n];
    var b := FileBlock(m, i, pos / BSIZE)[pos % BSIZE..pos % BSIZE + n];
    forall k | 0 <= k < n ensures a[k] == b[k] {
      ChunkPlace(pos + k, pos, n);
      assert a[k] == ByteAt(m, i, pos + k);
    }
  }

  /** A file that held `was` after `done` bytes of `src` have been written at `off`, and `leak` has shown through after them. */
  ghost predicate FileState(was: seq<Byte>, now: seq<Byte>, off: nat, src: seq<Byte>, done: nat, leak: seq<Byte>) {
    && done <= |src| && leak <= src[done..]
    && if off <= |was| then now == Smear(Overwrite(was, off, src[..done]), off + done, leak)
       else done == 0 && leak == [] && now == was
  }

  lemma FileStateStart(was: seq<Byte>, off: nat, src: seq<Byte>)
    ensures FileState(was, was, off, src, 0, [])
  {
    if off <= |was| {
      SmearNothing(Overwrite(was, off, []), off);
      assert Overwrite(was, off, []) == was;
      assert src[..0] == [];
    }
  }

  /** A chunk starting where the last one ended. */
  lemma FileStateMore(was: seq<Byte>, mid: seq<Byte>, now: seq<Byte>, off: nat, src: seq<Byte>, done: nat,
                      part: seq<Byte>, r: nat, leak: seq<Byte>)
    requires FileState(was, mid, off, src, done, []) && part <= src[done..] && r <= |part|
    requires FileState(mid, now, off + done, part, r, leak)
    ensures FileState(was, now, off, src, done + r, leak)
  {
    hide Overwrite, Smear;
    assert src[..done] + part[..r] == src[..done + r];
    assert part[r..] <= src[done + r..] by {
      assert src[done + r..] == src[done..][r..];
    }
    if off <= |was| {
      SmearNothing(Overwrite(was, off, src[..done]), off + done);
      OverwriteTwice(was, off, src[..done], part[..r]);
    }
  }

  /** Bytes smeared past the `r` written show exactly when one lands inside the file on a byte that differs. */
  lemma SmearShowsIff(was: seq<Byte>, off: nat, src: seq<Byte>, r: nat)
    requires off <= |was| && r <= |src|
    ensures
      var reported := Overwrite(was, off, src[..r]);
      Smear(reported, off + r, src[r..]) == reported
      <==> forall p :: off + r <= p < off + |src| && p < |was| ==> was[p] == src[p - off]
  {
    var reported := Overwrite(was, off, src[..r]);
    var now := Smear(reported, off + r, src[r..]);
    if forall p :: off + r <= p < off + |src| && p < |was| ==> was[p] == src[p - off] {
      forall p | 0 <= p < |now| ensures now[p] == reported[p] {
        SmearAt(was, off, src, r, p);
      }
    } else {
      var p :| off + r <= p < off + |src| && p < |was| && was[p] != src[p - off];
      SmearAt(was, off, src, r, p);
      assert reported[p] == was[p];
    }
  }
}
