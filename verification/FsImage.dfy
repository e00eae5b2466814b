/**
 The block layer of kernel/fs.c as values: blocks, inodes with direct and
 indirect slots, the free map, and who holds which block.
 */
module FsImage {
  import opened Params

  const NDIRECT := 12
  const NINDIRECT := BSIZE / 4
  const MAXFILE := NDIRECT + NINDIRECT
  /** Bitmap bits per block, and inodes per block. */
  const BPB := BSIZE * 8
  const IPB := 16
  const UINT := 0x1_0000_0000

  type Byte = b: nat | b < 256

  /** A block of BSIZE bytes. */
  type Bytes = b: seq<Byte> | |b| == BSIZE witness seq(BSIZE, _ => 0)

  function Zeros(): Bytes {
    seq(BSIZE, _ => 0)
  }

  // ---- little-endian words ----

  /** a[j] of an indirect block. */
  function Word(b: Bytes, j: nat): nat
    requires j < NINDIRECT
  {
    var b0: nat, b1: nat, b2: nat, b3: nat := b[4 * j], b[4 * j + 1], b[4 * j + 2], b[4 * j + 3];
    b0 + 0x100 * b1 + 0x1_0000 * b2 + 0x100_0000 * b3
  }

  function WordBytes(w: nat): (r: seq<Byte>)
    requires w < UINT
    ensures |r| == 4
  {
    [w % 0x100, w / 0x100 % 0x100, w / 0x1_0000 % 0x100, w / 0x100_0000]
  }

  /** a[j] = w. */
  function PutWord(b: Bytes, j: nat, w: nat): Bytes
    requires j < NINDIRECT && w < UINT
  {
    b[..4 * j] + WordBytes(w) + b[4 * j + 4..]
  }

  lemma WordSplit(w: nat)
    requires w < UINT
    ensures w == w % 0x100 + 0x100 * (w / 0x100 % 0x100) + 0x1_0000 * (w / 0x1_0000 % 0x100) + 0x100_0000 * (w / 0x100_0000)
  {
  }

  lemma PutGetWord(b: Bytes, j: nat, w: nat, k: nat)
    requires j < NINDIRECT && k < NINDIRECT && w < UINT
    ensures Word(PutWord(b, j, w), k) == if k == j then w else Word(b, k)
  {
    var r := PutWord(b, j, w);
    if k == j {
      WordSplit(w);
      var ws := WordBytes(w);
      assert r[4 * j] == ws[0] && r[4 * j + 1] == ws[1] && r[4 * j + 2] == ws[2] && r[4 * j + 3] == ws[3];
    } else {
      assert r[4 * k] == b[4 * k] && r[4 * k + 1] == b[4 * k + 1];
      assert r[4 * k + 2] == b[4 * k + 2] && r[4 * k + 3] == b[4 * k + 3];
    }
  }

  /** Words are stored low byte first, and the others stay. */
  lemma LowByteFirst(b: Bytes, j: nat, w: nat)
    requires j < NINDIRECT && w < UINT
    ensures var r := PutWord(b, j, w);
      && r[4 * j] == w % 256 && r[4 * j + 1] == w / 256 % 256 && r[4 * j + 2] == w / 65536 % 256 && r[4 * j + 3] == w / 16777216
      && forall k: nat :: k < BSIZE && k / 4 != j ==> r[k] == b[k]
  {
    var r := PutWord(b, j, w);
    var ws := WordBytes(w);
    assert r[4 * j] == ws[0] && r[4 * j + 1] == ws[1] && r[4 * j + 2] == ws[2] && r[4 * j + 3] == ws[3];
  }

  lemma ZeroWord(j: nat)
    requires j < NINDIRECT
    ensures Word(Zeros(), j) == 0
  {
  }

  // ---- inodes and slots ----

  /** addrs[0..NDIRECT] are direct; addrs[NDIRECT] is the indirect block. */
  datatype Inode = Inode(addrs: seq<nat>, size: nat)

  /**
   A slot is a place in an inode that can name a block: 0..11 direct, 12 the
   indirect root, 13 + j entry j of the indirect block.
   */
  const SLOTS := NDIRECT + 1 + NINDIRECT

  type Slot = (nat, nat)

  datatype Image = Image(bitmap: seq<bool>, data: seq<Bytes>, inodes: seq<Inode>, owner: map<nat, Slot>)

  /** The slot for block `bn` of a file. */
  function FileSlot(bn: nat): nat {
    if bn < NDIRECT then bn else bn + 1
  }

  ghost predicate Shaped(m: Image) {
    && |m.bitmap| == |m.data| < UINT
    && forall i :: 0 <= i < |m.inodes| ==> |m.inodes[i].addrs| == NDIRECT + 1 && m.inodes[i].addrs[NDIRECT] < |m.data|
  }

  function Entry(ip: Inode, data: seq<Bytes>, k: nat): nat
    requires |ip.addrs| == NDIRECT + 1 && ip.addrs[NDIRECT] < |data| && k < SLOTS
  {
    if k <= NDIRECT then ip.addrs[k]
    else if ip.addrs[NDIRECT] == 0 then 0
    else Word(data[ip.addrs[NDIRECT]], k - NDIRECT - 1)
  }

  /** The block that slot `k` of inode `i` names, 0 for none. */
  ghost function At(m: Image, i: nat, k: nat): nat
    requires Shaped(m) && i < |m.inodes| && k < SLOTS
  {
    Entry(m.inodes[i], m.data, k)
  }

  ghost predicate IsSlot(m: Image, i: nat, k: nat) {
    i < |m.inodes| && k < SLOTS
  }

  /**
   Block ownership.  Every named block is owned by the one slot that names it, and
   a block's bit is set exactly when it is metadata (below `start`), owned by a slot,
   or in `held`: allocated and not yet linked, or unlinked and not yet freed.
   */
  ghost predicate Exact(m: Image, start: nat, held: set<nat>) {
    && Shaped(m)
    && 1 <= start <= |m.data|
    && (forall i: nat, k: nat {:trigger At(m, i, k)} :: IsSlot(m, i, k) && At(m, i, k) != 0 ==>
          At(m, i, k) in m.owner && m.owner[At(m, i, k)] == (i, k))
    && (forall b :: b in m.owner ==>
          && start <= b < |m.data| && b !in held
          && IsSlot(m, m.owner[b].0, m.owner[b].1)
          && At(m, m.owner[b].0, m.owner[b].1) == b)
    && (forall b :: b in held ==> start <= b < |m.data|)
    && (forall b: nat :: b < |m.data| ==> (m.bitmap[b] <==> b < start || b in m.owner || b in held))
  }

  /** No two slots name the same block. */
  lemma OneHolder(m: Image, start: nat, held: set<nat>, i: nat, k: nat, j: nat, l: nat)
    requires Exact(m, start, held) && IsSlot(m, i, k) && IsSlot(m, j, l)
    requires At(m, i, k) == At(m, j, l) != 0
    ensures i == j && k == l
  {
  }

  // ---- file contents ----

  /** Block `bn` of file `i`; a block that is not mapped reads as zeros. */
  ghost function FileBlock(m: Image, i: nat, bn: nat): Bytes
    requires Shaped(m) && i < |m.inodes| && bn < MAXFILE
  {
    var a := At(m, i, FileSlot(bn));
    if a == 0 || a >= |m.data| then Zeros() else m.data[a]
  }

  ghost function ByteAt(m: Image, i: nat, p: nat): Byte
    requires Shaped(m) && i < |m.inodes| && p < MAXFILE * BSIZE
  {
    FileBlock(m, i, p / BSIZE)[p % BSIZE]
  }

  /** The file as a byte sequence. */
  ghost function Contents(m: Image, i: nat): (s: seq<Byte>)
    requires Shaped(m) && i < |m.inodes|
    ensures |s| == m.inodes[i].size
  {
    seq(m.inodes[i].size, p requires 0 <= p < m.inodes[i].size => if p < MAXFILE * BSIZE then ByteAt(m, i, p) else 0)
  }

  /** Byte `p` of a file: block p / 1024 is direct below 12, and above that entry p / 1024 - 12 of the indirect block. */
  lemma ContentsAt(m: Image, i: nat, p: nat)
    requires Shaped(m) && i < |m.inodes| && p < m.inodes[i].size && p < 268 * 1024
    ensures
      var addrs, bn := m.inodes[i].addrs, p / 1024;
      var b := if bn < 12 then addrs[bn] else if addrs[12] == 0 then 0 else Word(m.data[addrs[12]], bn - 12);
      Contents(m, i)[p] == if 0 < b < |m.data| then m.data[b][p % 1024] else 0
  {
  }

  /** Sizes are representable and every block below the size is mapped. */
  ghost predicate NoHoles(m: Image) {
    && Shaped(m)
    && forall i :: 0 <= i < |m.inodes| ==> Solid(m, i)
  }

  ghost predicate Solid(m: Image, i: nat)
    requires Shaped(m) && i < |m.inodes|
  {
    && m.inodes[i].size <= MAXFILE * BSIZE
    && forall bn: nat :: bn < MAXFILE && bn * BSIZE < m.inodes[i].size ==> At(m, i, FileSlot(bn)) != 0
  }

  /** Same inodes sizes and the same bytes everywhere. */
  ghost predicate SameFiles(m: Image, m': Image) {
    && Shaped(m) && Shaped(m') && |m.inodes| == |m'.inodes|
    && (forall i :: 0 <= i < |m.inodes| ==> m'.inodes[i].size == m.inodes[i].size)
    && forall i, bn {:trigger FileBlock(m', i, bn)} :: 0 <= i < |m.inodes| && 0 <= bn < MAXFILE ==>
         FileBlock(m', i, bn) == FileBlock(m, i, bn)
  }

  /** Slots that named a block still name it. */
  ghost predicate KeepsSlots(m: Image, m': Image) {
    && Shaped(m) && Shaped(m') && |m.inodes| == |m'.inodes|
    && forall i: nat, k: nat {:trigger At(m', i, k)} :: IsSlot(m, i, k) && At(m, i, k) != 0 ==> At(m', i, k) == At(m, i, k)
  }

  lemma SameFilesTrans(a: Image, b: Image, c: Image)
    requires SameFiles(a, b) && SameFiles(b, c)
    ensures SameFiles(a, c)
  {
    forall i, bn | 0 <= i < |a.inodes| && 0 <= bn < MAXFILE ensures FileBlock(c, i, bn) == FileBlock(a, i, bn) {
      assert FileBlock(b, i, bn) == FileBlock(a, i, bn);
    }
  }

  lemma KeepsSlotsTrans(a: Image, b: Image, c: Image)
    requires KeepsSlots(a, b) && KeepsSlots(b, c)
    ensures KeepsSlots(a, c)
  {
    forall i: nat, k: nat | IsSlot(a, i, k) && At(a, i, k) != 0 ensures At(c, i, k) == At(a, i, k) {
      assert At(b, i, k) == At(a, i, k);
    }
  }

  // ---- taking, linking and freeing a block ----

  /** balloc's effect: the bit is set and the block zeroed. */
  ghost function Take(m: Image, b: nat): Image
    requires Shaped(m) && b < |m.data|
  {
    m.(bitmap := m.bitmap[b := true], data := m.data[b := Zeros()])
  }

  lemma TakeKeeps(m: Image, start: nat, held: set<nat>, b: nat)
    requires Exact(m, start, held) && b < |m.data| && !m.bitmap[b]
    ensures Exact(Take(m, b), start, held + {b})
    ensures SameFiles(m, Take(m, b)) && KeepsSlots(m, Take(m, b))
  {
    var m' := Take(m, b);
    forall i: nat, k: nat | IsSlot(m, i, k) ensures At(m', i, k) == At(m, i, k) && At(m, i, k) != b {
      RootNot(m, start, held, i, b);
    }
    SameFilesIf(m, m');
  }

  /** A block that no slot owns is nobody's indirect root. */
  lemma RootNot(m: Image, start: nat, held: set<nat>, i: nat, b: nat)
    requires Exact(m, start, held) && i < |m.inodes| && start <= b && b !in m.owner
    ensures m.inodes[i].addrs[NDIRECT] != b
  {
    assert At(m, i, NDIRECT) == m.inodes[i].addrs[NDIRECT];
  }

  /** A named block of a file is a data block, and nobody's indirect root. */
  lemma FileBlockPlace(m: Image, start: nat, held: set<nat>, i: nat, bn: nat, j: nat)
    requires Exact(m, start, held) && i < |m.inodes| && bn < MAXFILE && j < |m.inodes|
    requires At(m, i, FileSlot(bn)) != 0
    ensures start <= At(m, i, FileSlot(bn)) < |m.data|
    ensures m.inodes[j].addrs[NDIRECT] != At(m, i, FileSlot(bn))
  {
    assert At(m, j, NDIRECT) == m.inodes[j].addrs[NDIRECT];
  }

  /** Files are the same when every file slot shows the same block contents. */
  lemma SameFilesIf(m: Image, m': Image)
    requires Shaped(m) && Shaped(m') && |m.inodes| == |m'.inodes|
    requires forall i :: 0 <= i < |m.inodes| ==> m'.inodes[i].size == m.inodes[i].size
    requires forall i: nat, bn: nat :: i < |m.inodes| && bn < MAXFILE ==> FileBlock(m', i, bn) == FileBlock(m, i, bn)
    ensures SameFiles(m, m')
  {
  }

  /** Slot `k` (direct, or the indirect root) of inode `i` now names the held block `b`. */
  ghost function Link(m: Image, i: nat, k: nat, b: nat): Image
    requires Shaped(m) && i < |m.inodes| && k <= NDIRECT && b < |m.data|
  {
    var ip := m.inodes[i];
    m.(inodes := m.inodes[i := ip.(addrs := ip.addrs[k := b])], owner := m.owner[b := (i, k)])
  }

  lemma LinkSlots(m: Image, start: nat, held: set<nat>, i: nat, k: nat, b: nat)
    requires Exact(m, start, held) && i < |m.inodes| && k <= NDIRECT
    requires b in held && m.data[b] == Zeros() && At(m, i, k) == 0
    ensures forall j: nat, l: nat :: IsSlot(m, j, l) ==>
      At(Link(m, i, k, b), j, l) == if j == i && l == k then b else At(m, j, l)
  {
    forall j: nat, l: nat | IsSlot(m, j, l)
      ensures At(Link(m, i, k, b), j, l) == if j == i && l == k then b else At(m, j, l)
    {
      if j == i && k == NDIRECT && l > NDIRECT {
        ZeroWord(l - NDIRECT - 1);
      }
    }
  }

  lemma LinkKeeps(m: Image, start: nat, held: set<nat>, i: nat, k: nat, b: nat)
    requires Exact(m, start, held) && i < |m.inodes| && k <= NDIRECT
    requires b in held && m.data[b] == Zeros() && At(m, i, k) == 0
    ensures Exact(Link(m, i, k, b), start, held - {b})
    ensures SameFiles(m, Link(m, i, k, b)) && KeepsSlots(m, Link(m, i, k, b))
    ensures At(Link(m, i, k, b), i, k) == b
  {
    hide Entry;
    LinkSlots(m, start, held, i, k, b);
    SameFilesIf(m, Link(m, i, k, b));
  }

  /** Entry `j` of inode `i`'s indirect block now names the held block `b`. */
  ghost function LinkEntry(m: Image, i: nat, j: nat, b: nat): Image
    requires Shaped(m) && i < |m.inodes| && j < NINDIRECT && b < |m.data|
  {
    var root := m.inodes[i].addrs[NDIRECT];
    m.(data := m.data[root := PutWord(m.data[root], j, b)], owner := m.owner[b := (i, NDIRECT + 1 + j)])
  }

  lemma LinkEntrySlots(m: Image, start: nat, held: set<nat>, i: nat, j: nat, b: nat)
    requires Exact(m, start, held) && i < |m.inodes| && j < NINDIRECT && b in held
    requires m.inodes[i].addrs[NDIRECT] != 0
    ensures forall i': nat, l: nat :: IsSlot(m, i', l) ==>
      At(LinkEntry(m, i, j, b), i', l) == if i' == i && l == NDIRECT + 1 + j then b else At(m, i', l)
  {
    var root := m.inodes[i].addrs[NDIRECT];
    assert At(m, i, NDIRECT) == root;
    forall i': nat, l: nat | IsSlot(m, i', l)
      ensures At(LinkEntry(m, i, j, b), i', l) == if i' == i && l == NDIRECT + 1 + j then b else At(m, i', l)
    {
      assert At(m, i', NDIRECT) == m.inodes[i'].addrs[NDIRECT];
      if l > NDIRECT {
        PutGetWord(m.data[root], j, b, l - NDIRECT - 1);
      }
    }
  }

  lemma LinkEntryFiles(m: Image, start: nat, held: set<nat>, i: nat, j: nat, b: nat)
    requires Exact(m, start, held) && i < |m.inodes| && j < NINDIRECT
    requires b in held && m.data[b] == Zeros()
    requires m.inodes[i].addrs[NDIRECT] != 0 && At(m, i, NDIRECT + 1 + j) == 0
    ensures SameFiles(m, LinkEntry(m, i, j, b)) && KeepsSlots(m, LinkEntry(m, i, j, b))
  {
    var m' := LinkEntry(m, i, j, b);
    var root := m.inodes[i].addrs[NDIRECT];
    assert At(m, i, NDIRECT) == root;
    LinkEntrySlots(m, start, held, i, j, b);
    forall i': nat, bn: nat | i' < |m.inodes| && bn < MAXFILE ensures FileBlock(m', i', bn) == FileBlock(m, i', bn) {
      assert At(m, i', FileSlot(bn)) != root;
    }
    SameFilesIf(m, m');
  }

  lemma LinkEntryKeeps(m: Image, start: nat, held: set<nat>, i: nat, j: nat, b: nat)
    requires Exact(m, start, held) && i < |m.inodes| && j < NINDIRECT
    requires b in held && m.data[b] == Zeros()
    requires m.inodes[i].addrs[NDIRECT] != 0 && At(m, i, NDIRECT + 1 + j) == 0
    ensures Exact(LinkEntry(m, i, j, b), start, held - {b})
    ensures At(LinkEntry(m, i, j, b), i, NDIRECT + 1 + j) == b
  {
    hide Entry, PutWord;
    LinkEntrySlots(m, start, held, i, j, b);
  }

  /** Allocating a block and linking it in one go, direct slot or root. */
  lemma AddKeeps(m: Image, start: nat, i: nat, k: nat, b: nat)
    requires Exact(m, start, {}) && i < |m.inodes| && k <= NDIRECT && At(m, i, k) == 0
    requires b < |m.data| && !m.bitmap[b]
    ensures
      var m' := Link(Take(m, b), i, k, b);
      Exact(m', start, {}) && SameFiles(m, m') && KeepsSlots(m, m') && At(m', i, k) == b
  {
    TakeKeeps(m, start, {}, b);
    assert {} + {b} == {b} && {b} - {b} == {};
    LinkKeeps(Take(m, b), start, {b}, i, k, b);
    SameFilesTrans(m, Take(m, b), Link(Take(m, b), i, k, b));
    KeepsSlotsTrans(m, Take(m, b), Link(Take(m, b), i, k, b));
  }

  /** The same for an entry of the indirect block. */
  lemma AddEntryKeeps(m: Image, start: nat, i: nat, j: nat, b: nat)
    requires Exact(m, start, {}) && i < |m.inodes| && j < NINDIRECT
    requires m.inodes[i].addrs[NDIRECT] != 0 && At(m, i, NDIRECT + 1 + j) == 0
    requires b < |m.data| && !m.bitmap[b]
    ensures
      var m' := LinkEntry(Take(m, b), i, j, b);
      Exact(m', start, {}) && SameFiles(m, m') && KeepsSlots(m, m') && At(m', i, NDIRECT + 1 + j) == b
  {
    TakeKeeps(m, start, {}, b);
    assert {} + {b} == {b} && {b} - {b} == {};
    var t := Take(m, b);
    RootNot(m, start, {}, i, b);
    assert At(t, i, NDIRECT + 1 + j) == 0;
    LinkEntryFiles(t, start, {b}, i, j, b);
    LinkEntryKeeps(t, start, {b}, i, j, b);
    SameFilesTrans(m, t, LinkEntry(t, i, j, b));
    KeepsSlotsTrans(m, t, LinkEntry(t, i, j, b));
  }

  /** bfree's effect. */
  ghost function Free(m: Image, b: nat): Image
    requires Shaped(m) && b < |m.data|
  {
    m.(bitmap := m.bitmap[b := false])
  }

  lemma FreeKeeps(m: Image, start: nat, held: set<nat>, b: nat)
    requires Exact(m, start, held) && b in held
    ensures m.bitmap[b]
    ensures Exact(Free(m, b), start, held - {b})
    ensures SameFiles(m, Free(m, b)) && KeepsSlots(m, Free(m, b))
  {
    var m' := Free(m, b);
    forall i: nat, k: nat | IsSlot(m, i, k) ensures At(m', i, k) == At(m, i, k) {
    }
    SameFilesIf(m, m');
  }

  /** The contents of the block that file `i` has at `bn` become `x`. */
  ghost function Store(m: Image, i: nat, bn: nat, x: Bytes): Image
    requires Shaped(m) && i < |m.inodes| && bn < MAXFILE && At(m, i, FileSlot(bn)) < |m.data|
  {
    m.(data := m.data[At(m, i, FileSlot(bn)) := x])
  }

  /** Overwriting one file block changes that block of that file and nothing else. */
  lemma StoreKeeps(m: Image, start: nat, held: set<nat>, i: nat, bn: nat, x: Bytes)
    requires Exact(m, start, held) && i < |m.inodes| && bn < MAXFILE && At(m, i, FileSlot(bn)) != 0
    ensures At(m, i, FileSlot(bn)) < |m.data|
    ensures Exact(Store(m, i, bn, x), start, held)
    ensures KeepsSlots(m, Store(m, i, bn, x))
    ensures forall j: nat, c: nat :: j < |m.inodes| && c < MAXFILE ==>
      FileBlock(Store(m, i, bn, x), j, c) == if j == i && c == bn then x else FileBlock(m, j, c)
  {
    var m' := Store(m, i, bn, x);
    forall j: nat, k: nat | IsSlot(m, j, k) ensures At(m', j, k) == At(m, j, k) {
      FileBlockPlace(m, start, held, i, bn, j);
    }
    forall j: nat, c: nat | j < |m.inodes| && c < MAXFILE
      ensures FileBlock(m', j, c) == if j == i && c == bn then x else FileBlock(m, j, c)
    {
      assert At(m', j, FileSlot(c)) == At(m, j, FileSlot(c));
    }
  }

  // ---- truncation ----

  /** A direct slot gives up its block. */
  ghost function Unlink(m: Image, i: nat, k: nat): Image
    requires Shaped(m) && i < |m.inodes| && k < NDIRECT
  {
    var ip := m.inodes[i];
    m.(inodes := m.inodes[i := ip.(addrs := ip.addrs[k := 0])], owner := m.owner - {ip.addrs[k]})
  }

  lemma UnlinkKeeps(m: Image, start: nat, held: set<nat>, i: nat, k: nat)
    requires Exact(m, start, held) && i < |m.inodes| && k < NDIRECT && m.inodes[i].addrs[k] != 0
    ensures Exact(Unlink(m, i, k), start, held + {m.inodes[i].addrs[k]})
    ensures OtherFilesSame(m, Unlink(m, i, k), i)
    ensures forall l: nat :: l < SLOTS ==> At(Unlink(m, i, k), i, l) == if l == k then 0 else At(m, i, l)
  {
    var m' := Unlink(m, i, k);
    assert At(m, i, k) == m.inodes[i].addrs[k];
    forall j: nat, l: nat | IsSlot(m, j, l) ensures At(m', j, l) == if j == i && l == k then 0 else At(m, j, l) {
    }
  }

  /** Every file but `i` is as before. */
  ghost predicate OtherFilesSame(m: Image, m': Image, i: nat) {
    && Shaped(m) && Shaped(m') && |m.inodes| == |m'.inodes|
    && (forall j: nat :: j < |m.inodes| && j != i ==> m'.inodes[j] == m.inodes[j])
    && (forall j: nat, k: nat {:trigger At(m', j, k)} :: IsSlot(m, j, k) && j != i ==> At(m', j, k) == At(m, j, k))
    && (forall j: nat, bn: nat {:trigger FileBlock(m', j, bn)} :: j < |m.inodes| && j != i && bn < MAXFILE ==>
          FileBlock(m', j, bn) == FileBlock(m, j, bn))
  }

  /** The blocks that inode `i` holds through its indirect block, from entry `from` on. */
  ghost function Entries(m: Image, i: nat, from: nat): (s: set<nat>)
    requires Shaped(m) && i < |m.inodes| && from <= NINDIRECT
    ensures forall b :: b in s <==> b != 0 && exists k: nat :: NDIRECT + 1 + from <= k < SLOTS && At(m, i, k) == b
  {
    set k: nat | NDIRECT + 1 + from <= k < SLOTS && At(m, i, k) != 0 :: At(m, i, k)
  }

  /** The inode gives up its indirect block and everything that block names. */
  ghost function UnlinkRoot(m: Image, i: nat): Image
    requires Shaped(m) && i < |m.inodes|
  {
    var ip := m.inodes[i];
    m.(inodes := m.inodes[i := ip.(addrs := ip.addrs[NDIRECT := 0])],
       owner := m.owner - (Entries(m, i, 0) + {ip.addrs[NDIRECT]}))
  }

  lemma UnlinkRootSlots(m: Image, start: nat, held: set<nat>, i: nat)
    requires Exact(m, start, held) && i < |m.inodes| && m.inodes[i].addrs[NDIRECT] != 0
    ensures OtherFilesSame(m, UnlinkRoot(m, i), i)
    ensures forall l: nat :: l < SLOTS ==> At(UnlinkRoot(m, i), i, l) == if l >= NDIRECT then 0 else At(m, i, l)
    ensures forall j: nat, l: nat :: IsSlot(m, j, l) ==>
      (At(m, j, l) in Entries(m, i, 0) + {m.inodes[i].addrs[NDIRECT]} <==> j == i && l >= NDIRECT && At(m, j, l) != 0)
  {
    assert At(m, i, NDIRECT) == m.inodes[i].addrs[NDIRECT];
  }

  lemma UnlinkRootKeeps(m: Image, start: nat, held: set<nat>, i: nat)
    requires Exact(m, start, held) && i < |m.inodes| && m.inodes[i].addrs[NDIRECT] != 0
    ensures Exact(UnlinkRoot(m, i), start, held + (Entries(m, i, 0) + {m.inodes[i].addrs[NDIRECT]}))
  {
    var m' := UnlinkRoot(m, i);
    var gone := Entries(m, i, 0) + {m.inodes[i].addrs[NDIRECT]};
    assert At(m, i, NDIRECT) == m.inodes[i].addrs[NDIRECT];
    UnlinkRootSlots(m, start, held, i);
    forall j: nat, l: nat | IsSlot(m, j, l) ensures At(m', j, l) == if j == i && l >= NDIRECT then 0 else At(m, j, l) {
    }
    forall b | b in gone ensures b in m.owner && start <= b < |m.data| {
    }
  }

  /** Entry `j` is the only place where its block is named, so freeing it leaves the later entries. */
  lemma EntriesStep(m: Image, start: nat, i: nat, j: nat)
    requires Exact(m, start, {}) && i < |m.inodes| && j < NINDIRECT && m.inodes[i].addrs[NDIRECT] != 0
    ensures
      var a := At(m, i, NDIRECT + 1 + j);
      && Entries(m, i, j) == Entries(m, i, j + 1) + (if a == 0 then {} else {a})
      && a !in Entries(m, i, j + 1) && a != m.inodes[i].addrs[NDIRECT]
  {
    var a := At(m, i, NDIRECT + 1 + j);
    assert At(m, i, NDIRECT) == m.inodes[i].addrs[NDIRECT];
    assert forall k: nat :: NDIRECT < k < SLOTS && At(m, i, k) != 0 ==> m.owner[At(m, i, k)] == (i, k);
    forall b ensures b in Entries(m, i, j) <==> b in Entries(m, i, j + 1) + (if a == 0 then {} else {a}) {
    }
  }

  /** One inode's slots have all been cleared and nothing else has changed. */
  ghost predicate Truncated(m: Image, m': Image, i: nat) {
    && OtherFilesSame(m, m', i) && i < |m'.inodes|
    && forall k: nat :: k < SLOTS ==> At(m', i, k) == 0
  }

  /** Truncation frees exactly the blocks that the inode held. */
  lemma TruncatedFrees(m: Image, m': Image, start: nat, i: nat)
    requires Exact(m, start, {}) && Exact(m', start, {}) && Truncated(m, m', i) && |m.data| == |m'.data|
    ensures forall b: nat :: b < |m.data| ==>
      (m'.bitmap[b] <==> m.bitmap[b] && !(b in m.owner && m.owner[b].0 == i))
  {
    forall b: nat | b < |m.data|
      ensures b in m'.owner <==> b in m.owner && m.owner[b].0 != i
    {
      if b in m'.owner {
        var s := m'.owner[b];
        assert At(m', s.0, s.1) == At(m, s.0, s.1);
      }
      if b in m.owner && m.owner[b].0 != i {
        var s := m.owner[b];
        assert At(m', s.0, s.1) == At(m, s.0, s.1);
      }
    }
  }
}
