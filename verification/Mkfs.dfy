/**
 mkfs/mkfs.c: building the first disk image.  Blocks are handed out in order, so
 the free map it finally writes marks exactly the blocks below `freeblock`.
 A routine returns false where mkfs dies: on a failed assertion, or on reading a
 block past the end of the image.  The model also stops where mkfs, which does not
 check, gives out an inode number beyond the inode blocks.
 */
module Mkfs {
  import opened Params
  import opened FsImage
  import opened FsBytes
  import opened FsSpace
  import opened MkfsFiles

  class Builder {
    /** Size of the image, the number of metadata blocks, and of inodes that the inode blocks hold. */
    const size: nat
    const nmeta: nat
    const ninodes: nat

    var data: seq<Bytes>
    var inodes: seq<Inode>
    var freeinode: nat
    var freeblock: nat
    ghost var owner: map<nat, Slot>

    /** The image as the kernel would see it if the free map were written now. */
    ghost function Img(): Image
      reads this
    {
      Image(Bits(size, freeblock), data, inodes, owner)
    }

    ghost predicate Valid()
      reads this
    {
      && |data| == size && size < UINT && nmeta <= freeblock <= size && |inodes| == ninodes
      && Shaped(Img()) && Exact(Img(), nmeta, {}) && NoHoles(Img())
      && (forall b: nat :: freeblock <= b < size ==> data[b] == Zeros())
      && (forall i: nat :: freeinode <= i < |inodes| ==> inodes[i] == NoFile())
    }

    /** Between two calls, no file has blocks or nonzero bytes past its end. */
    ghost predicate Ready()
      reads this
    {
      Valid() && Tidy(Img())
    }

    static function NoFile(): Inode {
      Inode(seq(NDIRECT + 1, _ => 0), 0)
    }

    /** All sectors zero, no inode in use. */
    constructor (size: nat, nmeta: nat, ninodes: nat)
      requires 1 <= nmeta <= size < UINT
      ensures Ready() && this.size == size && this.nmeta == nmeta && this.ninodes == ninodes
      ensures freeblock == nmeta && freeinode == 1
      ensures View(Img()) == Blank(ninodes)
    {
      this.size, this.nmeta, this.ninodes := size, nmeta, ninodes;
      data := seq(size, _ => Zeros());
      inodes := seq(ninodes, _ => NoFile());
      freeinode, freeblock, owner := 1, nmeta, map[];
    }

    /** An inode has been written outside the inode blocks. */
    predicate Spilt()
      reads this`freeinode
    {
      freeinode > ninodes
    }

    /** The next inode number, with an empty inode, unless it lies outside the inode blocks. */
    method Ialloc() returns (inum: nat)
      requires Ready()
      modifies this`inodes, this`freeinode
      ensures Ready() && inum == old(freeinode) && freeinode == inum + 1 && (Spilt() <==> inum >= ninodes)
      ensures View(Img()) == old(View(Img())) && (!Spilt() ==> View(Img())[inum] == [])
    {
      inum := freeinode;
      freeinode := freeinode + 1;
      ghost var m := Img();
      if inum < ninodes {
        inodes := inodes[inum := NoFile()];
      }
      assert inodes == m.inodes;
    }

    /** Allocating the next block is what the kernel's balloc does to the image. */
    lemma NextBlock(m: Image)
      requires Valid() && m == Img() && freeblock < size
      ensures !m.bitmap[freeblock] && freeblock !in owner
      ensures Take(m, freeblock) == Image(Bits(size, freeblock + 1), data, inodes, owner)
    {
      assert Bits(size, freeblock)[freeblock := true] == Bits(size, freeblock + 1);
      assert data[freeblock := Zeros()] == data;
    }

    /** Links from slots to blocks leave the byte contents and sizes alone. */
    lemma StillValid(m0: Image)
      requires NoHoles(m0) && KeepsSlots(m0, Img())
      requires forall i: nat :: i < |inodes| ==> inodes[i].size == m0.inodes[i].size
      ensures NoHoles(Img())
    {
      forall i: nat | i < |inodes| ensures Solid(Img(), i) {
        assert Solid(m0, i);
        forall bn: nat | bn < MAXFILE && bn * BSIZE < inodes[i].size ensures At(Img(), i, FileSlot(bn)) != 0 {
          assert At(m0, i, FileSlot(bn)) != 0;
        }
      }
    }

    /** Blocks that slots name have been handed out. */
    lemma SlotBelow(i: nat, k: nat)
      requires Valid() && IsSlot(Img(), i, k) && At(Img(), i, k) != 0
      ensures At(Img(), i, k) < freeblock
    {
    }

    /** The block in a direct slot, or the indirect root, allocated if missing. */
    method MapDirect(i: nat, k: nat) returns (ok: bool, x: nat)
      requires Valid() && i < freeinode <= ninodes && k <= NDIRECT
      modifies this`inodes, this`freeblock, this`owner
      ensures Valid() && (ok <==> old(freeblock) + Empty(old(Img()), i, k) <= size)
      ensures freeblock == if ok then old(freeblock) + Empty(old(Img()), i, k) else size
      ensures ok ==> x == At(Img(), i, k) != 0
      ensures SameFiles(old(Img()), Img()) && KeepsSlots(old(Img()), Img())
      ensures owner == old(owner) || (owner == old(owner)[x := (i, k)] && x !in old(owner))
    {
      assert At(Img(), i, k) == inodes[i].addrs[k];
      if inodes[i].addrs[k] == 0 {
        if freeblock == size {
          return false, 0;
        }
        AddDirect(i, k);
      }
      ok, x := true, inodes[i].addrs[k];
    }

    method AddDirect(i: nat, k: nat)
      requires Valid() && i < freeinode <= ninodes && k <= NDIRECT && freeblock < size && At(Img(), i, k) == 0
      modifies this`inodes, this`freeblock, this`owner
      ensures Valid() && At(Img(), i, k) == inodes[i].addrs[k] == old(freeblock) != 0
      ensures SameFiles(old(Img()), Img()) && KeepsSlots(old(Img()), Img())
      ensures owner == old(owner)[old(freeblock) := (i, k)] && old(freeblock) !in old(owner)
      ensures freeblock == old(freeblock) + 1
    {
      hide NoHoles, Solid, SameFiles, KeepsSlots, Exact;
      ghost var m := Img();
      NextBlock(m);
      AddKeeps(m, nmeta, i, k, freeblock);
      owner := owner[freeblock := (i, k)];
      inodes := inodes[i := inodes[i].(addrs := inodes[i].addrs[k := freeblock])];
      freeblock := freeblock + 1;
      assert Img() == Link(Take(m, freeblock - 1), i, k, freeblock - 1);
      StillValid(m);
    }

    /** The block in entry `j` of the indirect block `root`, allocated if missing. */
    method MapEntry(i: nat, j: nat, root: nat) returns (ok: bool, x: nat)
      requires Valid() && i < freeinode <= ninodes && j < NINDIRECT
      requires root == inodes[i].addrs[NDIRECT] != 0
      modifies this`data, this`freeblock, this`owner
      ensures Valid() && (ok <==> old(freeblock) + Empty(old(Img()), i, NDIRECT + 1 + j) <= size)
      ensures freeblock == if ok then old(freeblock) + Empty(old(Img()), i, NDIRECT + 1 + j) else size
      ensures ok ==> x == At(Img(), i, NDIRECT + 1 + j) != 0
      ensures SameFiles(old(Img()), Img()) && KeepsSlots(old(Img()), Img())
      ensures owner == old(owner) || owner == old(owner)[x := (i, NDIRECT + 1 + j)]
    {
      assert At(Img(), i, NDIRECT + 1 + j) == Word(data[root], j);
      if Word(data[root], j) == 0 {
        if freeblock == size {
          return false, 0;
        }
        AddTheEntry(i, j, root);
      }
      ok, x := true, Word(data[root], j);
    }

    method AddTheEntry(i: nat, j: nat, root: nat)
      requires Valid() && i < freeinode <= ninodes && j < NINDIRECT && freeblock < size
      requires root == inodes[i].addrs[NDIRECT] != 0 && At(Img(), i, NDIRECT + 1 + j) == 0
      modifies this`data, this`freeblock, this`owner
      ensures Valid() && At(Img(), i, NDIRECT + 1 + j) == old(freeblock) != 0
      ensures SameFiles(old(Img()), Img()) && KeepsSlots(old(Img()), Img())
      ensures owner == old(owner)[old(freeblock) := (i, NDIRECT + 1 + j)]
      ensures freeblock == old(freeblock) + 1
    {
      hide NoHoles, Solid, SameFiles, KeepsSlots, Exact;
      ghost var m := Img();
      SlotBelow(i, NDIRECT);
      NextBlock(m);
      AddEntryKeeps(m, nmeta, i, j, freeblock);
      assert At(m, i, NDIRECT) == root;
      data := data[root := PutWord(data[root], j, freeblock)];
      owner := owner[freeblock := (i, NDIRECT + 1 + j)];
      freeblock := freeblock + 1;
      assert Img() == LinkEntry(Take(m, freeblock - 1), i, j, freeblock - 1);
      StillValid(m);
    }

    /** Entry `j` of the indirect block, which is itself allocated if missing. */
    method MapIndirect(i: nat, j: nat) returns (ok: bool, x: nat)
      requires Valid() && i < freeinode <= ninodes && j < NINDIRECT
      modifies this`data, this`inodes, this`freeblock, this`owner
      ensures Valid() && (ok <==> old(freeblock) + Empty(old(Img()), i, NDIRECT + 1 + j) + Empty(old(Img()), i, NDIRECT) <= size)
      ensures freeblock ==
        if ok then old(freeblock) + Empty(old(Img()), i, NDIRECT + 1 + j) + Empty(old(Img()), i, NDIRECT) else size
      ensures ok ==> x == At(Img(), i, NDIRECT + 1 + j) != 0
      ensures SameFiles(old(Img()), Img()) && KeepsSlots(old(Img()), Img())
      ensures NewSlots(old(owner), owner, i, NDIRECT + j)
    {
      hide Valid, SameFiles, KeepsSlots, At, Exact;
      ghost var m := Img();
      var root;
      RootIs(i);
      ok, root := MapDirect(i, NDIRECT);
      ghost var m1 := Img();
      if !ok {
        return false, 0;
      }
      RootIs(i);
      EntryStays(m, m1, i, j, root);
      ok, x := MapEntry(i, j, root);
      SameFilesTrans(m, m1, Img());
      KeepsSlotsTrans(m, m1, Img());
    }

    /** Allocating the indirect block leaves its entries empty. */
    lemma EntryStays(m: Image, m1: Image, i: nat, j: nat, root: nat)
      requires Exact(m, nmeta, {}) && Exact(m1, nmeta, {}) && |m.inodes| == |m1.inodes| && i < |m.inodes| && j < NINDIRECT
      requires m1.owner == m.owner || (m1.owner == m.owner[root := (i, NDIRECT)] && (root !in m.owner || m.owner[root] == (i, NDIRECT)))
      ensures At(m1, i, NDIRECT + 1 + j) == At(m, i, NDIRECT + 1 + j)
    {
      SameSlot(m, m1, nmeta, i, NDIRECT + 1 + j);
    }

    lemma RootIs(i: nat)
      requires Valid() && i < ninodes
      ensures Exact(Img(), nmeta, {}) && Shaped(Img()) && |inodes| == ninodes
      ensures i < |inodes| && NDIRECT < |inodes[i].addrs| && inodes[i].addrs[NDIRECT] == At(Img(), i, NDIRECT)
    {
    }

    /** The block of file `i` that holds block `fbn`. */
    method Map(i: nat, fbn: nat) returns (ok: bool, x: nat)
      requires Valid() && i < freeinode <= ninodes && fbn < MAXFILE
      modifies this`data, this`inodes, this`freeblock, this`owner
      ensures Valid() && (ok <==> old(freeblock) + Need(old(Img()), i, fbn, fbn + 1) <= size)
      ensures freeblock == if ok then old(freeblock) + Need(old(Img()), i, fbn, fbn + 1) else size
      ensures ok ==> x == At(Img(), i, FileSlot(fbn)) != 0
      ensures SameFiles(old(Img()), Img()) && KeepsSlots(old(Img()), Img())
      ensures NewSlots(old(owner), owner, i, fbn)
    {
      hide Exact, NoHoles, SameFiles, KeepsSlots, At;
      assert Gaps(Img(), i, fbn + 1, fbn + 1) == 0;
      if fbn < NDIRECT {
        ok, x := MapDirect(i, fbn);
      } else {
        ok, x := MapIndirect(i, fbn - NDIRECT);
      }
    }

    /** Append `p` to file `inum`. */
    method Iappend(inum: nat, p: seq<Byte>) returns (ok: bool)
      requires Ready() && inum < freeinode <= ninodes
      modifies this`data, this`inodes, this`freeblock, this`owner
      ensures |old(View(Img())[inum])| <= MAXFILE * BSIZE
      ensures ok <==> Fits(old(freeblock), size, |old(View(Img())[inum])|, |p|)
      ensures freeblock == Used(old(freeblock), size, |old(View(Img())[inum])|, |p|)
      ensures ok ==> Ready() && View(Img()) == old(View(Img()))[inum := old(View(Img())[inum]) + p]
    {
      hide Exact, Contents, NoHoles, Fits, Used, Dense;
      DenseFile(Img(), nmeta, inum);
      var off;
      ok, off := AppendLoop(inum, p);
      if ok {
        SetEnd(inum, off, old(Img()), p);
        ViewUpdate(old(Img()), Img(), inum, p);
      }
    }

    /** iappend's loop. */
    method AppendLoop(inum: nat, p: seq<Byte>) returns (ok: bool, off: nat)
      requires Valid() && inum < freeinode <= ninodes && Within(Img(), inum, inodes[inum].size) && Dense(Img(), inum, inodes[inum].size)
      modifies this`data, this`inodes, this`freeblock, this`owner
      ensures old(inodes[inum].size) <= MAXFILE * BSIZE
      ensures ok <==> Fits(old(freeblock), size, old(inodes[inum].size), |p|)
      ensures freeblock == Used(old(freeblock), size, old(inodes[inum].size), |p|)
      ensures ok ==> Valid() && off == old(inodes[inum].size) + |p| <= MAXFILE * BSIZE
      ensures ok ==> Writing(old(Img()), Img(), inum, old(inodes[inum].size), p) && Within(Img(), inum, off)
    {
      hide Exact, Wrote, Covered, Within, Dense, Blocks;
      ghost var m0 := Img();
      var off0 := inodes[inum].size;
      off := off0;
      assert Solid(m0, inum);
      ghost var done := 0;
      var rest := p;
      WritingNothing(m0, inum, off0);
      while |rest| > 0
        invariant done <= |p| && off == off0 + done <= MAXFILE * BSIZE && rest == p[done..]
        invariant Valid()
        invariant Writing(m0, Img(), inum, off0, p[..done]) && Within(Img(), inum, off) && Dense(Img(), inum, off)
        invariant Fits(old(freeblock), size, off0, done) && freeblock == Used(old(freeblock), size, off0, done)
        decreases |rest|
      {
        var fbn := off / BSIZE;
        if fbn >= MAXFILE {
          return false, off;
        }
        var n1 := if |rest| < (fbn + 1) * BSIZE - off then |rest| else (fbn + 1) * BSIZE - off;
        ok := AppendChunk(inum, off, rest[..n1], m0, off0, p[..done]);
        UsedMore(old(freeblock), size, off0, done, n1);
        if !ok {
          StuckStays(old(freeblock), size, off0, done + n1, |p| - done - n1);
          return;
        }
        assert p[..done] + rest[..n1] == p[..done + n1];
        rest := rest[n1..];
        off := off + n1;
        done := done + n1;
      }
      ok := true;
      assert p[..done] == p;
    }

    /** One iteration of iappend. */
    method AppendChunk(i: nat, off: nat, chunk: seq<Byte>, ghost m0: Image, ghost off0: nat, ghost x: seq<Byte>)
      returns (ok: bool)
      requires Valid() && i < freeinode <= ninodes == |m0.inodes| && off == off0 + |x| && |chunk| > 0
      requires off < MAXFILE * BSIZE && off % BSIZE + |chunk| <= BSIZE
      requires Writing(m0, Img(), i, off0, x) && Within(Img(), i, off) && Dense(Img(), i, off)
      modifies this`data, this`inodes, this`freeblock, this`owner
      ensures ok <==> Fits(old(freeblock), size, off, |chunk|)
      ensures freeblock == Used(old(freeblock), size, off, |chunk|)
      ensures ok ==> Valid() && Writing(m0, Img(), i, off0, x + chunk)
      ensures ok ==> Within(Img(), i, off + |chunk|) && Dense(Img(), i, off + |chunk|)
    {
      hide Exact, Wrote, Covered, NoHoles, Within, Dense, Blocks, Need, At;
      ghost var m1 := Img();
      ChunkNeeds(m1, i, off, |chunk|);
      BlocksMono(off, off + |chunk|);
      ok := StoreChunk(i, off, chunk);
      if ok {
        WritingMore(m0, m1, Img(), i, off0, x, chunk);
        WithinMore(m1, Img(), i, off, chunk);
        DenseMore(m1, Img(), nmeta, i, off, chunk);
      }
    }

    /** Map the block at `off` and copy `chunk` into it. */
    method StoreChunk(i: nat, off: nat, chunk: seq<Byte>) returns (ok: bool)
      requires Valid() && i < freeinode <= ninodes && off < MAXFILE * BSIZE && off % BSIZE + |chunk| <= BSIZE
      modifies this`data, this`inodes, this`freeblock, this`owner
      ensures ok <==> old(freeblock) + Need(old(Img()), i, off / BSIZE, off / BSIZE + 1) <= size
      ensures freeblock == if ok then old(freeblock) + Need(old(Img()), i, off / BSIZE, off / BSIZE + 1) else size
      ensures ok ==> Valid() && Wrote(old(Img()), Img(), i, off, chunk) && At(Img(), i, FileSlot(off / BSIZE)) != 0
      ensures ok ==> NewSlots(old(owner), owner, i, off / BSIZE)
    {
      hide Exact, NoHoles, NewSlots, Need;
      ghost var m1 := Img();
      var b;
      ok, b := Map(i, off / BSIZE);
      if !ok {
        return;
      }
      ghost var m2 := Img();
      MapThenStore(m1, m2, nmeta, i, off, chunk);
      SlotBelow(i, FileSlot(off / BSIZE));
      data := data[b := Splice(data[b], off % BSIZE, chunk)];
      assert Img() == StoreAt(m2, i, off, chunk);
      StillValid(m1);
    }

    /** The end of iappend: the size goes up to `off`, the end of the appended bytes. */
    method SetEnd(i: nat, off: nat, ghost m0: Image, ghost p: seq<Byte>)
      requires Valid() && i < freeinode <= ninodes == |m0.inodes| && Exact(m0, nmeta, {}) && NoHoles(m0) && Tidy(m0)
      requires off == m0.inodes[i].size + |p| <= MAXFILE * BSIZE && Writing(m0, Img(), i, m0.inodes[i].size, p)
      requires Within(Img(), i, off)
      modifies this`inodes
      ensures Ready()
      ensures Contents(Img(), i) == Contents(m0, i) + p && OtherContents(m0, Img(), i)
    {
      hide Exact, NoHoles, Covered, Contents, Within, ZeroTail;
      ghost var m1 := Img();
      inodes := inodes[i := inodes[i].(size := off)];
      assert Img() == Resize(m1, i, off);
      ResizeKeeps(m1, nmeta, {}, i, off);
      StillSolid(m0, m1, nmeta, i, m0.inodes[i].size, |p|, off);
      AppendedContents(m0, m1, nmeta, i, p);
      StillTidy(m0, m1, nmeta, i, p);
    }

    /** The free map that balloc writes at the end. */
    method Balloc() returns (ok: bool, bitmap: seq<bool>)
      requires freeblock <= size
      ensures ok <==> freeblock < BSIZE * 8
      ensures ok ==> bitmap == Img().bitmap
      ensures ok ==> |bitmap| == size && forall b: nat :: b < size ==> (bitmap[b] <==> b < freeblock)
    {
      bitmap := seq(size, _ => false);
      if freeblock >= BSIZE * 8 {
        return false, bitmap;
      }
      var i := 0;
      while i < freeblock
        invariant i <= freeblock && |bitmap| == size
        invariant forall b: nat :: b < size ==> (bitmap[b] <==> b < i)
      {
        bitmap := bitmap[i := true];
        i := i + 1;
      }
      ok := true;
      assert bitmap == Bits(size, freeblock);
    }

    // ---- main ----

    /** Copy one file: an inode, an entry in the root directory, and the bytes as read returns them. */
    method AddFile(f: File) returns (ok: bool)
      requires Ready() && ROOTINO < freeinode <= ninodes
      modifies this
      ensures |old(View(Img())[ROOTINO])| <= MAXFILE * BSIZE
      ensures freeinode == old(freeinode) + if SLASH in ShortName(f.path) then 0 else 1
      ensures ok <==> old(freeinode) < ninodes && Placeable(old(freeblock), size, |old(View(Img())[ROOTINO])|, f)
      ensures freeblock ==
        if SLASH in ShortName(f.path) || old(freeinode) == ninodes then old(freeblock)
        else Placed(old(freeblock), size, |old(View(Img())[ROOTINO])|, f)
      ensures ok ==> Ready() && !Spilt() && freeinode == old(freeinode) + 1
      ensures ok ==> View(Img()) == old(View(Img()))[ROOTINO := old(View(Img())[ROOTINO]) + Dirent(old(freeinode), BaseName(f.path))]
                                                    [old(freeinode) := f.data]
    {
      hide Exact, NoHoles, Tidy, View, ShortName, BaseName, Dirent, Fits, Used;
      SizeFits(ROOTINO);
      if SLASH in ShortName(f.path) {
        return false;
      }
      ghost var v := View(Img());
      var inum := Ialloc();
      if Spilt() {
        return false;
      }
      ok := Iappend(ROOTINO, Dirent(inum, BaseName(f.path)));
      if !ok {
        return;
      }
      ghost var v1 := View(Img());
      assert |v1| == |v| && v1[inum] == v[inum] == [];
      ok := CopyIn(inum, f.data);
      if ok {
        assert [] + f.data == f.data;
      }
    }

    /** The read loop: each read returns between one byte and a block of what is left. */
    method CopyIn(inum: nat, bytes: seq<Byte>) returns (ok: bool)
      requires Ready() && inum < freeinode <= ninodes
      modifies this`data, this`inodes, this`freeblock, this`owner
      ensures |old(View(Img())[inum])| <= MAXFILE * BSIZE
      ensures ok <==> Fits(old(freeblock), size, |old(View(Img())[inum])|, |bytes|)
      ensures freeblock == Used(old(freeblock), size, |old(View(Img())[inum])|, |bytes|)
      ensures ok ==> Ready() && View(Img()) == old(View(Img()))[inum := old(View(Img())[inum]) + bytes]
    {
      hide Exact, NoHoles, Tidy, View, Blocks;
      ghost var v := View(Img());
      SizeFits(inum);
      var done := 0;
      assert v[inum] + bytes[..0] == v[inum];
      while done < |bytes|
        invariant done <= |bytes| && Ready()
        invariant View(Img()) == v[inum := v[inum] + bytes[..done]]
        invariant Fits(old(freeblock), size, |v[inum]|, done) && freeblock == Used(old(freeblock), size, |v[inum]|, done)
      {
        var cc: nat :| 0 < cc <= |bytes| - done && cc <= BSIZE;
        ok := Iappend(inum, bytes[done..done + cc]);
        UsedMore(old(freeblock), size, |v[inum]|, done, cc);
        if !ok {
          StuckStays(old(freeblock), size, |v[inum]|, done + cc, |bytes| - done - cc);
          return;
        }
        assert v[inum] + bytes[..done] + bytes[done..done + cc] == v[inum] + bytes[..done + cc];
        done := done + cc;
      }
      ok := true;
      assert bytes[..done] == bytes;
    }

    lemma SizeFits(inum: nat)
      requires Valid() && inum < ninodes
      ensures |View(Img())[inum]| <= MAXFILE * BSIZE
    {
      assert Solid(Img(), inum);
    }

    /** The root inode and its entries for itself. */
    method MakeRoot() returns (ok: bool)
      requires Ready() && freeinode == ROOTINO && freeblock == nmeta
      requires View(Img()) == Blank(ninodes)
      modifies this
      ensures freeinode == ROOTINO + 1
      ensures ok <==> ninodes > ROOTINO && AllFit(size, nmeta, [])
      ensures freeblock == if ok then Total(nmeta, []) else nmeta
      ensures ok ==> Ready() && View(Img()) == Tree([], ninodes)
    {
      hide Exact, NoHoles, Tidy, View, Dirent, Fits, Used;
      var root := Ialloc();
      if Spilt() {
        return false;
      }
      RootFits();
      ok := Iappend(root, Dirent(root, [DOT]));
      if ok {
        ok := Iappend(root, Dirent(root, [DOT, DOT]));
        assert [] + Dirent(root, [DOT]) + Dirent(root, [DOT, DOT]) == Directory([]);
      }
    }

    /** The two entries of the empty root directory take one block. */
    lemma RootFits()
      requires nmeta <= size
      ensures AllFit(size, nmeta, []) <==> Fits(nmeta, size, 0, DIRENT)
      ensures Used(nmeta, size, 0, DIRENT) == if AllFit(size, nmeta, []) then Total(nmeta, []) else nmeta
      ensures AllFit(size, nmeta, []) ==> Fits(Total(nmeta, []), size, DIRENT, DIRENT)
      ensures AllFit(size, nmeta, []) ==> Used(Total(nmeta, []), size, DIRENT, DIRENT) == Total(nmeta, [])
    {
      assert Blocks(0) == 0 && Blocks(DIRENT) == 1 && Blocks(2 * DIRENT) == 1;
    }

    method AddNext(files: seq<File>, k: nat) returns (ok: bool)
      requires Ready() && !Spilt() && k < |files| && freeinode == ROOTINO + 1 + k
      requires View(Img()) == Tree(files[..k], ninodes) && AllFit(size, nmeta, files[..k]) && freeblock == Total(nmeta, files[..k])
      modifies this
      ensures ok <==> 2 + k < ninodes && AllFit(size, nmeta, files[..k + 1])
      ensures Spilt() <==> 2 + k == ninodes && SLASH !in ShortName(files[k].path)
      ensures DIRENT * (2 + k) <= MAXFILE * BSIZE && (!ok ==> freeblock == EndsAt(size, nmeta, ninodes, files, k))
      ensures ok ==> freeinode == ROOTINO + 2 + k && freeblock == Total(nmeta, files[..k + 1])
      ensures ok ==> Ready() && View(Img()) == Tree(files[..k + 1], ninodes)
    {
      hide Valid, Exact, NoHoles, Tidy, View, Dirent, Unfit, Directory, AllFit, Placeable, Placed, Total, ShortName;
      assert Tree(files[..k], ninodes)[ROOTINO] == Directory(files[..k]);
      OneMore(size, nmeta, files, k);
      ok := AddFile(files[k]);
      if ok {
        TreeMore(files[..k + 1], k, ninodes);
        assert files[..k + 1][..k] == files[..k] && files[..k + 1][..k + 1] == files[..k + 1];
      }
    }

    /** The loop over the arguments. */
    method AddFiles(files: seq<File>) returns (ok: bool)
      requires Ready() && !Spilt() && freeinode == ROOTINO + 1 && View(Img()) == Tree([], ninodes)
      requires AllFit(size, nmeta, []) && freeblock == Total(nmeta, [])
      modifies this
      ensures ok <==> 2 + |files| <= ninodes && AllFit(size, nmeta, files)
      ensures Spilt() <==> Spills(size, nmeta, ninodes, files)
      ensures freeblock == EndsAt(size, nmeta, ninodes, files, 0)
      ensures ok ==> freeblock == Total(nmeta, files)
      ensures ok ==> Ready() && View(Img()) == Tree(files, ninodes)
    {
      hide Exact, NoHoles, Tidy, View, Dirent, Unfit, Directory, AllFit, Total, Placed, ShortName;
      assert files[..0] == [] && files[..|files|] == files;
      for k := 0 to |files|
        invariant Ready() && !Spilt() && freeinode == ROOTINO + 1 + k && View(Img()) == Tree(files[..k], ninodes)
        invariant AllFit(size, nmeta, files[..k]) && freeblock == Total(nmeta, files[..k]) && DIRENT * (2 + k) <= MAXFILE * BSIZE
        invariant EndsAt(size, nmeta, ninodes, files, 0) == EndsAt(size, nmeta, ninodes, files, k)
      {
        ok := AddNext(files, k);
        if !ok {
          Stuck(files, k);
          return;
        }
        EntriesFit(files, k + 1);
      }
      ok := true;
    }

    lemma EntriesFit(files: seq<File>, k: nat)
      requires k <= |files| && AllFit(size, nmeta, files[..k])
      ensures DIRENT * (2 + k) <= MAXFILE * BSIZE
    {
    }

    /** A run that ends at file `k` does not fit as a whole. */
    lemma Stuck(files: seq<File>, k: nat)
      requires k < |files| && 2 + k <= ninodes && AllFit(size, nmeta, files[..k])
      requires !(2 + k < ninodes && AllFit(size, nmeta, files[..k + 1]))
      ensures !(2 + |files| <= ninodes && AllFit(size, nmeta, files))
      ensures Spills(size, nmeta, ninodes, files) <==> 2 + k == ninodes && SLASH !in ShortName(files[k].path)
    {
      hide AllFit, ShortName;
      if 2 + k < ninodes {
        if 2 + |files| <= ninodes && AllFit(size, nmeta, files) {
          FewerFit(size, nmeta, files, k + 1);
        }
        if ninodes < 2 + |files| && AllFit(size, nmeta, files[..ninodes - 2]) {
          assert files[..ninodes - 2][..k + 1] == files[..k + 1];
          FewerFit(size, nmeta, files[..ninodes - 2], k + 1);
        }
      }
    }

    /** The last fix-up of the root directory, which leaves a hole exactly when the directory fills its last block. */
    method FixRoot(ghost files: seq<File>)
      requires Ready() && ninodes >= 2 + |files| && View(Img()) == Tree(files, ninodes)
      modifies this`inodes
      ensures freeblock <= size && Exact(Img(), nmeta, {})
      ensures View(Img()) == Tree(files, ninodes)[ROOTINO := Rounded(Directory(files))]
      ensures NoHoles(Img()) <==> |Directory(files)| % BSIZE != 0
    {
      hide Exact, NoHoles, Tidy, Directory, Rounded, View, Tree;
      ghost var m := Img();
      RoundedRoot(m, nmeta, files);
      var off := inodes[ROOTINO].size;
      off := (off / BSIZE + 1) * BSIZE;
      inodes := inodes[ROOTINO := inodes[ROOTINO].(size := off)];
      assert Img() == Resize(m, ROOTINO, RoundUp(m.inodes[ROOTINO].size));
    }

    /** The whole program, on files that could be opened. */
    static method Mkfs(size: nat, nmeta: nat, ninodes: nat, files: seq<File>)
      returns (ok: bool, fs: Builder, bitmap: seq<bool>)
      requires 1 <= nmeta <= size < UINT
      ensures fresh(fs) && fs.size == size && fs.nmeta == nmeta && fs.ninodes == ninodes
      ensures ok <==> Completes(size, nmeta, ninodes, files)
      ensures fs.Spilt() <==> Spills(size, nmeta, ninodes, files)
      ensures fs.freeblock ==
        if ninodes > ROOTINO && AllFit(size, nmeta, []) then EndsAt(size, nmeta, ninodes, files, 0) else nmeta
      ensures ok ==> fs.freeblock == Total(nmeta, files)
      ensures ok ==> |bitmap| == size && forall b: nat :: b < size ==> (bitmap[b] <==> b < fs.freeblock)
      ensures ok ==>
        var m := Image(bitmap, fs.data, fs.inodes, fs.owner);
        && Exact(m, nmeta, {})
        && View(m) == Tree(files, ninodes)[ROOTINO := Rounded(Directory(files))]
        && (NoHoles(m) <==> |Directory(files)| % BSIZE != 0)
    {
      hide Exact, NoHoles, Tidy, View, Dirent, Unfit, Directory, Tree, Rounded, AllFit, Total, EndsAt;
      fs := new Builder(size, nmeta, ninodes);
      bitmap := [];
      ok := fs.MakeRoot();
      if !ok {
        if ninodes > ROOTINO {
          NoRoot(size, nmeta, ninodes, files);
        }
        return;
      }
      ok := fs.AddFiles(files);
      if ok {
        fs.FixRoot(files);
        ok, bitmap := fs.Balloc();
      }
    }
  }

  /** Without room for the root directory nothing fits. */
  lemma NoRoot(size: nat, nmeta: nat, ninodes: nat, files: seq<File>)
    requires ninodes > ROOTINO && !AllFit(size, nmeta, [])
    ensures !Completes(size, nmeta, ninodes, files) && !Spills(size, nmeta, ninodes, files)
  {
    hide AllFit, ShortName;
    if AllFit(size, nmeta, files) {
      FewerFit(size, nmeta, files, 0);
    }
    if ninodes < 2 + |files| && AllFit(size, nmeta, files[..ninodes - 2]) {
      FewerFit(size, nmeta, files[..ninodes - 2], 0);
    }
  }

  // ---- two runs ----

  /** `n` empty files with a one-letter name. */
  function Letters(n: nat): (files: seq<File>)
    ensures |files| == n
  {
    seq(n, _ => File([97], []))
  }

  lemma {:induction false} LettersFit(size: nat, nmeta: nat, n: nat)
    requires DIRENT * (2 + n) <= MAXFILE * BSIZE && nmeta + Blocks(DIRENT * (2 + n)) <= size
    ensures Total(nmeta, Letters(n)) == nmeta + Blocks(DIRENT * (2 + n)) && AllFit(size, nmeta, Letters(n))
  {
    NoData(n);
  }

  lemma {:induction false} NoData(n: nat)
    ensures DataBlocks(Letters(n)) == 0
  {
    if n > 0 {
      assert Letters(n)[..n - 1] == Letters(n - 1);
      NoData(n - 1);
    }
  }

  /** With the source's sizes (2000 blocks, 46 of them metadata, 13 inode blocks), 207 files are one more than there are inodes for. */
  method SpiltRun() returns (fs: Builder)
    ensures fresh(fs) && fs.ninodes == 208 && fs.Spilt()
  {
    hide Exact, NoHoles, View, Tree, EndsAt, AllFit, Total;
    var ok, bitmap;
    LettersFit(2000, 46, 206);
    assert Letters(207)[..206] == Letters(206);
    ok, fs, bitmap := Builder.Mkfs(2000, 46, 208, Letters(207));
  }

  /** With 62 files the root directory fills one block, and the image has a hole after it. */
  method HoleRun() returns (fs: Builder, bitmap: seq<bool>)
    ensures fresh(fs) && |bitmap| == |fs.data| == 2000 && Shaped(Image(bitmap, fs.data, fs.inodes, fs.owner))
    ensures !NoHoles(Image(bitmap, fs.data, fs.inodes, fs.owner))
  {
    hide NoHoles, View, Tree, EndsAt, AllFit, Total;
    var ok;
    LettersFit(2000, 46, 62);
    ok, fs, bitmap := Builder.Mkfs(2000, 46, 208, Letters(62));
  }
}
