/** What mkfs/mkfs.c puts in an image, as values: names, directory entries, and files without slack. */
module MkfsFiles {
  import opened Params
  import opened FsImage
  import opened FsBytes
  import opened FsSpace

  const ROOTINO := 1
  const DIRSIZ := 14
  /** Size of a directory entry. */
  const DIRENT := 2 + DIRSIZ
  const SLASH: Byte := 47
  const DOT: Byte := 46
  const UNDERSCORE: Byte := 95

  /** A C string: its bytes before the NUL. */
  type CString = s: seq<Byte> | 0 !in s

  /** An argument of mkfs and the bytes of the file it names. */
  datatype File = File(path: CString, data: seq<Byte>)

  /** A free map whose first `used` bits are set. */
  function Bits(size: nat, used: nat): (r: seq<bool>)
    ensures |r| == size && forall b: nat :: b < size ==> (r[b] <==> b < used)
  {
    seq(size, b => b < used)
  }

  /** The path without a leading "user/". */
  function ShortName(path: CString): CString {
    if [117, 115, 101, 114, SLASH] <= path then path[5..] else path
  }

  /** The name in the root directory: one leading underscore is dropped. */
  function BaseName(path: CString): CString {
    var short := ShortName(path);
    if short != [] && short[0] == UNDERSCORE then short[1..] else short
  }

  /**
   The block that winode writes for inode `inum`, with `blocks` inode blocks from
   `inodestart` on: it is past them exactly from inode blocks * IPB on, and the first
   block past them is the one that balloc overwrites with the free map in the end.
   */
  lemma InodeBlockIff(inum: nat, inodestart: nat, blocks: nat)
    ensures inum / IPB + inodestart < inodestart + blocks <==> inum < blocks * IPB
    ensures inum / IPB + inodestart == inodestart + blocks <==> blocks * IPB <= inum < (blocks + 1) * IPB
  {
  }

  /** Why mkfs dies on a file: a slash in its name, or more bytes than an inode can map. */
  predicate Unfit(f: File) {
    SLASH in ShortName(f.path) || |f.data| > MAXFILE * BSIZE
  }

  /** A directory entry: the inode number in two bytes, then DIRSIZ bytes of name, padded or cut. */
  function Dirent(inum: nat, name: CString): (r: seq<Byte>)
    ensures |r| == DIRENT
  {
    var n := if |name| < DIRSIZ then |name| else DIRSIZ;
    [inum % 0x100, inum / 0x100 % 0x100] + name[..n] + seq(DIRSIZ - n, _ => 0)
  }

  /** The entry for file `k`. */
  function EntryOf(files: seq<File>, k: nat): (r: seq<Byte>)
    requires k < |files|
    ensures |r| == DIRENT
  {
    Dirent(ROOTINO + 1 + k, BaseName(files[k].path))
  }

  /** The root directory once the files have been added. */
  function Directory(files: seq<File>): (r: seq<Byte>)
    ensures |r| == DIRENT * (2 + |files|)
  {
    if files == [] then Dirent(ROOTINO, [DOT]) + Dirent(ROOTINO, [DOT, DOT])
    else
      var last := |files| - 1;
      var entry := EntryOf(files, last);
      assert DIRENT * (2 + last) + DIRENT == DIRENT * (2 + |files|);
      Directory(files[..last]) + entry
  }

  /** Entry 2 + k of the root directory is for file k. */
  lemma {:induction false} DirectoryEntry(files: seq<File>, k: nat)
    requires k < |files|
    ensures Directory(files)[DIRENT * (2 + k)..DIRENT * (3 + k)] == Dirent(ROOTINO + 1 + k, BaseName(files[k].path))
  {
    hide BaseName, Dirent;
    var last := |files| - 1;
    var d := Directory(files[..last]);
    var e := Dirent(ROOTINO + 1 + last, BaseName(files[last].path));
    if k < last {
      DirectoryEntry(files[..last], k);
      InFirst(d, e, DIRENT * (2 + k), DIRENT * (3 + k));
    } else {
      assert (d + e)[|d|..] == e;
    }
  }

  lemma InFirst(d: seq<Byte>, e: seq<Byte>, a: nat, b: nat)
    requires a <= b <= |d|
    ensures (d + e)[a..b] == d[a..b]
  {
  }

  /** An entry read: the inode number, low byte first, and the name with zeros behind it. */
  predicate Reads(d: seq<Byte>, inum: nat, name: CString) {
    && |d| == 16 && (d[0] as int) + 0x100 * (d[1] as int) == inum
    && forall j: nat :: 2 <= j < 16 ==> d[j] == if j - 2 < |name| then name[j - 2] else 0
  }

  lemma DirentReads(inum: nat, name: CString)
    requires inum < 0x10000
    ensures Reads(Dirent(inum, name), inum, name)
  {
  }

  /** The `k`-th 16 bytes of a directory are this entry. */
  predicate Listed(d: seq<Byte>, k: nat, inum: nat, name: CString) {
    16 * k + 16 <= |d| && Reads(d[16 * k..16 * k + 16], inum, name)
  }

  /** The root directory read back: ".", ".." and one entry for every file, and nothing else. */
  lemma DirectoryReads(files: seq<File>)
    requires |files| < 0xFFFE
    ensures Listed(Directory(files), 0, ROOTINO, [DOT]) && Listed(Directory(files), 1, ROOTINO, [DOT, DOT])
    ensures forall k: nat :: k < |files| ==> Listed(Directory(files), 2 + k, 2 + k, BaseName(files[k].path))
    ensures |Directory(files)| == 16 * (2 + |files|)
  {
    hide BaseName, Dirent, Directory, Reads;
    DirectoryDots(files);
    DirentReads(ROOTINO, [DOT]);
    DirentReads(ROOTINO, [DOT, DOT]);
    forall k: nat | k < |files| ensures Listed(Directory(files), 2 + k, 2 + k, BaseName(files[k].path)) {
      DirectoryEntry(files, k);
      DirentReads(2 + k, BaseName(files[k].path));
    }
  }

  lemma {:induction false} DirectoryDots(files: seq<File>)
    ensures var d := Directory(files);
      d[..DIRENT] == Dirent(ROOTINO, [DOT]) && d[DIRENT..2 * DIRENT] == Dirent(ROOTINO, [DOT, DOT])
  {
    hide BaseName, Dirent;
    if files != [] {
      var last := |files| - 1;
      DirectoryDots(files[..last]);
      InFirst(Directory(files[..last]), EntryOf(files, last), 0, DIRENT);
      InFirst(Directory(files[..last]), EntryOf(files, last), DIRENT, 2 * DIRENT);
    }
  }

  /** The bytes of a text. */
  predicate Spells(bytes: seq<Byte>, text: string) {
    |bytes| == |text| && forall k: nat :: k < |text| ==> bytes[k] == text[k] as int
  }

  /** Whatever directory a program is built in, its name in the image has neither "user/" nor "_" in front. */
  lemma NamesAre(user: seq<Byte>, s: CString)
    requires Spells(user, "user/")
    ensures 0 !in user && 0 !in user + s && 0 !in user + [UNDERSCORE] + s && 0 !in [UNDERSCORE] + s
    ensures BaseName(user + [UNDERSCORE] + s) == BaseName([UNDERSCORE] + s) == s
    ensures s == [] || s[0] != UNDERSCORE ==> BaseName(user + s) == s
    ensures (s == [] || s[0] != UNDERSCORE) && !(user <= s) ==> BaseName(s) == s
    ensures '_' as int == UNDERSCORE && '/' as int == SLASH && '.' as int == DOT
  {
    assert user == [117, 115, 101, 114, SLASH];
    assert (user + [UNDERSCORE] + s)[5..] == [UNDERSCORE] + s && (user + s)[5..] == s;
    assert ([UNDERSCORE] + s)[1..] == s;
  }

  /** What mkfs refuses in itself: a slash in what is left of the path, or more than 268 blocks of bytes. */
  lemma UnfitIff(user: seq<Byte>, s: CString, data: seq<Byte>)
    requires Spells(user, "user/") && 0 !in user + s
    ensures Unfit(File(user + s, data)) <==> SLASH in s || |data| > 268 * 1024
    ensures !(user <= s) ==> (Unfit(File(s, data)) <==> SLASH in s || |data| > 268 * 1024)
  {
    assert user == [117, 115, 101, 114, SLASH];
    assert (user + s)[5..] == s;
  }

  function Blank(n: nat): (v: seq<seq<Byte>>)
    ensures |v| == n
  {
    seq(n, _ => [])
  }

  /** The files of the image: the root directory, the given files from inode 2 on, and empty ones. */
  function Tree(files: seq<File>, n: nat): (v: seq<seq<Byte>>)
    requires n >= 2 + |files|
    ensures |v| == n
  {
    seq(n, i requires 0 <= i < n =>
      if i == ROOTINO then Directory(files) else if 2 <= i < 2 + |files| then files[i - 2].data else [])
  }

  lemma TreeMore(files: seq<File>, k: nat, n: nat)
    requires k < |files| && n >= 2 + |files|
    ensures Tree(files[..k + 1], n) ==
      Tree(files[..k], n)[ROOTINO := Directory(files[..k]) + Dirent(ROOTINO + 1 + k, BaseName(files[k].path))]
                         [ROOTINO + 1 + k := files[k].data]
  {
    hide Dirent, BaseName;
    var some := files[..k + 1];
    assert some[..k] == files[..k] && some[k] == files[k];
    assert Directory(some) == Directory(files[..k]) + Dirent(ROOTINO + 1 + k, BaseName(files[k].path));
    assert forall i :: 0 <= i < k ==> some[i] == files[..k][i];
  }

  // ---- files without slack ----

  /** All files as byte sequences. */
  ghost function View(m: Image): (v: seq<seq<Byte>>)
    requires Shaped(m)
    ensures |v| == |m.inodes|
  {
    seq(|m.inodes|, i requires 0 <= i < |m.inodes| => Contents(m, i))
  }

  lemma ViewUpdate(m: Image, m': Image, i: nat, p: seq<Byte>)
    requires Shaped(m) && Shaped(m') && i < |m.inodes| && OtherContents(m, m', i)
    requires Contents(m', i) == Contents(m, i) + p
    ensures View(m') == View(m)[i := View(m)[i] + p]
  {
    hide Contents;
  }

  /** The file block that a slot names; for the indirect root, the first one it is needed for. */
  function BlockOf(k: nat): nat {
    if k <= NDIRECT then k else k - 1
  }

  /** File `i` owns no block past `off`, and the others none past their size. */
  ghost predicate Within(m: Image, i: nat, off: nat) {
    forall b :: b in m.owner && m.owner[b].0 < |m.inodes| ==>
      BlockOf(m.owner[b].1) * BSIZE < if m.owner[b].0 == i then off else m.inodes[m.owner[b].0].size
  }

  /** The bytes past the end of file `i` are zero. */
  ghost predicate ZeroTail(m: Image, i: nat)
    requires Shaped(m) && i < |m.inodes|
  {
    forall p: nat :: m.inodes[i].size <= p < MAXFILE * BSIZE ==> ByteAt(m, i, p) == 0
  }

  ghost predicate Tidy(m: Image)
    requires Shaped(m)
  {
    && Within(m, |m.inodes|, 0)
    && forall i: nat :: i < |m.inodes| ==> ZeroTail(m, i)
  }

  /** Blocks are as owned as before, apart from those that mapping block `fbn` of file `i` added. */
  ghost predicate NewSlots(o: map<nat, Slot>, o': map<nat, Slot>, i: nat, fbn: nat) {
    forall b :: b in o' ==>
      (b in o && o'[b] == o[b]) || o'[b] == (i, FileSlot(fbn)) || (fbn >= NDIRECT && o'[b] == (i, NDIRECT))
  }

  lemma WithinMore(m: Image, m': Image, i: nat, off: nat, x: seq<Byte>)
    requires Within(m, i, off) && NewSlots(m.owner, m'.owner, i, off / BSIZE) && |x| > 0
    requires Wrote(m, m', i, off, x)
    ensures Within(m', i, off + |x|)
  {
    assert off / BSIZE * BSIZE <= off;
  }

  /** Appending leaves the new end of the file without slack. */
  lemma StillTidy(m0: Image, m1: Image, start: nat, i: nat, p: seq<Byte>)
    requires Shaped(m0) && Tidy(m0) && i < |m0.inodes| && Exact(m1, start, {})
    requires Wrote(m0, m1, i, m0.inodes[i].size, p) && Within(m1, i, m0.inodes[i].size + |p|)
    ensures Tidy(Resize(m1, i, m0.inodes[i].size + |p|))
  {
    hide Exact;
    var off := m0.inodes[i].size;
    var m := Resize(m1, i, off + |p|);
    ResizeKeeps(m1, start, {}, i, off + |p|);
    forall j: nat | j < |m.inodes| ensures ZeroTail(m, j) {
      forall q: nat | m.inodes[j].size <= q < MAXFILE * BSIZE ensures ByteAt(m, j, q) == 0 {
        TailByte(m0, m1, start, i, p, j, q);
      }
    }
  }

  lemma TailByte(m0: Image, m1: Image, start: nat, i: nat, p: seq<Byte>, j: nat, q: nat)
    requires Shaped(m0) && Tidy(m0) && i < |m0.inodes| && Exact(m1, start, {})
    requires Wrote(m0, m1, i, m0.inodes[i].size, p) && j < |m1.inodes|
    requires Resize(m1, i, m0.inodes[i].size + |p|).inodes[j].size <= q < MAXFILE * BSIZE
    ensures Shaped(Resize(m1, i, m0.inodes[i].size + |p|))
    ensures ByteAt(Resize(m1, i, m0.inodes[i].size + |p|), j, q) == 0
  {
    hide Exact;
    var m := Resize(m1, i, m0.inodes[i].size + |p|);
    ResizeKeeps(m1, start, {}, i, m0.inodes[i].size + |p|);
    assert FileBlock(m, j, q / BSIZE) == FileBlock(m1, j, q / BSIZE);
    assert ZeroTail(m0, j);
    assert ByteAt(m0, j, q) == 0;
    if j != i {
      assert FileBlock(m1, j, q / BSIZE) == FileBlock(m0, j, q / BSIZE);
    } else {
      assert ByteAt(m1, i, q) == ByteAt(m0, i, q);
    }
  }

  /** A file without slack owns no block past its end. */
  lemma NothingPast(m: Image, start: nat, i: nat, bn: nat)
    requires Exact(m, start, {}) && Tidy(m) && i < |m.inodes| && bn < MAXFILE && bn * BSIZE >= m.inodes[i].size
    ensures At(m, i, FileSlot(bn)) == 0
  {
    assert BlockOf(FileSlot(bn)) == bn && FileSlot(bn) < SLOTS;
  }

  // ---- how many blocks it takes ----

  /** Blocks of a file of `sz` bytes, with its indirect block. */
  function Blocks(sz: nat): nat {
    var n: nat := (sz + BSIZE - 1) / BSIZE;
    n + if n > NDIRECT then 1 else 0
  }

  lemma BlocksMono(a: nat, b: nat)
    requires a <= b
    ensures Blocks(a) <= Blocks(b)
  {
  }

  lemma BlocksStep(off: nat, k: nat)
    requires k > 0 && off % BSIZE + k <= BSIZE
    ensures Blocks(off + k) == Blocks(off) + if off % BSIZE != 0 then 0 else if off / BSIZE == NDIRECT then 2 else 1
  {
    var q, o: nat := off / BSIZE, off % BSIZE;
    assert off == q * BSIZE + o;
    assert (off + k + BSIZE - 1) / BSIZE == q + 1;
    assert (off + BSIZE - 1) / BSIZE == if o == 0 then q else q + 1;
  }

  /** Appending `n` bytes to a file of `cur` bytes, with `used` of `size` blocks handed out, succeeds. */
  predicate Fits(used: nat, size: nat, cur: nat, n: nat) {
    cur + n <= MAXFILE * BSIZE && used + Blocks(cur + n) - Blocks(cur) <= size
  }

  /** How many are handed out afterwards, whether it succeeds or not. */
  function Used(used: nat, size: nat, cur: nat, n: nat): nat
    requires cur <= MAXFILE * BSIZE
  {
    var end := if cur + n <= MAXFILE * BSIZE then cur + n else MAXFILE * BSIZE;
    BlocksMono(cur, end);
    if used + Blocks(end) - Blocks(cur) <= size then used + Blocks(end) - Blocks(cur) else size
  }

  /** One append after another is one. */
  lemma UsedMore(used: nat, size: nat, cur: nat, n: nat, more: nat)
    requires cur <= MAXFILE * BSIZE && Fits(used, size, cur, n)
    ensures Fits(Used(used, size, cur, n), size, cur + n, more) <==> Fits(used, size, cur, n + more)
    ensures Used(Used(used, size, cur, n), size, cur + n, more) == Used(used, size, cur, n + more)
  {
    hide Blocks;
    BlocksMono(cur, cur + n);
  }

  /** What does not fit is not saved by more to follow. */
  lemma StuckStays(used: nat, size: nat, cur: nat, n: nat, more: nat)
    requires cur <= MAXFILE * BSIZE && !Fits(used, size, cur, n)
    ensures !Fits(used, size, cur, n + more) && Used(used, size, cur, n + more) == Used(used, size, cur, n)
  {
    hide Blocks;
    var max := MAXFILE * BSIZE;
    if cur + n + more <= max {
      BlocksMono(cur + n, cur + n + more);
    } else if cur + n <= max {
      BlocksMono(cur + n, max);
    }
  }

  /** Copying file `f` in succeeds: its name, its entry in a root directory of `dir` bytes, and its bytes. */
  predicate Placeable(used: nat, size: nat, dir: nat, f: File)
    requires dir <= MAXFILE * BSIZE
  {
    SLASH !in ShortName(f.path) && Fits(used, size, dir, DIRENT) && Fits(Used(used, size, dir, DIRENT), size, 0, |f.data|)
  }

  /** Blocks handed out afterwards, if it got as far as the entry. */
  function Placed(used: nat, size: nat, dir: nat, f: File): nat
    requires dir <= MAXFILE * BSIZE
  {
    var entered := Used(used, size, dir, DIRENT);
    if Fits(used, size, dir, DIRENT) then Used(entered, size, 0, |f.data|) else entered
  }

  // ---- what a whole run needs ----

  function DataBlocks(files: seq<File>): nat {
    if files == [] then 0 else DataBlocks(files[..|files| - 1]) + Blocks(|files[|files| - 1].data|)
  }

  /** The blocks of an image with these files. */
  function Total(nmeta: nat, files: seq<File>): nat {
    nmeta + Blocks(DIRENT * (2 + |files|)) + DataBlocks(files)
  }

  predicate NoneUnfit(files: seq<File>) {
    forall k :: 0 <= k < |files| ==> !Unfit(files[k])
  }

  /** The files can all be named and mapped, the directory too, and the image has room. */
  predicate AllFit(size: nat, nmeta: nat, files: seq<File>) {
    && NoneUnfit(files)
    && DIRENT * (2 + |files|) <= MAXFILE * BSIZE && Total(nmeta, files) <= size
  }

  /** One file more. */
  lemma OneMore(size: nat, nmeta: nat, files: seq<File>, k: nat)
    requires k < |files| && AllFit(size, nmeta, files[..k])
    ensures DIRENT * (2 + k) <= MAXFILE * BSIZE
    ensures Placeable(Total(nmeta, files[..k]), size, DIRENT * (2 + k), files[k]) <==> AllFit(size, nmeta, files[..k + 1])
    ensures AllFit(size, nmeta, files[..k + 1]) ==>
      Placed(Total(nmeta, files[..k]), size, DIRENT * (2 + k), files[k]) == Total(nmeta, files[..k + 1])
  {
    hide ShortName, Blocks;
    var most := files[..k + 1];
    assert most[..k] == files[..k] && most[k] == files[k];
    assert DIRENT * (2 + k) + DIRENT == DIRENT * (2 + |most|);
    assert Blocks(0) == 0 by {
      NoBlocks();
    }
    BlocksMono(DIRENT * (2 + k), DIRENT * (2 + k) + DIRENT);
    BlocksMono(0, |files[k].data|);
    FewerUnfit(files, k);
  }

  lemma NoBlocks()
    ensures Blocks(0) == 0
  {
  }

  lemma FewerUnfit(files: seq<File>, k: nat)
    requires k < |files|
    ensures NoneUnfit(files[..k + 1]) <==> NoneUnfit(files[..k]) && !Unfit(files[k])
  {
    hide Unfit;
    var most := files[..k + 1];
    assert forall j :: 0 <= j < k ==> most[j] == files[..k][j];
    assert most[k] == files[k];
  }

  lemma {:induction false} FewerFit(size: nat, nmeta: nat, files: seq<File>, k: nat)
    requires k <= |files| && AllFit(size, nmeta, files)
    ensures AllFit(size, nmeta, files[..k])
    decreases |files| - k
  {
    if k == |files| {
      assert files[..k] == files;
    } else {
      FewerFit(size, nmeta, files, k + 1);
      var most := files[..k + 1];
      assert most[..k] == files[..k];
      BlocksMono(DIRENT * (2 + k), DIRENT * (2 + |most|));
      FewerUnfit(files, k);
    }
  }

  /** mkfs runs to its end. */
  predicate Completes(size: nat, nmeta: nat, ninodes: nat, files: seq<File>) {
    2 + |files| <= ninodes && AllFit(size, nmeta, files) && Total(nmeta, files) < BSIZE * 8
  }

  /** It gives out an inode number that the inode blocks have no room for: everything before fits, and so does the name. */
  predicate Spills(size: nat, nmeta: nat, ninodes: nat, files: seq<File>) {
    || ninodes <= ROOTINO
    || ( && ninodes < 2 + |files| && AllFit(size, nmeta, files[..ninodes - 2])
         && SLASH !in ShortName(files[ninodes - 2].path))
  }

  /** Blocks handed out when it ends, from file `k` on, the files before being in. */
  function EndsAt(size: nat, nmeta: nat, ninodes: nat, files: seq<File>, k: nat): nat
    requires k <= |files| && DIRENT * (2 + k) <= MAXFILE * BSIZE
    decreases |files| - k
  {
    if k == |files| then Total(nmeta, files)
    else if 2 + k < ninodes && AllFit(size, nmeta, files[..k + 1]) then EndsAt(size, nmeta, ninodes, files, k + 1)
    else if 2 + k < ninodes && SLASH !in ShortName(files[k].path) then
      Placed(Total(nmeta, files[..k]), size, DIRENT * (2 + k), files[k])
    else Total(nmeta, files[..k])
  }

  /** The blocks below `off`, with the indirect block once it is needed, are exactly those that file `i` has. */
  ghost predicate Dense(m: Image, i: nat, off: nat) {
    && Shaped(m) && i < |m.inodes|
    && (forall bn: nat :: bn < MAXFILE ==> (At(m, i, FileSlot(bn)) != 0 <==> bn * BSIZE < off))
    && (At(m, i, NDIRECT) != 0 <==> NDIRECT * BSIZE < off)
  }

  lemma SlotWithin(m: Image, start: nat, i: nat, k: nat, off: nat)
    requires Exact(m, start, {}) && IsSlot(m, i, k) && Within(m, i, off) && At(m, i, k) != 0
    ensures BlockOf(k) * BSIZE < off
  {
    assert m.owner[At(m, i, k)] == (i, k);
  }

  /** With nothing past `off` and no gap below it. */
  lemma DenseIf(m: Image, start: nat, i: nat, off: nat)
    requires Exact(m, start, {}) && i < |m.inodes| && Within(m, i, off) && off <= MAXFILE * BSIZE
    requires forall bn: nat :: bn < MAXFILE && bn * BSIZE < off ==> At(m, i, FileSlot(bn)) != 0
    ensures Dense(m, i, off)
  {
    forall bn: nat | bn < MAXFILE ensures At(m, i, FileSlot(bn)) != 0 <==> bn * BSIZE < off {
      if At(m, i, FileSlot(bn)) != 0 {
        SlotWithin(m, start, i, FileSlot(bn), off);
      }
    }
    if NDIRECT * BSIZE < off {
      assert At(m, i, FileSlot(NDIRECT)) != 0;
    }
    if At(m, i, NDIRECT) != 0 {
      SlotWithin(m, start, i, NDIRECT, off);
    }
  }

  lemma DenseFile(m: Image, start: nat, i: nat)
    requires Exact(m, start, {}) && NoHoles(m) && Tidy(m) && i < |m.inodes|
    ensures Within(m, i, m.inodes[i].size) && Dense(m, i, m.inodes[i].size)
  {
    assert Solid(m, i);
    DenseIf(m, start, i, m.inodes[i].size);
  }

  lemma DenseMore(m1: Image, m: Image, start: nat, i: nat, off: nat, x: seq<Byte>)
    requires Dense(m1, i, off) && Exact(m, start, {}) && Wrote(m1, m, i, off, x) && Within(m, i, off + |x|)
    requires off < MAXFILE * BSIZE && 0 < |x| && off % BSIZE + |x| <= BSIZE && At(m, i, FileSlot(off / BSIZE)) != 0
    ensures Dense(m, i, off + |x|)
  {
    hide Exact;
    forall bn: nat | bn < MAXFILE && bn * BSIZE < off + |x| ensures At(m, i, FileSlot(bn)) != 0 {
      if bn * BSIZE < off {
        assert At(m1, i, FileSlot(bn)) != 0;
      } else {
        assert bn == off / BSIZE;
      }
    }
    DenseIf(m, start, i, off + |x|);
  }

  /** What a chunk takes. */
  lemma ChunkNeeds(m: Image, i: nat, off: nat, k: nat)
    requires Dense(m, i, off) && off < MAXFILE * BSIZE && k > 0 && off % BSIZE + k <= BSIZE
    ensures Need(m, i, off / BSIZE, off / BSIZE + 1) == Blocks(off + k) - Blocks(off)
  {
    hide At, Blocks;
    var bn: nat := off / BSIZE;
    BlocksStep(off, k);
    assert Gaps(m, i, bn + 1, bn + 1) == 0;
    assert Empty(m, i, FileSlot(bn)) == if off % BSIZE == 0 then 1 else 0;
  }

  // ---- rounding the root directory ----

  function RoundUp(size: nat): nat {
    (size / BSIZE + 1) * BSIZE
  }

  /** The bytes of a file whose size has been rounded up. */
  function Rounded(s: seq<Byte>): (r: seq<Byte>)
    ensures |r| == RoundUp(|s|)
  {
    s + seq(RoundUp(|s|) - |s|, _ => 0)
  }

  /**
   Rounding a file's size up to the next multiple of BSIZE adds zero bytes, and keeps
   the file free of holes exactly when the size was not already a multiple.
   */
  lemma RoundingLeavesHole(m: Image, start: nat, i: nat)
    requires Exact(m, start, {}) && NoHoles(m) && Tidy(m) && i < |m.inodes|
    ensures
      var m' := Resize(m, i, RoundUp(m.inodes[i].size));
      && Exact(m', start, {})
      && View(m') == View(m)[i := Rounded(View(m)[i])]
      && (NoHoles(m') <==> m.inodes[i].size % BSIZE != 0)
  {
    hide Exact;
    var off := m.inodes[i].size;
    var m' := Resize(m, i, RoundUp(off));
    ResizeKeeps(m, start, {}, i, RoundUp(off));
    RoundedView(m, start, i);
    if off % BSIZE == 0 {
      if off < MAXFILE * BSIZE {
        NothingPast(m, start, i, off / BSIZE);
        assert At(m', i, FileSlot(off / BSIZE)) == 0;
      }
      assert !Solid(m', i);
    } else {
      forall j: nat | j < |m.inodes| ensures Solid(m', j) {
        assert Solid(m, j);
      }
    }
  }

  /** What the fix-up does to an image whose root directory lists `files`. */
  lemma RoundedRoot(m: Image, start: nat, files: seq<File>)
    requires Shaped(m) && Exact(m, start, {}) && NoHoles(m) && Tidy(m) && |m.inodes| >= 2 + |files|
    requires View(m) == Tree(files, |m.inodes|)
    ensures
      var m' := Resize(m, ROOTINO, RoundUp(m.inodes[ROOTINO].size));
      && Exact(m', start, {})
      && View(m') == Tree(files, |m.inodes|)[ROOTINO := Rounded(Directory(files))]
      && (NoHoles(m') <==> |Directory(files)| % BSIZE != 0)
  {
    hide Exact, NoHoles, Tidy, Directory, Rounded, View, Tree, Resize, RoundUp;
    RootSize(m, files);
    RoundingLeavesHole(m, start, ROOTINO);
  }

  lemma RootSize(m: Image, files: seq<File>)
    requires Shaped(m) && |m.inodes| >= 2 + |files| && View(m) == Tree(files, |m.inodes|)
    ensures View(m)[ROOTINO] == Directory(files) && m.inodes[ROOTINO].size == |Directory(files)|
  {
    hide Directory;
    assert View(m)[ROOTINO] == Contents(m, ROOTINO);
  }

  lemma RoundedView(m: Image, start: nat, i: nat)
    requires Exact(m, start, {}) && NoHoles(m) && Tidy(m) && i < |m.inodes|
    ensures
      var m' := Resize(m, i, RoundUp(m.inodes[i].size));
      && Shaped(m')
      && View(m') == View(m)[i := Rounded(View(m)[i])]
  {
    hide Exact, ByteAt, FileBlock;
    var off := m.inodes[i].size;
    var m' := Resize(m, i, RoundUp(off));
    ResizeKeeps(m, start, {}, i, RoundUp(off));
    assert Shaped(m');
    forall j: nat | j < |m.inodes| && j != i ensures Contents(m', j) == Contents(m, j) {
      SameContents(m, m', j);
    }
    assert Solid(m, i) && ZeroTail(m, i);
    forall p: nat | p < MAXFILE * BSIZE ensures ByteAt(m', i, p) == ByteAt(m, i, p) {
      SameByte(m, m', i, p);
    }
    assert Contents(m', i) == Rounded(Contents(m, i));
    assert View(m')[i] == Contents(m', i);
  }

  lemma SameByte(m: Image, m': Image, i: nat, p: nat)
    requires Shaped(m) && Shaped(m') && i < |m.inodes| == |m'.inodes| && p < MAXFILE * BSIZE
    requires FileBlock(m', i, p / BSIZE) == FileBlock(m, i, p / BSIZE)
    ensures ByteAt(m', i, p) == ByteAt(m, i, p)
  {
  }
}
