/**
 kernel/vm.c: copying between the kernel and user memory, byte by byte, through a
 process's page table.
 */
module VmCopy {
  import opened VmImage
  import opened VmMaps
  import opened VmCode

  /** Addresses below this are translated. */
  const MAXVA: nat := MAXVPN * PGSIZE

  // ---- bytes of words and pages ----

  function GetByte(w: nat, i: nat): (b: nat)
    ensures b < 256
  {
    if i == 0 then w % 256 else GetByte(w / 256, i - 1)
  }

  function SetByte(w: nat, i: nat, b: nat): nat {
    if i == 0 then w / 256 * 256 + b else SetByte(w / 256, i - 1, b) * 256 + w % 256
  }

  lemma {:induction false} GetSetByte(w: nat, i: nat, b: nat, j: nat)
    requires b < 256
    ensures GetByte(SetByte(w, i, b), j) == if i == j then b else GetByte(w, j)
    decreases i
  {
    var s := SetByte(w, i, b);
    if i == 0 {
      assert s % 256 == b && s / 256 == w / 256;
    } else {
      assert s % 256 == w % 256 && s / 256 == SetByte(w / 256, i - 1, b);
      if j > 0 {
        GetSetByte(w / 256, i - 1, b, j - 1);
      }
    }
  }

  /** Byte `k` of a page of 64-bit words, the lowest byte of each word first. */
  function PageByte(page: seq<nat>, k: nat): (b: nat)
    requires |page| == ENTRIES && k < PGSIZE
    ensures b < 256
  {
    GetByte(page[k / 8], k % 8)
  }

  /** Word `j` of a page lies at bytes 8 * j and on, lowest byte first. */
  lemma LowByteFirst(page: seq<nat>, j: nat)
    requires |page| == ENTRIES && j < ENTRIES
    ensures PageByte(page, 8 * j) == page[j] % 256
    ensures PageByte(page, 8 * j + 1) == page[j] / 256 % 256
    ensures PageByte(page, 8 * j + 2) == page[j] / 65536 % 256
    ensures PageByte(page, 8 * j + 3) == page[j] / 16777216 % 256
    ensures forall i: nat :: i < 4 ==> PageByte(page, 8 * j + 4 + i) == GetByte(page[j] / 4294967296, i)
  {
    hide GetByte;
    var w := page[j];
    ByteAt(w);
    ByteAt(w / 4294967296);
    forall i: nat | i < 4 ensures PageByte(page, 8 * j + 4 + i) == GetByte(w / 4294967296, i) {
      Deeper(w, i);
      assert w / 256 / 256 / 256 / 256 == w / 4294967296;
    }
  }

  lemma ByteAt(w: nat)
    ensures GetByte(w, 0) == w % 256 && GetByte(w, 1) == w / 256 % 256
    ensures GetByte(w, 2) == w / 65536 % 256 && GetByte(w, 3) == w / 16777216 % 256
  {
    var a := w / 256;
    var b := a / 256;
    assert GetByte(w, 1) == GetByte(a, 0);
    assert GetByte(w, 2) == GetByte(a, 1) == GetByte(b, 0);
    assert GetByte(w, 3) == GetByte(a, 2) == GetByte(b, 1) == GetByte(b / 256, 0);
    assert b == w / 65536 && b / 256 == w / 16777216;
  }

  /** Four bytes on is dividing four times. */
  lemma Deeper(w: nat, i: nat)
    ensures GetByte(w, i + 4) == GetByte(w / 256 / 256 / 256 / 256, i)
  {
    assert GetByte(w, i + 4) == GetByte(w / 256, i + 3);
    assert GetByte(w / 256, i + 3) == GetByte(w / 256 / 256, i + 2);
    assert GetByte(w / 256 / 256, i + 2) == GetByte(w / 256 / 256 / 256, i + 1);
  }

  function PutByte(page: seq<nat>, k: nat, b: nat): (r: seq<nat>)
    requires |page| == ENTRIES && k < PGSIZE
    ensures |r| == ENTRIES
  {
    Put(page, k / 8, SetByte(page[k / 8], k % 8, b))
  }

  lemma PutByteAt(page: seq<nat>, k: nat, b: nat, j: nat)
    requires |page| == ENTRIES && k < PGSIZE && j < PGSIZE && b < 256
    ensures PageByte(PutByte(page, k, b), j) == if j == k then b else PageByte(page, j)
  {
    GetSetByte(page[k / 8], k % 8, b, j % 8);
  }

  // ---- user memory ----

  /** walkaddr succeeds: the page is mapped and the user may access it. */
  predicate Accessible(m: Phys, r: nat, u: nat) {
    u < MAXVPN && Lookup(m.mem, r, u) != 0 && Lookup(m.mem, r, u) / 16 % 2 == 1
  }

  /** The byte at address `a` of tree `r`. */
  ghost function UserByte(m: Phys, r: nat, a: nat): nat {
    var f := Frame(Lookup(m.mem, r, a / PGSIZE));
    if f in m.mem && |m.mem[f]| == ENTRIES then PageByte(m.mem[f], a % PGSIZE) else 0
  }

  /** What a user may access are data pages of the tree's own. */
  ghost predicate UserOwn(m: Phys, r: nat) {
    IsRoot(m, r) && forall u: nat {:trigger OwnPage(m, r, u)} :: Accessible(m, r, u) ==> OwnPage(m, r, u)
  }

  /** In a user space whose pages above the user memory are not for the user, it may access exactly its own pages. */
  lemma SpaceIsOwn(m: Phys, r: nat, n: nat)
    requires UserSpace(m, r, n) && forall u: nat :: USERTOP <= u < MAXVPN ==> Lookup(m.mem, r, u) / 16 % 2 == 0
    ensures UserOwn(m, r)
  {
    hide Lookup;
    forall u: nat | Accessible(m, r, u) ensures OwnPage(m, r, u) {
      assert Lookup(m.mem, r, u) != 0;
    }
  }

  /** From `m0` to `m` the bytes from `dst` on in tree `r` became `x`, and no other byte of any tree changed. */
  ghost predicate Copied(m0: Phys, m: Phys, r: nat, dst: nat, x: seq<nat>) {
    && m.owner == m0.owner && m.free == m0.free && SameMaps(m0, m)
    && forall s: nat, a: nat {:trigger UserByte(m, s, a)} :: IsRoot(m0, s) && a / PGSIZE < VPNS ==>
         UserByte(m, s, a) == if s == r && dst <= a < dst + |x| then x[a - dst] else UserByte(m0, s, a)
  }

  lemma CopiedNothing(m: Phys, r: nat, dst: nat)
    ensures Copied(m, m, r, dst, [])
  {
  }

  lemma CopiedMore(m0: Phys, m1: Phys, m: Phys, r: nat, dst: nat, x: seq<nat>, y: seq<nat>)
    requires Copied(m0, m1, r, dst, x) && Copied(m1, m, r, dst + |x|, y)
    ensures Copied(m0, m, r, dst, x + y)
  {
    hide UserByte;
    MapsChain(m0, m1, m);
    forall s: nat, a: nat | IsRoot(m0, s) && a / PGSIZE < VPNS
      ensures UserByte(m, s, a) == if s == r && dst <= a < dst + |x + y| then (x + y)[a - dst] else UserByte(m0, s, a)
    {
      assert UserByte(m1, s, a) == if s == r && dst <= a < dst + |x| then x[a - dst] else UserByte(m0, s, a);
    }
  }

  /** The image after byte `b` has been stored at address `a` of tree `r`. */
  ghost function Stored(m: Phys, r: nat, a: nat, b: nat): Phys
    requires Frame(Lookup(m.mem, r, a / PGSIZE)) in m.mem && |m.mem[Frame(Lookup(m.mem, r, a / PGSIZE))]| == ENTRIES
  {
    var f := Frame(Lookup(m.mem, r, a / PGSIZE));
    Phys(m.mem[f := PutByte(m.mem[f], a % PGSIZE, b)], m.free, m.owner)
  }

  /** Storing a byte in a page of the tree's own changes that byte and no other, in any tree. */
  lemma StoredCopied(m: Phys, lo: nat, hi: nat, r: nat, a: nat, b: nat)
    requires Exact(m, lo, hi) && IsRoot(m, r) && a / PGSIZE < VPNS && OwnPage(m, r, a / PGSIZE) && Lookup(m.mem, r, a / PGSIZE) != 0 && b < 256
    ensures Frame(Lookup(m.mem, r, a / PGSIZE)) in m.mem && |m.mem[Frame(Lookup(m.mem, r, a / PGSIZE))]| == ENTRIES
    ensures Exact(Stored(m, r, a, b), lo, hi) && Copied(m, Stored(m, r, a, b), r, a, [b])
  {
    hide Lookup, Trees, TableAt;
    var f := Frame(Lookup(m.mem, r, a / PGSIZE));
    assert f in m.mem;
    var m' := Stored(m, r, a, b);
    SamePages(m, m', lo, hi);
    TreesStay(m, lo, hi, m');
    forall s: nat, c: nat | IsRoot(m, s) && c / PGSIZE < VPNS
      ensures UserByte(m', s, c) == if s == r && c == a then b else UserByte(m, s, c)
    {
      StoredByte(m, lo, hi, r, a, b, s, c);
    }
  }

  lemma StoredByte(m: Phys, lo: nat, hi: nat, r: nat, a: nat, b: nat, s: nat, c: nat)
    requires Exact(m, lo, hi) && IsRoot(m, r) && a / PGSIZE < VPNS && OwnPage(m, r, a / PGSIZE) && Lookup(m.mem, r, a / PGSIZE) != 0 && b < 256
    requires IsRoot(m, s) && c / PGSIZE < VPNS
    requires Frame(Lookup(m.mem, r, a / PGSIZE)) in m.mem && |m.mem[Frame(Lookup(m.mem, r, a / PGSIZE))]| == ENTRIES
    requires SameMaps(m, Stored(m, r, a, b))
    ensures UserByte(Stored(m, r, a, b), s, c) == if s == r && c == a then b else UserByte(m, s, c)
  {
    hide Lookup, Reached, Placed, EntriesOk, TableAt, PageByte, PutByte;
    var m' := Stored(m, r, a, b);
    var f, g := Frame(Lookup(m.mem, r, a / PGSIZE)), Frame(Lookup(m.mem, s, c / PGSIZE));
    assert Lookup(m'.mem, s, c / PGSIZE) == Lookup(m.mem, s, c / PGSIZE);
    if f == g {
      NoFrame(m, lo, hi);
      assert Lookup(m.mem, s, c / PGSIZE) != 0;
      OneMapping(m, lo, hi, r, a / PGSIZE, s, c / PGSIZE);
      PutByteAt(m.mem[f], a % PGSIZE, b, c % PGSIZE);
    }
  }

  lemma NoFrame(m: Phys, lo: nat, hi: nat)
    requires Pages(m, lo, hi)
    ensures Frame(0) !in m.mem
  {
  }

  /** The page stays accessible and the tree's own while bytes are copied. */
  lemma StillOwn(m0: Phys, m: Phys, r: nat, dst: nat, x: seq<nat>)
    requires Copied(m0, m, r, dst, x) && UserOwn(m0, r)
    ensures UserOwn(m, r) && forall u: nat {:trigger Accessible(m, r, u)} :: Accessible(m, r, u) <==> Accessible(m0, r, u)
  {
    hide Lookup, UserByte;
    forall u: nat ensures (Accessible(m, r, u) <==> Accessible(m0, r, u)) && (Accessible(m, r, u) ==> OwnPage(m, r, u)) {
      if u < MAXVPN {
        assert Lookup(m.mem, r, u) == Lookup(m0.mem, r, u);
        assert Accessible(m0, r, u) ==> OwnPage(m0, r, u);
      }
    }
  }

  // ---- the code ----

  /** What walkaddr finds at the leaf. */
  lemma LeafIs(m: Phys, lo: nat, hi: nat, r: nat, v: nat)
    requires Exact(m, lo, hi) && UserOwn(m, r) && v < MAXVPN
    ensures
      var t := TableAt(m.mem, r, 0, v / ENTRIES);
      && (t == 0 ==> !Accessible(m, r, v))
      && (t != 0 ==>
            && t in m.mem && |m.mem[t]| == ENTRIES
            && (Accessible(m, r, v) <==> V(m.mem[t][v % ENTRIES]) && m.mem[t][v % ENTRIES] / 16 % 2 == 1)
            && (Accessible(m, r, v) ==> Frame(m.mem[t][v % ENTRIES]) == Frame(Lookup(m.mem, r, v)) != 0))
  {
    hide TableAt, Reached, Placed, EntriesOk, Mapped, FramesOk;
    var t := TableAt(m.mem, r, 0, v / ENTRIES);
    if t != 0 {
      TableOwnedAt(m, lo, hi, r, v);
    }
    if Accessible(m, r, v) {
      assert OwnPage(m, r, v);
    }
  }

  lemma TableOwnedAt(m: Phys, lo: nat, hi: nat, r: nat, v: nat)
    requires Exact(m, lo, hi) && IsRoot(m, r) && v < VPNS && TableAt(m.mem, r, 0, v / ENTRIES) != 0
    ensures var t := TableAt(m.mem, r, 0, v / ENTRIES); t in m.mem && |m.mem[t]| == ENTRIES
  {
    LeafTable(m, lo, hi, r, v);
  }

  /** The user may access an address below 1 << 38 whose entry has V and U set. */
  lemma AccessibleIff(m: Phys, r: nat, va: nat)
    ensures Accessible(m, r, va / PGSIZE) <==>
      va < 0x40_0000_0000 && Lookup(m.mem, r, va / PGSIZE) % 2 == 1 && Lookup(m.mem, r, va / PGSIZE) / 16 % 2 == 1
  {
    hide TableAt;
  }

  /** walkaddr: the page behind address `va`; 0 when there is none that the user may access. */
  method Walkaddr(k: Kernel, r: nat, va: nat) returns (p: nat)
    requires k.Valid() && UserOwn(k.Img(), r)
    modifies k`mem, k`freelist, k`free, k`owner
    ensures k.Img() == old(k.Img()) && k.Valid()
    ensures p != 0 <==> Accessible(k.Img(), r, va / PGSIZE)
    ensures p != 0 <==> va < 0x40_0000_0000 && Lookup(k.mem, r, va / PGSIZE) % 2 == 1 && Lookup(k.mem, r, va / PGSIZE) / 16 % 2 == 1
    ensures p != 0 ==> p == Frame(Lookup(k.mem, r, va / PGSIZE))
  {
    hide Pages, Chained, Trees, TableAt, Lookup, Extended, V, Frame, Accessible;
    AccessibleIff(k.Img(), r, va);
    if va >= MAXVA {
      TooHigh(k.Img(), r, va);
      return 0;
    }
    LeafIs(k.Img(), k.lo, k.hi, r, va / PGSIZE);
    var t := k.Walk(r, va, false);
    if t == 0 {
      return 0;
    }
    var pte := k.mem[t][Px(0, va / PGSIZE)];
    if !V(pte) {
      return 0;
    }
    if pte / 16 % 2 == 0 {
      return 0;
    }
    return Frame(pte);
  }

  lemma TooHigh(m: Phys, r: nat, va: nat)
    requires va >= MAXVA
    ensures !Accessible(m, r, va / PGSIZE)
  {
  }

  /** How much of [va, va + len) lies in the page of `va`. */
  function InPage(va: nat, len: nat): (n: nat)
    ensures n <= len && (len > 0 ==> n > 0) && va % PGSIZE + n <= PGSIZE
    ensures n < len ==> (va + n) % PGSIZE == 0
  {
    var n := PGSIZE - va % PGSIZE;
    if n > len then len else n
  }

  /** Every page that [va, va + len) meets may be accessed. */
  ghost predicate AllAccessible(m: Phys, r: nat, va: nat, len: nat) {
    forall a: nat :: va <= a < va + len ==> Accessible(m, r, a / PGSIZE)
  }

  /** memmove into the page `p` behind user address `dst`. */
  method StoreBytes(k: Kernel, p: nat, dst: nat, src: seq<nat>, ghost r: nat)
    requires k.Valid() && UserOwn(k.Img(), r) && Accessible(k.Img(), r, dst / PGSIZE) && dst % PGSIZE + |src| <= PGSIZE
    requires p == Frame(Lookup(k.mem, r, dst / PGSIZE)) && forall i: nat :: i < |src| ==> src[i] < 256
    modifies k`mem
    ensures k.Valid() && Copied(old(k.Img()), k.Img(), r, dst, src)
  {
    hide Pages, Trees, Copied, UserOwn, Accessible, Lookup;
    ghost var m0 := k.Img();
    CopiedNothing(m0, r, dst);
    var i := 0;
    assert src[..0] == [];
    while i < |src|
      invariant i <= |src| && k.Valid() && Copied(m0, k.Img(), r, dst, src[..i]) && k.free == m0.free
    {
      StoreByte(k, p, dst + i, src[i], r, m0, dst, src[..i]);
      assert src[..i + 1] == src[..i] + [src[i]];
      i := i + 1;
    }
    assert src[..i] == src;
  }

  method StoreByte(k: Kernel, p: nat, a: nat, b: nat, ghost r: nat, ghost m0: Phys, ghost dst: nat, ghost x: seq<nat>)
    requires k.Valid() && UserOwn(m0, r) && Accessible(m0, r, a / PGSIZE) && b < 256 && p == Frame(Lookup(m0.mem, r, a / PGSIZE))
    requires Copied(m0, k.Img(), r, dst, x) && a == dst + |x|
    modifies k`mem
    ensures k.Valid() && Copied(m0, k.Img(), r, dst, x + [b])
  {
    hide Pages, Trees, Lookup, TableAt, Copied, Chained, PutByte;
    ghost var m1 := k.Img();
    StillOwn(m0, m1, r, dst, x);
    SameFrame(m0, m1, r, dst, x, a / PGSIZE);
    assert OwnPage(m1, r, a / PGSIZE);
    StoredCopied(m1, k.lo, k.hi, r, a, b);
    k.mem := k.mem[p := PutByte(k.mem[p], a % PGSIZE, b)];
    assert k.Img() == Stored(m1, r, a, b);
    ChainAround(m1, k.Img(), k.lo, k.hi, k.freelist, {p});
    CopiedMore(m0, m1, k.Img(), r, dst, x, [b]);
  }

  lemma SameFrame(m0: Phys, m: Phys, r: nat, dst: nat, x: seq<nat>, u: nat)
    requires Copied(m0, m, r, dst, x) && IsRoot(m0, r) && u < VPNS
    ensures Lookup(m.mem, r, u) == Lookup(m0.mem, r, u)
  {
    hide Lookup, UserByte;
  }

  /**
   copyout: copy `src` to user address `dstva`.  `n` bytes arrive: all of them, or those
   before the first page that the user may not access.
   */
  method Copyout(k: Kernel, r: nat, dstva: nat, src: seq<nat>) returns (res: int, ghost n: nat)
    requires k.Valid() && UserOwn(k.Img(), r) && forall i: nat :: i < |src| ==> src[i] < 256
    modifies k`mem, k`freelist, k`free, k`owner
    ensures k.Valid() && n <= |src| && Copied(old(k.Img()), k.Img(), r, dstva, src[..n])
    ensures AllAccessible(old(k.Img()), r, dstva, n)
    ensures res == 0 <==> n == |src|
    ensures res != 0 ==> res == -1 && !Accessible(old(k.Img()), r, (dstva + n) / PGSIZE) && (n > 0 ==> (dstva + n) % PGSIZE == 0)
  {
    hide Pages, Trees, Copied, UserOwn, Accessible, Lookup, InPage, Chained;
    ghost var m0 := k.Img();
    CopiedNothing(m0, r, dstva);
    var dst, rest := dstva, src;
    n := 0;
    assert src[..0] == [];
    while |rest| > 0
      invariant n <= |src| && rest == src[n..] && (|rest| > 0 ==> dst == dstva + n && (n > 0 ==> dst % PGSIZE == 0))
      invariant k.Valid() && Copied(m0, k.Img(), r, dstva, src[..n]) && AllAccessible(m0, r, dstva, n)
      decreases |rest|
    {
      ghost var m1 := k.Img();
      StillOwn(m0, m1, r, dstva, src[..n]);
      var p := Walkaddr(k, r, dst / PGSIZE * PGSIZE);
      assert dst / PGSIZE * PGSIZE / PGSIZE == dst / PGSIZE;
      if p == 0 {
        return -1, n;
      }
      var m := InPage(dst, |rest|);
      StoreBytes(k, p, dst, rest[..m], r);
      CopiedMore(m0, m1, k.Img(), r, dstva, src[..n], rest[..m]);
      assert src[..n] + rest[..m] == src[..n + m];
      AccessibleMore(m0, r, dstva, n, m);
      rest := rest[m..];
      n := n + m;
      dst := dst / PGSIZE * PGSIZE + PGSIZE;
    }
    res := 0;
  }

  lemma AccessibleMore(m: Phys, r: nat, va: nat, n: nat, d: nat)
    requires AllAccessible(m, r, va, n) && (va + n) % PGSIZE + d <= PGSIZE && (d > 0 ==> Accessible(m, r, (va + n) / PGSIZE))
    ensures AllAccessible(m, r, va, n + d)
  {
    hide Accessible;
    forall a: nat | va <= a < va + n + d ensures Accessible(m, r, a / PGSIZE) {
      if a >= va + n {
        assert a / PGSIZE == (va + n) / PGSIZE;
      }
    }
  }

  /** The `n` user bytes from `va` on. */
  ghost function UserBytes(m: Phys, r: nat, va: nat, n: nat): (s: seq<nat>)
    ensures |s| == n && forall i: nat :: i < n ==> s[i] == UserByte(m, r, va + i)
  {
    seq<nat>(n, i requires 0 <= i < n => UserByte(m, r, va + i))
  }

  lemma UserBytesMore(m: Phys, r: nat, va: nat, n: nat, d: nat)
    ensures UserBytes(m, r, va, n) + UserBytes(m, r, va + n, d) == UserBytes(m, r, va, n + d)
  {
  }

  /** memmove from the page `p` behind user address `src`. */
  method LoadBytes(k: Kernel, p: nat, src: nat, n: nat, ghost r: nat) returns (x: seq<nat>)
    requires k.Valid() && UserOwn(k.Img(), r) && Accessible(k.Img(), r, src / PGSIZE) && src % PGSIZE + n <= PGSIZE
    requires p == Frame(Lookup(k.mem, r, src / PGSIZE))
    ensures x == UserBytes(k.Img(), r, src, n)
  {
    hide Pages, Trees, UserOwn, Accessible, Lookup, UserByte, Chained;
    x := [];
    var i := 0;
    while i < n
      invariant i <= n && x == UserBytes(k.Img(), r, src, i)
    {
      var b := LoadByte(k, p, src + i, r);
      x := x + [b];
      i := i + 1;
    }
  }

  method LoadByte(k: Kernel, p: nat, a: nat, ghost r: nat) returns (b: nat)
    requires k.Valid() && UserOwn(k.Img(), r) && Accessible(k.Img(), r, a / PGSIZE)
    requires p == Frame(Lookup(k.mem, r, a / PGSIZE))
    ensures b == UserByte(k.Img(), r, a)
  {
    hide Trees, Lookup, PageByte;
    assert OwnPage(k.Img(), r, a / PGSIZE);
    b := PageByte(k.mem[p], a % PGSIZE);
  }

  /** copyin: the `len` bytes at user address `srcva`, or those before the first page that may not be accessed. */
  method Copyin(k: Kernel, r: nat, srcva: nat, len: nat) returns (res: int, x: seq<nat>)
    requires k.Valid() && UserOwn(k.Img(), r)
    modifies k`mem, k`freelist, k`free, k`owner
    ensures k.Valid() && k.Img() == old(k.Img()) && |x| <= len && x == UserBytes(k.Img(), r, srcva, |x|)
    ensures AllAccessible(k.Img(), r, srcva, |x|)
    ensures res == 0 <==> |x| == len
    ensures res != 0 ==> res == -1 && !Accessible(k.Img(), r, (srcva + |x|) / PGSIZE) && (|x| > 0 ==> (srcva + |x|) % PGSIZE == 0)
  {
    hide Pages, Trees, UserOwn, Accessible, Lookup, InPage, UserByte, Chained;
    ghost var m0 := k.Img();
    var src, left := srcva, len;
    x := [];
    while left > 0
      invariant |x| + left == len && (left > 0 ==> src == srcva + |x| && (|x| > 0 ==> src % PGSIZE == 0))
      invariant k.Valid() && k.Img() == m0 && x == UserBytes(m0, r, srcva, |x|) && AllAccessible(m0, r, srcva, |x|)
      decreases left
    {
      var p := Walkaddr(k, r, src / PGSIZE * PGSIZE);
      assert src / PGSIZE * PGSIZE / PGSIZE == src / PGSIZE;
      if p == 0 {
        return -1, x;
      }
      var m := InPage(src, left);
      var y := LoadBytes(k, p, src, m, r);
      UserBytesMore(m0, r, srcva, |x|, m);
      AccessibleMore(m0, r, srcva, |x|, m);
      x := x + y;
      left := left - m;
      src := src / PGSIZE * PGSIZE + PGSIZE;
    }
    res := 0;
  }

  /** No NUL among the first `n` user bytes. */
  ghost predicate NoNul(m: Phys, r: nat, va: nat, n: nat) {
    forall a: nat :: va <= a < va + n ==> UserByte(m, r, a) != 0
  }

  /** copyinstr's inner loop: bytes of one page up to its end, `n` of them, or a NUL. */
  method LoadString(k: Kernel, p: nat, src: nat, n: nat, ghost r: nat) returns (x: seq<nat>, gotNull: bool)
    requires k.Valid() && UserOwn(k.Img(), r) && Accessible(k.Img(), r, src / PGSIZE) && src % PGSIZE + n <= PGSIZE
    requires p == Frame(Lookup(k.mem, r, src / PGSIZE))
    ensures |x| <= n && x == UserBytes(k.Img(), r, src, |x|)
    ensures gotNull ==> |x| > 0 && x[|x| - 1] == 0 && NoNul(k.Img(), r, src, |x| - 1)
    ensures !gotNull ==> |x| == n && NoNul(k.Img(), r, src, n)
  {
    hide Pages, Trees, UserOwn, Accessible, Lookup, UserByte, Chained;
    x, gotNull := [], false;
    while |x| < n
      invariant |x| <= n && x == UserBytes(k.Img(), r, src, |x|) && NoNul(k.Img(), r, src, |x|)
    {
      var b := LoadByte(k, p, src + |x|, r);
      x := x + [b];
      if b == 0 {
        return x, true;
      }
    }
  }

  /** One page of copyinstr's outer loop, after the bytes `x`: what is added, or no page that may be accessed. */
  method StringPage(k: Kernel, r: nat, srcva: nat, x: seq<nat>, left: nat) returns (stuck: bool, y: seq<nat>, gotNull: bool)
    requires k.Valid() && UserOwn(k.Img(), r) && left > 0
    requires x == UserBytes(k.Img(), r, srcva, |x|) && AllAccessible(k.Img(), r, srcva, |x|) && NoNul(k.Img(), r, srcva, |x|)
    modifies k`mem, k`freelist, k`free, k`owner
    ensures k.Valid() && k.Img() == old(k.Img())
    ensures stuck <==> !Accessible(k.Img(), r, (srcva + |x|) / PGSIZE)
    ensures !stuck ==> |y| <= left && x + y == UserBytes(k.Img(), r, srcva, |x + y|) && AllAccessible(k.Img(), r, srcva, |x + y|)
    ensures !stuck && gotNull ==> |y| > 0 && y[|y| - 1] == 0 && NoNul(k.Img(), r, srcva, |x + y| - 1)
    ensures !stuck && !gotNull ==> |y| == InPage(srcva + |x|, left) && NoNul(k.Img(), r, srcva, |x + y|)
  {
    hide Pages, Trees, UserOwn, Accessible, Lookup, InPage, UserByte, Chained, NoNul, AllAccessible, UserBytes;
    var src := srcva + |x|;
    var p := Walkaddr(k, r, src / PGSIZE * PGSIZE);
    assert src / PGSIZE * PGSIZE / PGSIZE == src / PGSIZE;
    if p == 0 {
      return true, [], false;
    }
    stuck := false;
    y, gotNull := LoadString(k, p, src, InPage(src, left), r);
    UserBytesMore(k.Img(), r, srcva, |x|, |y|);
    AccessibleMore(k.Img(), r, srcva, |x|, |y|);
    NoNulMore(k.Img(), r, srcva, |x|, if gotNull then |y| - 1 else |y|);
  }

  /**
   copyinstr: the string at user address `srcva`, its NUL included, if it ends within
   `max` bytes.  Otherwise -1, with what was copied before the limit or the first page
   that may not be accessed.
   */
  method Copyinstr(k: Kernel, r: nat, srcva: nat, max: nat) returns (res: int, x: seq<nat>)
    requires k.Valid() && UserOwn(k.Img(), r)
    modifies k`mem, k`freelist, k`free, k`owner
    ensures k.Valid() && k.Img() == old(k.Img()) && |x| <= max && x == UserBytes(k.Img(), r, srcva, |x|)
    ensures AllAccessible(k.Img(), r, srcva, |x|)
    ensures res == 0 ==> |x| > 0 && x[|x| - 1] == 0 && NoNul(k.Img(), r, srcva, |x| - 1)
    ensures res != 0 ==> res == -1 && NoNul(k.Img(), r, srcva, |x|)
    ensures res != 0 && |x| < max ==> !Accessible(k.Img(), r, (srcva + |x|) / PGSIZE) && (|x| > 0 ==> (srcva + |x|) % PGSIZE == 0)
  {
    hide Pages, Trees, UserOwn, Accessible, Lookup, InPage, UserByte, Chained, NoNul, AllAccessible, UserBytes;
    ghost var m0 := k.Img();
    var src, left := srcva, max;
    var gotNull := false;
    x := [];
    NoStringYet(m0, r, srcva);
    while !gotNull && left > 0
      invariant k.Valid() && k.Img() == m0 && x == UserBytes(m0, r, srcva, |x|) && AllAccessible(m0, r, srcva, |x|)
      invariant |x| <= max
      invariant gotNull ==> |x| > 0 && x[|x| - 1] == 0 && NoNul(m0, r, srcva, |x| - 1)
      invariant !gotNull ==> |x| + left == max && NoNul(m0, r, srcva, |x|)
      invariant !gotNull && left > 0 ==> src == srcva + |x| && (|x| > 0 ==> src % PGSIZE == 0)
      decreases !gotNull, left
    {
      var stuck, y;
      stuck, y, gotNull := StringPage(k, r, srcva, x, left);
      if stuck {
        return -1, x;
      }
      x := x + y;
      left := left - |y|;
      src := src / PGSIZE * PGSIZE + PGSIZE;
    }
    res := if gotNull then 0 else -1;
  }

  lemma NoStringYet(m: Phys, r: nat, va: nat)
    ensures UserBytes(m, r, va, 0) == [] && NoNul(m, r, va, 0) && AllAccessible(m, r, va, 0)
  {
  }

  lemma NoNulMore(m: Phys, r: nat, va: nat, n: nat, d: nat)
    requires NoNul(m, r, va, n) && NoNul(m, r, va + n, d)
    ensures NoNul(m, r, va, n + d)
  {
    hide UserByte;
  }

  /** What copyout put there, copyin reads back. */
  lemma CopiedReadsBack(m0: Phys, m: Phys, r: nat, va: nat, x: seq<nat>)
    requires Copied(m0, m, r, va, x) && IsRoot(m0, r) && va + |x| <= MAXVA
    ensures UserBytes(m, r, va, |x|) == x
  {
    hide UserByte;
    forall i: nat | i < |x| ensures UserByte(m, r, va + i) == x[i] {
    }
  }

  /** Above the user memory nothing is for the user. */
  ghost predicate TopIsKernels(m: Phys, r: nat) {
    forall u: nat {:trigger Lookup(m.mem, r, u)} :: USERTOP <= u < MAXVPN ==> Lookup(m.mem, r, u) / 16 % 2 == 0
  }

  lemma TopStays(m0: Phys, m: Phys, r: nat, v: nat, es: seq<nat>)
    requires Extended(m0, m, r, v, es) && IsRoot(m0, r) && v + |es| <= USERTOP && TopIsKernels(m0, r)
    ensures TopIsKernels(m, r)
  {
    hide Lookup;
  }

  lemma ZeroBytes(page: seq<nat>, k: nat)
    requires page == seq<nat>(ENTRIES, _ => 0) && k < PGSIZE
    ensures PageByte(page, k) == 0
  {
    ZeroByte(k % 8);
  }

  lemma {:induction false} ZeroByte(i: nat)
    ensures GetByte(0, i) == 0
  {
    if i > 0 {
      ZeroByte(i - 1);
    }
  }

  /** The new range of a grown space may be accessed, and reads as zeros. */
  lemma GrownReads(m: Phys, r: nat, v: nat, w: nat, xperm: nat, va: nat, len: nat)
    requires ZeroedUserPages(m, r, v, w, xperm) && w <= USERTOP && v * PGSIZE <= va && va + len <= w * PGSIZE
    ensures AllAccessible(m, r, va, len) && UserBytes(m, r, va, len) == seq<nat>(len, _ => 0)
  {
    hide Lookup, PageByte, Frame;
    forall a: nat | va <= a < va + len ensures Accessible(m, r, a / PGSIZE) && UserByte(m, r, a) == 0 {
      assert v <= a / PGSIZE < w;
      ZeroBytes(m.mem[Frame(Lookup(m.mem, r, a / PGSIZE))], a % PGSIZE);
    }
  }

  lemma Whole(m: Phys, r: nat, va: nat, len: nat, n: nat, res: int)
    requires AllAccessible(m, r, va, len) && (res != 0 ==> n < len && !Accessible(m, r, (va + n) / PGSIZE))
    ensures res == 0
  {
    hide Accessible;
  }

  lemma GrownOwn(m0: Phys, m: Phys, r: nat, v: nat, w: nat, es: seq<nat>, xperm: nat)
    requires Growing(m0, m, r, v, es, Repeat(|es|, UserPerm(xperm)), Repeat(|es|, Zeros()))
    requires v + |es| == w && UserSpace(m, r, w) && TopIsKernels(m0, r)
    ensures UserOwn(m, r)
  {
    hide Lookup, UserOwn;
    TopStays(m0, m, r, v, es);
    assert forall u: nat :: USERTOP <= u < MAXVPN ==> Lookup(m.mem, r, u) / 16 % 2 == 0;
    SpaceIsOwn(m, r, w);
  }

  /** What uvmalloc has added, copyin reads as zeros. */
  method GrowThenRead(k: Kernel, r: nat, oldsz: nat, newsz: nat, xperm: nat, va: nat, len: nat) returns (ok: bool, res: int, x: seq<nat>)
    requires k.Valid() && UserSpace(k.Img(), r, PageCount(oldsz)) && TopIsKernels(k.Img(), r)
    requires oldsz <= newsz <= USERTOP * PGSIZE && xperm < 1024 && RoundUp(oldsz) <= va && va + len <= RoundUp(newsz)
    modifies k`mem, k`freelist, k`free, k`owner
    ensures k.Valid()
    ensures ok <==> GrowthNeed(old(k.mem), r, PageCount(oldsz), PageCount(newsz)) <= |old(k.free)|
    ensures ok ==> res == 0 && x == seq<nat>(len, _ => 0) && AllAccessible(k.Img(), r, va, len)
  {
    hide Pages, Trees, UserOwn, Accessible, Lookup, Chained, ZeroedUserPages, UserSpace, Growing, UserByte, GrowthNeed;
    ghost var m0 := k.Img();
    var sz;
    ghost var done, es;
    sz, done, es := k.Uvmalloc(r, oldsz, newsz, xperm);
    ok := sz == newsz;
    if !ok {
      return ok, 0, [];
    }
    GrownOwn(m0, k.Img(), r, PageCount(oldsz), PageCount(newsz), es, xperm);
    GrownReads(k.Img(), r, PageCount(oldsz), PageCount(newsz), xperm, va, len);
    res, x := Copyin(k, r, va, len);
    Whole(k.Img(), r, va, len, |x|, res);
  }

  /** After uvmcopy the child's entry for each page has the parent's flags, and its page the parent's contents. */
  lemma ChildPage(m0: Phys, m: Phys, r: nat, s: nat, n: nat, es: seq<nat>, u: nat)
    requires (forall p :: p in m0.owner ==> p in m0.mem) && UserSpace(m0, r, n) && |es| == n
    requires Growing(m0, m, s, 0, es, PermsOf(m0, r, n), PagesOf(m0, r, n)) && u < n
    ensures Lookup(m.mem, s, u) % 1024 == Lookup(m0.mem, r, u) % 1024
    ensures
      var f, g := Frame(Lookup(m.mem, s, u)), Frame(Lookup(m0.mem, r, u));
      f !in m0.owner && f in m.mem && g in m0.mem && m.mem[f] == m0.mem[g]
  {
    hide TableAt;
    var e, perm := es[u], PermsOf(m0, r, n)[u];
    assert HoldsOne(m, s, 0 + u, e, perm, PagesOf(m0, r, n)[u]);
    assert Lookup(m.mem, s, u) == e && Lookup(m0.mem, r, u) != 0 && OwnPage(m0, r, u);
    PteParts(Frame(e), perm);
  }

  /** So the child reads the bytes that the parent read. */
  lemma ChildReadsSame(m0: Phys, m: Phys, r: nat, s: nat, n: nat, es: seq<nat>, a: nat)
    requires (forall p :: p in m0.owner ==> p in m0.mem) && UserSpace(m0, r, n) && |es| == n
    requires Growing(m0, m, s, 0, es, PermsOf(m0, r, n), PagesOf(m0, r, n)) && a / PGSIZE < n
    ensures UserByte(m, s, a) == UserByte(m0, r, a) && (Accessible(m, s, a / PGSIZE) <==> Accessible(m0, r, a / PGSIZE))
  {
    hide Lookup, PageByte, Growing, Frame;
    ChildPage(m0, m, r, s, n, es, a / PGSIZE);
    SameAccess(Lookup(m.mem, s, a / PGSIZE), Lookup(m0.mem, r, a / PGSIZE));
    assert Lookup(m0.mem, r, a / PGSIZE) != 0;
  }

  lemma SameAccess(e: nat, g: nat)
    requires e % 1024 == g % 1024
    ensures e / 16 % 2 == g / 16 % 2 && e % 2 == g % 2
  {
    AccessBit(e / 1024, e % 1024);
    AccessBit(g / 1024, g % 1024);
  }

  /** Bit 4 is among the flags. */
  lemma AccessBit(f: nat, low: nat)
    requires low < 1024
    ensures (1024 * f + low) / 16 % 2 == low / 16 % 2 && (1024 * f + low) % 2 == low % 2
  {
    var q, t := low / 16, low % 16;
    Sixteenth(1024 * f + low, 64 * f + q, t);
    Even(32 * f, q);
    Even(512 * f, low);
  }

  lemma Sixteenth(x: nat, k: nat, t: nat)
    requires x == 16 * k + t && t < 16
    ensures x / 16 == k
  {
  }

  lemma Even(k: nat, y: nat)
    ensures (2 * k + y) % 2 == y % 2
  {
  }
}
