/**
 kernel/vm.c and kernel/kalloc.c: the page allocator, whose free list is threaded
 through the free pages, and the page-table operations, as methods that write
 physical memory in place.  A pagetable_t or page is named by its page number where
 the C code has a pointer to its start.
 */
module VmCode {
  import opened VmImage
  import opened VmMaps
  import opened VmFree
  import opened VmSpace

  /** Words of pages filled by kfree and kalloc. */
  const FREED: nat := 0x0101_0101_0101_0101
  const FRESH: nat := 0x0505_0505_0505_0505

  function Filled(w: nat): (s: seq<nat>)
    ensures |s| == ENTRIES
  {
    seq(ENTRIES, _ => w)
  }

  /** Pages that a size in bytes takes. */
  function PageCount(sz: nat): nat {
    (sz + PGSIZE - 1) / PGSIZE
  }

  /** The fewest pages that hold `sz` bytes. */
  lemma PageCountLeast(sz: nat, n: nat)
    ensures PageCount(sz) <= n <==> sz <= n * 4096
  {
  }

  function RoundUp(sz: nat): nat {
    PageCount(sz) * PGSIZE
  }

  /** What follows entry `i` of the free list, as the address stored in the page. */
  ghost function NextFree(free: seq<nat>, i: nat): nat {
    if i < |free| then free[i] * PGSIZE else 0
  }

  /** The free list starts at `head` and each page's first word leads to the next. */
  ghost predicate Chained(mem: Mem, free: seq<nat>, head: nat) {
    && head == NextFree(free, 0)
    && forall i: nat {:trigger free[i]} :: i < |free| ==> Entry(mem, free[i], 0) == NextFree(free, i + 1)
  }

  lemma ChainStays(mem: Mem, mem': Mem, free: seq<nat>, head: nat)
    requires Chained(mem, free, head) && forall p :: p in free && p in mem ==> p in mem' && mem'[p] == mem[p]
    requires forall p :: p in free ==> p in mem
    ensures Chained(mem', free, head)
  {
  }

  lemma ChainHead(m: Phys, lo: nat, hi: nat, head: nat)
    requires Pages(m, lo, hi) && Chained(m.mem, m.free, head)
    ensures head == 0 <==> m.free == []
    ensures head != 0 ==> head == m.free[0] * PGSIZE && head / PGSIZE in m.mem && |m.mem[head / PGSIZE]| == ENTRIES
  {
    if m.free != [] {
      assert m.free[0] in m.free;
    }
  }

  lemma FreedChain(m: Phys, lo: nat, hi: nat, p: nat, head: nat)
    requires Pages(m, lo, hi) && Chained(m.mem, m.free, head) && p in m.owner
    ensures
      var m' := Freed(m, p, Put(Filled(FREED), 0, head));
      Chained(m'.mem, m'.free, p * PGSIZE)
  {
    var m' := Freed(m, p, Put(Filled(FREED), 0, head));
    forall i: nat | i < |m'.free| ensures Entry(m'.mem, m'.free[i], 0) == NextFree(m'.free, i + 1) {
      if i > 0 {
        assert m'.free[i] == m.free[i - 1] && m.free[i - 1] in m.free;
      }
    }
  }

  lemma TakenChain(m: Phys, lo: nat, hi: nat, head: nat)
    requires Pages(m, lo, hi) && Chained(m.mem, m.free, head) && m.free != []
    ensures
      var m' := Taken(m, Filled(FRESH));
      Chained(m'.mem, m'.free, Entry(m.mem, m.free[0], 0))
  {
    var m' := Taken(m, Filled(FRESH));
    forall i: nat | i < |m'.free| ensures Entry(m'.mem, m'.free[i], 0) == NextFree(m'.free, i + 1) {
      assert m'.free[i] == m.free[i + 1] && m.free[i + 1] in m.free;
    }
  }

  /** Writing pages that are not free does not disturb the list. */
  lemma ChainAround(m: Phys, m': Phys, lo: nat, hi: nat, head: nat, ps: set<nat>)
    requires Pages(m, lo, hi) && Chained(m.mem, m.free, head) && m'.free == m.free && ps <= m.owner.Keys
    requires forall p :: p in m.mem && p !in ps ==> p in m'.mem && m'.mem[p] == m.mem[p]
    ensures Chained(m'.mem, m'.free, head)
  {
    forall p | p in m.free ensures p !in ps {
      assert p !in m.owner.Keys;
    }
    ChainStays(m.mem, m'.mem, m.free, head);
  }

  /** A valid entry above the leaves points to a table. */
  lemma PointerOk(m: Phys, lo: nat, hi: nat, r: nat, l: nat, a: nat, j: nat)
    requires Exact(m, lo, hi) && IsRoot(m, r) && 0 < l && IsSpot(l, a) && j < ENTRIES && TableAt(m.mem, r, l, a) != 0
    ensures var e := Entry(m.mem, TableAt(m.mem, r, l, a), j); V(e) ==> Frame(e) != 0 && !Leaf(e)
  {
    hide TableAt;
    TableOwned(m, lo, hi, r, l, a);
  }

  lemma ChildTable(mem: Mem, r: nat, l: nat, a: nat, j: nat)
    requires 0 < l <= 2 && j < ENTRIES
    ensures TableAt(mem, r, l - 1, a * ENTRIES + j) == Child(mem, TableAt(mem, r, l, a), j)
  {
  }

  lemma ChildIs(mem: Mem, p: nat, j: nat)
    requires p in mem && j < |mem[p]|
    ensures Child(mem, p, j) == if V(mem[p][j]) then Frame(mem[p][j]) else 0
  {
  }

  lemma RootTable(m: Phys, lo: nat, hi: nat, r: nat)
    requires Pages(m, lo, hi) && IsRoot(m, r)
    ensures TableAt(m.mem, r, 2, 0) == r != 0
  {
  }

  lemma GrewOn(m0: Phys, m1: Phys, m: Phys, lo: nat, hi: nat, r: nat)
    requires Pages(m0, lo, hi) && Grew(m0, m1, r) && Grew(m1, m, r) && IsRoot(m0, r)
    ensures Grew(m0, m, r) && IsRoot(m, r)
  {
    GrewTrans(m0, m1, m, r);
  }

  lemma GrewRoot(m0: Phys, m: Phys, r: nat)
    requires Grew(m0, m, r) && IsRoot(m0, r)
    ensures IsRoot(m, r)
  {
  }

  lemma ExtendedOn(m0: Phys, m1: Phys, m: Phys, lo: nat, hi: nat, r: nat, v: nat, es: seq<nat>, fs: seq<nat>)
    requires Pages(m0, lo, hi) && Extended(m0, m1, r, v, es) && Extended(m1, m, r, v + |es|, fs)
    ensures Extended(m0, m, r, v, es + fs)
    ensures fs == [] ==> Extended(m0, m, r, v, es)
  {
    hide Extended;
    ExtendedMore(m0, m1, m, r, v, es, fs);
    assert es + [] == es;
  }

  lemma ExtendedNothing(m: Phys, r: nat, v: nat, es: seq<nat>)
    requires es == []
    ensures Extended(m, m, r, v, es)
  {
  }

  lemma PteRunMore(f: nat, k: nat, perm: nat)
    ensures PteRun(f, k, perm) + [Pte(f + k, perm)] == PteRun(f, k + 1, perm)
  {
  }

  lemma CanMapNext(m: Phys, r: nat, v: nat, n: nat, f: nat)
    requires CanMap(m, r, v, n, f) && n > 0
    ensures IsRoot(m, r) && Lookup(m.mem, r, v) == 0 && Mappable(m, f)
  {
  }

  /** Below a missing table everything is missing. */
  lemma NoneBelow(m: Phys, lo: nat, hi: nat, r: nat, v: nat, level: nat)
    requires Pages(m, lo, hi) && v < VPNS && level < 2 && TableAt(m.mem, r, level, SpotOf(v, level)) == 0
    ensures TableAt(m.mem, r, 0, v / ENTRIES) == 0
  {
    SpotBelow(v, level + 1);
    if level == 1 {
      SpotBelow(v, 1);
      ChildTable(m.mem, r, 1, SpotOf(v, 1), Px(1, v));
      NoChild(m.mem, Px(1, v));
    }
  }

  lemma FreeNotOwned(m: Phys, lo: nat, hi: nat)
    requires Pages(m, lo, hi) && m.free != []
    ensures m.free[0] !in m.owner
  {
  }

  /** An owned page passes kfree's panic check. */
  lemma PageRange(m: Phys, lo: nat, hi: nat, p: nat, end: nat, phystop: nat)
    requires Pages(m, lo, hi) && lo == RoundUp(end) / PGSIZE && hi == phystop / PGSIZE && p in m.owner
    ensures end <= p * PGSIZE < phystop
  {
  }

  lemma FreshCanMap(m: Phys, lo: nat, hi: nat, r: nat, v: nat, x: seq<nat>)
    requires Pages(m, lo, hi) && IsRoot(m, r) && v < VPNS && Lookup(m.mem, r, v) == 0 && m.free != []
    requires SameMaps(m, Taken(m, x))
    ensures CanMap(Taken(m, x), r, v, 1, m.free[0])
  {
    hide Lookup;
  }

  /** PTE_R | PTE_U | perm. */
  function UserPerm(perm: nat): nat {
    perm + (if perm / 2 % 2 == 0 then 2 else 0) + (if perm / 16 % 2 == 0 then 16 else 0)
  }

  lemma UserPermLeaf(perm: nat)
    requires perm < 1024
    ensures UserPerm(perm) < 1024 && Leaf(UserPerm(perm))
  {
  }

  /** A sequence of `n` equal things. */
  /** Five low bits and the rest. */
  lemma BitsOf(h: nat, u: nat, x: nat, w: nat, r: nat, v: nat)
    requires u < 2 && x < 2 && w < 2 && r < 2 && v < 2
    ensures
      var e := 32 * h + 16 * u + 8 * x + 4 * w + 2 * r + v;
      e % 2 == v && e / 2 % 2 == r && e / 4 % 2 == w && e / 8 % 2 == x && e / 16 % 2 == u
  {
    var e := 32 * h + 16 * u + 8 * x + 4 * w + 2 * r + v;
    var e1, e2, e3, e4 := 16 * h + 8 * u + 4 * x + 2 * w + r, 8 * h + 4 * u + 2 * x + w, 4 * h + 2 * u + x, 2 * h + u;
    Halved(e, e1, v);
    Halved(e1, e2, r);
    Halved(e2, e3, w);
    Halved(e3, e4, x);
    Halved(e4, h, u);
    assert e / 4 == e2 && e / 8 == e3 && e / 16 == e4;
  }

  /** An entry for a user page that may be read, and written or executed as `xperm` says: V, R, U, and W and X of xperm. */
  predicate UserEntry(e: nat, xperm: nat) {
    e % 2 == 1 && e / 2 % 2 == 1 && e / 16 % 2 == 1 && e / 4 % 2 == xperm / 4 % 2 && e / 8 % 2 == xperm / 8 % 2
  }

  lemma Digits(x: nat)
    ensures x == 32 * (x / 32) + 16 * (x / 16 % 2) + 8 * (x / 8 % 2) + 4 * (x / 4 % 2) + 2 * (x / 2 % 2) + x % 2
  {
    var a, b, c, d := x / 2, x / 4, x / 8, x / 16;
    assert x == 2 * a + x % 2 && a / 2 == b && b / 2 == c && c / 2 == d && d / 2 == x / 32;
    assert a == 2 * b + a % 2 && b == 2 * c + b % 2 && c == 2 * d + c % 2 && d == 2 * (x / 32) + d % 2;
  }

  lemma UserPermDigits(x: nat)
    ensures UserPerm(x) == 32 * (x / 32) + 16 + 8 * (x / 8 % 2) + 4 * (x / 4 % 2) + 2 + x % 2
  {
    Digits(x);
  }

  lemma UserPermEntry(f: nat, xperm: nat)
    requires xperm < 1024
    ensures UserEntry(Pte(f, UserPerm(xperm)), xperm)
  {
    var h, x, w, v := xperm / 32, xperm / 8 % 2, xperm / 4 % 2, xperm % 2;
    UserPermDigits(xperm);
    hide UserPerm;
    BitsOf(h, 1, x, w, 1, v);
    BitsOf(32 * f + h, 1, x, w, 1, 1);
    assert Pte(f, UserPerm(xperm)) == 32 * (32 * f + h) + 16 * 1 + 8 * x + 4 * w + 2 * 1 + 1;
  }

  /** Pages v..w-1 of tree `r` are user pages that hold zeros. */
  ghost predicate ZeroedUserPages(m: Phys, r: nat, v: nat, w: nat, xperm: nat) {
    forall u: nat {:trigger Lookup(m.mem, r, u)} :: v <= u < w ==>
      && UserEntry(Lookup(m.mem, r, u), xperm)
      && Frame(Lookup(m.mem, r, u)) in m.mem && m.mem[Frame(Lookup(m.mem, r, u))] == seq<nat>(ENTRIES, _ => 0)
  }

  lemma GrownPages(m0: Phys, m: Phys, r: nat, v: nat, es: seq<nat>, xperm: nat)
    requires Growing(m0, m, r, v, es, Repeat(|es|, UserPerm(xperm)), Repeat(|es|, Zeros())) && xperm < 1024 && v + |es| <= USERTOP
    ensures ZeroedUserPages(m, r, v, v + |es|, xperm)
  {
    hide Lookup, UserPerm, UserEntry, UserSpace, Frame, Pte;
    forall u: nat | v <= u < v + |es|
      ensures UserEntry(Lookup(m.mem, r, u), xperm)
      ensures Frame(Lookup(m.mem, r, u)) in m.mem && m.mem[Frame(Lookup(m.mem, r, u))] == seq<nat>(ENTRIES, _ => 0)
    {
      GrownPage(m0, m, r, v, es, xperm, u);
    }
  }

  lemma GrownPage(m0: Phys, m: Phys, r: nat, v: nat, es: seq<nat>, xperm: nat, u: nat)
    requires Growing(m0, m, r, v, es, Repeat(|es|, UserPerm(xperm)), Repeat(|es|, Zeros())) && xperm < 1024
    requires v <= u < v + |es| <= USERTOP
    ensures UserEntry(Lookup(m.mem, r, u), xperm)
    ensures Frame(Lookup(m.mem, r, u)) in m.mem && m.mem[Frame(Lookup(m.mem, r, u))] == seq<nat>(ENTRIES, _ => 0)
  {
    hide Lookup, UserPerm, UserEntry, Pte;
    var e := es[u - v];
    assert HoldsOne(m, r, v + (u - v), e, UserPerm(xperm), Zeros());
    assert Lookup(m.mem, r, u) == e;
    UserPermEntry(Frame(e), xperm);
  }

  function Repeat<T>(n: nat, x: T): (s: seq<T>)
    ensures |s| == n && forall i: nat :: i < n ==> s[i] == x
  {
    seq(n, _ => x)
  }

  lemma MapsChain(m0: Phys, m1: Phys, m: Phys)
    requires SameMaps(m0, m1) && SameMaps(m1, m)
    ensures SameMaps(m0, m)
  {
    hide Lookup;
    forall s: nat, u: nat | IsRoot(m0, s) && u < VPNS ensures Lookup(m.mem, s, u) == Lookup(m0.mem, s, u) {
      assert Lookup(m1.mem, s, u) == Lookup(m0.mem, s, u);
    }
  }

  /** Permissions and contents of the first `n` pages of tree `r`. */
  ghost function PermsOf(m: Phys, r: nat, n: nat): (s: seq<nat>)
    ensures |s| == n && forall i: nat :: i < n ==> s[i] == Flags(Lookup(m.mem, r, i))
  {
    seq<nat>(n, i requires 0 <= i < n => Flags(Lookup(m.mem, r, i)))
  }

  ghost function PageOf(m: Phys, r: nat, i: nat): seq<nat> {
    var f := Frame(Lookup(m.mem, r, i));
    if f in m.mem then m.mem[f] else []
  }

  ghost function PagesOf(m: Phys, r: nat, n: nat): (s: seq<seq<nat>>)
    ensures |s| == n && forall i: nat :: i < n ==> s[i] == PageOf(m, r, i)
  {
    seq<seq<nat>>(n, i requires 0 <= i < n => PageOf(m, r, i))
  }

  lemma CopiesMore(m: Phys, r: nat, k: nat)
    ensures PermsOf(m, r, k) + [Flags(Lookup(m.mem, r, k))] == PermsOf(m, r, k + 1)
    ensures PagesOf(m, r, k) + [PageOf(m, r, k)] == PagesOf(m, r, k + 1)
  {
    hide Lookup;
  }

  /** The next page to copy is still mapped as it was, with what it held, and its place in the copy is free. */
  lemma SourcePage(m0: Phys, m: Phys, lo: nat, hi: nat, r: nat, s: nat, n: nat, es: seq<nat>, k: nat)
    requires Exact(m0, lo, hi) && Exact(m, lo, hi) && UserSpace(m0, r, n) && UserSpace(m0, s, 0) && r != s && k == |es| < n
    requires Growing(m0, m, s, 0, es, PermsOf(m0, r, k), PagesOf(m0, r, k))
    ensures IsRoot(m, r) && IsRoot(m, s) && Lookup(m.mem, s, k) == 0
    ensures
      var e, t := Lookup(m.mem, r, k), TableAt(m.mem, r, 0, k / ENTRIES);
      && e == Lookup(m0.mem, r, k) && t != 0 && t in m.mem && |m.mem[t]| == ENTRIES && m.mem[t][k % ENTRIES] == e
      && V(e) && Leaf(Flags(e)) && Frame(e) in m.mem && m.mem[Frame(e)] == PageOf(m0, r, k) && |m.mem[Frame(e)]| == ENTRIES
  {
    hide Lookup, TableAt, Trees, Holds;
    assert Lookup(m0.mem, r, k) != 0 && OwnPage(m0, r, k);
    assert Lookup(m.mem, r, k) == Lookup(m0.mem, r, k);
    MappedLeaf(m, lo, hi, r, k);
    LeafTable(m, lo, hi, r, k);
    LeafEntry(m, lo, hi, r, k);
  }

  lemma LeafEntry(m: Phys, lo: nat, hi: nat, r: nat, v: nat)
    requires Exact(m, lo, hi) && IsRoot(m, r) && v < VPNS && Lookup(m.mem, r, v) != 0
    ensures Leaf(Flags(Lookup(m.mem, r, v)))
  {
    hide TableAt;
    MappedLeaf(m, lo, hi, r, v);
    LeafTable(m, lo, hi, r, v);
    assert EntryOk(0, Entry(m.mem, TableAt(m.mem, r, 0, v / ENTRIES), v % ENTRIES));
  }

  lemma ClearedNone(m: Phys, lo: nat, hi: nat, t: nat, r: nat, l: nat, a: nat)
    requires Pages(m, lo, hi) && Sub(m.mem, m.owner, t, r, l, a)
    ensures Cleared(m, m, t, r, l, a, 0)
  {
  }

  lemma ClearedPage(m0: Phys, m: Phys, lo: nat, hi: nat, t: nat, r: nat, l: nat, a: nat, i: nat)
    requires Pages(m0, lo, hi) && Cleared(m0, m, t, r, l, a, i)
    ensures t in m.mem && |m.mem[t]| == ENTRIES && forall p :: p in m0.owner ==> p in m0.mem
  {
  }

  lemma ReleasedPage(m0: Phys, m1: Phys, m2: Phys, t: nat, r: nat, l: nat, a: nat, i: nat)
    requires Sub(m0.mem, m0.owner, t, r, l, a) && Cleared(m0, m1, t, r, l, a, i) && l > 0
    requires Released(m1, m2, r, l - 1, a * ENTRIES + i)
    ensures t in m2.owner && t in m2.mem && |m2.mem[t]| == ENTRIES
  {
  }

  lemma SpaceTop(m: Phys, r: nat, n: nat)
    requires UserSpace(m, r, n)
    ensures IsRoot(m, r) && n <= USERTOP
  {
  }

  lemma PutPages(m: Phys, m': Phys, lo: nat, hi: nat, t: nat)
    requires Pages(m, lo, hi) && t in m.mem && t in m'.mem && |m'.mem[t]| == ENTRIES
    requires m' == Phys(m.mem[t := m'.mem[t]], m.free, m.owner)
    ensures Pages(m', lo, hi)
  {
    SamePages(m, m', lo, hi);
  }

  lemma SpaceBare(m0: Phys, m: Phys, r: nat, n: nat)
    requires UserSpace(m0, r, n) && Unmapped(m0, m, r, 0, n)
    requires forall u: nat :: USERTOP <= u < VPNS ==> Lookup(m0.mem, r, u) == 0
    ensures Bare(m, r)
  {
    hide Lookup;
  }

  /** uvmunmap frees the page before it clears the entry; the outcome is that of the other order. */
  lemma UnmapForms(m: Phys, lo: nat, hi: nat, r: nat, v: nat, x: seq<nat>)
    requires Exact(m, lo, hi) && HasLeaf(m, r, v) && Lookup(m.mem, r, v) != 0
    ensures TableAt(m.mem, r, 0, v / ENTRIES) in m.mem && |m.mem[TableAt(m.mem, r, 0, v / ENTRIES)]| == ENTRIES
    ensures
      var t, f := TableAt(m.mem, r, 0, v / ENTRIES), Frame(Lookup(m.mem, r, v));
      && t in m.owner
      && (OwnPage(m, r, v) ==>
            var m1 := Freed(m, f, x);
            && f != t && t in m1.owner && t in m1.mem && |m1.mem[t]| == ENTRIES
            && Phys(m1.mem[t := Put(m1.mem[t], v % ENTRIES, 0)], m1.free, m1.owner) == Freed(DropLeaf(m, r, v), f, x))
      && (!OwnPage(m, r, v) ==> Phys(m.mem[t := Put(m.mem[t], v % ENTRIES, 0)], m.free, m.owner) == DropLeaf(m, r, v))
  {
    hide TableAt, Lookup, Trees;
    LeafTable(m, lo, hi, r, v);
    var t, f := TableAt(m.mem, r, 0, v / ENTRIES), Frame(Lookup(m.mem, r, v));
    if OwnPage(m, r, v) {
      var m1, m2 := Freed(m, f, x), Freed(DropLeaf(m, r, v), f, x);
      assert m1.owner == m2.owner;
      assert m1.mem[t := Put(m1.mem[t], v % ENTRIES, 0)] == m2.mem;
    }
  }

  /** Pages that growing a user space from `v` to `w` pages takes: the data pages and the tables that they need. */
  function GrowthNeed(mem: Mem, r: nat, v: nat, w: nat): nat {
    if w <= v then 0 else w - v + TablesFor(mem, r, v, w - v)
  }

  class Kernel {
    /** The managed range: from the end of the kernel image to PHYSTOP. */
    const end: nat
    const phystop: nat
    const lo: nat
    const hi: nat

    var mem: Mem
    /** kmem.freelist, as an address. */
    var freelist: nat

    ghost var free: seq<nat>
    ghost var owner: map<nat, Role>

    ghost function Img(): Phys
      reads this
    {
      Phys(mem, free, owner)
    }

    /** The allocator's part of the invariant. */
    ghost predicate List()
      reads this
    {
      && phystop % PGSIZE == 0 && lo == RoundUp(end) / PGSIZE && hi == phystop / PGSIZE
      && Pages(Img(), lo, hi) && Chained(mem, free, freelist)
    }

    ghost predicate Valid()
      reads this
    {
      List() && Trees(Img())
    }

    /** Boot: RAM holds `ram` and no page is free yet. */
    constructor (end: nat, phystop: nat, ram: Mem)
      requires 0 < end <= phystop && phystop % PGSIZE == 0
      requires forall p :: p in ram <==> RoundUp(end) / PGSIZE <= p < phystop / PGSIZE
      requires forall p :: p in ram ==> |ram[p]| == ENTRIES
      ensures Valid() && this.end == end && this.phystop == phystop && free == [] && mem == ram
      ensures owner == map p | p in ram :: Held
    {
      this.end, this.phystop := end, phystop;
      lo, hi := RoundUp(end) / PGSIZE, phystop / PGSIZE;
      mem, freelist, free := ram, 0, [];
      owner := map p | p in ram :: Held;
    }

    /** Free the page at `pa`; the requires on it are the panic check. */
    method Kfree(pa: nat)
      requires List() && pa % PGSIZE == 0 && end <= pa < phystop
      requires pa / PGSIZE in owner
      modifies this`mem, this`freelist, this`free, this`owner
      ensures List() && Img() == Freed(old(Img()), pa / PGSIZE, Put(Filled(FREED), 0, old(freelist)))
      ensures |free| == |old(free)| + 1
    {
      hide Pages, Chained;
      ghost var m := Img();
      var p := pa / PGSIZE;
      FreedPages(m, lo, hi, p, Put(Filled(FREED), 0, freelist));
      FreedChain(m, lo, hi, p, freelist);
      mem := mem[p := Filled(FREED)];
      mem := mem[p := Put(mem[p], 0, freelist)];
      freelist := pa;
      free := [p] + free;
      owner := owner - {p};
      assert mem == Freed(m, p, Put(Filled(FREED), 0, old(freelist))).mem;
    }

    /** Take a page; 0 when there is none. */
    method Kalloc() returns (pa: nat)
      requires List()
      modifies this`mem, this`freelist, this`free, this`owner
      ensures List()
      ensures pa == 0 <==> old(free) == []
      ensures pa == 0 ==> Img() == old(Img())
      ensures pa != 0 ==> pa == old(free)[0] * PGSIZE && Img() == Taken(old(Img()), Filled(FRESH))
    {
      hide Pages, Chained;
      ghost var m := Img();
      pa := freelist;
      ChainHead(m, lo, hi, freelist);
      if pa != 0 {
        TakenPages(m, lo, hi, Filled(FRESH));
        TakenChain(m, lo, hi, freelist);
        freelist := mem[pa / PGSIZE][0];
        mem := mem[pa / PGSIZE := Filled(FRESH)];
        owner := owner[free[0] := Held];
        free := free[1..];
      }
    }

    /** Put every whole page between the two addresses on the free list. */
    method Freerange(start: nat, stop: nat)
      requires List() && end <= start && stop <= phystop
      requires forall p: nat :: start <= p * PGSIZE && (p + 1) * PGSIZE <= stop ==> p in owner
      modifies this`mem, this`freelist, this`free, this`owner
      ensures List()
      ensures forall p :: p in owner <==> p in old(owner) && !(start <= p * PGSIZE && (p + 1) * PGSIZE <= stop)
      ensures forall p :: p in owner ==> owner[p] == old(owner)[p]
    {
      hide Pages, Chained;
      var pa := RoundUp(start);
      while pa + PGSIZE <= stop
        invariant List() && pa % PGSIZE == 0 && RoundUp(start) <= pa
        invariant forall p :: p in owner <==> p in old(owner) && !(start <= p * PGSIZE < pa)
        invariant forall p :: p in owner ==> owner[p] == old(owner)[p]
        invariant pa <= RoundUp(start) || pa <= stop
      {
        assert pa / PGSIZE in owner;
        Kfree(pa);
        pa := pa + PGSIZE;
      }
      assert forall p: nat :: start <= p * PGSIZE < pa ==> start <= p * PGSIZE;
    }

    /**
     One step of walk's descent in tree `r`: the table below entry `j` of `table`, the
     one at spot `at` of `level`.  0 when there is none and none was or could be added.
     */
    method Descend(r: nat, level: nat, ghost at: nat, j: nat, table: nat, alloc: bool) returns (next: nat)
      requires Valid() && IsRoot(Img(), r) && 0 < level && IsSpot(level, at) && j < ENTRIES
      requires table == TableAt(mem, r, level, at) != 0
      modifies this`mem, this`freelist, this`free, this`owner
      ensures Valid() && Grew(old(Img()), Img(), r) && next == TableAt(mem, r, level - 1, at * ENTRIES + j)
      ensures !alloc ==> Img() == old(Img())
      ensures alloc ==> (next != 0 <==> Missing(old(mem), r, level - 1, at * ENTRIES + j) <= |old(free)|)
      ensures alloc ==> |free| == if next != 0 then |old(free)| - Missing(old(mem), r, level - 1, at * ENTRIES + j) else 0
      ensures TableAdded(old(Img()), Img(), Table(r, level - 1, at * ENTRIES + j))
    {
      hide Pages, Chained, Trees, TableAt, Child, Extended;
      ghost var m := Img();
      GrewNothing(m, r);
      ChildTable(m.mem, r, level, at, j);
      TableOwned(m, lo, hi, r, level, at);
      if V(mem[table][j]) {
        next := Frame(mem[table][j]);
        ChildIs(mem, table, j);
        PointerOk(m, lo, hi, r, level, at, j);
      } else {
        next := 0;
        ChildIs(mem, table, j);
        if alloc {
          next := AddTable(r, level, at, j, table);
        }
      }
    }

    /** walk's allocation of a missing table. */
    method AddTable(r: nat, level: nat, ghost at: nat, j: nat, table: nat) returns (next: nat)
      requires Valid() && IsRoot(Img(), r) && 0 < level && IsSpot(level, at) && j < ENTRIES
      requires table == TableAt(mem, r, level, at) != 0 && Child(mem, table, j) == 0
      requires TableAt(mem, r, level - 1, at * ENTRIES + j) == 0
      modifies this`mem, this`freelist, this`free, this`owner
      ensures Valid() && Grew(old(Img()), Img(), r) && next == TableAt(mem, r, level - 1, at * ENTRIES + j)
      ensures next != 0 <==> old(free) != []
      ensures |free| == if next != 0 then |old(free)| - 1 else 0
      ensures TableAdded(old(Img()), Img(), Table(r, level - 1, at * ENTRIES + j))
    {
      hide Pages, Chained, Trees, TableAt, Child, Extended;
      ghost var m := Img();
      GrewNothing(m, r);
      TableOwned(m, lo, hi, r, level, at);
      var pa := Kalloc();
      next := pa / PGSIZE;
      if pa != 0 {
        FreeNotOwned(m, lo, hi);
        TakenAndLinked(m, lo, hi, r, level, at, j, Filled(FRESH));
        ghost var m1 := Img();
        mem := mem[next := Zeros()];
        mem := mem[table := Put(mem[table], j, Pte(next, 0))];
        owner := owner[next := Table(r, level - 1, at * ENTRIES + j)];
        assert Img() == Linked(m1, r, level, at, j, next);
        ChainAround(m1, Img(), lo, hi, freelist, {next, table});
      }
    }

    /**
     The leaf table for address `va`: a pte_t* here is this table with index Px(0, va / PGSIZE).
     Allocating, it takes exactly the tables that the way there lacks, and fails when no
     more are free.
     */
    method Walk(r: nat, va: nat, alloc: bool) returns (table: nat)
      requires Valid() && IsRoot(Img(), r) && va < MAXVPN * PGSIZE
      modifies this`mem, this`freelist, this`free, this`owner
      ensures Valid() && Grew(old(Img()), Img(), r) && table == TableAt(mem, r, 0, va / PGSIZE / ENTRIES)
      ensures !alloc ==> Img() == old(Img())
      ensures alloc ==> (table != 0 <==> Lack(old(mem), r, va / PGSIZE) <= |old(free)|)
      ensures alloc ==> |free| == if table != 0 then |old(free)| - Lack(old(mem), r, va / PGSIZE) else 0
      ensures PathOnly(old(Img()), Img(), r, va / PGSIZE)
    {
      hide Pages, Chained, Trees, TableAt, Extended, Missing, PathOnly, TableAdded;
      ghost var m, v := Img(), va / PGSIZE;
      ghost var spent := 0;
      GrewNothing(m, r);
      PathNothing(m, r, v);
      RootTable(m, lo, hi, r);
      var level := 2;
      table := r;
      while level > 0
        invariant level <= 2 && Valid() && IsRoot(Img(), r) && Grew(m, Img(), r) && (!alloc ==> Img() == m)
        invariant table == TableAt(mem, r, level, SpotOf(v, level)) != 0
        invariant PathOnly(m, Img(), r, v) && (alloc ==> |free| + spent == |m.free|)
        invariant level == 2 ==> spent == 0 && mem == m.mem
        invariant level == 1 ==>
          spent == Missing(m.mem, r, 1, SpotOf(v, 1)) && Missing(mem, r, 0, SpotOf(v, 0)) == Missing(m.mem, r, 0, SpotOf(v, 0))
        invariant level == 0 ==> spent == Lack(m.mem, r, v)
      {
        SpotBelow(v, level);
        ghost var m1 := Img();
        spent := spent + Missing(mem, r, level - 1, SpotOf(v, level - 1));
        table := Descend(r, level, SpotOf(v, level), Px(level, va / PGSIZE), table, alloc);
        GrewOn(m, m1, Img(), lo, hi, r);
        level := level - 1;
        PathMore(m, m1, Img(), r, v, level);
        if level == 1 {
          SpotBelow(v, 1);
          AddedElsewhere(m1, Img(), lo, hi, Table(r, 1, SpotOf(v, 1)), r, 0, SpotOf(v, 0));
        }
        if table == 0 {
          NoneBelow(Img(), lo, hi, r, v, level);
          return;
        }
      }
    }

    /** The body of mappages' loop; false when walk fails. */
    method MapOne(r: nat, v: nat, f: nat, perm: nat) returns (ok: bool)
      requires Valid() && IsRoot(Img(), r) && v < MAXVPN && Lookup(mem, r, v) == 0
      requires perm < 1024 && Leaf(perm) && Mappable(Img(), f)
      modifies this`mem, this`freelist, this`free, this`owner
      ensures Valid() && Extended(old(Img()), Img(), r, v, if ok then [Pte(f, perm)] else [])
      ensures ok <==> Lack(old(mem), r, v) <= |old(free)|
      ensures |free| == if ok then |old(free)| - Lack(old(mem), r, v) else 0
      ensures PathOnly(old(Img()), Img(), r, v) && (ok ==> Lack(mem, r, v) == 0)
    {
      hide Pages, Chained, Trees, TableAt, Extended, Mappable, Lack;
      ghost var m := Img();
      var t := Walk(r, v * PGSIZE, true);
      ghost var m1 := Img();
      ok := t != 0;
      GrewAnywhere(m, m1, r, 0, v);
      if ok {
        GrewRoot(m, m1, r);
        LeafTable(m1, lo, hi, r, v);
        GaveLeaf(m, m1, lo, hi, r, v, f, perm);
        mem := mem[t := Put(mem[t], Px(0, v), Pte(f, perm))];
        owner := if f in owner && owner[f] == Held then owner[f := User(r, v)] else owner;
        assert Img() == GiveLeaf(m1, r, v, f, perm);
        ChainAround(m1, Img(), lo, hi, freelist, {t});
        PathFound(m1, lo, hi, r, v);
        SameLack(m1, Img(), lo, hi, r, v);
      }
    }

    /**
     Map [va, va + size) to the frames from `pa` on.  -1 exactly when the range needs more
     table pages than are free; the pages before the one that failed stay mapped.
     */
    method Mappages(r: nat, va: nat, size: nat, pa: nat, perm: nat) returns (res: int, ghost k: nat)
      requires Valid() && 0 < size && va + size <= MAXVPN * PGSIZE && perm < 1024 && Leaf(perm)
      requires CanMap(Img(), r, va / PGSIZE, (va + size - 1) / PGSIZE + 1 - va / PGSIZE, pa / PGSIZE)
      modifies this`mem, this`freelist, this`free, this`owner
      ensures Valid() && Extended(old(Img()), Img(), r, va / PGSIZE, PteRun(pa / PGSIZE, k, perm))
      ensures res == 0 ==> k == (va + size - 1) / PGSIZE + 1 - va / PGSIZE
      ensures res != 0 ==> res == -1 && free == [] && k < (va + size - 1) / PGSIZE + 1 - va / PGSIZE
      ensures
        var need := TablesFor(old(mem), r, va / PGSIZE, (va + size - 1) / PGSIZE + 1 - va / PGSIZE);
        (res == 0 <==> need <= |old(free)|) && (res == 0 ==> |free| == |old(free)| - need)
      ensures va / PGSIZE == (va + size - 1) / PGSIZE ==> PathOnly(old(Img()), Img(), r, va / PGSIZE)
    {
      hide Pages, Chained, Trees, TableAt, Extended, CanMap, TablesFor, Lack, PathOnly;
      ghost var m, v, f := Img(), va / PGSIZE, pa / PGSIZE;
      var a, last, p := va / PGSIZE, (va + size - 1) / PGSIZE, pa / PGSIZE;
      ghost var n := last + 1 - a;
      k, res := 0, 0;
      ExtendedNothing(m, r, v, PteRun(f, 0, perm));
      while true
        invariant k < n && a == v + k && p == f + k && Valid()
        invariant Extended(m, Img(), r, v, PteRun(f, k, perm))
        invariant |free| - TablesFor(mem, r, a, n - k) == |m.free| - TablesFor(m.mem, r, v, n)
        invariant k == 0 ==> Img() == m
        decreases n - k
      {
        ghost var m1 := Img();
        LackWithin(mem, r, a, n - k);
        CanMapRest(m, m1, lo, hi, r, v, n, f, k, perm);
        CanMapNext(m1, r, a, n - k, p);
        var ok := MapOne(r, a, p, perm);
        PteRunMore(f, k, perm);
        ExtendedOn(m, m1, Img(), lo, hi, r, v, PteRun(f, k, perm), if ok then [Pte(p, perm)] else []);
        if !ok {
          return -1, k;
        }
        StillRoot(m1, Img(), r, a, [Pte(p, perm)]);
        TablesStep(m1, Img(), lo, hi, r, a, n - k);
        k := k + 1;
        if a == last {
          break;
        }
        a, p := a + 1, p + 1;
      }
    }

    /** A mapped page lacks no table. */
    lemma MappedPath(m0: Phys, m: Phys, lo: nat, hi: nat, r: nat, v: nat, f: nat, perm: nat)
      requires Exact(m, lo, hi) && IsRoot(m0, r) && v < VPNS && perm < 1024
      requires Extended(m0, m, r, v, [Pte(f, perm)])
      ensures Lack(m.mem, r, v) == 0
    {
      hide TableAt, Lack, Trees, Lookup;
      PteParts(f, perm);
      assert Lookup(m.mem, r, v) == Pte(f, perm);
      assert !V(0);
      MappedLeaf(m, lo, hi, r, v);
      PathFound(m, lo, hi, r, v);
    }

    lemma StillRoot(m0: Phys, m: Phys, r: nat, v: nat, es: seq<nat>)
      requires Extended(m0, m, r, v, es) && IsRoot(m0, r)
      ensures IsRoot(m, r)
    {
    }

    /** The body of uvmunmap's loop; it panics exactly when the page is not mapped. */
    method UnmapOne(r: nat, v: nat, doFree: bool) returns (panics: bool)
      requires Valid() && Ownable(Img(), r, v, 1, doFree)
      modifies this`mem, this`freelist, this`free, this`owner
      ensures panics <==> old(Lookup(mem, r, v)) == 0
      ensures Valid() && (panics ==> Img() == old(Img()))
      ensures !panics ==> Unmapped(old(Img()), Img(), r, v, 1)
      ensures !panics ==> |free| == |old(free)| + if doFree then 1 else 0
    {
      hide Pages, Chained, Trees, TableAt, Lookup, Unmapped, V, Frame, Flags, PageCount;
      ghost var m := Img();
      UnmapTests(m, lo, hi, r, v);
      var t := Walk(r, v * PGSIZE, false);
      if t == 0 {
        return true;
      }
      var pte := mem[t][Px(0, v)];
      if !V(pte) || Flags(pte) == 1 {
        return true;
      }
      DropPage(r, v, doFree, t, pte);
      return false;
    }

    /** What the panic checks see of page `v`. */
    lemma UnmapTests(m: Phys, lo: nat, hi: nat, r: nat, v: nat)
      requires Exact(m, lo, hi) && IsRoot(m, r) && v < MAXVPN
      ensures
        var t := TableAt(m.mem, r, 0, v / ENTRIES);
        && (t != 0 ==> t in m.mem && |m.mem[t]| == ENTRIES)
        && (Lookup(m.mem, r, v) != 0 <==> t != 0 && V(m.mem[t][v % ENTRIES]) && Flags(m.mem[t][v % ENTRIES]) != 1)
        && (Lookup(m.mem, r, v) != 0 ==> Lookup(m.mem, r, v) == m.mem[t][v % ENTRIES])
    {
      hide TableAt, Pages, Trees;
      if TableAt(m.mem, r, 0, v / ENTRIES) != 0 {
        LeafTable(m, lo, hi, r, v);
      }
      if Lookup(m.mem, r, v) != 0 {
        MappedLeaf(m, lo, hi, r, v);
        LeafTable(m, lo, hi, r, v);
      }
    }

    /** Free the page of entry `pte` if asked to, and clear the entry. */
    method DropPage(r: nat, v: nat, doFree: bool, t: nat, pte: nat)
      requires Valid() && Ownable(Img(), r, v, 1, doFree) && Lookup(mem, r, v) == pte != 0
      requires t == TableAt(mem, r, 0, v / ENTRIES)
      modifies this`mem, this`freelist, this`free, this`owner
      ensures Valid() && Unmapped(old(Img()), Img(), r, v, 1)
      ensures |free| == |old(free)| + if doFree then 1 else 0
    {
      hide Pages, Chained, Trees, TableAt, Lookup, Unmapped, Freed, DropLeaf, V, Frame, Flags, PageCount;
      ghost var m := Img();
      assert Lookup(m.mem, r, v) != 0 && (OwnPage(m, r, v) <==> doFree);
      MappedLeaf(m, lo, hi, r, v);
      LeafTable(m, lo, hi, r, v);
      ghost var x := Put(Filled(FREED), 0, freelist);
      DroppedLeaf(m, lo, hi, r, v, x);
      UnmapForms(m, lo, hi, r, v, x);
      if doFree {
        PageRange(m, lo, hi, Frame(pte), end, phystop);
        Kfree(Frame(pte) * PGSIZE);
      }
      ghost var m1 := Img();
      mem := mem[t := Put(mem[t], Px(0, v), 0)];
      ChainAround(m1, Img(), lo, hi, freelist, {t});
    }

    /**
     Remove the mappings of `npages` pages from `va`, freeing the pages if `doFree`.  It
     panics exactly when `va` is not aligned or one of the pages is not mapped; by then
     `done` pages have been removed.
     */
    method Uvmunmap(r: nat, va: nat, npages: nat, doFree: bool) returns (panics: bool, ghost done: nat)
      requires Valid() && Ownable(Img(), r, va / PGSIZE, npages, doFree)
      modifies this`mem, this`freelist, this`free, this`owner
      ensures Valid() && done <= npages && Unmapped(old(Img()), Img(), r, va / PGSIZE, done)
      ensures panics <==> va % PGSIZE != 0 || !Removable(old(Img()), r, va / PGSIZE, npages, doFree)
      ensures !panics ==> done == npages
      ensures |free| == |old(free)| + if doFree then done else 0
    {
      hide Pages, Chained, Trees, Unmapped, Removable, Ownable, Lookup;
      ghost var m, v := Img(), va / PGSIZE;
      UnmappedNothing(m, r, v);
      if va % PGSIZE != 0 {
        return true, 0;
      }
      NothingRemovable(m, r, v, npages, doFree);
      var a := va;
      done := 0;
      while a < va + npages * PGSIZE
        invariant done <= npages && a == va + done * PGSIZE && Valid()
        invariant Unmapped(m, Img(), r, v, done) && Removable(m, r, v, done, doFree)
        invariant |free| == |old(free)| + if doFree then done else 0
      {
        ghost var m1 := Img();
        OwnableRest(m, m1, r, v, npages, doFree, done);
        RemovableGrows(m, r, v, npages, doFree, done);
        panics := UnmapOne(r, a / PGSIZE, doFree);
        if panics {
          return;
        }
        UnmappedMore(m, m1, Img(), r, v, done);
        a := a + PGSIZE;
        done := done + 1;
      }
      panics := false;
    }

    lemma NothingRemovable(m: Phys, r: nat, v: nat, n: nat, own: bool)
      requires Ownable(m, r, v, n, own)
      ensures Removable(m, r, v, 0, own)
    {
    }

    /**
     A new page holding `x`, mapped at page `v` with `perm`: what the loops of uvmalloc
     and uvmcopy do for each page.  When memory runs out the page itself is given back.
     */
    method NewPage(r: nat, v: nat, x: seq<nat>, perm: nat) returns (ok: bool, ghost e: nat)
      requires Valid() && IsRoot(Img(), r) && v < MAXVPN && Lookup(mem, r, v) == 0
      requires |x| == ENTRIES && perm < 1024 && Leaf(perm)
      modifies this`mem, this`freelist, this`free, this`owner
      ensures Valid() && Extended(old(Img()), Img(), r, v, if ok then [e] else [])
      ensures ok ==> HoldsOne(Img(), r, v, e, perm, x) && Frame(e) !in old(owner)
      ensures ok <==> 1 + Lack(old(mem), r, v) <= |old(free)|
      ensures |free| == if ok then |old(free)| - 1 - Lack(old(mem), r, v) else if old(free) == [] then 0 else 1
      ensures PathOnly(old(Img()), Img(), r, v) && (ok ==> Lack(mem, r, v) == 0)
    {
      hide Pages, Chained, Trees, Extended, Lookup, HoldsOne, CanMap, Lack, TablesFor;
      ghost var m1 := Img();
      e := 0;
      ExtendedNothing(m1, r, v, []);
      PathNothing(m1, r, v);
      var pa := Kalloc();
      if pa == 0 {
        return false, e;
      }
      ghost var p := m1.free[0];
      TakenKeeps(m1, lo, hi, Filled(FRESH));
      TakenKeeps(m1, lo, hi, x);
      ghost var m2 := Img();
      mem := mem[pa / PGSIZE := x];
      assert Img() == Taken(m1, x);
      ChainAround(m2, Img(), lo, hi, freelist, {p});
      FreshCanMap(m1, lo, hi, r, v, x);
      ghost var mx := Img();
      FreeNotOwned(m1, lo, hi);
      SameLack(m1, mx, lo, hi, r, v);
      LackWithin(mx.mem, r, v, 1);
      var res;
      ghost var k;
      res, k := Mappages(r, v * PGSIZE, PGSIZE, pa, perm);
      ghost var m3 := Img();
      ok := res == 0;
      if ok {
        e := Pte(p, perm);
        assert PteRun(p, 1, perm) == [e];
        FreshPage(m1, m3, lo, hi, r, v, x, perm);
        MappedPath(mx, m3, lo, hi, r, v, p, perm);
      } else {
        assert PteRun(p, k, perm) == [];
        PageGivenBack(m1, m3, lo, hi, r, v, x, Put(Filled(FREED), 0, freelist));
        PageRange(m3, lo, hi, p, end, phystop);
        Kfree(pa);
      }
    }

    /**
     Shrink to `newsz`, if that is smaller.  Returns the new size.
     */
    method Uvmdealloc(r: nat, oldsz: nat, newsz: nat) returns (sz: nat)
      requires Valid()
      requires newsz < oldsz ==> Removable(Img(), r, PageCount(newsz), PageCount(oldsz) - PageCount(newsz), true)
      modifies this`mem, this`freelist, this`free, this`owner
      ensures newsz >= oldsz ==> sz == oldsz && Img() == old(Img())
      ensures newsz < oldsz ==> |free| == |old(free)| + PageCount(oldsz) - PageCount(newsz)
      ensures newsz < oldsz ==> sz == newsz && Unmapped(old(Img()), Img(), r, PageCount(newsz), PageCount(oldsz) - PageCount(newsz))
      ensures Valid()
    {
      hide Pages, Chained, Trees, Unmapped, Removable;
      if newsz >= oldsz {
        return oldsz;
      }
      UnmappedNothing(Img(), r, PageCount(newsz));
      if RoundUp(newsz) < RoundUp(oldsz) {
        var npages := (RoundUp(oldsz) - RoundUp(newsz)) / PGSIZE;
        assert npages == PageCount(oldsz) - PageCount(newsz);
        RemovableOwnable(Img(), r, PageCount(newsz), npages, true);
        var panics, _ := Uvmunmap(r, RoundUp(newsz), npages, true);
        assert !panics;
      }
      return newsz;
    }

    /**
     Grow from `oldsz` to `newsz` with zeroed pages.  Returns the new size; 0 exactly when
     fewer pages are free than the data pages and the tables they need, and then only tables
     of `r` are left over, and no more pages are free than the data pages asked for.
     */
    method Uvmalloc(r: nat, oldsz: nat, newsz: nat, xperm: nat) returns (sz: nat, ghost ok: bool, ghost es: seq<nat>)
      requires Valid() && UserSpace(Img(), r, PageCount(oldsz)) && newsz <= USERTOP * PGSIZE && xperm < 1024
      modifies this`mem, this`freelist, this`free, this`owner
      ensures Valid()
      ensures newsz < oldsz ==> sz == oldsz && Img() == old(Img())
      ensures newsz >= oldsz && !ok ==> |es| < PageCount(newsz) - PageCount(oldsz) && |free| <= |es| + 1
      ensures newsz >= oldsz ==>
        var need := GrowthNeed(old(mem), r, PageCount(oldsz), PageCount(newsz));
        (ok <==> need <= |old(free)|) && (ok ==> |free| == |old(free)| - need)
      ensures newsz >= oldsz && !ok ==> sz == 0 && Grew(old(Img()), Img(), r) && UserSpace(Img(), r, PageCount(oldsz))
      ensures newsz >= oldsz && ok ==>
        && sz == newsz && |es| == PageCount(newsz) - PageCount(oldsz)
        && Growing(old(Img()), Img(), r, PageCount(oldsz), es, Repeat(|es|, UserPerm(xperm)), Repeat(|es|, Zeros()))
        && UserSpace(Img(), r, PageCount(newsz))
        && ZeroedUserPages(Img(), r, PageCount(oldsz), PageCount(newsz), xperm)
    {
      hide Pages, Chained, Trees, Unmapped, Removable, Extended, UserSpace, HoldsOne, Growing, Lack, TablesFor, PathOnly, ZeroedUserPages, UserPerm;
      ghost var m0, v := Img(), PageCount(oldsz);
      ghost var perm := UserPerm(xperm);
      ok, es := true, [];
      if newsz < oldsz {
        return oldsz, ok, es;
      }
      GrowStart(m0, r, v, Repeat(0, perm), Repeat(0, Zeros()));
      UserPermLeaf(xperm);
      var a := RoundUp(oldsz);
      ghost var n: nat := PageCount(newsz) - v;
      while a < newsz
        invariant a % PGSIZE == 0 && a / PGSIZE == v + |es| && RoundUp(oldsz) <= a && a / PGSIZE <= PageCount(newsz) && Valid()
        invariant Growing(m0, Img(), r, v, es, Repeat(|es|, perm), Repeat(|es|, Zeros()))
        invariant |es| <= n && |free| - (n - |es|) - TablesFor(mem, r, v + |es|, n - |es|) == |m0.free| - n - TablesFor(m0.mem, r, v, n)
      {
        ghost var m1 := Img();
        GrowRoot(m0, m1, r, v, es, Repeat(|es|, perm), Repeat(|es|, Zeros()));
        LackWithin(mem, r, v + |es|, n - |es|);
        var more;
        ghost var e;
        more, e := UvmallocPage(r, a / PGSIZE, xperm, m0, v, es);
        if !more {
          UvmallocUndo(r, oldsz, a, m0, es, Repeat(|es|, perm), Repeat(|es|, Zeros()));
          return 0, false, es;
        }
        GrowRoot(m0, Img(), r, v, es + [e], Repeat(|es| + 1, perm), Repeat(|es| + 1, Zeros()));
        TablesStep(m1, Img(), lo, hi, r, v + |es|, n - |es|);
        es := es + [e];
        a := a + PGSIZE;
      }
      assert a == RoundUp(newsz);
      NoTables(mem, r, v + n);
      NoTables(m0.mem, r, v);
      GrownPages(m0, Img(), r, v, es, xperm);
      GrowDone(m0, Img(), r, v, es, Repeat(|es|, perm), Repeat(|es|, Zeros()));
      return newsz, ok, es;
    }

    lemma GrowRoot(m0: Phys, m: Phys, r: nat, v: nat, es: seq<nat>, perms: seq<nat>, xs: seq<seq<nat>>)
      requires Growing(m0, m, r, v, es, perms, xs)
      ensures IsRoot(m0, r) && IsRoot(m, r)
    {
    }

    /** The body of uvmalloc's loop: page `u`, after the pages `es` from `v` on. */
    method UvmallocPage(r: nat, u: nat, xperm: nat, ghost m0: Phys, ghost v: nat, ghost es: seq<nat>) returns (more: bool, ghost e: nat)
      requires Valid() && u == v + |es| < USERTOP && xperm < 1024 && Pages(m0, lo, hi)
      requires Growing(m0, Img(), r, v, es, Repeat(|es|, UserPerm(xperm)), Repeat(|es|, Zeros()))
      modifies this`mem, this`freelist, this`free, this`owner
      ensures Valid()
      ensures more ==> Growing(m0, Img(), r, v, es + [e], Repeat(|es| + 1, UserPerm(xperm)), Repeat(|es| + 1, Zeros()))
      ensures !more ==> Growing(m0, Img(), r, v, es, Repeat(|es|, UserPerm(xperm)), Repeat(|es|, Zeros()))
      ensures !more ==> Removable(Img(), r, v, |es|, true) && |free| <= 1
      ensures more <==> 1 + Lack(old(mem), r, u) <= |old(free)|
      ensures more ==> |free| == |old(free)| - 1 - Lack(old(mem), r, u)
      ensures PathOnly(old(Img()), Img(), r, u) && (more ==> Lack(mem, r, u) == 0)
    {
      hide Pages, Chained, Trees, Unmapped, Removable, Extended, UserSpace, HoldsOne, Growing, Lookup, UserPerm, Leaf, Lack;
      ghost var m1, perm := Img(), UserPerm(xperm);
      GrowNext(m0, m1, r, v, es, Repeat(|es|, perm), Repeat(|es|, Zeros()));
      UserPermLeaf(xperm);
      more, e := NewPage(r, u, Zeros(), UserPerm(xperm));
      if more {
        GrowMore(m0, m1, Img(), lo, hi, r, v, es, Repeat(|es|, perm), Repeat(|es|, Zeros()), e, perm, Zeros());
        assert Repeat(|es|, perm) + [perm] == Repeat(|es| + 1, perm);
        assert Repeat(|es|, Zeros()) + [Zeros()] == Repeat(|es| + 1, Zeros());
      } else {
        GrowStuck(m0, m1, Img(), lo, hi, r, v, es, Repeat(|es|, perm), Repeat(|es|, Zeros()));
      }
    }

    /** The way out of uvmalloc's loop when a page cannot be had: give back those mapped so far. */
    method UvmallocUndo(r: nat, oldsz: nat, a: nat, ghost m0: Phys, ghost es: seq<nat>, ghost perms: seq<nat>, ghost xs: seq<seq<nat>>)
      requires Valid() && a % PGSIZE == 0 && a / PGSIZE == PageCount(oldsz) + |es| <= USERTOP && |perms| == |xs| == |es|
      requires Pages(m0, lo, hi) && Trees(m0) && Growing(m0, Img(), r, PageCount(oldsz), es, perms, xs)
      requires Removable(Img(), r, PageCount(oldsz), |es|, true)
      modifies this`mem, this`freelist, this`free, this`owner
      ensures Valid() && Grew(m0, Img(), r) && UserSpace(Img(), r, PageCount(oldsz)) && |free| == |old(free)| + |es|
    {
      hide Pages, Chained, Trees, Unmapped, Removable, Extended, UserSpace, HoldsOne, Growing;
      ghost var m2, v := Img(), PageCount(oldsz);
      assert PageCount(a) == v + |es| && PageCount(RoundUp(oldsz)) == v;
      var _ := Uvmdealloc(r, a, RoundUp(oldsz));
      if |es| == 0 {
        UnmappedNothing(m2, r, v);
      }
      GrowUndone(m0, m2, Img(), lo, hi, r, v, es, perms, xs);
    }

    /** A new tree that maps nothing; 0 when there is no page for its root. */
    method Uvmcreate() returns (r: nat)
      requires Valid()
      modifies this`mem, this`freelist, this`free, this`owner
      ensures Valid() && (r == 0 <==> old(free) == [])
      ensures r == 0 ==> Img() == old(Img())
      ensures r != 0 ==> r == old(free)[0] && Bare(Img(), r) && SameMaps(old(Img()), Img()) && owner == old(owner)[r := Table(r, 2, 0)]
    {
      hide Pages, Chained, Trees, Bare, TableAt, Lookup;
      ghost var m := Img();
      var pa := Kalloc();
      r := pa / PGSIZE;
      if pa != 0 {
        TakenKeeps(m, lo, hi, Filled(FRESH));
        ghost var m1 := Img();
        NewTreeKeeps(m1, lo, hi, r);
        mem := mem[r := Zeros()];
        owner := owner[r := Table(r, 2, 0)];
        ChainAround(m1, Img(), lo, hi, freelist, {r});
        MapsChain(m, m1, Img());
      }
    }

    /**
     Copy the first `sz` bytes' pages of tree `r`, permissions and contents, into tree
     `s`.  -1 exactly when fewer pages are free than these and the tables they need, and
     then only tables of `s` are left over.
     */
    method Uvmcopy(r: nat, s: nat, sz: nat) returns (res: int, ghost es: seq<nat>)
      requires Valid() && r != s && UserSpace(Img(), r, PageCount(sz)) && UserSpace(Img(), s, 0)
      modifies this`mem, this`freelist, this`free, this`owner
      ensures Valid() && (res == 0 || res == -1)
      ensures res == 0 ==>
        && |es| == PageCount(sz) && UserSpace(Img(), s, PageCount(sz))
        && Growing(old(Img()), Img(), s, 0, es, PermsOf(old(Img()), r, PageCount(sz)), PagesOf(old(Img()), r, PageCount(sz)))
      ensures res == -1 ==> Grew(old(Img()), Img(), s) && UserSpace(Img(), s, 0)
      ensures res == -1 ==> |es| < PageCount(sz) && |free| <= |es| + 1
      ensures
        var need := GrowthNeed(old(mem), s, 0, PageCount(sz));
        (res == 0 <==> need <= |old(free)|) && (res == 0 ==> |free| == |old(free)| - need)
    {
      hide Pages, Chained, Trees, Unmapped, Removable, Extended, UserSpace, HoldsOne, Growing, TableAt, Lookup, Lack, TablesFor, PathOnly;
      ghost var m0 := Img();
      es := [];
      GrowStart(m0, s, 0, PermsOf(m0, r, 0), PagesOf(m0, r, 0));
      SpaceTop(m0, r, PageCount(sz));
      var i := 0;
      ghost var n := PageCount(sz);
      while i < sz
        invariant i == |es| * PGSIZE && |es| <= PageCount(sz) && Valid()
        invariant Growing(m0, Img(), s, 0, es, PermsOf(m0, r, |es|), PagesOf(m0, r, |es|))
        invariant |free| - (n - |es|) - TablesFor(mem, s, |es|, n - |es|) == |m0.free| - n - TablesFor(m0.mem, s, 0, n)
      {
        ghost var m1, k := Img(), |es|;
        GrowRoot(m0, m1, s, 0, es, PermsOf(m0, r, k), PagesOf(m0, r, k));
        LackWithin(mem, s, k, n - k);
        SourcePage(m0, m1, lo, hi, r, s, PageCount(sz), es, k);
        var t := Walk(r, i, false);
        assert t != 0;
        var pte := mem[t][Px(0, i / PGSIZE)];
        assert V(pte);
        var ok;
        ghost var e;
        ok, e := NewPage(s, i / PGSIZE, mem[Frame(pte)], Flags(pte));
        if !ok {
          GrowStuck(m0, m1, Img(), lo, hi, s, 0, es, PermsOf(m0, r, k), PagesOf(m0, r, k));
          ghost var m2 := Img();
          RemovableOwnable(Img(), s, 0, i / PGSIZE, true);
          var panics, _ := Uvmunmap(s, 0, i / PGSIZE, true);
          assert !panics;
          GrowUndone(m0, m2, Img(), lo, hi, s, 0, es, PermsOf(m0, r, k), PagesOf(m0, r, k));
          return -1, es;
        }
        GrowMore(m0, m1, Img(), lo, hi, s, 0, es, PermsOf(m0, r, k), PagesOf(m0, r, k), e, Flags(pte), m1.mem[Frame(pte)]);
        CopiesMore(m0, r, k);
        GrowRoot(m0, Img(), s, 0, es + [e], PermsOf(m0, r, k + 1), PagesOf(m0, r, k + 1));
        TablesStep(m1, Img(), lo, hi, s, k, n - k);
        es := es + [e];
        i := i + PGSIZE;
      }
      NoTables(mem, s, n);
      NoTables(m0.mem, s, 0);
      GrowDone(m0, Img(), s, 0, es, PermsOf(m0, r, |es|), PagesOf(m0, r, |es|));
      return 0, es;
    }

    /** Free the table page `t` and every table below it; the inner assert is its panic check. */
    method Freewalk(t: nat, ghost r: nat, ghost l: nat, ghost a: nat)
      requires List() && Sub(mem, owner, t, r, l, a)
      modifies this`mem, this`freelist, this`free, this`owner
      ensures List() && Released(old(Img()), Img(), r, l, a)
      decreases l
    {
      hide Pages, Chained, Sub, Released, Cleared, V, Leaf, Frame, PageCount;
      ghost var m0 := Img();
      ClearedNone(m0, lo, hi, t, r, l, a);
      var i := 0;
      while i < ENTRIES
        invariant i <= ENTRIES && List() && Cleared(m0, Img(), t, r, l, a, i)
      {
        ghost var m1 := Img();
        ClearedPage(m0, m1, lo, hi, t, r, l, a, i);
        var pte := mem[t][i];
        if V(pte) && !Leaf(pte) {
          ClearedChild(m0, m1, t, r, l, a, i);
          Freewalk(Frame(pte), r, l - 1, a * ENTRIES + i);
          ghost var m2 := Img();
          ReleasedPage(m0, m1, m2, t, r, l, a, i);
          mem := mem[t := Put(mem[t], i, 0)];
          PutPages(m2, Img(), lo, hi, t);
          ChainAround(m2, Img(), lo, hi, freelist, {t});
          ClearedMore(m0, m1, m2, Img(), t, r, l, a, i);
        } else if V(pte) {
          ClearedChild(m0, m1, t, r, l, a, i);
          assert false;
        } else {
          ClearedSkip(m0, m1, t, r, l, a, i);
        }
        i := i + 1;
      }
      ClearedAll(m0, Img(), t, r, l, a, Put(Filled(FREED), 0, freelist));
      PageRange(Img(), lo, hi, t, end, phystop);
      Kfree(t * PGSIZE);
    }

    /** Free a process's user pages and then its page table. */
    method Uvmfree(r: nat, sz: nat)
      requires Valid() && UserSpace(Img(), r, PageCount(sz))
      requires forall u: nat :: USERTOP <= u < VPNS ==> Lookup(mem, r, u) == 0
      modifies this`mem, this`freelist, this`free, this`owner
      ensures Valid() && Gone(old(Img()), Img(), r)
    {
      hide Pages, Chained, Trees, Unmapped, Released, Gone, Sub, TableAt, Lookup;
      ghost var m0 := Img();
      UnmappedNothing(m0, r, 0);
      if sz > 0 {
        SpaceRemovable(m0, r, 0, PageCount(sz));
        RemovableOwnable(m0, r, 0, PageCount(sz), true);
        var panics, _ := Uvmunmap(r, 0, RoundUp(sz) / PGSIZE, true);
        assert !panics;
      }
      ghost var m1 := Img();
      SpaceBare(m0, m1, r, PageCount(sz));
      RootTable(m1, lo, hi, r);
      BareSub(m1, lo, hi, r, 2, 0);
      Freewalk(r, r, 2, 0);
      TreeGone(m1, Img(), lo, hi, r);
      UnmappedThenGone(m0, m1, Img(), r, 0, PageCount(sz));
    }
  }
}
