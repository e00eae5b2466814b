/**
 kernel/vm.c and kernel/kalloc.c on values: physical pages, who owns each of them,
 and the three-level Sv39 page tables stored in them (section 4.4 of the RISC-V
 Privileged Architecture, version 1.12).
 */
module VmImage {
  const PGSIZE: nat := 4096
  const ENTRIES: nat := 512
  /** Page numbers an Sv39 tree can translate, and those below MAXVA, which is one bit less. */
  const VPNS: nat := 0x800_0000
  const MAXVPN: nat := 0x400_0000
  /** Page number of TRAPFRAME: user memory lies below it. */
  const USERTOP: nat := MAXVPN - 2

  type Mem = map<nat, seq<nat>>

  /**
   Who owns a page: the page-table page for spot `at` of level `lvl` in the tree whose
   root is page `root`; the data page that tree maps at `vpn`; the kernel, which may
   map it in several trees; or the kernel, not mapped.
   */
  datatype Role = Table(root: nat, lvl: nat, at: nat) | User(root: nat, vpn: nat) | Pinned | Held

  /** Page contents as 64-bit words, the free list, and the owner of every other page. */
  datatype Phys = Phys(mem: Mem, free: seq<nat>, owner: map<nat, Role>)

  // ---- page-table entries ----

  predicate V(e: nat) {
    e % 2 == 1
  }

  /** Some of R, W, X is set. */
  predicate Leaf(e: nat) {
    e / 2 % 8 != 0
  }

  function Frame(e: nat): nat {
    e / 1024
  }

  function Flags(e: nat): nat {
    e % 1024
  }

  /** PA2PTE(pa) | perm | PTE_V for the page `f`. */
  function Pte(f: nat, perm: nat): nat {
    f * 1024 + if perm % 2 == 1 then perm else perm + 1
  }

  lemma PteParts(f: nat, perm: nat)
    requires perm < 1024
    ensures V(Pte(f, perm)) && Frame(Pte(f, perm)) == f && (Leaf(Pte(f, perm)) <==> Leaf(perm))
    ensures Flags(Pte(f, perm)) == if perm % 2 == 1 then perm else perm + 1
  {
    var low := if perm % 2 == 1 then perm else perm + 1;
    assert Pte(f, perm) == f * 1024 + low && low < 1024;
    Divided(f, low);
    assert low / 2 == perm / 2;
  }

  lemma Divided(f: nat, low: nat)
    requires low < 1024
    ensures (f * 1024 + low) / 1024 == f && (f * 1024 + low) % 1024 == low && (f * 1024 + low) % 2 == low % 2
    ensures (f * 1024 + low) / 2 % 8 == low / 2 % 8
  {
    Halved(f * 1024 + low, f * 512 + low / 2, low % 2);
    Eighth(f * 512 + low / 2, f * 64 + low / 2 / 8, low / 2 % 8);
  }

  lemma Halved(x: nat, q: nat, r: nat)
    requires x == 2 * q + r && r < 2
    ensures x / 2 == q && x % 2 == r
  {
  }

  lemma Eighth(x: nat, q: nat, r: nat)
    requires x == 8 * q + r && r < 8
    ensures x % 8 == r
  {
  }

  /** The fields of an entry as Sv39 lays them out: V in bit 0, R, W and X in bits 1 to 3, flags below bit 10, the frame above. */
  lemma EntryFields(e: nat)
    ensures e == 1024 * Frame(e) + Flags(e) && Flags(e) < 1024
    ensures V(e) <==> e % 2 == 1
    ensures Leaf(e) <==> e / 2 % 2 == 1 || e / 4 % 2 == 1 || e / 8 % 2 == 1
  {
    var a, b, c := e / 2, e / 4, e / 8;
    assert a / 2 == b && b / 2 == c && a / 8 == c / 2;
    assert a == 2 * b + a % 2 && b == 2 * c + b % 2 && c == 2 * (a / 8) + c % 2;
    assert a % 8 == 4 * (c % 2) + 2 * (b % 2) + a % 2;
  }

  function Zeros(): (s: seq<nat>)
    ensures |s| == ENTRIES
  {
    seq(ENTRIES, _ => 0)
  }

  /** A page with its word `j` set. */
  function Put(page: seq<nat>, j: nat, w: nat): seq<nat>
    requires j < |page|
  {
    page[j := w]
  }

  function Entry(mem: Mem, p: nat, j: nat): nat {
    if p in mem && j < |mem[p]| then mem[p][j] else 0
  }

  function Child(mem: Mem, p: nat, j: nat): nat {
    if V(Entry(mem, p, j)) then Frame(Entry(mem, p, j)) else 0
  }

  // ---- the tree under a root ----

  /** `at` numbers the tables of level `lvl` from left to right. */
  predicate IsSpot(lvl: nat, at: nat) {
    lvl <= 2 && at < match lvl case 2 => 1 case 1 => ENTRIES case _ => ENTRIES * ENTRIES
  }

  /** The table page at a spot, 0 for none. */
  function TableAt(mem: Mem, r: nat, lvl: nat, at: nat): nat
    requires lvl <= 2
    decreases 2 - lvl
  {
    if lvl == 2 then r else Child(mem, TableAt(mem, r, lvl + 1, at / ENTRIES), at % ENTRIES)
  }

  /** The valid entry that translates page `v`, 0 for none. */
  function Lookup(mem: Mem, r: nat, v: nat): nat {
    var e := Entry(mem, TableAt(mem, r, 0, v / ENTRIES), v % ENTRIES);
    if V(e) then e else 0
  }

  /** The walk: nine bits of the page number at each of three levels, the highest first. */
  lemma LookupWalk(mem: Mem, r: nat, v: nat)
    requires v < VPNS
    ensures
      var t1 := Child(mem, r, v / 262144);
      var t0 := Child(mem, t1, v / 512 % 512);
      var e := Entry(mem, t0, v % 512);
      Lookup(mem, r, v) == if e % 2 == 1 then e else 0
    ensures TableAt(mem, r, 0, v / 512) == Child(mem, Child(mem, r, v / 262144), v / 512 % 512)
  {
    assert v / 512 / 512 == v / 262144 && v / 262144 < 512;
    assert TableAt(mem, r, 1, v / 512 / 512) == Child(mem, TableAt(mem, r, 2, v / 512 / 512 / 512), v / 512 / 512 % 512);
    assert TableAt(mem, r, 0, v / 512) == Child(mem, TableAt(mem, r, 1, v / 512 / 512), v / 512 % 512);
  }

  /** The spot of level `lvl` on the way to page `v`, and the index the walk uses there. */
  function SpotOf(v: nat, lvl: nat): nat {
    match lvl case 0 => v / ENTRIES case 1 => v / (ENTRIES * ENTRIES) case _ => 0
  }

  function Px(lvl: nat, v: nat): (j: nat)
    ensures j < ENTRIES
  {
    match lvl case 0 => v % ENTRIES case 1 => v / ENTRIES % ENTRIES case _ => v / (ENTRIES * ENTRIES) % ENTRIES
  }

  lemma SpotBelow(v: nat, lvl: nat)
    requires 0 < lvl <= 2 && v < VPNS
    ensures IsSpot(lvl, SpotOf(v, lvl)) && IsSpot(lvl - 1, SpotOf(v, lvl - 1))
    ensures SpotOf(v, lvl - 1) == SpotOf(v, lvl) * ENTRIES + Px(lvl, v)
  {
  }

  // ---- invariants ----

  ghost predicate IsRoot(m: Phys, r: nat) {
    r in m.owner && m.owner[r] == Table(r, 2, 0)
  }

  /** The pages [lo, hi) are split between the free list, without repetition, and the owned pages. */
  ghost predicate Pages(m: Phys, lo: nat, hi: nat) {
    && 1 <= lo <= hi
    && (forall p :: p in m.mem <==> lo <= p < hi)
    && (forall p :: p in m.mem ==> |m.mem[p]| == ENTRIES)
    && (forall i: nat, j: nat :: i < j < |m.free| ==> m.free[i] != m.free[j])
    && (forall p :: p in m.mem <==> p in m.free || p in m.owner)
    && (forall p :: p in m.free ==> p !in m.owner)
  }

  /** What a valid entry of a table of level `lvl` looks like. */
  predicate EntryOk(lvl: nat, e: nat) {
    V(e) ==> if lvl == 0 then Leaf(e) else !Leaf(e) && Frame(e) != 0
  }

  /** What a tree may map: pages outside the allocator, pinned pages, and pages of its own at that address only. */
  ghost predicate FrameOk(m: Phys, r: nat, v: nat, f: nat) {
    f !in m.mem || (f in m.owner && (m.owner[f] == Pinned || m.owner[f] == User(r, v)))
  }

  /** Every table that a walk can reach is owned by the one spot it is reached at. */
  ghost predicate Reached(m: Phys) {
    forall r: nat, l: nat, a: nat {:trigger TableAt(m.mem, r, l, a)} :: IsRoot(m, r) && IsSpot(l, a) && TableAt(m.mem, r, l, a) != 0 ==>
      TableAt(m.mem, r, l, a) in m.owner && m.owner[TableAt(m.mem, r, l, a)] == Table(r, l, a)
  }

  /** Every page-table page is reached at its spot. */
  ghost predicate Placed(m: Phys) {
    forall p :: p in m.owner && m.owner[p].Table? ==>
      && IsRoot(m, m.owner[p].root) && IsSpot(m.owner[p].lvl, m.owner[p].at)
      && TableAt(m.mem, m.owner[p].root, m.owner[p].lvl, m.owner[p].at) == p
  }

  ghost predicate EntriesOk(m: Phys) {
    forall p, j: nat {:trigger Entry(m.mem, p, j)} :: p in m.owner && m.owner[p].Table? && j < ENTRIES ==> EntryOk(m.owner[p].lvl, Entry(m.mem, p, j))
  }

  /** Every data page is mapped by its owner at its address. */
  ghost predicate Mapped(m: Phys) {
    forall p :: p in m.owner && m.owner[p].User? ==>
      && IsRoot(m, m.owner[p].root) && m.owner[p].vpn < VPNS
      && Lookup(m.mem, m.owner[p].root, m.owner[p].vpn) != 0
      && Frame(Lookup(m.mem, m.owner[p].root, m.owner[p].vpn)) == p
  }

  ghost predicate FramesOk(m: Phys) {
    forall r: nat, v: nat {:trigger Lookup(m.mem, r, v)} :: IsRoot(m, r) && v < VPNS && Lookup(m.mem, r, v) != 0 ==>
      FrameOk(m, r, v, Frame(Lookup(m.mem, r, v)))
  }

  /** Exact ownership by trees. */
  ghost predicate Trees(m: Phys) {
    Reached(m) && Placed(m) && EntriesOk(m) && Mapped(m) && FramesOk(m)
  }

  /** The two together. */
  ghost predicate Exact(m: Phys, lo: nat, hi: nat) {
    Pages(m, lo, hi) && Trees(m)
  }

  /** A data page is mapped in one tree at one address only. */
  lemma OneMapping(m: Phys, lo: nat, hi: nat, r: nat, v: nat, s: nat, u: nat)
    requires Exact(m, lo, hi) && IsRoot(m, r) && IsRoot(m, s) && v < VPNS && u < VPNS
    requires Lookup(m.mem, r, v) != 0 && Lookup(m.mem, s, u) != 0
    requires Frame(Lookup(m.mem, r, v)) == Frame(Lookup(m.mem, s, u))
    requires var f := Frame(Lookup(m.mem, r, v)); f in m.owner && m.owner[f].User?
    ensures r == s && v == u
  {
  }

  // ---- changes that leave the tables alone ----

  /** Every table of `m` holds in `mem` what it holds in `m`. */
  ghost predicate SameTables(m: Phys, mem: Mem) {
    forall p :: p in m.owner && m.owner[p].Table? && p in m.mem ==> p in mem && mem[p] == m.mem[p]
  }

  lemma TablesStay(m: Phys, lo: nat, hi: nat, mem: Mem)
    requires Exact(m, lo, hi) && SameTables(m, mem) && 0 !in mem
    ensures forall r: nat, l: nat, a: nat :: IsRoot(m, r) && IsSpot(l, a) ==> TableAt(mem, r, l, a) == TableAt(m.mem, r, l, a)
    ensures forall r: nat, v: nat :: IsRoot(m, r) && v < VPNS ==> Lookup(mem, r, v) == Lookup(m.mem, r, v)
  {
    forall r: nat, l: nat, a: nat | IsRoot(m, r) && IsSpot(l, a) ensures TableAt(mem, r, l, a) == TableAt(m.mem, r, l, a) {
      TableStays(m, lo, hi, mem, r, l, a);
    }
    forall r: nat, v: nat | IsRoot(m, r) && v < VPNS ensures Lookup(mem, r, v) == Lookup(m.mem, r, v) {
      TableStays(m, lo, hi, mem, r, 0, v / ENTRIES);
      assert IsSpot(0, v / ENTRIES);
    }
  }

  /** The tables of tree `r` hold in `mem` what they hold in `m`. */
  ghost predicate SameTree(m: Phys, mem: Mem, r: nat) {
    forall p :: p in m.owner && m.owner[p].Table? && m.owner[p].root == r && p in m.mem ==> p in mem && mem[p] == m.mem[p]
  }

  lemma {:induction false} TableStays(m: Phys, lo: nat, hi: nat, mem: Mem, r: nat, l: nat, a: nat)
    requires Exact(m, lo, hi) && SameTree(m, mem, r) && 0 !in mem && IsRoot(m, r) && IsSpot(l, a)
    ensures TableAt(mem, r, l, a) == TableAt(m.mem, r, l, a)
    decreases 2 - l
  {
    if l < 2 {
      assert IsSpot(l + 1, a / ENTRIES);
      TableStays(m, lo, hi, mem, r, l + 1, a / ENTRIES);
    }
  }

  lemma LookupStays(m: Phys, lo: nat, hi: nat, mem: Mem, r: nat, v: nat)
    requires Exact(m, lo, hi) && SameTree(m, mem, r) && 0 !in mem && IsRoot(m, r) && v < VPNS
    ensures Lookup(mem, r, v) == Lookup(m.mem, r, v)
  {
    hide TableAt;
    TableStays(m, lo, hi, mem, r, 0, v / ENTRIES);
    assert IsSpot(0, v / ENTRIES);
  }

  // ---- the free list ----

  /** kalloc takes the first free page; the caller holds it. */
  ghost function Taken(m: Phys, x: seq<nat>): Phys
    requires m.free != []
  {
    Phys(m.mem[m.free[0] := x], m.free[1..], m.owner[m.free[0] := Held])
  }

  /** kfree puts page `p` first. */
  ghost function Freed(m: Phys, p: nat, x: seq<nat>): Phys {
    Phys(m.mem[p := x], [p] + m.free, m.owner - {p})
  }

  lemma TakenPages(m: Phys, lo: nat, hi: nat, x: seq<nat>)
    requires Pages(m, lo, hi) && m.free != [] && |x| == ENTRIES
    ensures Pages(Taken(m, x), lo, hi) && m.free[0] !in m.owner && m.free[0] in m.mem
  {
    var m' := Taken(m, x);
    assert forall i: nat :: i < |m'.free| ==> m'.free[i] == m.free[i + 1];
    assert m.free[0] in m.free;
    assert forall p: nat :: p in m.free <==> p == m.free[0] || p in m'.free by {
      assert m.free == [m.free[0]] + m'.free;
    }
  }

  lemma FreedPages(m: Phys, lo: nat, hi: nat, p: nat, x: seq<nat>)
    requires Pages(m, lo, hi) && p in m.owner && |x| == ENTRIES
    ensures Pages(Freed(m, p, x), lo, hi)
  {
  }

  /** The same roles, but for pages that are merely held. */
  ghost predicate SameRoles(m: Phys, m': Phys) {
    && (forall p :: p in m.owner && m.owner[p] != Held ==> p in m'.owner && m'.owner[p] == m.owner[p])
    && (forall p :: p in m'.owner && m'.owner[p] != Held ==> p in m.owner && m.owner[p] == m'.owner[p])
  }

  lemma TreesStay(m: Phys, lo: nat, hi: nat, m': Phys)
    requires Exact(m, lo, hi) && Pages(m', lo, hi) && SameRoles(m, m') && SameTables(m, m'.mem)
    ensures Trees(m') && SameMaps(m, m')
  {
    hide TableAt, Lookup, Reached, Placed, EntriesOk, Mapped, FramesOk, SameTableRoles, SameData, SameRoles;
    TablesStay(m, lo, hi, m'.mem);
    RolesStay(m, m', lo, hi);
    ReachStays(m, m');
    EntriesStay(m, m');
    DataStays(m, m');
  }

  lemma RolesStay(m: Phys, m': Phys, lo: nat, hi: nat)
    requires SameRoles(m, m') && Pages(m, lo, hi) && Pages(m', lo, hi)
    ensures SameTableRoles(m, m') && SameData(m, m')
  {
  }

  ghost predicate SameTableRoles(m: Phys, m': Phys) {
    && (forall p :: p in m.owner && m.owner[p].Table? ==> p in m'.owner && m'.owner[p] == m.owner[p])
    && (forall p :: p in m'.owner && m'.owner[p].Table? ==> p in m.owner && m.owner[p] == m'.owner[p])
  }

  lemma ReachStays(m: Phys, m': Phys)
    requires Reached(m) && Placed(m) && SameTableRoles(m, m')
    requires forall r: nat, l: nat, a: nat :: IsRoot(m, r) && IsSpot(l, a) ==> TableAt(m'.mem, r, l, a) == TableAt(m.mem, r, l, a)
    ensures Reached(m') && Placed(m')
  {
    hide TableAt;
    assert forall r :: IsRoot(m', r) <==> IsRoot(m, r);
    forall r: nat, l: nat, a: nat | IsRoot(m', r) && IsSpot(l, a) ensures TableAt(m'.mem, r, l, a) == TableAt(m.mem, r, l, a) {
    }
  }

  /** The same trees, and the same pages mapped or pinned. */
  ghost predicate SameData(m: Phys, m': Phys) {
    && (forall p: nat :: p in m.mem <==> p in m'.mem)
    && (forall p :: IsRoot(m, p) <==> IsRoot(m', p))
    && (forall p :: p in m.owner && (m.owner[p].User? || m.owner[p].Pinned?) ==> p in m'.owner && m'.owner[p] == m.owner[p])
    && (forall p :: p in m'.owner && m'.owner[p].User? ==> p in m.owner && m.owner[p] == m'.owner[p])
  }

  lemma DataStays(m: Phys, m': Phys)
    requires Mapped(m) && FramesOk(m) && SameData(m, m') && SameMaps(m, m')
    ensures Mapped(m') && FramesOk(m')
  {
    hide Lookup;
    forall r: nat, v: nat | IsRoot(m', r) && v < VPNS && Lookup(m'.mem, r, v) != 0 ensures FrameOk(m', r, v, Frame(Lookup(m'.mem, r, v))) {
      assert Lookup(m'.mem, r, v) == Lookup(m.mem, r, v);
      assert FrameOk(m, r, v, Frame(Lookup(m.mem, r, v)));
    }
  }

  lemma EntriesStay(m: Phys, m': Phys)
    requires EntriesOk(m) && SameRoles(m, m') && SameTables(m, m'.mem)
    requires forall p :: p in m.owner ==> p in m.mem
    ensures EntriesOk(m')
  {
    forall p, j: nat | p in m'.owner && m'.owner[p].Table? && j < ENTRIES ensures EntryOk(m'.owner[p].lvl, Entry(m'.mem, p, j)) {
      assert Entry(m'.mem, p, j) == Entry(m.mem, p, j);
    }
  }

  lemma TakenKeeps(m: Phys, lo: nat, hi: nat, x: seq<nat>)
    requires Exact(m, lo, hi) && m.free != [] && |x| == ENTRIES
    ensures Exact(Taken(m, x), lo, hi) && SameMaps(m, Taken(m, x))
  {
    TakenPages(m, lo, hi, x);
    TreesStay(m, lo, hi, Taken(m, x));
  }

  /** Every address translates in `m'` as it does in `m`, in every tree of `m`. */
  ghost predicate SameMaps(m: Phys, m': Phys) {
    && (forall s :: IsRoot(m, s) ==> IsRoot(m', s))
    && forall s: nat, u: nat {:trigger Lookup(m'.mem, s, u)} :: IsRoot(m, s) && u < VPNS ==> Lookup(m'.mem, s, u) == Lookup(m.mem, s, u)
  }

  /** A page that is held, or that only a tree's user mapping still owns, can be freed. */
  lemma FreedKeeps(m: Phys, lo: nat, hi: nat, p: nat, x: seq<nat>)
    requires Exact(m, lo, hi) && p in m.owner && m.owner[p] == Held && |x| == ENTRIES
    ensures Exact(Freed(m, p, x), lo, hi) && SameMaps(m, Freed(m, p, x))
  {
    FreedPages(m, lo, hi, p, x);
    TreesStay(m, lo, hi, Freed(m, p, x));
  }

  // ---- adding a table ----

  /** Page `q`, zeroed, becomes the table below entry `j` of the table at (r, l, a). */
  ghost function Linked(m: Phys, r: nat, l: nat, a: nat, j: nat, q: nat): Phys
    requires 0 < l <= 2 && j < ENTRIES && TableAt(m.mem, r, l, a) in m.mem && |m.mem[TableAt(m.mem, r, l, a)]| == ENTRIES
  {
    var p := TableAt(m.mem, r, l, a);
    Phys(m.mem[q := Zeros()][p := Put(m.mem[p], j, Pte(q, 0))], m.free, m.owner[q := Table(r, l - 1, a * ENTRIES + j)])
  }

  lemma LinkedPages(m: Phys, lo: nat, hi: nat, r: nat, l: nat, a: nat, j: nat, q: nat)
    requires Exact(m, lo, hi) && IsRoot(m, r) && 0 < l && IsSpot(l, a) && j < ENTRIES && q in m.owner
    requires TableAt(m.mem, r, l, a) != 0
    ensures TableAt(m.mem, r, l, a) in m.mem && |m.mem[TableAt(m.mem, r, l, a)]| == ENTRIES
    ensures Pages(Linked(m, r, l, a, j, q), lo, hi)
  {
    assert TableAt(m.mem, r, l, a) in m.owner;
  }

  /** Entries of the memory in which `p`'s entry `j` points to the empty table `q`. */
  lemma LinkedChild(mem: Mem, p: nat, j: nat, q: nat, p': nat, k: nat)
    requires p in mem && |mem[p]| == ENTRIES && j < ENTRIES && p != q
    ensures
      Child(mem[q := Zeros()][p := Put(mem[p], j, Pte(q, 0))], p', k) ==
      if p' == q then 0 else if p' == p && k == j then q else Child(mem, p', k)
  {
    PteParts(q, 0);
  }

  lemma {:induction false} LinkedTable(m: Phys, lo: nat, hi: nat, r: nat, l: nat, a: nat, j: nat, q: nat, s: nat, l': nat, b: nat)
    requires Exact(m, lo, hi) && IsRoot(m, r) && 0 < l && IsSpot(l, a) && j < ENTRIES
    requires q in m.owner && m.owner[q] == Held && TableAt(m.mem, r, l, a) != 0
    requires Child(m.mem, TableAt(m.mem, r, l, a), j) == 0
    requires IsRoot(m, s) && IsSpot(l', b)
    ensures TableAt(m.mem, r, l, a) in m.mem && |m.mem[TableAt(m.mem, r, l, a)]| == ENTRIES
    ensures TableAt(Linked(m, r, l, a, j, q).mem, s, l', b) ==
      if (s, l', b) == (r, l - 1, a * ENTRIES + j) then q else TableAt(m.mem, s, l', b)
    decreases 2 - l'
  {
    hide Child, Pte, Placed, EntriesOk, Mapped, FramesOk;
    LinkedPages(m, lo, hi, r, l, a, j, q);
    if l' < 2 {
      assert IsSpot(l' + 1, b / ENTRIES);
      LinkedTable(m, lo, hi, r, l, a, j, q, s, l' + 1, b / ENTRIES);
      LinkedChild(m.mem, TableAt(m.mem, r, l, a), j, q, TableAt(Linked(m, r, l, a, j, q).mem, s, l' + 1, b / ENTRIES), b % ENTRIES);
      LinkedParent(m, lo, hi, r, l, a, j, q, s, l', b);
      NoChild(m.mem, b % ENTRIES);
      assert TableAt(m.mem, r, l - 1, a * ENTRIES + j) == 0;
    }
  }

  lemma NoChild(mem: Mem, k: nat)
    requires 0 !in mem
    ensures Child(mem, 0, k) == 0
  {
  }

  /** The spot below entry `j` of (r, l, a) and no other hangs from that entry. */
  lemma LinkedParent(m: Phys, lo: nat, hi: nat, r: nat, l: nat, a: nat, j: nat, q: nat, s: nat, l': nat, b: nat)
    requires Exact(m, lo, hi) && IsRoot(m, r) && 0 < l && IsSpot(l, a) && j < ENTRIES && IsRoot(m, s) && l' < 2 && IsSpot(l', b)
    requires q in m.owner && m.owner[q] == Held && TableAt(m.mem, r, l, a) != 0
    ensures IsSpot(l' + 1, b / ENTRIES) && TableAt(m.mem, s, l' + 1, b / ENTRIES) != q
    ensures (s, l', b) == (r, l - 1, a * ENTRIES + j) <==>
      TableAt(m.mem, s, l' + 1, b / ENTRIES) == TableAt(m.mem, r, l, a) && b % ENTRIES == j
  {
    hide Child;
    assert IsSpot(l' + 1, b / ENTRIES);
    assert b == b / ENTRIES * ENTRIES + b % ENTRIES;
  }

  /** A new, empty table changes no translation and breaks no invariant. */
  lemma LinkedKeeps(m: Phys, lo: nat, hi: nat, r: nat, l: nat, a: nat, j: nat, q: nat)
    requires Exact(m, lo, hi) && IsRoot(m, r) && 0 < l && IsSpot(l, a) && j < ENTRIES
    requires q in m.owner && m.owner[q] == Held && TableAt(m.mem, r, l, a) != 0
    requires Child(m.mem, TableAt(m.mem, r, l, a), j) == 0
    ensures TableAt(m.mem, r, l, a) in m.mem && |m.mem[TableAt(m.mem, r, l, a)]| == ENTRIES
    ensures Exact(Linked(m, r, l, a, j, q), lo, hi) && SameMaps(m, Linked(m, r, l, a, j, q))
    ensures TableAt(Linked(m, r, l, a, j, q).mem, r, l - 1, a * ENTRIES + j) == q
  {
    hide TableAt, Lookup, Child, Mapped, FramesOk, EntriesOk, Reached, Placed, SameData;
    LinkedPages(m, lo, hi, r, l, a, j, q);
    var m' := Linked(m, r, l, a, j, q);
    assert IsSpot(l - 1, a * ENTRIES + j);
    forall s: nat, u: nat | IsRoot(m, s) && u < VPNS ensures Lookup(m'.mem, s, u) == Lookup(m.mem, s, u) {
      LinkedLookup(m, lo, hi, r, l, a, j, q, s, u);
    }
    LinkedTable(m, lo, hi, r, l, a, j, q, r, l - 1, a * ENTRIES + j);
    LinkedReach(m, lo, hi, r, l, a, j, q);
    LinkedEntries(m, lo, hi, r, l, a, j, q);
    DataStays(m, m');
  }

  lemma LinkedReach(m: Phys, lo: nat, hi: nat, r: nat, l: nat, a: nat, j: nat, q: nat)
    requires Exact(m, lo, hi) && IsRoot(m, r) && 0 < l && IsSpot(l, a) && j < ENTRIES
    requires q in m.owner && m.owner[q] == Held && TableAt(m.mem, r, l, a) != 0
    requires Child(m.mem, TableAt(m.mem, r, l, a), j) == 0
    ensures TableAt(m.mem, r, l, a) in m.mem && |m.mem[TableAt(m.mem, r, l, a)]| == ENTRIES
    ensures Reached(Linked(m, r, l, a, j, q)) && Placed(Linked(m, r, l, a, j, q)) && SameData(m, Linked(m, r, l, a, j, q))
  {
    hide TableAt, Child, Reached, Placed, Mapped, FramesOk, EntriesOk, SameData;
    LinkedPages(m, lo, hi, r, l, a, j, q);
    SpotFree(m, r, l, a, j);
    LinkedTables(m, lo, hi, r, l, a, j, q);
    LinkedData(m, lo, hi, r, l, a, j, q);
    NewSpot(m, Linked(m, r, l, a, j, q), r, l - 1, a * ENTRIES + j, q);
  }

  lemma LinkedData(m: Phys, lo: nat, hi: nat, r: nat, l: nat, a: nat, j: nat, q: nat)
    requires Exact(m, lo, hi) && IsRoot(m, r) && 0 < l && IsSpot(l, a) && j < ENTRIES
    requires q in m.owner && m.owner[q] == Held && TableAt(m.mem, r, l, a) != 0
    ensures TableAt(m.mem, r, l, a) in m.mem && |m.mem[TableAt(m.mem, r, l, a)]| == ENTRIES
    ensures SameData(m, Linked(m, r, l, a, j, q))
  {
    hide TableAt, Trees;
    LinkedPages(m, lo, hi, r, l, a, j, q);
    var m' := Linked(m, r, l, a, j, q);
    assert forall p :: p in m'.owner && p != q ==> p in m.owner && m'.owner[p] == m.owner[p];
  }

  lemma LinkedTables(m: Phys, lo: nat, hi: nat, r: nat, l: nat, a: nat, j: nat, q: nat)
    requires Exact(m, lo, hi) && IsRoot(m, r) && 0 < l && IsSpot(l, a) && j < ENTRIES
    requires q in m.owner && m.owner[q] == Held && TableAt(m.mem, r, l, a) != 0
    requires Child(m.mem, TableAt(m.mem, r, l, a), j) == 0
    ensures TableAt(m.mem, r, l, a) in m.mem && |m.mem[TableAt(m.mem, r, l, a)]| == ENTRIES
    ensures IsSpot(l - 1, a * ENTRIES + j)
    ensures forall s: nat, l': nat, b: nat :: IsRoot(m, s) && IsSpot(l', b) ==>
      TableAt(Linked(m, r, l, a, j, q).mem, s, l', b) ==
      if (s, l', b) == (r, l - 1, a * ENTRIES + j) then q else TableAt(m.mem, s, l', b)
  {
    hide TableAt, Child, Trees, Linked;
    LinkedPages(m, lo, hi, r, l, a, j, q);
    forall s: nat, l': nat, b: nat | IsRoot(m, s) && IsSpot(l', b)
      ensures TableAt(Linked(m, r, l, a, j, q).mem, s, l', b) ==
        if (s, l', b) == (r, l - 1, a * ENTRIES + j) then q else TableAt(m.mem, s, l', b)
    {
      LinkedTable(m, lo, hi, r, l, a, j, q, s, l', b);
    }
  }

  /** A held page that appears at a free spot, and nowhere else. */
  lemma NewSpot(m: Phys, m': Phys, r: nat, l: nat, a: nat, q: nat)
    requires Reached(m) && Placed(m) && IsRoot(m, r) && l < 2 && IsSpot(l, a) && TableAt(m.mem, r, l, a) == 0
    requires 0 !in m.owner && q in m.owner && m.owner[q] == Held && m'.owner == m.owner[q := Table(r, l, a)]
    requires forall s: nat, l': nat, b: nat :: IsRoot(m, s) && IsSpot(l', b) ==>
      TableAt(m'.mem, s, l', b) == if (s, l', b) == (r, l, a) then q else TableAt(m.mem, s, l', b)
    ensures Reached(m') && Placed(m')
  {
    hide TableAt;
    assert forall s :: IsRoot(m', s) <==> IsRoot(m, s);
  }

  lemma LinkedLookup(m: Phys, lo: nat, hi: nat, r: nat, l: nat, a: nat, j: nat, q: nat, s: nat, u: nat)
    requires Exact(m, lo, hi) && IsRoot(m, r) && 0 < l && IsSpot(l, a) && j < ENTRIES
    requires q in m.owner && m.owner[q] == Held && TableAt(m.mem, r, l, a) != 0
    requires Child(m.mem, TableAt(m.mem, r, l, a), j) == 0
    requires IsRoot(m, s) && u < VPNS
    ensures TableAt(m.mem, r, l, a) in m.mem && |m.mem[TableAt(m.mem, r, l, a)]| == ENTRIES
    ensures Lookup(Linked(m, r, l, a, j, q).mem, s, u) == Lookup(m.mem, s, u)
  {
    hide TableAt, Child, Mapped, FramesOk, EntriesOk;
    LinkedPages(m, lo, hi, r, l, a, j, q);
    assert IsSpot(0, u / ENTRIES);
    LinkedTable(m, lo, hi, r, l, a, j, q, s, 0, u / ENTRIES);
    SpotFree(m, r, l, a, j);
  }

  /** No table hangs from an entry that is not valid. */
  lemma SpotFree(m: Phys, r: nat, l: nat, a: nat, j: nat)
    requires 0 < l <= 2 && j < ENTRIES && Child(m.mem, TableAt(m.mem, r, l, a), j) == 0
    ensures TableAt(m.mem, r, l - 1, a * ENTRIES + j) == 0
  {
    hide Child;
    assert (a * ENTRIES + j) / ENTRIES == a && (a * ENTRIES + j) % ENTRIES == j;
  }

  lemma LinkedEntries(m: Phys, lo: nat, hi: nat, r: nat, l: nat, a: nat, j: nat, q: nat)
    requires Exact(m, lo, hi) && IsRoot(m, r) && 0 < l && IsSpot(l, a) && j < ENTRIES
    requires q in m.owner && m.owner[q] == Held && TableAt(m.mem, r, l, a) != 0
    ensures TableAt(m.mem, r, l, a) in m.mem && |m.mem[TableAt(m.mem, r, l, a)]| == ENTRIES
    ensures EntriesOk(Linked(m, r, l, a, j, q))
  {
    hide TableAt, Mapped, FramesOk;
    LinkedPages(m, lo, hi, r, l, a, j, q);
    PteParts(q, 0);
    var p, m' := TableAt(m.mem, r, l, a), Linked(m, r, l, a, j, q);
    forall x, k: nat | x in m'.owner && m'.owner[x].Table? && k < ENTRIES ensures EntryOk(m'.owner[x].lvl, Entry(m'.mem, x, k)) {
      if x != q && (x != p || k != j) {
        assert Entry(m'.mem, x, k) == Entry(m.mem, x, k);
      }
    }
  }

  // ---- leaf entries ----

  /** The memory in which the entry for page `v` is `e`. */
  function PutLeaf(mem: Mem, r: nat, v: nat, e: nat): Mem
    requires TableAt(mem, r, 0, v / ENTRIES) in mem && |mem[TableAt(mem, r, 0, v / ENTRIES)]| == ENTRIES
  {
    var t := TableAt(mem, r, 0, v / ENTRIES);
    mem[t := Put(mem[t], v % ENTRIES, e)]
  }

  /** Page `v` can be given a leaf entry: the tables on the way to it exist. */
  ghost predicate HasLeaf(m: Phys, r: nat, v: nat) {
    v < VPNS && IsRoot(m, r) && TableAt(m.mem, r, 0, v / ENTRIES) != 0
  }

  lemma LeafTable(m: Phys, lo: nat, hi: nat, r: nat, v: nat)
    requires Exact(m, lo, hi) && HasLeaf(m, r, v)
    ensures
      var t := TableAt(m.mem, r, 0, v / ENTRIES);
      t in m.mem && |m.mem[t]| == ENTRIES && t in m.owner && m.owner[t] == Table(r, 0, v / ENTRIES)
  {
    hide TableAt;
    assert IsSpot(0, v / ENTRIES);
  }

  lemma {:induction false} PutLeafTable(m: Phys, lo: nat, hi: nat, r: nat, v: nat, e: nat, s: nat, l: nat, a: nat)
    requires Exact(m, lo, hi) && HasLeaf(m, r, v) && IsRoot(m, s) && IsSpot(l, a)
    ensures TableAt(m.mem, r, 0, v / ENTRIES) in m.mem && |m.mem[TableAt(m.mem, r, 0, v / ENTRIES)]| == ENTRIES
    ensures TableAt(PutLeaf(m.mem, r, v, e), s, l, a) == TableAt(m.mem, s, l, a)
    decreases 2 - l
  {
    hide Placed, EntriesOk, Mapped, FramesOk;
    LeafTable(m, lo, hi, r, v);
    if l < 2 {
      assert IsSpot(l + 1, a / ENTRIES);
      PutLeafTable(m, lo, hi, r, v, e, s, l + 1, a / ENTRIES);
    }
  }

  lemma PutLeafLookup(m: Phys, lo: nat, hi: nat, r: nat, v: nat, e: nat, s: nat, u: nat)
    requires Exact(m, lo, hi) && HasLeaf(m, r, v) && IsRoot(m, s) && u < VPNS
    ensures TableAt(m.mem, r, 0, v / ENTRIES) in m.mem && |m.mem[TableAt(m.mem, r, 0, v / ENTRIES)]| == ENTRIES
    ensures Lookup(PutLeaf(m.mem, r, v, e), s, u) == if (s, u) != (r, v) then Lookup(m.mem, s, u) else if V(e) then e else 0
  {
    hide TableAt, Placed, EntriesOk, Mapped, FramesOk;
    LeafTable(m, lo, hi, r, v);
    assert IsSpot(0, u / ENTRIES) && IsSpot(0, v / ENTRIES);
    PutLeafTable(m, lo, hi, r, v, e, s, 0, u / ENTRIES);
  }

  /** A frame that can be mapped: outside the allocator, pinned, or held by the caller. */
  ghost predicate Mappable(m: Phys, f: nat) {
    f !in m.mem || (f in m.owner && (m.owner[f] == Pinned || m.owner[f] == Held))
  }

  /** Page `v` now maps frame `f`; a page that was merely held becomes the tree's. */
  ghost function GiveLeaf(m: Phys, r: nat, v: nat, f: nat, perm: nat): Phys
    requires TableAt(m.mem, r, 0, v / ENTRIES) in m.mem && |m.mem[TableAt(m.mem, r, 0, v / ENTRIES)]| == ENTRIES
  {
    Phys(PutLeaf(m.mem, r, v, Pte(f, perm)), m.free,
         if f in m.owner && m.owner[f] == Held then m.owner[f := User(r, v)] else m.owner)
  }

  /** Page `v` maps nothing; a page that was the tree's is held again. */
  ghost function DropLeaf(m: Phys, r: nat, v: nat): Phys
    requires TableAt(m.mem, r, 0, v / ENTRIES) in m.mem && |m.mem[TableAt(m.mem, r, 0, v / ENTRIES)]| == ENTRIES
  {
    var f := Frame(Lookup(m.mem, r, v));
    Phys(PutLeaf(m.mem, r, v, 0), m.free,
         if f in m.owner && m.owner[f] == User(r, v) then m.owner[f := Held] else m.owner)
  }

  /** Only page `v` of tree `r` translates differently: to `e`. */
  ghost predicate SetMaps(m: Phys, m': Phys, r: nat, v: nat, e: nat) {
    && (forall s :: IsRoot(m, s) <==> IsRoot(m', s))
    && forall s: nat, u: nat {:trigger Lookup(m'.mem, s, u)} :: IsRoot(m, s) && u < VPNS ==>
         Lookup(m'.mem, s, u) == if s == r && u == v then e else Lookup(m.mem, s, u)
  }

  lemma PutLeafKeeps(m: Phys, lo: nat, hi: nat, m': Phys, r: nat, v: nat, e: nat)
    requires Exact(m, lo, hi) && HasLeaf(m, r, v) && EntryOk(0, e) && SameTableRoles(m, m') && Pages(m', lo, hi)
    requires TableAt(m.mem, r, 0, v / ENTRIES) in m.mem && |m.mem[TableAt(m.mem, r, 0, v / ENTRIES)]| == ENTRIES
    requires m'.mem == PutLeaf(m.mem, r, v, e)
    ensures Reached(m') && Placed(m') && EntriesOk(m') && SetMaps(m, m', r, v, if V(e) then e else 0)
  {
    hide Lookup, Reached, Placed, EntriesOk, PutLeaf, TableAt, Mapped, FramesOk;
    forall s: nat, l: nat, a: nat | IsRoot(m, s) && IsSpot(l, a) ensures TableAt(m'.mem, s, l, a) == TableAt(m.mem, s, l, a) {
      PutLeafTable(m, lo, hi, r, v, e, s, l, a);
    }
    ReachStays(m, m');
    forall s: nat, u: nat | IsRoot(m, s) && u < VPNS
      ensures Lookup(m'.mem, s, u) == if (s, u) != (r, v) then Lookup(m.mem, s, u) else if V(e) then e else 0
    {
      PutLeafLookup(m, lo, hi, r, v, e, s, u);
    }
    PutLeafEntries(m, lo, hi, m', r, v, e);
  }

  lemma PutLeafEntries(m: Phys, lo: nat, hi: nat, m': Phys, r: nat, v: nat, e: nat)
    requires Exact(m, lo, hi) && HasLeaf(m, r, v) && EntryOk(0, e) && SameTableRoles(m, m') && Pages(m', lo, hi)
    requires TableAt(m.mem, r, 0, v / ENTRIES) in m.mem && |m.mem[TableAt(m.mem, r, 0, v / ENTRIES)]| == ENTRIES
    requires m'.mem == PutLeaf(m.mem, r, v, e)
    ensures EntriesOk(m')
  {
    hide TableAt, Reached, Placed, Mapped, FramesOk, EntryOk;
    LeafTable(m, lo, hi, r, v);
    var t := TableAt(m.mem, r, 0, v / ENTRIES);
    forall x, k: nat | x in m'.owner && m'.owner[x].Table? && k < ENTRIES ensures EntryOk(m'.owner[x].lvl, Entry(m'.mem, x, k)) {
      if x != t || k != v % ENTRIES {
        assert Entry(m'.mem, x, k) == Entry(m.mem, x, k);
      }
    }
  }

  lemma GiveLeafKeeps(m: Phys, lo: nat, hi: nat, r: nat, v: nat, f: nat, perm: nat)
    requires Exact(m, lo, hi) && HasLeaf(m, r, v) && Lookup(m.mem, r, v) == 0
    requires perm < 1024 && Leaf(perm) && Mappable(m, f)
    ensures TableAt(m.mem, r, 0, v / ENTRIES) in m.mem && |m.mem[TableAt(m.mem, r, 0, v / ENTRIES)]| == ENTRIES
    ensures Exact(GiveLeaf(m, r, v, f, perm), lo, hi) && SetMaps(m, GiveLeaf(m, r, v, f, perm), r, v, Pte(f, perm))
  {
    hide Lookup, Reached, Placed, EntriesOk, Mapped, FramesOk, TableAt, SetMaps;
    LeafTable(m, lo, hi, r, v);
    PteParts(f, perm);
    var m' := GiveLeaf(m, r, v, f, perm);
    GivePages(m, lo, hi, r, v, f, perm);
    PutLeafKeeps(m, lo, hi, m', r, v, Pte(f, perm));
    GiveData(m, m', r, v, f, Pte(f, perm));
  }

  lemma GivePages(m: Phys, lo: nat, hi: nat, r: nat, v: nat, f: nat, perm: nat)
    requires Exact(m, lo, hi) && HasLeaf(m, r, v)
    requires TableAt(m.mem, r, 0, v / ENTRIES) in m.mem && |m.mem[TableAt(m.mem, r, 0, v / ENTRIES)]| == ENTRIES
    ensures Pages(GiveLeaf(m, r, v, f, perm), lo, hi)
    ensures SameTableRoles(m, GiveLeaf(m, r, v, f, perm))
  {
    hide Lookup, Trees, TableAt;
    SamePages(m, GiveLeaf(m, r, v, f, perm), lo, hi);
  }

  lemma DropPages(m: Phys, lo: nat, hi: nat, r: nat, v: nat)
    requires Exact(m, lo, hi) && HasLeaf(m, r, v)
    requires TableAt(m.mem, r, 0, v / ENTRIES) in m.mem && |m.mem[TableAt(m.mem, r, 0, v / ENTRIES)]| == ENTRIES
    ensures Pages(DropLeaf(m, r, v), lo, hi)
    ensures SameTableRoles(m, DropLeaf(m, r, v))
  {
    hide Lookup, Trees, TableAt;
    SamePages(m, DropLeaf(m, r, v), lo, hi);
  }

  lemma SamePages(m: Phys, m': Phys, lo: nat, hi: nat)
    requires Pages(m, lo, hi) && m'.free == m.free && m'.owner.Keys == m.owner.Keys && m'.mem.Keys == m.mem.Keys
    requires forall p :: p in m'.mem ==> |m'.mem[p]| == ENTRIES
    ensures Pages(m', lo, hi)
  {
    assert forall p :: p in m'.owner <==> p in m'.owner.Keys;
    assert forall p :: p in m'.mem <==> p in m'.mem.Keys;
  }

  lemma GiveData(m: Phys, m': Phys, r: nat, v: nat, f: nat, e: nat)
    requires Mapped(m) && FramesOk(m) && SetMaps(m, m', r, v, e) && IsRoot(m, r) && v < VPNS && Lookup(m.mem, r, v) == 0
    requires (forall p: nat :: p in m.mem <==> p in m'.mem) && e != 0 && Frame(e) == f && Mappable(m, f)
    requires m'.owner == if f in m.owner && m.owner[f] == Held then m.owner[f := User(r, v)] else m.owner
    ensures Mapped(m') && FramesOk(m')
  {
    hide Lookup;
    forall s: nat, u: nat | IsRoot(m', s) && u < VPNS && Lookup(m'.mem, s, u) != 0 ensures FrameOk(m', s, u, Frame(Lookup(m'.mem, s, u))) {
      if s != r || u != v {
        assert FrameOk(m, s, u, Frame(Lookup(m.mem, s, u)));
      }
    }
  }

  lemma DropLeafKeeps(m: Phys, lo: nat, hi: nat, r: nat, v: nat)
    requires Exact(m, lo, hi) && HasLeaf(m, r, v) && Lookup(m.mem, r, v) != 0
    ensures TableAt(m.mem, r, 0, v / ENTRIES) in m.mem && |m.mem[TableAt(m.mem, r, 0, v / ENTRIES)]| == ENTRIES
    ensures Exact(DropLeaf(m, r, v), lo, hi) && SetMaps(m, DropLeaf(m, r, v), r, v, 0)
  {
    hide Lookup, Reached, Placed, EntriesOk, Mapped, FramesOk, TableAt, SetMaps;
    LeafTable(m, lo, hi, r, v);
    var m' := DropLeaf(m, r, v);
    DropPages(m, lo, hi, r, v);
    PutLeafKeeps(m, lo, hi, m', r, v, 0);
    DropData(m, m', r, v);
  }

  lemma DropData(m: Phys, m': Phys, r: nat, v: nat)
    requires Mapped(m) && FramesOk(m) && SetMaps(m, m', r, v, 0) && IsRoot(m, r) && v < VPNS && Lookup(m.mem, r, v) != 0
    requires forall p: nat :: p in m.mem <==> p in m'.mem
    requires
      var f := Frame(Lookup(m.mem, r, v));
      m'.owner == if f in m.owner && m.owner[f] == User(r, v) then m.owner[f := Held] else m.owner
    ensures Mapped(m') && FramesOk(m')
  {
    hide Lookup;
    forall s: nat, u: nat | IsRoot(m', s) && u < VPNS && Lookup(m'.mem, s, u) != 0 ensures FrameOk(m', s, u, Frame(Lookup(m'.mem, s, u))) {
      assert FrameOk(m, s, u, Frame(Lookup(m.mem, s, u)));
    }
  }
}
