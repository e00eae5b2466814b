/**
 Tearing page tables down: what freewalk needs of the tables below a page, and what
 is left when a whole tree has been given back.
 */
module VmFree {
  import opened VmImage
  import opened VmMaps

  /** The spot `k` levels above spot `b`. */
  function Up(b: nat, k: nat): nat {
    if k == 0 then b else Up(b, k - 1) / ENTRIES
  }

  /** The role of a table at or below spot `a` of level `l`. */
  predicate Under(x: Role, r: nat, l: nat, a: nat) {
    x.Table? && x.root == r && x.lvl <= l && Up(x.at, l - x.lvl) == a
  }

  /** Strictly below it, and through which entry. */
  predicate Below(x: Role, r: nat, l: nat, a: nat) {
    Under(x, r, l, a) && x.lvl < l
  }

  function Through(x: Role, l: nat): nat
    requires x.Table? && x.lvl < l
  {
    Up(x.at, l - 1 - x.lvl) % ENTRIES
  }

  lemma BelowIsUnderChild(x: Role, r: nat, l: nat, a: nat)
    requires Below(x, r, l, a)
    ensures Under(x, r, l - 1, a * ENTRIES + Through(x, l))
  {
  }

  lemma UnderChildIsBelow(x: Role, r: nat, l: nat, a: nat, j: nat)
    requires l > 0 && j < ENTRIES && Under(x, r, l - 1, a * ENTRIES + j)
    ensures Below(x, r, l, a) && Through(x, l) == j
  {
  }

  /**
   Page `t` and everything below it are the tables of tree `r` at and below spot `a`
   of level `l`, all of them, and there are no leaves.
   */
  ghost predicate Sub(mem: Mem, owner: map<nat, Role>, t: nat, r: nat, l: nat, a: nat)
    decreases l
  {
    && t in owner && owner[t] == Table(r, l, a) && t in mem && |mem[t]| == ENTRIES
    && (forall j: nat {:trigger mem[t][j]} :: j < ENTRIES && V(mem[t][j]) ==>
          l > 0 && !Leaf(mem[t][j]) && Sub(mem, owner, Frame(mem[t][j]), r, l - 1, a * ENTRIES + j))
    && (forall p :: p in owner && Under(owner[p], r, l, a) && p != t ==>
          Below(owner[p], r, l, a) && V(mem[t][Through(owner[p], l)]))
  }

  /** Pages under the spot are as they were and no other page is added. */
  ghost predicate Untouched(mem: Mem, owner: map<nat, Role>, mem': Mem, owner': map<nat, Role>, r: nat, l: nat, a: nat) {
    && (forall p :: p in owner' ==> p in owner && owner'[p] == owner[p])
    && (forall p :: p in owner && Under(owner[p], r, l, a) ==> p in owner' && p in mem && p in mem' && mem'[p] == mem[p])
  }

  lemma {:induction false} SubStays(mem: Mem, owner: map<nat, Role>, mem': Mem, owner': map<nat, Role>, t: nat, r: nat, l: nat, a: nat)
    requires Sub(mem, owner, t, r, l, a) && Untouched(mem, owner, mem', owner', r, l, a)
    ensures Sub(mem', owner', t, r, l, a)
    decreases l
  {
    assert Under(owner[t], r, l, a);
    forall j: nat | j < ENTRIES && V(mem'[t][j])
      ensures l > 0 && !Leaf(mem'[t][j]) && Sub(mem', owner', Frame(mem'[t][j]), r, l - 1, a * ENTRIES + j)
    {
      assert mem'[t][j] == mem[t][j];
      forall p | p in owner && Under(owner[p], r, l - 1, a * ENTRIES + j) ensures Under(owner[p], r, l, a) {
        UnderChildIsBelow(owner[p], r, l, a, j);
      }
      SubStays(mem, owner, mem', owner', Frame(mem[t][j]), r, l - 1, a * ENTRIES + j);
    }
  }

  /** Exactly the tables under a spot are no longer owned; the pages still owned were not written. */
  ghost predicate Released(m: Phys, m': Phys, r: nat, l: nat, a: nat) {
    && (forall p :: p in m'.owner <==> p in m.owner && !Under(m.owner[p], r, l, a))
    && (forall p :: p in m'.owner && p in m.owner ==> m'.owner[p] == m.owner[p])
    && (forall p :: p in m'.owner && p in m.mem ==> p in m'.mem && m'.mem[p] == m.mem[p])
  }

  /** freewalk's loop after the first `i` entries of page `t`. */
  ghost predicate Cleared(m0: Phys, m: Phys, t: nat, r: nat, l: nat, a: nat, i: nat) {
    && (forall p :: p in m.owner <==> p in m0.owner && !(Below(m0.owner[p], r, l, a) && Through(m0.owner[p], l) < i))
    && (forall p :: p in m.owner && p in m0.owner ==> m.owner[p] == m0.owner[p])
    && (forall p :: p in m.owner && p in m0.mem && p != t ==> p in m.mem && m.mem[p] == m0.mem[p])
    && t in m.mem && t in m0.mem && |m.mem[t]| == |m0.mem[t]| == ENTRIES
    && (forall j: nat {:trigger m.mem[t][j]} :: j < i && j < ENTRIES ==> !V(m.mem[t][j]))
    && (forall j: nat {:trigger m.mem[t][j]} :: i <= j < ENTRIES ==> m.mem[t][j] == m0.mem[t][j])
  }

  lemma SubChild(mem: Mem, owner: map<nat, Role>, t: nat, r: nat, l: nat, a: nat, i: nat)
    requires Sub(mem, owner, t, r, l, a) && i < ENTRIES && V(mem[t][i])
    ensures l > 0 && !Leaf(mem[t][i]) && Sub(mem, owner, Frame(mem[t][i]), r, l - 1, a * ENTRIES + i)
  {
  }

  lemma ClearedUnder(m0: Phys, m: Phys, t: nat, r: nat, l: nat, a: nat, i: nat, p: nat)
    requires Cleared(m0, m, t, r, l, a, i) && l > 0 && i < ENTRIES && t in m0.owner && m0.owner[t] == Table(r, l, a)
    requires p in m0.owner && p in m0.mem && Under(m0.owner[p], r, l - 1, a * ENTRIES + i)
    ensures p in m.owner && p in m.mem && m.mem[p] == m0.mem[p] && m.owner[p] == m0.owner[p]
  {
    UnderChildIsBelow(m0.owner[p], r, l, a, i);
  }

  /** The next child is still as it was when freewalk started. */
  lemma ClearedChild(m0: Phys, m: Phys, t: nat, r: nat, l: nat, a: nat, i: nat)
    requires Sub(m0.mem, m0.owner, t, r, l, a) && Cleared(m0, m, t, r, l, a, i) && i < ENTRIES && V(m.mem[t][i])
    requires forall p :: p in m0.owner ==> p in m0.mem
    ensures l > 0 && !Leaf(m.mem[t][i]) && Sub(m.mem, m.owner, Frame(m.mem[t][i]), r, l - 1, a * ENTRIES + i)
  {
    hide Under, Below, Through, V, Leaf, Frame;
    assert m.mem[t][i] == m0.mem[t][i];
    SubChild(m0.mem, m0.owner, t, r, l, a, i);
    forall p | p in m0.owner && Under(m0.owner[p], r, l - 1, a * ENTRIES + i)
      ensures p in m.owner && p in m0.mem && p in m.mem && m.mem[p] == m0.mem[p]
    {
      ClearedUnder(m0, m, t, r, l, a, i, p);
    }
    hide Sub, Cleared;
    SubStays(m0.mem, m0.owner, m.mem, m.owner, Frame(m.mem[t][i]), r, l - 1, a * ENTRIES + i);
  }

  lemma SubRoot(mem: Mem, owner: map<nat, Role>, t: nat, r: nat, l: nat, a: nat)
    requires Sub(mem, owner, t, r, l, a)
    ensures t in owner && owner[t] == Table(r, l, a) && t in mem && |mem[t]| == ENTRIES
  {
  }

  /** What is below a table is below a valid entry of it. */
  lemma SubBelow(mem: Mem, owner: map<nat, Role>, t: nat, r: nat, l: nat, a: nat, p: nat)
    requires Sub(mem, owner, t, r, l, a) && p in owner && Below(owner[p], r, l, a)
    ensures t in mem && |mem[t]| == ENTRIES && V(mem[t][Through(owner[p], l)])
  {
  }

  /** After the child has been released and the entry cleared, one more entry is done. */
  lemma ClearedMore(m0: Phys, m1: Phys, m2: Phys, m: Phys, t: nat, r: nat, l: nat, a: nat, i: nat)
    requires Sub(m0.mem, m0.owner, t, r, l, a) && Cleared(m0, m1, t, r, l, a, i) && i < ENTRIES && l > 0
    requires Released(m1, m2, r, l - 1, a * ENTRIES + i) && forall p :: p in m0.owner ==> p in m0.mem
    requires t in m2.mem && |m2.mem[t]| == ENTRIES && m == Phys(m2.mem[t := Put(m2.mem[t], i, 0)], m2.free, m2.owner)
    ensures Cleared(m0, m, t, r, l, a, i + 1)
  {
    hide Sub;
    SubRoot(m0.mem, m0.owner, t, r, l, a);
    assert t in m2.owner;
    assert m2.mem[t] == m1.mem[t];
    forall p | p in m0.owner
      ensures p in m.owner <==> !(Below(m0.owner[p], r, l, a) && Through(m0.owner[p], l) < i + 1)
    {
      if Below(m0.owner[p], r, l, a) {
        BelowIsUnderChild(m0.owner[p], r, l, a);
      }
      if Under(m0.owner[p], r, l - 1, a * ENTRIES + i) {
        UnderChildIsBelow(m0.owner[p], r, l, a, i);
      }
    }
  }

  /** An entry that is not valid has nothing below it. */
  lemma ClearedSkip(m0: Phys, m: Phys, t: nat, r: nat, l: nat, a: nat, i: nat)
    requires Sub(m0.mem, m0.owner, t, r, l, a) && Cleared(m0, m, t, r, l, a, i) && i < ENTRIES && !V(m.mem[t][i])
    ensures Cleared(m0, m, t, r, l, a, i + 1)
  {
    hide Sub, Up, V;
    assert m.mem[t][i] == m0.mem[t][i];
    forall p | p in m0.owner && Below(m0.owner[p], r, l, a) ensures Through(m0.owner[p], l) != i {
      SubBelow(m0.mem, m0.owner, t, r, l, a, p);
    }
  }

  /** With every entry cleared only the page itself is left. */
  lemma ClearedAll(m0: Phys, m: Phys, t: nat, r: nat, l: nat, a: nat, x: seq<nat>)
    requires Sub(m0.mem, m0.owner, t, r, l, a) && Cleared(m0, m, t, r, l, a, ENTRIES)
    ensures t in m.owner && Released(m0, Freed(m, t, x), r, l, a)
  {
    assert Under(m0.owner[t], r, l, a);
  }

  // ---- a whole tree ----

  /** Tree `r` maps nothing. */
  ghost predicate Bare(m: Phys, r: nat) {
    IsRoot(m, r) && forall u: nat {:trigger Lookup(m.mem, r, u)} :: u < VPNS ==> Lookup(m.mem, r, u) == 0
  }

  /** A table is reached through a valid entry of every table above it. */
  lemma {:induction false} ReachedThrough(mem: Mem, r: nat, l: nat, b: nat, k: nat)
    requires l + k < 2 && 0 !in mem && TableAt(mem, r, l, b) != 0
    ensures TableAt(mem, r, l + k + 1, Up(b, k + 1)) != 0
    ensures V(Entry(mem, TableAt(mem, r, l + k + 1, Up(b, k + 1)), Up(b, k) % ENTRIES))
  {
    if k > 0 {
      ReachedThrough(mem, r, l, b, k - 1);
    }
    assert TableAt(mem, r, l + k, Up(b, k)) == Child(mem, TableAt(mem, r, l + k + 1, Up(b, k + 1)), Up(b, k) % ENTRIES);
  }

  /** In a tree without leaves a valid entry points to a table. */
  lemma BareEntry(m: Phys, lo: nat, hi: nat, r: nat, l: nat, a: nat, j: nat)
    requires Exact(m, lo, hi) && Bare(m, r) && IsSpot(l, a) && TableAt(m.mem, r, l, a) != 0
    requires j < ENTRIES && V(Entry(m.mem, TableAt(m.mem, r, l, a), j))
    ensures
      var e := Entry(m.mem, TableAt(m.mem, r, l, a), j);
      l > 0 && !Leaf(e) && IsSpot(l - 1, a * ENTRIES + j) && TableAt(m.mem, r, l - 1, a * ENTRIES + j) == Frame(e) != 0
  {
    hide TableAt;
    TableOwned(m, lo, hi, r, l, a);
    assert EntryOk(l, Entry(m.mem, TableAt(m.mem, r, l, a), j));
    if l == 0 {
      LeafLookup(m, r, a, j);
    } else {
      ChildSpot(m, r, l, a, j);
    }
  }

  lemma {:induction false} BareSub(m: Phys, lo: nat, hi: nat, r: nat, l: nat, a: nat)
    requires Exact(m, lo, hi) && Bare(m, r) && IsSpot(l, a) && TableAt(m.mem, r, l, a) != 0
    ensures Sub(m.mem, m.owner, TableAt(m.mem, r, l, a), r, l, a)
    decreases l
  {
    hide TableAt, V, Leaf, Frame, Trees, Pages;
    var t := TableAt(m.mem, r, l, a);
    TableOwned(m, lo, hi, r, l, a);
    forall j: nat | j < ENTRIES && V(m.mem[t][j])
      ensures l > 0 && !Leaf(m.mem[t][j]) && Sub(m.mem, m.owner, Frame(m.mem[t][j]), r, l - 1, a * ENTRIES + j)
    {
      BareEntry(m, lo, hi, r, l, a, j);
      BareSub(m, lo, hi, r, l - 1, a * ENTRIES + j);
    }
    forall p | p in m.owner && Under(m.owner[p], r, l, a) && p != t
      ensures Below(m.owner[p], r, l, a) && V(m.mem[t][Through(m.owner[p], l)])
    {
      BelowThrough(m, lo, hi, r, l, a, p);
    }
  }

  lemma LeafLookup(m: Phys, r: nat, a: nat, j: nat)
    requires IsSpot(0, a) && j < ENTRIES && V(Entry(m.mem, TableAt(m.mem, r, 0, a), j))
    ensures a * ENTRIES + j < VPNS && Lookup(m.mem, r, a * ENTRIES + j) != 0
  {
    hide TableAt;
    assert (a * ENTRIES + j) / ENTRIES == a && (a * ENTRIES + j) % ENTRIES == j;
  }

  lemma ChildSpot(m: Phys, r: nat, l: nat, a: nat, j: nat)
    requires 0 < l && IsSpot(l, a) && j < ENTRIES && V(Entry(m.mem, TableAt(m.mem, r, l, a), j))
    ensures IsSpot(l - 1, a * ENTRIES + j)
    ensures TableAt(m.mem, r, l - 1, a * ENTRIES + j) == Frame(Entry(m.mem, TableAt(m.mem, r, l, a), j))
  {
  }

  lemma BelowThrough(m: Phys, lo: nat, hi: nat, r: nat, l: nat, a: nat, p: nat)
    requires Exact(m, lo, hi) && IsRoot(m, r) && IsSpot(l, a) && TableAt(m.mem, r, l, a) != 0
    requires p in m.owner && Under(m.owner[p], r, l, a) && p != TableAt(m.mem, r, l, a)
    ensures Below(m.owner[p], r, l, a) && V(Entry(m.mem, TableAt(m.mem, r, l, a), Through(m.owner[p], l)))
  {
    hide TableAt;
    var x := m.owner[p];
    if x.lvl < l {
      ReachedThrough(m.mem, r, x.lvl, x.at, l - 1 - x.lvl);
    }
  }

  ghost predicate OfTree(x: Role, r: nat) {
    (x.Table? || x.User?) && x.root == r
  }

  /**
   Tree `r` is gone: exactly its pages, tables and data, are no longer owned; nothing
   else was written but tables, and the other trees translate as before.
   */
  ghost predicate Gone(m: Phys, m': Phys, r: nat) {
    && (forall p :: p in m'.owner <==> p in m.owner && !OfTree(m.owner[p], r))
    && (forall p :: p in m'.owner && p in m.owner ==> m'.owner[p] == m.owner[p])
    && (forall p :: p in m'.owner && !m'.owner[p].Table? && p in m.mem ==> p in m'.mem && m'.mem[p] == m.mem[p])
    && (forall s: nat, u: nat {:trigger Lookup(m'.mem, s, u)} :: s != r && IsRoot(m, s) && u < VPNS ==>
          Lookup(m'.mem, s, u) == Lookup(m.mem, s, u))
  }

  /** Every table of a tree is under its root, and a bare tree owns no data page. */
  lemma BareOwns(m: Phys, lo: nat, hi: nat, r: nat)
    requires Exact(m, lo, hi) && Bare(m, r)
    ensures forall p :: p in m.owner ==> (OfTree(m.owner[p], r) <==> Under(m.owner[p], r, 2, 0))
  {
    hide TableAt, Lookup;
    forall p | p in m.owner ensures OfTree(m.owner[p], r) <==> Under(m.owner[p], r, 2, 0) {
      if m.owner[p].Table? && m.owner[p].root == r {
        SpotUp(m.owner[p].lvl, m.owner[p].at);
      }
    }
  }

  lemma SpotUp(l: nat, a: nat)
    requires IsSpot(l, a)
    ensures Up(a, 2 - l) == 0
  {
    if l == 0 {
      assert Up(a, 2) == Up(a, 1) / ENTRIES && Up(a, 1) == Up(a, 0) / ENTRIES;
    } else if l == 1 {
      assert Up(a, 1) == Up(a, 0) / ENTRIES;
    }
  }

  lemma TreeGone(m: Phys, m': Phys, lo: nat, hi: nat, r: nat)
    requires Exact(m, lo, hi) && Bare(m, r) && Pages(m', lo, hi) && Released(m, m', r, 2, 0)
    ensures Exact(m', lo, hi) && Gone(m, m', r)
  {
    hide TableAt, Lookup, Reached, Placed, EntriesOk, Mapped, FramesOk, Under;
    BareOwns(m, lo, hi, r);
    forall s: nat | s != r && IsRoot(m, s) ensures SameTree(m, m'.mem, s) {
    }
    forall s: nat, l: nat, a: nat | s != r && IsRoot(m, s) && IsSpot(l, a) ensures TableAt(m'.mem, s, l, a) == TableAt(m.mem, s, l, a) {
      TableStays(m, lo, hi, m'.mem, s, l, a);
    }
    forall s: nat, u: nat | s != r && IsRoot(m, s) && u < VPNS ensures Lookup(m'.mem, s, u) == Lookup(m.mem, s, u) {
      LookupStays(m, lo, hi, m'.mem, s, u);
    }
    GoneReach(m, m', r);
    GoneData(m, m', lo, hi, r);
  }

  lemma GoneReach(m: Phys, m': Phys, r: nat)
    requires Reached(m) && Placed(m) && EntriesOk(m) && forall p :: p in m.owner ==> p in m.mem
    requires forall p :: p in m'.owner <==> p in m.owner && !OfTree(m.owner[p], r)
    requires forall p :: p in m'.owner && p in m.owner ==> m'.owner[p] == m.owner[p]
    requires forall p :: p in m'.owner && p in m.mem ==> p in m'.mem && m'.mem[p] == m.mem[p]
    requires forall s: nat, l: nat, a: nat :: s != r && IsRoot(m, s) && IsSpot(l, a) ==> TableAt(m'.mem, s, l, a) == TableAt(m.mem, s, l, a)
    ensures Reached(m') && Placed(m') && EntriesOk(m')
  {
    hide TableAt;
    assert forall s :: IsRoot(m', s) <==> IsRoot(m, s) && s != r;
    forall p, j: nat | p in m'.owner && m'.owner[p].Table? && j < ENTRIES ensures EntryOk(m'.owner[p].lvl, Entry(m'.mem, p, j)) {
      assert Entry(m'.mem, p, j) == Entry(m.mem, p, j);
    }
  }

  lemma GoneData(m: Phys, m': Phys, lo: nat, hi: nat, r: nat)
    requires Mapped(m) && FramesOk(m) && Pages(m, lo, hi) && Pages(m', lo, hi)
    requires forall p :: p in m'.owner <==> p in m.owner && !OfTree(m.owner[p], r)
    requires forall p :: p in m'.owner && p in m.owner ==> m'.owner[p] == m.owner[p]
    requires forall s: nat, u: nat :: s != r && IsRoot(m, s) && u < VPNS ==> Lookup(m'.mem, s, u) == Lookup(m.mem, s, u)
    ensures Mapped(m') && FramesOk(m')
  {
    hide Lookup;
    assert forall s :: IsRoot(m', s) <==> IsRoot(m, s) && s != r;
    forall s: nat, u: nat | IsRoot(m', s) && u < VPNS && Lookup(m'.mem, s, u) != 0 ensures FrameOk(m', s, u, Frame(Lookup(m'.mem, s, u))) {
      assert FrameOk(m, s, u, Frame(Lookup(m.mem, s, u)));
    }
  }

  /** Unmapping a tree's pages and then releasing the bare tree. */
  lemma UnmappedThenGone(m0: Phys, m1: Phys, m: Phys, r: nat, v: nat, n: nat)
    requires Unmapped(m0, m1, r, v, n) && Gone(m1, m, r)
    ensures Gone(m0, m, r)
  {
    hide Lookup;
    forall s: nat, u: nat | s != r && IsRoot(m0, s) && u < VPNS ensures Lookup(m.mem, s, u) == Lookup(m0.mem, s, u) {
      assert Lookup(m1.mem, s, u) == Lookup(m0.mem, s, u);
    }
  }

  // ---- a new tree ----

  ghost function NewTree(m: Phys, q: nat): Phys {
    Phys(m.mem[q := Zeros()], m.free, m.owner[q := Table(q, 2, 0)])
  }

  /** A zeroed page becomes the root of a bare tree. */
  lemma NewTreeKeeps(m: Phys, lo: nat, hi: nat, q: nat)
    requires Exact(m, lo, hi) && q in m.owner && m.owner[q] == Held
    ensures Exact(NewTree(m, q), lo, hi) && Bare(NewTree(m, q), q)
    ensures SameMaps(m, NewTree(m, q))
  {
    hide Lookup, Reached, Placed, EntriesOk, Mapped, FramesOk, TableAt, Bare;
    var m' := NewTree(m, q);
    TablesStay(m, lo, hi, m'.mem);
    NewTables(m'.mem, q);
    SamePages(m, m', lo, hi);
    NewReach(m, m', lo, hi, q);
    NewData(m, m', lo, hi, q);
  }

  lemma NewTables(mem': Mem, q: nat)
    requires 0 !in mem' && q in mem' && mem'[q] == Zeros()
    ensures forall l: nat, a: nat :: IsSpot(l, a) ==> TableAt(mem', q, l, a) == if l == 2 then q else 0
    ensures forall u: nat :: u < VPNS ==> Lookup(mem', q, u) == 0
  {
    assert forall a: nat :: a < ENTRIES ==> TableAt(mem', q, 1, a) == 0;
    assert forall a: nat :: a < ENTRIES * ENTRIES ==> TableAt(mem', q, 0, a) == 0;
    forall u: nat | u < VPNS ensures Lookup(mem', q, u) == 0 {
      assert TableAt(mem', q, 0, u / ENTRIES) == 0;
    }
  }

  lemma NewReach(m: Phys, m': Phys, lo: nat, hi: nat, q: nat)
    requires Exact(m, lo, hi) && q in m.owner && m.owner[q] == Held && m' == NewTree(m, q)
    requires forall s: nat, l: nat, a: nat :: IsRoot(m, s) && IsSpot(l, a) ==> TableAt(m'.mem, s, l, a) == TableAt(m.mem, s, l, a)
    requires forall l: nat, a: nat :: IsSpot(l, a) ==> TableAt(m'.mem, q, l, a) == if l == 2 then q else 0
    ensures Reached(m') && Placed(m') && EntriesOk(m')
  {
    hide TableAt, Mapped, FramesOk;
    assert forall s :: IsRoot(m', s) <==> IsRoot(m, s) || s == q;
    forall p, j: nat | p in m'.owner && m'.owner[p].Table? && j < ENTRIES ensures EntryOk(m'.owner[p].lvl, Entry(m'.mem, p, j)) {
      if p != q {
        assert Entry(m'.mem, p, j) == Entry(m.mem, p, j);
      }
    }
  }

  lemma NewData(m: Phys, m': Phys, lo: nat, hi: nat, q: nat)
    requires Mapped(m) && FramesOk(m) && Pages(m, lo, hi) && q in m.owner && m.owner[q] == Held && m' == NewTree(m, q)
    requires forall s: nat, u: nat :: IsRoot(m, s) && u < VPNS ==> Lookup(m'.mem, s, u) == Lookup(m.mem, s, u)
    requires forall u: nat :: u < VPNS ==> Lookup(m'.mem, q, u) == 0
    ensures Mapped(m') && FramesOk(m') && Bare(m', q)
  {
    hide Lookup;
    assert forall s :: IsRoot(m', s) <==> IsRoot(m, s) || s == q;
    forall s: nat, u: nat | IsRoot(m', s) && u < VPNS && Lookup(m'.mem, s, u) != 0 ensures FrameOk(m', s, u, Frame(Lookup(m'.mem, s, u))) {
      assert FrameOk(m, s, u, Frame(Lookup(m.mem, s, u)));
    }
  }
}
