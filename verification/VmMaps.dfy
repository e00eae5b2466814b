/**
 What ranges of mapping and unmapping do, as relations between images that compose
 step by step: the loops of mappages, uvmalloc, uvmcopy and uvmunmap are proved
 one page at a time against them.
 */
module VmMaps {
  import opened VmImage

  /**
   From `m0` to `m`, tree `r` gained the entries `es` at pages `v`, `v + 1`, ... and no
   other translation changed.  New owned pages are tables of `r` and the data pages
   just mapped; no page owned before was freed, and none but tables was written.
   */
  ghost predicate Extended(m0: Phys, m: Phys, r: nat, v: nat, es: seq<nat>) {
    && (forall s :: IsRoot(m0, s) <==> IsRoot(m, s))
    && (forall s: nat, u: nat {:trigger Lookup(m.mem, s, u)} :: IsRoot(m0, s) && u < VPNS ==>
          Lookup(m.mem, s, u) == if s == r && v <= u < v + |es| then es[u - v] else Lookup(m0.mem, s, u))
    && (forall p :: p in m0.owner ==> p in m.owner && (m.owner[p] == m0.owner[p] || (m0.owner[p] == Held && NewUser(m, r, v, es, p))))
    && (forall p :: p in m.owner ==> p in m0.owner || (m.owner[p].Table? && m.owner[p].root == r) || NewUser(m, r, v, es, p))
    && (forall p :: p in m0.owner && !m0.owner[p].Table? && p in m0.mem ==> p in m.mem && m.mem[p] == m0.mem[p])
  }

  ghost predicate NewUser(m: Phys, r: nat, v: nat, es: seq<nat>, p: nat)
    requires p in m.owner
  {
    m.owner[p].User? && m.owner[p].root == r && v <= m.owner[p].vpn < v + |es|
  }

  /** Nothing but tables was added. */
  ghost predicate Grew(m0: Phys, m: Phys, r: nat) {
    Extended(m0, m, r, 0, [])
  }

  lemma GrewNothing(m: Phys, r: nat)
    ensures Grew(m, m, r)
  {
  }

  lemma GrewAnywhere(m0: Phys, m: Phys, r: nat, v: nat, v': nat)
    requires Extended(m0, m, r, v, [])
    ensures Extended(m0, m, r, v', [])
  {
    hide Lookup;
  }

  /** Entries gained one after the other. */
  lemma ExtendedMore(m0: Phys, m1: Phys, m: Phys, r: nat, v: nat, es: seq<nat>, fs: seq<nat>)
    requires Extended(m0, m1, r, v, es) && Extended(m1, m, r, v + |es|, fs)
    requires forall p :: p in m0.owner ==> p in m0.mem
    ensures Extended(m0, m, r, v, es + fs)
  {
    hide Lookup;
    forall s: nat, u: nat | IsRoot(m0, s) && u < VPNS
      ensures Lookup(m.mem, s, u) == if s == r && v <= u < v + |es + fs| then (es + fs)[u - v] else Lookup(m0.mem, s, u)
    {
      assert Lookup(m1.mem, s, u) == if s == r && v <= u < v + |es| then es[u - v] else Lookup(m0.mem, s, u);
    }
  }

  /**
   A page `p` is taken from the free list and filled, and is then the only page that
   the next entry maps.
   */
  lemma ExtendedFresh(m0: Phys, m1: Phys, m2: Phys, m: Phys, r: nat, v: nat, es: seq<nat>, x: seq<nat>, e: nat)
    requires Extended(m0, m1, r, v, es) && m1.free != [] && m2 == Taken(m1, x) && SameMaps(m1, m2)
    requires m1.free[0] !in m1.owner && forall p :: p in m0.owner ==> p in m0.mem
    requires Extended(m2, m, r, v + |es|, [e]) && m1.free[0] in m.owner && m.owner[m1.free[0]] == User(r, v + |es|)
    ensures Extended(m0, m, r, v, es + [e])
    ensures m1.free[0] in m.mem && m.mem[m1.free[0]] == x
  {
    hide Lookup;
    forall s: nat, u: nat | IsRoot(m0, s) && u < VPNS
      ensures Lookup(m.mem, s, u) == if s == r && v <= u < v + |es + [e]| then (es + [e])[u - v] else Lookup(m0.mem, s, u)
    {
      assert Lookup(m2.mem, s, u) == Lookup(m1.mem, s, u);
    }
  }

  /** A page that was taken, could not be mapped and was given back. */
  lemma TakenGivenBack(m1: Phys, m2: Phys, m3: Phys, m: Phys, r: nat, v: nat, x: seq<nat>, y: seq<nat>)
    requires m1.free != [] && m2 == Taken(m1, x) && SameMaps(m1, m2)
    requires m1.free[0] !in m1.owner && forall p :: p in m1.owner ==> p in m1.mem
    requires Extended(m2, m3, r, v, []) && m == Freed(m3, m1.free[0], y) && SameMaps(m3, m)
    ensures Extended(m1, m, r, v, [])
  {
    hide Lookup;
    var q := m1.free[0];
    assert forall p :: p in m1.owner ==> p in m3.owner && m3.owner[p] == m1.owner[p];
    forall s: nat ensures IsRoot(m, s) <==> IsRoot(m1, s) {
      assert IsRoot(m3, s) <==> IsRoot(m2, s);
    }
    forall s: nat, u: nat | IsRoot(m1, s) && u < VPNS ensures Lookup(m.mem, s, u) == Lookup(m1.mem, s, u) {
      assert Lookup(m2.mem, s, u) == Lookup(m1.mem, s, u);
      assert Lookup(m3.mem, s, u) == Lookup(m2.mem, s, u);
    }
  }

  /**
   From `m0` to `m`, tree `r` lost its translations of the `n` pages from `v` and no
   other translation changed; exactly its data pages among them are no longer owned.
   */
  ghost predicate Unmapped(m0: Phys, m: Phys, r: nat, v: nat, n: nat) {
    && (forall s :: IsRoot(m0, s) <==> IsRoot(m, s))
    && (forall s: nat, u: nat {:trigger Lookup(m.mem, s, u)} :: IsRoot(m0, s) && u < VPNS ==>
          Lookup(m.mem, s, u) == if s == r && v <= u < v + n then 0 else Lookup(m0.mem, s, u))
    && (forall p :: p in m.owner <==> p in m0.owner && !Lost(m0.owner[p], r, v, n))
    && (forall p :: p in m.owner && p in m0.owner ==> m.owner[p] == m0.owner[p])
    && (forall p :: p in m.owner && !m.owner[p].Table? && p in m0.mem ==> p in m.mem && m.mem[p] == m0.mem[p])
  }

  predicate Lost(x: Role, r: nat, v: nat, n: nat) {
    x.User? && x.root == r && v <= x.vpn < v + n
  }

  lemma UnmappedNothing(m: Phys, r: nat, v: nat)
    ensures Unmapped(m, m, r, v, 0)
  {
  }

  lemma UnmappedMore(m0: Phys, m1: Phys, m: Phys, r: nat, v: nat, n: nat)
    requires Unmapped(m0, m1, r, v, n) && Unmapped(m1, m, r, v + n, 1)
    ensures Unmapped(m0, m, r, v, n + 1)
  {
    hide Lookup;
    forall s: nat, u: nat | IsRoot(m0, s) && u < VPNS
      ensures Lookup(m.mem, s, u) == if s == r && v <= u < v + n + 1 then 0 else Lookup(m0.mem, s, u)
    {
      assert Lookup(m1.mem, s, u) == if s == r && v <= u < v + n then 0 else Lookup(m0.mem, s, u);
    }
  }

  /** Undoing what was added leaves only the tables that were added on the way. */
  lemma ExtendedUndone(m0: Phys, m1: Phys, m: Phys, r: nat, v: nat, es: seq<nat>)
    requires Extended(m0, m1, r, v, es) && Unmapped(m1, m, r, v, |es|) && IsRoot(m0, r) && Mapped(m0)
    requires v + |es| <= VPNS && forall u: nat :: v <= u < v + |es| ==> Lookup(m0.mem, r, u) == 0
    requires forall p :: p in m0.owner ==> p in m0.mem
    requires forall p :: p in m0.owner && m0.owner[p] == Held ==> p in m1.owner && m1.owner[p] == Held
    ensures Grew(m0, m, r)
  {
    hide Lookup;
    forall s: nat, u: nat | IsRoot(m0, s) && u < VPNS ensures Lookup(m.mem, s, u) == Lookup(m0.mem, s, u) {
      assert Lookup(m1.mem, s, u) == if s == r && v <= u < v + |es| then es[u - v] else Lookup(m0.mem, s, u);
    }
  }

  /** walk's allocation: take a page, zero it and link it below entry `j` of the table at (r, l, a). */
  lemma TakenAndLinked(m: Phys, lo: nat, hi: nat, r: nat, l: nat, a: nat, j: nat, x: seq<nat>)
    requires Exact(m, lo, hi) && IsRoot(m, r) && 0 < l && IsSpot(l, a) && j < ENTRIES && m.free != [] && |x| == ENTRIES
    requires TableAt(m.mem, r, l, a) != 0 && Child(m.mem, TableAt(m.mem, r, l, a), j) == 0
    ensures
      var m1, q := Taken(m, x), m.free[0];
      && TableAt(m1.mem, r, l, a) == TableAt(m.mem, r, l, a) && TableAt(m.mem, r, l, a) in m1.mem
      && |m1.mem[TableAt(m.mem, r, l, a)]| == ENTRIES && TableAt(m.mem, r, l, a) != q
      && Exact(Linked(m1, r, l, a, j, q), lo, hi) && Grew(m, Linked(m1, r, l, a, j, q), r)
      && TableAt(Linked(m1, r, l, a, j, q).mem, r, l - 1, a * ENTRIES + j) == q
  {
    hide Reached, Placed, EntriesOk, Mapped, FramesOk, Lookup, TableAt;
    var m1, q := Taken(m, x), m.free[0];
    TakenPages(m, lo, hi, x);
    TakenKeeps(m, lo, hi, x);
    TableOwned(m, lo, hi, r, l, a);
    TablesStay(m, lo, hi, m1.mem);
    LinkedKeeps(m1, lo, hi, r, l, a, j, q);
    TakenLinkedGrew(m, lo, hi, r, l, a, j, x);
  }

  lemma TableOwned(m: Phys, lo: nat, hi: nat, r: nat, l: nat, a: nat)
    requires Exact(m, lo, hi) && IsRoot(m, r) && IsSpot(l, a) && TableAt(m.mem, r, l, a) != 0
    ensures
      var p := TableAt(m.mem, r, l, a);
      p in m.mem && |m.mem[p]| == ENTRIES && p in m.owner && m.owner[p] == Table(r, l, a)
  {
  }

  lemma TakenLinkedGrew(m: Phys, lo: nat, hi: nat, r: nat, l: nat, a: nat, j: nat, x: seq<nat>)
    requires Pages(m, lo, hi) && IsRoot(m, r) && 0 < l && IsSpot(l, a) && j < ENTRIES && m.free != [] && |x| == ENTRIES
    requires SameMaps(m, Taken(m, x)) && TableAt(Taken(m, x).mem, r, l, a) in m.owner
    requires m.owner[TableAt(Taken(m, x).mem, r, l, a)] == Table(r, l, a)
    requires |Taken(m, x).mem[TableAt(Taken(m, x).mem, r, l, a)]| == ENTRIES
    requires SameMaps(Taken(m, x), Linked(Taken(m, x), r, l, a, j, m.free[0]))
    ensures Grew(m, Linked(Taken(m, x), r, l, a, j, m.free[0]), r)
  {
    hide Lookup, TableAt;
    var m1, m2 := Taken(m, x), Linked(Taken(m, x), r, l, a, j, m.free[0]);
    TakenPages(m, lo, hi, x);
    forall s: nat, u: nat | IsRoot(m, s) && u < VPNS ensures Lookup(m2.mem, s, u) == Lookup(m.mem, s, u) {
      assert Lookup(m1.mem, s, u) == Lookup(m.mem, s, u);
    }
  }

  lemma GrewTrans(m0: Phys, m1: Phys, m: Phys, r: nat)
    requires Grew(m0, m1, r) && Grew(m1, m, r) && forall p :: p in m0.owner ==> p in m0.mem
    ensures Grew(m0, m, r)
  {
    hide Extended;
    ExtendedMore(m0, m1, m, r, 0, [], []);
    var none: seq<nat> := [];
    assert none + none == none;
  }

  /** Mapping one page after a walk that may have added tables. */
  lemma GaveLeaf(m0: Phys, m1: Phys, lo: nat, hi: nat, r: nat, v: nat, f: nat, perm: nat)
    requires Exact(m0, lo, hi) && Exact(m1, lo, hi) && Grew(m0, m1, r) && HasLeaf(m1, r, v) && Lookup(m0.mem, r, v) == 0
    requires IsRoot(m0, r) && perm < 1024 && Leaf(perm) && Mappable(m0, f)
    ensures TableAt(m1.mem, r, 0, v / ENTRIES) in m1.mem && |m1.mem[TableAt(m1.mem, r, 0, v / ENTRIES)]| == ENTRIES
    ensures Exact(GiveLeaf(m1, r, v, f, perm), lo, hi)
    ensures Extended(m0, GiveLeaf(m1, r, v, f, perm), r, v, [Pte(f, perm)])
  {
    hide Lookup, TableAt, Trees, Extended, GiveLeaf;
    StillMappable(m0, m1, r, v, f, lo, hi);
    GiveLeafKeeps(m1, lo, hi, r, v, f, perm);
    GaveExtended(m1, lo, hi, r, v, f, perm);
    GrewAnywhere(m0, m1, r, 0, v);
    ExtendedMore(m0, m1, GiveLeaf(m1, r, v, f, perm), r, v, [], [Pte(f, perm)]);
    assert [] + [Pte(f, perm)] == [Pte(f, perm)];
  }

  lemma StillMappable(m0: Phys, m1: Phys, r: nat, v: nat, f: nat, lo: nat, hi: nat)
    requires Pages(m0, lo, hi) && Pages(m1, lo, hi) && Grew(m0, m1, r) && Mappable(m0, f) && IsRoot(m0, r) && v < VPNS
    ensures Mappable(m1, f) && Lookup(m1.mem, r, v) == Lookup(m0.mem, r, v)
  {
    hide Lookup;
  }

  lemma GaveExtended(m: Phys, lo: nat, hi: nat, r: nat, v: nat, f: nat, perm: nat)
    requires Exact(m, lo, hi) && HasLeaf(m, r, v)
    requires TableAt(m.mem, r, 0, v / ENTRIES) in m.mem && |m.mem[TableAt(m.mem, r, 0, v / ENTRIES)]| == ENTRIES
    requires SetMaps(m, GiveLeaf(m, r, v, f, perm), r, v, Pte(f, perm))
    ensures Extended(m, GiveLeaf(m, r, v, f, perm), r, v, [Pte(f, perm)])
  {
    hide Lookup, TableAt, EntriesOk, Mapped, FramesOk, Reached, Placed;
    LeafTable(m, lo, hi, r, v);
  }

  /** Unmapping one page, and freeing it if it was the tree's own. */
  lemma DroppedLeaf(m: Phys, lo: nat, hi: nat, r: nat, v: nat, x: seq<nat>)
    requires Exact(m, lo, hi) && HasLeaf(m, r, v) && Lookup(m.mem, r, v) != 0 && |x| == ENTRIES
    ensures TableAt(m.mem, r, 0, v / ENTRIES) in m.mem && |m.mem[TableAt(m.mem, r, 0, v / ENTRIES)]| == ENTRIES
    ensures
      var m1, f := DropLeaf(m, r, v), Frame(Lookup(m.mem, r, v));
      var m2 := if f in m.owner && m.owner[f] == User(r, v) then Freed(m1, f, x) else m1;
      Exact(m2, lo, hi) && Unmapped(m, m2, r, v, 1)
  {
    hide Lookup, TableAt, Trees, Unmapped, SetMaps, SameMaps;
    DropLeafKeeps(m, lo, hi, r, v);
    var m1, f := DropLeaf(m, r, v), Frame(Lookup(m.mem, r, v));
    if f in m.owner && m.owner[f] == User(r, v) {
      FreedKeeps(m1, lo, hi, f, x);
      DroppedUnmapped(m, lo, hi, r, v, Freed(m1, f, x));
    } else {
      SameMapsSelf(m1);
      DroppedUnmapped(m, lo, hi, r, v, m1);
    }
  }

  lemma SameMapsSelf(m: Phys)
    ensures SameMaps(m, m)
  {
  }

  lemma DroppedUnmapped(m: Phys, lo: nat, hi: nat, r: nat, v: nat, m2: Phys)
    requires Exact(m, lo, hi) && HasLeaf(m, r, v) && Lookup(m.mem, r, v) != 0
    requires TableAt(m.mem, r, 0, v / ENTRIES) in m.mem && |m.mem[TableAt(m.mem, r, 0, v / ENTRIES)]| == ENTRIES
    requires SetMaps(m, DropLeaf(m, r, v), r, v, 0) && SameMaps(DropLeaf(m, r, v), m2)
    requires
      var f := Frame(Lookup(m.mem, r, v));
      if f in m.owner && m.owner[f] == User(r, v) then exists x :: m2 == Freed(DropLeaf(m, r, v), f, x) else m2 == DropLeaf(m, r, v)
    ensures Unmapped(m, m2, r, v, 1)
  {
    hide Lookup, TableAt, EntriesOk, FramesOk, Reached, Placed;
    LeafTable(m, lo, hi, r, v);
    var m1, f := DropLeaf(m, r, v), Frame(Lookup(m.mem, r, v));
    forall s: nat, u: nat | IsRoot(m, s) && u < VPNS ensures Lookup(m2.mem, s, u) == if s == r && u == v then 0 else Lookup(m.mem, s, u) {
      assert Lookup(m1.mem, s, u) == if s == r && u == v then 0 else Lookup(m.mem, s, u);
    }
  }

  /** The entries of `n` consecutive frames from `f`. */
  function PteRun(f: nat, n: nat, perm: nat): (es: seq<nat>)
    ensures |es| == n && forall i: nat :: i < n ==> es[i] == Pte(f + i, perm)
  {
    seq<nat>(n, i requires 0 <= i < n => Pte(f + i, perm))
  }

  /** Pages [v, v + n) of tree `r` are unmapped and the frames from `f` can be mapped there. */
  ghost predicate CanMap(m: Phys, r: nat, v: nat, n: nat, f: nat) {
    && IsRoot(m, r) && v + n <= VPNS
    && (forall u: nat {:trigger Lookup(m.mem, r, u)} :: v <= u < v + n ==> Lookup(m.mem, r, u) == 0)
    && (forall g: nat {:trigger Mappable(m, g)} :: f <= g < f + n ==> Mappable(m, g))
  }

  /** After `k` of them have been mapped the others still can be. */
  lemma CanMapRest(m0: Phys, m: Phys, lo: nat, hi: nat, r: nat, v: nat, n: nat, f: nat, k: nat, perm: nat)
    requires Pages(m0, lo, hi) && Exact(m, lo, hi) && CanMap(m0, r, v, n, f) && k <= n && perm < 1024
    requires Extended(m0, m, r, v, PteRun(f, k, perm))
    ensures CanMap(m, r, v + k, n - k, f + k)
  {
    hide Lookup, Reached, Placed, EntriesOk, FramesOk;
    forall g: nat | f + k <= g < f + n ensures Mappable(m, g) {
      assert Mappable(m0, g);
      if g in m.owner && NewUser(m, r, v, PteRun(f, k, perm), g) {
        var u := m.owner[g].vpn;
        assert Lookup(m.mem, r, u) == Pte(f + (u - v), perm);
        PteParts(f + (u - v), perm);
        assert false;
      }
    }
  }

  /** Page `u` of tree `r` is mapped to a data page of its own. */
  ghost predicate OwnPage(m: Phys, r: nat, u: nat) {
    var f := Frame(Lookup(m.mem, r, u));
    f in m.owner && m.owner[f] == User(r, u)
  }

  /** The pages [v, v + n) are all mapped, to data pages of the tree's own exactly when `own`. */
  ghost predicate Removable(m: Phys, r: nat, v: nat, n: nat, own: bool) {
    && IsRoot(m, r) && v + n <= MAXVPN
    && forall u: nat {:trigger Lookup(m.mem, r, u)} :: v <= u < v + n ==> Lookup(m.mem, r, u) != 0 && (OwnPage(m, r, u) <==> own)
  }

  /** Those of the pages [v, v + n) that are mapped are data pages of the tree's own exactly when `own`. */
  ghost predicate Ownable(m: Phys, r: nat, v: nat, n: nat, own: bool) {
    && IsRoot(m, r) && v + n <= MAXVPN
    && forall u: nat {:trigger Lookup(m.mem, r, u)} :: v <= u < v + n && Lookup(m.mem, r, u) != 0 ==> (OwnPage(m, r, u) <==> own)
  }

  lemma RemovableOwnable(m: Phys, r: nat, v: nat, n: nat, own: bool)
    requires Removable(m, r, v, n, own)
    ensures Ownable(m, r, v, n, own)
  {
  }

  /** The pages before the `k`-th were mapped; with that one, one more. */
  lemma RemovableGrows(m: Phys, r: nat, v: nat, n: nat, own: bool, k: nat)
    requires Ownable(m, r, v, n, own) && Removable(m, r, v, k, own) && k < n
    ensures Lookup(m.mem, r, v + k) != 0 ==> Removable(m, r, v, k + 1, own)
    ensures Lookup(m.mem, r, v + k) == 0 ==> !Removable(m, r, v, n, own)
  {
  }

  lemma OwnableRest(m0: Phys, m: Phys, r: nat, v: nat, n: nat, own: bool, k: nat)
    requires Ownable(m0, r, v, n, own) && Unmapped(m0, m, r, v, k) && k < n
    ensures Ownable(m, r, v + k, 1, own) && Lookup(m.mem, r, v + k) == Lookup(m0.mem, r, v + k)
  {
    hide Lookup;
    assert Lookup(m.mem, r, v + k) == Lookup(m0.mem, r, v + k);
  }

  /** A mapped page has a leaf table, and its entry passes uvmunmap's checks. */
  lemma MappedLeaf(m: Phys, lo: nat, hi: nat, r: nat, v: nat)
    requires Exact(m, lo, hi) && IsRoot(m, r) && v < VPNS && Lookup(m.mem, r, v) != 0
    ensures HasLeaf(m, r, v)
    ensures
      var e := Lookup(m.mem, r, v);
      e == Entry(m.mem, TableAt(m.mem, r, 0, v / ENTRIES), v % ENTRIES) && V(e) && Flags(e) != 1
  {
    hide TableAt;
    var t := TableAt(m.mem, r, 0, v / ENTRIES);
    assert t in m.mem;
    TableOwned(m, lo, hi, r, 0, v / ENTRIES);
    assert EntryOk(0, Entry(m.mem, t, v % ENTRIES));
    LeafFlags(Entry(m.mem, t, v % ENTRIES));
  }

  lemma LeafFlags(e: nat)
    requires Leaf(e)
    ensures Flags(e) != 1
  {
  }

  /** The first `n` pages of tree `r` are mapped to data pages of its own, and no other user page is mapped. */
  ghost predicate UserSpace(m: Phys, r: nat, n: nat) {
    && IsRoot(m, r) && n <= USERTOP
    && (forall u: nat {:trigger Lookup(m.mem, r, u)} :: u < n ==> Lookup(m.mem, r, u) != 0 && OwnPage(m, r, u))
    && (forall u: nat {:trigger Lookup(m.mem, r, u)} :: n <= u < USERTOP ==> Lookup(m.mem, r, u) == 0)
  }

  /** The pages mapped at `v`, `v + 1`, ... by `es` are `r`'s own, with permissions `perms`, and hold `xs`. */
  ghost predicate Holds(m: Phys, r: nat, v: nat, es: seq<nat>, perms: seq<nat>, xs: seq<seq<nat>>) {
    && |es| == |perms| == |xs|
    && forall i: nat {:trigger es[i]} :: i < |es| ==> HoldsOne(m, r, v + i, es[i], perms[i], xs[i])
  }

  ghost predicate HoldsOne(m: Phys, r: nat, u: nat, e: nat, perm: nat, x: seq<nat>) {
    && e == Pte(Frame(e), perm)
    && Frame(e) in m.owner && m.owner[Frame(e)] == User(r, u)
    && Frame(e) in m.mem && m.mem[Frame(e)] == x
  }

  lemma HoldsMore(m1: Phys, m: Phys, r: nat, v: nat, es: seq<nat>, perms: seq<nat>, xs: seq<seq<nat>>, s: nat, w: nat, fs: seq<nat>,
                  e: nat, perm: nat, x: seq<nat>)
    requires Holds(m1, r, v, es, perms, xs) && Extended(m1, m, s, w, fs) && HoldsOne(m, r, v + |es|, e, perm, x)
    ensures Holds(m, r, v, es + [e], perms + [perm], xs + [x])
  {
    forall i: nat | i < |es + [e]| ensures HoldsOne(m, r, v + i, (es + [e])[i], (perms + [perm])[i], (xs + [x])[i]) {
      if i < |es| {
        assert HoldsOne(m1, r, v + i, es[i], perms[i], xs[i]);
      }
    }
  }

  /** A page that was held and is now what page `v` maps is the tree's own. */
  lemma NowOwn(m2: Phys, m: Phys, lo: nat, hi: nat, r: nat, v: nat, p: nat, perm: nat)
    requires Exact(m, lo, hi) && Extended(m2, m, r, v, [Pte(p, perm)]) && p in m2.owner && m2.owner[p] == Held
    requires IsRoot(m2, r) && v < VPNS && perm < 1024
    ensures p in m.owner && m.owner[p] == User(r, v)
  {
    hide Lookup;
    PteParts(p, perm);
    assert Lookup(m.mem, r, v) == Pte(p, perm);
  }

  /** A fresh page, filled with `x` and mapped at `v`. */
  lemma FreshPage(m1: Phys, m: Phys, lo: nat, hi: nat, r: nat, v: nat, x: seq<nat>, perm: nat)
    requires Exact(m1, lo, hi) && Exact(m, lo, hi) && IsRoot(m1, r) && v < VPNS && m1.free != [] && |x| == ENTRIES && perm < 1024
    requires Extended(Taken(m1, x), m, r, v, [Pte(m1.free[0], perm)])
    ensures Extended(m1, m, r, v, [Pte(m1.free[0], perm)])
    ensures HoldsOne(m, r, v, Pte(m1.free[0], perm), perm, x) && Frame(Pte(m1.free[0], perm)) !in m1.owner
  {
    hide Lookup, Trees, Extended;
    TakenPages(m1, lo, hi, x);
    TakenKeeps(m1, lo, hi, x);
    NowOwn(Taken(m1, x), m, lo, hi, r, v, m1.free[0], perm);
    PteParts(m1.free[0], perm);
    GrewNothing(m1, r);
    GrewAnywhere(m1, m1, r, 0, v);
    ExtendedFresh(m1, m1, Taken(m1, x), m, r, v, [], x, Pte(m1.free[0], perm));
    assert [] + [Pte(m1.free[0], perm)] == [Pte(m1.free[0], perm)];
  }

  /** What was just mapped can be removed again. */
  lemma HeldRemovable(m0: Phys, m: Phys, r: nat, v: nat, es: seq<nat>, perms: seq<nat>, xs: seq<seq<nat>>)
    requires IsRoot(m0, r) && Extended(m0, m, r, v, es) && Holds(m, r, v, es, perms, xs) && v + |es| <= MAXVPN
    ensures Removable(m, r, v, |es|, true)
  {
    hide Lookup;
    forall u: nat | v <= u < v + |es| ensures Lookup(m.mem, r, u) != 0 && OwnPage(m, r, u) {
      var i: nat := u - v;
      assert HoldsOne(m, r, v + i, es[i], perms[i], xs[i]);
    }
  }

  /** Held pages that stay held while others are mapped. */
  lemma HeldStay(m0: Phys, m: Phys, lo: nat, hi: nat, r: nat, v: nat, es: seq<nat>, perms: seq<nat>, xs: seq<seq<nat>>)
    requires Exact(m, lo, hi) && IsRoot(m0, r) && Extended(m0, m, r, v, es) && v + |es| <= VPNS
    requires forall i: nat {:trigger es[i]} :: i < |es| ==> Frame(es[i]) !in m0.owner
    ensures forall p :: p in m0.owner && m0.owner[p] == Held ==> p in m.owner && m.owner[p] == Held
  {
    hide Lookup;
    forall u: nat | v <= u < v + |es| ensures Frame(Lookup(m.mem, r, u)) !in m0.owner {
      var i: nat := u - v;
      assert Lookup(m.mem, r, u) == es[i];
    }
  }

  /** A grown user space. */
  lemma SpaceGrown(m0: Phys, m: Phys, r: nat, v: nat, es: seq<nat>, perms: seq<nat>, xs: seq<seq<nat>>)
    requires UserSpace(m0, r, v) && Extended(m0, m, r, v, es) && Holds(m, r, v, es, perms, xs) && v + |es| <= USERTOP
    ensures UserSpace(m, r, v + |es|)
  {
    hide Lookup;
    forall u: nat | u < v + |es| ensures Lookup(m.mem, r, u) != 0 && OwnPage(m, r, u) {
      if u < v {
        assert Lookup(m.mem, r, u) == Lookup(m0.mem, r, u) && OwnPage(m0, r, u);
      } else {
        var i: nat := u - v;
        assert Lookup(m.mem, r, u) == es[i];
        assert HoldsOne(m, r, v + i, es[i], perms[i], xs[i]);
      }
    }
  }

  /** A shrunk user space. */
  lemma SpaceShrunk(m0: Phys, m: Phys, r: nat, n: nat, k: nat)
    requires UserSpace(m0, r, n + k) && Unmapped(m0, m, r, n, k)
    ensures UserSpace(m, r, n)
  {
    hide Lookup;
    forall u: nat | u < n ensures Lookup(m.mem, r, u) != 0 && OwnPage(m, r, u) {
      assert Lookup(m.mem, r, u) == Lookup(m0.mem, r, u) && OwnPage(m0, r, u);
    }
  }

  /** The pages of a user space above `n` can be removed. */
  lemma SpaceRemovable(m: Phys, r: nat, n: nat, k: nat)
    requires UserSpace(m, r, n + k)
    ensures Removable(m, r, n, k, true)
  {
    hide Lookup;
  }

  /** A fresh page that could not be mapped goes back, and only tables were added. */
  lemma PageGivenBack(m1: Phys, m3: Phys, lo: nat, hi: nat, r: nat, v: nat, x: seq<nat>, y: seq<nat>)
    requires Exact(m1, lo, hi) && Exact(m3, lo, hi) && m1.free != [] && |x| == |y| == ENTRIES
    requires Extended(Taken(m1, x), m3, r, v, [])
    ensures m1.free[0] in m3.owner && m3.owner[m1.free[0]] == Held
    ensures Exact(Freed(m3, m1.free[0], y), lo, hi) && Extended(m1, Freed(m3, m1.free[0], y), r, v, [])
  {
    hide Lookup, Trees;
    TakenPages(m1, lo, hi, x);
    TakenKeeps(m1, lo, hi, x);
    FreedKeeps(m3, lo, hi, m1.free[0], y);
    TakenGivenBack(m1, Taken(m1, x), m3, Freed(m3, m1.free[0], y), r, v, x, y);
  }

  /**
   A tree that had `v` user pages has gained `es`: fresh pages with permissions
   `perms` that hold `xs`.
   */
  ghost predicate Growing(m0: Phys, m: Phys, r: nat, v: nat, es: seq<nat>, perms: seq<nat>, xs: seq<seq<nat>>) {
    && UserSpace(m0, r, v) && Extended(m0, m, r, v, es) && Holds(m, r, v, es, perms, xs)
    && forall i: nat {:trigger es[i]} :: i < |es| ==> Frame(es[i]) !in m0.owner
  }

  lemma GrowStart(m: Phys, r: nat, v: nat, perms: seq<nat>, xs: seq<seq<nat>>)
    requires UserSpace(m, r, v) && perms == [] && xs == []
    ensures Growing(m, m, r, v, [], perms, xs)
  {
    GrewNothing(m, r);
    GrewAnywhere(m, m, r, 0, v);
  }

  lemma GrowNext(m0: Phys, m: Phys, r: nat, v: nat, es: seq<nat>, perms: seq<nat>, xs: seq<seq<nat>>)
    requires Growing(m0, m, r, v, es, perms, xs) && v + |es| < USERTOP
    ensures IsRoot(m, r) && Lookup(m.mem, r, v + |es|) == 0
  {
    hide Lookup;
  }

  lemma GrowMore(m0: Phys, m1: Phys, m: Phys, lo: nat, hi: nat, r: nat, v: nat, es: seq<nat>, perms: seq<nat>, xs: seq<seq<nat>>,
                 e: nat, perm: nat, x: seq<nat>)
    requires Pages(m0, lo, hi) && Growing(m0, m1, r, v, es, perms, xs) && Extended(m1, m, r, v + |es|, [e])
    requires HoldsOne(m, r, v + |es|, e, perm, x) && Frame(e) !in m1.owner
    ensures Growing(m0, m, r, v, es + [e], perms + [perm], xs + [x])
  {
    assert Frame(e) !in m0.owner;
    hide Extended, UserSpace, HoldsOne;
    ExtendedMore(m0, m1, m, r, v, es, [e]);
    HoldsMore(m1, m, r, v, es, perms, xs, r, v + |es|, [e], e, perm, x);
  }

  /** Tables added to `r` leave the pages gained so far as they are; they can be removed. */
  lemma GrowStuck(m0: Phys, m1: Phys, m: Phys, lo: nat, hi: nat, r: nat, v: nat, es: seq<nat>, perms: seq<nat>, xs: seq<seq<nat>>)
    requires Pages(m0, lo, hi) && Growing(m0, m1, r, v, es, perms, xs) && Extended(m1, m, r, v + |es|, []) && v + |es| <= USERTOP
    ensures Growing(m0, m, r, v, es, perms, xs) && Removable(m, r, v, |es|, true)
  {
    ExtendedMore(m0, m1, m, r, v, es, []);
    assert es + [] == es;
    HoldsStay(m1, m, r, v, es, perms, xs, r, v + |es|, []);
    HeldRemovable(m0, m, r, v, es, perms, xs);
  }

  lemma HoldsStay(m1: Phys, m: Phys, r: nat, v: nat, es: seq<nat>, perms: seq<nat>, xs: seq<seq<nat>>, s: nat, w: nat, fs: seq<nat>)
    requires Holds(m1, r, v, es, perms, xs) && Extended(m1, m, s, w, fs)
    ensures Holds(m, r, v, es, perms, xs)
  {
    forall i: nat | i < |es| ensures HoldsOne(m, r, v + i, es[i], perms[i], xs[i]) {
      assert HoldsOne(m1, r, v + i, es[i], perms[i], xs[i]);
    }
  }

  /** Removing what was gained leaves the user space as it was; only tables are left over. */
  lemma GrowUndone(m0: Phys, m1: Phys, m: Phys, lo: nat, hi: nat, r: nat, v: nat, es: seq<nat>, perms: seq<nat>, xs: seq<seq<nat>>)
    requires Exact(m0, lo, hi) && Exact(m1, lo, hi) && Growing(m0, m1, r, v, es, perms, xs) && Unmapped(m1, m, r, v, |es|)
    requires v + |es| <= USERTOP
    ensures Grew(m0, m, r) && UserSpace(m, r, v)
  {
    hide Lookup, Trees, Pages, Extended, Unmapped, Holds, UserSpace;
    UndoneSetup(m0, m1, lo, hi, r, v, es, perms, xs);
    ExtendedUndone(m0, m1, m, r, v, es);
    SpaceStays(m0, m, r, v);
  }

  lemma UndoneSetup(m0: Phys, m1: Phys, lo: nat, hi: nat, r: nat, v: nat, es: seq<nat>, perms: seq<nat>, xs: seq<seq<nat>>)
    requires Exact(m0, lo, hi) && Exact(m1, lo, hi) && Growing(m0, m1, r, v, es, perms, xs) && v + |es| <= USERTOP
    ensures IsRoot(m0, r) && Mapped(m0) && (forall p :: p in m0.owner ==> p in m0.mem)
    ensures forall p :: p in m0.owner && m0.owner[p] == Held ==> p in m1.owner && m1.owner[p] == Held
    ensures forall u: nat :: v <= u < v + |es| ==> Lookup(m0.mem, r, u) == 0
  {
    hide Lookup, Reached, Placed, EntriesOk, Mapped, FramesOk, Extended;
    HeldStay(m0, m1, lo, hi, r, v, es, perms, xs);
  }

  /** Extra tables do not change a user space. */
  lemma SpaceStays(m0: Phys, m: Phys, r: nat, v: nat)
    requires UserSpace(m0, r, v) && Grew(m0, m, r)
    ensures UserSpace(m, r, v)
  {
    hide Lookup;
    forall u: nat | u < v ensures Lookup(m.mem, r, u) != 0 && OwnPage(m, r, u) {
      assert Lookup(m.mem, r, u) == Lookup(m0.mem, r, u) && OwnPage(m0, r, u);
    }
  }

  lemma GrowDone(m0: Phys, m: Phys, r: nat, v: nat, es: seq<nat>, perms: seq<nat>, xs: seq<seq<nat>>)
    requires Growing(m0, m, r, v, es, perms, xs) && v + |es| <= USERTOP
    ensures UserSpace(m, r, v + |es|)
  {
    SpaceGrown(m0, m, r, v, es, perms, xs);
  }
}
