/** How many page-table pages mapping a range of addresses takes. */
module VmSpace {
  import opened VmImage

  /** 1 if the spot has no table. */
  function Missing(mem: Mem, r: nat, l: nat, a: nat): nat
    requires l <= 2
  {
    if TableAt(mem, r, l, a) == 0 then 1 else 0
  }

  /** Tables that the walk to page `v` has to add. */
  function Lack(mem: Mem, r: nat, v: nat): nat {
    Missing(mem, r, 0, SpotOf(v, 0)) + Missing(mem, r, 1, SpotOf(v, 1))
  }

  /** Empty spots from..to-1 of a level. */
  function Gaps(mem: Mem, r: nat, l: nat, from: nat, to: nat): nat
    requires l <= 2
    decreases if from < to then to - from else 0
  {
    if from >= to then 0 else Missing(mem, r, l, from) + Gaps(mem, r, l, from + 1, to)
  }

  /** Tables that mapping the `n` pages from `v` adds. */
  function TablesFor(mem: Mem, r: nat, v: nat, n: nat): nat {
    if n == 0 then 0
    else Gaps(mem, r, 0, SpotOf(v, 0), SpotOf(v + n - 1, 0) + 1) + Gaps(mem, r, 1, SpotOf(v, 1), SpotOf(v + n - 1, 1) + 1)
  }

  lemma NoTables(mem: Mem, r: nat, v: nat)
    ensures TablesFor(mem, r, v, 0) == 0
  {
  }

  predicate OnPath(x: Role, r: nat, v: nat) {
    x == Table(r, 0, SpotOf(v, 0)) || x == Table(r, 1, SpotOf(v, 1))
  }

  /** No table was given up, and at most one with role `x` was added. */
  ghost predicate TableAdded(m0: Phys, m: Phys, x: Role) {
    && (forall p :: p in m0.owner && m0.owner[p].Table? ==> p in m.owner && m.owner[p] == m0.owner[p])
    && (forall p :: p in m.owner && m.owner[p].Table? ==> (p in m0.owner && m0.owner[p] == m.owner[p]) || m.owner[p] == x)
  }

  /** Tables were added on the way to page `v` only. */
  ghost predicate PathOnly(m0: Phys, m: Phys, r: nat, v: nat) {
    && (forall p :: p in m0.owner && m0.owner[p].Table? ==> p in m.owner && m.owner[p] == m0.owner[p])
    && (forall p :: p in m.owner && m.owner[p].Table? ==> (p in m0.owner && m0.owner[p] == m.owner[p]) || OnPath(m.owner[p], r, v))
  }

  lemma PathNothing(m: Phys, r: nat, v: nat)
    ensures PathOnly(m, m, r, v)
  {
  }

  lemma PathOn(m0: Phys, m1: Phys, m: Phys, r: nat, v: nat)
    requires PathOnly(m0, m1, r, v) && PathOnly(m1, m, r, v)
    ensures PathOnly(m0, m, r, v)
  {
  }

  lemma PathMore(m0: Phys, m1: Phys, m: Phys, r: nat, v: nat, l: nat)
    requires PathOnly(m0, m1, r, v) && l <= 1 && TableAdded(m1, m, Table(r, l, SpotOf(v, l)))
    ensures PathOnly(m0, m, r, v)
  {
    assert OnPath(Table(r, l, SpotOf(v, l)), r, v);
  }

  /** Owners determine which spots have tables. */
  lemma SpotStays(m0: Phys, m: Phys, lo: nat, hi: nat, r: nat, l: nat, a: nat)
    requires Exact(m0, lo, hi) && Exact(m, lo, hi) && IsRoot(m0, r) && IsRoot(m, r) && IsSpot(l, a)
    requires forall p :: p in m0.owner && m0.owner[p] == Table(r, l, a) ==> p in m.owner && m.owner[p] == Table(r, l, a)
    requires forall p :: p in m.owner && m.owner[p] == Table(r, l, a) ==> p in m0.owner && m0.owner[p] == Table(r, l, a)
    ensures Missing(m.mem, r, l, a) == Missing(m0.mem, r, l, a)
  {
    hide TableAt, Mapped, FramesOk, EntriesOk;
    if TableAt(m0.mem, r, l, a) != 0 {
      assert m0.owner[TableAt(m0.mem, r, l, a)] == Table(r, l, a);
    }
    if TableAt(m.mem, r, l, a) != 0 {
      assert m.owner[TableAt(m.mem, r, l, a)] == Table(r, l, a);
    }
  }

  lemma AddedElsewhere(m0: Phys, m: Phys, lo: nat, hi: nat, x: Role, r: nat, l: nat, a: nat)
    requires Exact(m0, lo, hi) && Exact(m, lo, hi) && IsRoot(m0, r) && IsRoot(m, r) && IsSpot(l, a)
    requires TableAdded(m0, m, x) && x != Table(r, l, a)
    ensures Missing(m.mem, r, l, a) == Missing(m0.mem, r, l, a)
  {
    hide Exact, Missing;
    SpotStays(m0, m, lo, hi, r, l, a);
  }

  /** No table added: every spot has a table exactly when it had one. */
  lemma SameLack(m0: Phys, m: Phys, lo: nat, hi: nat, r: nat, v: nat)
    requires Exact(m0, lo, hi) && Exact(m, lo, hi) && IsRoot(m0, r) && IsRoot(m, r) && v < VPNS
    requires forall p :: p in m0.owner && m0.owner[p].Table? ==> p in m.owner && m.owner[p] == m0.owner[p]
    requires forall p :: p in m.owner && m.owner[p].Table? ==> p in m0.owner && m0.owner[p] == m.owner[p]
    ensures Lack(m.mem, r, v) == Lack(m0.mem, r, v)
  {
    hide Exact, Missing;
    SpotBelow(v, 1);
    SpotStays(m0, m, lo, hi, r, 0, SpotOf(v, 0));
    SpotStays(m0, m, lo, hi, r, 1, SpotOf(v, 1));
  }

  lemma PathElsewhere(m0: Phys, m: Phys, lo: nat, hi: nat, r: nat, v: nat, l: nat, a: nat)
    requires Exact(m0, lo, hi) && Exact(m, lo, hi) && IsRoot(m0, r) && IsRoot(m, r) && l <= 1 && IsSpot(l, a)
    requires PathOnly(m0, m, r, v) && a != SpotOf(v, l)
    ensures Missing(m.mem, r, l, a) == Missing(m0.mem, r, l, a)
  {
    hide Exact, Missing;
    SpotStays(m0, m, lo, hi, r, l, a);
  }

  lemma {:induction false} GapsSame(m0: Phys, m: Phys, lo: nat, hi: nat, r: nat, v: nat, l: nat, from: nat, to: nat)
    requires Exact(m0, lo, hi) && Exact(m, lo, hi) && IsRoot(m0, r) && IsRoot(m, r) && l <= 1
    requires PathOnly(m0, m, r, v) && SpotOf(v, l) < from && (from < to ==> IsSpot(l, to - 1))
    ensures Gaps(m.mem, r, l, from, to) == Gaps(m0.mem, r, l, from, to)
    decreases if from < to then to - from else 0
  {
    hide Exact, Missing, PathOnly;
    if from < to {
      PathElsewhere(m0, m, lo, hi, r, v, l, from);
      GapsSame(m0, m, lo, hi, r, v, l, from + 1, to);
    }
  }

  /** Where the spots of the next page and of the last one are. */
  lemma NextSpot(v: nat, n: nat, l: nat)
    requires l <= 1 && n > 0 && v + n <= VPNS
    ensures IsSpot(l, SpotOf(v, l)) && IsSpot(l, SpotOf(v + n - 1, l)) && SpotOf(v, l) <= SpotOf(v + n - 1, l)
    ensures SpotOf(v + 1, l) == SpotOf(v, l) || SpotOf(v + 1, l) == SpotOf(v, l) + 1
    ensures n > 1 ==> SpotOf(v + 1, l) <= SpotOf(v + n - 1, l)
  {
  }

  /** One level's part of the range, once the walk to `v` has been made. */
  lemma GapsStep(m0: Phys, m: Phys, lo: nat, hi: nat, r: nat, v: nat, n: nat, l: nat)
    requires Exact(m0, lo, hi) && Exact(m, lo, hi) && IsRoot(m0, r) && IsRoot(m, r) && l <= 1
    requires PathOnly(m0, m, r, v) && n > 0 && v + n <= VPNS && Missing(m.mem, r, l, SpotOf(v, l)) == 0
    ensures
      Gaps(m0.mem, r, l, SpotOf(v, l), SpotOf(v + n - 1, l) + 1) ==
      Missing(m0.mem, r, l, SpotOf(v, l)) + if n > 1 then Gaps(m.mem, r, l, SpotOf(v + 1, l), SpotOf(v + n - 1, l) + 1) else 0
  {
    hide Exact, Missing, PathOnly, SpotOf, IsSpot;
    var a, z := SpotOf(v, l), SpotOf(v + n - 1, l) + 1;
    NextSpot(v, n, l);
    GapsSame(m0, m, lo, hi, r, v, l, a + 1, z);
    if n == 1 {
      assert z == a + 1;
    }
  }

  /** The walk to `v` leaves the rest of the range to need that much less. */
  lemma TablesStep(m0: Phys, m: Phys, lo: nat, hi: nat, r: nat, v: nat, n: nat)
    requires Exact(m0, lo, hi) && Exact(m, lo, hi) && IsRoot(m0, r) && IsRoot(m, r)
    requires PathOnly(m0, m, r, v) && n > 0 && v + n <= VPNS && Lack(m.mem, r, v) == 0
    ensures TablesFor(m0.mem, r, v, n) == Lack(m0.mem, r, v) + TablesFor(m.mem, r, v + 1, n - 1)
  {
    hide Exact, Missing, PathOnly, SpotOf, Gaps;
    GapsStep(m0, m, lo, hi, r, v, n, 0);
    GapsStep(m0, m, lo, hi, r, v, n, 1);
  }

  lemma LackWithin(mem: Mem, r: nat, v: nat, n: nat)
    requires n > 0 && v + n <= VPNS
    ensures Lack(mem, r, v) <= TablesFor(mem, r, v, n) && (n == 1 ==> Lack(mem, r, v) == TablesFor(mem, r, v, n))
  {
    hide Missing, SpotOf;
    NextSpot(v, n, 0);
    NextSpot(v, n, 1);
    assert Gaps(mem, r, 0, SpotOf(v, 0) + 1, SpotOf(v, 0) + 1) == 0;
    assert Gaps(mem, r, 1, SpotOf(v, 1) + 1, SpotOf(v, 1) + 1) == 0;
  }

  /** A page with a leaf table lacks none. */
  lemma PathFound(m: Phys, lo: nat, hi: nat, r: nat, v: nat)
    requires Pages(m, lo, hi) && v < VPNS && TableAt(m.mem, r, 0, SpotOf(v, 0)) != 0
    ensures Lack(m.mem, r, v) == 0
  {
    SpotBelow(v, 1);
    var t := TableAt(m.mem, r, 1, SpotOf(v, 1));
    assert SpotOf(v, 0) / ENTRIES == SpotOf(v, 1);
    assert TableAt(m.mem, r, 0, SpotOf(v, 0)) == Child(m.mem, t, SpotOf(v, 0) % ENTRIES);
    assert t in m.mem;
  }
}
