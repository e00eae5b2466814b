/**
 user/umalloc.c: the K&R allocator.  Addresses count header-sized units, so a block
 at `p` has its header at `p` and its payload from `p + 1`.  What sbrk would return is
 a parameter; a call that needs memory twice is shown not to exist.
 */
module Umalloc {
  import opened Options
  import opened UmallocList

  const HEADER: nat := 16
  const UINT: nat := 0x1_0000_0000

  /** nunits for a request of `nbytes`. */
  function Nunits(nbytes: nat): (n: nat)
    ensures n > 0 && (n - 1) * HEADER >= nbytes && (n > 1 ==> (n - 2) * HEADER < nbytes)
  {
    (nbytes + HEADER - 1) / HEADER + 1
  }

  /** What sbrk's int parameter receives when morecore asks for `nu` units. */
  function AsInt(nu: nat): int {
    var x := nu * HEADER % UINT;
    if x < UINT / 2 then x else x - UINT
  }

  /** Entries of the circular list strictly between `f` and `j`, going round from `f`. */
  predicate Seen(x: nat, f: nat, j: nat) {
    if f < j then f < x < j else x > f || x < j
  }

  /** Steps from `j` round to `f`. */
  function Dist(n: nat, j: nat, f: nat): nat
    requires j < n
  {
    if j <= f then f - j else n - j + f
  }

  /** Some block of the list has `n` units. */
  ghost predicate SomeFits(bs: seq<Block>, n: nat) {
    exists i: nat :: i < |bs| && bs[i].len >= n
  }

  lemma LinkedHere(bs: seq<Block>, base: nat, ptr: map<nat, nat>, size: map<nat, nat>, k: nat, bp: nat)
    requires Linked(bs, ptr, size) && Ordered(bs, base) && k < |bs| && bs[k].at < bp
    ensures LinkedAt(bs, ptr, size, k) && LinkedAt(bs, ptr, size, Next(|bs|, k)) && bs[k].at != bp
  {
  }

  /** free's first test finds the upper neighbour exactly when it touches. */
  lemma UpperTouch(bs: seq<Block>, base: nat, k: nat, b: Block, ptr: map<nat, nat>, size: map<nat, nat>)
    requires Ordered(bs, base) && FitsAfter(bs, k, b) && LinkedAt(bs, ptr, size, k)
    ensures b.at + b.len == ptr[bs[k].at] <==> Touch(PutAfter(bs, k, b), k + 1)
  {
    assert base <= bs[k].at;
  }

  lemma UpperNext(bs: seq<Block>, base: nat, k: nat, b: Block, ptr: map<nat, nat>, size: map<nat, nat>)
    requires Linked(bs, ptr, size) && Ordered(bs, base) && FitsAfter(bs, k, b) && Touch(PutAfter(bs, k, b), k + 1)
    ensures k + 1 < |bs| && bs[k].at in ptr && ptr[bs[k].at] == bs[k + 1].at && bs[k + 1] == PutAfter(bs, k, b)[k + 2]
    ensures bs[k + 1].at in ptr && bs[k + 1].at in size && size[bs[k + 1].at] == bs[k + 1].len
    ensures bs[k + 1].at != b.at && bs[k + 1].at != bs[k].at && b.at != bs[k].at
  {
    assert LinkedAt(bs, ptr, size, k) && LinkedAt(bs, ptr, size, k + 1);
  }

  lemma UpperJoin(bs: seq<Block>, base: nat, k: nat, b: Block, ptr: map<nat, nat>, size: map<nat, nat>)
    requires Linked(bs, ptr, size) && Ordered(bs, base) && FitsAfter(bs, k, b) && b.at in size && size[b.at] == b.len
    requires Touch(PutAfter(bs, k, b), k + 1)
    ensures
      && bs[k].at in ptr && ptr[bs[k].at] in ptr && ptr[bs[k].at] in size
      && Linked(Join(PutAfter(bs, k, b), k + 1), ptr[b.at := ptr[ptr[bs[k].at]]][bs[k].at := b.at],
                size[b.at := b.len + size[ptr[bs[k].at]]])
  {
    hide Ordered, PutAfter, Join, FitsAfter;
    UpperNext(bs, base, k, b, ptr, size);
    var x, ptr1, p := PutAfter(bs, k, b), ptr[b.at := ptr[bs[k].at]][bs[k].at := b.at], bs[k].at;
    PutOrdered(bs, base, k, b);
    assert LinkedAt(bs, ptr, size, k);
    LinkedPut(bs, base, k, b, ptr, size);
    assert LinkedAt(x, ptr1, size, k + 2);
    LinkedJoin(x, base, k + 1, ptr1, size);
    assert ptr1[x[k + 1].at := ptr1[x[k + 2].at]] == ptr[b.at := ptr[ptr[p]]][p := b.at];
  }

  /** Neither join upstairs moves the entry before the gap or the block's address. */
  lemma LowerTouch(bs: seq<Block>, base: nat, k: nat, b: Block)
    requires Ordered(bs, base) && FitsAfter(bs, k, b)
    ensures
      var y := InsertHigh(bs, k, b);
      && k + 1 < |y| && y[k] == bs[k] && y[k + 1].at == b.at && Ordered(y, base)
      && (Touch(y, k) <==> bs[k].at + bs[k].len == b.at)
      && Insert(bs, k, b) == if Touch(y, k) then Join(y, k) else y
  {
    var x := PutAfter(bs, k, b);
    PutOrdered(bs, base, k, b);
    if Touch(x, k + 1) {
      JoinOrdered(x, base, k + 1);
    }
  }

  lemma LowerJoin(bs: seq<Block>, base: nat, k: nat, b: Block, y: seq<Block>, ptr: map<nat, nat>, size: map<nat, nat>)
    requires k + 1 < |y| && k < |bs| && y[k] == bs[k] && y[k + 1].at == b.at && Ordered(y, base) && Linked(y, ptr, size)
    ensures bs[k].at in ptr && b.at in ptr && bs[k].at in size && b.at in size && size[bs[k].at] == bs[k].len
    ensures Linked(Join(y, k), ptr[bs[k].at := ptr[b.at]], size[bs[k].at := size[bs[k].at] + size[b.at]])
  {
    assert LinkedAt(y, ptr, size, k) && LinkedAt(y, ptr, size, k + 1);
    LinkedJoin(y, base, k, ptr, size);
  }

  /** A live block is not an entry of the free list. */
  lemma NotListed(bs: seq<Block>, base: nat, live: map<nat, nat>, obtained: set<nat>, a: nat)
    requires Ordered(bs, base) && Apart(live, base) && Partition(bs, live, obtained) && a in live
    ensures base < a && forall i: nat :: i < |bs| ==> bs[i].at != a
  {
    assert InLive(live, a) && !InBlocks(bs, a);
  }

  lemma NotLive(bs: seq<Block>, base: nat, live: map<nat, nat>, obtained: set<nat>, k: nat)
    requires Ordered(bs, base) && Apart(live, base) && Partition(bs, live, obtained) && k < |bs|
    ensures bs[k].at !in live
  {
    if bs[k].at in live {
      NotListed(bs, base, live, obtained, bs[k].at);
    }
  }

  /** The list that `b` has been freed into has a block at least as long. */
  lemma InsertFits(bs: seq<Block>, base: nat, k: nat, b: Block)
    requires Ordered(bs, base) && FitsAfter(bs, k, b)
    ensures SomeFits(Insert(bs, k, b), b.len)
  {
    hide PutAfter, Join, Ordered;
    var y := InsertHigh(bs, k, b);
    LowerTouch(bs, base, k, b);
    assert y[k + 1].len >= b.len;
    if Touch(y, k) {
      assert Join(y, k)[k].len >= b.len;
    }
  }

  /** Entry `j` is the first one from freep's on that has `n` units. */
  ghost predicate FirstFit(bs: seq<Block>, freep: nat, j: nat, n: nat) {
    && j < |bs| && bs[j].len >= n
    && exists f: nat :: FirstFrom(bs, freep, j, n, f)
  }

  ghost predicate FirstFrom(bs: seq<Block>, freep: nat, j: nat, n: nat, f: nat) {
    f < |bs| && bs[f].at == freep && NoneSeen(bs, f, j, n)
  }

  /** No entry passed on the way from `f` to `j` has `n` units. */
  ghost predicate NoneSeen(bs: seq<Block>, f: nat, j: nat, n: nat) {
    forall x: nat :: x < |bs| && Seen(x, f, j) ==> bs[x].len < n
  }

  lemma SeenStart(bs: seq<Block>, f: nat, n: nat)
    requires f < |bs|
    ensures NoneSeen(bs, f, Next(|bs|, f), n)
  {
  }

  lemma SeenMore(bs: seq<Block>, f: nat, j: nat, n: nat)
    requires f < |bs| && j < |bs| && j != f && NoneSeen(bs, f, j, n) && bs[j].len < n
    ensures NoneSeen(bs, f, Next(|bs|, j), n) && Dist(|bs|, Next(|bs|, j), f) < Dist(|bs|, j, f)
  {
  }

  /** A search over `list` from the entry at `start` on, which ended at entry `j`. */
  datatype Cut = Cut(list: seq<Block>, start: nat, j: nat)

  /** It found the first entry with `n` units, took them from its end, and left freep at the entry before. */
  ghost predicate CutFrom(c: Cut, n: nat, bs: seq<Block>, addr: nat, freep: nat) {
    && 0 < c.j < |c.list| && FirstFit(c.list, c.start, c.j, n)
    && bs == Carve(c.list, c.j, n) && addr == c.list[c.j].at + c.list[c.j].len - n + 1 && freep == c.list[c.j - 1].at
  }

  /** An old entry, or one with at least the units of `b`. */
  predicate OldOrLong(x: Block, bs: seq<Block>, b: Block) {
    x in bs || x.len >= b.len
  }

  /** Joining an entry that has the units of `b`, as the lower or the upper one, leaves only such entries. */
  lemma JoinLens(x: seq<Block>, k: nat, bs: seq<Block>, b: Block, i: nat)
    requires k + 1 < |x| && (x[k].len >= b.len || x[k + 1].len >= b.len) && i < |Join(x, k)|
    requires forall h: nat :: h < |x| ==> OldOrLong(x[h], bs, b)
    ensures OldOrLong(Join(x, k)[i], bs, b)
  {
  }

  lemma PutLens(bs: seq<Block>, k: nat, b: Block, i: nat)
    requires k < |bs| && i < |PutAfter(bs, k, b)|
    ensures OldOrLong(PutAfter(bs, k, b)[i], bs, b) && PutAfter(bs, k, b)[k + 1] == b
  {
  }

  lemma HighLens(bs: seq<Block>, k: nat, b: Block, i: nat)
    requires k < |bs| && i < |InsertHigh(bs, k, b)|
    ensures OldOrLong(InsertHigh(bs, k, b)[i], bs, b) && InsertHigh(bs, k, b)[k + 1].len >= b.len
  {
    hide PutAfter, OldOrLong;
    var x := PutAfter(bs, k, b);
    forall h: nat | h < |x| ensures OldOrLong(x[h], bs, b) {
      PutLens(bs, k, b, h);
    }
    PutLens(bs, k, b, k + 1);
    if Touch(x, k + 1) {
      JoinLens(x, k + 1, bs, b, i);
    }
  }

  /** Every entry of the list that `b` has been put into is an old one, or has the units of `b`. */
  lemma InsertLens(bs: seq<Block>, k: nat, b: Block, i: nat)
    requires k < |bs| && i < |Insert(bs, k, b)|
    ensures OldOrLong(Insert(bs, k, b)[i], bs, b)
  {
    hide OldOrLong;
    var y := InsertHigh(bs, k, b);
    forall h: nat | h < |y| ensures OldOrLong(y[h], bs, b) {
      HighLens(bs, k, b, h);
    }
    HighLens(bs, k, b, k + 1);
    if Touch(y, k) {
      JoinLens(y, k, bs, b, i);
    }
  }

  lemma TooShort(bs: seq<Block>, b: Block, n: nat)
    requires b in bs && !SomeFits(bs, n)
    ensures b.len < n
  {
    var h: nat :| h < |bs| && bs[h] == b;
  }

  /**
   What asking for `nu` more units at `hp` obtains and what the new header claims: 4096
   units at least; and both agree unless sbrk's int cannot hold the request.
   */
  ghost predicate Obtains(before: set<nat>, hp: nat, nu: nat, claimed: set<nat>, obtained: set<nat>) {
    if nu <= 4096 then claimed == obtained == before + Units(hp, 4096)
    else claimed == before + Units(hp, nu) && obtained == Granted(before, hp, AsInt(nu) / HEADER)
  }

  /** The new memory has been put into the list after entry `k`, where the next search starts. */
  ghost predicate PutIn(was: seq<Block>, k: nat, hp: nat, nu: nat, bs: seq<Block>, start: nat) {
    var more := Block(hp, if nu <= 4096 then 4096 else nu);
    FitsAfter(was, k, more) && bs == Insert(was, k, more) && start == was[k].at
  }

  /** Where nothing fitted before, the new memory is what was cut, and the rest of it stays. */
  lemma LeftOver(bs: seq<Block>, k: nat, hp: nat, mid: seq<Block>, start: nat, j: nat, n: nat)
    requires !SomeFits(bs, n) && PutIn(bs, k, hp, n, mid, start) && j < |mid| && mid[j].len >= n
    ensures n < 4096 ==> mid[j].len >= 4096 && SomeFits(Carve(mid, j, n), 4096 - n)
  {
    hide Insert;
    var b := Block(hp, if n <= 4096 then 4096 else n);
    InsertLens(bs, k, b, j);
    if mid[j] in bs {
      TooShort(bs, mid[j], n);
    }
    if n < 4096 {
      assert Carve(mid, j, n)[j].len == mid[j].len - n;
    }
  }

  /** What morecore asks sbrk for. */
  function MoreUnits(nu: nat): nat {
    if nu < 4096 then 4096 else nu
  }

  /** The units below the break after sbrk has moved it by `n` units from `hp`; it stays where it would go below 0. */
  ghost function Granted(obtained: set<nat>, hp: nat, n: int): set<nat> {
    if n >= 0 then obtained + Units(hp, n)
    else if hp + n < 0 then obtained
    else set u | u in obtained && u < hp + n
  }

  /** The units that the new header claims are those that sbrk gave exactly for requests below 2^27 units. */
  lemma HonestIff(obtained: set<nat>, hp: nat, nu: nat)
    requires nu > 0 && forall u :: u in obtained ==> u < hp
    ensures Granted(obtained, hp, AsInt(nu) / HEADER) == obtained + Units(hp, nu) <==> nu < 0x800_0000
  {
    var n := AsInt(nu) / HEADER;
    RequestFaithfulIff(nu);
    if n != nu {
      var last: nat := hp + nu - 1;
      assert last in obtained + Units(hp, nu) && last !in Granted(obtained, hp, n);
    }
  }

  /** morecore's request reaches sbrk intact exactly below 2^27 units, and is never more. */
  lemma RequestFaithfulIff(nu: nat)
    ensures -0x8000_0000 <= AsInt(nu) < 0x8000_0000 && (nu * HEADER - AsInt(nu)) % UINT == 0
    ensures AsInt(nu) / HEADER == nu <==> nu < 0x800_0000
    ensures AsInt(nu) == nu * HEADER <==> nu < 0x800_0000
    ensures AsInt(nu) / HEADER <= nu
  {
  }

  /** What is claimed is obtained exactly for requests below 2^27 units. */
  lemma ObtainsIff(before: set<nat>, hp: nat, nu: nat)
    requires nu > 0 && forall u :: u in before ==> u < hp
    ensures forall claimed, obtained :: Obtains(before, hp, nu, claimed, obtained) ==> (claimed == obtained <==> nu < 0x800_0000)
  {
    HonestIff(before, hp, nu);
  }

  /** What morecore does obtains that. */
  lemma ObtainsBy(before: set<nat>, hp: nat, nu: nat)
    requires nu > 0 && forall u :: u in before ==> u < hp
    ensures Obtains(before, hp, nu, before + Units(hp, MoreUnits(nu)), Granted(before, hp, AsInt(MoreUnits(nu)) / HEADER))
  {
    hide Granted, Units, AsInt;
    HonestIff(before, hp, 4096);
  }

  lemma NewHeader(bs: seq<Block>, base: nat, live: map<nat, nat>, obtained: set<nat>, ptr: map<nat, nat>, size: map<nat, nat>, hp: nat, n: nat)
    requires Ordered(bs, base) && Linked(bs, ptr, size) && Partition(bs, live, obtained) && Apart(live, base)
    requires base < hp && forall u :: u in obtained ==> u < hp
    ensures Linked(bs, ptr, size[hp := n]) && hp !in live
  {
    LiveBelow(bs, base, live, obtained, hp);
    var size' := size[hp := n];
    forall i: nat | i < |bs| ensures LinkedAt(bs, ptr, size', i) {
      assert LinkedAt(bs, ptr, size, i);
      if i > 0 {
        assert InBlocks(bs, bs[i].at);
      }
    }
  }

  lemma SomeFitsLess(bs: seq<Block>, n: nat, k: nat)
    requires SomeFits(bs, n) && k <= n
    ensures SomeFits(bs, k)
  {
  }

  lemma CarvePartition(bs: seq<Block>, base: nat, live: map<nat, nat>, obtained: set<nat>, j: nat, n: nat)
    requires Ordered(bs, base) && Apart(live, base) && Partition(bs, live, obtained) && 0 < j < |bs| && 0 < n <= bs[j].len
    ensures
      var a := bs[j].at + bs[j].len - n;
      a !in live && Apart(live[a := n], base) && Partition(Carve(bs, j, n), live[a := n], obtained)
  {
    hide Carve, Partition;
    var a := bs[j].at + bs[j].len - n;
    forall u: nat ensures InBlocks(Carve(bs, j, n), u) <==> InBlocks(bs, u) && !(a <= u < a + n) {
      CarveUnits(bs, base, j, n, u);
    }
    TakePartition(bs, Carve(bs, j, n), base, live, obtained, a, n);
  }

  /** Having come all the way round, the search has looked at every entry. */
  lemma NoneFits(bs: seq<Block>, f: nat, n: nat)
    requires f < |bs| && bs[f].len < n && NoneSeen(bs, f, f, n)
    ensures !SomeFits(bs, n)
  {
  }

  /** The condition on which free's search stops at an entry at `p` whose successor is at `q`. */
  predicate Stops(bp: nat, p: nat, q: nat) {
    (bp > p && bp < q) || (p >= q && (bp > p || bp < q))
  }

  /** It stops at the entry before the gap and at no other. */
  lemma GapTest(bs: seq<Block>, base: nat, ptr: map<nat, nat>, size: map<nat, nat>, bp: nat, k: nat)
    requires Ordered(bs, base) && Linked(bs, ptr, size) && base > 0 && base < bp && k < |bs|
    requires forall i: nat :: i < |bs| ==> bs[i].at != bp
    ensures LinkedAt(bs, ptr, size, k) && bs[k].at > 0
    ensures Stops(bp, bs[k].at, ptr[bs[k].at]) <==> k == GapOf(bs, base, bp)
  {
    var g := GapOf(bs, base, bp);
    assert LinkedAt(bs, ptr, size, k);
    assert k < g ==> bs[k + 1].at <= bs[g].at;
    assert g < k ==> bs[g + 1].at <= bs[k].at;
    assert base <= bs[k].at;
  }

  /** Entry `j`, which has room, is linked from entry `j - 1`, and both stay in the list or leave it as carving says. */
  lemma CarveFrom(bs: seq<Block>, base: nat, ptr: map<nat, nat>, size: map<nat, nat>, j: nat, n: nat)
    requires Ordered(bs, base) && base > 0 && Linked(bs, ptr, size) && 0 < j < |bs| && 0 < n <= bs[j].len
    ensures LinkedAt(bs, ptr, size, j) && LinkedAt(bs, ptr, size, j - 1) && bs[j - 1].at > 0
    ensures j - 1 < |Carve(bs, j, n)| && Carve(bs, j, n)[j - 1].at == bs[j - 1].at
  {
  }

  class Heap {
    /** The static header, below the heap. */
    const base: nat
    /** The s.ptr and s.size fields of the headers, by unit address. */
    var ptr: map<nat, nat>
    var size: map<nat, nat>
    /** 0 before the first call. */
    var freep: nat

    ghost var bs: seq<Block>
    ghost var live: map<nat, nat>
    /** The units that headers account for, and those that sbrk gave. */
    ghost var claimed: set<nat>
    ghost var obtained: set<nat>

    /** The free list's part of the invariant; `at` is where freep stands in it. */
    ghost predicate List()
      reads this
    {
      && base > 0 && Ordered(bs, base) && Coalesced(bs)
      && Linked(bs, ptr, size)
      && exists f: nat :: f < |bs| && bs[f].at == freep
    }

    ghost predicate Blocks()
      reads this
    {
      && Apart(live, base) && Partition(bs, live, claimed)
      && (forall a :: a in live ==> a in size && size[a] == live[a])
      && (forall u :: u in claimed ==> base < u)
    }

    ghost predicate Sound()
      reads this
    {
      if freep == 0 then base > 0 && bs == [Block(base, 0)] && live == map[] && claimed == {} else List() && Blocks()
    }

    /** The heap is sound, and its blocks are made of the units obtained from sbrk, each once. */
    ghost predicate Valid()
      reads this
    {
      Sound() && claimed == obtained
    }

    constructor (base: nat)
      requires base > 0
      ensures Valid() && this.base == base && freep == 0 && bs == [Block(base, 0)] && obtained == {} && live == map[]
    {
      this.base := base;
      ptr, size, freep := map[], map[], 0;
      bs, live, claimed, obtained := [Block(base, 0)], map[], {}, {};
    }

    /** The first-call initialisation. */
    method Start()
      requires Sound()
      modifies this`ptr, this`size, this`freep
      ensures freep != 0 && Sound() && List() && Blocks()
      ensures freep == if old(freep) == 0 then base else old(freep)
    {
      if freep == 0 {
        freep := base;
        ptr := ptr[base := base];
        size := size[base := 0];
        assert bs[0].at == freep;
      }
    }

    /** Where free's loop stops: the entry before the gap for `bp`. */
    method FindGap(bp: nat) returns (p: nat, ghost k: nat)
      requires List() && base < bp && forall i: nat :: i < |bs| ==> bs[i].at != bp
      ensures k < |bs| && 0 < p == bs[k].at < bp && (k + 1 < |bs| ==> bp < bs[k + 1].at)
    {
      hide Ordered, Coalesced, GapOf;
      ghost var g := GapOf(bs, base, bp);
      p := freep;
      k :| k < |bs| && bs[k].at == freep;
      GapTest(bs, base, ptr, size, bp, k);
      while !(bp > p && bp < ptr[p])
        invariant k < |bs| && p == bs[k].at && LinkedAt(bs, ptr, size, k)
        invariant bs[k].at > 0 && (Stops(bp, p, ptr[p]) <==> k == g)
        decreases if k <= g then g - k else |bs| - k + g
      {
        if p >= ptr[p] && (bp > p || bp < ptr[p]) {
          break;
        }
        k := Next(|bs|, k);
        p := ptr[p];
        GapTest(bs, base, ptr, size, bp, k);
      }
    }

    /** free's first test: join the block at `bp` to the entry above it, or point it there. */
    method LinkUp(bp: nat, p: nat, ghost k: nat)
      requires List() && bp in size && FitsAfter(bs, k, Block(bp, size[bp])) && p == bs[k].at
      modifies this`ptr, this`size
      ensures Linked(InsertHigh(bs, k, Block(bp, old(size[bp]))), ptr[p := bp], size)
      ensures size.Keys == old(size).Keys && forall a :: a in size && a != bp ==> size[a] == old(size)[a]
    {
      hide Insert, Ordered, Coalesced, PutAfter, Join;
      ghost var b := Block(bp, size[bp]);
      LinkedHere(bs, base, ptr, size, k, bp);
      UpperTouch(bs, base, k, b, ptr, size);
      if bp + size[bp] == ptr[p] {
        UpperJoin(bs, base, k, b, ptr, size);
        size := size[bp := size[bp] + size[ptr[p]]];
        ptr := ptr[bp := ptr[ptr[p]]];
      } else {
        LinkedPut(bs, base, k, b, ptr, size);
        ptr := ptr[bp := ptr[p]];
      }
    }

    /** free's second test: join it to the entry below it, or point that entry at it. */
    method LinkDown(bp: nat, p: nat, ghost k: nat, ghost b: Block)
      requires Ordered(bs, base) && Coalesced(bs) && base > 0 && FitsAfter(bs, k, b) && bp == b.at && p == bs[k].at
      requires Linked(InsertHigh(bs, k, b), ptr[p := bp], size)
      modifies this`ptr, this`size, this`freep, this`bs
      ensures bs == Insert(old(bs), k, b) && List() && freep == p
      ensures size.Keys == old(size).Keys && forall a :: a in size && a != p ==> size[a] == old(size)[a]
    {
      hide Insert, InsertHigh, Ordered, Coalesced, Linked, Join;
      InsertKeeps(bs, base, k, b);
      LowerTouch(bs, base, k, b);
      LowerJoin(bs, base, k, b, InsertHigh(bs, k, b), ptr[p := bp], size);
      if p + size[p] == bp {
        assert ptr[p := bp][p := ptr[bp]] == ptr[p := ptr[bp]];
        size := size[p := size[p] + size[bp]];
        ptr := ptr[p := ptr[bp]];
      } else {
        ptr := ptr[p := bp];
      }
      freep := p;
      bs := Insert(bs, k, b);
      assert bs[k].at == freep;
    }

    /** Return the block whose payload starts at `ap`. */
    method Free(ap: nat) returns (ghost k: nat)
      requires freep != 0 && Sound() && ap > 0 && ap - 1 in live
      modifies this`ptr, this`size, this`freep, this`bs, this`live
      ensures freep != 0 && Sound() && live == old(live) - {ap - 1} && (old(Valid()) ==> Valid())
      ensures forall u: nat :: InBlocks(bs, u) <==> InBlocks(old(bs), u) || ap - 1 <= u < ap - 1 + old(live)[ap - 1]
      ensures FitsAfter(old(bs), k, Block(ap - 1, old(live)[ap - 1])) && freep == old(bs)[k].at
      ensures bs == Insert(old(bs), k, Block(ap - 1, old(live)[ap - 1]))
      ensures SomeFits(bs, old(live)[ap - 1])
    {
      hide Insert, Coalesced, Linked, Apart, Partition, InBlocks, SomeFits, FitsAfter, Ordered;
      var bp := ap - 1;
      NotListed(bs, base, live, claimed, bp);
      var p;
      p, k := FindGap(bp);
      LiveFits(bs, base, live, claimed, bp, k);
      ghost var b, bs0 := Block(bp, live[bp]), bs;
      InsertKeeps(bs, base, k, b);
      InsertFits(bs, base, k, b);
      LinkUp(bp, p, k);
      LinkDown(bp, p, k, b);
      FreePartition(bs0, bs, base, live, claimed, bp);
      NotLive(bs0, base, live, claimed, k);
      live := live - {bp};
    }

    /**
     Ask for at least `nu` more units; 0 when sbrk fails.  `sbrk` is its answer to the
     argument it receives, AsInt of the request; what the header then claims is the request.
     */
    method Morecore(nu: nat, sbrk: Option<nat>) returns (p: nat, ghost k: nat)
      requires freep != 0 && Valid() && nu > 0
      requires sbrk.Some? ==> base < sbrk.value && forall u :: u in obtained ==> u < sbrk.value
      modifies this`ptr, this`size, this`freep, this`bs, this`live, this`claimed, this`obtained
      ensures freep != 0 && Sound() && live == old(live)
      ensures sbrk.None? ==> p == 0 && bs == old(bs) && claimed == obtained == old(obtained) && freep == old(freep)
      ensures sbrk.Some? ==> Obtains(old(obtained), sbrk.value, nu, claimed, obtained)
      ensures sbrk.Some? ==> PutIn(old(bs), k, sbrk.value, nu, bs, freep) && p == freep && SomeFits(bs, nu)
    {
      hide Coalesced, Apart, Partition, InBlocks, Linked, Ordered, SomeFits, Units, Granted, AsInt, Insert, FitsAfter, Obtains;
      k := 0;
      if sbrk.None? {
        return 0, k;
      }
      var hp := sbrk.value;
      ObtainsBy(obtained, hp, nu);
      MorePartition(bs, base, live, claimed, hp, MoreUnits(nu), Units(hp, MoreUnits(nu)));
      NewHeader(bs, base, live, claimed, ptr, size, hp, MoreUnits(nu));
      size := size[hp := MoreUnits(nu)];
      live := live[hp := MoreUnits(nu)];
      obtained := Granted(obtained, hp, AsInt(MoreUnits(nu)) / HEADER);
      claimed := claimed + Units(hp, MoreUnits(nu));
      k := Free(hp + 1);
      SomeFitsLess(bs, MoreUnits(nu), nu);
      p := freep;
    }

    /** Take `n` units from entry `j`, which follows `prevp`. */
    method TakeFrom(prevp: nat, p: nat, n: nat, ghost j: nat) returns (addr: nat)
      requires freep != 0 && Sound() && 0 < j < |bs| && p == bs[j].at && prevp == bs[j - 1].at && 0 < n <= bs[j].len
      modifies this`ptr, this`size, this`freep, this`bs, this`live
      ensures freep != 0 && Sound() && bs == Carve(old(bs), j, n) && freep == prevp
      ensures addr == old(bs)[j].at + old(bs)[j].len - n + 1 && addr - 1 !in old(live) && live == old(live)[addr - 1 := n]
    {
      hide Coalesced, Apart, Partition, InBlocks, Ordered, Carve, Linked;
      CarveOrdered(bs, base, j, n);
      CarvePartition(bs, base, live, claimed, j, n);
      CarveFrom(bs, base, ptr, size, j, n);
      NotLive(bs, base, live, claimed, j);
      if size[p] == n {
        LinkedRemove(bs, base, j, ptr, size);
        ptr := ptr[prevp := ptr[p]];
        addr := p;
      } else {
        LinkedShrink(bs, base, j, n, ptr, size);
        size := size[p := size[p] - n];
        addr := p + size[p];
        size := size[addr := n];
      }
      bs := Carve(bs, j, n);
      live := live[addr := n];
      freep := prevp;
      assert bs[j - 1].at == freep;
      addr := addr + 1;
    }

    /**
     Allocate `nbytes`.  `sbrk` is what sbrk would return if asked; `called` says whether
     it was, `cut` from where in which list the search that succeeded started and which
     entry it cut, and `k` after which entry the new memory was put.
     */
    method Malloc(nbytes: nat, sbrk: Option<nat>) returns (addr: nat, ghost called: bool, ghost cut: Cut, ghost k: nat)
      requires Valid() && nbytes < UINT
      requires sbrk.Some? ==> base < sbrk.value && forall u :: u in obtained ==> u < sbrk.value
      modifies this`ptr, this`size, this`freep, this`bs, this`live, this`claimed, this`obtained
      ensures freep != 0 && Sound()
      ensures called <==> !SomeFits(old(bs), Nunits(nbytes))
      ensures Valid() <==> SomeFits(old(bs), Nunits(nbytes)) || sbrk.None? || Nunits(nbytes) < 0x800_0000
      ensures addr == 0 <==> called && sbrk.None?
      ensures addr == 0 ==> live == old(live) && obtained == old(obtained) && bs == old(bs)
      ensures addr != 0 ==> addr - 1 !in old(live) && live == old(live)[addr - 1 := Nunits(nbytes)]
      ensures addr != 0 && called ==> Obtains(old(obtained), sbrk.value, Nunits(nbytes), claimed, obtained)
      ensures addr != 0 && called && Nunits(nbytes) < 4096 ==> SomeFits(bs, 4096 - Nunits(nbytes))
      ensures addr != 0 ==> CutFrom(cut, Nunits(nbytes), bs, addr, freep)
      ensures addr != 0 && !called ==>
        obtained == old(obtained) && cut.list == old(bs) && cut.start == if old(freep) == 0 then base else old(freep)
      ensures addr != 0 && called ==> PutIn(old(bs), k, sbrk.value, Nunits(nbytes), cut.list, cut.start)
    {
      hide List, Blocks, SomeFits, NoneSeen, Dist, Carve, Units, Granted, AsInt, Insert, FitsAfter, MoreUnits, Obtains, PutIn, Nunits;
      var nunits := Nunits(nbytes);
      if sbrk.Some? {
        ObtainsIff(obtained, sbrk.value, nunits);
      }
      Start();
      ghost var f: nat := FreepAt();
      ghost var h: nat := f;
      var prevp := freep;
      Entry(f);
      var p := ptr[prevp];
      ghost var j := Next(|bs|, f);
      called, k := false, 0;
      SeenStart(bs, f, nunits);
      while true
        invariant freep != 0 && Sound() && live == old(live)
        invariant f < |bs| && bs[f].at == freep && h < |bs| && j == Next(|bs|, h) && prevp == bs[h].at && p == bs[j].at
        invariant NoneSeen(bs, f, j, nunits)
        invariant called ==> SomeFits(bs, nunits) && !SomeFits(old(bs), nunits) && sbrk.Some?
        invariant called ==> Obtains(old(obtained), sbrk.value, nunits, claimed, obtained)
        invariant called ==> PutIn(old(bs), k, sbrk.value, nunits, bs, freep)
        invariant !called ==> bs == old(bs) && claimed == obtained == old(obtained) && freep == if old(freep) == 0 then base else old(freep)
        decreases !called, Dist(|bs|, j, f)
      {
        Entry(j);
        if size[p] >= nunits {
          assert FirstFrom(bs, freep, j, nunits, f);
          FitsHere(j, nunits);
          cut := Cut(bs, freep, j);
          HeadOf(h, j);
          addr := TakeFrom(prevp, p, nunits, j);
          if called {
            LeftOver(old(bs), k, sbrk.value, cut.list, cut.start, j, nunits);
          }
          return;
        }
        if p == freep {
          SameEntry(j, f);
          NoneFits(bs, f, nunits);
          assert !called;
          called := true;
          p, k := Morecore(nunits, sbrk);
          if p == 0 {
            return 0, called, Cut(bs, freep, j), k;
          }
          f := FreepAt();
          j := f;
          Entry(j);
          SeenStart(bs, f, nunits);
        } else {
          SeenMore(bs, f, j, nunits);
        }
        h := j;
        prevp := p;
        p := ptr[p];
        j := Next(|bs|, j);
      }
    }

    /** The entry before one that can be cut. */
    lemma HeadOf(h: nat, j: nat)
      requires h < |bs| && j == Next(|bs|, h) && j > 0
      ensures h == j - 1
    {
    }

    lemma FreepAt() returns (f: nat)
      requires freep != 0 && Sound()
      ensures f < |bs| && bs[f].at == freep
    {
      f :| f < |bs| && bs[f].at == freep;
    }

    lemma Entry(i: nat)
      requires freep != 0 && Sound() && i < |bs|
      ensures LinkedAt(bs, ptr, size, i)
    {
    }

    /** A block with units to give is not the static header. */
    lemma FitsHere(j: nat, n: nat)
      requires freep != 0 && Sound() && j < |bs| && bs[j].len >= n > 0
      ensures j > 0 && SomeFits(bs, n)
    {
    }

    lemma SameEntry(j: nat, f: nat)
      requires freep != 0 && Sound() && j < |bs| && f < |bs| && bs[j].at == bs[f].at
      ensures j == f
    {
    }
  }

  /** The gap that holds `bp`. */
  ghost function GapOf(bs: seq<Block>, base: nat, bp: nat): (k: nat)
    requires Ordered(bs, base) && base < bp && forall i: nat :: i < |bs| ==> bs[i].at != bp
    ensures k < |bs| && bs[k].at < bp && (k + 1 < |bs| ==> bp < bs[k + 1].at)
  {
    GapFrom(bs, base, bp, 0)
  }

  ghost function GapFrom(bs: seq<Block>, base: nat, bp: nat, i: nat): (k: nat)
    requires Ordered(bs, base) && i < |bs| && bs[i].at < bp && forall i: nat :: i < |bs| ==> bs[i].at != bp
    ensures k < |bs| && bs[k].at < bp && (k + 1 < |bs| ==> bp < bs[k + 1].at)
    decreases |bs| - i
  {
    if i + 1 < |bs| && bs[i + 1].at < bp then GapFrom(bs, base, bp, i + 1) else i
  }

  lemma NothingFits(base: nat, n: nat)
    requires n > 0
    ensures !SomeFits([Block(base, 0)], n)
  {
  }

  lemma HugeUnits()
    ensures Nunits(0xFFFF_FFFF) == 0x1000_0001
  {
  }

  lemma HugeIsOneUnit(hp: nat, claimed: set<nat>, obtained: set<nat>)
    requires Obtains({}, hp, 0x1000_0001, claimed, obtained)
    ensures |obtained| == 1
  {
    assert AsInt(0x1000_0001) == 16;
    assert {} + Units(hp, 1) == Units(hp, 1);
  }

  /**
   A request for 2^32 - 1 bytes on a fresh heap: sbrk is asked for one unit, and
   malloc returns a block of 2^28 + 1.
   */
  method HugeRequest(base: nat, hp: nat) returns (h: Heap, addr: nat)
    requires 0 < base < hp
    ensures fresh(h) && h.Sound() && !h.Valid()
    ensures addr > 0 && addr - 1 in h.live && h.live[addr - 1] == 0x1000_0001 && |h.obtained| == 1
  {
    hide Heap.Sound, Units, SomeFits, Nunits, MoreUnits, AsInt, Granted, FirstFit, Carve, Insert, FitsAfter, Obtains, PutIn;
    h := new Heap(base);
    HugeUnits();
    NothingFits(base, 0x1000_0001);
    ghost var called, cut, k;
    addr, called, cut, k := h.Malloc(0xFFFF_FFFF, Some(hp));
    HugeIsOneUnit(hp, h.claimed, h.obtained);
  }

  lemma SmallObtained(hp: nat, nu: nat, claimed: set<nat>, obtained: set<nat>)
    requires Obtains({}, hp, nu, claimed, obtained) && nu <= 4096
    ensures claimed == obtained == Units(hp, 4096)
  {
    assert {} + Units(hp, 4096) == Units(hp, 4096);
  }

  /**
   Two small requests on a fresh heap that fit the 4096 units that the first obtains: the
   second does not ask sbrk.
   */
  method TwoSmallRequests(base: nat, hp: nat, nbytes: nat, more: nat) returns (h: Heap, x: nat, y: nat, ghost called: bool)
    requires 0 < base < hp && nbytes < UINT && more < UINT && Nunits(nbytes) + Nunits(more) <= 4096
    ensures fresh(h) && h.Valid() && h.obtained == Units(hp, 4096)
    ensures x > 0 && y > 0 && !called && h.live == map[x - 1 := Nunits(nbytes), y - 1 := Nunits(more)]
  {
    hide Heap.Sound, Units, SomeFits, Nunits, MoreUnits, AsInt, Granted, FirstFit, Carve, Insert, FitsAfter, Obtains, PutIn;
    h := new Heap(base);
    NothingFits(base, Nunits(nbytes));
    ghost var first, cut, k;
    x, first, cut, k := h.Malloc(nbytes, Some(hp));
    SmallObtained(hp, Nunits(nbytes), h.claimed, h.obtained);
    SomeFitsLess(h.bs, 4096 - Nunits(nbytes), Nunits(more));
    y, called, cut, k := h.Malloc(more, None);
  }
}
