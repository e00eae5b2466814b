/**
 user/umalloc.c on values: the address-ordered free list as a sequence of blocks,
 measured in header-sized units, and what inserting, joining and carving do to it.
 */
module UmallocList {
  /** `len` units from unit address `at`, header included. */
  datatype Block = Block(at: nat, len: nat)

  function Next(n: nat, i: nat): (j: nat)
    requires i < n
    ensures j < n
  {
    if i + 1 == n then 0 else i + 1
  }

  /** The `n` units from `a`. */
  ghost function Units(a: nat, n: nat): (s: set<nat>)
    ensures |s| == n && forall u: nat :: u in s <==> a <= u < a + n
  {
    if n == 0 then {} else Units(a, n - 1) + {a + n - 1}
  }

  /** Unit `u` lies in a block of the list. */
  ghost predicate InBlocks(bs: seq<Block>, u: nat) {
    exists i: nat :: i < |bs| && bs[i].at <= u < bs[i].at + bs[i].len
  }

  ghost predicate InLive(live: map<nat, nat>, u: nat) {
    exists a: nat :: a in live && a <= u < a + live[a]
  }

  /** The list starts with the empty block `base`; blocks are in address order and do not overlap. */
  ghost predicate Ordered(bs: seq<Block>, base: nat) {
    && |bs| > 0 && bs[0] == Block(base, 0)
    && (forall i: nat :: 0 < i < |bs| ==> bs[i].len > 0 && base < bs[i].at)
    && forall i: nat, j: nat :: i < j < |bs| ==> bs[i].at < bs[j].at && bs[i].at + bs[i].len <= bs[j].at
  }

  /** No two blocks touch. */
  ghost predicate Coalesced(bs: seq<Block>) {
    forall i: nat, j: nat :: i < j < |bs| ==> bs[i].at + bs[i].len < bs[j].at
  }

  /** Live blocks are not empty and do not overlap each other. */
  ghost predicate Apart(live: map<nat, nat>, base: nat) {
    && (forall a :: a in live ==> live[a] > 0 && a > base)
    && forall a, b :: a in live && b in live && a != b ==> a + live[a] <= b || b + live[b] <= a
  }

  /** Every unit obtained from sbrk, and no other, is in exactly one of the free and the live blocks. */
  ghost predicate Partition(bs: seq<Block>, live: map<nat, nat>, obtained: set<nat>) {
    && (forall u: nat :: u in obtained <==> InBlocks(bs, u) || InLive(live, u))
    && (forall u: nat :: !(InBlocks(bs, u) && InLive(live, u)))
  }

  ghost function FreeUnits(bs: seq<Block>, obtained: set<nat>): set<nat> {
    set u | u in obtained && InBlocks(bs, u)
  }

  ghost function LiveUnits(live: map<nat, nat>, obtained: set<nat>): set<nat> {
    set u | u in obtained && InLive(live, u)
  }

  /** Free units plus live units are the units obtained. */
  lemma Conservation(bs: seq<Block>, live: map<nat, nat>, obtained: set<nat>)
    requires Partition(bs, live, obtained)
    ensures |FreeUnits(bs, obtained)| + |LiveUnits(live, obtained)| == |obtained|
  {
    assert obtained == FreeUnits(bs, obtained) + LiveUnits(live, obtained);
  }

  // ---- the links ----

  /** The headers at the blocks hold their sizes and lead round the list. */
  ghost predicate Linked(bs: seq<Block>, ptr: map<nat, nat>, size: map<nat, nat>) {
    forall i: nat :: i < |bs| ==> LinkedAt(bs, ptr, size, i)
  }

  // ---- inserting ----

  /** `b` goes in after entry `k`. */
  function PutAfter(bs: seq<Block>, k: nat, b: Block): (r: seq<Block>)
    requires k < |bs|
    ensures |r| == |bs| + 1 && r[k + 1] == b
    ensures forall i: nat {:trigger r[i]} :: i <= k ==> r[i] == bs[i]
    ensures forall i: nat {:trigger r[i]} :: k + 1 < i < |r| ==> r[i] == bs[i - 1]
  {
    bs[..k + 1] + [b] + bs[k + 1..]
  }

  /** Entries `k` and `k + 1` become one. */
  function Join(bs: seq<Block>, k: nat): (r: seq<Block>)
    requires k + 1 < |bs|
    ensures |r| == |bs| - 1 && r[k] == Block(bs[k].at, bs[k].len + bs[k + 1].len)
    ensures forall i: nat {:trigger r[i]} :: i < k ==> r[i] == bs[i]
    ensures forall i: nat {:trigger r[i]} :: k < i < |r| ==> r[i] == bs[i + 1]
  {
    bs[..k] + [Block(bs[k].at, bs[k].len + bs[k + 1].len)] + bs[k + 2..]
  }

  predicate Touch(bs: seq<Block>, k: nat) {
    k + 1 < |bs| && bs[k].at + bs[k].len == bs[k + 1].at
  }

  /** The list after `b` has been freed into the gap after entry `k`. */
  function Insert(bs: seq<Block>, k: nat, b: Block): seq<Block>
    requires k < |bs|
  {
    var y := InsertHigh(bs, k, b);
    if Touch(y, k) then Join(y, k) else y
  }

  /** ... and before the lower neighbour has been looked at. */
  function InsertHigh(bs: seq<Block>, k: nat, b: Block): seq<Block>
    requires k < |bs|
  {
    var x := PutAfter(bs, k, b);
    if Touch(x, k + 1) then Join(x, k + 1) else x
  }

  /** The gap after entry `k` holds `b`. */
  ghost predicate FitsAfter(bs: seq<Block>, k: nat, b: Block) {
    && k < |bs| && b.len > 0 && bs[k].at < b.at && bs[k].at + bs[k].len <= b.at
    && (k + 1 < |bs| ==> b.at + b.len <= bs[k + 1].at)
  }

  lemma PutOrdered(bs: seq<Block>, base: nat, k: nat, b: Block)
    requires Ordered(bs, base) && FitsAfter(bs, k, b)
    ensures Ordered(PutAfter(bs, k, b), base)
  {
    hide PutAfter;
    var r := PutAfter(bs, k, b);
    forall i: nat | 0 < i < |r| ensures r[i].len > 0 && base < r[i].at {
      assert base <= bs[k].at;
    }
    forall i: nat, j: nat | i < j < |r| ensures r[i].at < r[j].at && r[i].at + r[i].len <= r[j].at {
    }
  }

  lemma PutUnits(bs: seq<Block>, k: nat, b: Block, u: nat)
    requires k < |bs|
    ensures InBlocks(PutAfter(bs, k, b), u) <==> InBlocks(bs, u) || b.at <= u < b.at + b.len
  {
    hide PutAfter;
    var r := PutAfter(bs, k, b);
    if i: nat :| i < |bs| && bs[i].at <= u < bs[i].at + bs[i].len {
      assert r[if i <= k then i else i + 1] == bs[i];
    }
    if b.at <= u < b.at + b.len {
      assert r[k + 1] == b;
    }
  }

  lemma JoinOrdered(bs: seq<Block>, base: nat, k: nat)
    requires Ordered(bs, base) && 0 < k && Touch(bs, k)
    ensures Ordered(Join(bs, k), base)
  {
    hide Join;
    var r := Join(bs, k);
    forall i: nat | 0 < i < |r| ensures r[i].len > 0 && base < r[i].at {
    }
    forall i: nat, j: nat | i < j < |r| ensures r[i].at < r[j].at && r[i].at + r[i].len <= r[j].at {
    }
  }

  lemma JoinUnits(bs: seq<Block>, k: nat, u: nat)
    requires Touch(bs, k)
    ensures InBlocks(Join(bs, k), u) <==> InBlocks(bs, u)
  {
    hide Join;
    var r := Join(bs, k);
    if i: nat :| i < |bs| && bs[i].at <= u < bs[i].at + bs[i].len {
      if i <= k {
        assert r[i].at <= u < r[i].at + r[i].len;
      } else {
        assert r[i - 1].at <= u < r[i - 1].at + r[i - 1].len;
      }
    }
    if i: nat :| i < |r| && r[i].at <= u < r[i].at + r[i].len {
      assert if i < k then bs[i] == r[i] else if i == k then bs[k].at <= u < bs[k].at + bs[k].len || bs[k + 1].at <= u < bs[k + 1].at + bs[k + 1].len else bs[i + 1] == r[i];
    }
  }

  /** Freed into its gap, a block leaves the list ordered, coalesced and with exactly its units more. */
  lemma InsertKeeps(bs: seq<Block>, base: nat, k: nat, b: Block)
    requires Ordered(bs, base) && Coalesced(bs) && FitsAfter(bs, k, b)
    ensures Ordered(Insert(bs, k, b), base) && Coalesced(Insert(bs, k, b))
    ensures forall u: nat :: InBlocks(Insert(bs, k, b), u) <==> InBlocks(bs, u) || b.at <= u < b.at + b.len
    ensures k < |Insert(bs, k, b)| && Insert(bs, k, b)[k].at == bs[k].at
  {
    hide InBlocks, PutAfter, Join, Ordered, Coalesced;
    var x := PutAfter(bs, k, b);
    PutOrdered(bs, base, k, b);
    var y := if Touch(x, k + 1) then Join(x, k + 1) else x;
    if Touch(x, k + 1) {
      JoinOrdered(x, base, k + 1);
    }
    if Touch(y, k) {
      BaseAlone(bs, base, k, b);
      JoinOrdered(y, base, k);
    }
    InsertCoalesced(bs, base, k, b);
    forall u: nat ensures InBlocks(Insert(bs, k, b), u) <==> InBlocks(bs, u) || b.at <= u < b.at + b.len {
      PutUnits(bs, k, b, u);
      if Touch(x, k + 1) {
        JoinUnits(x, k + 1, u);
      }
      if Touch(y, k) {
        JoinUnits(y, k, u);
      }
    }
  }

  /** Nothing is ever joined to the empty block at the start. */
  lemma BaseAlone(bs: seq<Block>, base: nat, k: nat, b: Block)
    requires Ordered(bs, base) && FitsAfter(bs, k, b) && bs[k].at + bs[k].len == b.at
    ensures k > 0
  {
  }

  lemma InsertCoalesced(bs: seq<Block>, base: nat, k: nat, b: Block)
    requires Ordered(bs, base) && Coalesced(bs) && FitsAfter(bs, k, b)
    ensures Coalesced(Insert(bs, k, b))
  {
    var z := Insert(bs, k, b);
    forall i: nat, j: nat | i < j < |z| ensures z[i].at + z[i].len < z[j].at {
      InsertGap(bs, base, k, b, i, j);
    }
  }

  lemma InsertGap(bs: seq<Block>, base: nat, k: nat, b: Block, i: nat, j: nat)
    requires Ordered(bs, base) && Coalesced(bs) && FitsAfter(bs, k, b) && i < j < |Insert(bs, k, b)|
    ensures Insert(bs, k, b)[i].at + Insert(bs, k, b)[i].len < Insert(bs, k, b)[j].at
  {
    hide PutAfter, Join, Ordered, Coalesced;
    var y := InsertHigh(bs, k, b);
    HighShape(bs, k, b);
    if Touch(y, k) {
      HighGap(bs, base, k, b, if i <= k then i else i + 1, j + if j <= k then 0 else 1);
      if i == k {
        HighGap(bs, base, k, b, k + 1, j + 1);
      }
    } else {
      HighGap(bs, base, k, b, i, j);
    }
  }

  lemma HighShape(bs: seq<Block>, k: nat, b: Block)
    requires FitsAfter(bs, k, b)
    ensures
      var x, y := PutAfter(bs, k, b), InsertHigh(bs, k, b);
      && k + 1 < |y| && y[k] == bs[k] && y[k + 1].at == b.at
      && |y| == if Touch(x, k + 1) then |bs| else |bs| + 1
  {
  }

  /** After the upper join only entries `k` and `k + 1` can still touch. */
  lemma HighGap(bs: seq<Block>, base: nat, k: nat, b: Block, i: nat, j: nat)
    requires Ordered(bs, base) && Coalesced(bs) && FitsAfter(bs, k, b) && i < j < |InsertHigh(bs, k, b)|
    ensures
      var y := InsertHigh(bs, k, b);
      y[i].at + y[i].len <= y[j].at && ((i == k && j == k + 1) || y[i].at + y[i].len < y[j].at)
  {
    hide PutAfter, Join;
    var x, y := PutAfter(bs, k, b), InsertHigh(bs, k, b);
    var merged := Touch(x, k + 1);
    assert x[k + 1] == b;
    assert i <= k ==> y[i] == bs[i];
    assert j <= k ==> y[j] == bs[j];
    assert j > k + 1 ==> y[j] == bs[if merged then j else j - 1];
    assert i > k + 1 ==> y[i] == bs[if merged then i else i - 1];
  }

  // ---- the links under insertion ----

  lemma LinkedPut(bs: seq<Block>, base: nat, k: nat, b: Block, ptr: map<nat, nat>, size: map<nat, nat>)
    requires Linked(bs, ptr, size) && Ordered(bs, base) && FitsAfter(bs, k, b) && b.at in size && size[b.at] == b.len
    requires LinkedAt(bs, ptr, size, k)
    ensures Linked(PutAfter(bs, k, b), ptr[b.at := ptr[bs[k].at]][bs[k].at := b.at], size)
  {
    var r, ptr' := PutAfter(bs, k, b), ptr[b.at := ptr[bs[k].at]][bs[k].at := b.at];
    forall i: nat | i < |r| ensures LinkedAt(r, ptr', size, i) {
      LinkedPutAt(bs, base, k, b, ptr, size, i);
    }
  }

  ghost predicate LinkedAt(bs: seq<Block>, ptr: map<nat, nat>, size: map<nat, nat>, i: nat)
    requires i < |bs|
  {
    && bs[i].at in ptr && bs[i].at in size
    && size[bs[i].at] == bs[i].len && ptr[bs[i].at] == bs[Next(|bs|, i)].at
  }

  lemma LinkedPutAt(bs: seq<Block>, base: nat, k: nat, b: Block, ptr: map<nat, nat>, size: map<nat, nat>, i: nat)
    requires Linked(bs, ptr, size) && Ordered(bs, base) && FitsAfter(bs, k, b) && b.at in size && size[b.at] == b.len
    requires i <= |bs| && LinkedAt(bs, ptr, size, k)
    ensures LinkedAt(PutAfter(bs, k, b), ptr[b.at := ptr[bs[k].at]][bs[k].at := b.at], size, i)
  {
    hide PutAfter;
    var r := PutAfter(bs, k, b);
    if i != k + 1 {
      var i0 := if i <= k then i else i - 1;
      assert r[i] == bs[i0] && LinkedAt(bs, ptr, size, i0);
      assert bs[i0].at != b.at && (i0 != k ==> bs[i0].at != bs[k].at);
      assert i0 != k ==> r[Next(|r|, i)].at == bs[Next(|bs|, i0)].at;
    } else {
      assert LinkedAt(bs, ptr, size, k);
      assert r[Next(|r|, i)] == bs[Next(|bs|, k)];
    }
  }

  lemma LinkedJoin(bs: seq<Block>, base: nat, k: nat, ptr: map<nat, nat>, size: map<nat, nat>)
    requires Linked(bs, ptr, size) && Ordered(bs, base) && k + 1 < |bs| && LinkedAt(bs, ptr, size, k + 1)
    ensures Linked(Join(bs, k), ptr[bs[k].at := ptr[bs[k + 1].at]], size[bs[k].at := bs[k].len + bs[k + 1].len])
  {
    var r := Join(bs, k);
    var ptr' := ptr[bs[k].at := ptr[bs[k + 1].at]];
    var size' := size[bs[k].at := bs[k].len + bs[k + 1].len];
    hide Join;
    forall i: nat | i < |r|
      ensures LinkedAt(r, ptr', size', i)
    {
      assert LinkedAt(bs, ptr, size, if i <= k then i else i + 1);
    }
  }

  // ---- carving ----

  /** The list without entry `j`. */
  function RemoveAt(bs: seq<Block>, j: nat): (r: seq<Block>)
    requires j < |bs|
    ensures |r| == |bs| - 1
    ensures forall i: nat {:trigger r[i]} :: i < j ==> r[i] == bs[i]
    ensures forall i: nat {:trigger r[i]} :: j <= i < |r| ==> r[i] == bs[i + 1]
  {
    bs[..j] + bs[j + 1..]
  }

  /** The list after `n` units have been taken from the end of block `j`. */
  function Carve(bs: seq<Block>, j: nat, n: nat): (r: seq<Block>)
    requires j < |bs| && n <= bs[j].len
  {
    if bs[j].len == n then RemoveAt(bs, j) else bs[j := Block(bs[j].at, bs[j].len - n)]
  }

  lemma CarveOrdered(bs: seq<Block>, base: nat, j: nat, n: nat)
    requires Ordered(bs, base) && Coalesced(bs) && 0 < j < |bs| && 0 < n <= bs[j].len
    ensures Ordered(Carve(bs, j, n), base) && Coalesced(Carve(bs, j, n))
  {
    hide RemoveAt;
    var r := Carve(bs, j, n);
    forall i: nat | 0 < i < |r| ensures r[i].len > 0 && base < r[i].at {
    }
    forall i: nat, k: nat | i < k < |r| ensures r[i].at < r[k].at && r[i].at + r[i].len < r[k].at {
    }
  }

  lemma CarveUnits(bs: seq<Block>, base: nat, j: nat, n: nat, u: nat)
    requires Ordered(bs, base) && 0 < j < |bs| && 0 < n <= bs[j].len
    ensures
      var a := bs[j].at + bs[j].len - n;
      InBlocks(Carve(bs, j, n), u) <==> InBlocks(bs, u) && !(a <= u < a + n)
  {
    hide RemoveAt;
    var r := Carve(bs, j, n);
    if i: nat :| i < |bs| && bs[i].at <= u < bs[i].at + bs[i].len {
      if i < j {
        assert r[i] == bs[i];
      } else if i > j {
        assert r[if bs[j].len == n then i - 1 else i] == bs[i];
      } else if bs[j].len != n {
        assert r[j].at == bs[j].at;
      }
    }
  }

  /** Removing entry `j` is bypassing it. */
  lemma LinkedRemove(bs: seq<Block>, base: nat, j: nat, ptr: map<nat, nat>, size: map<nat, nat>)
    requires Linked(bs, ptr, size) && Ordered(bs, base) && 0 < j < |bs| && LinkedAt(bs, ptr, size, j)
    ensures Linked(Carve(bs, j, bs[j].len), ptr[bs[j - 1].at := ptr[bs[j].at]], size)
  {
    var r, ptr' := RemoveAt(bs, j), ptr[bs[j - 1].at := ptr[bs[j].at]];
    forall i: nat | i < |r| ensures LinkedAt(r, ptr', size, i) {
      LinkedRemoveAt(bs, base, j, ptr, size, i);
    }
  }

  lemma LinkedRemoveAt(bs: seq<Block>, base: nat, j: nat, ptr: map<nat, nat>, size: map<nat, nat>, i: nat)
    requires Linked(bs, ptr, size) && Ordered(bs, base) && 0 < j < |bs| && LinkedAt(bs, ptr, size, j) && i < |bs| - 1
    ensures LinkedAt(RemoveAt(bs, j), ptr[bs[j - 1].at := ptr[bs[j].at]], size, i)
  {
    hide RemoveAt;
    var k := if i < j then i else i + 1;
    assert LinkedAt(bs, ptr, size, k) && RemoveAt(bs, j)[i] == bs[k];
    assert k != j - 1 ==> bs[k].at != bs[j - 1].at;
    assert k != j - 1 ==> RemoveAt(bs, j)[Next(|bs| - 1, i)] == bs[Next(|bs|, k)];
  }

  /** Shrinking entry `j`; the header of the carved block lies inside what entry `j` was. */
  lemma LinkedShrink(bs: seq<Block>, base: nat, j: nat, n: nat, ptr: map<nat, nat>, size: map<nat, nat>)
    requires Linked(bs, ptr, size) && Ordered(bs, base) && 0 < j < |bs| && 0 < n < bs[j].len
    ensures Linked(Carve(bs, j, n), ptr, size[bs[j].at := bs[j].len - n][bs[j].at + bs[j].len - n := n])
  {
    var r, size' := Carve(bs, j, n), size[bs[j].at := bs[j].len - n][bs[j].at + bs[j].len - n := n];
    forall i: nat | i < |r| ensures LinkedAt(r, ptr, size', i) {
      assert LinkedAt(bs, ptr, size, i);
      assert bs[i].at != bs[j].at + bs[j].len - n;
    }
  }

  // ---- the partition ----

  /** A live block lies in one gap. */
  lemma LiveFits(bs: seq<Block>, base: nat, live: map<nat, nat>, obtained: set<nat>, a: nat, k: nat)
    requires Ordered(bs, base) && Apart(live, base) && Partition(bs, live, obtained) && a in live && k < |bs|
    requires bs[k].at < a && (k + 1 < |bs| ==> a < bs[k + 1].at)
    ensures FitsAfter(bs, k, Block(a, live[a]))
  {
    assert a <= a < a + live[a];
    assert InLive(live, a) && !InBlocks(bs, a);
    if k + 1 < |bs| {
      assert bs[k + 1].len > 0;
      assert InBlocks(bs, bs[k + 1].at) && !InLive(live, bs[k + 1].at);
    }
  }

  /** Moving a live block into the list. */
  lemma FreePartition(bs: seq<Block>, bs': seq<Block>, base: nat, live: map<nat, nat>, obtained: set<nat>, a: nat)
    requires Apart(live, base) && Partition(bs, live, obtained) && a in live
    requires forall u: nat :: InBlocks(bs', u) <==> InBlocks(bs, u) || a <= u < a + live[a]
    ensures Apart(live - {a}, base) && Partition(bs', live - {a}, obtained)
  {
    var live' := live - {a};
    forall u: nat ensures InLive(live, u) <==> InLive(live', u) || a <= u < a + live[a] {
      if b: nat :| b in live && b <= u < b + live[b] {
        assert b == a || b in live';
      }
    }
    forall u: nat ensures !(InLive(live', u) && a <= u < a + live[a]) {
    }
  }

  /** Taking `n` units at `a` out of the list. */
  lemma TakePartition(bs: seq<Block>, bs': seq<Block>, base: nat, live: map<nat, nat>, obtained: set<nat>, a: nat, n: nat)
    requires Apart(live, base) && Partition(bs, live, obtained) && n > 0 && a > base
    requires forall u: nat :: a <= u < a + n ==> InBlocks(bs, u)
    requires forall u: nat :: InBlocks(bs', u) <==> InBlocks(bs, u) && !(a <= u < a + n)
    ensures a !in live && Apart(live[a := n], base) && Partition(bs', live[a := n], obtained)
  {
    Elsewhere(bs, live, obtained, a, n);
    forall u: nat ensures InLive(live[a := n], u) <==> InLive(live, u) || a <= u < a + n {
      LiveMore(live, a, n, u);
    }
  }

  lemma Elsewhere(bs: seq<Block>, live: map<nat, nat>, obtained: set<nat>, a: nat, n: nat)
    requires Partition(bs, live, obtained) && n > 0
    requires forall b :: b in live ==> live[b] > 0
    requires forall u: nat :: a <= u < a + n ==> InBlocks(bs, u)
    ensures a !in live && forall b :: b in live ==> a + n <= b || b + live[b] <= a
  {
    forall b | b in live ensures a + n <= b || b + live[b] <= a {
      assert InLive(live, b) && !InBlocks(bs, b);
      assert InBlocks(bs, a) && !InLive(live, a);
    }
  }

  /** New units above all others, as one live block. */
  lemma MorePartition(bs: seq<Block>, base: nat, live: map<nat, nat>, obtained: set<nat>, a: nat, n: nat, more: set<nat>)
    requires Apart(live, base) && Partition(bs, live, obtained) && n > 0 && a > base
    requires (forall u :: u in obtained ==> u < a) && forall u: nat :: u in more <==> a <= u < a + n
    ensures a !in live && Apart(live[a := n], base) && Partition(bs, live[a := n], obtained + more)
  {
    LiveBelow(bs, base, live, obtained, a);
    forall u: nat ensures InLive(live[a := n], u) <==> InLive(live, u) || a <= u < a + n {
      LiveMore(live, a, n, u);
    }
  }

  lemma LiveBelow(bs: seq<Block>, base: nat, live: map<nat, nat>, obtained: set<nat>, a: nat)
    requires Apart(live, base) && Partition(bs, live, obtained) && forall u :: u in obtained ==> u < a
    ensures forall b :: b in live ==> b < b + live[b] <= a
  {
    forall b | b in live ensures b + live[b] <= a {
      var u: nat := b + live[b] - 1;
      assert InLive(live, u);
    }
  }

  lemma LiveMore(live: map<nat, nat>, a: nat, n: nat, u: nat)
    requires a !in live
    ensures InLive(live[a := n], u) <==> InLive(live, u) || a <= u < a + n
  {
    var live' := live[a := n];
    if b: nat :| b in live && b <= u < b + live[b] {
      assert b in live' && live'[b] == live[b];
    }
    if a <= u < a + n {
      assert a in live' && live'[a] == n;
    }
  }
}
