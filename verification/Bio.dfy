/**
 The buffer cache of kernel/bio.c: NBUF buffers on a circular doubly linked list.
 Buffers are named by their index in bcache.buf; index NBUF is bcache.head.
 `next` and `prev` hold the links of all of them, `buf` the other fields.
 */
module Bio {
  import opened Params
  import opened LogDisk
  import opened Lru

  const HEAD := NBUF

  /** A device number and a block number. */
  type Key = (nat, nat)

  /** struct buf without its links; `locked` stands for its sleep lock. */
  datatype Buf = Buf(key: Key, valid: bool, refcnt: nat, locked: bool, data: Block)

  function Zeroes(): Block {
    seq(WORDS, _ => 0)
  }

  function Stored(disk: map<Key, Block>, k: Key): Block {
    if k in disk then disk[k] else Zeroes()
  }

  /** A lock is held by a thread with a reference; a valid buffer holds what it was last changed to, or else the disk's block. */
  predicate Sound(b: nat, u: Buf, changed: map<nat, Block>, disk: map<Key, Block>) {
    && (u.locked ==> u.refcnt >= 1)
    && (u.valid && u.key.0 != 0 ==> u.data == if b in changed then changed[b] else Stored(disk, u.key))
  }

  /** The buffer at position `i` of a list, the head beyond either end. */
  function Node(xs: seq<nat>, i: int): nat {
    if 0 <= i < |xs| then xs[i] else HEAD
  }

  class Bcache {
    const next: array<nat>
    const prev: array<nat>
    const buf: array<Buf>
    var disk: map<Key, Block>

    // the list from head.next to head.prev; the brelse calls that reached 0
    ghost var order: seq<nat>
    ghost var history: seq<nat>
    // what clients last changed buffers to, since they were read or written
    ghost var changed: map<nat, Block>

    ghost predicate Arrays() {
      next.Length == prev.Length == NBUF + 1 && buf.Length == NBUF && next != prev
    }

    /** The links hold exactly the circular list head, xs[0], xs[1], ... and back. */
    ghost predicate Ring(xs: seq<nat>)
      requires Arrays()
      reads next, prev
    {
      && (forall i :: 0 <= i < |xs| ==> xs[i] < NBUF)
      && next[HEAD] == Node(xs, 0)
      && prev[HEAD] == Node(xs, |xs| - 1)
      && (forall i {:trigger next[xs[i]]} :: 0 <= i < |xs| ==> next[xs[i]] == Node(xs, i + 1))
      && (forall i {:trigger prev[xs[i]]} :: 0 <= i < |xs| ==> prev[xs[i]] == Node(xs, i - 1))
    }

    /** The list is a ring of all buffers, in the order that the releases so far give. */
    ghost predicate ListOk()
      requires Arrays()
      reads this, next, prev
    {
      && NoDup(order) && |order| == NBUF
      && (forall b: nat :: b < NBUF ==> b in order)
      && Ring(order)
      && (forall b :: b in history ==> b < NBUF)
      && order == After(Initial(NBUF), history)
    }

    /** No two buffers hold the same block of a device other than 0. */
    ghost predicate Unique()
      requires Arrays()
      reads buf
    {
      forall b, c :: 0 <= b < c < NBUF && buf[b].key.0 != 0 ==> buf[b].key != buf[c].key
    }

    ghost predicate Valid()
      reads this, next, prev, buf
    {
      && Arrays()
      && ListOk()
      && Unique()
      && forall b: nat :: b < NBUF ==> Sound(b, buf[b], changed, disk)
    }

    /** bget does not panic: the block is cached, or some buffer is free. */
    ghost predicate Available(k: Key)
      requires Arrays()
      reads buf
    {
      (exists c :: 0 <= c < NBUF && buf[c].key == k) || (exists c :: 0 <= c < NBUF && buf[c].refcnt == 0)
    }

    // ---- the list ----

    constructor Binit(disk: map<Key, Block>)
      ensures Valid() && fresh(next) && fresh(prev)
      ensures history == [] && changed == map[] && this.disk == disk
      ensures order == Initial(NBUF)
      ensures forall b :: 0 <= b < NBUF ==> buf[b] == Buf((0, 0), false, 0, false, Zeroes())
    {
      this.disk := disk;
      next, prev := new nat[NBUF + 1](_ => 0), new nat[NBUF + 1](_ => 0);
      buf := new Buf[NBUF](_ => Buf((0, 0), false, 0, false, Zeroes()));
      order, history, changed := [], [], map[];
      new;
      LinkAll();
      InitialAll(NBUF);
    }

    /** binit's loop: an empty ring, then every buffer pushed in front. */
    method LinkAll()
      requires Arrays() && order == []
      modifies next, prev, this`order
      ensures order == Initial(NBUF) && NoDup(order) && Ring(order)
    {
      prev[HEAD] := HEAD;
      next[HEAD] := HEAD;
      var b := 0;
      while b < NBUF
        invariant 0 <= b <= NBUF && Arrays()
        invariant order == Initial(b) && NoDup(order) && Ring(order)
      {
        PushFront(b);
        b := b + 1;
      }
    }

    /** Link `b` in after the head. */
    method PushFront(b: nat)
      requires Arrays() && Ring(order) && NoDup(order) && b < NBUF && b !in order
      modifies next, prev, this`order
      ensures order == [b] + old(order) && Ring(order)
    {
      next[b] := next[HEAD];
      prev[b] := HEAD;
      prev[next[HEAD]] := b;
      next[HEAD] := b;
      order := [b] + order;
    }

    /** Take `b`, the buffer at position `k`, out of the list. */
    method Unlink(b: nat, ghost k: nat)
      requires Arrays() && Ring(order) && NoDup(order) && k < |order| && order[k] == b
      modifies next, prev, this`order
      ensures order == old(order)[..k] + old(order)[k + 1..] && Ring(order)
    {
      assert next[order[k]] == Node(order, k + 1) && prev[order[k]] == Node(order, k - 1);
      ghost var was := order;
      prev[next[b]] := prev[b];
      next[prev[b]] := next[b];
      order := order[..k] + order[k + 1..];
      forall i: nat | i < |order| ensures next[order[i]] == Node(order, i + 1) && prev[order[i]] == Node(order, i - 1) {
        var j := if i < k then i else i + 1;
        assert order[i] == was[j] && old(next[was[j]]) == Node(was, j + 1) && old(prev[was[j]]) == Node(was, j - 1);
      }
    }

    /** The list search at the start of bget: a buffer for `k`, or HEAD. */
    method FindCached(k: Key) returns (b: nat)
      requires Arrays() && ListOk()
      ensures b < NBUF ==> buf[b].key == k
      ensures b >= NBUF ==> b == HEAD && forall c :: 0 <= c < NBUF ==> buf[c].key != k
    {
      b := next[HEAD];
      ghost var i := 0;
      while b != HEAD
        invariant 0 <= i <= NBUF && b == Node(order, i)
        invariant forall j :: 0 <= j < i ==> buf[order[j]].key != k
        decreases NBUF - i
      {
        if buf[b].key == k {
          return;
        }
        assert next[order[i]] == Node(order, i + 1);
        b := next[b];
        i := i + 1;
      }
      forall c: nat | c < NBUF ensures buf[c].key != k {
        assert c in order;
      }
    }

    /** The backward search of bget: the free buffer nearest the tail, or HEAD. */
    method FindVictim() returns (b: nat)
      requires Arrays() && ListOk()
      ensures b < NBUF ==> buf[b].refcnt == 0 && FreeBefore(b)
      ensures b >= NBUF ==> b == HEAD && forall c :: 0 <= c < NBUF ==> buf[c].refcnt != 0
    {
      b := prev[HEAD];
      ghost var i := NBUF - 1;
      while b != HEAD
        invariant -1 <= i < NBUF && b == Node(order, i)
        invariant forall j :: i < j < NBUF ==> buf[order[j]].refcnt != 0
        decreases i
      {
        if buf[b].refcnt == 0 {
          forall c: nat | c < NBUF && buf[c].refcnt == 0 && c != b ensures Before(order, c, b) {
            assert c in order;
            var j :| 0 <= j < NBUF && order[j] == c;
            assert j < i;
          }
          return;
        }
        assert prev[order[i]] == Node(order, i - 1);
        b := prev[b];
        i := i - 1;
      }
      forall c: nat | c < NBUF ensures buf[c].refcnt != 0 {
        assert c in order;
      }
    }

    /** Every other free buffer stands before `b`. */
    ghost predicate FreeBefore(b: nat)
      requires Arrays()
      reads this`order, buf
    {
      forall c: nat :: c < NBUF && buf[c].refcnt == 0 && c != b ==> Before(order, c, b)
    }

    // ---- the interface ----

    /**
     The buffer for `k`, referenced and locked; a miss recycles the free buffer nearest
     the tail.  If another thread has it locked, the caller `waits` in acquiresleep,
     holding its reference.
     */
    method Bget(k: Key) returns (b: nat, waits: bool)
      requires Valid() && Available(k)
      modifies buf
      ensures Valid() && b < NBUF && buf[b].key == k
      ensures waits <==> old(buf[b].key) == k && old(buf[b].locked)
      ensures
        || ( && old(buf[b].key) == k
             && buf[..] == old(buf[..])[b := old(buf[b]).(refcnt := old(buf[b].refcnt) + 1, locked := true)])
        || ( && (forall c :: 0 <= c < NBUF ==> old(buf[c].key) != k)
             && old(buf[b].refcnt) == 0 && old(FreeBefore(b))
             && buf[..] == old(buf[..])[b := Buf(k, false, 1, true, old(buf[b].data))])
    {
      b := FindCached(k);
      if b != HEAD {
        buf[b] := buf[b].(refcnt := buf[b].refcnt + 1);
        waits := buf[b].locked;
        buf[b] := buf[b].(locked := true);
      } else {
        b := FindVictim();
        waits := false;
        Recycle(b, k);
      }
    }

    /** Reuse the free buffer `b` for a block that no buffer holds. */
    method Recycle(b: nat, k: Key)
      requires Valid() && b < NBUF && buf[b].refcnt == 0
      requires forall c :: 0 <= c < NBUF ==> buf[c].key != k
      modifies buf
      ensures Valid() && buf[..] == old(buf[..])[b := Buf(k, false, 1, true, old(buf[b].data))]
    {
      buf[b] := buf[b].(key := k, valid := false, refcnt := 1);
      buf[b] := buf[b].(locked := true);
    }

    /** A locked buffer with the contents of the block, or with a change that another client left in it. */
    method Bread(k: Key) returns (b: nat, waits: bool)
      requires Valid() && Available(k)
      modifies buf, this`changed
      ensures Valid() && b < NBUF && buf[b].key == k && buf[b].locked && buf[b].refcnt >= 1
      ensures waits ==> changed == old(changed) && buf[b] == old(buf[b]).(refcnt := old(buf[b].refcnt) + 1)
      ensures !waits ==> buf[b].valid && (k.0 != 0 ==> buf[b].data == if b in changed then changed[b] else Stored(disk, k))
      ensures changed == old(changed) || changed == old(changed) - {b}
      ensures !waits && old(buf[b].key) == k && old(buf[b].valid) ==> buf[b].data == old(buf[b].data) && changed == old(changed)
      ensures !waits && (forall c :: 0 <= c < NBUF ==> old(buf[c].key) != k) ==> b !in changed && buf[b].refcnt == 1
      ensures forall c :: 0 <= c < NBUF && c != b ==> buf[c] == old(buf[c])
    {
      b, waits := Bget(k);
      assert forall c :: 0 <= c < NBUF && c != b ==> buf[..][c] == old(buf[..])[c];
      if !waits {
        ReadIn(b);
      }
    }

    /** bread's second half: a buffer that is not valid is read from the disk. */
    method ReadIn(b: nat)
      requires Valid() && b < NBUF && buf[b].locked
      modifies buf, this`changed
      ensures Valid()
      ensures old(buf[b].valid) ==> buf[..] == old(buf[..]) && changed == old(changed)
      ensures !old(buf[b].valid) ==> changed == old(changed) - {b}
      ensures !old(buf[b].valid) ==>
        buf[..] == old(buf[..])[b := old(buf[b]).(data := Stored(disk, old(buf[b].key)), valid := true)]
    {
      if !buf[b].valid {
        buf[b] := buf[b].(data := Stored(disk, buf[b].key), valid := true);
        changed := changed - {b};
      }
    }

    /** A thread that waited for the lock gets it, and goes on with bread. */
    method Woken(b: nat)
      requires Valid() && b < NBUF && !buf[b].locked && buf[b].refcnt >= 1
      modifies buf, this`changed
      ensures Valid() && buf[b].locked && buf[b].valid
      ensures buf[b].key == old(buf[b].key) && buf[b].refcnt == old(buf[b].refcnt)
      ensures old(buf[b].valid) ==> buf[b].data == old(buf[b].data) && changed == old(changed)
      ensures !old(buf[b].valid) ==> buf[b].data == Stored(disk, buf[b].key)
      ensures forall c :: 0 <= c < NBUF && c != b ==> buf[c] == old(buf[c])
    {
      buf[b] := buf[b].(locked := true);
      ghost var was := buf[..];
      ReadIn(b);
      assert forall c :: 0 <= c < NBUF && c != b ==> buf[..][c] == was[c];
    }

    /** A client that holds the lock changes the contents. */
    method Modify(b: nat, x: Block)
      requires Valid() && b < NBUF && buf[b].locked
      modifies buf, this`changed
      ensures Valid()
      ensures changed == old(changed)[b := x]
      ensures buf[..] == old(buf[..])[b := old(buf[b]).(data := x)]
    {
      buf[b] := buf[b].(data := x);
      changed := changed[b := x];
    }

    /** Write the contents to the disk; the caller holds the lock. */
    method Bwrite(b: nat)
      requires Valid() && b < NBUF && buf[b].locked
      modifies this`disk, this`changed
      ensures Valid()
      ensures disk == old(disk)[buf[b].key := buf[b].data] && changed == old(changed) - {b}
    {
      disk := disk[buf[b].key := buf[b].data];
      changed := changed - {b};
    }

    /** Unlock and drop a reference; at zero the buffer becomes the most recently used. */
    method Brelse(b: nat)
      requires Valid() && b < NBUF && buf[b].locked
      modifies next, prev, buf, this`order, this`history
      ensures Valid()
      ensures buf[..] == old(buf[..])[b := old(buf[b]).(locked := false, refcnt := old(buf[b].refcnt) - 1)]
      ensures history == if buf[b].refcnt == 0 then old(history) + [b] else old(history)
      ensures order == if buf[b].refcnt == 0 then Touch(old(order), b) else old(order)
    {
      buf[b] := buf[b].(locked := false);
      buf[b] := buf[b].(refcnt := buf[b].refcnt - 1);
      if buf[b].refcnt == 0 {
        MoveToFront(b);
      }
    }

    method MoveToFront(b: nat)
      requires Arrays() && ListOk() && b < NBUF
      modifies next, prev, this`order, this`history
      ensures ListOk()
      ensures history == old(history) + [b] && order == Touch(old(order), b)
    {
      hide Touch, NoDup, After, Initial;
      assert b in order;
      ghost var k :| 0 <= k < |order| && order[k] == b;
      TouchAt(order, k);
      TouchKeeps(order, b);
      AfterMore(Initial(NBUF), history, b);
      Relink(b, k);
      history := history + [b];
    }

    method Relink(b: nat, ghost k: nat)
      requires Arrays() && Ring(order) && NoDup(order) && k < |order| && order[k] == b < NBUF
      requires NoDup(order[..k] + order[k + 1..]) && b !in order[..k] + order[k + 1..]
      modifies next, prev, this`order
      ensures order == [b] + (old(order)[..k] + old(order)[k + 1..]) && Ring(order)
    {
      hide NoDup, Ring;
      Unlink(b, k);
      PushFront(b);
    }

    /** Keep a buffer in the cache. */
    method Bpin(b: nat)
      requires Valid() && b < NBUF
      modifies buf
      ensures Valid() && buf[..] == old(buf[..])[b := old(buf[b]).(refcnt := old(buf[b].refcnt) + 1)]
    {
      buf[b] := buf[b].(refcnt := buf[b].refcnt + 1);
    }

    /** Undo a pin that its caller took earlier. */
    method Bunpin(b: nat)
      requires Valid() && b < NBUF && buf[b].refcnt >= 1
      requires buf[b].locked ==> buf[b].refcnt >= 2
      modifies buf
      ensures Valid() && buf[..] == old(buf[..])[b := old(buf[b]).(refcnt := old(buf[b].refcnt) - 1)]
    {
      buf[b] := buf[b].(refcnt := buf[b].refcnt - 1);
    }

    /** The buffer a miss recycles was released no later than any other free one. */
    lemma VictimIsLeastRecent(b: nat, c: nat)
      requires Valid() && b < NBUF && c < NBUF && b != c
      requires Before(order, c, b)
      ensures LastUse(history, b) <= LastUse(history, c)
    {
      InitialAll(NBUF);
      SortedByRecency(Initial(NBUF), history, c, b);
    }

    /**
     Recycling a free valid buffer loses nothing exactly when no client has changed it since
     it was read or written, or the last change was to what is on the disk.
     */
    lemma FreeMatchesDisk(b: nat)
      requires Valid() && b < NBUF && buf[b].refcnt == 0 && buf[b].valid && buf[b].key.0 != 0
      ensures buf[b].data == Stored(disk, buf[b].key) <==> b !in changed || changed[b] == Stored(disk, buf[b].key)
    {
    }

    /** A client that changes a buffer and releases it, neither writing nor logging it, leaves a free buffer unlike the disk. */
    method ReleaseModified(k: Key, x: Block) returns (b: nat)
      requires Valid() && Available(k) && k.0 != 0 && x != Stored(disk, k)
      requires forall c :: 0 <= c < NBUF ==> buf[c].key != k
      modifies next, prev, buf, this`order, this`history, this`changed
      ensures Valid() && b < NBUF && buf[b].key == k && buf[b].valid && buf[b].refcnt == 0
      ensures buf[b].data == x != Stored(disk, k)
    {
      hide ListOk, Unique;
      var waits;
      b, waits := Bread(k);
      Modify(b, x);
      Brelse(b);
    }
  }

  /** The list binit builds: the last buffer pushed comes first. */
  function Initial(n: nat): (r: seq<nat>)
    ensures |r| == n && forall i :: 0 <= i < n ==> r[i] == n - 1 - i
  {
    if n == 0 then [] else [n - 1] + Initial(n - 1)
  }

  lemma AfterMore(order: seq<nat>, history: seq<nat>, b: nat)
    ensures After(order, history + [b]) == Touch(After(order, history), b)
  {
    assert (history + [b])[..|history|] == history;
  }

  /** Touching the buffer at position `k`: take it out, put it in front. */
  lemma TouchAt(order: seq<nat>, k: nat)
    requires NoDup(order) && k < |order|
    ensures
      var rest := order[..k] + order[k + 1..];
      NoDup(rest) && order[k] !in rest && Touch(order, order[k]) == [order[k]] + rest
  {
    WithoutAt(order, k);
  }

  lemma InitialAll(n: nat)
    ensures NoDup(Initial(n)) && forall b: nat :: b < n <==> b in Initial(n)
  {
    forall b: nat | b < n ensures b in Initial(n) {
      assert Initial(n)[n - 1 - b] == b;
    }
  }
}
