/**
 kernel/proc.c, MLFQ: the four queues, edited in place by enqueue, dequeue,
 priority_boost and yield, and the scheduler's choice.  A process is named by a number.
 */
module Mlfq {
  import opened Params
  import opened Options

  const LEVELS: nat := 4

  /** The scheduling fields of a process. */
  datatype Sched = Sched(priority: nat, ticks: int, slice: int)

  /** The queues as values. */
  type Queues = seq<seq<nat>>

  function Total(qs: Queues): nat
    requires |qs| == LEVELS
  {
    |qs[0]| + |qs[1]| + |qs[2]| + |qs[3]|
  }

  function All(qs: Queues): multiset<nat>
    requires |qs| == LEVELS
  {
    multiset(qs[0]) + multiset(qs[1]) + multiset(qs[2]) + multiset(qs[3])
  }

  /** `s` without its entries `p`. */
  function Without(s: seq<nat>, p: nat): seq<nat> {
    if s == [] then [] else if s[0] == p then Without(s[1..], p) else [s[0]] + Without(s[1..], p)
  }

  /** The queues with `p` taken out of every one of them and put at the end of queue `r`. */
  function Moved(qs: Queues, p: nat, r: nat): (m: Queues)
    requires |qs| == LEVELS
    ensures |m| == LEVELS
  {
    seq(LEVELS, i requires 0 <= i < LEVELS => Without(qs[i], p) + if i == r then [p] else [])
  }

  /** `p` is in queue `i`, at position `j` and nowhere else. */
  predicate OnlyAt(qs: Queues, p: nat, i: nat, j: nat)
    requires |qs| == LEVELS
  {
    && i < LEVELS && j < |qs[i]| && qs[i][j] == p
    && (forall k: nat :: k < |qs[i]| && k != j ==> qs[i][k] != p)
    && forall h: nat :: h < LEVELS && h != i ==> p !in qs[h]
  }

  predicate Absent(qs: Queues, p: nat)
    requires |qs| == LEVELS
  {
    forall h: nat :: h < LEVELS ==> p !in qs[h]
  }

  lemma {:induction false} WithoutNone(s: seq<nat>, p: nat)
    requires p !in s
    ensures Without(s, p) == s
  {
    if s != [] {
      WithoutNone(s[1..], p);
    }
  }

  lemma {:induction false} WithoutOne(s: seq<nat>, p: nat, j: nat)
    requires j < |s| && s[j] == p && forall k: nat :: k < |s| && k != j ==> s[k] != p
    ensures Without(s, p) == s[..j] + s[j + 1..]
  {
    if j == 0 {
      WithoutNone(s[1..], p);
    } else {
      WithoutOne(s[1..], p, j - 1);
      assert s[1..][..j - 1] + s[1..][j..] == s[1..j] + s[j + 1..];
    }
  }

  /** Taking `p` from its only place to the end of queue `r` is the move. */
  lemma MovedOnce(qs: Queues, p: nat, i: nat, j: nat, r: nat)
    requires |qs| == LEVELS && OnlyAt(qs, p, i, j) && r < LEVELS
    ensures
      var cut := qs[i := qs[i][..j] + qs[i][j + 1..]];
      cut[r := cut[r] + [p]] == Moved(qs, p, r)
  {
    var cut := qs[i := qs[i][..j] + qs[i][j + 1..]];
    var m := cut[r := cut[r] + [p]];
    forall h: nat | h < LEVELS ensures m[h] == Moved(qs, p, r)[h] {
      if h == i {
        WithoutOne(qs[i], p, j);
      } else {
        WithoutNone(qs[h], p);
      }
    }
  }

  lemma {:induction false} WithoutGone(s: seq<nat>, p: nat)
    ensures p !in Without(s, p)
  {
    if s != [] {
      WithoutGone(s[1..], p);
    }
  }

  /** After the move `p` is at the end of queue `r` and nowhere else. */
  lemma MovedOnly(qs: Queues, p: nat, r: nat)
    requires |qs| == LEVELS && r < LEVELS
    ensures OnlyAt(Moved(qs, p, r), p, r, |Moved(qs, p, r)[r]| - 1)
  {
    forall h: nat | h < LEVELS ensures p !in Without(qs[h], p) {
      WithoutGone(qs[h], p);
    }
  }

  /** Moving again changes nothing. */
  lemma MovedTwice(qs: Queues, p: nat, r: nat)
    requires |qs| == LEVELS && r < LEVELS
    ensures Moved(Moved(qs, p, r), p, r) == Moved(qs, p, r)
  {
    var m := Moved(qs, p, r);
    MovedOnly(qs, p, r);
    forall h: nat | h < LEVELS ensures Moved(m, p, r)[h] == m[h] {
      if h == r {
        WithoutOne(m[r], p, |m[r]| - 1);
      } else {
        WithoutNone(m[h], p);
      }
    }
  }

  /** The move keeps the entries, as a multiset, and the number of them. */
  lemma MovedKeeps(qs: Queues, p: nat, i: nat, j: nat, r: nat)
    requires |qs| == LEVELS && OnlyAt(qs, p, i, j) && r < LEVELS
    ensures All(Moved(qs, p, r)) == All(qs) && Total(Moved(qs, p, r)) == Total(qs)
  {
    var cut := qs[i := qs[i][..j] + qs[i][j + 1..]];
    MovedOnce(qs, p, i, j, r);
    CutOne(qs, i, j);
    AddOne(cut, r, p);
  }

  lemma CutOne(qs: Queues, i: nat, j: nat)
    requires |qs| == LEVELS && i < LEVELS && j < |qs[i]|
    ensures
      var cut := qs[i := qs[i][..j] + qs[i][j + 1..]];
      All(qs) == All(cut) + multiset{qs[i][j]} && Total(qs) == Total(cut) + 1
  {
    assert qs[i] == qs[i][..j] + ([qs[i][j]] + qs[i][j + 1..]);
  }

  lemma AddOne(qs: Queues, r: nat, p: nat)
    requires |qs| == LEVELS && r < LEVELS
    ensures
      var more := qs[r := qs[r] + [p]];
      All(more) == All(qs) + multiset{p} && Total(more) == Total(qs) + 1
  {
  }

  /** Any two other processes keep their order. */
  lemma {:induction false} WithoutOrder(s: seq<nat>, p: nat, a: nat, b: nat)
    requires a < b < |s| && s[a] != p && s[b] != p
    ensures exists x: nat, y: nat :: x < y < |Without(s, p)| && Without(s, p)[x] == s[a] && Without(s, p)[y] == s[b]
  {
    var w := Without(s, p);
    if a == 0 {
      WithoutHas(s[1..], p, b - 1);
      var y: nat :| y < |Without(s[1..], p)| && Without(s[1..], p)[y] == s[b];
      assert w[0] == s[a] && w[y + 1] == s[b];
    } else {
      WithoutOrder(s[1..], p, a - 1, b - 1);
      var x: nat, y: nat :| x < y < |Without(s[1..], p)| && Without(s[1..], p)[x] == s[a] && Without(s[1..], p)[y] == s[b];
      if s[0] != p {
        assert w[x + 1] == s[a] && w[y + 1] == s[b];
      }
    }
  }

  lemma {:induction false} WithoutHas(s: seq<nat>, p: nat, a: nat)
    requires a < |s| && s[a] != p
    ensures s[a] in Without(s, p)
  {
    if a > 0 {
      WithoutHas(s[1..], p, a - 1);
    }
  }

  // ---- yield ----

  /** Nothing has been moved yet, and `p` is not in the queues below `i`. */
  predicate Scanned(qs0: Queues, qs: Queues, p: nat, i: nat)
    requires |qs0| == LEVELS
  {
    qs == qs0 && forall h: nat :: h < i && h < LEVELS ==> p !in qs0[h]
  }

  /** Wherever the scan finds `p`, that is its only place, and moving it there leads to the same end. */
  lemma FoundOnly(qs0: Queues, qs: Queues, p: nat, i0: nat, j0: nat, r: nat, i: nat, j: nat)
    requires |qs0| == LEVELS == |qs| && r < LEVELS && (Absent(qs0, p) || OnlyAt(qs0, p, i0, j0))
    requires qs == qs0 || (!Absent(qs0, p) && qs == Moved(qs0, p, r))
    requires i < LEVELS && j < |qs[i]| && qs[i][j] == p
    ensures OnlyAt(qs, p, i, j) && !Absent(qs0, p) && Moved(qs, p, r) == Moved(qs0, p, r)
    ensures Total(qs) == Total(qs0)
  {
    assert p in qs[i];
    if qs == Moved(qs0, p, r) {
      MovedOnly(qs0, p, r);
      MovedTwice(qs0, p, r);
      MovedKeeps(qs0, p, i0, j0, r);
    }
  }

  lemma CutRoom(qs: Queues, i: nat, j: nat, r: nat)
    requires |qs| == LEVELS && i < LEVELS && j < |qs[i]| && r < LEVELS && Total(qs) <= NPROC
    ensures |qs[i := qs[i][..j] + qs[i][j + 1..]][r]| < NPROC
  {
    CutOne(qs, i, j);
  }

  // ---- priority_boost ----

  function Boosted(qs: Queues): Queues
    requires |qs| == LEVELS
  {
    [qs[0] + qs[1] + qs[2] + qs[3], [], [], []]
  }

  function Reset(procs: map<nat, Sched>, s: seq<nat>): map<nat, Sched> {
    map p | p in procs :: if p in s then Sched(0, 0, 1) else procs[p]
  }

  /** What has left the queues 1 to i - 1, and `k` entries of queue `i`. */
  function Drained(qs: Queues, i: nat, k: nat): seq<nat>
    requires |qs| == LEVELS && 1 <= i <= LEVELS && (k > 0 ==> i < LEVELS && k <= |qs[i]|)
  {
    (if i > 1 then qs[1] else []) + (if i > 2 then qs[2] else []) + (if i > 3 then qs[3] else []) + (if i < LEVELS && k > 0 then qs[i][..k] else [])
  }

  function Draining(qs: Queues, i: nat, k: nat): Queues
    requires |qs| == LEVELS && 1 <= i <= LEVELS && (k > 0 ==> i < LEVELS && k <= |qs[i]|)
  {
    [qs[0] + Drained(qs, i, k), Rest(qs, 1, i, k), Rest(qs, 2, i, k), Rest(qs, 3, i, k)]
  }

  /** What is left of queue `h`. */
  function Rest(qs: Queues, h: nat, i: nat, k: nat): seq<nat>
    requires |qs| == LEVELS && h < LEVELS && (k > 0 ==> i < LEVELS && k <= |qs[i]|)
  {
    if h < i then [] else if h == i then qs[h][k..] else qs[h]
  }

  lemma BoostMeans(qs: Queues, procs: map<nat, Sched>)
    requires |qs| == LEVELS
    ensures var s := Reset(procs, qs[1] + qs[2] + qs[3]);
      && s.Keys == procs.Keys
      && forall p :: p in procs ==> s[p] == if p in qs[1] || p in qs[2] || p in qs[3] then Sched(0, 0, 1) else procs[p]
  {
  }

  lemma BoostStart(qs: Queues, procs: map<nat, Sched>)
    requires |qs| == LEVELS
    ensures Draining(qs, 1, 0) == qs && Reset(procs, Drained(qs, 1, 0)) == procs
  {
    SameQueues(Draining(qs, 1, 0), qs);
  }

  lemma SameQueues(a: Queues, b: Queues)
    requires |a| == |b| == LEVELS && a[0] == b[0] && a[1] == b[1] && a[2] == b[2] && a[3] == b[3]
    ensures a == b
  {
  }

  lemma DrainEnter(qs: Queues, i: nat)
    requires |qs| == LEVELS && 1 <= i < LEVELS
    ensures Draining(qs, i, 0)[i] == qs[i]
  {
  }

  /** There is room in queue 0 for everything. */
  lemma DrainRoom(qs: Queues, i: nat, k: nat)
    requires |qs| == LEVELS && 1 <= i < LEVELS && k < |qs[i]| && Total(qs) <= NPROC
    ensures |Draining(qs, i, k)[0]| < NPROC && Draining(qs, i, k)[i] == qs[i][k..] && qs[i][k..][0] == qs[i][k]
  {
  }

  lemma DrainLeft(qs: Queues, i: nat, k: nat)
    requires |qs| == LEVELS && 1 <= i < LEVELS && 0 < k <= |qs[i]|
    ensures |Draining(qs, i, k)[i]| == |qs[i]| - k
  {
  }

  lemma DrainMore(qs: Queues, procs: map<nat, Sched>, i: nat, k: nat)
    requires |qs| == LEVELS && 1 <= i < LEVELS && k < |qs[i]| && qs[i][k] in procs
    ensures
      var d := Draining(qs, i, k);
      d[i := d[i][1..]][0 := d[0] + [qs[i][k]]] == Draining(qs, i, k + 1)
    ensures Reset(procs, Drained(qs, i, k))[qs[i][k] := Sched(0, 0, 1)] == Reset(procs, Drained(qs, i, k + 1))
  {
    assert qs[i][..k + 1] == qs[i][..k] + [qs[i][k]];
    assert Drained(qs, i, k + 1) == Drained(qs, i, k) + [qs[i][k]];
    var d := Draining(qs, i, k);
    assert qs[i][k..][1..] == qs[i][k + 1..];
    assert d[0] + [qs[i][k]] == Draining(qs, i, k + 1)[0];
    SameQueues(d[i := d[i][1..]][0 := d[0] + [qs[i][k]]], Draining(qs, i, k + 1));
  }

  lemma DrainNext(qs: Queues, i: nat)
    requires |qs| == LEVELS && 1 <= i < LEVELS
    ensures Draining(qs, i, |qs[i]|) == Draining(qs, i + 1, 0) && Drained(qs, i, |qs[i]|) == Drained(qs, i + 1, 0)
  {
    assert qs[i][..|qs[i]|] == qs[i];
    SameQueues(Draining(qs, i, |qs[i]|), Draining(qs, i + 1, 0));
  }

  lemma DrainDone(qs: Queues)
    requires |qs| == LEVELS
    ensures Draining(qs, LEVELS, 0) == Boosted(qs) && Drained(qs, LEVELS, 0) == qs[1] + qs[2] + qs[3]
  {
    assert qs[0] + (qs[1] + qs[2] + qs[3]) == qs[0] + qs[1] + qs[2] + qs[3];
    SameQueues(Draining(qs, LEVELS, 0), Boosted(qs));
  }

  /** The boost keeps the entries, as a multiset, and the number of them. */
  lemma BoostKeeps(qs: Queues)
    requires |qs| == LEVELS
    ensures All(Boosted(qs)) == All(qs) && Total(Boosted(qs)) == Total(qs)
  {
  }

  class Mlfq {
    /** mlfq and queue_size. */
    const q: array2<nat>
    const size: array<nat>
    /** mlfq_priority, mlfq_ticks and time_slice of each process. */
    var procs: map<nat, Sched>

    ghost predicate Valid()
      reads q, size
    {
      && q.Length0 == LEVELS && q.Length1 == NPROC && size.Length == LEVELS
      && forall i: nat :: i < LEVELS ==> size[i] <= NPROC
    }

    ghost function Queue(i: nat): (s: seq<nat>)
      requires Valid() && i < LEVELS
      reads q, size
      ensures |s| == size[i] && forall j: nat :: j < |s| ==> s[j] == q[i, j]
    {
      seq<nat>(size[i], j requires 0 <= j < size[i] reads q, size => if Valid() && i < LEVELS && j < size[i] then q[i, j] else 0)
    }

    ghost function Qs(): (qs: Queues)
      requires Valid()
      reads q, size
      ensures |qs| == LEVELS && forall i: nat :: i < LEVELS ==> qs[i] == Queue(i)
    {
      [Queue(0), Queue(1), Queue(2), Queue(3)]
    }

    constructor ()
      ensures Valid() && fresh(q) && fresh(size) && Qs() == [[], [], [], []]
    {
      q := new nat[LEVELS, NPROC]((_, _) => 0);
      size := new nat[LEVELS](_ => 0);
      procs := map[];
    }

    method Enqueue(p: nat, i: nat)
      requires Valid() && i < LEVELS && size[i] < NPROC
      modifies q, size
      ensures Valid() && Qs() == old(Qs())[i := old(Queue(i)) + [p]]
    {
      q[i, size[i]] := p;
      size[i] := size[i] + 1;
      assert Queue(i) == old(Queue(i)) + [p];
      assert forall h: nat :: h < LEVELS && h != i ==> Queue(h) == old(Queue(h));
    }

    /** Close the gap left by entry `j` of queue `i`. */
    method Remove(i: nat, j: nat)
      requires Valid() && i < LEVELS && j < size[i]
      modifies q, size
      ensures Valid() && Qs() == old(Qs())[i := old(Queue(i))[..j] + old(Queue(i))[j + 1..]]
    {
      ghost var was := Queue(i);
      var n: nat := size[i] - 1;
      for k := j to n
        invariant Valid() && forall g: nat :: g < LEVELS ==> size[g] == old(size[g])
        invariant forall h: nat :: h <= n ==> q[i, h] == was[if j <= h < k then h + 1 else h]
        invariant forall g: nat, h: nat :: g < LEVELS && g != i && h < NPROC ==> q[g, h] == old(q[g, h])
      {
        assert q[i, k + 1] == was[k + 1];
        q[i, k] := q[i, k + 1];
      }
      size[i] := size[i] - 1;
      assert Queue(i) == was[..j] + was[j + 1..];
      assert forall h: nat :: h < LEVELS && h != i ==> Queue(h) == old(Queue(h));
    }

    /** Take the first process of queue `i`. */
    method Dequeue(i: nat) returns (p: Option<nat>)
      requires Valid() && i < LEVELS
      modifies q, size
      ensures Valid()
      ensures old(Queue(i)) == [] ==> p.None? && Qs() == old(Qs())
      ensures old(Queue(i)) != [] ==> p == Some(old(Queue(i))[0]) && Qs() == old(Qs())[i := old(Queue(i))[1..]]
    {
      if size[i] == 0 {
        return None;
      }
      p := Some(q[i, 0]);
      ghost var was := Queue(i);
      Remove(i, 0);
      assert was[..0] + was[0 + 1..] == was[1..];
    }

    /** The body of priority_boost's inner loop: entry `k` of what queue `i` was goes back to queue 0. */
    method BoostOne(i: nat, ghost qs0: Queues, ghost procs0: map<nat, Sched>, ghost k: nat)
      requires Valid() && |qs0| == LEVELS && 1 <= i < LEVELS && k < |qs0[i]| && Total(qs0) <= NPROC && qs0[i][k] in procs0
      requires Qs() == Draining(qs0, i, k) && procs == Reset(procs0, Drained(qs0, i, k))
      modifies this`procs, q, size
      ensures Valid() && Qs() == Draining(qs0, i, k + 1) && procs == Reset(procs0, Drained(qs0, i, k + 1))
    {
      hide Draining, Drained, Reset;
      DrainRoom(qs0, i, k);
      ghost var d := Qs();
      var p := Dequeue(i);
      assert p.value == qs0[i][k];
      assert Qs() == d[i := d[i][1..]] && Queue(0) == d[0];
      procs := procs[p.value := Sched(0, 0, 1)];
      Enqueue(p.value, 0);
      assert Qs() == d[i := d[i][1..]][0 := d[0] + [qs0[i][k]]];
      DrainMore(qs0, procs0, i, k);
    }

    /** Everything goes back to queue 0, in order, with fresh accounting. */
    method PriorityBoost()
      requires Valid() && Total(Qs()) <= NPROC
      requires forall i: nat, k: nat :: i < LEVELS && k < |Qs()[i]| ==> Qs()[i][k] in procs
      modifies this`procs, q, size
      ensures Valid() && Qs() == Boosted(old(Qs()))
      ensures procs == Reset(old(procs), old(Queue(1)) + old(Queue(2)) + old(Queue(3)))
      ensures Queue(0) == old(Queue(0)) + old(Queue(1)) + old(Queue(2)) + old(Queue(3))
      ensures Queue(1) == Queue(2) == Queue(3) == [] && procs.Keys == old(procs).Keys
      ensures forall p :: p in procs ==>
        procs[p] == if p in old(Queue(1)) || p in old(Queue(2)) || p in old(Queue(3)) then Sched(0, 0, 1) else old(procs)[p]
    {
      hide Draining, Drained, Reset;
      ghost var qs0, procs0 := Qs(), procs;
      BoostStart(qs0, procs0);
      for i := 1 to LEVELS
        invariant Valid() && Qs() == Draining(qs0, i, 0) && procs == Reset(procs0, Drained(qs0, i, 0))
      {
        ghost var k: nat := 0;
        DrainEnter(qs0, i);
        while size[i] > 0
          invariant k <= |qs0[i]| && size[i] == |qs0[i]| - k
          invariant Valid() && Qs() == Draining(qs0, i, k) && procs == Reset(procs0, Drained(qs0, i, k))
        {
          BoostOne(i, qs0, procs0, k);
          k := k + 1;
          DrainLeft(qs0, i, k);
        }
        DrainNext(qs0, i);
      }
      DrainDone(qs0);
      BoostMeans(qs0, procs0);
    }

    /** What the scan does where it finds the process. */
    method Requeue(p: nat, i: nat, j: nat, r: nat)
      requires Valid() && Total(Qs()) <= NPROC && r < LEVELS && OnlyAt(Qs(), p, i, j)
      modifies q, size
      ensures Valid() && Qs() == Moved(old(Qs()), p, r)
    {
      hide Moved;
      ghost var qs1 := Qs();
      Remove(i, j);
      CutRoom(qs1, i, j, r);
      Enqueue(p, r);
      MovedOnce(qs1, p, i, j, r);
    }

    /** yield's scan, which moves the running process to the end of its priority's queue. */
    method Yield(p: nat, ghost i0: nat, ghost j0: nat)
      requires Valid() && Total(Qs()) <= NPROC && p in procs && procs[p].priority < LEVELS
      requires Absent(Qs(), p) || OnlyAt(Qs(), p, i0, j0)
      modifies q, size
      ensures Valid()
      ensures Qs() == if Absent(old(Qs()), p) then old(Qs()) else Moved(old(Qs()), p, procs[p].priority)
    {
      hide Moved, OnlyAt;
      ghost var qs0, r := Qs(), procs[p].priority;
      for i := 0 to LEVELS
        invariant Valid() && (Scanned(qs0, Qs(), p, i) || (!Absent(qs0, p) && Qs() == Moved(qs0, p, r)))
      {
        ghost var qs1 := Qs();
        var j := 0;
        while j < size[i]
          invariant j <= size[i] && Qs() == qs1 && Valid() && forall k: nat :: k < j ==> qs1[i][k] != p
        {
          if q[i, j] == p {
            assert qs1[i][j] == p;
            FoundOnly(qs0, qs1, p, i0, j0, r, i, j);
            Requeue(p, i, j, procs[p].priority);
            break;
          }
          j := j + 1;
        }
      }
    }

    /** The scheduler's choice: the first ready process of the highest queue that has one. */
    method Pick(ready: set<nat>) returns (p: Option<nat>, ghost i: nat, ghost j: nat)
      requires Valid()
      ensures p.None? ==> forall h: nat, k: nat :: h < LEVELS && k < |Queue(h)| ==> Queue(h)[k] !in ready
      ensures p.Some? ==>
        && i < LEVELS && j < |Queue(i)| && p.value == Queue(i)[j] && p.value in ready
        && (forall h: nat, k: nat :: h < i && k < |Queue(h)| ==> Queue(h)[k] !in ready)
        && (forall k: nat :: k < j ==> Queue(i)[k] !in ready)
    {
      i, j := 0, 0;
      for a := 0 to LEVELS
        invariant forall h: nat, k: nat :: h < a && k < |Queue(h)| ==> Queue(h)[k] !in ready
      {
        for b := 0 to size[a]
          invariant forall k: nat :: k < b ==> Queue(a)[k] !in ready
        {
          assert Queue(a)[b] == q[a, b];
          if q[a, b] in ready {
            return Some(q[a, b]), a, b;
          }
        }
      }
      return None, 0, 0;
    }
  }
}
