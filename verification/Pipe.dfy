/**
 kernel/pipe.c: a ring buffer between readers and writers, with counters that wrap.
 pipewrite and piperead run under pi->lock from entry, or from waking up, until they
 return or go to sleep; each method below is one such stretch, so that any sequence of
 calls is an interleaving of readers and writers.
 */
module Pipe {
  const PIPESIZE: nat := 512
  const UINT: nat := 0x1_0000_0000

  type Byte = b: nat | b < 256

  /** A 32-bit counter after `n` increments. */
  function Counter(n: nat): nat {
    n % UINT
  }

  lemma Wrapped(x: nat, q: nat, m: nat)
    requires x == UINT * q + m && m < UINT
    ensures x % UINT == m
  {
  }

  /** A counter's slot is that of the unbounded count, since PIPESIZE divides 2^32. */
  lemma CounterSlot(x: nat)
    ensures Counter(x) % PIPESIZE == x % PIPESIZE
  {
    var q, m := x / UINT, x % UINT;
    assert x == PIPESIZE * (0x80_0000 * q) + m;
  }

  /** A counter moves on by `d`, perhaps wrapping. */
  lemma CounterPlus(x: nat, d: nat)
    requires d <= PIPESIZE
    ensures Counter(x + d) == (Counter(x) + d) % UINT
    ensures Counter(x + d) == Counter(x) + d || Counter(x + d) == Counter(x) + d - UINT
  {
    var q, m := x / UINT, x % UINT;
    if m + d < UINT {
      Wrapped(x + d, q, m + d);
    } else {
      Wrapped(x + d, q + 1, m + d - UINT);
    }
  }

  /** The empty and full tests, and the steps and slots of the counters, are right across the wrap-around. */
  lemma CounterTests(r: nat, w: nat)
    requires r <= w <= r + PIPESIZE
    ensures Counter(w) == (Counter(r) + PIPESIZE) % UINT <==> w == r + PIPESIZE
    ensures Counter(r) == Counter(w) <==> r == w
    ensures Counter(w) % PIPESIZE == w % PIPESIZE && Counter(r) % PIPESIZE == r % PIPESIZE
    ensures (Counter(w) + 1) % UINT == Counter(w + 1) && (Counter(r) + 1) % UINT == Counter(r + 1)
  {
    hide Counter;
    CounterSlot(r);
    CounterSlot(w);
    CounterPlus(r, w - r);
    CounterPlus(r, PIPESIZE);
    CounterPlus(r, 1);
    CounterPlus(w, 1);
  }

  datatype WriteEnd = Full | Wrote(n: nat) | WriteFailed
  datatype ReadEnd = Empty | Read(bytes: seq<Byte>) | ReadFailed

  class Pipe {
    const data: array<Byte>
    var nread: nat
    var nwrite: nat
    var readopen: bool
    var writeopen: bool

    /** All bytes ever stored, and all bytes ever taken out. */
    ghost var accepted: seq<Byte>
    ghost var consumed: seq<Byte>
    /** Processes asleep on &nread and on &nwrite. */
    ghost var readers: set<nat>
    ghost var writers: set<nat>

    ghost predicate Valid()
      reads this, data
    {
      && data.Length == PIPESIZE
      && consumed <= accepted && |accepted| <= |consumed| + PIPESIZE
      && nread == Counter(|consumed|) && nwrite == Counter(|accepted|)
      && forall k: nat :: |consumed| <= k < |accepted| ==> data[k % PIPESIZE] == accepted[k]
    }

    /** Readers sleep only while there is nothing to read but may be, writers only while there is no room but may be. */
    ghost predicate Awake()
      reads this
    {
      && (readers != {} ==> accepted == consumed && writeopen)
      && (writers != {} ==> |accepted| == |consumed| + PIPESIZE && readopen)
    }

    constructor ()
      ensures Valid() && Awake() && readopen && writeopen && accepted == consumed == []
      ensures readers == writers == {} && fresh(data)
    {
      data := new Byte[PIPESIZE](_ => 0);
      nread, nwrite, readopen, writeopen := 0, 0, true, true;
      accepted, consumed, readers, writers := [], [], {}, {};
    }

    /** pi->data[pi->nwrite++ % PIPESIZE] = ch */
    method Store(ch: Byte)
      requires Valid() && |accepted| < |consumed| + PIPESIZE
      modifies this`nwrite, this`accepted, data
      ensures Valid() && accepted == old(accepted) + [ch]
    {
      CounterTests(|consumed|, |accepted|);
      data[nwrite % PIPESIZE] := ch;
      nwrite := (nwrite + 1) % UINT;
      accepted := accepted + [ch];
      forall k: nat | |consumed| <= k < |accepted| ensures data[k % PIPESIZE] == accepted[k] {
        if k < |accepted| - 1 {
          SlotsApart(|consumed|, k, |accepted| - 1);
        }
      }
    }

    /** ch = pi->data[pi->nread++ % PIPESIZE] */
    method Take() returns (ch: Byte)
      requires Valid() && |consumed| < |accepted|
      modifies this`nread, this`consumed
      ensures Valid() && consumed == old(consumed) + [ch] && accepted[|old(consumed)|] == ch
    {
      CounterTests(|consumed|, |accepted|);
      ch := data[nread % PIPESIZE];
      nread := (nread + 1) % UINT;
      consumed := consumed + [ch];
    }

    /** How many of `left` bytes can be stored before the pipe is full or the writer is killed. */
    ghost function Storable(left: nat, alive: nat): (k: nat)
      requires Valid()
      reads this, data
    {
      var room := |consumed| + PIPESIZE - |accepted|;
      if !readopen then 0 else if alive <= room && alive <= left then alive else if room <= left then room else left
    }

    /**
     pipewrite by process `me`, which has written `i` of its `n` bytes so far.  The first
     |src| of them can be copied in; killed() is false for the first `alive` rounds.
     */
    method Write(me: nat, src: seq<Byte>, n: nat, i: nat, alive: nat) returns (end: WriteEnd, j: nat)
      requires Valid() && i <= |src| <= n && me !in readers && me !in writers
      modifies this`nwrite, this`accepted, this`readers, this`writers, data
      ensures Valid() && i <= j <= |src| && accepted == old(accepted) + src[i..j]
      ensures j - i == old(Storable(|src| - i, alive))
      ensures end.Full? ==> |accepted| == |consumed| + PIPESIZE && readopen && j < n && me in writers
      ensures end.Wrote? ==> end.n == j && (j == n || j == |src|)
      ensures end.WriteFailed? <==> j < n && (!readopen || alive <= j - i)
      ensures end.WriteFailed? ==> readers == old(readers)
      ensures writers == if end.Full? then old(writers) + {me} else old(writers)
      ensures old(Awake()) ==>
        (Awake() <==> !(old(readers) != {} && readopen && 0 < alive <= PIPESIZE && i + alive <= |src| && i + alive < n))
    {
      j := i;
      ghost var start := accepted;
      assert src[i..i] == [];
      while j < n
        invariant i <= j <= |src| && Valid() && accepted == start + src[i..j]
        invariant readers == old(readers) && writers == old(writers)
        invariant j > i ==> readopen && j - i <= alive && |start| < |consumed| + PIPESIZE
        invariant readopen ==> j - i <= old(Storable(|src| - i, alive))
      {
        if !readopen || alive <= j - i {
          return WriteFailed, j;
        }
        CounterTests(|consumed|, |accepted|);
        if nwrite == (nread + PIPESIZE) % UINT {
          readers := {};
          writers := writers + {me};
          return Full, j;
        }
        if j == |src| {
          break;
        }
        Store(src[j]);
        assert src[i..j + 1] == src[i..j] + [src[j]];
        j := j + 1;
      }
      readers := {};
      end := Wrote(j);
    }

    /** kill() makes `me` runnable, whichever channel it slept on; it goes on in its loop. */
    method Kill(me: nat)
      requires Valid()
      modifies this`readers, this`writers
      ensures Valid() && me !in readers && me !in writers
      ensures readers == old(readers) - {me} && writers == old(writers) - {me}
      ensures old(Awake()) ==> Awake()
    {
      readers, writers := readers - {me}, writers - {me};
    }

    /**
     A writer of two bytes killed after the first leaves a reader asleep beside it: the
     reader found the pipe empty and went to sleep, and nobody has woken it.
     */
    static method KilledWriter(a: Byte, b: Byte) returns (p: Pipe)
      ensures fresh(p) && p.Valid() && p.readers == {1} && p.writeopen
      ensures p.accepted == p.consumed + [a] && !p.Awake()
    {
      p := new Pipe();
      var end, taken := p.Readout(1, 1, 1, false);
      assert p.readers == {1};
      var result, j := p.Write(2, [a, b], 2, 0, 1);
      assert [a, b][0..1] == [a];
    }

    /**
     piperead of `n` bytes by process `me`.  Copying out succeeds for the first `room`
     bytes; `killed` is what killed() says.  A byte that cannot be copied out is lost.
     */
    method Readout(me: nat, n: nat, room: nat, killed: bool) returns (end: ReadEnd, ghost taken: seq<Byte>)
      requires Valid() && room <= n && me !in readers && me !in writers
      modifies this`nread, this`consumed, this`readers, this`writers
      ensures Valid() && consumed == old(consumed) + taken
      ensures end.Empty? <==> old(accepted == consumed && writeopen) && !killed
      ensures end.ReadFailed? <==> old(accepted == consumed && writeopen) && killed
      ensures !end.Read? ==> taken == []
      ensures end.Read? ==> end.bytes <= taken && |end.bytes| <= room
      ensures end.Read? ==> |taken| == if room == n || |old(accepted)| - |old(consumed)| <= room then |end.bytes| else room + 1
      ensures end.Read? ==> |end.bytes| == if |old(accepted)| - |old(consumed)| < room then |old(accepted)| - |old(consumed)| else room
      ensures readers == if end.Empty? then old(readers) + {me} else old(readers)
      ensures old(Awake()) ==> Awake()
    {
      hide Counter;
      taken := [];
      CounterTests(|consumed|, |accepted|);
      if nread == nwrite && writeopen {
        if killed {
          return ReadFailed, taken;
        }
        readers := readers + {me};
        return Empty, taken;
      }
      var out: seq<Byte> := [];
      ghost var start := consumed;
      var i := 0;
      while i < n
        invariant i <= room && |out| == i && out == taken && Valid() && consumed == start + taken
        invariant i <= |accepted| - |start| && readers == old(readers) && accepted == old(accepted)
      {
        CounterTests(|consumed|, |accepted|);
        if nread == nwrite {
          break;
        }
        var ch := Take();
        taken := taken + [ch];
        if i == room {
          break;
        }
        out := out + [ch];
        i := i + 1;
      }
      writers := {};
      end := Read(out);
    }

    /** pipeclose of one end; whether both are closed now, and the pipe's page is freed. */
    method Close(writable: bool) returns (last: bool)
      requires Valid()
      modifies this`readopen, this`writeopen, this`readers, this`writers
      ensures Valid() && last == (!readopen && !writeopen)
      ensures writeopen == (old(writeopen) && !writable) && readopen == (old(readopen) && writable)
      ensures old(Awake()) ==> Awake()
      ensures writable ==> readers == {}
      ensures !writable ==> writers == {}
    {
      if writable {
        writeopen := false;
        readers := {};
      } else {
        readopen := false;
        writers := {};
      }
      last := !readopen && !writeopen;
    }
  }

  /** Fewer than PIPESIZE apart, two positions use different slots. */
  lemma SlotsApart(r: nat, k: nat, w: nat)
    requires r <= k < w < r + PIPESIZE
    ensures k % PIPESIZE != w % PIPESIZE
  {
  }
}
