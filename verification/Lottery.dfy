/**
 kernel/proc.c, LBS: the lottery over a process table that does not change while it is
 held.  Tickets of runnable processes are laid end to end in table order; the winning
 number falls on one of them, and the earliest process with as many tickets runs.
 */
module Lottery {
  import opened Params
  import opened Options

  datatype Proc = Proc(runnable: bool, tickets: nat, ctime: nat)

  /** Tickets of the runnable processes below `k`. */
  function Before(ps: seq<Proc>, k: nat): nat
    requires k <= |ps|
  {
    if k == 0 then 0 else Before(ps, k - 1) + if ps[k - 1].runnable then ps[k - 1].tickets else 0
  }

  /** The process below `k` whose tickets number `w` falls on. */
  function Holder(ps: seq<Proc>, k: nat, w: nat): (h: nat)
    requires k <= |ps| && w < Before(ps, k)
    ensures h < k && ps[h].runnable && Before(ps, h) <= w < Before(ps, h + 1)
  {
    if Before(ps, k - 1) <= w then k - 1 else Holder(ps, k - 1, w)
  }

  /** Number `w` falls on one process only. */
  lemma OneHolder(ps: seq<Proc>, w: nat, a: nat, b: nat)
    requires a < |ps| && b < |ps|
    requires Before(ps, a) <= w < Before(ps, a + 1) && Before(ps, b) <= w < Before(ps, b + 1)
    ensures a == b
  {
    if a < b {
      BeforeGrows(ps, a + 1, b);
    } else if b < a {
      BeforeGrows(ps, b + 1, a);
    }
  }

  lemma {:induction false} BeforeGrows(ps: seq<Proc>, a: nat, b: nat)
    requires a <= b <= |ps|
    ensures Before(ps, a) <= Before(ps, b)
  {
    if a < b {
      BeforeGrows(ps, a, b - 1);
    }
  }

  /** `e` is the earliest runnable process below `k` with `t` tickets. */
  predicate Earliest(ps: seq<Proc>, k: nat, t: nat, e: nat)
    requires k <= |ps|
  {
    && e < k && ps[e].runnable && ps[e].tickets == t
    && forall j: nat :: j < k && ps[j].runnable && ps[j].tickets == t ==> ps[e].ctime <= ps[j].ctime
  }

  /** What the first loop leaves in earliest_proc[t]. */
  predicate Recorded(ps: seq<Proc>, k: nat, t: nat, e: Option<nat>)
    requires k <= |ps|
  {
    match e
    case Some(e) => Earliest(ps, k, t, e)
    case None => forall j: nat :: j < k && ps[j].runnable ==> ps[j].tickets != t
  }

  /** The first loop: the total, and the earliest process for each number of tickets. */
  method Count(ps: seq<Proc>) returns (total: nat, earliest: array<Option<nat>>)
    requires forall j: nat :: j < |ps| ==> ps[j].tickets < NPROC
    ensures fresh(earliest) && earliest.Length == NPROC && total == Before(ps, |ps|)
    ensures forall t: nat :: t < NPROC ==> Recorded(ps, |ps|, t, earliest[t])
  {
    total := 0;
    earliest := new Option<nat>[NPROC](_ => None);
    for k := 0 to |ps|
      invariant total == Before(ps, k)
      invariant forall t: nat :: t < NPROC ==> Recorded(ps, k, t, earliest[t])
    {
      var p := ps[k];
      if p.runnable {
        total := total + p.tickets;
        if earliest[p.tickets].None? || p.ctime < ps[earliest[p.tickets].value].ctime {
          earliest[p.tickets] := Some(k);
        }
      }
    }
  }

  /** The lottery for winning number `winner`; no process when nobody holds a ticket. */
  method Draw(ps: seq<Proc>, rand: nat) returns (selected: Option<nat>)
    requires forall j: nat :: j < |ps| ==> ps[j].tickets < NPROC
    ensures selected.None? <==> Before(ps, |ps|) == 0
    ensures selected.Some? ==> Selects(ps, rand % Before(ps, |ps|), selected.value)
  {
    var total, earliest := Count(ps);
    if total == 0 {
      return None;
    }
    var winner := rand % total;
    var counter := 0;
    for k := 0 to |ps|
      invariant counter == Before(ps, k) <= winner
    {
      var p := ps[k];
      if p.runnable {
        counter := counter + p.tickets;
        if counter > winner {
          OneHolder(ps, winner, k, Holder(ps, |ps|, winner));
          if earliest[p.tickets].Some? && ps[earliest[p.tickets].value].ctime < p.ctime {
            return earliest[p.tickets];
          }
          return Some(k);
        }
      }
    }
    assert false;
  }

  /** With winning number `w` process `s` may run: an earliest one among those with as many tickets as the holder of `w`. */
  predicate Selects(ps: seq<Proc>, w: nat, s: nat)
    requires w < Before(ps, |ps|)
  {
    Earliest(ps, |ps|, ps[Holder(ps, |ps|, w)].tickets, s)
  }

  // ---- fairness ----

  /** The winning numbers that fall on processes with `t` tickets. */
  ghost function Winners(ps: seq<Proc>, k: nat, t: nat): set<nat>
    requires k <= |ps|
  {
    set w: nat | w < Before(ps, k) && ps[Holder(ps, k, w)].tickets == t
  }

  /** The tickets of the runnable processes that hold `t` each. */
  function Stake(ps: seq<Proc>, k: nat, t: nat): nat
    requires k <= |ps|
  {
    if k == 0 then 0 else Stake(ps, k - 1, t) + if ps[k - 1].runnable && ps[k - 1].tickets == t then t else 0
  }

  ghost function Interval(a: nat, n: nat): (s: set<nat>)
    ensures |s| == n && forall w: nat :: w in s <==> a <= w < a + n
  {
    if n == 0 then {} else Interval(a, n - 1) + {a + n - 1}
  }

  lemma {:induction false} WinnersCount(ps: seq<Proc>, k: nat, t: nat)
    requires k <= |ps|
    ensures |Winners(ps, k, t)| == Stake(ps, k, t)
  {
    if k == 0 {
      assert Winners(ps, k, t) == {};
    } else {
      WinnersCount(ps, k - 1, t);
      WinnersStep(ps, k, t);
    }
  }

  /** Process `k - 1` adds its own stretch of numbers. */
  lemma WinnersStep(ps: seq<Proc>, k: nat, t: nat)
    requires 0 < k <= |ps|
    ensures
      var own := if ps[k - 1].runnable && ps[k - 1].tickets == t then Interval(Before(ps, k - 1), t) else {};
      Winners(ps, k, t) == Winners(ps, k - 1, t) + own && Winners(ps, k - 1, t) !! own
  {
    hide Holder, Interval, Before;
    var own := if ps[k - 1].runnable && ps[k - 1].tickets == t then Interval(Before(ps, k - 1), t) else {};
    forall w: nat ensures w in Winners(ps, k, t) <==> w in Winners(ps, k - 1, t) || w in own {
      WinnerStep(ps, k, t, w);
    }
    forall w: nat | w in Winners(ps, k - 1, t) ensures w !in own {
    }
  }

  lemma WinnerStep(ps: seq<Proc>, k: nat, t: nat, w: nat)
    requires 0 < k <= |ps|
    ensures
      w < Before(ps, k) && ps[Holder(ps, k, w)].tickets == t
      <==> (w < Before(ps, k - 1) && ps[Holder(ps, k - 1, w)].tickets == t)
           || (ps[k - 1].runnable && ps[k - 1].tickets == t && Before(ps, k - 1) <= w < Before(ps, k - 1) + t)
  {
  }

  /**
   Of the winning numbers [0, total), exactly as many as the processes holding `t`
   tickets hold between them lead to running a process that holds `t`, whichever
   earliest process is taken for each.
   */
  lemma Fairness(ps: seq<Proc>, t: nat, pick: map<nat, nat>)
    requires forall w: nat :: w < Before(ps, |ps|) ==> w in pick && Selects(ps, w, pick[w])
    ensures |set w: nat | w < Before(ps, |ps|) && w in pick && pick[w] < |ps| && ps[pick[w]].tickets == t| == Stake(ps, |ps|, t)
  {
    WinnersCount(ps, |ps|, t);
    assert (set w: nat | w < Before(ps, |ps|) && w in pick && pick[w] < |ps| && ps[pick[w]].tickets == t) == Winners(ps, |ps|, t);
  }
}
