/** The order that kernel/bio.c keeps: moving a released buffer to the front. */
module Lru {
  function Without(xs: seq<nat>, x: nat): (r: seq<nat>)
    ensures forall y :: y in r <==> y in xs && y != x
  {
    if xs == [] then [] else if xs[0] == x then Without(xs[1..], x) else [xs[0]] + Without(xs[1..], x)
  }

  function Touch(order: seq<nat>, x: nat): seq<nat> {
    [x] + Without(order, x)
  }

  /** The order after the releases `h`, oldest first. */
  function After(order: seq<nat>, h: seq<nat>): seq<nat>
    decreases |h|
  {
    if h == [] then order else Touch(After(order, h[..|h| - 1]), h[|h| - 1])
  }

  /** When `x` was last released: the position in `h` counted from 1, or 0 for never. */
  function LastUse(h: seq<nat>, x: nat): (n: nat)
    ensures n <= |h| && (n > 0 ==> h[n - 1] == x)
    ensures forall i :: n <= i < |h| ==> h[i] != x
    decreases |h|
  {
    if h == [] then 0 else if h[|h| - 1] == x then |h| else LastUse(h[..|h| - 1], x)
  }

  ghost predicate NoDup(xs: seq<nat>) {
    forall i, j :: 0 <= i < j < |xs| ==> xs[i] != xs[j]
  }

  /** `x` stands before `y`. */
  ghost predicate Before(xs: seq<nat>, x: nat, y: nat) {
    exists i, j :: 0 <= i < j < |xs| && xs[i] == x && xs[j] == y
  }

  lemma {:induction false} WithoutAt(xs: seq<nat>, k: nat)
    requires NoDup(xs) && k < |xs|
    ensures Without(xs, xs[k]) == xs[..k] + xs[k + 1..]
  {
    if k == 0 {
      WithoutAbsent(xs[1..], xs[0]);
    } else {
      WithoutAt(xs[1..], k - 1);
      assert xs[1..][..k - 1] == xs[1..k] && xs[1..][k..] == xs[k + 1..];
      assert [xs[0]] + xs[1..k] == xs[..k];
    }
  }

  lemma {:induction false} WithoutAbsent(xs: seq<nat>, x: nat)
    requires x !in xs
    ensures Without(xs, x) == xs
  {
    if xs != [] {
      WithoutAbsent(xs[1..], x);
    }
  }

  /** Where everything is after a release of the buffer at position `k`. */
  lemma TouchPlaces(order: seq<nat>, k: nat)
    requires NoDup(order) && k < |order|
    ensures
      var t := Touch(order, order[k]);
      && |t| == |order| && t[0] == order[k]
      && (forall i: nat {:trigger order[i]} :: i < k ==> t[i + 1] == order[i])
      && (forall i: nat {:trigger order[i]} :: k < i < |order| ==> t[i] == order[i])
      && (forall i: nat {:trigger t[i]} :: 0 < i < |t| ==> t[i] == order[if i <= k then i - 1 else i])
  {
    WithoutAt(order, k);
    assert Touch(order, order[k]) == [order[k]] + order[..k] + order[k + 1..];
  }

  lemma TouchKeeps(order: seq<nat>, x: nat)
    requires NoDup(order) && x in order
    ensures NoDup(Touch(order, x)) && |Touch(order, x)| == |order|
    ensures forall y :: y in Touch(order, x) <==> y in order
  {
    var k: nat :| k < |order| && order[k] == x;
    TouchPlaces(order, k);
    hide Touch;
  }

  /** The released buffer stands before every other. */
  lemma TouchFirst(order: seq<nat>, x: nat, y: nat)
    requires NoDup(order) && x in order && x != y
    ensures y in order ==> Before(Touch(order, x), x, y)
    ensures !Before(Touch(order, x), y, x)
  {
    TouchKeeps(order, x);
    var t := Touch(order, x);
    assert t[0] == x;
    if y in order {
      var j: nat :| j < |t| && t[j] == y;
    }
  }

  /** The others stand as they did. */
  lemma TouchOthers(order: seq<nat>, x: nat, y: nat, z: nat)
    requires NoDup(order) && x in order && y != x && z != x
    ensures Before(Touch(order, x), y, z) <==> Before(order, y, z)
  {
    var k: nat :| k < |order| && order[k] == x;
    TouchPlaces(order, k);
    hide Touch;
    var t := Touch(order, x);
    if Before(t, y, z) {
      var i: nat, j: nat :| i < j < |t| && t[i] == y && t[j] == z;
      assert order[if i <= k then i - 1 else i] == y && order[if j <= k then j - 1 else j] == z;
    }
    if Before(order, y, z) {
      var i: nat, j: nat :| i < j < |order| && order[i] == y && order[j] == z;
      assert t[if i < k then i + 1 else i] == y && t[if j < k then j + 1 else j] == z;
    }
  }

  /**
   The list is sorted by recency: of two buffers the one released later stands
   first, and buffers never released keep their original order.
   */
  lemma {:induction false} SortedByRecency(order: seq<nat>, h: seq<nat>, x: nat, y: nat)
    requires NoDup(order) && x in order && y in order && x != y
    requires forall z :: z in h ==> z in order
    ensures NoDup(After(order, h)) && |After(order, h)| == |order|
    ensures forall z :: z in After(order, h) <==> z in order
    ensures Before(After(order, h), x, y) <==>
              || LastUse(h, x) > LastUse(h, y)
              || (LastUse(h, x) == 0 == LastUse(h, y) && Before(order, x, y))
    decreases |h|
  {
    if h != [] {
      SortedByRecency(order, h[..|h| - 1], x, y);
      var was, z := After(order, h[..|h| - 1]), h[|h| - 1];
      TouchKeeps(was, z);
      if x != z && y != z {
        TouchOthers(was, z, x, y);
      } else {
        TouchFirst(was, z, if z == x then y else x);
      }
    }
  }
}
