/**
 user/grep.c: the matcher.  A pattern denotes a language over literals, '.', and c*;
 match finds out whether a line has a substring in it.
 */
module Grep {
  // ---- what a pattern denotes ----

  /** c*, a character, or the end of the line. */
  datatype Item = Star(c: char) | Lit(c: char) | Eol

  /** The pattern after a leading ^ has been dealt with.  A $ is special only at the end, a * only after a character. */
  function Items(re: string): seq<Item> {
    if re == [] then []
    else if |re| > 1 && re[1] == '*' then [Star(re[0])] + Items(re[2..])
    else if re == "$" then [Eol]
    else [Lit(re[0])] + Items(re[1..])
  }

  predicate Fits(c: char, x: char) {
    c == '.' || c == x
  }

  predicate AllFit(c: char, u: string) {
    forall k: nat :: k < |u| ==> Fits(c, u[k])
  }

  /** `u` is in the language of the items. */
  ghost predicate In(items: seq<Item>, u: string)
    decreases |items|
  {
    if items == [] then u == []
    else match items[0]
      case Star(c) => exists n: nat :: n <= |u| && AllFit(c, u[..n]) && In(items[1..], u[n..])
      case Lit(c) => u != [] && Fits(c, u[0]) && In(items[1..], u[1..])
      case Eol => In(items[1..], u)
  }

  /** The pattern's matches must reach the end of the line. */
  predicate ToEnd(items: seq<Item>) {
    items != [] && items[|items| - 1].Eol?
  }

  /** The first `k` characters of `text` match. */
  ghost predicate Hit(items: seq<Item>, text: string, k: nat) {
    k <= |text| && In(items, text[..k]) && (ToEnd(items) ==> k == |text|)
  }

  ghost predicate Here(items: seq<Item>, text: string) {
    exists k: nat :: Hit(items, text, k)
  }

  /** The substring text[i..j] matches, and lies where ^ and $ want it. */
  ghost predicate Found(re: string, text: string, i: nat, j: nat) {
    var anchored := re != [] && re[0] == '^';
    var items := Items(if anchored then re[1..] else re);
    && i <= j <= |text| && In(items, text[i..j])
    && (anchored ==> i == 0) && (ToEnd(items) ==> j == |text|)
  }

  // ---- one item at a time ----

  lemma EmptyHere(text: string)
    ensures Here([], text)
  {
    assert Hit([], text, 0);
  }

  lemma EolHere(text: string)
    ensures Here([Eol], text) <==> text == []
  {
    if text == [] {
      assert In([Eol][1..], text[..0]);
      assert Hit([Eol], text, 0);
    }
    if k: nat :| Hit([Eol], text, k) {
      assert In([Eol][1..], text[..k]);
    }
  }

  lemma LitHere(c: char, items: seq<Item>, text: string)
    ensures Here([Lit(c)] + items, text) <==> text != [] && Fits(c, text[0]) && Here(items, text[1..])
  {
    var all := [Lit(c)] + items;
    assert all[1..] == items;
    assert ToEnd(all) == ToEnd(items);
    if k: nat :| Hit(all, text, k) {
      assert text[..k][1..] == text[1..][..k - 1];
      assert Hit(items, text[1..], k - 1);
    }
    if text != [] && Fits(c, text[0]) && Here(items, text[1..]) {
      var k: nat :| Hit(items, text[1..], k);
      assert text[..k + 1][1..] == text[1..][..k];
      assert Hit(all, text, k + 1);
    }
  }

  /** c* takes any number of fitting characters. */
  lemma StarHere(c: char, items: seq<Item>, text: string)
    ensures Here([Star(c)] + items, text) <==> exists n: nat :: n <= |text| && AllFit(c, text[..n]) && Here(items, text[n..])
  {
    var all := [Star(c)] + items;
    assert all[1..] == items;
    assert ToEnd(all) == (items != [] && ToEnd(items));
    if k: nat :| Hit(all, text, k) {
      var n: nat :| n <= |text[..k]| && AllFit(c, text[..k][..n]) && In(items, text[..k][n..]);
      assert text[..k][..n] == text[..n] && text[..k][n..] == text[n..][..k - n];
      assert Hit(items, text[n..], k - n);
    }
    if n: nat :| n <= |text| && AllFit(c, text[..n]) && Here(items, text[n..]) {
      var k: nat :| Hit(items, text[n..], k);
      assert text[..n + k][..n] == text[..n] && text[..n + k][n..] == text[n..][..k];
      assert Hit(all, text, n + k);
    }
  }

  // ---- what patterns mean, in the text ----

  /** Characters without a meaning of their own. */
  predicate Literal(p: string) {
    forall k: nat :: k < |p| ==> p[k] != '^' && p[k] != '.' && p[k] != '*' && p[k] != '$'
  }

  /** Literal characters in front have to be there, and the rest of the pattern applies to the rest. */
  lemma {:induction false} LiteralFirst(p: string, q: string, u: string)
    requires Literal(p) && (q == [] || q[0] != '*')
    ensures In(Items(p + q), u) <==> |p| <= |u| && u[..|p|] == p && In(Items(q), u[|p|..])
    ensures ToEnd(Items(p + q)) == ToEnd(Items(q))
    decreases |p|
  {
    hide In, Items, Literal, ToEnd;
    if p == [] {
      assert p + q == q && u[0..] == u;
    } else {
      LiteralItem(p, q);
      OneIn(p[0], Items(p[1..] + q), u);
      LiteralFirst(p[1..], q, if u == [] then u else u[1..]);
      EndOf(Lit(p[0]), Items(p[1..] + q));
      if |p| <= |u| {
        FirstIs(p, u);
      }
    }
  }

  lemma EndOf(x: Item, items: seq<Item>)
    requires !x.Eol?
    ensures ToEnd([x] + items) == ToEnd(items)
  {
  }

  lemma FirstIs(p: string, u: string)
    requires 0 < |p| <= |u|
    ensures u[1..][|p| - 1..] == u[|p|..]
    ensures u[..|p|] == p <==> u[0] == p[0] && u[1..][..|p| - 1] == p[1..]
  {
    assert u[..|p|] == [u[0]] + u[1..][..|p| - 1] && p == [p[0]] + p[1..];
  }

  lemma LiteralItem(p: string, q: string)
    requires Literal(p) && p != [] && (q == [] || q[0] != '*')
    ensures Literal(p[1..]) && p[0] != '.' && Items(p + q) == [Lit(p[0])] + Items(p[1..] + q)
  {
    hide Items;
    var re := p + q;
    assert re[1..] == p[1..] + q && re[0] == p[0];
    assert |re| > 1 ==> re[1] == if |p| > 1 then p[1] else q[0];
    OneItem(re);
  }

  lemma OneItem(re: string)
    requires re != [] && re[0] != '$' && (|re| > 1 ==> re[1] != '*')
    ensures Items(re) == [Lit(re[0])] + Items(re[1..])
  {
  }

  lemma OneIn(c: char, items: seq<Item>, u: string)
    ensures In([Lit(c)] + items, u) <==> u != [] && Fits(c, u[0]) && In(items, u[1..])
  {
    assert ([Lit(c)] + items)[1..] == items;
  }

  lemma LiteralIn(q: string, v: string)
    requires Literal(q)
    ensures (In(Items(q), v) <==> v == q) && !ToEnd(Items(q))
  {
    LiteralFirst(q, [], v);
    assert q + [] == q && v[..|v|] == v;
  }

  /** Literal characters match themselves. */
  lemma LiteralFound(p: string, text: string, i: nat, j: nat)
    requires Literal(p)
    ensures Found(p, text, i, j) <==> i <= j <= |text| && text[i..j] == p
  {
    assert p + [] == p;
    if i <= j <= |text| {
      var u := text[i..j];
      LiteralFirst(p, [], u);
      assert u[..|u|] == u;
    }
  }

  /** '.' matches any one character. */
  lemma DotFound(p: string, q: string, text: string, i: nat, j: nat)
    requires Literal(p) && Literal(q)
    ensures Found(p + "." + q, text, i, j) <==> i <= j <= |text| && exists x: char :: text[i..j] == p + [x] + q
  {
    hide In, Items;
    assert p + ("." + q) == p + "." + q && (p + ("." + q))[0] != '^';
    if i <= j <= |text| {
      var u := text[i..j];
      LiteralFirst(p, "." + q, u);
      DotItems(q);
      if |u| > |p| {
        var v := u[|p|..];
        OneIn('.', Items(q), v);
        LiteralIn(q, v[1..]);
        assert v == [v[0]] + v[1..];
        assert u[..|p|] == p && v[1..] == q ==> u == p + [v[0]] + q;
      } else if |u| == |p| {
        OneIn('.', Items(q), u[|p|..]);
      }
      LiteralIn(q, []);
      forall x: char | u == p + [x] + q ensures u[..|p|] == p && u[|p|..][1..] == q && |u| > |p| {
        assert u[|p|..] == [x] + q;
      }
    }
  }

  lemma DotItems(q: string)
    requires Literal(q)
    ensures Items("." + q) == [Lit('.')] + Items(q)
  {
    assert ("." + q)[1..] == q && ("." + q)[0] == '.';
    assert q != [] ==> ("." + q)[1] == q[0];
  }

  predicate AllAre(c: char, w: string) {
    forall k: nat :: k < |w| ==> c == '.' || w[k] == c
  }

  lemma StarIn(c: char, q: string, v: string)
    requires Literal(q)
    ensures In(Items([c, '*'] + q), v) <==> |q| <= |v| && v[|v| - |q|..] == q && AllAre(c, v[..|v| - |q|])
    ensures !ToEnd(Items([c, '*'] + q))
  {
    hide In, AllAre, Items, Literal, Fits;
    StarItems(c, q);
    LiteralIn(q, v);
    forall n: nat ensures n <= |v| && In(Items(q), v[n..]) <==> n == |v| - |q| && v[n..] == q {
      if n <= |v| {
        LiteralIn(q, v[n..]);
      }
    }
    StarMeans(c, Items(q), v);
    if |q| <= |v| {
      Same(c, v[..|v| - |q|]);
    }
  }

  lemma StarItems(c: char, q: string)
    ensures Items([c, '*'] + q) == [Star(c)] + Items(q)
  {
    var re := [c, '*'] + q;
    assert re[2..] == q && re[1] == '*';
  }

  lemma StarMeans(c: char, items: seq<Item>, v: string)
    ensures In([Star(c)] + items, v) <==> exists n: nat :: n <= |v| && AllFit(c, v[..n]) && In(items, v[n..])
  {
    assert ([Star(c)] + items)[1..] == items;
  }

  lemma Same(c: char, w: string)
    ensures AllFit(c, w) <==> AllAre(c, w)
  {
    if AllFit(c, w) {
      assert forall k: nat :: k < |w| ==> Fits(c, w[k]);
    }
  }

  /** c* matches any number of characters c, and .* anything. */
  lemma StarFound(p: string, c: char, q: string, text: string, i: nat, j: nat)
    requires Literal(p) && Literal(q) && (c == '.' || Literal([c]))
    ensures Found(p + [c, '*'] + q, text, i, j) <==>
      i <= j <= |text| && exists w: string :: text[i..j] == p + w + q && AllAre(c, w)
  {
    hide In, Items, ToEnd, AllAre;
    var tail := [c, '*'] + q;
    assert p + tail == p + [c, '*'] + q;
    assert (p + tail)[0] != '^' by { assert [c][0] == c; }
    if i <= j <= |text| {
      var u := text[i..j];
      LiteralFirst(p, tail, u);
      if |p| <= |u| {
        StarIn(c, q, u[|p|..]);
      }
      Parts(p, c, q, u);
    }
  }

  lemma Parts(p: string, c: char, q: string, u: string)
    ensures (exists w: string :: u == p + w + q && AllAre(c, w)) <==>
      && |p| <= |u| && u[..|p|] == p
      && var v := u[|p|..]; |q| <= |v| && v[|v| - |q|..] == q && AllAre(c, v[..|v| - |q|])
  {
    if w: string :| u == p + w + q && AllAre(c, w) {
      assert u[..|p|] == p && u[|p|..] == w + q;
      assert (w + q)[|w|..] == q && (w + q)[..|w|] == w;
    }
    if |p| <= |u| && u[..|p|] == p {
      var v := u[|p|..];
      if |q| <= |v| && v[|v| - |q|..] == q && AllAre(c, v[..|v| - |q|]) {
        var w := v[..|v| - |q|];
        assert u == p + w + q;
      }
    }
  }

  /** ^ and $ tie a match to the two ends of the line. */
  lemma AnchorsFound(p: string, text: string, i: nat, j: nat)
    requires Literal(p)
    ensures Found("^" + p, text, i, j) <==> i == 0 && j <= |text| && text[..j] == p
    ensures Found(p + "$", text, i, j) <==> i <= j == |text| && text[i..] == p
  {
    assert ("^" + p)[1..] == p && p + [] == p;
    assert Items("$") == [Eol] && [Eol][1..] == [];
    if i <= j <= |text| {
      var u := text[i..j];
      LiteralFirst(p, [], u);
      LiteralFirst(p, "$", u);
      assert u[..|u|] == u;
      assert i == 0 ==> u == text[..j];
      assert j == |text| ==> u == text[i..];
    }
  }

  // ---- the matcher ----

  /** matchhere: a match at the beginning of `text`. */
  method Matchhere(re: string, text: string) returns (b: bool)
    ensures b <==> Here(Items(re), text)
    decreases |re|, 0
  {
    if re == [] {
      EmptyHere(text);
      return true;
    }
    if |re| > 1 && re[1] == '*' {
      b := Matchstar(re[0], re[2..], text);
      return;
    }
    if re[0] == '$' && |re| == 1 {
      EolHere(text);
      return text == [];
    }
    LitHere(re[0], Items(re[1..]), text);
    if text != [] && (re[0] == '.' || re[0] == text[0]) {
      b := Matchhere(re[1..], text[1..]);
      return;
    }
    return false;
  }

  /** matchstar: c* and then the rest of the pattern. */
  method Matchstar(c: char, re: string, text: string) returns (b: bool)
    ensures b <==> Here([Star(c)] + Items(re), text)
    decreases |re|, 1
  {
    StarHere(c, Items(re), text);
    var n := 0;
    while true
      invariant n <= |text| && AllFit(c, text[..n])
      invariant forall k: nat :: k < n ==> !Here(Items(re), text[k..])
      decreases |text| - n
    {
      b := Matchhere(re, text[n..]);
      if b {
        return;
      }
      if n == |text| || !(text[n] == c || c == '.') {
        Stuck(c, Items(re), text, n);
        return false;
      }
      assert text[..n + 1] == text[..n] + [text[n]];
      n := n + 1;
    }
  }

  /** Beyond the first character that does not fit, c* cannot go. */
  lemma Stuck(c: char, items: seq<Item>, text: string, n: nat)
    requires n <= |text| && (n == |text| || !Fits(c, text[n]))
    requires forall k: nat :: k <= n ==> !Here(items, text[k..])
    ensures !exists m: nat :: m <= |text| && AllFit(c, text[..m]) && Here(items, text[m..])
  {
    forall m: nat | m <= |text| && m > n ensures !AllFit(c, text[..m]) {
      assert text[..m][n] == text[n];
    }
  }

  /** match: a match anywhere in the line, or at its beginning for ^. */
  method Match(re: string, text: string) returns (b: bool)
    ensures b <==> exists i: nat, j: nat :: Found(re, text, i, j)
  {
    if re != [] && re[0] == '^' {
      b := Matchhere(re[1..], text);
      FoundAt(re, re[1..], text, 0);
      assert text[0..] == text;
      assert forall i: nat, j: nat :: Found(re, text, i, j) ==> i == 0;
      return;
    }
    var n := 0;
    while true
      invariant n <= |text| && forall k: nat :: k < n ==> !Here(Items(re), text[k..])
      decreases |text| - n
    {
      b := Matchhere(re, text[n..]);
      FoundAt(re, re, text, n);
      if b {
        return;
      }
      if n == |text| {
        NowhereFound(re, text);
        return false;
      }
      n := n + 1;
    }
  }

  /** A match at position `i` is a substring that is found there. */
  lemma FoundAt(re: string, rest: string, text: string, i: nat)
    requires i <= |text| && rest == (if re != [] && re[0] == '^' then re[1..] else re)
    requires re != [] && re[0] == '^' ==> i == 0
    ensures Here(Items(rest), text[i..]) <==> exists j: nat :: Found(re, text, i, j)
  {
    if k: nat :| Hit(Items(rest), text[i..], k) {
      assert text[i..][..k] == text[i..i + k];
      assert Found(re, text, i, i + k);
    }
    if j: nat :| Found(re, text, i, j) {
      assert text[i..][..j - i] == text[i..j];
      assert Hit(Items(rest), text[i..], j - i);
    }
  }

  lemma NowhereFound(re: string, text: string)
    requires (re == [] || re[0] != '^') && forall k: nat :: k <= |text| ==> !Here(Items(re), text[k..])
    ensures !exists i: nat, j: nat :: Found(re, text, i, j)
  {
    forall i: nat, j: nat ensures !Found(re, text, i, j) {
      if i <= |text| {
        FoundAt(re, re, text, i);
      }
    }
  }
}
