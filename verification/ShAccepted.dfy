/**
 What the parser accepts beyond printed commands: redirections anywhere among the words,
 needless parentheses; and what every accepted line keeps of its tokens.
 */
module ShAccepted {
  import opened ShSyntax
  import opened ShRoundTrip

  // ---- redirections among the words ----

  /** A word and the redirections that follow it. */
  datatype Piece = Piece(w: string, rs: seq<Redirect<string>>)

  function PieceTokens(ps: seq<Piece>): seq<Token> {
    if ps == [] then [] else [Word(ps[0].w)] + (RedirTokens(ps[0].rs) + PieceTokens(ps[1..]))
  }

  function WordsOf(ps: seq<Piece>): (r: seq<string>)
    ensures |r| == |ps|
  {
    seq(|ps|, k requires 0 <= k < |ps| => ps[k].w)
  }

  function RedirsOf(ps: seq<Piece>): seq<Redirect<string>> {
    if ps == [] then [] else ps[0].rs + RedirsOf(ps[1..])
  }

  lemma {:induction false} PiecesParse(ps: seq<Piece>, done: seq<string>, rs: seq<Redirect<string>>, rest: seq<Token>)
    requires |done| + |ps| < MAXARGS && Ends(rest)
    ensures ParseArgs(PieceTokens(ps) + rest, done, rs) == Ok(Wrap(Exec(done + WordsOf(ps)), rs + RedirsOf(ps)), rest)
    decreases |ps|
  {
    hide Wrap, ParseRedirs, RedirTokens, ParseArgs, PieceTokens, WordsOf, RedirsOf;
    SumPieces(ps, done, rs, rest);
    if ps == [] {
      ArgsEnd(rest, done, rs);
    } else {
      var p := ps[0];
      var next := PieceTokens(ps[1..]) + rest;
      PiecesStart([], ps[1..], rest);
      RedirsRound(p.rs, next);
      FirstPiece(ps, rest);
      PieceStep(p, next, done, rs);
      PiecesParse(ps[1..], done + [p.w], rs + p.rs, rest);
    }
  }

  lemma SumPieces(ps: seq<Piece>, done: seq<string>, rs: seq<Redirect<string>>, rest: seq<Token>)
    ensures ps == [] ==> PieceTokens(ps) + rest == rest && done + WordsOf(ps) == done && rs + RedirsOf(ps) == rs
    ensures ps != [] ==> (done + [ps[0].w]) + WordsOf(ps[1..]) == done + WordsOf(ps)
    ensures ps != [] ==> (rs + ps[0].rs) + RedirsOf(ps[1..]) == rs + RedirsOf(ps)
  {
  }

  lemma ArgsEnd(rest: seq<Token>, args: seq<string>, rs: seq<Redirect<string>>)
    requires Ends(rest)
    ensures ParseArgs(rest, args, rs) == Ok(Wrap(Exec(args), rs), rest)
  {
  }

  lemma FirstPiece(ps: seq<Piece>, rest: seq<Token>)
    requires ps != []
    ensures PieceTokens(ps) + rest == [Word(ps[0].w)] + (RedirTokens(ps[0].rs) + (PieceTokens(ps[1..]) + rest))
  {
    var a, b, c := [Word(ps[0].w)], RedirTokens(ps[0].rs), PieceTokens(ps[1..]);
    assert (a + (b + c)) + rest == a + (b + (c + rest));
  }

  lemma PieceStep(p: Piece, next: seq<Token>, done: seq<string>, rs: seq<Redirect<string>>)
    requires |done| + 1 < MAXARGS && ParseRedirs(RedirTokens(p.rs) + next) == Got(p.rs, next)
    ensures ParseArgs([Word(p.w)] + (RedirTokens(p.rs) + next), done, rs) == ParseArgs(next, done + [p.w], rs + p.rs)
  {
    hide ParseRedirs, RedirTokens;
    assert ([Word(p.w)] + (RedirTokens(p.rs) + next))[1..] == RedirTokens(p.rs) + next;
  }

  lemma PiecesStart(first: seq<Redirect<string>>, ps: seq<Piece>, rest: seq<Token>)
    requires Ends(rest)
    ensures NoRedir(PieceTokens(ps) + rest) && !Starts(RedirTokens(first) + (PieceTokens(ps) + rest), Sym('('))
  {
    if ps == [] {
      assert PieceTokens(ps) + rest == rest;
    } else {
      assert (PieceTokens(ps) + rest)[0] == Word(ps[0].w);
    }
    if first != [] {
      assert RedirTokens(first)[0] == RedirToken(first[0].mode);
    }
  }

  /** Redirections may stand before, among and after the words; the command is the same as with all of them at the end. */
  lemma RedirsAnywhere(first: seq<Redirect<string>>, ps: seq<Piece>, rest: seq<Token>)
    requires |ps| < MAXARGS && Ends(rest)
    ensures ParseExec(RedirTokens(first) + (PieceTokens(ps) + rest)) == Ok(Wrap(Exec(WordsOf(ps)), first + RedirsOf(ps)), rest)
    ensures ParseExec(Words(WordsOf(ps)) + RedirTokens(first + RedirsOf(ps)) + rest) ==
      ParseExec(RedirTokens(first) + (PieceTokens(ps) + rest))
  {
    hide Wrap, ParseArgs;
    var next := PieceTokens(ps) + rest;
    PiecesStart(first, ps, rest);
    RedirsRound(first, next);
    PiecesParse(ps, [], first, rest);
    assert [] + WordsOf(ps) == WordsOf(ps);
    SimpleRound(WordsOf(ps), first + RedirsOf(ps), rest);
  }

  // ---- needless parentheses ----

  /** Any command may be put in parentheses, which are not in the tree. */
  lemma ParensParse(c: Cmd<string>, rest: seq<Token>)
    requires Legal(c) && Ends(rest)
    ensures ParseExec([Sym('(')] + (LineTokens(c) + ([Sym(')')] + rest))) == Ok(c, rest)
  {
    hide ParseLine, LineTokens;
    var after := [Sym(')')] + rest;
    var ts := [Sym('(')] + (LineTokens(c) + after);
    assert ts[1..] == LineTokens(c) + after && after[1..] == rest;
    LineRound(c, after);
    NoRedirs(rest);
  }

  // ---- no token is lost or made up ----

  /** How often each token occurs, parentheses left out. */
  function Bag(ts: seq<Token>): multiset<Token> {
    multiset(ts)[Sym('(') := 0][Sym(')') := 0]
  }

  /** Parentheses opened and not closed. */
  function Depth(ts: seq<Token>): int {
    (multiset(ts)[Sym('(')] as int) - (multiset(ts)[Sym(')')] as int)
  }

  lemma BagJoin(a: seq<Token>, b: seq<Token>)
    ensures Bag(a + b) == Bag(a) + Bag(b) && Depth(a + b) == Depth(a) + Depth(b)
  {
  }

  lemma BagFirst(ts: seq<Token>)
    requires ts != []
    ensures Bag(ts) == Bag([ts[0]]) + Bag(ts[1..]) && Depth(ts) == Depth([ts[0]]) + Depth(ts[1..])
  {
    assert ts == [ts[0]] + ts[1..];
    BagJoin([ts[0]], ts[1..]);
  }

  lemma Brackets()
    ensures Bag([Sym('(')]) == Bag([Sym(')')]) == multiset{} && Depth([Sym('(')]) == 1 && Depth([Sym(')')]) == -1
  {
  }

  /** Parentheses apart, a command is written with the same tokens wherever it stands. */
  lemma {:induction false} SameBag(c: Cmd<string>)
    ensures Bag(LineTokens(c)) == Bag(BackTokens(c)) == Bag(PipeTokens(c)) == Bag(ExecTokens(c))
    ensures Depth(LineTokens(c)) == Depth(BackTokens(c)) == Depth(PipeTokens(c)) == Depth(ExecTokens(c))
  {
    hide Bag, Depth;
    if Simple(c) {
      WrittenAlike(c);
    } else {
      Brackets();
      var inner := LineTokens(c);
      Parenthesised(c);
      BagJoin([Sym('(')] + inner, [Sym(')')]);
      BagJoin([Sym('(')], inner);
      match c
      case Pipe(_, _) => assert LineTokens(c) == BackTokens(c) == PipeTokens(c);
      case Back(_) => assert LineTokens(c) == BackTokens(c) && PipeTokens(c) == ExecTokens(c);
      case List(_, _) => assert BackTokens(c) == PipeTokens(c) == ExecTokens(c);
    }
  }

  /** The tokens of `ts` are those of the command and those of the rest. */
  predicate Kept(ts: seq<Token>, c: Cmd<string>, rest: seq<Token>) {
    Bag(ts) == Bag(LineTokens(c)) + Bag(rest) && Depth(ts) == Depth(rest)
  }

  lemma {:induction false} RedirsKept(ts: seq<Token>)
    ensures var r := ParseRedirs(ts); r.Got? ==> ts == RedirTokens(r.rs) + r.rest
    decreases |ts|
  {
    if ts != [] && IsRedir(ts[0]) && |ts| > 1 && ts[1].Word? {
      RedirsKept(ts[2..]);
      assert ts == [ts[0], ts[1]] + ts[2..];
      assert RedirToken(ModeOf(ts[0])) == ts[0] && Word(ts[1].w) == ts[1];
    }
  }

  lemma {:induction false} WrapTokens(c: Cmd<string>, rs: seq<Redirect<string>>)
    ensures ExecTokens(Wrap(c, rs)) == ExecTokens(c) + RedirTokens(rs)
    decreases |rs|
  {
    if rs != [] {
      WrapTokens(c, rs[..|rs| - 1]);
      RedirTokensLast(rs);
    }
  }

  lemma {:induction false} NoParens(args: seq<string>)
    ensures Depth(Words(args)) == 0
  {
    if args != [] {
      NoParens(args[1..]);
      BagJoin([Word(args[0])], Words(args[1..]));
    }
  }

  lemma {:induction false} NoParensHere(rs: seq<Redirect<string>>)
    ensures Depth(RedirTokens(rs)) == 0
  {
    if rs != [] {
      NoParensHere(rs[1..]);
      BagJoin([RedirToken(rs[0].mode), Word(rs[0].file)], RedirTokens(rs[1..]));
    }
  }

  /** A simple command: nothing is left out of what has been seen so far. */
  lemma {:induction false} ArgsKept(ts: seq<Token>, args: seq<string>, rs: seq<Redirect<string>>)
    ensures var r := ParseArgs(ts, args, rs);
      r.Ok? ==>
        && Bag(Words(args)) + Bag(RedirTokens(rs)) + Bag(ts) == Bag(ExecTokens(r.cmd)) + Bag(r.rest)
        && Depth(ts) == Depth(r.rest) + Depth(ExecTokens(r.cmd))
    decreases |ts|
  {
    hide Bag, Depth, RedirTokens;
    var r := ParseArgs(ts, args, rs);
    if ts == [] || Stops(ts[0]) {
      WrapTokens(Exec(args), rs);
      BagJoin(Words(args), RedirTokens(rs));
      NoParens(args);
      NoParensHere(rs);
    } else if r.Ok? {
      var more, rest := ParseRedirs(ts[1..]).rs, ParseRedirs(ts[1..]).rest;
      ArgsKept(rest, args + [ts[0].w], rs + more);
      RedirsKept(ts[1..]);
      PieceKept(ts, args, rs, more, rest);
    }
  }

  lemma PieceKept(ts: seq<Token>, args: seq<string>, rs: seq<Redirect<string>>, more: seq<Redirect<string>>, rest: seq<Token>)
    requires ts != [] && ts[0].Word? && ts[1..] == RedirTokens(more) + rest
    ensures Bag(Words(args + [ts[0].w])) + Bag(RedirTokens(rs + more)) + Bag(rest) == Bag(Words(args)) + Bag(RedirTokens(rs)) + Bag(ts)
    ensures Depth(ts) == Depth(rest)
  {
    hide Bag, RedirTokens, Words;
    BagFirst(ts);
    BagJoin(RedirTokens(more), rest);
    NoParensHere(more);
    RedirTokensJoin(rs, more);
    BagJoin(RedirTokens(rs), RedirTokens(more));
    WordsJoin(args, ts[0].w);
    BagJoin(Words(args), [ts[0]]);
  }

  lemma {:induction false} RedirTokensJoin(rs: seq<Redirect<string>>, more: seq<Redirect<string>>)
    ensures RedirTokens(rs + more) == RedirTokens(rs) + RedirTokens(more)
  {
    if rs == [] {
      assert rs + more == more;
    } else {
      RedirTokensJoin(rs[1..], more);
      assert (rs + more)[1..] == rs[1..] + more;
    }
  }

  lemma {:induction false} WordsJoin(args: seq<string>, w: string)
    ensures Words(args + [w]) == Words(args) + [Word(w)]
  {
    if args == [] {
      assert [] + [w] == [w] && [w][1..] == [];
    } else {
      WordsJoin(args[1..], w);
      assert (args + [w])[1..] == args[1..] + [w];
    }
  }

  lemma {:induction false} ExecKept(ts: seq<Token>)
    ensures var r := ParseExec(ts); r.Ok? ==> Kept(ts, r.cmd, r.rest)
    decreases |ts|, 0
  {
    hide Kept, Bag, Depth, ParseLine, ParseRedirs, ParseArgs, RedirTokens;
    if Starts(ts, Sym('(')) {
      LineKept(ts[1..]);
      var p := ParseLine(ts[1..]);
      if p.Ok? && Starts(p.rest, Sym(')')) {
        RedirsKept(p.rest[1..]);
        match ParseRedirs(p.rest[1..])
        case Bad(_) =>
        case Got(rs, rest) => BlockKept(ts, p.cmd, p.rest, rs, rest);
      }
    } else {
      RedirsKept(ts);
      match ParseRedirs(ts)
      case Bad(_) =>
      case Got(rs, rest) => SimpleKept(ts, rs, rest);
    }
  }

  lemma SimpleKept(ts: seq<Token>, rs: seq<Redirect<string>>, rest: seq<Token>)
    requires ts == RedirTokens(rs) + rest
    ensures var r := ParseArgs(rest, [], rs); r.Ok? ==> Kept(ts, r.cmd, r.rest)
  {
    hide Depth, ParseArgs, RedirTokens;
    var r := ParseArgs(rest, [], rs);
    if r.Ok? {
      BagJoin(RedirTokens(rs), rest);
      NoParensHere(rs);
      ArgsKept(rest, [], rs);
      SameBag(r.cmd);
      Level(r.cmd);
    }
  }

  lemma BlockKept(ts: seq<Token>, c: Cmd<string>, rest: seq<Token>, rs: seq<Redirect<string>>, rest': seq<Token>)
    requires Starts(ts, Sym('(')) && Kept(ts[1..], c, rest) && Starts(rest, Sym(')')) && rest[1..] == RedirTokens(rs) + rest'
    ensures Kept(ts, Wrap(c, rs), rest')
  {
    hide RedirTokens, Wrap, Bag, Depth;
    Brackets();
    BagFirst(ts);
    BagFirst(rest);
    BagJoin(RedirTokens(rs), rest');
    NoParensHere(rs);
    WrapTokens(c, rs);
    BagJoin(ExecTokens(c), RedirTokens(rs));
    SameBag(c);
    SameBag(Wrap(c, rs));
  }

  /** A command is written with as many parentheses closed as opened. */
  lemma {:induction false} Level(c: Cmd<string>)
    ensures Depth(LineTokens(c)) == 0
  {
    hide Bag, Depth;
    SameBag(c);
    match c
    case Exec(args) => NoParens(args);
    case Redir(d, f, m) =>
      Level(d);
      SameBag(d);
      BagJoin(ExecTokens(d), [RedirToken(m), Word(f)]);
      Flat(RedirToken(m), Word(f));
    case Pipe(l, r) =>
      Level(l);
      Level(r);
      JoinBag(ExecTokens(l), Sym('|'), PipeTokens(r));
      SameBag(l);
      SameBag(r);
      assert PipeTokens(c) == ExecTokens(l) + [Sym('|')] + PipeTokens(r);
    case List(l, r) =>
      Level(l);
      Level(r);
      JoinBag(BackTokens(l), Sym(';'), LineTokens(r));
      SameBag(l);
    case Back(d) =>
      Level(d);
      SameBag(d);
      BagJoin(BackTokens(d), [Sym('&')]);
      Flat(Sym('&'), Sym('&'));
      assert BackTokens(c) == BackTokens(d) + [Sym('&')];
  }

  lemma Flat(t: Token, u: Token)
    requires t != Sym('(') && t != Sym(')') && u != Sym('(') && u != Sym(')')
    ensures Depth([t]) == Depth([t, u]) == 0
  {
  }

  lemma JoinBag(a: seq<Token>, t: Token, b: seq<Token>)
    requires t != Sym('(') && t != Sym(')')
    ensures Bag(a + [t] + b) == Bag(a) + Bag([t]) + Bag(b) && Depth(a + [t] + b) == Depth(a) + Depth(b)
  {
    BagJoin(a, [t]);
    BagJoin(a + [t], b);
  }

  lemma {:induction false} BacksKept(c: Cmd<string>, ts: seq<Token>, all: seq<Token>)
    requires Kept(all, c, ts)
    ensures Kept(all, Backs(c, ts).0, Backs(c, ts).1)
    decreases |ts|
  {
    hide Kept;
    if Starts(ts, Sym('&')) {
      BackKept(c, ts, all);
      BacksKept(Back(c), ts[1..], all);
    }
  }

  lemma BackKept(c: Cmd<string>, ts: seq<Token>, all: seq<Token>)
    requires Kept(all, c, ts) && Starts(ts, Sym('&'))
    ensures Kept(all, Back(c), ts[1..])
  {
    hide Bag, Depth;
    Flat(Sym('&'), Sym('&'));
    BagFirst(ts);
    BagJoin(BackTokens(c), [Sym('&')]);
    SameBag(c);
    SameBag(Back(c));
    assert BackTokens(Back(c)) == BackTokens(c) + [Sym('&')];
  }

  lemma TwoKept(ts: seq<Token>, l: Cmd<string>, rest: seq<Token>, t: Token, r: Cmd<string>, rest': seq<Token>, both: seq<Token>)
    requires t != Sym('(') && t != Sym(')') && Starts(rest, t)
    requires Kept(ts, l, rest) && Kept(rest[1..], r, rest')
    requires Bag(both) == Bag(LineTokens(l)) + Bag([t]) + Bag(LineTokens(r))
    ensures Bag(ts) == Bag(both) + Bag(rest') && Depth(ts) == Depth(rest')
  {
    hide Bag;
    BagFirst(rest);
  }

  lemma {:induction false} PipeKept(ts: seq<Token>)
    ensures var r := ParsePipe(ts); r.Ok? ==> Kept(ts, r.cmd, r.rest)
    decreases |ts|, 1
  {
    hide Bag, Depth;
    var r := ParsePipe(ts);
    ExecKept(ts);
    if r.Ok? && Starts(ParseExec(ts).rest, Sym('|')) {
      var c, rest := ParseExec(ts).cmd, ParseExec(ts).rest;
      PipeKept(rest[1..]);
      var d := ParsePipe(rest[1..]).cmd;
      JoinBag(ExecTokens(c), Sym('|'), PipeTokens(d));
      SameBag(c);
      SameBag(d);
      SameBag(Pipe(c, d));
      TwoKept(ts, c, rest, Sym('|'), d, r.rest, PipeTokens(Pipe(c, d)));
    }
  }

  lemma {:induction false} LineKept(ts: seq<Token>)
    ensures var r := ParseLine(ts); r.Ok? ==> Kept(ts, r.cmd, r.rest)
    decreases |ts|, 2
  {
    hide Bag, Depth;
    var r := ParseLine(ts);
    PipeKept(ts);
    if r.Ok? {
      var p := ParsePipe(ts);
      BacksKept(p.cmd, p.rest, ts);
      var (d, rest) := Backs(p.cmd, p.rest);
      if Starts(rest, Sym(';')) {
        LineKept(rest[1..]);
        var e := ParseLine(rest[1..]).cmd;
        JoinBag(BackTokens(d), Sym(';'), LineTokens(e));
        SameBag(d);
        TwoKept(ts, d, rest, Sym(';'), e, r.rest, LineTokens(List(d, e)));
      }
    }
  }

  /** An accepted line has the tokens of its command, needless parentheses apart, and closes what it opens. */
  lemma NothingLost(s: string)
    requires Parse(s).Ok?
    ensures Bag(Lex(s)) == Bag(LineTokens(Parse(s).cmd)) && Depth(Lex(s)) == 0
  {
    LineKept(Lex(s));
  }
}
