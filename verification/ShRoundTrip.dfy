/**
 Parsing what was printed gives the command back, and what the parser accepts is legal.
 */
module ShRoundTrip {
  import opened ShSyntax

  // ---- redirections ----

  function RedirTokens(rs: seq<Redirect<string>>): seq<Token> {
    if rs == [] then [] else [RedirToken(rs[0].mode), Word(rs[0].file)] + RedirTokens(rs[1..])
  }

  lemma {:induction false} RedirTokensLast(rs: seq<Redirect<string>>)
    requires rs != []
    ensures RedirTokens(rs) == RedirTokens(rs[..|rs| - 1]) + [RedirToken(rs[|rs| - 1].mode), Word(rs[|rs| - 1].file)]
  {
    if |rs| > 1 {
      RedirTokensLast(rs[1..]);
      assert rs[1..][..|rs| - 2] == rs[..|rs| - 1][1..];
    }
  }

  /** A command without the redirections around it, and those redirections, innermost first. */
  function Base(c: Cmd<string>): (b: Cmd<string>)
    ensures !b.Redir?
  {
    match c case Redir(d, _, _) => Base(d) case _ => c
  }

  function Around(c: Cmd<string>): seq<Redirect<string>> {
    match c case Redir(d, f, m) => Around(d) + [Redirect(f, m)] case _ => []
  }

  lemma {:induction false} Split(c: Cmd<string>)
    ensures Wrap(Base(c), Around(c)) == c && ExecTokens(c) == ExecTokens(Base(c)) + RedirTokens(Around(c))
    ensures Legal(c) ==> Legal(Base(c))
    decreases c
  {
    match c
    case Redir(d, f, m) =>
      Split(d);
      assert Around(c)[..|Around(c)| - 1] == Around(d);
      RedirTokensLast(Around(c));
      assert ExecTokens(c) == ExecTokens(Base(c)) + RedirTokens(Around(c)) by {
        assert (ExecTokens(Base(d)) + RedirTokens(Around(d))) + [RedirToken(m), Word(f)]
            == ExecTokens(Base(d)) + (RedirTokens(Around(d)) + [RedirToken(m), Word(f)]);
      }
    case _ =>
  }

  /** `rest` does not go on with a redirection. */
  predicate NoRedir(rest: seq<Token>) {
    rest == [] || !IsRedir(rest[0])
  }

  lemma {:induction false} RedirsRound(rs: seq<Redirect<string>>, rest: seq<Token>)
    requires NoRedir(rest)
    ensures ParseRedirs(RedirTokens(rs) + rest) == Got(rs, rest)
  {
    if rs == [] {
      assert RedirTokens(rs) + rest == rest;
    } else {
      hide ParseRedirs;
      RedirsRound(rs[1..], rest);
      var head, tail := [RedirToken(rs[0].mode), Word(rs[0].file)], RedirTokens(rs[1..]) + rest;
      assert RedirTokens(rs) == head + RedirTokens(rs[1..]);
      assert (head + RedirTokens(rs[1..])) + rest == head + tail;
      RedirsStep(rs[0], tail, rs[1..], rest);
      assert [rs[0]] + rs[1..] == rs;
    }
  }

  /** One round of parseredirs' loop. */
  lemma RedirsStep(r: Redirect<string>, tail: seq<Token>, more: seq<Redirect<string>>, rest: seq<Token>)
    requires ParseRedirs(tail) == Got(more, rest)
    ensures ParseRedirs([RedirToken(r.mode), Word(r.file)] + tail) == Got([r] + more, rest)
  {
    var ts := [RedirToken(r.mode), Word(r.file)] + tail;
    assert ts[0] == RedirToken(r.mode) && ts[1] == Word(r.file) && ts[2..] == tail;
  }

  // ---- simple commands ----

  /** `rest` ends a simple command. */
  predicate Ends(rest: seq<Token>) {
    rest == [] || Stops(rest[0])
  }

  /** One round of parseexec's loop. */
  lemma ArgsStep(w: string, tail: seq<Token>, done: seq<string>, more: seq<Redirect<string>>, rest: seq<Token>)
    requires |done| + 1 < MAXARGS && ParseRedirs(tail) == Got(more, rest)
    ensures ParseArgs([Word(w)] + tail, done, []) == ParseArgs(rest, done + [w], more)
  {
    assert ([Word(w)] + tail)[1..] == tail;
    assert [] + more == more;
  }

  lemma {:induction false} ArgsRound(args: seq<string>, done: seq<string>, rs: seq<Redirect<string>>, rest: seq<Token>)
    requires args != [] && |done| + |args| < MAXARGS && Ends(rest)
    ensures ParseArgs(Words(args) + (RedirTokens(rs) + rest), done, []) == Ok(Wrap(Exec(done + args), rs), rest)
    decreases |args|
  {
    hide Wrap, ParseRedirs, RedirTokens;
    var tail := RedirTokens(rs) + rest;
    assert Words(args) + tail == [Word(args[0])] + (Words(args[1..]) + tail);
    if |args| == 1 {
      assert Words(args[1..]) + tail == tail;
      RedirsRound(rs, rest);
      ArgsStep(args[0], tail, done, rs, rest);
      assert done + args == done + [args[0]];
    } else {
      var next := Words(args[1..]) + tail;
      NoRedirs(next);
      ArgsStep(args[0], next, done, [], next);
      ArgsRound(args[1..], done + [args[0]], rs, rest);
      assert (done + [args[0]]) + args[1..] == done + args;
    }
  }

  lemma NoRedirs(ts: seq<Token>)
    requires NoRedir(ts)
    ensures ParseRedirs(ts) == Got([], ts)
  {
  }

  lemma SimpleRound(args: seq<string>, rs: seq<Redirect<string>>, rest: seq<Token>)
    requires |args| < MAXARGS && Ends(rest)
    ensures ParseExec(Words(args) + RedirTokens(rs) + rest) == Ok(Wrap(Exec(args), rs), rest)
  {
    hide Wrap, ParseRedirs, RedirTokens, ParseArgs;
    var ts := Words(args) + (RedirTokens(rs) + rest);
    assert Words(args) + RedirTokens(rs) + rest == ts;
    if args == [] {
      assert ts == RedirTokens(rs) + rest;
      RedirsRound(rs, rest);
      NotOpen(rs, rest);
      ArgsDone(rs, rest);
    } else {
      assert ts[0] == Word(args[0]);
      NoRedirs(ts);
      ArgsRound(args, [], rs, rest);
      assert [] + args == args;
    }
  }

  lemma NotOpen(rs: seq<Redirect<string>>, rest: seq<Token>)
    requires Ends(rest)
    ensures !Starts(RedirTokens(rs) + rest, Sym('('))
  {
  }

  lemma ArgsDone(rs: seq<Redirect<string>>, rest: seq<Token>)
    requires Ends(rest)
    ensures ParseArgs(rest, [], rs) == Ok(Wrap(Exec([]), rs), rest)
  {
  }

  // ---- the levels ----

  predicate Simple(c: Cmd<string>) {
    c.Exec? || c.Redir?
  }

  lemma {:induction false} ExecRound(c: Cmd<string>, rest: seq<Token>)
    requires Legal(c) && Ends(rest)
    ensures ParseExec(ExecTokens(c) + rest) == Ok(c, rest)
    decreases c, if Simple(c) then 0 else 5
  {
    var b, rs := Base(c), Around(c);
    Split(c);
    if b.Exec? {
      SimpleRound(b.args, rs, rest);
    } else {
      assert c.Redir? ==> b < c by {
        BaseBelow(c);
      }
      LineRound(b, [Sym(')')] + (RedirTokens(rs) + rest));
      BlockRound(b, rs, rest);
      assert ExecTokens(b) + RedirTokens(rs) + rest == ExecTokens(c) + rest;
    }
  }

  lemma BlockRound(b: Cmd<string>, rs: seq<Redirect<string>>, rest: seq<Token>)
    requires !Simple(b) && Ends(rest)
    requires
      var after := [Sym(')')] + (RedirTokens(rs) + rest);
      ParseLine(LineTokens(b) + after) == Ok(b, after)
    ensures ParseExec(ExecTokens(b) + RedirTokens(rs) + rest) == Ok(Wrap(b, rs), rest)
  {
    hide Wrap, ParseRedirs, RedirTokens, ParseLine, LineTokens;
    var after := [Sym(')')] + (RedirTokens(rs) + rest);
    var ts := ExecTokens(b) + RedirTokens(rs) + rest;
    Parenthesised(b);
    assert ts == [Sym('(')] + (LineTokens(b) + after);
    assert ts[1..] == LineTokens(b) + after;
    RedirsRound(rs, rest);
    assert after[1..] == RedirTokens(rs) + rest;
  }

  lemma Parenthesised(b: Cmd<string>)
    requires !Simple(b)
    ensures ExecTokens(b) == [Sym('(')] + LineTokens(b) + [Sym(')')]
  {
    match b
    case Pipe(_, _) => assert LineTokens(b) == BackTokens(b) == PipeTokens(b);
    case Back(_) => assert LineTokens(b) == BackTokens(b);
    case _ =>
  }

  lemma {:induction false} BaseBelow(c: Cmd<string>)
    ensures c.Redir? ==> Base(c) < c
    decreases c
  {
    if c.Redir? {
      BaseBelow(c.cmd);
    }
  }

  lemma {:induction false} PipeRound(c: Cmd<string>, rest: seq<Token>)
    requires Legal(c) && Ends(rest) && !Starts(rest, Sym('|'))
    ensures ParsePipe(PipeTokens(c) + rest) == Ok(c, rest)
    decreases c, if c.Pipe? || Simple(c) then 2 else 6
  {
    match c
    case Pipe(l, r) =>
      var after := [Sym('|')] + (PipeTokens(r) + rest);
      assert PipeTokens(c) + rest == ExecTokens(l) + after;
      ExecRound(l, after);
      assert after[1..] == PipeTokens(r) + rest;
      PipeRound(r, rest);
    case _ =>
      ExecRound(c, rest);
  }

  /** What the loop over & makes of a printed command and what follows it. */
  lemma {:induction false} BackRound(c: Cmd<string>, rest: seq<Token>)
    requires Legal(c) && Ends(rest) && !Starts(rest, Sym('|'))
    ensures
      var p := ParsePipe(BackTokens(c) + rest);
      p.Ok? && Backs(p.cmd, p.rest) == Backs(c, rest)
    decreases c, if c.List? then 7 else 3
  {
    match c
    case Back(d) =>
      assert BackTokens(c) + rest == BackTokens(d) + ([Sym('&')] + rest);
      BackRound(d, [Sym('&')] + rest);
      assert ([Sym('&')] + rest)[1..] == rest;
    case _ =>
      PipeRound(c, rest);
  }

  lemma {:induction false} LineRound(c: Cmd<string>, rest: seq<Token>)
    requires Legal(c) && (rest == [] || rest[0] == Sym(')'))
    ensures ParseLine(LineTokens(c) + rest) == Ok(c, rest)
    decreases c, 4
  {
    match c
    case List(l, r) =>
      var after := [Sym(';')] + (LineTokens(r) + rest);
      assert LineTokens(c) + rest == BackTokens(l) + after;
      BackRound(l, after);
      assert after[1..] == LineTokens(r) + rest;
      LineRound(r, rest);
    case _ =>
      BackRound(c, rest);
  }

  // ---- printing gives legal tokens ----

  lemma {:induction false} WordsLegal(args: seq<string>)
    requires forall k: nat :: k < |args| ==> LegalWord(args[k])
    ensures forall k: nat :: k < |Words(args)| ==> LegalToken(Words(args)[k])
  {
    if args != [] {
      WordsLegal(args[1..]);
    }
  }

  predicate AllLegal(ts: seq<Token>) {
    forall k: nat :: k < |ts| ==> LegalToken(ts[k])
  }

  lemma {:induction false} TokensLegal(c: Cmd<string>)
    requires Legal(c)
    ensures AllLegal(LineTokens(c)) && AllLegal(BackTokens(c)) && AllLegal(PipeTokens(c)) && AllLegal(ExecTokens(c))
    decreases c
  {
    match c
    case Exec(args) =>
      WordsLegal(args);
    case Redir(d, f, m) =>
      TokensLegal(d);
      assert AllLegal([RedirToken(m), Word(f)]);
      assert ExecTokens(c) == ExecTokens(d) + [RedirToken(m), Word(f)];
      assert AllLegal(ExecTokens(c));
      assert LineTokens(c) == BackTokens(c) == PipeTokens(c) == ExecTokens(c);
    case Pipe(l, r) =>
      TokensLegal(l);
      TokensLegal(r);
      assert AllLegal(PipeTokens(c));
    case List(l, r) =>
      TokensLegal(l);
      TokensLegal(r);
      assert AllLegal(LineTokens(c));
    case Back(d) =>
      TokensLegal(d);
      assert AllLegal(BackTokens(c));
  }

  /** Every legal command, printed with parentheses where they are needed, is parsed back as it was. */
  lemma RoundTrip(c: Cmd<string>)
    requires Legal(c)
    ensures Parse(Print(c)) == Ok(c, [])
  {
    TokensLegal(c);
    LexShow(LineTokens(c));
    LineRound(c, []);
    assert LineTokens(c) + [] == LineTokens(c);
  }

  /** The same with the tokens spaced in any way, at the end of the line too. */
  lemma RoundTripSpaced(c: Cmd<string>, gaps: seq<string>)
    requires Legal(c) && WellSpaced(LineTokens(c), gaps)
    ensures Parse(Spread(LineTokens(c), gaps)) == Ok(c, [])
  {
    TokensLegal(c);
    LexSpread(LineTokens(c), gaps);
    LineRound(c, []);
    assert LineTokens(c) + [] == LineTokens(c);
  }

  // ---- what the operators mean ----

  lemma RoundOf(c: Cmd<string>, ts: seq<Token>)
    requires Legal(c) && LineTokens(c) == ts
    ensures ParseLine(ts) == Ok(c, [])
  {
    LineRound(c, []);
    assert ts + [] == ts;
  }

  lemma WordsAre(a: string, b: string)
    ensures Words([a]) == [Word(a)] && Words([a, b]) == [Word(a), Word(b)]
  {
    assert [a, b][1..] == [b] && [b][1..] == [] && [a][1..] == [];
    assert Words([]) == [];
    assert Words([b]) == [Word(b)];
  }

  /** A simple or redirected command is written the same everywhere. */
  lemma WrittenAlike(c: Cmd<string>)
    requires c.Exec? || c.Redir?
    ensures LineTokens(c) == BackTokens(c) == PipeTokens(c) == ExecTokens(c)
  {
    assert PipeTokens(c) == ExecTokens(c);
    assert BackTokens(c) == PipeTokens(c);
  }

  lemma Single(a: string)
    ensures var c := Exec([a]); LineTokens(c) == BackTokens(c) == PipeTokens(c) == ExecTokens(c) == [Word(a)]
  {
    WordsAre(a, a);
    WrittenAlike(Exec([a]));
  }

  lemma RedirRound(a: string, b: string, m: Mode)
    requires LegalWord(a) && LegalWord(b)
    ensures ParseLine([Word(a), RedirToken(m), Word(b)]) == Ok(Redir(Exec([a]), b, m), [])
  {
    Single(a);
    WrittenAlike(Redir(Exec([a]), b, m));
    assert [Word(a)] + [RedirToken(m), Word(b)] == [Word(a), RedirToken(m), Word(b)];
    RoundOf(Redir(Exec([a]), b, m), [Word(a), RedirToken(m), Word(b)]);
  }

  /** < reads from a file, > writes it, >> appends to it; words are arguments. */
  lemma Redirections(a: string, b: string)
    requires LegalWord(a) && LegalWord(b)
    ensures ParseLine([Word(a), Word(b)]) == Ok(Exec([a, b]), [])
    ensures ParseLine([Word(a), Sym('<'), Word(b)]) == Ok(Redir(Exec([a]), b, In), [])
    ensures ParseLine([Word(a), Sym('>'), Word(b)]) == Ok(Redir(Exec([a]), b, Out), [])
    ensures ParseLine([Word(a), Append, Word(b)]) == Ok(Redir(Exec([a]), b, Add), [])
  {
    WordsAre(a, b);
    WrittenAlike(Exec([a, b]));
    RoundOf(Exec([a, b]), [Word(a), Word(b)]);
    RedirRound(a, b, In);
    RedirRound(a, b, Out);
    RedirRound(a, b, Add);
  }

  /** | pipes, ; lists, & puts in the background, and parentheses group. */
  lemma Operators(a: string, b: string, f: string)
    requires LegalWord(a) && LegalWord(b) && LegalWord(f)
    ensures ParseLine([Word(a), Sym('|'), Word(b)]) == Ok(Pipe(Exec([a]), Exec([b])), [])
    ensures ParseLine([Word(a), Sym(';'), Word(b)]) == Ok(List(Exec([a]), Exec([b])), [])
    ensures ParseLine([Word(a), Sym('&')]) == Ok(Back(Exec([a])), [])
    ensures ParseLine([Sym('('), Word(a), Sym('|'), Word(b), Sym(')'), Sym('>'), Word(f)]) ==
      Ok(Redir(Pipe(Exec([a]), Exec([b])), f, Out), [])
  {
    Single(a);
    Single(b);
    PipeOf(a, b);
    RoundOf(Pipe(Exec([a]), Exec([b])), [Word(a), Sym('|'), Word(b)]);
    assert [Word(a)] + [Sym(';')] + [Word(b)] == [Word(a), Sym(';'), Word(b)];
    RoundOf(List(Exec([a]), Exec([b])), [Word(a), Sym(';'), Word(b)]);
    assert [Word(a)] + [Sym('&')] == [Word(a), Sym('&')];
    assert BackTokens(Back(Exec([a]))) == [Word(a), Sym('&')];
    RoundOf(Back(Exec([a])), [Word(a), Sym('&')]);
    Grouped(a, b, f);
  }

  lemma PipeOf(a: string, b: string)
    ensures
      var c := Pipe(Exec([a]), Exec([b]));
      LineTokens(c) == BackTokens(c) == PipeTokens(c) == [Word(a), Sym('|'), Word(b)]
  {
    Single(a);
    Single(b);
    var c := Pipe(Exec([a]), Exec([b]));
    assert PipeTokens(c) == [Word(a)] + [Sym('|')] + [Word(b)] == [Word(a), Sym('|'), Word(b)];
    assert BackTokens(c) == PipeTokens(c);
  }

  lemma Grouped(a: string, b: string, f: string)
    requires LegalWord(a) && LegalWord(b) && LegalWord(f)
    ensures ParseLine([Sym('('), Word(a), Sym('|'), Word(b), Sym(')'), Sym('>'), Word(f)]) ==
      Ok(Redir(Pipe(Exec([a]), Exec([b])), f, Out), [])
  {
    PipeOf(a, b);
    var c := Pipe(Exec([a]), Exec([b]));
    assert ExecTokens(c) == [Sym('(')] + PipeTokens(c) + [Sym(')')];
    WrittenAlike(Redir(c, f, Out));
    var ts := [Sym('(')] + [Word(a), Sym('|'), Word(b)] + [Sym(')')] + [Sym('>'), Word(f)];
    RoundOf(Redir(c, f, Out), ts);
    assert ts == [Sym('('), Word(a), Sym('|'), Word(b), Sym(')'), Sym('>'), Word(f)];
  }

  // ---- what is accepted is legal ----

  lemma {:induction false} RedirsLegal(ts: seq<Token>)
    requires AllLegal(ts)
    ensures
      var r := ParseRedirs(ts);
      r.Got? ==> AllLegal(r.rest) && forall k: nat :: k < |r.rs| ==> LegalWord(r.rs[k].file)
    decreases |ts|
  {
    if ts != [] && IsRedir(ts[0]) && |ts| > 1 && ts[1].Word? {
      RedirsLegal(ts[2..]);
      assert LegalToken(ts[1]);
    }
  }

  lemma {:induction false} WrapLegal(c: Cmd<string>, rs: seq<Redirect<string>>)
    requires Legal(c) && forall k: nat :: k < |rs| ==> LegalWord(rs[k].file)
    ensures Legal(Wrap(c, rs))
    decreases |rs|
  {
    if rs != [] {
      WrapLegal(c, rs[..|rs| - 1]);
    }
  }

  lemma {:induction false} ArgsLegal(ts: seq<Token>, args: seq<string>, rs: seq<Redirect<string>>)
    requires AllLegal(ts) && Legal(Exec(args)) && forall k: nat :: k < |rs| ==> LegalWord(rs[k].file)
    ensures var r := ParseArgs(ts, args, rs); r.Ok? ==> Legal(r.cmd) && AllLegal(r.rest)
    decreases |ts|
  {
    if ts == [] || Stops(ts[0]) {
      WrapLegal(Exec(args), rs);
    } else if ts[0].Word? && |args| + 1 < MAXARGS {
      assert LegalToken(ts[0]);
      RedirsLegal(ts[1..]);
      match ParseRedirs(ts[1..])
      case Bad(_) =>
      case Got(more, rest) => ArgsLegal(rest, args + [ts[0].w], rs + more);
    }
  }

  lemma {:induction false} BacksLegal(c: Cmd<string>, ts: seq<Token>)
    requires Legal(c) && AllLegal(ts)
    ensures Legal(Backs(c, ts).0) && AllLegal(Backs(c, ts).1)
    decreases |ts|
  {
    if Starts(ts, Sym('&')) {
      BacksLegal(Back(c), ts[1..]);
    }
  }

  lemma {:induction false} ExecLegal(ts: seq<Token>)
    requires AllLegal(ts)
    ensures var r := ParseExec(ts); r.Ok? ==> Legal(r.cmd) && AllLegal(r.rest)
    decreases |ts|, 0
  {
    if Starts(ts, Sym('(')) {
      LineLegal(ts[1..]);
      var r := ParseLine(ts[1..]);
      if r.Ok? && Starts(r.rest, Sym(')')) {
        RedirsLegal(r.rest[1..]);
        match ParseRedirs(r.rest[1..])
        case Bad(_) =>
        case Got(rs, _) => WrapLegal(r.cmd, rs);
      }
    } else {
      RedirsLegal(ts);
      match ParseRedirs(ts)
      case Bad(_) =>
      case Got(rs, rest) => ArgsLegal(rest, [], rs);
    }
  }

  lemma {:induction false} PipeLegal(ts: seq<Token>)
    requires AllLegal(ts)
    ensures var r := ParsePipe(ts); r.Ok? ==> Legal(r.cmd) && AllLegal(r.rest)
    decreases |ts|, 1
  {
    ExecLegal(ts);
    var r := ParseExec(ts);
    if r.Ok? && Starts(r.rest, Sym('|')) {
      PipeLegal(r.rest[1..]);
    }
  }

  lemma {:induction false} LineLegal(ts: seq<Token>)
    requires AllLegal(ts)
    ensures var r := ParseLine(ts); r.Ok? ==> Legal(r.cmd) && AllLegal(r.rest)
    decreases |ts|, 2
  {
    PipeLegal(ts);
    var r := ParsePipe(ts);
    if r.Ok? {
      BacksLegal(r.cmd, r.rest);
      var rest := Backs(r.cmd, r.rest).1;
      if Starts(rest, Sym(';')) {
        LineLegal(rest[1..]);
      }
    }
  }

  /**
   A line that is accepted gives a legal command, and printing that command and parsing
   it again changes nothing.
   */
  lemma AcceptedIsStable(s: string)
    requires Line(s) && Parse(s).Ok?
    ensures Legal(Parse(s).cmd) && Parse(Print(Parse(s).cmd)) == Parse(s)
  {
    LexLegal(s);
    LineLegal(Lex(s));
    RoundTrip(Parse(s).cmd);
  }
}
