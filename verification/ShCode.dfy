/**
 user/sh.c: the parser on the characters of a line.  `s` is the line up to its NUL, a
 position in it stands for a char* and the *ps cursor is passed in and handed back.
 Words are spans of the line until nulterminate cuts them off in place.
 */
module ShCode {
  import opened ShSyntax
  import ShRoundTrip

  /** A word: from `q` up to, not including, `e`. */
  datatype Span = Span(q: nat, e: nat)

  function Chars(w: Span, s: string): string {
    if w.q <= w.e <= |s| then s[w.q..w.e] else ""
  }

  function CharsAll(ws: seq<Span>, s: string): (r: seq<string>)
    ensures |r| == |ws| && forall k: nat :: k < |r| ==> r[k] == Chars(ws[k], s)
  {
    seq(|ws|, k requires 0 <= k < |ws| => Chars(ws[k], s))
  }

  function CharsRedirs(rs: seq<Redirect<Span>>, s: string): (r: seq<Redirect<string>>)
    ensures |r| == |rs| && forall k: nat :: k < |r| ==> r[k] == Redirect(Chars(rs[k].file, s), rs[k].mode)
  {
    seq(|rs|, k requires 0 <= k < |rs| => Redirect(Chars(rs[k].file, s), rs[k].mode))
  }

  /** The command with its words spelled out. */
  function Text(c: Cmd<Span>, s: string): Cmd<string> {
    match c
    case Exec(args) => Exec(CharsAll(args, s))
    case Redir(d, file, mode) => Redir(Text(d, s), Chars(file, s), mode)
    case Pipe(l, r) => Pipe(Text(l, s), Text(r, s))
    case List(l, r) => List(Text(l, s), Text(r, s))
    case Back(d) => Back(Text(d, s))
  }

  /** A maximal word of the line. */
  predicate WordAt(w: Span, s: string) {
    && w.q < w.e <= |s| && (forall k: nat :: w.q <= k < w.e ==> Plain(s[k]))
    && (w.e < |s| ==> !Plain(s[w.e]))
  }

  predicate WordsAt(c: Cmd<Span>, s: string) {
    match c
    case Exec(args) => forall k: nat :: k < |args| ==> WordAt(args[k], s)
    case Redir(d, file, _) => WordsAt(d, s) && WordAt(file, s)
    case Pipe(l, r) => WordsAt(l, s) && WordsAt(r, s)
    case List(l, r) => WordsAt(l, s) && WordsAt(r, s)
    case Back(d) => WordsAt(d, s)
  }

  predicate RedirsAt(rs: seq<Redirect<Span>>, s: string) {
    forall k: nat :: k < |rs| ==> WordAt(rs[k].file, s)
  }

  lemma {:induction false} TextWrap(c: Cmd<Span>, rs: seq<Redirect<Span>>, s: string)
    ensures Text(Wrap(c, rs), s) == Wrap(Text(c, s), CharsRedirs(rs, s))
    ensures WordsAt(c, s) && RedirsAt(rs, s) ==> WordsAt(Wrap(c, rs), s)
    decreases |rs|
  {
    if rs == [] {
      assert CharsRedirs(rs, s) == [];
    } else {
      TextWrap(c, rs[..|rs| - 1], s);
      assert CharsRedirs(rs, s)[..|rs| - 1] == CharsRedirs(rs[..|rs| - 1], s);
    }
  }

  datatype Outcome = Fine(cmd: Cmd<Span>, j: nat) | Died(msg: string)

  /** The parser, started at `i`, did what the grammar says. */
  predicate Agrees(s: string, i: nat, o: Outcome, p: Parsed) {
    match o
    case Fine(c, j) => i <= j <= |s| && WordsAt(c, s) && p == Ok(Text(c, s), Lex(s[j..]))
    case Died(m) => p == Panic(m)
  }

  // ---- lexical level ----

  lemma {:induction false} SkipStep(s: string, i: nat)
    requires i < |s| && White(s[i])
    ensures Skip(s[i..]) == Skip(s[i + 1..])
  {
    assert s[i..][1..] == s[i + 1..];
  }

  lemma {:induction false} LexSkip(s: string)
    ensures Lex(Skip(s)) == Lex(s) && Skip(Skip(s)) == Skip(s)
  {
  }

  method SkipWhite(s: string, i: nat) returns (j: nat)
    requires i <= |s|
    ensures i <= j <= |s| && s[j..] == Skip(s[i..]) && Lex(s[j..]) == Lex(s[i..])
  {
    j := i;
    while j < |s| && White(s[j])
      invariant i <= j <= |s| && Skip(s[j..]) == Skip(s[i..])
    {
      SkipStep(s, j);
      j := j + 1;
    }
    LexSkip(s[i..]);
  }

  method WordEnd(s: string, i: nat) returns (j: nat)
    requires i <= |s|
    ensures i <= j <= |s| && j == i + WordLength(s[i..])
  {
    j := i;
    while j < |s| && !White(s[j]) && !Symbol(s[j])
      invariant i <= j <= |s| && WordLength(s[i..]) == j - i + WordLength(s[j..])
    {
      assert s[j..][1..] == s[j + 1..];
      j := j + 1;
    }
  }

  /** What gettoken's return value stands for. */
  function Meaning(tok: char, w: string): Token {
    if tok == 'a' then Word(w) else if tok == '+' then Append else Sym(tok)
  }

  /** Returns NUL at the end of the line, 'a' for a word, '+' for >>, and a symbol for itself. */
  method Gettoken(s: string, i: nat) returns (tok: char, q: nat, e: nat, j: nat)
    requires i <= |s| && Line(s)
    ensures i <= q <= e <= j <= |s|
    ensures tok == '\0' <==> Lex(s[i..]) == []
    ensures tok == '\0' ==> j == |s|
    ensures tok != '\0' ==> i < j && Lex(s[i..]) == [Meaning(tok, s[q..e])] + Lex(s[j..])
    ensures tok == 'a' ==> WordAt(Span(q, e), s)
  {
    q := SkipWhite(s, i);
    e := q;
    if q == |s| {
      tok := '\0';
    } else {
      tok := s[q];
      if tok in {'|', '(', ')', ';', '&', '<'} {
        e := q + 1;
      } else if tok == '>' {
        e := q + 1;
        if e < |s| && s[e] == '>' {
          tok := '+';
          e := e + 1;
        }
      } else {
        tok := 'a';
        e := WordEnd(s, q);
      }
    }
    j := SkipWhite(s, e);
    if tok != '\0' {
      FirstToken(s, q, e, tok);
    }
  }

  lemma FirstToken(s: string, q: nat, e: nat, tok: char)
    requires q < e <= |s| && !White(s[q])
    requires if s[q] == '>' then (if q + 1 < |s| && s[q + 1] == '>' then tok == '+' && e == q + 2 else tok == '>' && e == q + 1)
             else if Symbol(s[q]) then tok == s[q] && e == q + 1
             else tok == 'a' && e == q + WordLength(s[q..])
    ensures Lex(s[q..]) == [Meaning(tok, s[q..e])] + Lex(s[e..])
  {
    var r := s[q..];
    assert Skip(r) == r;
    assert r[0] == s[q] && (q + 1 < |s| ==> r[1] == s[q + 1]);
    assert r[..e - q] == s[q..e] && r[e - q..] == s[e..];
    assert First(r) == (Meaning(tok, s[q..e]), e - q);
  }

  function FirstChar(t: Token): char {
    match t case Word(w) => if w == [] then '\0' else w[0] case Sym(c) => c case Append => '>'
  }

  /** The token at the head of a line. */
  predicate Heads(ts: seq<Token>, toks: set<char>) {
    ts != [] && LegalToken(ts[0]) && FirstChar(ts[0]) in toks
  }

  /** Skips white space and tells whether the next character is one of `toks`. */
  method Peek(s: string, i: nat, toks: set<char>) returns (hit: bool, j: nat)
    requires i <= |s| && Line(s)
    ensures i <= j <= |s| && Lex(s[j..]) == Lex(s[i..])
    ensures hit <==> Heads(Lex(s[j..]), toks)
    ensures Lex(s[j..]) == [] ==> j == |s|
    ensures Lex(s[j..]) != [] ==> LegalToken(Lex(s[j..])[0])
  {
    j := SkipWhite(s, i);
    hit := j < |s| && s[j] in toks;
    LexSkip(s[i..]);
    if j < |s| {
      LexLegal(s[j..]);
      HeadChar(s, j);
    }
  }

  lemma HeadChar(s: string, j: nat)
    requires j < |s| && !White(s[j])
    ensures Lex(s[j..]) != [] && FirstChar(Lex(s[j..])[0]) == s[j]
  {
    var r := s[j..];
    assert Skip(r) == r && r[0] == s[j];
  }

  // ---- redirections ----

  /** `rs` in front of what the rest of parseredirs finds. */
  function Onto(rs: seq<Redirect<string>>, r: Redirs): Redirs {
    match r case Got(more, rest) => Got(rs + more, rest) case Bad(m) => Bad(m)
  }

  lemma OntoMore(rs: seq<Redirect<string>>, w: string, t: Token, tail: seq<Token>)
    requires IsRedir(t)
    ensures Onto(rs, ParseRedirs([t, Word(w)] + tail)) == Onto(rs + [Redirect(w, ModeOf(t))], ParseRedirs(tail))
  {
    assert ([t, Word(w)] + tail)[2..] == tail;
    match ParseRedirs(tail)
    case Bad(_) =>
    case Got(more, _) => assert rs + ([Redirect(w, ModeOf(t))] + more) == (rs + [Redirect(w, ModeOf(t))]) + more;
  }

  lemma RedirHead(ts: seq<Token>)
    requires ts != [] ==> LegalToken(ts[0])
    ensures Heads(ts, {'<', '>'}) <==> ts != [] && IsRedir(ts[0])
  {
  }

  /** What parseredirs leaves: redirections to put around the command, or a panic. */
  datatype Redirected = Some(rs: seq<Redirect<Span>>, j: nat) | Failed(msg: string)

  predicate RedirsAgree(s: string, i: nat, o: Redirected, r: Redirs) {
    match o
    case Some(rs, j) => i <= j <= |s| && RedirsAt(rs, s) && r == Got(CharsRedirs(rs, s), Lex(s[j..]))
    case Failed(m) => r == Bad(m)
  }

  method Parseredirs(s: string, i: nat) returns (o: Redirected)
    requires i <= |s| && Line(s)
    ensures RedirsAgree(s, i, o, ParseRedirs(Lex(s[i..])))
  {
    hide Lex, ParseRedirs;
    var rs: seq<Redirect<Span>> := [];
    var j := i;
    OntoNone(ParseRedirs(Lex(s[i..])));
    while true
      invariant i <= j <= |s| && RedirsAt(rs, s)
      invariant ParseRedirs(Lex(s[i..])) == Onto(CharsRedirs(rs, s), ParseRedirs(Lex(s[j..])))
      decreases |s| - j
    {
      var hit, k := Peek(s, j, {'<', '>'});
      ghost var ts := Lex(s[k..]);
      RedirHead(ts);
      if !hit {
        NoneMore(ts);
        assert CharsRedirs(rs, s) + [] == CharsRedirs(rs, s);
        return Some(rs, k);
      }
      var tok, word, q, e;
      tok, q, e, j := Gettoken(s, k);
      ghost var t := Meaning(tok, s[q..e]);
      ghost var tail := Lex(s[j..]);
      word, q, e, j := Gettoken(s, j);
      if word != 'a' {
        NoFile(ts, t, tail);
        return Failed("missing file for redirection");
      }
      assert ts == [t, Word(s[q..e])] + Lex(s[j..]);
      OntoMore(CharsRedirs(rs, s), s[q..e], t, Lex(s[j..]));
      var mode := if tok == '<' then In else if tok == '>' then Out else Add;
      var r := Redirect(Span(q, e), mode);
      assert CharsRedirs(rs + [r], s) == CharsRedirs(rs, s) + [Redirect(s[q..e], ModeOf(t))];
      rs := rs + [r];
    }
  }

  lemma NoneMore(ts: seq<Token>)
    requires ts == [] || !IsRedir(ts[0])
    ensures ParseRedirs(ts) == Got([], ts)
  {
  }

  lemma OntoNone(r: Redirs)
    ensures Onto([], r) == r
  {
    match r case Got(more, _) => assert [] + more == more; case Bad(_) =>
  }

  /** A redirection that is not followed by a word. */
  lemma NoFile(ts: seq<Token>, t: Token, tail: seq<Token>)
    requires ts == [t] + tail && IsRedir(t) && (tail == [] || !tail[0].Word?)
    ensures ParseRedirs(ts) == Bad("missing file for redirection")
  {
  }

  // ---- the recursive-descent parser ----

  lemma SymHead(ts: seq<Token>, c: char)
    requires (ts != [] ==> LegalToken(ts[0])) && Symbol(c) && c != '>'
    ensures Heads(ts, {c}) <==> Starts(ts, Sym(c))
  {
  }

  lemma StopHead(ts: seq<Token>)
    requires ts != [] ==> LegalToken(ts[0])
    ensures Heads(ts, {'|', ')', '&', ';'}) <==> ts != [] && Stops(ts[0])
  {
  }

  /** gettoken's symbol is the token at the head. */
  lemma GotSymbol(ts: seq<Token>, c: char, tok: char, w: string, tail: seq<Token>)
    requires Starts(ts, Sym(c)) && Symbol(c) && ts == [Meaning(tok, w)] + tail
    ensures tail == ts[1..]
  {
  }

  /**
   parseexec.  The words and redirections are kept apart until the end; in the source
   the words go into a node that the redirections already surround.
   */
  method Parseexec(s: string, i: nat) returns (o: Outcome)
    requires i <= |s| && Line(s)
    ensures Agrees(s, i, o, ParseExec(Lex(s[i..])))
    decreases |s| - i, 1
  {
    var open, j := Peek(s, i, {'('});
    SymHead(Lex(s[j..]), '(');
    if open {
      o := Parseblock(s, j);
      return;
    }
    var args: seq<Span> := [];
    var ro := Parseredirs(s, j);
    if ro.Failed? {
      return Died(ro.msg);
    }
    var rs := ro.rs;
    j := ro.j;
    assert CharsAll(args, s) == [];
    while true
      invariant i <= j <= |s| && |args| < MAXARGS && RedirsAt(rs, s) && forall k: nat :: k < |args| ==> WordAt(args[k], s)
      invariant ParseExec(Lex(s[i..])) == ParseArgs(Lex(s[j..]), CharsAll(args, s), CharsRedirs(rs, s))
      decreases |s| - j
    {
      var r := Argument(s, j, args, rs);
      match r
      case Done(k) =>
        TextWrap(Exec(args), rs, s);
        return Fine(Wrap(Exec(args), rs), k);
      case Fail(m) =>
        return Died(m);
      case More(w, more, k) =>
        args, rs, j := args + [w], rs + more, k;
    }
  }

  /** One round of parseexec's loop: the end of the command, a panic, or a word with the redirections after it. */
  datatype Round = Done(k: nat) | Fail(msg: string) | More(w: Span, rs: seq<Redirect<Span>>, k: nat)

  predicate RoundAgrees(s: string, j: nat, args: seq<Span>, rs: seq<Redirect<Span>>, r: Round)
    requires j <= |s|
  {
    var before := ParseArgs(Lex(s[j..]), CharsAll(args, s), CharsRedirs(rs, s));
    match r
    case Done(k) => j <= k <= |s| && before == Ok(Wrap(Exec(CharsAll(args, s)), CharsRedirs(rs, s)), Lex(s[k..]))
    case Fail(m) => before == Panic(m)
    case More(w, more, k) =>
      && j < k <= |s| && |args| + 1 < MAXARGS && WordAt(w, s) && RedirsAt(more, s)
      && before == ParseArgs(Lex(s[k..]), CharsAll(args + [w], s), CharsRedirs(rs + more, s))
  }

  method Argument(s: string, i: nat, args: seq<Span>, rs: seq<Redirect<Span>>) returns (r: Round)
    requires i <= |s| && Line(s) && |args| < MAXARGS
    ensures RoundAgrees(s, i, args, rs, r)
  {
    hide Lex, Wrap, ParseRedirs, CharsAll, CharsRedirs;
    var stop, k := Peek(s, i, {'|', ')', '&', ';'});
    ghost var ts := Lex(s[k..]);
    StopHead(ts);
    if stop {
      return Done(k);
    }
    var tok, q, e, j := Gettoken(s, k);
    if tok == '\0' {
      return Done(k);
    }
    if tok != 'a' {
      return Fail("syntax");
    }
    if |args| + 1 >= MAXARGS {
      return Fail("too many args");
    }
    ArgsGo(ts, s[q..e], Lex(s[j..]), CharsAll(args, s), CharsRedirs(rs, s));
    assert CharsAll(args + [Span(q, e)], s) == CharsAll(args, s) + [s[q..e]];
    var ro := Parseredirs(s, j);
    if ro.Failed? {
      return Fail(ro.msg);
    }
    assert CharsRedirs(rs + ro.rs, s) == CharsRedirs(rs, s) + CharsRedirs(ro.rs, s);
    return More(Span(q, e), ro.rs, ro.j);
  }

  /** One word more, and the redirections after it. */
  lemma ArgsGo(ts: seq<Token>, w: string, tail: seq<Token>, args: seq<string>, rs: seq<Redirect<string>>)
    requires ts == [Word(w)] + tail && |args| + 1 < MAXARGS
    ensures ParseArgs(ts, args, rs) ==
      match ParseRedirs(tail) case Bad(m) => Panic(m) case Got(more, rest) => ParseArgs(rest, args + [w], rs + more)
  {
    assert ts[1..] == tail;
  }

  method Parseblock(s: string, i: nat) returns (o: Outcome)
    requires i <= |s| && Line(s) && Starts(Lex(s[i..]), Sym('('))
    ensures Agrees(s, i, o, ParseBlock(Lex(s[i..])))
    decreases |s| - i, 0
  {
    ghost var ts := Lex(s[i..]);
    var tok, q, e, j := Gettoken(s, i);
    GotSymbol(ts, '(', tok, s[q..e], Lex(s[j..]));
    o := Parseline(s, j);
    if o.Died? {
      return;
    }
    var close, k := Peek(s, o.j, {')'});
    SymHead(Lex(s[k..]), ')');
    if !close {
      return Died("syntax - missing )");
    }
    ghost var rest := Lex(s[k..]);
    tok, q, e, j := Gettoken(s, k);
    GotSymbol(rest, ')', tok, s[q..e], Lex(s[j..]));
    var ro := Parseredirs(s, j);
    if ro.Failed? {
      return Died(ro.msg);
    }
    TextWrap(o.cmd, ro.rs, s);
    return Fine(Wrap(o.cmd, ro.rs), ro.j);
  }

  method Parsepipe(s: string, i: nat) returns (o: Outcome)
    requires i <= |s| && Line(s)
    ensures Agrees(s, i, o, ParsePipe(Lex(s[i..])))
    decreases |s| - i, 2
  {
    o := Parseexec(s, i);
    if o.Died? {
      return;
    }
    var bar, k := Peek(s, o.j, {'|'});
    ghost var rest := Lex(s[k..]);
    SymHead(rest, '|');
    if !bar {
      return Fine(o.cmd, k);
    }
    var tok, q, e, j := Gettoken(s, k);
    GotSymbol(rest, '|', tok, s[q..e], Lex(s[j..]));
    var right := Parsepipe(s, j);
    if right.Died? {
      return right;
    }
    return Fine(Pipe(o.cmd, right.cmd), right.j);
  }

  method Parseline(s: string, i: nat) returns (o: Outcome)
    requires i <= |s| && Line(s)
    ensures Agrees(s, i, o, ParseLine(Lex(s[i..])))
    decreases |s| - i, 3
  {
    o := Parsepipe(s, i);
    if o.Died? {
      return;
    }
    var cmd, j := Ampersands(s, o.j, o.cmd);
    var semi, k := Peek(s, j, {';'});
    ghost var rest := Lex(s[k..]);
    SymHead(rest, ';');
    if !semi {
      return Fine(cmd, k);
    }
    var tok, q, e;
    tok, q, e, j := Gettoken(s, k);
    GotSymbol(rest, ';', tok, s[q..e], Lex(s[j..]));
    var right := Parseline(s, j);
    if right.Died? {
      return right;
    }
    return Fine(List(cmd, right.cmd), right.j);
  }

  /** parseline's loop over &. */
  method Ampersands(s: string, i: nat, c: Cmd<Span>) returns (cmd: Cmd<Span>, j: nat)
    requires i <= |s| && Line(s) && WordsAt(c, s)
    ensures i <= j <= |s| && WordsAt(cmd, s)
    ensures Backs(Text(c, s), Lex(s[i..])) == (Text(cmd, s), Lex(s[j..]))
  {
    cmd, j := c, i;
    while true
      invariant i <= j <= |s| && WordsAt(cmd, s)
      invariant Backs(Text(c, s), Lex(s[i..])) == Backs(Text(cmd, s), Lex(s[j..]))
      decreases |s| - j
    {
      var amp, k := Peek(s, j, {'&'});
      ghost var ts := Lex(s[k..]);
      SymHead(ts, '&');
      if !amp {
        j := k;
        return;
      }
      var tok, q, e;
      tok, q, e, j := Gettoken(s, k);
      GotSymbol(ts, '&', tok, s[q..e], Lex(s[j..]));
      cmd := Back(cmd);
    }
  }

  /** parsecmd, up to nulterminate. */
  method ParseText(s: string) returns (o: Outcome)
    requires Line(s)
    ensures match o case Fine(c, _) => WordsAt(c, s) && Parse(s) == Ok(Text(c, s), []) case Died(m) => Parse(s) == Panic(m)
  {
    assert s[0..] == s;
    o := Parseline(s, 0);
    if o.Died? {
      return;
    }
    var _, k := Peek(s, o.j, {});
    if k != |s| {
      return Died("syntax");
    }
    assert Lex(s[k..]) == [];
  }

  // ---- nulterminate ----

  /** The positions where nulterminate writes a NUL. */
  function Ends(c: Cmd<Span>): set<nat> {
    match c
    case Exec(args) => set k: nat | k < |args| :: args[k].e
    case Redir(d, file, _) => Ends(d) + {file.e}
    case Pipe(l, r) => Ends(l) + Ends(r)
    case List(l, r) => Ends(l) + Ends(r)
    case Back(d) => Ends(d)
  }

  /** `buf`, which has the line and its NUL, after NULs have been written at `at`. */
  function Cut(buf: string, at: set<nat>): (r: string)
    ensures |r| == |buf|
  {
    seq(|buf|, k requires 0 <= k < |buf| => if k in at then '\0' else buf[k])
  }

  method Nulterminate(c: Cmd<Span>, buf: array<char>)
    requires forall e :: e in Ends(c) ==> e < buf.Length
    modifies buf
    ensures buf[..] == Cut(old(buf[..]), Ends(c))
    decreases c
  {
    ghost var was := buf[..];
    match c
    case Exec(args) =>
      var i := 0;
      while i < |args|
        invariant i <= |args| && buf[..] == Cut(was, set k: nat | k < i :: args[k].e)
      {
        assert args[i].e in Ends(c);
        buf[args[i].e] := '\0';
        i := i + 1;
      }
    case Redir(d, file, _) =>
      assert Ends(c) == Ends(d) + {file.e};
      Nulterminate(d, buf);
      buf[file.e] := '\0';
    case Pipe(l, r) =>
      assert Ends(c) == Ends(l) + Ends(r);
      Nulterminate(l, buf);
      Nulterminate(r, buf);
    case List(l, r) =>
      assert Ends(c) == Ends(l) + Ends(r);
      Nulterminate(l, buf);
      Nulterminate(r, buf);
    case Back(d) =>
      assert Ends(c) == Ends(d);
      Nulterminate(d, buf);
  }

  /** The C string that starts at `q`. */
  function CString(buf: string, q: nat): string
    decreases |buf| - q
  {
    if q < |buf| && buf[q] != '\0' then [buf[q]] + CString(buf, q + 1) else []
  }

  function Spans(c: Cmd<Span>): set<Span> {
    match c
    case Exec(args) => set k: nat | k < |args| :: args[k]
    case Redir(d, file, _) => Spans(d) + {file}
    case Pipe(l, r) => Spans(l) + Spans(r)
    case List(l, r) => Spans(l) + Spans(r)
    case Back(d) => Spans(d)
  }

  lemma {:induction false} SpansEnds(c: Cmd<Span>, s: string)
    requires WordsAt(c, s)
    ensures forall w :: w in Spans(c) ==> w.e in Ends(c) && WordAt(w, s)
    ensures forall e :: e in Ends(c) ==> e <= |s| && (e < |s| ==> !Plain(s[e]))
    decreases c
  {
    match c
    case Exec(_) =>
    case Redir(d, _, _) => SpansEnds(d, s);
    case Pipe(l, r) => SpansEnds(l, s); SpansEnds(r, s);
    case List(l, r) => SpansEnds(l, s); SpansEnds(r, s);
    case Back(d) => SpansEnds(d, s);
  }

  /**
   After nulterminate every word of the command, read as a C string from where it
   starts in the line's buffer, is exactly the word that was parsed.
   */
  lemma WordsTerminated(c: Cmd<Span>, s: string, w: Span)
    requires Line(s) && WordsAt(c, s) && w in Spans(c)
    ensures CString(Cut(s + ['\0'], Ends(c)), w.q) == Chars(w, s)
  {
    SpansEnds(c, s);
    var buf := Cut(s + ['\0'], Ends(c));
    assert buf[w.e] == '\0';
    forall k: nat | w.q <= k < w.e ensures buf[k] == s[k] != '\0' {
      assert k !in Ends(c);
    }
    CStringOf(buf, s, w.q, w.e);
  }

  /**
   parsecmd on the line's buffer: the tree of the grammar, with every word of it a C
   string in the buffer; or its panic, with the buffer as it was.
   */
  method Parsecmd(buf: array<char>) returns (o: Outcome)
    requires buf.Length > 0 && buf[buf.Length - 1] == '\0' && Line(buf[..buf.Length - 1])
    modifies buf
    ensures o.Died? ==> Parse(old(buf[..buf.Length - 1])) == Panic(o.msg) && buf[..] == old(buf[..])
    ensures o.Fine? ==>
      var s := old(buf[..buf.Length - 1]);
      && WordsAt(o.cmd, s) && Parse(s) == Ok(Text(o.cmd, s), [])
      && forall w :: w in Spans(o.cmd) ==> CString(buf[..], w.q) == Chars(w, s)
  {
    var s := buf[..buf.Length - 1];
    assert buf[..] == s + ['\0'];
    o := ParseText(s);
    if o.Fine? {
      SpansEnds(o.cmd, s);
      Nulterminate(o.cmd, buf);
      forall w | w in Spans(o.cmd) ensures CString(buf[..], w.q) == Chars(w, s) {
        WordsTerminated(o.cmd, s, w);
      }
    }
  }

  lemma {:induction false} CStringOf(buf: string, s: string, q: nat, e: nat)
    requires q <= e < |buf| && e <= |s| && buf[e] == '\0' && forall k: nat :: q <= k < e ==> buf[k] == s[k] != '\0'
    ensures CString(buf, q) == s[q..e]
    decreases e - q
  {
    if q < e {
      CStringOf(buf, s, q + 1, e);
    }
  }

  // ---- the round trip through the buffer ----

  function WordsOf(ws: seq<Span>, buf: string): (r: seq<string>)
    ensures |r| == |ws| && forall k: nat :: k < |r| ==> r[k] == CString(buf, ws[k].q)
  {
    seq(|ws|, k requires 0 <= k < |ws| => CString(buf, ws[k].q))
  }

  /** The command as runcmd sees it: each word is the C string that its pointer leads to. */
  function InBuffer(c: Cmd<Span>, buf: string): Cmd<string> {
    match c
    case Exec(args) => Exec(WordsOf(args, buf))
    case Redir(d, file, mode) => Redir(InBuffer(d, buf), CString(buf, file.q), mode)
    case Pipe(l, r) => Pipe(InBuffer(l, buf), InBuffer(r, buf))
    case List(l, r) => List(InBuffer(l, buf), InBuffer(r, buf))
    case Back(d) => Back(InBuffer(d, buf))
  }

  lemma {:induction false} InBufferText(c: Cmd<Span>, buf: string, s: string)
    requires forall w :: w in Spans(c) ==> CString(buf, w.q) == Chars(w, s)
    ensures InBuffer(c, buf) == Text(c, s)
    decreases c
  {
    match c
    case Exec(args) =>
      forall k: nat | k < |args| ensures CString(buf, args[k].q) == Chars(args[k], s) {
        assert args[k] in Spans(c);
      }
      assert WordsOf(args, buf) == CharsAll(args, s);
    case Redir(d, file, _) => InBufferText(d, buf, s);
    case Pipe(l, r) =>
      InBufferText(l, buf, s);
      InBufferText(r, buf, s);
    case List(l, r) =>
      InBufferText(l, buf, s);
      InBufferText(r, buf, s);
    case Back(d) => InBufferText(d, buf, s);
  }

  /** Every legal command, written into a buffer with any spacing and parsed there, is what runcmd finds in the buffer. */
  method ParsePrinted(c: Cmd<string>, gaps: seq<string>, buf: array<char>) returns (o: Outcome)
    requires Legal(c) && WellSpaced(LineTokens(c), gaps) && buf[..] == Spread(LineTokens(c), gaps) + ['\0']
    modifies buf
    ensures o.Fine? && InBuffer(o.cmd, buf[..]) == c
  {
    ghost var line := Spread(LineTokens(c), gaps);
    ShRoundTrip.RoundTripSpaced(c, gaps);
    ShRoundTrip.TokensLegal(c);
    SpreadLine(LineTokens(c), gaps);
    assert buf[..buf.Length - 1] == line;
    o := Parsecmd(buf);
    InBufferText(o.cmd, buf[..], line);
  }
}
