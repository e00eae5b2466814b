/**
 user/sh.c on values: tokens, the grammar that the parser follows, command trees, and
 printing them.
 */
module ShSyntax {
  const MAXARGS: nat := 10

  // ---- characters and tokens ----

  predicate White(c: char) {
    c in {' ', '\t', '\r', '\n', '\U{00000B}'}
  }

  predicate Symbol(c: char) {
    c in {'<', '|', '>', '&', ';', '(', ')'}
  }

  /** A character that can be part of a word. */
  predicate Plain(c: char) {
    !White(c) && !Symbol(c)
  }

  /** A C string: no NUL inside. */
  predicate Line(s: string) {
    forall k: nat :: k < |s| ==> s[k] != '\0'
  }

  datatype Token = Word(w: string) | Sym(c: char) | Append

  function Skip(s: string): (r: string)
    ensures |r| <= |s| && (r == [] || !White(r[0])) && (Line(s) ==> Line(r))
  {
    if s != [] && White(s[0]) then Skip(s[1..]) else s
  }

  /** How many characters at the start of `s` are one word. */
  function WordLength(s: string): (n: nat)
    ensures n <= |s| && (forall k: nat :: k < n ==> Plain(s[k])) && (n < |s| ==> !Plain(s[n]))
  {
    if s != [] && Plain(s[0]) then 1 + WordLength(s[1..]) else 0
  }

  /** The token at the start of `s`, and how long it is. */
  function First(s: string): (t: (Token, nat))
    requires s != [] && !White(s[0])
    ensures 0 < t.1 <= |s|
  {
    if s[0] == '>' then (if |s| > 1 && s[1] == '>' then (Append, 2) else (Sym('>'), 1))
    else if Symbol(s[0]) then (Sym(s[0]), 1)
    else (Word(s[..WordLength(s)]), WordLength(s))
  }

  /** The tokens of a line. */
  function Lex(s: string): seq<Token>
    decreases |s|
  {
    var r := Skip(s);
    if r == [] then [] else [First(r).0] + Lex(r[First(r).1..])
  }

  predicate LegalWord(w: string) {
    w != [] && Line(w) && forall k: nat :: k < |w| ==> Plain(w[k])
  }

  predicate LegalToken(t: Token) {
    match t case Word(w) => LegalWord(w) case Sym(c) => Symbol(c) case Append => true
  }

  lemma {:induction false} LexLegal(s: string)
    requires Line(s)
    ensures forall k: nat :: k < |Lex(s)| ==> LegalToken(Lex(s)[k])
    decreases |s|
  {
    var r := Skip(s);
    if r != [] {
      LexLegal(r[First(r).1..]);
    }
  }

  /** Tokens written out, each followed by a space. */
  function Show(ts: seq<Token>): string {
    if ts == [] then [] else ShowOne(ts[0]) + " " + Show(ts[1..])
  }

  function ShowOne(t: Token): string {
    match t case Word(w) => w case Sym(c) => [c] case Append => ">>"
  }

  /** What is written is a C string. */
  lemma {:induction false} ShowLine(ts: seq<Token>)
    requires forall k: nat :: k < |ts| ==> LegalToken(ts[k])
    ensures Line(Show(ts))
  {
    if ts != [] {
      assert LegalToken(ts[0]);
      ShowLine(ts[1..]);
    }
  }

  /** Reading back what was written gives the same tokens. */
  lemma {:induction false} LexShow(ts: seq<Token>)
    requires forall k: nat :: k < |ts| ==> LegalToken(ts[k])
    ensures Lex(Show(ts)) == ts
  {
    if ts != [] {
      var s := Show(ts);
      assert LegalToken(ts[0]);
      assert s == ShowOne(ts[0]) + (" " + Show(ts[1..]));
      assert Skip(s) == s;
      FirstShown(ts[0], Show(ts[1..]));
      assert s[|ShowOne(ts[0])|..] == " " + Show(ts[1..]);
      LexSpace(Show(ts[1..]));
      LexShow(ts[1..]);
    }
  }

  lemma FirstShown(t: Token, rest: string)
    requires LegalToken(t)
    ensures var s := ShowOne(t) + (" " + rest); s != [] && !White(s[0]) && First(s) == (t, |ShowOne(t)|)
  {
    var s := ShowOne(t) + (" " + rest);
    if t.Word? {
      assert s[0] == t.w[0] && Plain(t.w[0]);
      assert WordLength(s) == |t.w| by {
        assert s[|t.w|] == ' ';
        assert forall k: nat :: k < |t.w| ==> s[k] == t.w[k];
      }
      assert s[..|t.w|] == t.w;
    } else if t == Sym('>') {
      assert s[1] == ' ';
    }
  }

  // ---- tokens spaced in any way ----

  /** White space only. */
  predicate Blank(g: string) {
    forall k: nat :: k < |g| ==> g[k] == ' ' || g[k] == '\t' || g[k] == '\r' || g[k] == '\n' || g[k] == '\U{00000B}'
  }

  /** Without white space between them these two would be read as one. */
  predicate MustPart(t: Token, u: Token) {
    (t.Word? && u.Word?) || (t == Sym('>') && (u == Sym('>') || u == Append))
  }

  /** Tokens written out with gaps[k] before the k-th, and the last gap at the end. */
  function Spread(ts: seq<Token>, gaps: seq<string>): string
    requires |gaps| == |ts| + 1
  {
    if ts == [] then gaps[0] else gaps[0] + (ShowOne(ts[0]) + Spread(ts[1..], gaps[1..]))
  }

  predicate WellSpaced(ts: seq<Token>, gaps: seq<string>) {
    && |gaps| == |ts| + 1 && (forall k: nat :: k < |gaps| ==> Blank(gaps[k]))
    && forall k: nat {:trigger ts[k]} :: 0 < k < |ts| && MustPart(ts[k - 1], ts[k]) ==> gaps[k] != []
  }

  lemma {:induction false} LexBlank(g: string, s: string)
    requires Blank(g)
    ensures Lex(g + s) == Lex(s)
  {
    if g == [] {
      assert g + s == s;
    } else {
      assert (g + s)[1..] == g[1..] + s;
      LexBlank(g[1..], s);
    }
  }

  /** A token followed by nothing that would go on with it. */
  lemma FirstThen(t: Token, rest: string)
    requires LegalToken(t) && (t.Word? && rest != [] ==> !Plain(rest[0])) && (t == Sym('>') && rest != [] ==> rest[0] != '>')
    ensures var s := ShowOne(t) + rest; s != [] && !White(s[0]) && First(s) == (t, |ShowOne(t)|)
  {
    var s := ShowOne(t) + rest;
    if t.Word? {
      assert s[0] == t.w[0] && Plain(t.w[0]);
      assert WordLength(s) == |t.w| by {
        assert forall k: nat :: k < |t.w| ==> s[k] == t.w[k];
        assert rest != [] ==> s[|t.w|] == rest[0];
      }
      assert s[..|t.w|] == t.w;
    } else if t == Sym('>') {
      assert rest != [] ==> s[1] == rest[0];
    }
  }

  /** However the tokens are spaced, as long as those that must be are apart, they are read back. */
  lemma {:induction false} LexSpread(ts: seq<Token>, gaps: seq<string>)
    requires (forall k: nat :: k < |ts| ==> LegalToken(ts[k])) && WellSpaced(ts, gaps)
    ensures Lex(Spread(ts, gaps)) == ts
    decreases |ts|
  {
    if ts == [] {
      LexBlank(gaps[0], []);
      assert gaps[0] + [] == gaps[0];
    } else {
      var rest := Spread(ts[1..], gaps[1..]);
      assert LegalToken(ts[0]);
      LexBlank(gaps[0], ShowOne(ts[0]) + rest);
      RestApart(ts, gaps);
      FirstThen(ts[0], rest);
      assert (ShowOne(ts[0]) + rest)[|ShowOne(ts[0])|..] == rest;
      assert forall k: nat :: k < |ts[1..]| ==> ts[1..][k] == ts[k + 1] && gaps[1..][k] == gaps[k + 1];
      LexSpread(ts[1..], gaps[1..]);
    }
  }

  /** What follows the first token does not go on with it. */
  lemma RestApart(ts: seq<Token>, gaps: seq<string>)
    requires ts != [] && (forall k: nat :: k < |ts| ==> LegalToken(ts[k])) && WellSpaced(ts, gaps)
    ensures
      var rest := Spread(ts[1..], gaps[1..]);
      && (ts[0].Word? && rest != [] ==> !Plain(rest[0]))
      && (ts[0] == Sym('>') && rest != [] ==> rest[0] != '>')
  {
    var rest := Spread(ts[1..], gaps[1..]);
    assert Blank(gaps[1]);
    if gaps[1] != [] {
      assert rest[0] == gaps[1][0];
    } else if |ts| > 1 {
      assert LegalToken(ts[1]) && !MustPart(ts[0], ts[1]);
      assert rest[0] == ShowOne(ts[1])[0];
    }
  }

  /** It is a C string. */
  lemma {:induction false} SpreadLine(ts: seq<Token>, gaps: seq<string>)
    requires (forall k: nat :: k < |ts| ==> LegalToken(ts[k])) && WellSpaced(ts, gaps)
    ensures Line(Spread(ts, gaps))
    decreases |ts|
  {
    assert Blank(gaps[0]);
    if ts != [] {
      assert LegalToken(ts[0]);
      assert forall k: nat :: k < |ts[1..]| ==> ts[1..][k] == ts[k + 1] && gaps[1..][k] == gaps[k + 1];
      SpreadLine(ts[1..], gaps[1..]);
    }
  }

  lemma LexSpace(s: string)
    ensures Lex(" " + s) == Lex(s)
  {
    assert (" " + s)[1..] == s;
  }

  // ---- command trees ----

  datatype Mode = In | Out | Add

  /** A command; `W` is what stands for a word. */
  datatype Cmd<W> = Exec(args: seq<W>) | Redir(cmd: Cmd<W>, file: W, mode: Mode) | Pipe(left: Cmd<W>, right: Cmd<W>)
                  | List(left: Cmd<W>, right: Cmd<W>) | Back(cmd: Cmd<W>)

  datatype Redirect<W> = Redirect(file: W, mode: Mode)

  /** `c` with redirections around it, the last one outermost. */
  function Wrap<W>(c: Cmd<W>, rs: seq<Redirect<W>>): Cmd<W> {
    if rs == [] then c else Redir(Wrap(c, rs[..|rs| - 1]), rs[|rs| - 1].file, rs[|rs| - 1].mode)
  }

  // ---- the grammar, on tokens ----

  datatype Parsed = Ok(cmd: Cmd<string>, rest: seq<Token>) | Panic(msg: string)

  datatype Redirs = Got(rs: seq<Redirect<string>>, rest: seq<Token>) | Bad(msg: string)

  predicate Starts(ts: seq<Token>, t: Token) {
    ts != [] && ts[0] == t
  }

  function ModeOf(t: Token): Mode {
    if t == Sym('<') then In else if t == Append then Add else Out
  }

  predicate IsRedir(t: Token) {
    t == Sym('<') || t == Sym('>') || t == Append
  }

  /** parseredirs */
  function ParseRedirs(ts: seq<Token>): (r: Redirs)
    ensures r.Got? ==> |r.rest| <= |ts|
  {
    if ts == [] || !IsRedir(ts[0]) then Got([], ts)
    else if |ts| == 1 || !ts[1].Word? then Bad("missing file for redirection")
    else match ParseRedirs(ts[2..])
      case Bad(m) => Bad(m)
      case Got(rs, rest) => Got([Redirect(ts[1].w, ModeOf(ts[0]))] + rs, rest)
  }

  /** Tokens that end a simple command. */
  predicate Stops(t: Token) {
    t == Sym('|') || t == Sym(')') || t == Sym('&') || t == Sym(';')
  }

  /** The loop of parseexec, with the words and redirections seen so far. */
  function ParseArgs(ts: seq<Token>, args: seq<string>, rs: seq<Redirect<string>>): (r: Parsed)
    ensures r.Ok? ==> |r.rest| <= |ts|
    decreases |ts|
  {
    if ts == [] || Stops(ts[0]) then Ok(Wrap(Exec(args), rs), ts)
    else if !ts[0].Word? then Panic("syntax")
    else if |args| + 1 >= MAXARGS then Panic("too many args")
    else match ParseRedirs(ts[1..])
      case Bad(m) => Panic(m)
      case Got(more, rest) => ParseArgs(rest, args + [ts[0].w], rs + more)
  }

  /** parseexec */
  function ParseExec(ts: seq<Token>): (r: Parsed)
    ensures r.Ok? ==> |r.rest| <= |ts|
    decreases |ts|, 1
  {
    if Starts(ts, Sym('(')) then ParseBlock(ts)
    else match ParseRedirs(ts)
      case Bad(m) => Panic(m)
      case Got(rs, rest) => ParseArgs(rest, [], rs)
  }

  /** parseblock */
  function ParseBlock(ts: seq<Token>): (r: Parsed)
    requires Starts(ts, Sym('('))
    ensures r.Ok? ==> |r.rest| < |ts|
    decreases |ts|, 0
  {
    match ParseLine(ts[1..])
    case Panic(m) => Panic(m)
    case Ok(c, rest) =>
      if !Starts(rest, Sym(')')) then Panic("syntax - missing )")
      else match ParseRedirs(rest[1..])
        case Bad(m) => Panic(m)
        case Got(rs, rest') => Ok(Wrap(c, rs), rest')
  }

  /** parsepipe */
  function ParsePipe(ts: seq<Token>): (r: Parsed)
    ensures r.Ok? ==> |r.rest| <= |ts|
    decreases |ts|, 2
  {
    match ParseExec(ts)
    case Panic(m) => Panic(m)
    case Ok(c, rest) =>
      if Starts(rest, Sym('|')) then
        match ParsePipe(rest[1..])
        case Panic(m) => Panic(m)
        case Ok(d, rest') => Ok(Pipe(c, d), rest')
      else Ok(c, rest)
  }

  /** The loop over & in parseline. */
  function Backs<W>(c: Cmd<W>, ts: seq<Token>): (r: (Cmd<W>, seq<Token>))
    ensures |r.1| <= |ts|
    decreases |ts|
  {
    if Starts(ts, Sym('&')) then Backs(Back(c), ts[1..]) else (c, ts)
  }

  /** parseline */
  function ParseLine(ts: seq<Token>): (r: Parsed)
    ensures r.Ok? ==> |r.rest| <= |ts|
    decreases |ts|, 3
  {
    match ParsePipe(ts)
    case Panic(m) => Panic(m)
    case Ok(c, rest) =>
      var (d, rest') := Backs(c, rest);
      if Starts(rest', Sym(';')) then
        match ParseLine(rest'[1..])
        case Panic(m) => Panic(m)
        case Ok(e, rest'') => Ok(List(d, e), rest'')
      else Ok(d, rest')
  }

  /** parsecmd */
  function Parse(s: string): Parsed {
    match ParseLine(Lex(s))
    case Panic(m) => Panic(m)
    case Ok(c, rest) => if rest == [] then Ok(c, []) else Panic("syntax")
  }

  // ---- printing ----

  function RedirToken(m: Mode): Token {
    match m case In => Sym('<') case Out => Sym('>') case Add => Append
  }

  function Words(args: seq<string>): seq<Token> {
    if args == [] then [] else [Word(args[0])] + Words(args[1..])
  }

  /** Where a command may stand: as a whole line, before ;, in a pipeline, on its own. */
  function LineTokens(c: Cmd<string>): seq<Token>
    decreases c, 3
  {
    match c
    case List(l, r) => BackTokens(l) + [Sym(';')] + LineTokens(r)
    case _ => BackTokens(c)
  }

  function BackTokens(c: Cmd<string>): seq<Token>
    decreases c, 2
  {
    match c
    case Back(d) => BackTokens(d) + [Sym('&')]
    case _ => PipeTokens(c)
  }

  function PipeTokens(c: Cmd<string>): seq<Token>
    decreases c, 1
  {
    match c
    case Pipe(l, r) => ExecTokens(l) + [Sym('|')] + PipeTokens(r)
    case _ => ExecTokens(c)
  }

  /** Anything but a simple or a redirected command needs parentheses here. */
  function ExecTokens(c: Cmd<string>): seq<Token>
    decreases c, 0
  {
    match c
    case Exec(args) => Words(args)
    case Redir(d, file, mode) => ExecTokens(d) + [RedirToken(mode), Word(file)]
    case Pipe(l, r) => [Sym('(')] + (ExecTokens(l) + [Sym('|')] + PipeTokens(r)) + [Sym(')')]
    case List(l, r) => [Sym('(')] + (BackTokens(l) + [Sym(';')] + LineTokens(r)) + [Sym(')')]
    case Back(d) => [Sym('(')] + (BackTokens(d) + [Sym('&')]) + [Sym(')')]
  }

  function Print(c: Cmd<string>): string {
    Show(LineTokens(c))
  }

  /** Words are legal and there are at most MAXARGS - 1 of them to a command. */
  predicate Legal(c: Cmd<string>) {
    match c
    case Exec(args) => |args| < MAXARGS && forall k: nat :: k < |args| ==> LegalWord(args[k])
    case Redir(d, file, _) => Legal(d) && LegalWord(file)
    case Pipe(l, r) => Legal(l) && Legal(r)
    case List(l, r) => Legal(l) && Legal(r)
    case Back(d) => Legal(d)
  }
}
