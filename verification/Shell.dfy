/**
  The shell's parser (user/sh.c) as functions of the command line and a
  position. The line is the text before its NUL; None is a call of panic.
 */
module Shell {
  import opened Params

  const MAXARGS := 10

  // A word of the line: argv[i] and eargv[i], or file and efile.
  datatype Span = Span(q: nat, eq: nat)

  datatype Cmd<W> =
    | Exec(args: seq<W>)
    | Redir(cmd: Cmd<W>, file: W, mode: int, fd: int)
    | Pipe(left: Cmd<W>, right: Cmd<W>)
    | List(left: Cmd<W>, right: Cmd<W>)
    | Back(cmd: Cmd<W>)

  // ------------------------------------------------------------------ tokens

  predicate White(c: char) { c == ' ' || c == '\t' || c == '\r' || c == '\n' || c == '\U{0B}' }

  predicate Symbol(c: char) { c == '<' || c == '|' || c == '>' || c == '&' || c == ';' || c == '(' || c == ')' }

  predicate Letter(c: char) { !White(c) && !Symbol(c) && c != '\0' }

  function Char(b: string, s: nat): char { if s < |b| then b[s] else '\0' }

  function Skip(b: string, s: nat): (r: nat)
    requires s <= |b|
    ensures s <= r <= |b| && (r < |b| ==> !White(b[r]))
    decreases |b| - s
  {
    if s < |b| && White(b[s]) then Skip(b, s + 1) else s
  }

  // The end of the word at s.
  function WordEnd(b: string, s: nat): (r: nat)
    requires s <= |b|
    ensures s <= r <= |b|
    decreases |b| - s
  {
    if s < |b| && !White(b[s]) && !Symbol(b[s]) then WordEnd(b, s + 1) else s
  }

  predicate Peek(b: string, s: nat, toks: set<char>)
    requires s <= |b|
  {
    Skip(b, s) < |b| && b[Skip(b, s)] in toks
  }

  datatype Token = Token(kind: char, q: nat, eq: nat, s: nat)

  // gettoken: 'a' for a word, '+' for >>, NUL at the end, else the symbol.
  function GetToken(b: string, s: nat): (t: Token)
    requires s <= |b|
    ensures s <= t.q <= t.eq <= t.s <= |b| && t.q == Skip(b, s)
    ensures t.kind == '\0' ==> NulFree(b) ==> t.q == |b|
    ensures t.q < |b| && b[t.q] != '\0' ==> s < t.s && t.kind != '\0'
    ensures t.kind == 'a' ==> t.q < t.eq == WordEnd(b, t.q)
  {
    var q := Skip(b, s);
    var c := Char(b, q);
    if c == '\0' then Token('\0', q, q, Skip(b, q))
    else if c == '>' then
      if Char(b, q + 1) == '>' then Token('+', q, q + 2, Skip(b, q + 2)) else Token('>', q, q + 1, Skip(b, q + 1))
    else if Symbol(c) then Token(c, q, q + 1, Skip(b, q + 1))
    else Token('a', q, WordEnd(b, q), Skip(b, WordEnd(b, q)))
  }

  // ----------------------------------------------------------------- grammar

  datatype Parsed = Parsed(cmd: Cmd<Span>, s: nat)

  datatype Redirect<W> = Redirect(file: W, mode: int, fd: int)

  const O_RDONLY := 0
  const O_WRONLY := 0x001
  const O_CREATE := 0x200
  const O_TRUNC := 0x400

  function Mode(op: char): int {
    if op == '<' then O_RDONLY
    else if op == '>' then O_WRONLY + O_CREATE + O_TRUNC
    else O_WRONLY + O_CREATE
  }

  function Fd(op: char): int { if op == '<' then 0 else 1 }

  // redircmd over and over: the last redirection is outermost.
  function Wrap<W>(c: Cmd<W>, rs: seq<Redirect<W>>): Cmd<W>
    decreases |rs|
  {
    if rs == [] then c else Wrap(Redir(c, rs[0].file, rs[0].mode, rs[0].fd), rs[1..])
  }

  datatype Redirects = Redirects(rs: seq<Redirect<Span>>, s: nat)

  function ParseRedirs(b: string, s: nat): (r: Option<Redirects>)
    requires s <= |b| && NulFree(b)
    ensures r.Some? ==> s <= r.value.s <= |b|
    decreases |b| - s
  {
    if !Peek(b, s, {'<', '>'}) then Some(Redirects([], Skip(b, s))) else
    var op := GetToken(b, Skip(b, s));
    var f := GetToken(b, op.s);
    if f.kind != 'a' then None else
    var rest := ParseRedirs(b, f.s);
    if rest.None? then None else
    Some(Redirects([Redirect(Span(f.q, f.eq), Mode(op.kind), Fd(op.kind))] + rest.value.rs, rest.value.s))
  }

  function ParseLine(b: string, s: nat): (r: Option<Parsed>)
    requires s <= |b| && NulFree(b)
    ensures r.Some? ==> s <= r.value.s <= |b|
    decreases |b| - s, 4
  {
    var p := ParsePipe(b, s);
    if p.None? then None else
    var q := ParseBacks(b, p.value.cmd, p.value.s);
    if !Peek(b, q.s, {';'}) then Some(Parsed(q.cmd, Skip(b, q.s))) else
    var t := GetToken(b, Skip(b, q.s));
    var rest := ParseLine(b, t.s);
    if rest.None? then None else Some(Parsed(List(q.cmd, rest.value.cmd), rest.value.s))
  }

  // The loop of parseline over &.
  function ParseBacks(b: string, c: Cmd<Span>, s: nat): (r: Parsed)
    requires s <= |b| && NulFree(b)
    ensures s <= r.s <= |b|
    decreases |b| - s, 0
  {
    if !Peek(b, s, {'&'}) then Parsed(c, Skip(b, s)) else ParseBacks(b, Back(c), GetToken(b, Skip(b, s)).s)
  }

  function ParsePipe(b: string, s: nat): (r: Option<Parsed>)
    requires s <= |b| && NulFree(b)
    ensures r.Some? ==> s <= r.value.s <= |b|
    decreases |b| - s, 3
  {
    var p := ParseExec(b, s);
    if p.None? then None else
    if !Peek(b, p.value.s, {'|'}) then Some(Parsed(p.value.cmd, Skip(b, p.value.s))) else
    var t := GetToken(b, Skip(b, p.value.s));
    var rest := ParsePipe(b, t.s);
    if rest.None? then None else Some(Parsed(Pipe(p.value.cmd, rest.value.cmd), rest.value.s))
  }

  function ParseExec(b: string, s: nat): (r: Option<Parsed>)
    requires s <= |b| && NulFree(b)
    ensures r.Some? ==> s <= r.value.s <= |b|
    decreases |b| - s, 2
  {
    if Peek(b, s, {'('}) then ParseBlock(b, Skip(b, s)) else
    var rs := ParseRedirs(b, Skip(b, s));
    if rs.None? then None else ParseArgs(b, [], rs.value.rs, rs.value.s)
  }

  // The loop of parseexec. The source fills the innermost command while it
  // wraps redirections around it.
  function ParseArgs(b: string, args: seq<Span>, rs: seq<Redirect<Span>>, s: nat): (r: Option<Parsed>)
    requires s <= |b| && NulFree(b)
    ensures r.Some? ==> s <= r.value.s <= |b|
    decreases |b| - s, 1
  {
    if Peek(b, s, {'|', ')', '&', ';'}) then Some(Parsed(Wrap(Exec(args), rs), Skip(b, s))) else
    var t := GetToken(b, Skip(b, s));
    if t.kind == '\0' then Some(Parsed(Wrap(Exec(args), rs), t.s))
    else if t.kind != 'a' || |args| + 1 >= MAXARGS then None else
    var more := ParseRedirs(b, t.s);
    if more.None? then None else ParseArgs(b, args + [Span(t.q, t.eq)], rs + more.value.rs, more.value.s)
  }

  function ParseBlock(b: string, s: nat): (r: Option<Parsed>)
    requires s <= |b| && NulFree(b)
    ensures r.Some? ==> s <= r.value.s <= |b|
    decreases |b| - s, 1
  {
    if !Peek(b, s, {'('}) then None else
    var p := ParseLine(b, GetToken(b, Skip(b, s)).s);
    if p.None? || !Peek(b, p.value.s, {')'}) then None else
    var rs := ParseRedirs(b, GetToken(b, Skip(b, p.value.s)).s);
    if rs.None? then None else Some(Parsed(Wrap(p.value.cmd, rs.value.rs), rs.value.s))
  }

  // parsecmd before nulterminate.
  function Parse(b: string): Option<Cmd<Span>>
    requires NulFree(b)
  {
    var p := ParseLine(b, 0);
    if p.Some? && Skip(b, p.value.s) == |b| then Some(p.value.cmd) else None
  }

  // ---------------------------------------------------------------- printing

  predicate WordOk(w: string) { w != "" && forall i :: 0 <= i < |w| ==> Letter(w[i]) }

  predicate OpOk(mode: int, fd: int) {
    (mode == Mode('<') && fd == Fd('<')) || (mode == Mode('>') && fd == Fd('>')) || (mode == Mode('+') && fd == Fd('+'))
  }

  // The command trees there are: words that are words, fewer than MAXARGS of
  // them in a command, and one of the three redirections.
  predicate TreeOk(c: Cmd<string>) {
    match c
    case Exec(args) => |args| < MAXARGS && forall i :: 0 <= i < |args| ==> WordOk(args[i])
    case Redir(d, f, mode, fd) => TreeOk(d) && WordOk(f) && OpOk(mode, fd)
    case Pipe(l, r) => TreeOk(l) && TreeOk(r)
    case List(l, r) => TreeOk(l) && TreeOk(r)
    case Back(d) => TreeOk(d)
  }

  function Words(args: seq<string>): string {
    if args == [] then "" else if |args| == 1 then args[0] else args[0] + " " + Words(args[1..])
  }

  function Op(mode: int): string { if mode == Mode('<') then "<" else if mode == Mode('>') then ">" else ">>" }

  function Print(c: Cmd<string>): string {
    match c
    case Exec(args) => Words(args)
    case Redir(d, f, mode, _) => Block(Print(d)) + (Op(mode) + f)
    case Pipe(l, r) => Block(Print(l)) + ("|" + Block(Print(r)))
    case List(l, r) => Block(Print(l)) + (";" + Block(Print(r)))
    case Back(d) => Block(Print(d)) + "&"
  }

  function Block(x: string): string { "(" + (x + ")") }

  // The words of a parsed command, read off the line.
  function Text(b: string, w: Span): string { if w.q <= w.eq <= |b| then b[w.q..w.eq] else "" }

  function Texts(b: string, ws: seq<Span>): (r: seq<string>)
    ensures |r| == |ws| && forall i :: 0 <= i < |ws| ==> r[i] == Text(b, ws[i])
  {
    if ws == [] then [] else [Text(b, ws[0])] + Texts(b, ws[1..])
  }

  function Resolve(b: string, c: Cmd<Span>): Cmd<string> {
    match c
    case Exec(args) => Exec(Texts(b, args))
    case Redir(d, f, mode, fd) => Redir(Resolve(b, d), Text(b, f), mode, fd)
    case Pipe(l, r) => Pipe(Resolve(b, l), Resolve(b, r))
    case List(l, r) => List(Resolve(b, l), Resolve(b, r))
    case Back(d) => Back(Resolve(b, d))
  }

  // -------------------------------------------------------------- round trip

  // Always true; a fact kept under it is used only where it is asserted.
  ghost predicate Use(h: int) { true }

  // The text x stands at p.
  ghost predicate At(b: string, p: nat, x: string) {
    p + |x| <= |b| && forall h {:trigger Use(h)} :: Use(h) ==> b[p..p + |x|] == x
  }

  lemma AtBoth(b: string, p: nat, x: string, y: string)
    requires At(b, p, x + y)
    ensures At(b, p, x) && At(b, p + |x|, y)
  {
    assert Use(0);
    assert b[p..p + |x|] == (x + y)[..|x|];
    assert b[p + |x|..p + |x| + |y|] == (x + y)[|x|..];
  }

  lemma AtChar(b: string, p: nat, x: string, i: nat)
    requires At(b, p, x) && i < |x|
    ensures b[p + i] == x[i]
  {
    assert Use(0);
    assert b[p..p + |x|][i] == x[i];
  }

  // Position e is the end of the line or at a closing parenthesis.
  predicate Closed(b: string, e: nat) { e == |b| || (e < |b| && b[e] == ')') }

  lemma {:induction false} WordIs(b: string, p: nat, e: nat)
    requires p <= e <= |b| && (forall i :: p <= i < e ==> Letter(b[i])) && (e < |b| ==> !Letter(b[e])) && NulFree(b)
    ensures WordEnd(b, p) == e
    decreases e - p
  {
    if p < e { WordIs(b, p + 1, e); }
  }

  // The token at a word.
  lemma WordToken(b: string, p: nat, w: string)
    requires NulFree(b) && WordOk(w) && At(b, p, w) && (p + |w| < |b| ==> !Letter(b[p + |w|]))
    ensures GetToken(b, p) == Token('a', p, p + |w|, Skip(b, p + |w|)) && Text(b, Span(p, p + |w|)) == w && Letter(b[p])
  {
    assert Use(0);
    forall i | p <= i < p + |w| ensures Letter(b[i]) { assert b[i] == w[i - p]; }
    WordIs(b, p, p + |w|);
  }

  lemma ClosedStops(b: string, e: nat)
    requires Closed(b, e) && NulFree(b)
    ensures Skip(b, e) == e && ParseRedirs(b, e) == Some(Redirects([], e))
    ensures !Peek(b, e, {'('}) && !Peek(b, e, {'|'}) && !Peek(b, e, {'&'}) && !Peek(b, e, {';'})
    ensures !Peek(b, e, {'<', '>'})
  {
  }

  // parseexec's loop at p, with no redirections yet, ends with c at e.
  ghost predicate ArgsAre(b: string, done: seq<Span>, p: nat, c: Cmd<Span>, e: nat) {
    forall h {:trigger Use(h)} :: Use(h) ==> p <= |b| && NulFree(b) && ParseArgs(b, done, [], p) == Some(Parsed(c, e))
  }

  // One turn of parseexec's loop.
  lemma ArgsTurn(b: string, args: seq<Span>, s: nat, t: Token)
    requires s <= |b| && NulFree(b) && Skip(b, s) == s && !Peek(b, s, {'|', ')', '&', ';'}) && t == GetToken(b, s)
    requires t.kind == 'a' && |args| + 1 < MAXARGS && ParseRedirs(b, t.s) == Some(Redirects([], t.s))
    ensures ParseArgs(b, args, [], s) == ParseArgs(b, args + [Span(t.q, t.eq)], [], t.s)
  {
    var rs: seq<Redirect<Span>> := [];
    assert rs + rs == rs;
  }

  lemma ArgsSame(b: string, done: seq<Span>, p: nat, more: seq<Span>, n: nat, c: Cmd<Span>, e: nat)
    requires p <= |b| && n <= |b| && NulFree(b) && ParseArgs(b, done, [], p) == ParseArgs(b, more, [], n)
    requires ArgsAre(b, more, n, c, e)
    ensures ArgsAre(b, done, p, c, e)
  {
    assert Use(0);
  }

  // One word of a command.
  lemma ArgsStep(b: string, p: nat, done: seq<Span>, w: string, n: nat, more: seq<Span>, rest: seq<Span>,
                 tail: seq<Span>, e: nat)
    requires NulFree(b) && WordOk(w) && At(b, p, w) && (p + |w| < |b| ==> !Letter(b[p + |w|])) && |done| + 1 < MAXARGS
    requires Skip(b, p + |w|) == n && ParseRedirs(b, n) == Some(Redirects([], n))
    requires more == done + [Span(p, p + |w|)] && tail == [Span(p, p + |w|)] + rest
    requires ArgsAre(b, more, n, Exec(more + rest), e)
    ensures Text(b, Span(p, p + |w|)) == w && ArgsAre(b, done, p, Exec(done + tail), e)
  {
    WordToken(b, p, w);
    ArgsTurn(b, done, p, Token('a', p, p + |w|, n));
    ArgsSame(b, done, p, more, n, Exec(more + rest), e);
    assert more + rest == done + tail;
  }

  lemma ArgsEnd(b: string, p: nat, done: seq<Span>)
    requires NulFree(b) && Closed(b, p)
    ensures ArgsAre(b, done, p, Exec(done), p)
  {
    ClosedStops(b, p);
    assert p < |b| ==> b[p] == ')';
    assert Wrap(Exec(done), []) == Exec(done);
  }

  // The words of a command, up to a closing place.
  lemma {:induction false} ArgsOf(b: string, p: nat, done: seq<Span>, ws: seq<string>, e: nat) returns (tail: seq<Span>)
    requires NulFree(b) && At(b, p, Words(ws)) && e == p + |Words(ws)| && Closed(b, e) && |done| + |ws| < MAXARGS
    requires forall i :: 0 <= i < |ws| ==> WordOk(ws[i])
    ensures ArgsAre(b, done, p, Exec(done + tail), e) && Texts(b, tail) == ws
    decreases |ws|
  {
    if ws == [] {
      tail := [];
      ArgsEnd(b, p, done);
      assert done + tail == done;
    } else {
      var w := ws[0];
      var n := if |ws| > 1 then p + |w| + 1 else p + |w|;
      WordsNext(b, p, ws);
      WordsStart(b, n, ws[1..]);
      var more := done + [Span(p, p + |w|)];
      var rest := ArgsOf(b, n, more, ws[1..], e);
      tail := [Span(p, p + |w|)] + rest;
      ArgsStep(b, p, done, w, n, more, rest, tail, e);
    }
  }

  lemma SpaceAfter(b: string, p: nat, w: string, rest: string)
    requires At(b, p, w + (" " + rest))
    ensures At(b, p, w) && b[p + |w|] == ' ' && At(b, p + |w| + 1, rest)
  {
    AtBoth(b, p, w, " " + rest);
    AtBoth(b, p + |w|, " ", rest);
    AtChar(b, p + |w|, " ", 0);
  }

  // From one word to the next.
  lemma WordsNext(b: string, p: nat, ws: seq<string>)
    requires ws != [] && NulFree(b) && At(b, p, Words(ws)) && Closed(b, p + |Words(ws)|)
    requires forall i :: 0 <= i < |ws| ==> WordOk(ws[i])
    ensures var w := ws[0];
            var n := if |ws| > 1 then p + |w| + 1 else p + |w|;
            && At(b, p, w) && (p + |w| < |b| ==> !Letter(b[p + |w|])) && n <= |b| && At(b, n, Words(ws[1..]))
            && n + |Words(ws[1..])| == p + |Words(ws)| && Skip(b, p + |w|) == n
  {
    if |ws| > 1 {
      WordThen(b, p, ws[0], ws[1..]);
    } else {
      assert ws[1..] == [] && Words(ws) == ws[0];
    }
  }

  lemma WordThen(b: string, p: nat, w: string, rest: seq<string>)
    requires rest != [] && NulFree(b) && At(b, p, w + (" " + Words(rest))) && Closed(b, p + |w| + 1 + |Words(rest)|)
    requires forall i :: 0 <= i < |rest| ==> WordOk(rest[i])
    ensures At(b, p, w) && p + |w| + 1 <= |b| && !Letter(b[p + |w|]) && At(b, p + |w| + 1, Words(rest))
    ensures Skip(b, p + |w|) == p + |w| + 1
  {
    SpaceAfter(b, p, w, Words(rest));
    WordsStart(b, p + |w| + 1, rest);
  }

  // Where words, or a closing place, begin.
  lemma WordsStart(b: string, p: nat, ws: seq<string>)
    requires NulFree(b) && At(b, p, Words(ws)) && Closed(b, p + |Words(ws)|)
    requires forall i :: 0 <= i < |ws| ==> WordOk(ws[i])
    ensures Skip(b, p) == p && ParseRedirs(b, p) == Some(Redirects([], p)) && !Peek(b, p, {'('})
  {
    if ws == [] {
      ClosedStops(b, p);
    } else {
      AtChar(b, p, Words(ws), 0);
      assert Words(ws)[0] == ws[0][0] && Letter(ws[0][0]);
    }
  }

  ghost predicate ExecAre(b: string, p: nat, c: Cmd<Span>, e: nat) {
    forall h {:trigger Use(h)} :: Use(h) ==> p <= |b| && NulFree(b) && ParseExec(b, p) == Some(Parsed(c, e))
  }

  ghost predicate PipeAre(b: string, p: nat, c: Cmd<Span>, e: nat) {
    forall h {:trigger Use(h)} :: Use(h) ==> p <= |b| && NulFree(b) && ParsePipe(b, p) == Some(Parsed(c, e))
  }

  ghost predicate LineAre(b: string, p: nat, c: Cmd<Span>, e: nat) {
    forall h {:trigger Use(h)} :: Use(h) ==> p <= |b| && NulFree(b) && ParseLine(b, p) == Some(Parsed(c, e))
  }

  lemma ExecWords(b: string, p: nat, ws: seq<string>, e: nat) returns (c: Cmd<Span>)
    requires NulFree(b) && TreeOk(Exec(ws)) && At(b, p, Words(ws)) && e == p + |Words(ws)| && Closed(b, e)
    ensures ExecAre(b, p, c, e) && Resolve(b, c) == Exec(ws)
  {
    var tail := ArgsOf(b, p, [], ws, e);
    WordsStart(b, p, ws);
    assert Use(0) && [] + tail == tail;
    c := Exec(tail);
  }

  lemma BlockEnds(b: string, p: nat, x: string)
    requires At(b, p, Block(x))
    ensures b[p] == '(' && At(b, p + 1, x) && b[p + 1 + |x|] == ')'
  {
    AtBoth(b, p, "(", x + ")");
    AtBoth(b, p + 1, x, ")");
    AtChar(b, p, "(", 0);
    AtChar(b, p + 1 + |x|, ")", 0);
  }

  // parseblock, step by step.
  lemma BlockTurn(b: string, p: nat, m: nat, l: Parsed, rs: Redirects)
    requires p < |b| && m <= |b| && NulFree(b) && Skip(b, p) == p && b[p] == '(' && GetToken(b, p).s == p + 1
    requires ParseLine(b, p + 1) == Some(l)
    requires l.s < |b| && Skip(b, l.s) == l.s && b[l.s] == ')' && GetToken(b, l.s).s == m
    requires ParseRedirs(b, m) == Some(rs)
    ensures ParseExec(b, p) == Some(Parsed(Wrap(l.cmd, rs.rs), rs.s))
  {
    assert Peek(b, p, {'('}) && Peek(b, l.s, {')'});
    assert ParseBlock(b, p) == Some(Parsed(Wrap(l.cmd, rs.rs), rs.s));
  }

  // A parenthesised line, then redirections.
  lemma ExecBlock(b: string, p: nat, m: nat, c: Cmd<Span>, rs: seq<Redirect<Span>>, e: nat)
    requires NulFree(b) && p + 1 < m <= |b| && b[p] == '(' && b[m - 1] == ')' && LineAre(b, p + 1, c, m - 1)
    requires Skip(b, p + 1) == p + 1
    requires Skip(b, m) == m && ParseRedirs(b, m) == Some(Redirects(rs, e))
    ensures ExecAre(b, p, Wrap(c, rs), e)
  {
    SymbolToken(b, p);
    SymbolToken(b, m - 1);
    assert Use(0);
    BlockTurn(b, p, m, Parsed(c, m - 1), Redirects(rs, e));
  }

  lemma SymbolToken(b: string, p: nat)
    requires p < |b| && b[p] in {'(', ')', ';', '&', '|'}
    ensures Skip(b, p) == p && GetToken(b, p) == Token(b[p], p, p + 1, Skip(b, p + 1))
  {
  }

  lemma PipeEnd(b: string, p: nat, c: Cmd<Span>, e: nat)
    requires NulFree(b) && ExecAre(b, p, c, e) && (e == |b| || (e < |b| && b[e] in {')', ';', '&'}))
    ensures PipeAre(b, p, c, e)
  {
    assert Use(0);
  }

  lemma PipeJoin(b: string, p: nat, c: Cmd<Span>, m: nat, d: Cmd<Span>, e: nat)
    requires NulFree(b) && ExecAre(b, p, c, m) && m < |b| && b[m] == '|' && Skip(b, m + 1) == m + 1
    requires PipeAre(b, m + 1, d, e)
    ensures PipeAre(b, p, Pipe(c, d), e)
  {
    assert Use(0) && GetToken(b, m).s == m + 1;
  }

  lemma LineEnd(b: string, p: nat, c: Cmd<Span>, e: nat)
    requires NulFree(b) && PipeAre(b, p, c, e) && Closed(b, e)
    ensures LineAre(b, p, c, e)
  {
    ClosedStops(b, e);
    assert Use(0) && ParseBacks(b, c, e) == Parsed(c, e);
  }

  lemma LineBack(b: string, p: nat, c: Cmd<Span>, m: nat)
    requires NulFree(b) && PipeAre(b, p, c, m) && m < |b| && b[m] == '&' && Closed(b, m + 1)
    ensures LineAre(b, p, Back(c), m + 1)
  {
    ClosedStops(b, m + 1);
    assert ParseBacks(b, Back(c), m + 1) == Parsed(Back(c), m + 1);
    assert Use(0) && GetToken(b, m).s == m + 1 && ParseBacks(b, c, m) == Parsed(Back(c), m + 1);
  }

  lemma LineJoin(b: string, p: nat, c: Cmd<Span>, m: nat, d: Cmd<Span>, e: nat)
    requires NulFree(b) && PipeAre(b, p, c, m) && m < |b| && b[m] == ';' && Skip(b, m + 1) == m + 1
    requires LineAre(b, m + 1, d, e)
    ensures LineAre(b, p, List(c, d), e)
  {
    assert Skip(b, m) == m && !Peek(b, m, {'&'}) && Peek(b, m, {';'});
    assert ParseBacks(b, c, m) == Parsed(c, m) && GetToken(b, m).s == m + 1;
    assert Use(0);
  }

  lemma PipeFinish(b: string, p: nat, x: Cmd<Span>, m: nat, y: Cmd<Span>, e: nat)
    requires NulFree(b) && ExecAre(b, p, x, m) && m < |b| && b[m] == '|' && Skip(b, m + 1) == m + 1
    requires ExecAre(b, m + 1, y, e) && Closed(b, e)
    ensures PipeAre(b, p, Pipe(x, y), e)
  {
    PipeEnd(b, m + 1, y, e);
    PipeJoin(b, p, x, m, y, e);
  }

  lemma ListFinish(b: string, p: nat, x: Cmd<Span>, m: nat, y: Cmd<Span>, e: nat)
    requires NulFree(b) && ExecAre(b, p, x, m) && m < |b| && b[m] == ';' && Skip(b, m + 1) == m + 1
    requires ExecAre(b, m + 1, y, e) && Closed(b, e)
    ensures LineAre(b, p, List(x, y), e)
  {
    PipeEnd(b, p, x, m);
    PipeEnd(b, m + 1, y, e);
    LineEnd(b, m + 1, y, e);
    LineJoin(b, p, x, m, y, e);
  }

  // A printed command does not start with a space.
  lemma PrintStart(t: Cmd<string>, b: string, p: nat)
    requires NulFree(b) && TreeOk(t) && At(b, p, Print(t)) && Closed(b, p + |Print(t)|)
    ensures Skip(b, p) == p
  {
    if t.Exec? {
      WordsStart(b, p, t.args);
    } else {
      assert Print(t)[0] == '(';
      AtChar(b, p, Print(t), 0);
    }
  }

  // What follows a block: nothing to redirect.
  lemma NoRedirs(b: string, m: nat)
    requires NulFree(b) && m <= |b| && (m < |b| ==> b[m] in {')', ';', '&', '|'})
    ensures Skip(b, m) == m && ParseRedirs(b, m) == Some(Redirects([], m))
  {
  }

  lemma OpTokens(b: string, m: nat)
    requires m + 1 < |b| && b[m] in {'<', '>'} && NulFree(b)
    ensures Letter(b[m + 1]) ==> GetToken(b, m) == Token(b[m], m, m + 1, m + 1)
    ensures b[m] == '>' == b[m + 1] && m + 2 < |b| && Letter(b[m + 2]) ==> GetToken(b, m) == Token('+', m, m + 2, m + 2)
  {
    assert Skip(b, m) == m;
  }

  // An operator and the start of its file.
  lemma OpThen(b: string, m: nat, op: string, f: string)
    requires At(b, m, op + f) && WordOk(f) && 1 <= |op| <= 2
    ensures At(b, m + |op|, f) && b[m] == op[0] && (|op| == 2 ==> b[m + 1] == op[1]) && m + |op| < |b|
    ensures Letter(b[m + |op|])
  {
    AtBoth(b, m, op, f);
    AtChar(b, m, op, 0);
    if |op| == 2 { AtChar(b, m, op, 1); }
    AtChar(b, m + |op|, f, 0);
  }

  lemma OpToken(b: string, m: nat, mode: int, fd: int, f: string)
    requires NulFree(b) && OpOk(mode, fd) && WordOk(f) && At(b, m, Op(mode) + f)
    ensures var t := GetToken(b, m);
            && t.s == m + |Op(mode)| && Mode(t.kind) == mode && Fd(t.kind) == fd
            && Skip(b, m) == m && m < |b| && b[m] in {'<', '>'}
    ensures At(b, m + |Op(mode)|, f)
  {
    OpThen(b, m, Op(mode), f);
    OpTokens(b, m);
  }

  lemma OneRedir(b: string, m: nat, mode: int, fd: int, f: string, e: nat)
    requires NulFree(b) && OpOk(mode, fd) && WordOk(f) && At(b, m, Op(mode) + f) && e == m + |Op(mode) + f|
    requires Closed(b, e)
    ensures Skip(b, m) == m && ParseRedirs(b, m) == Some(Redirects([Redirect(Span(e - |f|, e), mode, fd)], e))
    ensures Text(b, Span(e - |f|, e)) == f
  {
    OpToken(b, m, mode, fd, f);
    ClosedStops(b, e);
    WordToken(b, e - |f|, f);
    RedirStep(b, m, GetToken(b, m), Token('a', e - |f|, e, e), mode, fd);
  }

  lemma RedirStep(b: string, m: nat, op: Token, f: Token, mode: int, fd: int)
    requires NulFree(b) && m < |b| && b[m] in {'<', '>'} && Skip(b, m) == m && op == GetToken(b, m)
    requires Mode(op.kind) == mode && Fd(op.kind) == fd
    requires f == GetToken(b, op.s) && f.kind == 'a' && ParseRedirs(b, f.s) == Some(Redirects([], f.s))
    ensures ParseRedirs(b, m) == Some(Redirects([Redirect(Span(f.q, f.eq), mode, fd)], f.s))
  {
    var r := [Redirect(Span(f.q, f.eq), mode, fd)];
    assert r + [] == r && Peek(b, m, {'<', '>'});
  }

  function Size(c: Cmd<string>): nat {
    match c
    case Exec(_) => 0
    case Redir(d, _, _, _) => 1 + Size(d)
    case Pipe(l, r) => 1 + Size(l) + Size(r)
    case List(l, r) => 1 + Size(l) + Size(r)
    case Back(d) => 1 + Size(d)
  }

  // The block of t at p, followed by something other than a redirection.
  lemma BlockOf(t: Cmd<string>, b: string, p: nat, m: nat) returns (c: Cmd<Span>)
    requires NulFree(b) && TreeOk(t) && At(b, p, Block(Print(t))) && m == p + |Block(Print(t))|
    requires (m < |b| ==> b[m] in {')', ';', '&', '|'})
    ensures ExecAre(b, p, c, m) && Resolve(b, c) == t
    decreases Size(t), 2
  {
    c := InBlock(t, b, p, m);
    NoRedirs(b, m);
    BlockEnds(b, p, Print(t));
    ExecBlock(b, p, m, c, [], m);
    assert Wrap(c, []) == c;
  }

  lemma InBlock(t: Cmd<string>, b: string, p: nat, m: nat) returns (c: Cmd<Span>)
    requires NulFree(b) && TreeOk(t) && At(b, p, Block(Print(t))) && m == p + |Block(Print(t))|
    ensures LineAre(b, p + 1, c, m - 1) && Resolve(b, c) == t && Skip(b, p + 1) == p + 1
    decreases Size(t), 1
  {
    BlockEnds(b, p, Print(t));
    PrintStart(t, b, p + 1);
    c := LineOf(t, b, p + 1, m - 1);
  }

  lemma RedirOf(d: Cmd<string>, f: string, mode: int, fd: int, b: string, p: nat, e: nat) returns (c: Cmd<Span>)
    requires var t := Redir(d, f, mode, fd);
            NulFree(b) && TreeOk(t) && At(b, p, Print(t)) && e == p + |Print(t)| && Closed(b, e)
    ensures ExecAre(b, p, c, e) && Resolve(b, c) == Redir(d, f, mode, fd)
    decreases Size(d), 3
  {
    var m := p + |Block(Print(d))|;
    RedirText(b, p, Print(d), mode, fd, f, m, e);
    var inner := InBlock(d, b, p, m);
    c := Redir(inner, Span(e - |f|, e), mode, fd);
    RedirFinish(b, p, m, inner, Redirect(Span(e - |f|, e), mode, fd), e);
  }

  lemma RedirText(b: string, p: nat, s: string, mode: int, fd: int, f: string, m: nat, e: nat)
    requires NulFree(b) && OpOk(mode, fd) && WordOk(f) && At(b, p, Block(s) + (Op(mode) + f)) && Closed(b, e)
    requires m == p + |Block(s)| && e == m + |Op(mode) + f|
    ensures At(b, p, Block(s)) && p + 1 < m <= |b| && b[p] == '(' && b[m - 1] == ')' && e >= |f|
    ensures Skip(b, m) == m && ParseRedirs(b, m) == Some(Redirects([Redirect(Span(e - |f|, e), mode, fd)], e))
    ensures Text(b, Span(e - |f|, e)) == f
  {
    AtBoth(b, p, Block(s), Op(mode) + f);
    OneRedir(b, m, mode, fd, f, e);
    BlockEnds(b, p, s);
  }

  lemma RedirFinish(b: string, p: nat, m: nat, c: Cmd<Span>, r: Redirect<Span>, e: nat)
    requires NulFree(b) && p + 1 < m <= |b| && b[p] == '(' && b[m - 1] == ')' && LineAre(b, p + 1, c, m - 1)
    requires Skip(b, p + 1) == p + 1
    requires Skip(b, m) == m && ParseRedirs(b, m) == Some(Redirects([r], e))
    ensures ExecAre(b, p, Redir(c, r.file, r.mode, r.fd), e)
  {
    ExecBlock(b, p, m, c, [r], e);
    assert [r][1..] == [] && Wrap(c, [r]) == Wrap(Redir(c, r.file, r.mode, r.fd), []);
  }

  lemma PipeOf(l: Cmd<string>, r: Cmd<string>, b: string, p: nat, e: nat) returns (c: Cmd<Span>)
    requires var t := Pipe(l, r); NulFree(b) && TreeOk(t) && At(b, p, Print(t)) && e == p + |Print(t)| && Closed(b, e)
    ensures PipeAre(b, p, c, e) && Resolve(b, c) == Pipe(l, r)
    decreases Size(l) + Size(r), 4
  {
    var m := p + |Block(Print(l))|;
    var x, y := JoinOf(l, r, "|", b, p, m, e);
    PipeFinish(b, p, x, m, y, e);
    c := Pipe(x, y);
  }

  lemma ListOf(l: Cmd<string>, r: Cmd<string>, b: string, p: nat, e: nat) returns (c: Cmd<Span>)
    requires var t := List(l, r); NulFree(b) && TreeOk(t) && At(b, p, Print(t)) && e == p + |Print(t)| && Closed(b, e)
    ensures LineAre(b, p, c, e) && Resolve(b, c) == List(l, r)
    decreases Size(l) + Size(r), 4
  {
    var m := p + |Block(Print(l))|;
    var x, y := JoinOf(l, r, ";", b, p, m, e);
    ListFinish(b, p, x, m, y, e);
    c := List(x, y);
  }

  lemma BackOf(d: Cmd<string>, b: string, p: nat, e: nat) returns (c: Cmd<Span>)
    requires NulFree(b) && TreeOk(d) && At(b, p, Print(Back(d))) && e == p + |Print(Back(d))| && Closed(b, e)
    ensures LineAre(b, p, c, e) && Resolve(b, c) == Back(d)
    decreases Size(d), 4
  {
    AtBoth(b, p, Block(Print(d)), "&");
    var m := p + |Block(Print(d))|;
    AtChar(b, m, "&", 0);
    var x := BlockOf(d, b, p, m);
    PipeEnd(b, p, x, m);
    LineBack(b, p, x, m);
    c := Back(x);
  }

  /** A printed command, at the end of the line or of a block, parses as itself. */
  lemma {:induction false} LineOf(t: Cmd<string>, b: string, p: nat, e: nat) returns (c: Cmd<Span>)
    requires NulFree(b) && TreeOk(t) && At(b, p, Print(t)) && e == p + |Print(t)| && Closed(b, e)
    ensures LineAre(b, p, c, e) && Resolve(b, c) == t
    decreases Size(t), 0
  {
    match t
    case Exec(args) => c := ExecWords(b, p, args, e); PipeEnd(b, p, c, e); LineEnd(b, p, c, e);
    case Redir(d, f, mode, fd) => c := RedirOf(d, f, mode, fd, b, p, e); PipeEnd(b, p, c, e); LineEnd(b, p, c, e);
    case Pipe(l, r) => c := PipeOf(l, r, b, p, e); LineEnd(b, p, c, e);
    case List(l, r) => c := ListOf(l, r, b, p, e);
    case Back(d) => c := BackOf(d, b, p, e);
  }

  lemma JoinParts(x: string, y: string, op: string, b: string, p: nat)
    requires At(b, p, Block(x) + (op + Block(y))) && |op| == 1
    ensures var m := p + |Block(x)|;
            At(b, p, Block(x)) && At(b, m + 1, Block(y)) && b[m] == op[0] && b[m + 1] == '('
  {
    var m := p + |Block(x)|;
    AtBoth(b, p, Block(x), op + Block(y));
    AtBoth(b, m, op, Block(y));
    AtChar(b, m, op, 0);
    AtChar(b, m + 1, Block(y), 0);
  }

  // Two blocks with a symbol between them.
  lemma JoinOf(l: Cmd<string>, r: Cmd<string>, op: string, b: string, p: nat, m: nat, e: nat)
    returns (x: Cmd<Span>, y: Cmd<Span>)
    requires NulFree(b) && TreeOk(l) && TreeOk(r) && (op == "|" || op == ";")
    requires At(b, p, Block(Print(l)) + (op + Block(Print(r)))) && m == p + |Block(Print(l))|
    requires e == m + 1 + |Block(Print(r))| && Closed(b, e)
    ensures ExecAre(b, p, x, m) && Resolve(b, x) == l && m < |b| && b[m] == op[0] && Skip(b, m + 1) == m + 1
    ensures ExecAre(b, m + 1, y, e) && Resolve(b, y) == r
    decreases Size(l) + Size(r), 3
  {
    JoinParts(Print(l), Print(r), op, b, p);
    x := BlockOf(l, b, p, m);
    y := BlockOf(r, b, m + 1, e);
  }

  lemma {:induction false} PrintNulFree(t: Cmd<string>)
    requires TreeOk(t)
    ensures NulFree(Print(t))
    decreases t
  {
    match t
    case Exec(args) => WordsNulFree(args);
    case Redir(d, f, _, _) =>
      PrintNulFree(d);
      assert forall i :: 0 <= i < |f| ==> f[i] != '\0';
    case Pipe(l, r) => PrintNulFree(l); PrintNulFree(r);
    case List(l, r) => PrintNulFree(l); PrintNulFree(r);
    case Back(d) => PrintNulFree(d);
  }

  lemma {:induction false} WordsNulFree(ws: seq<string>)
    requires forall i :: 0 <= i < |ws| ==> WordOk(ws[i])
    ensures NulFree(Words(ws))
  {
    if ws != [] {
      assert WordOk(ws[0]);
      WordsNulFree(ws[1..]);
    }
  }

  /** Parsing the printing of any command tree gives back that tree. */
  lemma RoundTrip(t: Cmd<string>)
    requires TreeOk(t)
    ensures NulFree(Print(t)) && Parse(Print(t)).Some? && Resolve(Print(t), Parse(Print(t)).value) == t
  {
    PrintNulFree(t);
    var b := Print(t);
    var c := LineOf(t, b, 0, |b|);
    assert Use(0) && Skip(b, |b|) == |b|;
  }
}
