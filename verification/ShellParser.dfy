/**
  The parser as the shell runs it (user/sh.c): a shared cursor over the line,
  then NULs written into the line after every word.
 */
module ShellParser {
  import opened Params
  import opened Shell

  // What a parsing function leaves behind: its command and the cursor.
  predicate Agrees(r: Option<Parsed>, c: Option<Cmd<Span>>, s: nat) {
    if r.None? then c.None? else c == Some(r.value.cmd) && s == r.value.s
  }

  function More(done: seq<Redirect<Span>>, r: Option<Redirects>): Option<Redirects> {
    if r.None? then None else Some(Redirects(done + r.value.rs, r.value.s))
  }

  class Parser {
    const b: string
    var s: nat

    ghost predicate Valid() reads this { s <= |b| && NulFree(b) }

    constructor (line: string)
      requires NulFree(line)
      ensures b == line && s == 0 && Valid()
    {
      b, s := line, 0;
    }

    method SkipWhite()
      requires Valid()
      modifies this
      ensures Valid() && s == Skip(b, old(s))
    {
      while s < |b| && White(b[s])
        invariant s <= |b| && Skip(b, s) == Skip(b, old(s))
      {
        s := s + 1;
      }
    }

    method Peeks(toks: set<char>) returns (yes: bool)
      requires Valid() && '\0' !in toks
      modifies this
      ensures Valid() && s == Skip(b, old(s)) && yes == Peek(b, old(s), toks)
    {
      SkipWhite();
      yes := s < |b| && b[s] in toks;
    }

    method Gettoken() returns (kind: char, q: nat, eq: nat)
      requires Valid()
      modifies this
      ensures Valid() && Token(kind, q, eq, s) == GetToken(b, old(s))
    {
      SkipWhite();
      q := s;
      kind := Char(b, s);
      if kind == '\0' {
      } else if kind == '>' {
        s := s + 1;
        if Char(b, s) == '>' {
          kind := '+';
          s := s + 1;
        }
      } else if Symbol(kind) {
        s := s + 1;
      } else {
        kind := 'a';
        while s < |b| && !White(b[s]) && !Symbol(b[s])
          invariant q <= s <= |b| && WordEnd(b, s) == WordEnd(b, q)
        {
          s := s + 1;
        }
      }
      eq := s;
      SkipWhite();
    }

    // parseredirs, as the list of redirections it wraps around its command.
    method Redirs() returns (rs: Option<seq<Redirect<Span>>>)
      requires Valid()
      modifies this
      ensures Valid()
      ensures var r := ParseRedirs(b, old(s));
              if r.None? then rs.None? else rs == Some(r.value.rs) && s == r.value.s
    {
      var done: seq<Redirect<Span>> := [];
      ghost var all := ParseRedirs(b, s);
      var more := Peeks({'<', '>'});
      RedirsAgain(b, old(s));
      MoreNone(all);
      while more
        invariant Valid() && more == Peek(b, s, {'<', '>'}) && Skip(b, s) == s && More(done, ParseRedirs(b, s)) == all
        decreases |b| - s
      {
        RedirsNext(b, s);
        var tok, _, _ := Gettoken();
        var kind, q, eq := Gettoken();
        if kind != 'a' {
          return None;
        }
        MoreOne(done, Redirect(Span(q, eq), Mode(tok), Fd(tok)), ParseRedirs(b, s));
        done := done + [Redirect(Span(q, eq), Mode(tok), Fd(tok))];
        ghost var at := s;
        more := Peeks({'<', '>'});
        RedirsAgain(b, at);
      }
      assert done + [] == done;
      rs := Some(done);
    }

    // parseexec
    method Exec() returns (c: Option<Cmd<Span>>)
      requires Valid()
      modifies this
      ensures Valid() && Agrees(ParseExec(b, old(s)), c, s)
      decreases |b| - s, 2
    {
      var block := Peeks({'('});
      if block {
        c := BlockCmd();
        return;
      }
      var rs := Redirs();
      if rs.None? {
        return None;
      }
      c := Args(rs.value);
    }

    // The loop of parseexec.
    method Args(first: seq<Redirect<Span>>) returns (c: Option<Cmd<Span>>)
      requires Valid()
      modifies this
      ensures Valid() && Agrees(ParseArgs(b, [], first, old(s)), c, s)
    {
      var args: seq<Span>, rs := [], first;
      ghost var all := ParseArgs(b, [], first, s);
      while true
        invariant Valid() && ParseArgs(b, args, rs, s) == all
        decreases |b| - s
      {
        ghost var at := s;
        var stop := Peeks({'|', ')', '&', ';'});
        if stop {
          break;
        }
        var kind, q, eq := Gettoken();
        if kind == '\0' {
          break;
        }
        if kind != 'a' || |args| + 1 >= MAXARGS {
          return None;
        }
        args := args + [Span(q, eq)];
        var more := Redirs();
        if more.None? {
          return None;
        }
        rs := rs + more.value;
      }
      c := Some(Wrap(Cmd.Exec(args), rs));
    }

    // parseblock
    method BlockCmd() returns (c: Option<Cmd<Span>>)
      requires Valid()
      modifies this
      ensures Valid() && Agrees(ParseBlock(b, old(s)), c, s)
      decreases |b| - s, 1
    {
      var open := Peeks({'('});
      if !open {
        return None;
      }
      var _, _, _ := Gettoken();
      c := Line();
      if c.None? {
        return None;
      }
      var close := Peeks({')'});
      if !close {
        return None;
      }
      var _, _, _ := Gettoken();
      var rs := Redirs();
      if rs.None? {
        return None;
      }
      c := Some(Wrap(c.value, rs.value));
    }

    // parsepipe
    method PipeCmd() returns (c: Option<Cmd<Span>>)
      requires Valid()
      modifies this
      ensures Valid() && Agrees(ParsePipe(b, old(s)), c, s)
      decreases |b| - s, 3
    {
      c := Exec();
      if c.None? {
        return None;
      }
      var bar := Peeks({'|'});
      if bar {
        var _, _, _ := Gettoken();
        var right := PipeCmd();
        if right.None? {
          return None;
        }
        c := Some(Pipe(c.value, right.value));
      }
    }

    // parseline
    method Line() returns (c: Option<Cmd<Span>>)
      requires Valid()
      modifies this
      ensures Valid() && Agrees(ParseLine(b, old(s)), c, s)
      decreases |b| - s, 4
    {
      c := PipeCmd();
      if c.None? {
        return None;
      }
      c := Backs(c.value);
      var semi := Peeks({';'});
      if semi {
        var _, _, _ := Gettoken();
        var right := Line();
        if right.None? {
          return None;
        }
        c := Some(List(c.value, right.value));
      }
    }

    // The loop of parseline over &.
    method Backs(first: Cmd<Span>) returns (c: Option<Cmd<Span>>)
      requires Valid()
      modifies this
      ensures Valid() && c == Some(ParseBacks(b, first, old(s)).cmd) && s == ParseBacks(b, first, old(s)).s
    {
      var cmd := first;
      var more := Peeks({'&'});
      BacksAgain(b, first, old(s));
      while more
        invariant Valid() && more == Peek(b, s, {'&'}) && Skip(b, s) == s
        invariant ParseBacks(b, cmd, s) == ParseBacks(b, first, old(s))
        decreases |b| - s
      {
        var _, _, _ := Gettoken();
        cmd := Back(cmd);
        ghost var at := s;
        more := Peeks({'&'});
        BacksAgain(b, cmd, at);
      }
      c := Some(cmd);
    }
  }

  // Spaces already skipped make no difference.
  lemma SkipTwice(b: string, s: nat)
    requires s <= |b|
    ensures Skip(b, Skip(b, s)) == Skip(b, s) && GetToken(b, Skip(b, s)) == GetToken(b, s)
  {
  }

  lemma RedirsAgain(b: string, s: nat)
    requires s <= |b| && NulFree(b)
    ensures Skip(b, Skip(b, s)) == Skip(b, s) && ParseRedirs(b, Skip(b, s)) == ParseRedirs(b, s)
  {
    SkipTwice(b, s);
  }

  lemma BacksAgain(b: string, c: Cmd<Span>, s: nat)
    requires s <= |b| && NulFree(b)
    ensures Skip(b, Skip(b, s)) == Skip(b, s) && ParseBacks(b, c, Skip(b, s)) == ParseBacks(b, c, s)
  {
    SkipTwice(b, s);
  }

  lemma MoreNone(r: Option<Redirects>)
    ensures More([], r) == r
  {
    if r.Some? { assert [] + r.value.rs == r.value.rs; }
  }

  lemma MoreOne(done: seq<Redirect<Span>>, x: Redirect<Span>, r: Option<Redirects>)
    ensures More(done + [x], r) == More(done, More([x], r))
  {
    if r.Some? { assert done + [x] + r.value.rs == done + ([x] + r.value.rs); }
  }

  lemma RedirsNext(b: string, s: nat)
    requires s <= |b| && NulFree(b) && Peek(b, s, {'<', '>'}) && Skip(b, s) == s
    ensures var op := GetToken(b, s);
            var f := GetToken(b, op.s);
            ParseRedirs(b, s) == if f.kind != 'a' then None
                                 else More([Redirect(Span(f.q, f.eq), Mode(op.kind), Fd(op.kind))], ParseRedirs(b, f.s))
  {
  }

  // -------------------------------------------------------- what was parsed

  // A maximal run of letters of the line.
  predicate SpanOk(b: string, w: Span) {
    && w.q < w.eq <= |b| && (forall i :: w.q <= i < w.eq ==> Letter(b[i])) && (w.eq < |b| ==> !Letter(b[w.eq]))
  }

  predicate RedirsOk(b: string, rs: seq<Redirect<Span>>) {
    forall i :: 0 <= i < |rs| ==> SpanOk(b, rs[i].file) && OpOk(rs[i].mode, rs[i].fd)
  }

  predicate CmdOk(b: string, c: Cmd<Span>) {
    match c
    case Exec(args) => |args| < MAXARGS && forall i :: 0 <= i < |args| ==> SpanOk(b, args[i])
    case Redir(d, f, mode, fd) => CmdOk(b, d) && SpanOk(b, f) && OpOk(mode, fd)
    case Pipe(l, r) => CmdOk(b, l) && CmdOk(b, r)
    case List(l, r) => CmdOk(b, l) && CmdOk(b, r)
    case Back(d) => CmdOk(b, d)
  }

  lemma {:induction false} WordEndOk(b: string, s: nat)
    requires s <= |b| && NulFree(b)
    ensures var e := WordEnd(b, s); (forall i :: s <= i < e ==> Letter(b[i])) && (e < |b| ==> !Letter(b[e]))
    decreases |b| - s
  {
    if s < |b| && Letter(b[s]) { WordEndOk(b, s + 1); }
  }

  lemma TokenOk(b: string, s: nat)
    requires s <= |b| && NulFree(b)
    ensures GetToken(b, s).kind == 'a' ==> SpanOk(b, Span(GetToken(b, s).q, GetToken(b, s).eq))
  {
    WordEndOk(b, Skip(b, s));
  }

  lemma {:induction false} WrapOk(b: string, c: Cmd<Span>, rs: seq<Redirect<Span>>)
    requires CmdOk(b, c) && RedirsOk(b, rs)
    ensures CmdOk(b, Wrap(c, rs))
    decreases |rs|
  {
    if rs != [] { WrapOk(b, Redir(c, rs[0].file, rs[0].mode, rs[0].fd), rs[1..]); }
  }

  lemma {:induction false} RedirsParsed(b: string, s: nat)
    requires s <= |b| && NulFree(b)
    ensures ParseRedirs(b, s).Some? ==> RedirsOk(b, ParseRedirs(b, s).value.rs)
    decreases |b| - s
  {
    if Peek(b, s, {'<', '>'}) {
      var op := GetToken(b, Skip(b, s));
      var f := GetToken(b, op.s);
      TokenOk(b, op.s);
      RedirsParsed(b, f.s);
    }
  }

  lemma {:induction false} ArgsParsed(b: string, args: seq<Span>, rs: seq<Redirect<Span>>, s: nat)
    requires s <= |b| && NulFree(b) && CmdOk(b, Exec(args)) && RedirsOk(b, rs)
    ensures ParseArgs(b, args, rs, s).Some? ==> CmdOk(b, ParseArgs(b, args, rs, s).value.cmd)
    decreases |b| - s
  {
    WrapOk(b, Exec(args), rs);
    if !Peek(b, s, {'|', ')', '&', ';'}) {
      var t := GetToken(b, Skip(b, s));
      if t.kind == 'a' && |args| + 1 < MAXARGS {
        TokenOk(b, Skip(b, s));
        RedirsParsed(b, t.s);
        var more := ParseRedirs(b, t.s);
        if more.Some? { ArgsParsed(b, args + [Span(t.q, t.eq)], rs + more.value.rs, more.value.s); }
      }
    }
  }

  lemma {:induction false} ExecParsed(b: string, s: nat)
    requires s <= |b| && NulFree(b)
    ensures ParseExec(b, s).Some? ==> CmdOk(b, ParseExec(b, s).value.cmd)
    decreases |b| - s, 2
  {
    if Peek(b, s, {'('}) {
      BlockParsed(b, Skip(b, s));
    } else {
      RedirsParsed(b, Skip(b, s));
      var rs := ParseRedirs(b, Skip(b, s));
      if rs.Some? { ArgsParsed(b, [], rs.value.rs, rs.value.s); }
    }
  }

  lemma {:induction false} BlockParsed(b: string, s: nat)
    requires s <= |b| && NulFree(b)
    ensures ParseBlock(b, s).Some? ==> CmdOk(b, ParseBlock(b, s).value.cmd)
    decreases |b| - s, 1
  {
    if Peek(b, s, {'('}) {
      var n := GetToken(b, Skip(b, s)).s;
      LineParsed(b, n);
      var p := ParseLine(b, n);
      if p.Some? && Peek(b, p.value.s, {')'}) {
        var m := GetToken(b, Skip(b, p.value.s)).s;
        RedirsParsed(b, m);
        if ParseRedirs(b, m).Some? { WrapOk(b, p.value.cmd, ParseRedirs(b, m).value.rs); }
      }
    }
  }

  lemma {:induction false} PipeParsed(b: string, s: nat)
    requires s <= |b| && NulFree(b)
    ensures ParsePipe(b, s).Some? ==> CmdOk(b, ParsePipe(b, s).value.cmd)
    decreases |b| - s, 3
  {
    ExecParsed(b, s);
    var p := ParseExec(b, s);
    if p.Some? && Peek(b, p.value.s, {'|'}) { PipeParsed(b, GetToken(b, Skip(b, p.value.s)).s); }
  }

  lemma {:induction false} BacksParsed(b: string, c: Cmd<Span>, s: nat)
    requires s <= |b| && NulFree(b) && CmdOk(b, c)
    ensures CmdOk(b, ParseBacks(b, c, s).cmd)
    decreases |b| - s
  {
    if Peek(b, s, {'&'}) { BacksParsed(b, Back(c), GetToken(b, Skip(b, s)).s); }
  }

  // Every word of a parsed command is a maximal run of letters.
  lemma {:induction false} LineParsed(b: string, s: nat)
    requires s <= |b| && NulFree(b)
    ensures ParseLine(b, s).Some? ==> CmdOk(b, ParseLine(b, s).value.cmd)
    decreases |b| - s, 4
  {
    PipeParsed(b, s);
    var p := ParsePipe(b, s);
    if p.Some? {
      BacksParsed(b, p.value.cmd, p.value.s);
      var q := ParseBacks(b, p.value.cmd, p.value.s);
      if Peek(b, q.s, {';'}) { LineParsed(b, GetToken(b, Skip(b, q.s)).s); }
    }
  }

  lemma {:induction false} ResolveOk(b: string, c: Cmd<Span>)
    requires NulFree(b) && CmdOk(b, c)
    ensures TreeOk(Resolve(b, c))
    decreases c
  {
    match c
    case Exec(args) =>
    case Redir(d, _, _, _) => ResolveOk(b, d);
    case Pipe(l, r) => ResolveOk(b, l); ResolveOk(b, r);
    case List(l, r) => ResolveOk(b, l); ResolveOk(b, r);
    case Back(d) => ResolveOk(b, d);
  }

  /** Whatever line was parsed, printing its command and parsing that gives the same command. */
  lemma Reparse(b: string)
    requires NulFree(b) && Parse(b).Some?
    ensures var t := Resolve(b, Parse(b).value);
            TreeOk(t) && NulFree(Print(t)) && Parse(Print(t)).Some? && Resolve(Print(t), Parse(Print(t)).value) == t
  {
    LineParsed(b, 0);
    ResolveOk(b, Parse(b).value);
    RoundTrip(Resolve(b, Parse(b).value));
  }

  // ------------------------------------------------------------ nulterminate

  // The places nulterminate writes to.
  function Ends(c: Cmd<Span>): set<nat> {
    match c
    case Exec(args) => set w | w in args :: w.eq
    case Redir(d, f, _, _) => Ends(d) + {f.eq}
    case Pipe(l, r) => Ends(l) + Ends(r)
    case List(l, r) => Ends(l) + Ends(r)
    case Back(d) => Ends(d)
  }

  predicate HasWord(c: Cmd<Span>, w: Span) {
    match c
    case Exec(args) => w in args
    case Redir(d, f, _, _) => HasWord(d, w) || w == f
    case Pipe(l, r) => HasWord(l, w) || HasWord(r, w)
    case List(l, r) => HasWord(l, w) || HasWord(r, w)
    case Back(d) => HasWord(d, w)
  }

  function Nulled(x: string, at: set<nat>): string {
    seq(|x|, i requires 0 <= i < |x| => if i in at then '\0' else x[i])
  }

  // A C string: from q up to the next NUL.
  function CString(x: string, q: nat): string
    decreases |x| - q
  {
    if q < |x| && x[q] != '\0' then [x[q]] + CString(x, q + 1) else ""
  }

  lemma {:induction false} CStringIs(x: string, q: nat, e: nat)
    requires q <= e < |x| && x[e] == '\0' && forall i :: q <= i < e ==> x[i] != '\0'
    ensures CString(x, q) == x[q..e]
    decreases e - q
  {
    if q < e { CStringIs(x, q + 1, e); }
  }

  lemma {:induction false} EndsOk(b: string, c: Cmd<Span>, w: Span)
    requires CmdOk(b, c)
    ensures forall e :: e in Ends(c) ==> e <= |b| && (e < |b| ==> !Letter(b[e]))
    ensures HasWord(c, w) ==> SpanOk(b, w) && w.eq in Ends(c)
    decreases c
  {
    match c
    case Exec(args) =>
    case Redir(d, _, _, _) => EndsOk(b, d, w);
    case Pipe(l, r) => EndsOk(b, l, w); EndsOk(b, r, w);
    case List(l, r) => EndsOk(b, l, w); EndsOk(b, r, w);
    case Back(d) => EndsOk(b, d, w);
  }

  /** No NUL falls inside a word, so every argv string and file name is its word. */
  lemma WordsTerminated(b: string, w: Span)
    requires NulFree(b) && Parse(b).Some? && HasWord(Parse(b).value, w)
    ensures CString(Nulled(b + "\0", Ends(Parse(b).value)), w.q) == Text(b, w)
  {
    LineParsed(b, 0);
    var c := Parse(b).value;
    EndsOk(b, c, w);
    var x := Nulled(b + "\0", Ends(c));
    CStringIs(x, w.q, w.eq);
    assert x[w.q..w.eq] == b[w.q..w.eq];
  }

  // nulterminate, on the buffer that holds the line and its NUL.
  method Nulterminate(buf: array<char>, c: Cmd<Span>)
    requires forall e :: e in Ends(c) ==> e < buf.Length
    modifies buf
    ensures buf[..] == Nulled(old(buf[..]), Ends(c))
    decreases c
  {
    match c
    case Exec(args) =>
      var i := 0;
      while i < |args|
        invariant 0 <= i <= |args|
        invariant forall j :: 0 <= j < buf.Length ==>
                    buf[j] == if exists k :: 0 <= k < i && args[k].eq == j then '\0' else old(buf[j])
      {
        assert args[i] in args && args[i].eq in Ends(c);
        buf[args[i].eq] := '\0';
        i := i + 1;
      }
    case Redir(d, f, _, _) =>
      assert Ends(c) == Ends(d) + {f.eq};
      Nulterminate(buf, d);
      buf[f.eq] := '\0';
    case Pipe(l, r) =>
      assert Ends(c) == Ends(l) + Ends(r);
      Nulterminate(buf, l);
      Nulterminate(buf, r);
    case List(l, r) =>
      assert Ends(c) == Ends(l) + Ends(r);
      Nulterminate(buf, l);
      Nulterminate(buf, r);
    case Back(d) =>
      assert Ends(c) == Ends(d);
      Nulterminate(buf, d);
  }

  /**
    parsecmd: the command of the line in buf, or None for a syntax error; every
    word of the command is a C string in the buffer afterwards.
   */
  method Parsecmd(buf: array<char>) returns (c: Option<Cmd<Span>>)
    requires buf.Length > 0 && buf[buf.Length - 1] == '\0' && NulFree(buf[..buf.Length - 1])
    modifies buf
    ensures c == Parse(old(buf[..buf.Length - 1]))
    ensures c.None? ==> buf[..] == old(buf[..])
    ensures c.Some? ==> forall w :: HasWord(c.value, w) ==> CString(buf[..], w.q) == Text(old(buf[..buf.Length - 1]), w)
  {
    var line := buf[..buf.Length - 1];
    var p := new Parser(line);
    c := p.Line();
    if c.None? {
      return;
    }
    p.SkipWhite();
    if p.s != |line| {
      return None;
    }
    LineParsed(line, 0);
    EndsOk(line, c.value, Span(0, 0));
    assert buf[..] == line + "\0";
    Nulterminate(buf, c.value);
    forall w | HasWord(c.value, w) ensures CString(buf[..], w.q) == Text(line, w) {
      WordsTerminated(line, w);
    }
  }
}
