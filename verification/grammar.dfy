/** What the shell's parser (user/sh.c) accepts, and what it makes of it.

    The lexemes of a line and the grammar are defined without the parser's routines: a line
    has exactly one sequence of lexemes, and it parses if and only if that sequence is derived
    from the grammar, to the command that the derivation says. */
module Grammar {
  import opened Shell

  /* -------- lexemes -------- */

  /** A token of the line: 'a' for a word, '+' for ">>", or the symbol itself. */
  datatype Lexeme = Lexeme(kind: char, span: Span)

  predicate Blank(s: string, a: nat, b: nat) {
    a <= b <= |s| && forall k | a <= k < b :: IsSpace(s[k])
  }

  /** The lexeme is what stands at its place, as long as can be. */
  predicate IsLexeme(s: string, x: Lexeme) {
    var q, e := x.span.q, x.span.eq;
    && q < e <= |s|
    && if x.kind == 'a' then (forall k | q <= k < e :: IsWord(s[k])) && (e < |s| ==> !IsWord(s[e]))
       else if x.kind == '+' then e == q + 2 && s[q] == '>' && s[q + 1] == '>'
       else e == q + 1 && s[q] == x.kind && IsSymbol(x.kind) && (x.kind == '>' && e < |s| ==> s[e] != '>')
  }

  /** From position i on the line is these lexemes, with blanks between them. */
  predicate Lexing(s: string, i: nat, xs: seq<Lexeme>)
    decreases |xs|
  {
    if xs == [] then Blank(s, i, |s|)
    else Blank(s, i, xs[0].span.q) && IsLexeme(s, xs[0]) && Lexing(s, xs[0].span.eq, xs[1..])
  }

  /** The lexemes that gettoken finds. */
  function Lexed(s: string, i: nat): seq<Lexeme>
    requires Line(s) && i <= |s|
    decreases |s| - i
  {
    var t := TokenAt(s, i);
    if t.kind == '\0' then [] else [Lexeme(t.kind, t.span)] + Lexed(s, t.next)
  }

  lemma {:induction false} SkipBlank(s: string, i: nat)
    requires i <= |s|
    ensures Blank(s, i, Skip(s, i))
    decreases |s| - i
  {
    if i < |s| && IsSpace(s[i]) {
      SkipBlank(s, i + 1);
    }
  }

  lemma LexingBlank(s: string, i: nat, j: nat, xs: seq<Lexeme>)
    requires Blank(s, i, j) && Lexing(s, j, xs)
    ensures Lexing(s, i, xs)
  {
  }

  lemma TokenLexeme(s: string, i: nat)
    requires Line(s) && i <= |s|
    ensures var t := TokenAt(s, i);
            && (t.kind == '\0' ==> Blank(s, i, |s|))
            && (t.kind != '\0' ==>
                  && Blank(s, i, t.span.q) && IsLexeme(s, Lexeme(t.kind, t.span)) && Blank(s, t.span.eq, t.next)
                  && t.next > i)
  {
    SkipBlank(s, i);
    SkipBlank(s, TokenAt(s, i).span.eq);
  }

  /** They are the lexemes of the line. */
  lemma {:induction false} LexedIs(s: string, i: nat)
    requires Line(s) && i <= |s|
    ensures Lexing(s, i, Lexed(s, i))
    decreases |s| - i
  {
    hide TokenAt, IsLexeme, Blank;
    var t := TokenAt(s, i);
    TokenLexeme(s, i);
    if t.kind != '\0' {
      LexedIs(s, t.next);
      LexingBlank(s, t.span.eq, t.next, Lexed(s, t.next));
      assert Lexed(s, i)[1..] == Lexed(s, t.next);
    }
  }

  lemma OneLexeme(s: string, i: nat, x: Lexeme, y: Lexeme)
    requires Blank(s, i, x.span.q) && IsLexeme(s, x) && Blank(s, i, y.span.q) && IsLexeme(s, y)
    ensures x == y
  {
    FirstChar(s, x);
    FirstChar(s, y);
    assert x.span.q == y.span.q;
  }

  lemma FirstChar(s: string, x: Lexeme)
    requires IsLexeme(s, x)
    ensures !IsSpace(s[x.span.q]) && (x.kind == 'a' <==> IsWord(s[x.span.q]))
  {
  }

  /** A line has no other lexemes. */
  lemma {:induction false} LexingUnique(s: string, i: nat, xs: seq<Lexeme>, ys: seq<Lexeme>)
    requires Lexing(s, i, xs) && Lexing(s, i, ys)
    ensures xs == ys
    decreases |xs|
  {
    hide IsLexeme;
    if xs != [] && ys != [] {
      OneLexeme(s, i, xs[0], ys[0]);
      LexingUnique(s, xs[0].span.eq, xs[1..], ys[1..]);
      assert xs == [xs[0]] + xs[1..] && ys == [ys[0]] + ys[1..];
    } else if xs != [] {
      FirstChar(s, xs[0]);
      LexemeThere(s, xs[0]);
    } else if ys != [] {
      FirstChar(s, ys[0]);
      LexemeThere(s, ys[0]);
    }
  }

  lemma LexemeThere(s: string, x: Lexeme)
    requires IsLexeme(s, x)
    ensures x.span.q < x.span.eq <= |s|
  {
  }

  /* -------- the grammar -------- */

  /** A lexeme without the place of a symbol. */
  datatype Tok = Sym(kind: char) | Word(span: Span)

  function TokOf(x: Lexeme): Tok {
    if x.kind == 'a' then Word(x.span) else Sym(x.kind)
  }

  function Strip(xs: seq<Lexeme>): seq<Tok> {
    if xs == [] then [] else [TokOf(xs[0])] + Strip(xs[1..])
  }

  /** line: pipe "&"... [";" line];  pipe: exec ["|" pipe];  exec: redirection... and words, each
      with redirections, or "(" line ")" redirection... */
  datatype SLine = SLast(pipe: SPipe, backs: nat) | SMore(pipe: SPipe, backs: nat, rest: SLine)
  datatype SPipe = SOne(exec: SExec) | SBar(exec: SExec, rest: SPipe)
  datatype SExec = SWords(pre: seq<Redirect>, args: seq<Arg>) | SBlock(line: SLine, redirs: seq<Redirect>)
  datatype Arg = Arg(word: Span, redirs: seq<Redirect>)

  function Op(mode: Mode): char {
    match mode case In => '<' case Out => '>' case Append => '+'
  }

  function FlatRedirs(rs: seq<Redirect>): seq<Tok> {
    if rs == [] then [] else [Sym(Op(rs[0].mode)), Word(rs[0].file)] + FlatRedirs(rs[1..])
  }

  function FlatArgs(args: seq<Arg>): seq<Tok> {
    if args == [] then [] else [Word(args[0].word)] + FlatRedirs(args[0].redirs) + FlatArgs(args[1..])
  }

  function FlatExec(e: SExec): seq<Tok> {
    match e
    case SWords(pre, args) => FlatRedirs(pre) + FlatArgs(args)
    case SBlock(line, redirs) => [Sym('(')] + FlatLine(line) + [Sym(')')] + FlatRedirs(redirs)
  }

  function FlatPipe(p: SPipe): seq<Tok> {
    match p
    case SOne(exec) => FlatExec(exec)
    case SBar(exec, rest) => FlatExec(exec) + [Sym('|')] + FlatPipe(rest)
  }

  function Ands(n: nat): seq<Tok> {
    if n == 0 then [] else [Sym('&')] + Ands(n - 1)
  }

  function FlatLine(l: SLine): seq<Tok> {
    match l
    case SLast(pipe, backs) => FlatPipe(pipe) + Ands(backs)
    case SMore(pipe, backs, rest) => FlatPipe(pipe) + Ands(backs) + [Sym(';')] + FlatLine(rest)
  }

  /* -------- what a derivation means -------- */

  /** The last redirection is outermost. */
  function Redirected(c: Cmd<Span>, rs: seq<Redirect>): Cmd<Span>
    decreases |rs|
  {
    if rs == [] then c
    else var last := rs[|rs| - 1]; Redir(Redirected(c, rs[..|rs| - 1]), last.file, last.mode)
  }

  function ArgWords(args: seq<Arg>): seq<Span> {
    if args == [] then [] else [args[0].word] + ArgWords(args[1..])
  }

  function ArgRedirs(args: seq<Arg>): seq<Redirect> {
    if args == [] then [] else args[0].redirs + ArgRedirs(args[1..])
  }

  function Backed(c: Cmd<Span>, n: nat): Cmd<Span> {
    if n == 0 then c else Back(Backed(c, n - 1))
  }

  function TreeExec(e: SExec): Cmd<Span> {
    match e
    case SWords(pre, args) => Redirected(Exec(ArgWords(args)), pre + ArgRedirs(args))
    case SBlock(line, redirs) => Redirected(TreeLine(line), redirs)
  }

  function TreePipe(p: SPipe): Cmd<Span> {
    match p
    case SOne(exec) => TreeExec(exec)
    case SBar(exec, rest) => Pipe(TreeExec(exec), TreePipe(rest))
  }

  function TreeLine(l: SLine): Cmd<Span> {
    match l
    case SLast(pipe, backs) => Backed(TreePipe(pipe), backs)
    case SMore(pipe, backs, rest) => List(Backed(TreePipe(pipe), backs), TreeLine(rest))
  }

  /** No command has ten words. */
  predicate FitsExec(e: SExec) {
    match e
    case SWords(pre, args) => |args| < MAXARGS
    case SBlock(line, redirs) => FitsLine(line)
  }

  predicate FitsPipe(p: SPipe) {
    FitsExec(p.exec) && (p.SBar? ==> FitsPipe(p.rest))
  }

  predicate FitsLine(l: SLine) {
    FitsPipe(l.pipe) && (l.SMore? ==> FitsLine(l.rest))
  }

  /* -------- the parser over lexemes -------- */

  function Toks(s: string, i: nat): seq<Tok>
    requires Line(s) && i <= |s|
  {
    Strip(Lexed(s, i))
  }

  lemma ToksStep(s: string, i: nat)
    requires Line(s) && i <= |s|
    ensures var t := TokenAt(s, i);
            Toks(s, i) == if t.kind == '\0' then [] else [TokOf(Lexeme(t.kind, t.span))] + Toks(s, t.next)
  {
    hide TokenAt;
    var t := TokenAt(s, i);
    if t.kind != '\0' {
      assert Lexed(s, i)[1..] == Lexed(s, t.next);
    }
  }

  lemma ToksSkip(s: string, i: nat)
    requires Line(s) && i <= |s|
    ensures Toks(s, Skip(s, i)) == Toks(s, i) && TokenAt(s, Skip(s, i)) == TokenAt(s, i)
  {
    hide TokenAt, Toks;
    SameToken(s, i);
    ToksStep(s, i);
    ToksStep(s, Skip(s, i));
  }

  lemma SameToken(s: string, i: nat)
    requires Line(s) && i <= |s|
    ensures TokenAt(s, Skip(s, i)) == TokenAt(s, i)
  {
    SkipTwice(s, i);
  }

  /** The first token is one of these symbols. */
  predicate Heads(ts: seq<Tok>, kinds: string) {
    ts != [] && ts[0].Sym? && ts[0].kind in kinds
  }

  lemma PeekIs(s: string, i: nat, toks: string)
    requires Line(s) && i <= |s| && forall c | c in toks :: IsSymbol(c) && c != '>'
    ensures Peek(s, i, toks) <==> Heads(Toks(s, i), toks)
  {
    ToksStep(s, i);
  }

  lemma PeekRedir(s: string, i: nat)
    requires Line(s) && i <= |s|
    ensures Peek(s, i, "<>") <==> Heads(Toks(s, i), "<>+")
  {
    ToksStep(s, i);
  }

  /** Past the first token. */
  lemma NextToks(s: string, i: nat)
    requires Line(s) && i <= |s| && Toks(s, i) != []
    ensures var t := TokenAt(s, i);
            && t.kind != '\0' && t == TokenAt(s, Skip(s, i)) && t.next > i
            && Toks(s, i)[0] == TokOf(Lexeme(t.kind, t.span)) && Toks(s, i)[1..] == Toks(s, t.next)
  {
    hide TokenAt, Toks;
    ToksStep(s, i);
    ToksSkip(s, i);
    TokenLexeme(s, i);
  }

  lemma NoToks(s: string, i: nat)
    requires Line(s) && i <= |s|
    ensures Toks(s, i) == [] <==> Skip(s, i) == |s|
    ensures Toks(s, i) == [] <==> TokenAt(s, i).kind == '\0'
  {
    ToksStep(s, i);
  }

  /* -------- redirections -------- */

  lemma {:induction false} WrapIs(c: Cmd<Span>, rs: seq<Redirect>)
    ensures Wrap(c, rs) == Redirected(c, rs)
    decreases |rs|
  {
    if rs != [] {
      var some, last := rs[..|rs| - 1], rs[|rs| - 1];
      WrapIs(c, some);
      WrapTwice(c, some, [last]);
      assert some + [last] == rs;
      assert Wrap(Wrap(c, some), [last]) == Redir(Wrap(c, some), last.file, last.mode) by {
        assert [last][1..] == [];
      }
    }
  }

  /** The redirections at i, as parseredirs takes them one by one. */
  lemma RedirsStep(s: string, i: nat)
    requires Line(s) && i <= |s|
    ensures var ts := Toks(s, i);
            Redirs(s, i) ==
            if !Heads(ts, "<>+") then Got([], Skip(s, i))
            else var t := TokenAt(s, i); var f := TokenAt(s, t.next);
                 if f.kind != 'a' || Redirs(s, f.next).Fail? then Fail
                 else Got([Redirect(f.span, ModeOf(t.kind))] + Redirs(s, f.next).value, Redirs(s, f.next).next)
  {
    hide TokenAt, Toks, Heads;
    PeekRedir(s, i);
    SameToken(s, i);
  }

  lemma {:induction false} RedirsComplete(s: string, i: nat, rs: seq<Redirect>, rest: seq<Tok>)
    requires Line(s) && i <= |s| && Toks(s, i) == FlatRedirs(rs) + rest && !Heads(rest, "<>+")
    ensures var r := Redirs(s, i); r.Got? && r.value == rs && Toks(s, r.next) == rest
    decreases |rs|
  {
    hide TokenAt, Toks, Redirs, Skip;
    RedirsStep(s, i);
    ToksSkip(s, i);
    if rs != [] {
      var ts, tail := Toks(s, i), FlatRedirs(rs[1..]) + rest;
      assert ts == [Sym(Op(rs[0].mode)), Word(rs[0].file)] + tail;
      NextToks(s, i);
      var t := TokenAt(s, i);
      assert ts[1..] == [Word(rs[0].file)] + tail && ts[1..][1..] == tail;
      NextToks(s, t.next);
      RedirsComplete(s, TokenAt(s, t.next).next, rs[1..], rest);
      assert rs == [rs[0]] + rs[1..];
    } else {
      assert FlatRedirs(rs) + rest == rest;
    }
  }

  lemma {:induction false} RedirsSound(s: string, i: nat)
    requires Line(s) && i <= |s| && Redirs(s, i).Got?
    ensures Toks(s, i) == FlatRedirs(Redirs(s, i).value) + Toks(s, Redirs(s, i).next)
    ensures !Heads(Toks(s, Redirs(s, i).next), "<>+")
    decreases |s| - i
  {
    hide TokenAt, Toks, Redirs, Skip;
    RedirsStep(s, i);
    ToksSkip(s, i);
    if Heads(Toks(s, i), "<>+") {
      NextToks(s, i);
      var t := TokenAt(s, i);
      var f := TokenAt(s, t.next);
      NoToks(s, t.next);
      NextToks(s, t.next);
      var r := Redirs(s, f.next);
      RedirsSound(s, f.next);
      var rs := [Redirect(f.span, ModeOf(t.kind))] + r.value;
      assert rs[1..] == r.value;
      assert Toks(s, i) == [Toks(s, i)[0]] + ([Toks(s, t.next)[0]] + Toks(s, f.next));
    }
  }

  /* -------- words -------- */

  lemma ArgsStepIs(s: string, i: nat, argv: seq<Span>, redirs: seq<Redirect>)
    requires Line(s) && i <= |s|
    ensures var ts, t := Toks(s, i), TokenAt(s, i);
            Args(s, i, argv, redirs) ==
            if Heads(ts, "|)&;") then Got(Wrap(Exec(argv), redirs), Skip(s, i))
            else if ts == [] then Got(Wrap(Exec(argv), redirs), t.next)
            else if !ts[0].Word? || |argv| + 1 >= MAXARGS || Redirs(s, t.next).Fail? then Fail
            else Args(s, Redirs(s, t.next).next, argv + [ts[0].span], redirs + Redirs(s, t.next).value)
  {
    hide TokenAt, Toks, Redirs, Skip, Wrap, Args, Peek;
    ArgsUnfold(s, i, argv, redirs);
    PeekIs(s, i, "|)&;");
    SameToken(s, i);
    NoToks(s, i);
    if Toks(s, i) != [] {
      NextToks(s, i);
    }
  }

  lemma EndToks(s: string, i: nat)
    requires Line(s) && i <= |s| && Toks(s, i) == []
    ensures Toks(s, TokenAt(s, i).next) == []
  {
    NoToks(s, i);
    NoToks(s, TokenAt(s, i).next);
  }

  lemma HeadsApart(ts: seq<Tok>)
    ensures ts != [] && ts[0].Word? ==> !Heads(ts, "|)&;") && !Heads(ts, "(") && !Heads(ts, "<>+")
  {
  }

  lemma FlatSplit(args: seq<Arg>, rest: seq<Tok>)
    requires args != [] && (rest == [] || Heads(rest, "|)&;"))
    ensures var tail := FlatArgs(args[1..]) + rest;
            && FlatArgs(args) + rest == [Word(args[0].word)] + (FlatRedirs(args[0].redirs) + tail)
            && !Heads(tail, "<>+")
  {
  }

  lemma Regrouped(args: seq<Arg>, argv: seq<Span>, redirs: seq<Redirect>)
    requires args != []
    ensures argv + [args[0].word] + ArgWords(args[1..]) == argv + ArgWords(args)
    ensures redirs + args[0].redirs + ArgRedirs(args[1..]) == redirs + ArgRedirs(args)
  {
  }

  lemma {:induction false} ArgsComplete(s: string, i: nat, args: seq<Arg>, rest: seq<Tok>, argv: seq<Span>,
                                        redirs: seq<Redirect>)
    requires Line(s) && i <= |s| && Toks(s, i) == FlatArgs(args) + rest && (rest == [] || Heads(rest, "|)&;"))
    requires |argv| + |args| < MAXARGS
    ensures var r := Args(s, i, argv, redirs);
            && r.Got? && r.value == Wrap(Exec(argv + ArgWords(args)), redirs + ArgRedirs(args))
            && Toks(s, r.next) == rest
    decreases |args|
  {
    hide TokenAt, Toks, Redirs, Skip, Wrap, Args, FlatRedirs, Heads;
    ArgsStepIs(s, i, argv, redirs);
    ToksSkip(s, i);
    HeadsApart(Toks(s, i));
    if args == [] {
      assert FlatArgs(args) + rest == rest && argv + [] == argv && redirs + [] == redirs;
      if rest == [] {
        EndToks(s, i);
      }
    } else {
      var ts, x, tail := Toks(s, i), args[0], FlatArgs(args[1..]) + rest;
      FlatSplit(args, rest);
      NextToks(s, i);
      var t := TokenAt(s, i);
      RedirsComplete(s, t.next, x.redirs, tail);
      var r := Redirs(s, t.next);
      ArgsComplete(s, r.next, args[1..], rest, argv + [x.word], redirs + x.redirs);
      Regrouped(args, argv, redirs);
    }
  }

  lemma {:induction false} ArgsSound(s: string, i: nat, argv: seq<Span>, redirs: seq<Redirect>)
    returns (args: seq<Arg>)
    requires Line(s) && i <= |s| && Args(s, i, argv, redirs).Got? && |argv| < MAXARGS
    ensures |argv| + |args| < MAXARGS
    ensures var r := Args(s, i, argv, redirs);
            && Toks(s, i) == FlatArgs(args) + Toks(s, r.next)
            && r.value == Wrap(Exec(argv + ArgWords(args)), redirs + ArgRedirs(args))
    decreases |s| - i
  {
    hide TokenAt, Toks, Redirs, Skip, Wrap, Args;
    ArgsStepIs(s, i, argv, redirs);
    ToksSkip(s, i);
    var ts, t := Toks(s, i), TokenAt(s, i);
    if Heads(ts, "|)&;") || ts == [] {
      args := [];
      assert argv + [] == argv && redirs + [] == redirs;
      if ts == [] {
        EndToks(s, i);
      }
    } else {
      NextToks(s, i);
      RedirsSound(s, t.next);
      var r := Redirs(s, t.next);
      var more := ArgsSound(s, r.next, argv + [t.span], redirs + r.value);
      args := [Arg(t.span, r.value)] + more;
      assert args[1..] == more;
      Regrouped(args, argv, redirs);
      assert ts == [ts[0]] + Toks(s, t.next);
    }
  }

  /* -------- commands -------- */

  lemma ExecIs(s: string, i: nat)
    requires Line(s) && i <= |s|
    ensures ExecAt(s, i) ==
            if Heads(Toks(s, i), "(") then Block(s, i)
            else var r := Redirs(s, i); if r.Fail? then Fail else Args(s, r.next, [], r.value)
  {
    hide TokenAt, Toks, Args, LineAt, Redirs, Wrap, Redirected;
    PeekIs(s, i, "(");
    RedirsSkip(s, i);
    if Heads(Toks(s, i), "(") {
      SameToken(s, i);
      var inner := LineAt(s, TokenAt(s, i).next);
      if inner.Got? {
        PeekIs(s, inner.next, ")");
        SameToken(s, inner.next);
        var r := Redirs(s, TokenAt(s, inner.next).next);
        if r.Got? {
          WrapIs(inner.value, r.value);
        }
      }
    }
  }

  lemma RedirsSkip(s: string, i: nat)
    requires Line(s) && i <= |s|
    ensures Redirs(s, Skip(s, i)) == Redirs(s, i)
  {
    hide TokenAt, Toks, Redirs, Skip;
    RedirsStep(s, i);
    RedirsStep(s, Skip(s, i));
    ToksSkip(s, i);
    SkipTwice(s, i);
  }

  /** parseblock, with the blanks before the "(". */
  function Block(s: string, i: nat): Result<Cmd<Span>>
    requires Line(s) && i <= |s|
  {
    var inner := LineAt(s, TokenAt(s, i).next);
    if inner.Fail? || !Heads(Toks(s, inner.next), ")") then Fail else
    var r := Redirs(s, TokenAt(s, inner.next).next);
    if r.Fail? then Fail else Got(Redirected(inner.value, r.value), r.next)
  }

  lemma PipeIs(s: string, i: nat)
    requires Line(s) && i <= |s|
    ensures var left := ExecAt(s, i);
            PipeAt(s, i) ==
            if left.Fail? then Fail
            else if !Heads(Toks(s, left.next), "|") then Got(left.value, Skip(s, left.next))
            else var right := PipeAt(s, TokenAt(s, left.next).next);
                 if right.Fail? then Fail else Got(Pipe(left.value, right.value), right.next)
  {
    hide TokenAt, Toks, ExecAt, Skip;
    var left := ExecAt(s, i);
    if left.Got? {
      PeekIs(s, left.next, "|");
      SameToken(s, left.next);
    }
  }

  lemma BacksIs(s: string, i: nat, cmd: Cmd<Span>)
    requires Line(s) && i <= |s|
    ensures Backs(s, i, cmd) ==
            if Heads(Toks(s, i), "&") then Backs(s, TokenAt(s, i).next, Back(cmd)) else (cmd, Skip(s, i))
  {
    hide TokenAt, Toks, Skip;
    PeekIs(s, i, "&");
    SameToken(s, i);
  }

  lemma LineIs(s: string, i: nat)
    requires Line(s) && i <= |s|
    ensures var first := PipeAt(s, i);
            LineAt(s, i) ==
            if first.Fail? then Fail
            else var (cmd, p) := Backs(s, first.next, first.value);
                 if !Heads(Toks(s, p), ";") then Got(cmd, p)
                 else var rest := LineAt(s, TokenAt(s, p).next);
                      if rest.Fail? then Fail else Got(List(cmd, rest.value), rest.next)
  {
    hide TokenAt, Toks, PipeAt, Backs, Skip;
    var first := PipeAt(s, i);
    if first.Got? {
      PeekIs(s, Backs(s, first.next, first.value).1, ";");
    }
  }

  lemma {:induction false} BackedIn(cmd: Cmd<Span>, n: nat)
    ensures Backed(Back(cmd), n) == Backed(cmd, n + 1)
  {
    if n > 0 {
      BackedIn(cmd, n - 1);
    }
  }

  lemma {:induction false} BacksComplete(s: string, i: nat, n: nat, rest: seq<Tok>, cmd: Cmd<Span>)
    requires Line(s) && i <= |s| && Toks(s, i) == Ands(n) + rest && !Heads(rest, "&")
    ensures var (c, p) := Backs(s, i, cmd); c == Backed(cmd, n) && Toks(s, p) == rest
    decreases n
  {
    hide TokenAt, Toks, Backs, Skip;
    BacksIs(s, i, cmd);
    ToksSkip(s, i);
    if n > 0 {
      assert Toks(s, i) == [Sym('&')] + (Ands(n - 1) + rest);
      NextToks(s, i);
      BacksComplete(s, TokenAt(s, i).next, n - 1, rest, Back(cmd));
      BackedIn(cmd, n - 1);
    } else {
      assert Ands(n) + rest == rest;
    }
  }

  lemma {:induction false} BacksSound(s: string, i: nat, cmd: Cmd<Span>) returns (n: nat)
    requires Line(s) && i <= |s|
    ensures var (c, p) := Backs(s, i, cmd); c == Backed(cmd, n) && Toks(s, i) == Ands(n) + Toks(s, p)
    decreases |s| - i
  {
    hide TokenAt, Toks, Backs, Skip;
    BacksIs(s, i, cmd);
    ToksSkip(s, i);
    if Heads(Toks(s, i), "&") {
      NextToks(s, i);
      var m := BacksSound(s, TokenAt(s, i).next, Back(cmd));
      n := m + 1;
      BackedIn(cmd, m);
      assert Toks(s, i) == [Sym('&')] + Toks(s, TokenAt(s, i).next);
    } else {
      n := 0;
    }
  }

  /** What may follow a command, a pipeline and a line. */
  predicate Follows(rest: seq<Tok>, kinds: string) {
    rest == [] || Heads(rest, kinds)
  }

  lemma NotRedir(rest: seq<Tok>)
    requires Follows(rest, "|)&;")
    ensures !Heads(rest, "<>+")
  {
  }

  lemma WordsSplit(pre: seq<Redirect>, args: seq<Arg>, rest: seq<Tok>)
    requires Follows(rest, "|)&;")
    ensures var ts := FlatExec(SWords(pre, args)) + rest;
            && ts == FlatRedirs(pre) + (FlatArgs(args) + rest) && !Heads(ts, "(")
            && !Heads(FlatArgs(args) + rest, "<>+")
  {
  }

  lemma {:induction false} ExecComplete(s: string, i: nat, e: SExec, rest: seq<Tok>)
    requires Line(s) && i <= |s| && Toks(s, i) == FlatExec(e) + rest && FitsExec(e) && Follows(rest, "|)&;")
    ensures var r := ExecAt(s, i); r.Got? && r.value == TreeExec(e) && Toks(s, r.next) == rest
    decreases e
  {
    hide TokenAt, Toks, ExecAt, Redirs, Args, LineAt, Wrap, Redirected;
    ExecIs(s, i);
    match e
    case SWords(pre, args) =>
      WordsSplit(pre, args, rest);
      RedirsComplete(s, i, pre, FlatArgs(args) + rest);
      ArgsComplete(s, Redirs(s, i).next, args, rest, [], pre);
      assert [] + ArgWords(args) == ArgWords(args);
      WrapIs(Exec(ArgWords(args)), pre + ArgRedirs(args));
    case SBlock(line, redirs) =>
      var after := [Sym(')')] + (FlatRedirs(redirs) + rest);
      assert Toks(s, i) == [Sym('(')] + (FlatLine(line) + after);
      NextToks(s, i);
      LineComplete(s, TokenAt(s, i).next, line, after);
      var k := LineAt(s, TokenAt(s, i).next).next;
      NextToks(s, k);
      NotRedir(rest);
      RedirsComplete(s, TokenAt(s, k).next, redirs, rest);
  }

  lemma {:induction false} PipeComplete(s: string, i: nat, p: SPipe, rest: seq<Tok>)
    requires Line(s) && i <= |s| && Toks(s, i) == FlatPipe(p) + rest && FitsPipe(p) && Follows(rest, ")&;")
    ensures var r := PipeAt(s, i); r.Got? && r.value == TreePipe(p) && Toks(s, r.next) == rest
    decreases p
  {
    hide TokenAt, Toks, ExecAt, PipeAt, Skip, FlatExec;
    PipeIs(s, i);
    match p
    case SOne(exec) =>
      ExecComplete(s, i, exec, rest);
      ToksSkip(s, ExecAt(s, i).next);
    case SBar(exec, more) =>
      var after := [Sym('|')] + (FlatPipe(more) + rest);
      assert Toks(s, i) == FlatExec(exec) + after;
      ExecComplete(s, i, exec, after);
      var k := ExecAt(s, i).next;
      NextToks(s, k);
      PipeComplete(s, TokenAt(s, k).next, more, rest);
  }

  lemma {:induction false} AndsFollow(n: nat, rest: seq<Tok>)
    requires Follows(rest, ");")
    ensures Follows(Ands(n) + rest, ")&;") && !Heads(rest, "&")
  {
    if n == 0 {
      assert Ands(n) + rest == rest;
    }
  }

  lemma {:induction false} LineComplete(s: string, i: nat, l: SLine, rest: seq<Tok>)
    requires Line(s) && i <= |s| && Toks(s, i) == FlatLine(l) + rest && FitsLine(l) && Follows(rest, ")")
    ensures var r := LineAt(s, i); r.Got? && r.value == TreeLine(l) && Toks(s, r.next) == rest
    decreases l
  {
    hide TokenAt, Toks, PipeAt, LineAt, Backs, Skip, FlatPipe, Ands;
    LineIs(s, i);
    var after := if l.SLast? then rest else [Sym(';')] + (FlatLine(l.rest) + rest);
    assert Toks(s, i) == FlatPipe(l.pipe) + (Ands(l.backs) + after);
    AndsFollow(l.backs, after);
    PipeComplete(s, i, l.pipe, Ands(l.backs) + after);
    var first := PipeAt(s, i);
    BacksComplete(s, first.next, l.backs, after, first.value);
    if l.SMore? {
      var p := Backs(s, first.next, first.value).1;
      NextToks(s, p);
      LineComplete(s, TokenAt(s, p).next, l.rest, rest);
    }
  }

  lemma WordsSound(s: string, i: nat) returns (e: SExec)
    requires Line(s) && i <= |s| && ExecAt(s, i).Got? && !Heads(Toks(s, i), "(")
    ensures FitsExec(e) && TreeExec(e) == ExecAt(s, i).value
    ensures Toks(s, i) == FlatExec(e) + Toks(s, ExecAt(s, i).next)
  {
    hide TokenAt, Toks, ExecAt, Redirs, Args, Wrap, Redirected, FlatRedirs, FlatArgs;
    ExecIs(s, i);
    RedirsSound(s, i);
    var r := Redirs(s, i);
    var args := ArgsSound(s, r.next, [], r.value);
    e := SWords(r.value, args);
    assert [] + ArgWords(args) == ArgWords(args);
    WrapIs(Exec(ArgWords(args)), r.value + ArgRedirs(args));
  }

  lemma BlockSound(s: string, i: nat, line: SLine) returns (e: SExec)
    requires Line(s) && i <= |s| && ExecAt(s, i).Got? && Heads(Toks(s, i), "(")
    requires var r := LineAt(s, TokenAt(s, i).next);
             && r.Got? && FitsLine(line) && TreeLine(line) == r.value
             && Toks(s, TokenAt(s, i).next) == FlatLine(line) + Toks(s, r.next)
    ensures FitsExec(e) && TreeExec(e) == ExecAt(s, i).value
    ensures Toks(s, i) == FlatExec(e) + Toks(s, ExecAt(s, i).next)
  {
    hide TokenAt, Toks, ExecAt, Redirs, LineAt, Wrap, Redirected, FlatRedirs, FlatLine, TreeLine;
    ExecIs(s, i);
    NextToks(s, i);
    var j := TokenAt(s, i).next;
    var k := LineAt(s, j).next;
    NextToks(s, k);
    RedirsSound(s, TokenAt(s, k).next);
    var r := Redirs(s, TokenAt(s, k).next);
    e := SBlock(line, r.value);
    assert Toks(s, i) == [Sym('(')] + Toks(s, j) && Toks(s, k) == [Sym(')')] + Toks(s, TokenAt(s, k).next);
  }

  lemma {:induction false} ExecSound(s: string, i: nat) returns (e: SExec)
    requires Line(s) && i <= |s| && ExecAt(s, i).Got?
    ensures FitsExec(e) && TreeExec(e) == ExecAt(s, i).value
    ensures Toks(s, i) == FlatExec(e) + Toks(s, ExecAt(s, i).next)
    decreases |s| - i, 1
  {
    hide TokenAt, Toks, ExecAt, Redirs, Args, LineAt, Wrap, Redirected;
    ExecIs(s, i);
    if Heads(Toks(s, i), "(") {
      NextToks(s, i);
      var t := TokenAt(s, i);
      var line := LineSound(s, t.next);
      e := BlockSound(s, i, line);
    } else {
      e := WordsSound(s, i);
    }
  }

  lemma {:induction false} PipeSound(s: string, i: nat) returns (p: SPipe)
    requires Line(s) && i <= |s| && PipeAt(s, i).Got?
    ensures FitsPipe(p) && TreePipe(p) == PipeAt(s, i).value
    ensures Toks(s, i) == FlatPipe(p) + Toks(s, PipeAt(s, i).next)
    decreases |s| - i, 2
  {
    hide TokenAt, Toks, ExecAt, PipeAt, Skip, FlatExec;
    PipeIs(s, i);
    var exec := ExecSound(s, i);
    var k := ExecAt(s, i).next;
    ToksSkip(s, k);
    if Heads(Toks(s, k), "|") {
      NextToks(s, k);
      var more := PipeSound(s, TokenAt(s, k).next);
      p := SBar(exec, more);
      assert Toks(s, k) == [Sym('|')] + Toks(s, TokenAt(s, k).next);
    } else {
      p := SOne(exec);
    }
  }

  lemma {:induction false} LineSound(s: string, i: nat) returns (l: SLine)
    requires Line(s) && i <= |s| && LineAt(s, i).Got?
    ensures FitsLine(l) && TreeLine(l) == LineAt(s, i).value
    ensures Toks(s, i) == FlatLine(l) + Toks(s, LineAt(s, i).next)
    decreases |s| - i, 3
  {
    hide TokenAt, Toks, PipeAt, LineAt, Backs, Skip, FlatPipe, Ands;
    LineIs(s, i);
    var pipe := PipeSound(s, i);
    var first := PipeAt(s, i);
    var n := BacksSound(s, first.next, first.value);
    var p := Backs(s, first.next, first.value).1;
    if Heads(Toks(s, p), ";") {
      NextToks(s, p);
      var rest := LineSound(s, TokenAt(s, p).next);
      l := SMore(pipe, n, rest);
      assert Toks(s, p) == [Sym(';')] + Toks(s, TokenAt(s, p).next);
    } else {
      l := SLast(pipe, n);
    }
  }

  /* -------- the parser -------- */

  /** The derivation spells these lexemes and means this command. */
  ghost predicate Derives(xs: seq<Lexeme>, l: SLine, c: Cmd<Span>) {
    FitsLine(l) && FlatLine(l) == Strip(xs) && TreeLine(l) == c
  }

  lemma ToksAre(s: string)
    requires Line(s)
    ensures Toks(s, 0) == Strip(Lexed(s, 0))
  {
  }

  /** A line parses to a command if and only if its lexemes are derived so: nothing of the line
      is lost, and whatever has no derivation fails. */
  lemma ParseIff(s: string, xs: seq<Lexeme>, c: Cmd<Span>)
    requires Line(s) && Lexing(s, 0, xs)
    ensures Parse(s) == Got(c, |s|) <==> exists l :: Derives(xs, l, c)
  {
    hide LineAt, Toks, Skip, Lexing;
    LexedIs(s, 0);
    LexingUnique(s, 0, xs, Lexed(s, 0));
    ToksAre(s);
    if Parse(s) == Got(c, |s|) {
      var l := LineSound(s, 0);
      NoToks(s, LineAt(s, 0).next);
      assert FlatLine(l) + [] == FlatLine(l);
      assert Derives(xs, l, c);
    }
    if l :| Derives(xs, l, c) {
      assert FlatLine(l) + [] == FlatLine(l);
      LineComplete(s, 0, l, []);
      NoToks(s, LineAt(s, 0).next);
    }
  }

  /** And it fails if and only if they have no derivation. */
  lemma FailIff(s: string, xs: seq<Lexeme>)
    requires Line(s) && Lexing(s, 0, xs)
    ensures Parse(s).Fail? <==> forall l :: !Derives(xs, l, TreeLine(l))
  {
    hide LineAt, Skip, Lexing, TreeLine, FlatLine, FitsLine;
    if Parse(s).Got? {
      var c := Parse(s).value;
      ParseIff(s, xs, c);
      var l :| Derives(xs, l, c);
      assert Derives(xs, l, TreeLine(l));
    } else {
      forall l ensures !Derives(xs, l, TreeLine(l)) {
        ParseIff(s, xs, TreeLine(l));
      }
    }
  }
}
