/** The shell's parser (user/sh.c).

    The functions say what each routine does from position i of the line: the command
    it builds, whose words are spans of the line, and the position it leaves; a panic
    is Fail.  The methods are the routines themselves. */
module Shell {
  const MAXARGS: nat := 10

  datatype Mode = In | Out | Append

  datatype Cmd<T> =
    | Exec(argv: seq<T>)
    | Redir(cmd: Cmd<T>, file: T, mode: Mode)
    | Pipe(left: Cmd<T>, right: Cmd<T>)
    | List(left: Cmd<T>, right: Cmd<T>)
    | Back(cmd: Cmd<T>)

  /** The pointers q and eq of a token. */
  datatype Span = Span(q: nat, eq: nat)

  datatype Token = Token(kind: char, span: Span, next: nat)

  datatype Result<T> = Fail | Got(value: T, next: nat)

  datatype Redirect = Redirect(file: Span, mode: Mode)

  predicate IsSpace(c: char) { c == ' ' || c == '\t' || c == '\r' || c == '\n' || c == 11 as char }

  predicate IsSymbol(c: char) { c == '<' || c == '|' || c == '>' || c == '&' || c == ';' || c == '(' || c == ')' }

  predicate IsWord(c: char) { !IsSpace(c) && !IsSymbol(c) && c != '\0' }

  /** A C string. */
  predicate Line(s: string) { forall i | 0 <= i < |s| :: s[i] != '\0' }

  function Skip(s: string, i: nat): (j: nat)
    requires i <= |s|
    ensures i <= j <= |s| && (j < |s| ==> !IsSpace(s[j]))
    decreases |s| - i
  {
    if i < |s| && IsSpace(s[i]) then Skip(s, i + 1) else i
  }

  function WordEnd(s: string, i: nat): (j: nat)
    requires i <= |s|
    ensures i <= j <= |s| && (j < |s| ==> IsSpace(s[j]) || IsSymbol(s[j]))
    ensures forall k | i <= k < j :: !IsSpace(s[k]) && !IsSymbol(s[k])
    decreases |s| - i
  {
    if i < |s| && !IsSpace(s[i]) && !IsSymbol(s[i]) then WordEnd(s, i + 1) else i
  }

  /** gettoken: '\0' at the end, the symbol itself, '+' for ">>" and 'a' for a word. */
  function TokenAt(s: string, i: nat): (t: Token)
    requires Line(s) && i <= |s|
    ensures i <= t.span.q <= t.span.eq <= t.next <= |s|
    ensures t.kind != '\0' ==> t.span.q < t.span.eq
  {
    var q := Skip(s, i);
    if q == |s| then Token('\0', Span(q, q), q)
    else if s[q] == '>' then
      var eq := if q + 1 < |s| && s[q + 1] == '>' then q + 2 else q + 1;
      Token(if eq == q + 2 then '+' else '>', Span(q, eq), Skip(s, eq))
    else if IsSymbol(s[q]) then Token(s[q], Span(q, q + 1), Skip(s, q + 1))
    else Token('a', Span(q, WordEnd(s, q)), Skip(s, WordEnd(s, q)))
  }

  /** The test of peek; the position it leaves is Skip(s, i). */
  predicate Peek(s: string, i: nat, toks: string)
    requires i <= |s|
  {
    var j := Skip(s, i);
    j < |s| && s[j] in toks
  }

  function ModeOf(kind: char): Mode {
    if kind == '<' then In else if kind == '>' then Out else Append
  }

  function Redirs(s: string, i: nat): (r: Result<seq<Redirect>>)
    requires Line(s) && i <= |s|
    ensures r.Got? ==> i <= r.next <= |s|
    decreases |s| - i
  {
    if !Peek(s, i, "<>") then Got([], Skip(s, i)) else
    var t := TokenAt(s, Skip(s, i));
    var f := TokenAt(s, t.next);
    if f.kind != 'a' then Fail else
    var r := Redirs(s, f.next);
    if r.Fail? then Fail else Got([Redirect(f.span, ModeOf(t.kind))] + r.value, r.next)
  }

  /** The first redirection is innermost. */
  function Wrap(cmd: Cmd<Span>, redirs: seq<Redirect>): Cmd<Span>
    decreases |redirs|
  {
    if redirs == [] then cmd else Wrap(Redir(cmd, redirs[0].file, redirs[0].mode), redirs[1..])
  }

  /** parseexec's loop, when it has these arguments and redirections already. */
  function Args(s: string, i: nat, argv: seq<Span>, redirs: seq<Redirect>): (r: Result<Cmd<Span>>)
    requires Line(s) && i <= |s|
    ensures r.Got? ==> i <= r.next <= |s|
    decreases |s| - i
  {
    var p := Skip(s, i);
    if Peek(s, i, "|)&;") then Got(Wrap(Exec(argv), redirs), p) else
    var t := TokenAt(s, p);
    if t.kind == '\0' then Got(Wrap(Exec(argv), redirs), t.next)
    else if t.kind != 'a' || |argv| + 1 >= MAXARGS then Fail else
    var r := Redirs(s, t.next);
    if r.Fail? then Fail else Args(s, r.next, argv + [t.span], redirs + r.value)
  }

  function ExecAt(s: string, i: nat): (r: Result<Cmd<Span>>)
    requires Line(s) && i <= |s|
    ensures r.Got? ==> i <= r.next <= |s|
    decreases |s| - i, 1
  {
    if Peek(s, i, "(") then BlockAt(s, Skip(s, i)) else
    var r := Redirs(s, Skip(s, i));
    if r.Fail? then Fail else Args(s, r.next, [], r.value)
  }

  /** parseblock, at a "(". */
  function BlockAt(s: string, i: nat): (r: Result<Cmd<Span>>)
    requires Line(s) && i < |s| && s[i] == '('
    ensures r.Got? ==> i <= r.next <= |s|
    decreases |s| - i, 0
  {
    var inner := LineAt(s, TokenAt(s, i).next);
    if inner.Fail? || !Peek(s, inner.next, ")") then Fail else
    var r := Redirs(s, TokenAt(s, Skip(s, inner.next)).next);
    if r.Fail? then Fail else Got(Wrap(inner.value, r.value), r.next)
  }

  function PipeAt(s: string, i: nat): (r: Result<Cmd<Span>>)
    requires Line(s) && i <= |s|
    ensures r.Got? ==> i <= r.next <= |s|
    decreases |s| - i, 2
  {
    var left := ExecAt(s, i);
    if left.Fail? then Fail
    else if !Peek(s, left.next, "|") then Got(left.value, Skip(s, left.next)) else
    var right := PipeAt(s, TokenAt(s, Skip(s, left.next)).next);
    if right.Fail? then Fail else Got(Pipe(left.value, right.value), right.next)
  }

  /** parseline's loop over "&". */
  function Backs(s: string, i: nat, cmd: Cmd<Span>): (r: (Cmd<Span>, nat))
    requires Line(s) && i <= |s|
    ensures i <= r.1 <= |s|
    decreases |s| - i
  {
    if Peek(s, i, "&") then Backs(s, TokenAt(s, Skip(s, i)).next, Back(cmd)) else (cmd, Skip(s, i))
  }

  function LineAt(s: string, i: nat): (r: Result<Cmd<Span>>)
    requires Line(s) && i <= |s|
    ensures r.Got? ==> i <= r.next <= |s|
    decreases |s| - i, 3
  {
    var first := PipeAt(s, i);
    if first.Fail? then Fail else
    var (cmd, p) := Backs(s, first.next, first.value);
    if !Peek(s, p, ";") then Got(cmd, p) else
    var rest := LineAt(s, TokenAt(s, p).next);
    if rest.Fail? then Fail else Got(List(cmd, rest.value), rest.next)
  }

  /** parsecmd, before nulterminate. */
  function Parse(s: string): Result<Cmd<Span>>
    requires Line(s)
  {
    var r := LineAt(s, 0);
    if r.Fail? || Skip(s, r.next) != |s| then Fail else Got(r.value, |s|)
  }

  function Text(s: string, w: Span): string {
    if w.q <= w.eq <= |s| then s[w.q..w.eq] else ""
  }

  function Texts(s: string, argv: seq<Span>): seq<string> {
    seq(|argv|, k requires 0 <= k < |argv| => Text(s, argv[k]))
  }

  /** A command with its words spelled out. */
  function Words(s: string, c: Cmd<Span>): Cmd<string> {
    match c
    case Exec(argv) => Exec(Texts(s, argv))
    case Redir(cmd, file, mode) => Redir(Words(s, cmd), Text(s, file), mode)
    case Pipe(left, right) => Pipe(Words(s, left), Words(s, right))
    case List(left, right) => List(Words(s, left), Words(s, right))
    case Back(cmd) => Back(Words(s, cmd))
  }

  predicate GoodWord(w: string) {
    |w| > 0 && forall k | 0 <= k < |w| :: IsWord(w[k])
  }

  /** The commands that a line can spell. */
  predicate Printable(c: Cmd<string>) {
    match c
    case Exec(argv) => |argv| < MAXARGS && forall k | 0 <= k < |argv| :: GoodWord(argv[k])
    case Redir(cmd, file, _) => Printable(cmd) && GoodWord(file)
    case Pipe(left, right) => Printable(left) && Printable(right)
    case List(left, right) => Printable(left) && Printable(right)
    case Back(cmd) => Printable(cmd)
  }

  function Join(argv: seq<string>): string {
    if argv == [] then "" else if |argv| == 1 then argv[0] else argv[0] + " " + Join(argv[1..])
  }

  function Operator(mode: Mode): string {
    match mode case In => "<" case Out => ">" case Append => ">>"
  }

  /** A command with every part in parentheses. */
  function Print(c: Cmd<string>): string {
    match c
    case Exec(argv) => Join(argv)
    case Redir(cmd, file, mode) => "(" + Print(cmd) + ")" + Operator(mode) + file
    case Pipe(left, right) => "(" + Print(left) + ")|(" + Print(right) + ")"
    case List(left, right) => "(" + Print(left) + ");(" + Print(right) + ")"
    case Back(cmd) => "(" + Print(cmd) + ")&"
  }

  lemma {:induction false} WordEndAt(s: string, i: nat, w: string, post: string)
    requires i <= |s| && s[i..] == w + post && (forall k | 0 <= k < |w| :: IsWord(w[k]))
    requires post != "" ==> IsSpace(post[0]) || IsSymbol(post[0])
    ensures WordEnd(s, i) == i + |w|
    decreases |w|
  {
    if w == "" {
      assert i < |s| ==> s[i] == s[i..][0] == post[0];
    } else {
      assert s[i] == s[i..][0] == w[0];
      assert s[i + 1..] == s[i..][1..] == w[1..] + post;
      WordEndAt(s, i + 1, w[1..], post);
    }
  }

  /** A word is a token, up to a delimiter. */
  lemma WordToken(s: string, i: nat, w: string, post: string)
    requires Line(s) && i <= |s| && s[i..] == w + post && GoodWord(w)
    requires post != "" ==> IsSpace(post[0]) || IsSymbol(post[0])
    ensures i + |w| <= |s| && TokenAt(s, i) == Token('a', Span(i, i + |w|), Skip(s, i + |w|))
    ensures s[i] == w[0] && IsWord(s[i]) && Skip(s, i) == i && s[i + |w|..] == post && Text(s, Span(i, i + |w|)) == w
  {
    hide WordEnd;
    Slices(s, i, w, post);
    WordEndAt(s, i, w, post);
  }

  lemma Slices(s: string, i: nat, w: string, post: string)
    requires i <= |s| && s[i..] == w + post
    ensures i + |w| <= |s| && s[i + |w|..] == post && s[i..i + |w|] == w && (w != "" ==> i < |s| && s[i] == w[0])
  {
    assert |s[i..]| == |w| + |post|;
    assert s[i + |w|..] == s[i..][|w|..] == post;
    assert s[i..i + |w|] == s[i..][..|w|] == w;
    assert w != "" ==> s[i] == s[i..][0] == w[0];
  }

  /** A line, or the inside of a pair of parentheses, ends. */
  predicate Ends(post: string) { post == "" || post[0] == ')' }

  lemma {:induction false} ArgsParse(s: string, i: nat, ws: seq<string>, post: string, argv: seq<Span>)
    requires Line(s) && i <= |s| && s[i..] == Join(ws) + post && Ends(post)
    requires |argv| + |ws| < MAXARGS && forall k | 0 <= k < |ws| :: GoodWord(ws[k])
    ensures var r := Args(s, i, argv, []);
            && r.Got? && r.next == i + |Join(ws)| <= |s| && r.value.Exec?
            && Texts(s, r.value.argv) == Texts(s, argv) + ws
    decreases |ws|
  {
    hide Args, TokenAt, Skip, Redirs, Texts, IsWord, Text, Join, Ends;
    JoinSplit(ws, post);
    if ws == [] {
      ArgsEnd(s, i, post, argv);
    } else {
      var w, rest := ws[0], ws[1..];
      var tail := if rest == [] then post else " " + Join(rest) + post;
      TailEnds(rest, post);
      WordToken(s, i, w, tail);
      var j := if rest == [] then i + |w| else i + |w| + 1;
      AfterWord(s, i + |w|, rest, post);
      ArgsStep(s, i, argv, Span(i, i + |w|), j);
      ArgsParse(s, j, rest, post, argv + [Span(i, i + |w|)]);
      ArgsWords(s, argv, Span(i, i + |w|), w);
      Regroup(Texts(s, argv), ws);
    }
  }

  lemma TailEnds(rest: seq<string>, post: string)
    requires Ends(post)
    ensures var tail := if rest == [] then post else " " + Join(rest) + post;
            tail != "" ==> IsSpace(tail[0]) || IsSymbol(tail[0])
  {
  }

  lemma Regroup(done: seq<string>, ws: seq<string>)
    requires ws != []
    ensures done + [ws[0]] + ws[1..] == done + ws
  {
  }

  lemma JoinSplit(ws: seq<string>, post: string)
    ensures ws == [] ==> Join(ws) == "" && Join(ws) + post == post
    ensures ws != [] ==> && Join(ws) + post == ws[0] + (if ws[1..] == [] then post else " " + Join(ws[1..]) + post)
                         && |Join(ws)| == |ws[0]| + (if ws[1..] == [] then 0 else 1 + |Join(ws[1..])|)
                         && (ws[1..] == [] ==> Join(ws[1..]) == "")
  {
  }

  lemma ArgsEnd(s: string, i: nat, post: string, argv: seq<Span>)
    requires Line(s) && i <= |s| && s[i..] == post && Ends(post)
    ensures Args(s, i, argv, []) == Got(Exec(argv), i)
  {
    assert i < |s| ==> s[i] == s[i..][0] == post[0];
  }

  lemma ArgsStep(s: string, i: nat, argv: seq<Span>, w: Span, j: nat)
    requires Line(s) && i < |s| && IsWord(s[i]) && Skip(s, i) == i && |argv| + 1 < MAXARGS && w.eq <= |s|
    requires TokenAt(s, i) == Token('a', w, Skip(s, w.eq)) && Skip(s, w.eq) == j && Redirs(s, j) == Got([], j)
    ensures Args(s, i, argv, []) == Args(s, j, argv + [w], [])
  {
    hide TokenAt, Skip, Redirs, Wrap;
    assert !Peek(s, i, "|)&;");
    var none: seq<Redirect> := [];
    assert none + none == none;
  }

  lemma ArgsWords(s: string, argv: seq<Span>, w: Span, text: string)
    requires Text(s, w) == text
    ensures Texts(s, argv + [w]) == Texts(s, argv) + [text]
  {
  }

  lemma AfterWord(s: string, i: nat, rest: seq<string>, post: string)
    requires Line(s) && i <= |s| && s[i..] == (if rest == [] then post else " " + Join(rest) + post) && Ends(post)
    requires forall k | 0 <= k < |rest| :: GoodWord(rest[k])
    ensures var j := if rest == [] then i else i + 1;
            j <= |s| && Skip(s, i) == j && s[j..] == Join(rest) + post && Redirs(s, j) == Got([], j)
  {
    if rest == [] {
      assert i < |s| ==> s[i] == s[i..][0] == post[0];
    } else {
      assert s[i] == s[i..][0] == ' ';
      assert s[i + 1..] == s[i..][1..] == Join(rest) + post;
      assert s[i + 1] == s[i + 1..][0] == rest[0][0];
    }
  }

  /** Position k is at the end, or at this character. */
  ghost predicate At(s: string, k: nat,
                     post: string) { k <= |s| && s[k..] == post && (post != "" ==> k < |s| && s[k] == post[0]) }

  lemma AtSlice(s: string, i: nat, w: string, post: string)
    requires i <= |s| && s[i..] == w + post
    ensures At(s, i + |w|, post) && (w != "" ==> i < |s| && s[i] == w[0])
  {
    Slices(s, i, w, post);
    assert post != "" ==> s[i + |w|] == s[i + |w|..][0];
  }

  /** A command that is followed by the end of its line is the line. */
  lemma LineTail(s: string, i: nat, x: Cmd<Span>, j: nat, post: string)
    requires Line(s) && i <= |s| && ExecAt(s, i) == Got(x, j) && j <= |s| && At(s, j, post) && Ends(post)
    ensures PipeAt(s, i) == Got(x, j) && LineAt(s, i) == Got(x, j)
  {
    hide ExecAt, TokenAt;
  }

  lemma {:induction false} ExecParses(s: string, i: nat, argv: seq<string>, post: string)
    requires Line(s) && i <= |s| && s[i..] == Join(argv) + post && Ends(post)
    requires |argv| < MAXARGS && forall k | 0 <= k < |argv| :: GoodWord(argv[k])
    ensures var r := LineAt(s, i); r.Got? && r.next == i + |Join(argv)| && Words(s, r.value) == Exec(argv)
  {
    hide Args, LineAt;
    AtSlice(s, i, Join(argv), post);
    JoinSplit(argv, post);
    assert i < |s| ==> s[i] == (if argv == [] then post else argv[0])[0];
    assert Redirs(s, i) == Got([], i);
    ArgsParse(s, i, argv, post, []);
    assert Texts(s, []) == [];
    var r := Args(s, i, [], []);
    assert ExecAt(s, i) == r;
    LineTail(s, i, r.value, r.next, post);
  }

  function Wrapped(x: Cmd<Span>, r: Result<seq<Redirect>>): Result<Cmd<Span>> {
    if r.Fail? then Fail else Got(Wrap(x, r.value), r.next)
  }

  lemma BlockPlaces(s: string, i: nat, p: string, post: string)
    requires i <= |s| && s[i..] == "(" + p + ")" + post && (post != "" ==> !IsSpace(post[0]))
             && (p != "" ==> !IsSpace(p[0]))
    ensures At(s, i + 1, p + ")" + post) && At(s, i + 2 + |p|, post)
    ensures i < |s| && s[i] == '(' && !IsSpace(s[i + 1]) && s[i + 1 + |p|] == ')'
  {
    assert s[i..] == "(" + (p + ")" + post) == "(" + p + (")" + post);
    AtSlice(s, i, "(", p + ")" + post);
    AtSlice(s, i, "(" + p, ")" + post);
    AtSlice(s, i, "(" + p + ")", post);
  }

  /** A command in parentheses, followed by redirections. */
  lemma {:induction false} BlockParses(s: string, i: nat, p: string, x: Cmd<Span>, post: string)
    requires Line(s) && i <= |s| && s[i..] == "(" + p + ")" + post && (post != "" ==> !IsSpace(post[0]))
    requires i + 1 <= |s| && LineAt(s, i + 1) == Got(x, i + 1 + |p|) && (p != "" ==> !IsSpace(p[0]))
    ensures At(s, i + 2 + |p|, post) && ExecAt(s, i) == Wrapped(x, Redirs(s, i + 2 + |p|))
  {
    hide LineAt, Redirs, Wrap, Args, ExecAt;
    BlockPlaces(s, i, p, post);
    BlockStep(s, i, x, i + 1 + |p|);
  }

  lemma BlockStep(s: string, i: nat, x: Cmd<Span>, k: nat)
    requires Line(s) && i + 1 < |s| && s[i] == '(' && !IsSpace(s[i + 1]) && LineAt(s, i + 1) == Got(x, k)
    requires k < |s| && s[k] == ')' && (k + 1 < |s| ==> !IsSpace(s[k + 1]))
    ensures ExecAt(s, i) == Wrapped(x, Redirs(s, k + 1))
  {
    hide LineAt, Redirs, Wrap, Args, TokenAt;
    SymbolToken(s, i);
    SymbolToken(s, k);
    assert ExecAt(s, i) == BlockAt(s, i);
  }

  lemma PrintStart(c: Cmd<string>)
    requires Printable(c)
    ensures Print(c) != "" ==> !IsSpace(Print(c)[0])
  {
  }

  /** No redirection starts at post. */
  lemma NoRedirs(s: string, k: nat, post: string)
    requires Line(s) && At(s, k, post) && (post != "" ==> !IsSpace(post[0]) && post[0] != '<' && post[0] != '>')
    ensures Redirs(s, k) == Got([], k) && Skip(s, k) == k
  {
  }

  lemma {:induction false} OneRedir(s: string, k: nat, mode: Mode, file: string, post: string)
    requires Line(s) && At(s, k, Operator(mode) + file + post) && GoodWord(file) && Ends(post)
    ensures var q := k + |Operator(mode)|;
            q + |file| <= |s| && Redirs(s, k) == Got([Redirect(Span(q, q + |file|), mode)], q + |file|)
            && At(s, q + |file|, post) && Text(s, Span(q, q + |file|)) == file
  {
    hide TokenAt, Redirs, WordEnd, Operator, At, Skip, Peek, Text, Line;
    var op := Operator(mode);
    var q := k + |op|;
    RedirPlaces(s, k, op, file, post);
    WordToken(s, q, file, post);
    OperatorToken(s, k, mode);
    NoRedirs(s, q + |file|, post);
    RedirStep(s, k, TokenAt(s, k), TokenAt(s, q));
  }

  lemma RedirPlaces(s: string, k: nat, op: string, file: string, post: string)
    requires At(s, k, op + file + post)
    ensures var q := k + |op|;
            q + |file| <= |s| && s[k..q] == op && s[q..] == file + post && At(s, q + |file|, post)
  {
    assert s[k..] == op + (file + post) == (op + file) + post;
    Slices(s, k, op, file + post);
    AtSlice(s, k, op + file, post);
  }

  lemma OperatorToken(s: string, k: nat, mode: Mode)
    requires Line(s) && k + |Operator(mode)| < |s| && s[k..k + |Operator(mode)|] == Operator(mode)
             && IsWord(s[k + |Operator(mode)|])
    ensures var t := TokenAt(s, k);
            Skip(s, k) == k && Peek(s, k, "<>") && t.next == k + |Operator(mode)| && ModeOf(t.kind) == mode
  {
    var op := Operator(mode);
    assert s[k] == s[k..k + |op|][0] == op[0];
    assert |op| == 2 ==> s[k + 1] == s[k..k + |op|][1] == op[1];
  }

  lemma RedirStep(s: string, k: nat, t: Token, f: Token)
    requires Line(s) && k <= |s| && Skip(s, k) == k && Peek(s, k, "<>") && t == TokenAt(s, k) && f == TokenAt(s, t.next)
    requires f.kind == 'a' && Redirs(s, f.next) == Got([], f.next)
    ensures Redirs(s, k) == Got([Redirect(f.span, ModeOf(t.kind))], f.next)
  {
    hide TokenAt, Skip, Peek;
    var one := [Redirect(f.span, ModeOf(t.kind))];
    assert one + [] == one;
  }

  lemma SymbolToken(s: string, k: nat)
    requires Line(s) && k < |s| && IsSymbol(s[k]) && s[k] != '>' && (k + 1 < |s| ==> !IsSpace(s[k + 1]))
    ensures Skip(s, k) == k && TokenAt(s, k).next == k + 1
  {
  }

  lemma PipeStep(s: string, i: nat, x: Cmd<Span>, k: nat, y: Cmd<Span>, l: nat)
    requires Line(s) && i <= |s| && ExecAt(s, i) == Got(x, k) && k + 1 < |s| && s[k] == '|' && !IsSpace(s[k + 1])
    requires PipeAt(s, k + 1) == Got(y, l)
    ensures PipeAt(s, i) == Got(Pipe(x, y), l)
  {
    hide ExecAt, TokenAt, Skip;
    SymbolToken(s, k);
    assert Peek(s, k, "|");
  }

  lemma LineEnd(s: string, i: nat, x: Cmd<Span>, l: nat, post: string)
    requires Line(s) && i <= |s| && PipeAt(s, i) == Got(x, l) && At(s, l, post) && Ends(post)
    ensures LineAt(s, i) == Got(x, l)
  {
    hide PipeAt, TokenAt;
  }

  lemma ListStep(s: string, i: nat, x: Cmd<Span>, k: nat, y: Cmd<Span>, l: nat)
    requires Line(s) && i <= |s| && ExecAt(s, i) == Got(x, k) && k + 1 < |s| && s[k] == ';' && !IsSpace(s[k + 1])
    requires LineAt(s, k + 1) == Got(y, l)
    ensures LineAt(s, i) == Got(List(x, y), l)
  {
    hide ExecAt, TokenAt, Skip;
    SymbolToken(s, k);
    assert PipeAt(s, i) == Got(x, k);
    assert Backs(s, k, x) == (x, k);
    assert Peek(s, k, ";");
  }

  lemma BackStep(s: string, i: nat, x: Cmd<Span>, k: nat, post: string)
    requires Line(s) && i <= |s| && ExecAt(s, i) == Got(x, k) && k < |s| && s[k] == '&' && At(s, k + 1, post)
             && Ends(post)
    ensures LineAt(s, i) == Got(Back(x), k + 1)
  {
    hide ExecAt, TokenAt;
    SymbolToken(s, k);
    assert PipeAt(s, i) == Got(x, k);
    assert Peek(s, k, "&");
    assert Backs(s, k + 1, Back(x)) == (Back(x), k + 1);
    assert Backs(s, k, x) == (Back(x), k + 1);
  }

  /** The round trip, inside a line. */
  lemma {:induction false} LineParses(s: string, i: nat, c: Cmd<string>, post: string)
    requires Line(s) && i <= |s| && s[i..] == Print(c) + post && Ends(post) && Printable(c)
    ensures var r := LineAt(s, i); r.Got? && r.next == i + |Print(c)| && Words(s, r.value) == c
    decreases c, 2
  {
    match c
    case Exec(argv) => ExecParses(s, i, argv, post);
    case Redir(cmd, file, mode) => RedirParses(s, i, cmd, file, mode, post);
    case Pipe(_, _) => PairParses(s, i, c, post);
    case List(_, _) => PairParses(s, i, c, post);
    case Back(cmd) => BackParses(s, i, cmd, post);
  }

  /** A command in parentheses, and then redirections. */
  lemma {:induction false} Parenthesised(s: string, i: nat, c: Cmd<string>, post: string) returns (x: Cmd<Span>)
    requires Line(s) && i <= |s| && s[i..] == "(" + Print(c) + ")" + post && Printable(c)
    requires post != "" ==> !IsSpace(post[0])
    ensures At(s, i + 2 + |Print(c)|, post) && Words(s, x) == c
    ensures ExecAt(s, i) == Wrapped(x, Redirs(s, i + 2 + |Print(c)|))
    decreases c, 3
  {
    hide LineAt, Words, Print, Printable, Redirs, ExecAt;
    var p := Print(c);
    PrintStart(c);
    BlockPlaces(s, i, p, post);
    assert p + ")" + post == p + (")" + post);
    LineParses(s, i + 1, c, ")" + post);
    x := LineAt(s, i + 1).value;
    BlockParses(s, i, p, x, post);
  }

  lemma {:induction false} RedirParses(s: string, i: nat, cmd: Cmd<string>, file: string, mode: Mode, post: string)
    requires Line(s) && i <= |s| && s[i..] == Print(Redir(cmd, file, mode)) + post && Ends(post)
             && Printable(Redir(cmd, file, mode))
    ensures var r := LineAt(s, i);
            && r.Got? && r.next == i + |Print(Redir(cmd, file, mode))|
            && Words(s, r.value) == Redir(cmd, file, mode)
    decreases Redir(cmd, file, mode), 1
  {
    hide LineAt, ExecAt, Redirs;
    var tail := Operator(mode) + file + post;
    var k := i + 2 + |Print(cmd)|;
    assert s[i..] == "(" + Print(cmd) + ")" + tail;
    var x := Parenthesised(s, i, cmd, tail);
    OneRedir(s, k, mode, file, post);
    var w := Redirect(Span(k + |Operator(mode)|, k + |Operator(mode)| + |file|), mode);
    assert Wrap(x, [w]) == Redir(x, w.file, mode) by {
      assert [w][1..] == [];
    }
    LineTail(s, i, Redir(x, w.file, mode), w.file.eq, post);
  }

  lemma {:induction false} BackParses(s: string, i: nat, cmd: Cmd<string>, post: string)
    requires Line(s) && i <= |s| && s[i..] == Print(Back(cmd)) + post && Ends(post) && Printable(Back(cmd))
    ensures var r := LineAt(s, i); r.Got? && r.next == i + |Print(Back(cmd))| && Words(s, r.value) == Back(cmd)
    decreases Back(cmd), 1
  {
    hide LineAt, ExecAt, Redirs;
    var k := i + 2 + |Print(cmd)|;
    assert s[i..] == "(" + Print(cmd) + ")" + ("&" + post);
    var x := Parenthesised(s, i, cmd, "&" + post);
    NoRedirs(s, k, "&" + post);
    AtSlice(s, k, "&", post);
    BackStep(s, i, x, k, post);
  }

  lemma PairShape(c: Cmd<string>, sep: string, post: string)
    requires (c.Pipe? || c.List?) && Printable(c) && sep == (if c.Pipe? then "|" else ";")
    ensures Print(c) + post == "(" + Print(c.left) + ")" + (sep + ("(" + Print(c.right) + ")" + post))
    ensures |Print(c)| == |Print(c.left)| + |Print(c.right)| + 5 && Printable(c.left) && Printable(c.right)
  {
  }

  /** Two commands in parentheses around "|" or ";". */
  lemma {:induction false} TwoParts(s: string, i: nat, c: Cmd<string>, post: string) returns (x: Cmd<Span>,
                                    y: Cmd<Span>, k: nat, l: nat)
    requires Line(s) && i <= |s| && (c.Pipe? || c.List?) && s[i..] == Print(c) + post && Ends(post) && Printable(c)
    ensures l == i + |Print(c)| && At(s, l, post) && Words(s, x) == c.left && Words(s, y) == c.right
    ensures k + 1 < |s| && s[k] == (if c.Pipe? then '|' else ';') && !IsSpace(s[k + 1])
    ensures ExecAt(s, i) == Got(x, k) && ExecAt(s, k + 1) == Got(y, l)
    decreases c, 0
  {
    hide LineAt, ExecAt, Redirs, Words, Print, Printable, Line, Skip, At;
    var sep := if c.Pipe? then "|" else ";";
    var rest := "(" + Print(c.right) + ")" + post;
    k, l := i + 2 + |Print(c.left)|, i + |Print(c)|;
    PairShape(c, sep, post);
    PairPlaces(s, i, Print(c.left), sep, Print(c.right), post);
    x := Parenthesised(s, i, c.left, sep + rest);
    NoRedirs(s, k, sep + rest);
    y := Parenthesised(s, k + 1, c.right, post);
    NoRedirs(s, l, post);
  }

  lemma PairPlaces(s: string, i: nat, left: string, sep: string, right: string, post: string)
    requires i <= |s| && |sep| == 1 && s[i..] == "(" + left + ")" + (sep + ("(" + right + ")" + post))
    ensures var k := i + 2 + |left|;
            k + 1 < |s| && s[k] == sep[0] && s[k + 1] == '(' && s[k + 1..] == "(" + right + ")" + post
  {
    var rest := "(" + right + ")" + post;
    var k := i + 2 + |left|;
    AtSlice(s, i, "(" + left + ")", sep + rest);
    AtSlice(s, k, sep, rest);
  }

  lemma {:induction false} PairParses(s: string, i: nat, c: Cmd<string>, post: string)
    requires Line(s) && i <= |s| && (c.Pipe? || c.List?) && s[i..] == Print(c) + post && Ends(post) && Printable(c)
    ensures var r := LineAt(s, i); r.Got? && r.next == i + |Print(c)| && Words(s, r.value) == c
    decreases c, 1
  {
    hide LineAt, PipeAt, ExecAt, Print, Printable;
    var x, y, k, l := TwoParts(s, i, c, post);
    LineTail(s, k + 1, y, l, post);
    if c.Pipe? {
      PipeStep(s, i, x, k, y, l);
      LineEnd(s, i, Pipe(x, y), l, post);
    } else {
      ListStep(s, i, x, k, y, l);
    }
  }

  lemma {:induction false} JoinLine(argv: seq<string>)
    requires forall k | 0 <= k < |argv| :: GoodWord(argv[k])
    ensures Line(Join(argv))
  {
    if |argv| > 1 {
      JoinLine(argv[1..]);
    }
  }

  lemma PrintLine(c: Cmd<string>)
    requires Printable(c)
    ensures Line(Print(c))
  {
    if c.Exec? {
      JoinLine(c.argv);
    }
  }

  /** Parsing what a command prints gives the command back. */
  lemma RoundTrip(c: Cmd<string>)
    requires Printable(c)
    ensures Line(Print(c))
    ensures var r := Parse(Print(c)); r.Got? && Words(Print(c), r.value) == c
  {
    var s := Print(c);
    PrintLine(c);
    assert s[0..] == s + "";
    LineParses(s, 0, c, "");
  }

  /** A span is a whole word: it ends where a word ends. */
  predicate WholeWord(s: string, w: Span) {
    && w.q < w.eq <= |s| && (forall k | w.q <= k < w.eq :: IsWord(s[k]))
    && (w.eq < |s| ==> !IsWord(s[w.eq]))
  }

  /** The words of a command, in the order in which nulterminate meets them. */
  function Spans(c: Cmd<Span>): seq<Span> {
    match c
    case Exec(argv) => argv
    case Redir(cmd, file, _) => Spans(cmd) + [file]
    case Pipe(left, right) => Spans(left) + Spans(right)
    case List(left, right) => Spans(left) + Spans(right)
    case Back(cmd) => Spans(cmd)
  }

  predicate Whole(s: string, c: Cmd<Span>) {
    forall w | w in Spans(c) :: WholeWord(s, w)
  }

  lemma TokenWhole(s: string, i: nat)
    requires Line(s) && i <= |s| && TokenAt(s, i).kind == 'a'
    ensures WholeWord(s, TokenAt(s, i).span)
  {
  }

  lemma {:induction false} RedirsWhole(s: string, i: nat)
    requires Line(s) && i <= |s| && Redirs(s, i).Got?
    ensures forall k | 0 <= k < |Redirs(s, i).value| :: WholeWord(s, Redirs(s, i).value[k].file)
    decreases |s| - i
  {
    hide TokenAt, WholeWord;
    if Peek(s, i, "<>") {
      var f := TokenAt(s, TokenAt(s, Skip(s, i)).next);
      TokenWhole(s, TokenAt(s, Skip(s, i)).next);
      RedirsWhole(s, f.next);
    }
  }

  lemma {:induction false} WrapWhole(s: string, cmd: Cmd<Span>, redirs: seq<Redirect>)
    requires Whole(s, cmd) && forall k | 0 <= k < |redirs| :: WholeWord(s, redirs[k].file)
    ensures Whole(s, Wrap(cmd, redirs))
    decreases |redirs|
  {
    hide WholeWord;
    if redirs != [] {
      WrapWhole(s, Redir(cmd, redirs[0].file, redirs[0].mode), redirs[1..]);
    }
  }

  lemma {:induction false} ArgsWhole(s: string, i: nat, argv: seq<Span>, redirs: seq<Redirect>)
    requires Line(s) && i <= |s| && Args(s, i, argv, redirs).Got?
    requires (forall w | w in argv :: WholeWord(s, w)) && forall k | 0 <= k < |redirs| :: WholeWord(s, redirs[k].file)
    ensures Whole(s, Args(s, i, argv, redirs).value)
    decreases |s| - i
  {
    hide TokenAt, WholeWord, Redirs, Wrap;
    WrapWhole(s, Exec(argv), redirs);
    var t := TokenAt(s, Skip(s, i));
    if !Peek(s, i, "|)&;") && t.kind != '\0' {
      TokenWhole(s, Skip(s, i));
      RedirsWhole(s, t.next);
      var r := Redirs(s, t.next);
      ArgsWhole(s, r.next, argv + [t.span], redirs + r.value);
    }
  }

  lemma {:induction false} ExecWhole(s: string, i: nat)
    requires Line(s) && i <= |s| && ExecAt(s, i).Got?
    ensures Whole(s, ExecAt(s, i).value)
    decreases |s| - i, 1
  {
    hide TokenAt, WholeWord, Redirs, Wrap, Args, Whole;
    if Peek(s, i, "(") {
      BlockWhole(s, Skip(s, i));
    } else {
      RedirsWhole(s, Skip(s, i));
      var r := Redirs(s, Skip(s, i));
      ArgsWhole(s, r.next, [], r.value);
    }
  }

  lemma {:induction false} BlockWhole(s: string, i: nat)
    requires Line(s) && i < |s| && s[i] == '(' && BlockAt(s, i).Got?
    ensures Whole(s, BlockAt(s, i).value)
    decreases |s| - i, 0
  {
    hide TokenAt, WholeWord, Redirs, Wrap, LineAt, Whole;
    SymbolNext(s, i);
    var inner := LineAt(s, TokenAt(s, i).next);
    LineWhole(s, TokenAt(s, i).next);
    RedirsWhole(s, TokenAt(s, Skip(s, inner.next)).next);
    WrapWhole(s, inner.value, Redirs(s, TokenAt(s, Skip(s, inner.next)).next).value);
  }

  lemma SymbolNext(s: string, i: nat)
    requires Line(s) && i <= |s| && Skip(s, i) < |s|
    ensures TokenAt(s, i).next > i && TokenAt(s, Skip(s, i)).next > i
  {
  }

  lemma {:induction false} PipeWhole(s: string, i: nat)
    requires Line(s) && i <= |s| && PipeAt(s, i).Got?
    ensures Whole(s, PipeAt(s, i).value)
    decreases |s| - i, 2
  {
    hide TokenAt, WholeWord, ExecAt;
    ExecWhole(s, i);
    var left := ExecAt(s, i);
    if Peek(s, left.next, "|") {
      SymbolNext(s, left.next);
      PipeWhole(s, TokenAt(s, Skip(s, left.next)).next);
    }
  }

  lemma {:induction false} BacksWhole(s: string, i: nat, cmd: Cmd<Span>)
    requires Line(s) && i <= |s| && Whole(s, cmd)
    ensures Whole(s, Backs(s, i, cmd).0)
    decreases |s| - i
  {
    hide TokenAt, WholeWord;
    if Peek(s, i, "&") {
      SymbolNext(s, i);
      BacksWhole(s, TokenAt(s, Skip(s, i)).next, Back(cmd));
    }
  }

  lemma {:induction false} LineWhole(s: string, i: nat)
    requires Line(s) && i <= |s| && LineAt(s, i).Got?
    ensures Whole(s, LineAt(s, i).value)
    decreases |s| - i, 3
  {
    hide TokenAt, WholeWord, PipeAt, Backs;
    PipeWhole(s, i);
    var first := PipeAt(s, i);
    BacksWhole(s, first.next, first.value);
    var p := Backs(s, first.next, first.value).1;
    if Peek(s, p, ";") {
      SymbolNext(s, p);
      LineWhole(s, TokenAt(s, p).next);
    }
  }

  /** The string that a pointer to position q reads. */
  function CString(b: seq<char>, q: nat): string
    decreases |b| - q
  {
    if q >= |b| || b[q] == '\0' then "" else [b[q]] + CString(b, q + 1)
  }

  ghost predicate Ended(c: Cmd<Span>, k: nat) {
    exists w :: w in Spans(c) && w.eq == k
  }

  /** nulterminate puts a NUL after every word of the command, and nowhere else. */
  method Nulterminate(b: array<char>, c: Cmd<Span>)
    requires forall w | w in Spans(c) :: w.eq < b.Length
    modifies b
    ensures forall k | 0 <= k < b.Length :: b[k] == if Ended(c, k) then '\0' else old(b[k])
    decreases c
  {
    match c {
      case Exec(argv) =>
        var i := 0;
        while i < |argv|
          invariant 0 <= i <= |argv|
          invariant forall k | 0 <= k < b.Length :: b[k] == if Ended(Exec(argv[..i]), k) then '\0' else old(b[k])
        {
          b[argv[i].eq] := '\0';
          EndedMore(argv, i);
          i := i + 1;
        }
        assert argv[..i] == argv;
      case Redir(cmd, file, mode) =>
        Nulterminate(b, cmd);
        b[file.eq] := '\0';
      case Pipe(left, right) =>
        Nulterminate(b, left);
        Nulterminate(b, right);
      case List(left, right) =>
        Nulterminate(b, left);
        Nulterminate(b, right);
      case Back(cmd) =>
        Nulterminate(b, cmd);
    }
  }

  lemma EndedMore(argv: seq<Span>, i: nat)
    requires i < |argv|
    ensures forall k: nat :: Ended(Exec(argv[..i + 1]), k) <==> Ended(Exec(argv[..i]), k) || k == argv[i].eq
  {
    assert argv[..i + 1] == argv[..i] + [argv[i]];
  }

  /** No terminator lands inside a word: every word of a parsed line then reads as
      itself. */
  lemma WordsRead(s: string, b: seq<char>, c: Cmd<Span>, w: Span)
    requires Line(s) && Whole(s, c) && w in Spans(c) && |b| == |s| + 1
    requires forall k | 0 <= k < |b| :: b[k] == if Ended(c, k) then '\0' else if k < |s| then s[k] else '\0'
    ensures CString(b, w.q) == Text(s, w)
  {
    assert WholeWord(s, w) && Ended(c, w.eq);
    forall k | w.q <= k < w.eq
      ensures b[k] == s[k] != '\0'
    {
    }
    Reads(s, b, w.q, w.eq);
  }

  lemma {:induction false} Reads(s: string, b: seq<char>, q: nat, eq: nat)
    requires q <= eq <= |s| && eq < |b| && b[eq] == '\0' && forall k | q <= k < eq :: b[k] == s[k] != '\0'
    ensures CString(b, q) == s[q..eq]
    decreases eq - q
  {
    if q < eq {
      Reads(s, b, q + 1, eq);
    }
  }

  /** gettoken, with the tests of its loops on *s done within the line. */
  method Gettoken(s: string, ps: nat) returns (t: Token)
    requires Line(s) && ps <= |s|
    ensures t == TokenAt(s, ps)
  {
    var i := PastSpace(s, ps);
    var q := i;
    if i == |s| {
      return Token('\0', Span(q, i), i);
    }
    var ret := s[i];
    if IsSymbol(s[i]) && s[i] != '>' {
      i := i + 1;
    } else if s[i] == '>' {
      i := i + 1;
      if i < |s| && s[i] == '>' {
        ret := '+';
        i := i + 1;
      }
    } else {
      ret := 'a';
      while i < |s| && !IsSpace(s[i]) && !IsSymbol(s[i])
        invariant q <= i <= |s| && WordEnd(s, q) == WordEnd(s, i)
      {
        i := i + 1;
      }
    }
    var eq := i;
    i := PastSpace(s, i);
    return Token(ret, Span(q, eq), i);
  }

  method PastSpace(s: string, i: nat) returns (j: nat)
    requires i <= |s|
    ensures j == Skip(s, i)
  {
    j := i;
    while j < |s| && IsSpace(s[j])
      invariant i <= j <= |s| && Skip(s, i) == Skip(s, j)
    {
      j := j + 1;
    }
  }

  method PeekToken(s: string, ps: nat, toks: string) returns (hit: bool, next: nat)
    requires ps <= |s|
    ensures hit == Peek(s, ps, toks) && next == Skip(s, ps)
  {
    next := PastSpace(s, ps);
    hit := next < |s| && s[next] in toks;
  }

  /** parseredirs. */
  method ParseRedirs(s: string, cmd: Cmd<Span>, ps: nat) returns (r: Result<Cmd<Span>>)
    requires Line(s) && ps <= |s|
    ensures r == Wrapped(cmd, Redirs(s, ps))
  {
    hide TokenAt, Skip, Peek;
    var cmd', i := cmd, ps;
    while true
      invariant ps <= i <= |s| && Wrapped(cmd, Redirs(s, ps)) == Wrapped(cmd', Redirs(s, i))
      decreases |s| - i
    {
      var more, j := PeekToken(s, i, "<>");
      if !more {
        return Got(cmd', j);
      }
      var tok := Gettoken(s, j);
      var file := Gettoken(s, tok.next);
      if file.kind != 'a' {
        return Fail;
      }
      WrapStep(s, i, cmd', file.span, ModeOf(tok.kind), Redirs(s, file.next));
      cmd' := Redir(cmd', file.span, ModeOf(tok.kind));
      i := file.next;
    }
  }

  lemma WrapStep(s: string, i: nat, cmd: Cmd<Span>, file: Span, mode: Mode, r: Result<seq<Redirect>>)
    ensures r.Got? ==> Wrap(cmd, [Redirect(file, mode)] + r.value) == Wrap(Redir(cmd, file, mode), r.value)
  {
    if r.Got? {
      assert ([Redirect(file, mode)] + r.value)[1..] == r.value;
    }
  }

  /** Writing argv in the exec command at the bottom. */
  function WithArgv(c: Cmd<Span>, argv: seq<Span>): Cmd<Span> {
    match c
    case Exec(_) => Exec(argv)
    case Redir(cmd, file, mode) => Redir(WithArgv(cmd, argv), file, mode)
    case _ => c
  }

  lemma {:induction false} WrapArgv(c: Cmd<Span>, redirs: seq<Redirect>, argv: seq<Span>)
    ensures WithArgv(Wrap(c, redirs), argv) == Wrap(WithArgv(c, argv), redirs)
    decreases |redirs|
  {
    if redirs != [] {
      WrapArgv(Redir(c, redirs[0].file, redirs[0].mode), redirs[1..], argv);
    }
  }

  lemma {:induction false} WrapTwice(c: Cmd<Span>, some: seq<Redirect>, more: seq<Redirect>)
    ensures Wrap(Wrap(c, some), more) == Wrap(c, some + more)
    decreases |some|
  {
    if some == [] {
      assert some + more == more;
    } else {
      WrapTwice(Redir(c, some[0].file, some[0].mode), some[1..], more);
      assert (some + more)[1..] == some[1..] + more;
    }
  }

  /** parseexec. */
  method ParseExec(s: string, ps: nat) returns (r: Result<Cmd<Span>>)
    requires Line(s) && ps <= |s|
    ensures r == ExecAt(s, ps)
    decreases |s| - ps, 1
  {
    hide TokenAt, Skip, Redirs, Args, BlockAt, Wrap;
    var open, i := PeekToken(s, ps, "(");
    if open {
      r := ParseBlock(s, i);
      return;
    }
    r := ParseRedirs(s, Exec([]), i);
    if r.Fail? {
      return;
    }
    ghost var redirs := Redirs(s, i).value;
    var ret, argv: seq<Span> := r.value, [];
    i := r.next;
    while true
      invariant i <= |s| && ret == Wrap(Exec(argv), redirs) && ExecAt(s, ps) == Args(s, i, argv, redirs)
      decreases |s| - i
    {
      ArgsUnfold(s, i, argv, redirs);
      var stop, j := PeekToken(s, i, "|)&;");
      if stop {
        return Got(ret, j);
      }
      var t := Gettoken(s, j);
      if t.kind == '\0' {
        return Got(ret, t.next);
      }
      if t.kind != 'a' || |argv| + 1 >= MAXARGS {
        return Fail;
      }
      WrapArgv(Exec(argv), redirs, argv + [t.span]);
      argv := argv + [t.span];
      ret := WithArgv(ret, argv);
      r := ParseRedirs(s, ret, t.next);
      if r.Fail? {
        return;
      }
      WrapTwice(Exec(argv), redirs, Redirs(s, t.next).value);
      redirs := redirs + Redirs(s, t.next).value;
      ret, i := r.value, r.next;
    }
  }

  lemma ArgsUnfold(s: string, i: nat, argv: seq<Span>, redirs: seq<Redirect>)
    requires Line(s) && i <= |s|
    ensures Args(s, i, argv, redirs) ==
              var t := TokenAt(s, Skip(s, i));
              if Peek(s, i, "|)&;") then Got(Wrap(Exec(argv), redirs), Skip(s, i))
              else if t.kind == '\0' then Got(Wrap(Exec(argv), redirs), t.next)
              else if t.kind != 'a' || |argv| + 1 >= MAXARGS || Redirs(s, t.next).Fail? then Fail
              else Args(s, Redirs(s, t.next).next, argv + [t.span], redirs + Redirs(s, t.next).value)
  {
    hide TokenAt, Skip, Redirs, Wrap, Peek;
  }

  /** parseblock, after parseexec saw the "(". */
  method ParseBlock(s: string, ps: nat) returns (r: Result<Cmd<Span>>)
    requires Line(s) && ps < |s| && s[ps] == '('
    ensures r == BlockAt(s, ps)
    decreases |s| - ps, 0
  {
    hide TokenAt, Redirs, LineAt, Wrap;
    SymbolNext(s, ps);
    var t := Gettoken(s, ps);
    r := ParseLine(s, t.next);
    if r.Fail? {
      return;
    }
    var close, i := PeekToken(s, r.next, ")");
    if !close {
      return Fail;
    }
    t := Gettoken(s, i);
    r := ParseRedirs(s, r.value, t.next);
  }

  /** parsepipe. */
  method ParsePipe(s: string, ps: nat) returns (r: Result<Cmd<Span>>)
    requires Line(s) && ps <= |s|
    ensures r == PipeAt(s, ps)
    decreases |s| - ps, 2
  {
    hide TokenAt, Skip, ExecAt, Peek;
    var left := ParseExec(s, ps);
    if left.Fail? {
      return Fail;
    }
    var more, i := PeekToken(s, left.next, "|");
    if !more {
      return Got(left.value, i);
    }
    HitNext(s, left.next, "|");
    var t := Gettoken(s, i);
    var right := ParsePipe(s, t.next);
    return if right.Fail? then Fail else Got(Pipe(left.value, right.value), right.next);
  }

  lemma HitNext(s: string, i: nat, toks: string)
    requires Line(s) && i <= |s| && Peek(s, i, toks)
    ensures TokenAt(s, Skip(s, i)).next > i
  {
    SymbolNext(s, i);
  }

  /** parseline. */
  method ParseLine(s: string, ps: nat) returns (r: Result<Cmd<Span>>)
    requires Line(s) && ps <= |s|
    ensures r == LineAt(s, ps)
    decreases |s| - ps, 3
  {
    hide TokenAt, Skip, PipeAt, Peek;
    r := ParsePipe(s, ps);
    if r.Fail? {
      return;
    }
    var cmd, i := r.value, r.next;
    while true
      invariant ps <= i <= |s| && Backs(s, r.next, r.value) == Backs(s, i, cmd)
      decreases |s| - i
    {
      var back, j := PeekToken(s, i, "&");
      if !back {
        SkipTwice(s, i);
        i := j;
        break;
      }
      HitNext(s, i, "&");
      var t := Gettoken(s, j);
      cmd, i := Back(cmd), t.next;
    }
    var more, j := PeekToken(s, i, ";");
    if !more {
      return Got(cmd, j);
    }
    HitNext(s, i, ";");
    var t := Gettoken(s, j);
    var rest := ParseLine(s, t.next);
    return if rest.Fail? then Fail else Got(List(cmd, rest.value), rest.next);
  }

  lemma SkipTwice(s: string, i: nat)
    requires i <= |s|
    ensures Skip(s, Skip(s, i)) == Skip(s, i)
  {
  }

  /** parsecmd on the line in a buffer: when it returns a command, every word of it
      reads from the buffer as it stood in the line. */
  method ParseCommand(b: array<char>, s: string) returns (r: Result<Cmd<Span>>)
    requires Line(s) && b.Length == |s| + 1 && b[..] == s + ['\0']
    modifies b
    ensures r == Parse(s)
    ensures r.Got? ==> forall w | w in Spans(r.value) :: CString(b[..], w.q) == Text(s, w)
  {
    hide Skip, LineAt, Spans, Text, CString, Ended;
    r := ParseLine(s, 0);
    if r.Fail? {
      return;
    }
    var _, i := PeekToken(s, r.next, "");
    if i != |s| {
      return Fail;
    }
    LineWhole(s, 0);
    assert forall w | w in Spans(r.value) :: WholeWord(s, w);
    Nulterminate(b, r.value);
    forall w | w in Spans(r.value)
      ensures CString(b[..], w.q) == Text(s, w)
    {
      WordsRead(s, b[..], r.value, w);
    }
    return Got(r.value, i);
  }
}
