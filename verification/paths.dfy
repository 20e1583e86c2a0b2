/** Path names (kernel/fs.c): skipelem's elements, and the inode that namex leads to. */
module Paths {
  import opened Common
  import opened Links

  const DIRSIZ: nat := 14

  /* -------- the elements of a path -------- */

  /** How many characters come before the first '/'. */
  function Span(path: string): (n: nat)
    ensures n <= |path| && '/' !in path[..n] && (n < |path| ==> path[n] == '/')
  {
    if path == "" || path[0] == '/' then 0
    else
      var n := 1 + Span(path[1..]);
      assert path[..n] == [path[0]] + path[1..][..n - 1];
      n
  }

  /** What a directory entry keeps of a name. */
  function Cut(e: string): string {
    if |e| > DIRSIZ then e[..DIRSIZ] else e
  }

  /** The names between the slashes. */
  function Elements(path: string): (es: seq<string>)
    ensures forall k | 0 <= k < |es| :: IsElement(es[k])
    decreases |path|
  {
    if path == "" then []
    else if path[0] == '/' then Elements(path[1..])
    else [Cut(path[..Span(path)])] + Elements(path[Span(path)..])
  }

  predicate IsElement(e: string) {
    0 < |e| <= DIRSIZ && '/' !in e
  }

  /** The path that has these elements. */
  function Join(es: seq<string>): string {
    if es == [] then "" else "/" + es[0] + Join(es[1..])
  }

  lemma {:induction false} SpanOf(e: string, rest: string)
    requires '/' !in e && (rest == "" || rest[0] == '/')
    ensures Span(e + rest) == |e|
  {
    if e != "" {
      SpanOf(e[1..], rest);
      assert (e + rest)[1..] == e[1..] + rest;
    }
  }

  /** Leading slashes do not matter. */
  lemma {:induction false} SlashesSkipped(path: string, n: nat)
    requires n <= |path| && forall k | 0 <= k < n :: path[k] == '/'
    ensures Elements(path[n..]) == Elements(path)
  {
    if n > 0 {
      SlashesSkipped(path, n - 1);
      assert path[n - 1..][1..] == path[n..];
    } else {
      assert path[0..] == path;
    }
  }

  lemma SlashesFrom(path: string, s: nat, n: nat)
    requires s <= n <= |path| && forall k | s <= k < n :: path[k] == '/'
    ensures Elements(path[n..]) == Elements(path[s..])
  {
    SlashesSkipped(path[s..], n - s);
    assert path[s..][n - s..] == path[n..];
  }

  lemma FirstElement(path: string, s: nat, n: nat)
    requires s < n <= |path| && '/' !in path[s..n] && (n < |path| ==> path[n] == '/')
    ensures Elements(path[s..]) == [Cut(path[s..n])] + Elements(path[n..])
  {
    var here := path[s..];
    assert here == path[s..n] + path[n..];
    SpanOf(path[s..n], path[n..]);
    assert here[0] == path[s..n][0];
    assert here[..n - s] == path[s..n] && here[n - s..] == path[n..];
  }

  /** Every sequence of elements is that of a path. */
  lemma {:induction false} ElementsJoin(es: seq<string>)
    requires forall k | 0 <= k < |es| :: IsElement(es[k])
    ensures Elements(Join(es)) == es
  {
    if es == [] {
      assert Elements("") == [];
    } else {
      ElementsJoin(es[1..]);
      JoinFirst(es[0], Join(es[1..]));
    }
  }

  /** A slash separates: the elements on both sides, in order. */
  lemma {:induction false} ElementsSlash(p: string, q: string)
    ensures Elements(p + "/" + q) == Elements(p) + Elements(q)
    decreases |p|
  {
    var path := p + "/" + q;
    if p == "" {
      assert path[1..] == q;
    } else if p[0] == '/' {
      assert path[1..] == p[1..] + "/" + q;
      ElementsSlash(p[1..], q);
    } else {
      var n := Span(p);
      assert p == p[..n] + p[n..];
      assert path == p[..n] + (p[n..] + "/" + q);
      SpanOf(p[..n], p[n..] + "/" + q);
      ElementsSlash(p[n..], q);
      assert path[..n] == p[..n] && path[n..] == p[n..] + "/" + q;
    }
  }

  /** A name without a slash is one element, its first DIRSIZ characters. */
  lemma ElementsOne(e: string)
    requires e != "" && '/' !in e
    ensures Elements(e) == [if |e| <= DIRSIZ then e else e[..DIRSIZ]]
  {
    assert e + "" == e;
    SpanOf(e, "");
  }

  lemma JoinFirst(e: string, rest: string)
    requires IsElement(e) && (rest == "" || rest[0] == '/')
    ensures Elements("/" + e + rest) == [e] + Elements(rest)
  {
    hide Elements;
    var path := "/" + e + rest;
    SlashesFrom(path, 0, 1);
    assert path[0..] == path && path[1..1 + |e|] == e && path[1 + |e|..] == rest;
    FirstElement(path, 1, 1 + |e|);
  }

  lemma CutSlice(path: string, s: nat, n: nat)
    requires s <= n <= |path|
    ensures Cut(path[s..n]) == if n - s >= DIRSIZ then path[s..s + DIRSIZ] else path[s..n]
  {
    if n - s >= DIRSIZ {
      assert path[s..n][..DIRSIZ] == path[s..s + DIRSIZ];
    }
  }

  lemma RestStarts(rest: string)
    requires rest == "" || rest[0] != '/'
    ensures Elements(rest) == [] <==> rest == ""
  {
  }

  /** These elements are this name and then those of the rest, which does not start with a slash. */
  ghost predicate Taken(es: seq<string>, name: string, rest: string) {
    es == [name] + Elements(rest) && (Elements(rest) == [] <==> rest == "")
  }

  /** skipelem: the first element and the path behind it, which does not start with a slash. */
  method Skipelem(path: string) returns (r: Option<(string, string)>)
    ensures r.None? <==> Elements(path) == []
    ensures r.Some? ==> Taken(Elements(path), r.value.0, r.value.1)
  {
    hide Elements;
    var n := Slashes(path, 0);
    SlashesFrom(path, 0, n);
    assert path[0..] == path;
    RestStarts(path[n..]);
    if n == |path| {
      return None;
    }
    var s := n;
    while n < |path| && path[n] != '/'
      invariant s <= n <= |path| && '/' !in path[s..n]
    {
      assert path[s..n + 1] == path[s..n] + [path[n]];
      n := n + 1;
    }
    var len := n - s;
    var name := if len >= DIRSIZ then path[s..s + DIRSIZ] else path[s..n];
    CutSlice(path, s, n);
    FirstElement(path, s, n);
    var end := n;
    n := Slashes(path, end);
    SlashesFrom(path, end, n);
    RestStarts(path[n..]);
    return Some((name, path[n..]));
  }

  /** The two loops of skipelem over slashes. */
  method Slashes(path: string, from: nat) returns (n: nat)
    requires from <= |path|
    ensures from <= n <= |path| && (forall k | from <= k < n :: path[k] == '/') && (n < |path| ==> path[n] != '/')
  {
    n := from;
    while n < |path| && path[n] == '/'
      invariant from <= n <= |path| && forall k | from <= k < n :: path[k] == '/'
    {
      n := n + 1;
    }
  }

  /* -------- where a path leads -------- */

  /** An inode; none; or ilock's panic on an inode that is not in use. */
  datatype Walked = At(i: nat) | Nowhere | NoType

  /** From inode i along the elements, or to the directory of the last one. */
  function Resolve(inodes: seq<Inode>, i: nat, es: seq<string>, parent: bool): Walked
    decreases |es|
  {
    if es == [] then (if parent then Nowhere else At(i))
    else if i >= |inodes| || inodes[i].kind == Unused then NoType
    else if inodes[i].kind != Dir then Nowhere
    else if parent && |es| == 1 then At(i)
    else
      var k := Lookup(inodes[i].entries, es[0], 0);
      if k == None then Nowhere else Resolve(inodes, inodes[i].entries[k.value].inum, es[1..], parent)
  }

  function Last(es: seq<string>): string {
    if es == [] then "" else es[|es| - 1]
  }

  lemma LastStep(name: string, es: seq<string>)
    ensures Last([name] + es) == if es == [] then name else Last(es)
  {
  }

  lemma ResolveStep(inodes: seq<Inode>, i: nat, e: string, es: seq<string>, parent: bool)
    requires i < |inodes|
    ensures Resolve(inodes, i, [e] + es, parent) ==
            match StepOf(inodes, i, e, parent && es == [])
            case Panics => NoType
            case Fails => Nowhere
            case Stays => At(i)
            case Goes(j) => Resolve(inodes, j, es, parent)
  {
    assert ([e] + es)[1..] == es;
  }

  lemma ResolveNone(inodes: seq<Inode>, i: nat, parent: bool)
    ensures Resolve(inodes, i, [], parent) == if parent then Nowhere else At(i)
  {
  }

  /** One path behind another leads on from where the first one leads. */
  lemma {:induction false} ResolveOn(inodes: seq<Inode>, i: nat, a: seq<string>, b: seq<string>)
    ensures Resolve(inodes, i, a + b, false) ==
            if Resolve(inodes, i, a, false).At? then Resolve(inodes, Resolve(inodes, i, a, false).i, b, false)
            else Resolve(inodes, i, a, false)
    decreases |a|
  {
    if a == [] {
      assert a + b == b;
    } else if i < |inodes| && inodes[i].kind == Dir {
      assert (a + b)[1..] == a[1..] + b;
      var k := Lookup(inodes[i].entries, a[0], 0);
      if k.Some? {
        ResolveOn(inodes, inodes[i].entries[k.value].inum, a[1..], b);
      }
    }
  }

  /** nameiparent leads to where namei leads without the last element, if that is a directory. */
  lemma {:induction false} ResolveParent(inodes: seq<Inode>, i: nat, es: seq<string>)
    requires es != []
    ensures var d := Resolve(inodes, i, es[..|es| - 1], false);
            Resolve(inodes, i, es, true) ==
            if !d.At? then d
            else if d.i >= |inodes| || inodes[d.i].kind == Unused then NoType
            else if inodes[d.i].kind != Dir then Nowhere
            else d
    decreases |es|
  {
    if |es| > 1 && i < |inodes| && inodes[i].kind == Dir {
      var k := Lookup(inodes[i].entries, es[0], 0);
      assert es[..|es| - 1][1..] == es[1..][..|es| - 2];
      if k.Some? {
        ResolveParent(inodes, inodes[i].entries[k.value].inum, es[1..]);
      }
    }
  }

  lemma {:induction false} LookupNew(entries: seq<Entry>, v: nat, e: Entry, k: nat)
    requires Vacant(entries, v) && e.inum != 0 && k <= v && Lookup(entries, e.name, k) == None
    ensures Lookup(Put(entries, v, e), e.name, k) == Some(v)
    decreases v - k
  {
    if k < v {
      LookupNew(entries, v, e, k + 1);
    }
  }

  /** Creating an inode leaves every path leading where it led. */
  lemma {:induction false} CreateKeepsPaths(inodes: seq<Inode>, d: nat, k: nat, name: string, i: nat, kind: Kind,
                                            from: nat, es: seq<string>)
    requires d < |inodes| && inodes[d].kind == Dir && Vacant(inodes[d].entries, k) && i < |inodes| && i != d
    requires inodes[i].kind == Unused && Lookup(inodes[d].entries, name, 0) == None
    requires Resolve(inodes, from, es, false).At?
    ensures Resolve(WithNew(inodes, d, k, name, i, kind), from, es, false) == Resolve(inodes, from, es, false)
    decreases |es|
  {
    hide Lookup;
    if es != [] {
      var at := Lookup(inodes[from].entries, es[0], 0);
      if from == d {
        LookupPut(inodes[d].entries, k, Entry(name, i), es[0], 0);
      }
      CreateKeepsPaths(inodes, d, k, name, i, kind, inodes[from].entries[at.value].inum, es[1..]);
    }
  }

  /** What create makes in a directory is what that directory's path and the name lead to. */
  lemma CreatedIsFound(inodes: seq<Inode>, d: nat, k: nat, name: string, i: nat, kind: Kind, from: nat, es: seq<string>)
    requires d < |inodes| && inodes[d].kind == Dir && Vacant(inodes[d].entries, k) && 0 < i < |inodes| && i != d
    requires inodes[i].kind == Unused && Lookup(inodes[d].entries, name, 0) == None
    requires Resolve(inodes, from, es, false) == At(d)
    ensures Resolve(WithNew(inodes, d, k, name, i, kind), from, es + [name], false) == At(i)
  {
    var inodes' := WithNew(inodes, d, k, name, i, kind);
    CreateKeepsPaths(inodes, d, k, name, i, kind, from, es);
    LookupNew(inodes[d].entries, k, Entry(name, i), 0);
    ResolveOn(inodes', from, es, [name]);
    ResolveStep(inodes', d, name, [], false);
    assert [name] + [] == [name];
  }

  /** In a valid state every entry that can be found names an inode of the table. */
  lemma FoundInRange(inodes: seq<Inode>, refs: seq<nat>, pending: seq<nat>, places: seq<set<Place>>,
                     home: map<nat, Place>, d: nat, k: nat)
    requires AllGood(inodes, refs, pending, places, home) && d < |inodes| && inodes[d].kind == Dir
    requires k < |inodes[d].entries| && inodes[d].entries[k].inum != 0
    ensures inodes[d].entries[k].inum < |inodes|
  {
    Existing(inodes, refs, pending, places, home, d, k);
  }

  /** A process on its way holds one more reference, to inode ip, than there were before. */
  ghost predicate Holding(fs: Directories, was: seq<nat>, ip: nat)
    reads fs
  {
    && fs.Valid() && |was| == |fs.inodes| == |fs.refs| && ip < |was|
    && AllGood(fs.inodes, was, fs.pending, fs.places, fs.home)
    && fs.refs == was[ip := was[ip] + 1]
  }

  /** iput of a reference that was taken on the way: it is never the last one to an inode that
      has no link. */
  method PutBack(fs: Directories, ip: nat, ghost was: seq<nat>)
    requires Holding(fs, was, ip)
    modifies fs`refs, fs`inodes
    ensures fs.Valid() && fs.inodes == old(fs.inodes) && fs.refs == was
  {
    hide AllGood, Good;
    Facts(fs.inodes, was, fs.pending, fs.places, fs.home, ip);
    var _ := fs.Iput(ip);
    assert fs.refs == was;
  }

  /** From one inode on the way to the next. */
  method MoveOn(fs: Directories, ip: nat, next: nat, ghost was: seq<nat>)
    requires Holding(fs, was, ip) && next < |fs.inodes|
    modifies fs`refs, fs`inodes
    ensures Holding(fs, was, next) && fs.inodes == old(fs.inodes)
  {
    hide AllGood, Good;
    Facts(fs.inodes, was, fs.pending, fs.places, fs.home, ip);
    fs.Iget(next);
    var _ := fs.Iput(ip);
    assert fs.refs == was[next := was[next] + 1];
  }

  /** One round of namex: it panics, fails, stops here or goes on. */
  datatype Step = Panics | Fails | Stays | Goes(i: nat)

  function StepOf(inodes: seq<Inode>, i: nat, e: string, stop: bool): Step
    requires i < |inodes|
  {
    if inodes[i].kind == Unused then Panics
    else if inodes[i].kind != Dir then Fails
    else if stop then Stays
    else
      var k := Lookup(inodes[i].entries, e, 0);
      if k == None then Fails else Goes(inodes[i].entries[k.value].inum)
  }

  /** namex's loop body. */
  method Descend(fs: Directories, ip: nat, name: string, stop: bool, ghost was: seq<nat>) returns (r: Step)
    requires Holding(fs, was, ip)
    modifies fs`refs, fs`inodes
    ensures fs.inodes == old(fs.inodes) && ip < |fs.inodes| && r == StepOf(fs.inodes, ip, name, stop)
    ensures r.Panics? || r.Stays? ==> Holding(fs, was, ip)
    ensures r.Stays? ==> stop
    ensures r.Fails? ==> fs.Valid() && fs.refs == was
    ensures r.Goes? ==> Holding(fs, was, r.i)
  {
    hide AllGood, Good, Lookup;
    if fs.inodes[ip].kind == Unused {
      return Panics;
    }
    if fs.inodes[ip].kind != Dir {
      PutBack(fs, ip, was);
      return Fails;
    }
    if stop {
      return Stays;
    }
    var k := fs.Dirlookup(ip, name);
    if k == None {
      PutBack(fs, ip, was);
      return Fails;
    }
    var next := fs.inodes[ip].entries[k.value].inum;
    FoundInRange(fs.inodes, fs.refs, fs.pending, fs.places, fs.home, ip, k.value);
    MoveOn(fs, ip, next, was);
    return Goes(next);
  }

  /** namex.  It leads where the elements of the path lead, leaves every inode as it is, and
      the one that it returns has one reference more; no other count changes. */
  method Namex(fs: Directories, path: string, cwd: nat, nameiparent: bool) returns (r: Walked, name: string)
    requires fs.Valid() && cwd < |fs.inodes| && ROOT < |fs.inodes|
    modifies fs`refs, fs`inodes
    ensures fs.inodes == old(fs.inodes)
    ensures r == Resolve(fs.inodes, if path != "" && path[0] == '/' then ROOT else cwd, Elements(path), nameiparent)
    ensures r.At? ==> r.i < |old(fs.refs)| && fs.refs == old(fs.refs)[r.i := old(fs.refs)[r.i] + 1]
    ensures r.Nowhere? ==> fs.refs == old(fs.refs)
    ensures r.At? && nameiparent ==> name == Last(Elements(path))
    ensures !r.NoType? ==> fs.Valid()
  {
    hide AllGood, Elements, Resolve, Last, Directories.Valid, StepOf;
    var ip: nat := if path != "" && path[0] == '/' then ROOT else cwd;
    ghost var goal := Resolve(fs.inodes, ip, Elements(path), nameiparent);
    Start(fs, ip);
    name := "";
    var next := Skipelem(path);
    ghost var todo := Elements(path);
    while next.Some?
      invariant fs.inodes == old(fs.inodes) && Holding(fs, old(fs.refs), ip)
      invariant next.None? <==> todo == []
      invariant next.Some? ==> Taken(todo, next.value.0, next.value.1)
      invariant goal == Resolve(fs.inodes, ip, todo, nameiparent)
      invariant todo != [] ==> Last(todo) == Last(Elements(path))
      decreases |todo|
    {
      name := next.value.0;
      var rest := next.value.1;
      ResolveStep(fs.inodes, ip, name, Elements(rest), nameiparent);
      LastStep(name, Elements(rest));
      var went := Descend(fs, ip, name, nameiparent && rest == "", old(fs.refs));
      match went {
        case Panics => return NoType, name;
        case Fails => return Nowhere, name;
        case Stays => return At(ip), name;
        case Goes(i) => ip := i;
      }
      next := Skipelem(rest);
      todo := Elements(rest);
    }
    ResolveNone(fs.inodes, ip, nameiparent);
    if nameiparent {
      PutBack(fs, ip, old(fs.refs));
      return Nowhere, name;
    }
    return At(ip), name;
  }

  /** iget of the root, or idup of the current directory. */
  method Start(fs: Directories, ip: nat)
    requires fs.Valid() && ip < |fs.inodes|
    modifies fs`refs
    ensures Holding(fs, old(fs.refs), ip)
  {
    hide AllGood;
    Sizes(fs.inodes, fs.refs, fs.pending, fs.places, fs.home);
    fs.Iget(ip);
  }

  /** A directory in a directory of the root. */
  method Nested(n: nat) returns (fs: Directories, p: nat, d: nat)
    requires n > 4
    ensures fs.Valid() && |fs.inodes| == n && fresh(fs) && |fs.refs| == n
    ensures 0 < p < n && 0 < d < n && p != d && p != ROOT && d != ROOT && fs.refs[p] == fs.refs[d] == 1
    ensures fs.inodes[ROOT] == Inode(Dir, 2, [Entry(".", ROOT), Entry("..", ROOT), Entry("p", p)])
    ensures fs.inodes[p] == Inode(Dir, 2, [Entry(".", p), Entry("..", ROOT), Entry("d", d)])
    ensures fs.inodes[d] == Inode(Dir, 1, [Entry(".", d), Entry("..", p)])
  {
    hide Good, Named, Counts, Right, LinksTo, AllGood, Lookup;
    fs := new Directories(n);
    FreshName(fs.inodes[ROOT].entries, "p");
    assert fs.inodes[2].kind == Unused;
    var outer := fs.Create(ROOT, "p", Dir);
    p := outer.inum;
    assert outer.at == 2;
    FreshName(fs.inodes[p].entries, "d");
    assert fs.inodes[if p == 2 then 3 else 2].kind == Unused;
    var inner := fs.Create(p, "d", Dir);
    d := inner.inum;
    assert inner.at == 2;
  }

  /** Both are unlinked while the inner one is open: the outer one is gone. */
  method LostParent(n: nat) returns (fs: Directories, d: nat)
    requires n > 4
    ensures fs.Valid() && |fs.inodes| == n && d < n && fs.refs[d] > 0 && fresh(fs)
    ensures fs.inodes[d].kind == Dir && |fs.inodes[d].entries| == 2 && fs.inodes[d].entries[1].name == ".."
    ensures fs.inodes[d].entries[0].name == "."
    ensures var p := fs.inodes[d].entries[1].inum; 0 < p < n && fs.inodes[p].kind == Unused
  {
    hide Good, Named, Counts, Right, LinksTo, AllGood, Lookup;
    var p;
    fs, p, d := Nested(n);
    OnlyName(fs.inodes[p].entries, "d");
    var ok, freed, k := fs.Unlink(p, "d");
    assert ok && k == 2 && !freed;
    freed := fs.Iput(p);
    assert !freed;
    OnlyName(fs.inodes[ROOT].entries, "p");
    ok, freed, k := fs.Unlink(ROOT, "p");
    assert ok && k == 2 && freed;
  }

  lemma UpAndOn()
    ensures Elements("../x") == ["..", "x"]
  {
    var path := "../x";
    assert path[1..] == "./x" && "./x"[1..] == "/x";
    assert Span("/x") == 0 && Span("./x") == 1 && Span(path) == 2;
    assert path[..2] == ".." && path[2..] == "/x" && "/x"[1..] == "x";
    assert "x"[1..] == "" && Span("x") == 1 && "x"[..1] == "x";
    assert Elements("x") == ["x"] && Elements("/x") == ["x"];
  }

  lemma DotDot(entries: seq<Entry>)
    requires |entries| == 2 && entries[0].name == "." && entries[1].name == ".." && entries[1].inum != 0
    ensures Lookup(entries, "..", 0) == Some(1)
  {
    assert Lookup(entries, "..", 1) == Some(1);
  }

  /** A path through its ".." then ends in the panic. */
  method LostPath(n: nat) returns (r: Walked)
    requires n > 4
    ensures r == NoType
  {
    hide AllGood;
    var fs, d := LostParent(n);
    var name;
    UpAndOn();
    DotDot(fs.inodes[d].entries);
    r, name := Namex(fs, "../x", d, false);
  }
}
