/** Copies between kernel and user memory (kernel/vm.c: copyout, copyin, copyinstr): page by
    page through the page table, they are splices and slices of the user's bytes. */
module UserCopy {
  import opened Common
  import opened PageTree
  import opened VirtualMemory

  /* -------- the bytes of a page -------- */

  type byte = b: nat | b < 256

  /** Byte k of a little-endian word. */
  function ByteIn(w: nat, k: nat): byte {
    if k == 0 then w % 256 else ByteIn(w / 256, k - 1)
  }

  function Pack(bytes: seq<byte>): nat {
    if bytes == [] then 0 else bytes[0] + 256 * Pack(bytes[1..])
  }

  lemma {:induction false} ByteInPack(bytes: seq<byte>, k: nat)
    requires k < |bytes|
    ensures ByteIn(Pack(bytes), k) == bytes[k]
  {
    assert Pack(bytes) % 256 == bytes[0] && Pack(bytes) / 256 == Pack(bytes[1..]);
    if k > 0 {
      ByteInPack(bytes[1..], k - 1);
    }
  }

  function PageBytes(p: Page): (b: seq<byte>)
    requires |p.words| == 512
    ensures |b| == PGSIZE
  {
    seq(PGSIZE, o requires 0 <= o < PGSIZE => ByteIn(p.words[o / 8], o % 8))
  }

  function FromBytes(b: seq<byte>): (p: Page)
    requires |b| == PGSIZE
    ensures |p.words| == 512
  {
    Page(seq(512, i requires 0 <= i < 512 => Pack(b[8 * i..8 * i + 8])))
  }

  /** A page made of bytes has these bytes. */
  lemma BytesFrom(b: seq<byte>)
    requires |b| == PGSIZE
    ensures PageBytes(FromBytes(b)) == b
  {
    forall o | 0 <= o < PGSIZE
      ensures PageBytes(FromBytes(b))[o] == b[o]
    {
      var i := o / 8;
      ByteInPack(b[8 * i..8 * i + 8], o % 8);
      assert b[8 * i..8 * i + 8][o % 8] == b[o];
    }
  }

  /** memmove into a page. */
  function Poke(p: Page, o: nat, chunk: seq<byte>): (r: Page)
    requires |p.words| == 512 && o + |chunk| <= PGSIZE
    ensures |r.words| == 512
  {
    var b := PageBytes(p);
    FromBytes(b[..o] + chunk + b[o + |chunk|..])
  }

  lemma PokeBytes(p: Page, o: nat, chunk: seq<byte>)
    requires |p.words| == 512 && o + |chunk| <= PGSIZE
    ensures var b := PageBytes(p); PageBytes(Poke(p, o, chunk)) == b[..o] + chunk + b[o + |chunk|..]
  {
    hide PageBytes, FromBytes;
    var b := PageBytes(p);
    BytesFrom(b[..o] + chunk + b[o + |chunk|..]);
  }

  /* -------- the user's memory -------- */

  /** A page that the user may touch. */
  ghost predicate User(tree: Tree, root: nat, v: nat) {
    v < VPAGES && Node(root, 0, v) in tree && IsUser(tree[Node(root, 0, v)])
  }

  ghost function PageFor(tree: Tree, root: nat, v: nat): nat
    requires User(tree, root, v)
  {
    PageOf(tree[Node(root, 0, v)])
  }

  /** Every such page is the page table's own, as uvmalloc and uvmcopy make them. */
  ghost predicate Own(tree: Tree, role: seq<Role>, root: nat) {
    forall v: nat | User(tree, root, v) ::
      PageFor(tree, root, v) < |role| && role[PageFor(tree, root, v)] == Leaf(root, v)
  }

  /** Every such page is memory. */
  ghost predicate Backed(mem: seq<Page>, tree: Tree, root: nat) {
    forall v: nat | User(tree, root, v) :: 0 < PageFor(tree, root, v) < |mem|
  }

  /** The byte at a user address, if the user may read it. */
  ghost function ByteAt(mem: seq<Page>, tree: Tree, root: nat, a: nat): Option<byte> {
    if User(tree, root, a / PGSIZE) && PageFor(tree, root, a / PGSIZE) < |mem| &&
       |mem[PageFor(tree, root, a / PGSIZE)].words| == 512
    then Some(PageBytes(mem[PageFor(tree, root, a / PGSIZE)])[a % PGSIZE])
    else None
  }

  /** The n bytes from a on can all be read. */
  ghost predicate Readable(mem: seq<Page>, tree: Tree, root: nat, a: nat, n: nat) {
    forall b: nat | a <= b < a + n :: ByteAt(mem, tree, root, b).Some?
  }

  /** These are the bytes from a on. */
  ghost predicate Reads(mem: seq<Page>, tree: Tree, root: nat, a: nat, bytes: seq<byte>) {
    forall b: nat | a <= b < a + |bytes| :: ByteAt(mem, tree, root, b) == Some(bytes[b - a])
  }

  /** The user's bytes from a on became these; all other user bytes of every process and all
      pages that are not this page table's own stayed. */
  ghost predicate Written(mem: seq<Page>, mem': seq<Page>, tree: Tree, role: seq<Role>, root: nat, a: nat,
                          bytes: seq<byte>)
  {
    && |mem'| == |mem| == |role|
    && (forall r: nat, b: nat | Own(tree, role, r) ::
          ByteAt(mem', tree, r, b) ==
          if r == root && a <= b < a + |bytes| then Some(bytes[b - a]) else ByteAt(mem, tree, r, b))
    && (forall p | 0 <= p < |mem| && mem'[p] != mem[p] :: role[p].Leaf? && role[p].root == root)
    && (forall p | 0 <= p < |mem| :: |mem'[p].words| == |mem[p].words|)
  }

  /** copyin after copyout gives the bytes back. */
  lemma CopiedBack(mem: seq<Page>, mem': seq<Page>, tree: Tree, role: seq<Role>, root: nat, a: nat,
                   bytes: seq<byte>, got: seq<byte>)
    requires Own(tree, role, root) && Written(mem, mem', tree, role, root, a, bytes)
    requires Reads(mem', tree, root, a, got) && |got| == |bytes|
    ensures got == bytes
  {
    hide ByteAt, Own;
    forall k | 0 <= k < |got|
      ensures got[k] == bytes[k]
    {
      assert ByteAt(mem', tree, root, a + k) == Some(got[k]);
    }
  }

  /** Copies of disjoint ranges do not disturb each other, whichever processes they are in. */
  lemma CopiedApart(mem: seq<Page>, mem': seq<Page>, tree: Tree, role: seq<Role>, root: nat, a: nat,
                    bytes: seq<byte>, root': nat, a': nat, got: seq<byte>)
    requires Own(tree, role, root') && Written(mem, mem', tree, role, root, a, bytes)
    requires root' != root || a' + |got| <= a || a + |bytes| <= a'
    ensures Reads(mem', tree, root', a', got) <==> Reads(mem, tree, root', a', got)
  {
    hide ByteAt, Own;
  }

  lemma ReadsMore(mem: seq<Page>, tree: Tree, root: nat, a: nat, bytes: seq<byte>, more: seq<byte>)
    requires Reads(mem, tree, root, a, bytes) && Reads(mem, tree, root, a + |bytes|, more)
    ensures Reads(mem, tree, root, a, bytes + more)
  {
    hide ByteAt;
  }

  lemma WrittenNone(mem: seq<Page>, tree: Tree, role: seq<Role>, root: nat, a: nat)
    requires |mem| == |role|
    ensures Written(mem, mem, tree, role, root, a, [])
  {
    hide ByteAt, Own;
  }

  lemma WrittenMore(mem: seq<Page>, mem': seq<Page>, mem'': seq<Page>, tree: Tree, role: seq<Role>, root: nat,
                    a: nat, bytes: seq<byte>, more: seq<byte>)
    requires Written(mem, mem', tree, role, root, a, bytes)
    requires Written(mem', mem'', tree, role, root, a + |bytes|, more)
    ensures Written(mem, mem'', tree, role, root, a, bytes + more)
  {
    hide ByteAt, Own;
  }

  lemma WrittenReadable(mem: seq<Page>, mem': seq<Page>, tree: Tree, role: seq<Role>, root: nat, a: nat,
                        bytes: seq<byte>, b: nat)
    requires Own(tree, role, root) && Written(mem, mem', tree, role, root, a, bytes) && b >= a + |bytes|
    ensures ByteAt(mem', tree, root, b) == ByteAt(mem, tree, root, b)
  {
    hide ByteAt, Own;
  }

  /* -------- one page -------- */

  /** How many of n bytes from a on are in its page. */
  function Part(a: nat, n: nat): (m: nat)
    ensures m <= n && m <= PGSIZE - a % PGSIZE && (n > 0 ==> m > 0)
  {
    if PGSIZE - a % PGSIZE > n then n else PGSIZE - a % PGSIZE
  }

  lemma SamePage(a: nat, b: nat, n: nat)
    requires n <= PGSIZE - a % PGSIZE && a <= b < a + n
    ensures b / PGSIZE == a / PGSIZE && b % PGSIZE == a % PGSIZE + (b - a)
  {
  }

  lemma PageReads(mem: seq<Page>, tree: Tree, root: nat, a: nat, n: nat)
    requires User(tree, root, a / PGSIZE) && PageFor(tree, root, a / PGSIZE) < |mem|
    requires |mem[PageFor(tree, root, a / PGSIZE)].words| == 512 && n <= PGSIZE - a % PGSIZE
    ensures Reads(mem, tree, root, a,
                  PageBytes(mem[PageFor(tree, root, a / PGSIZE)])[a % PGSIZE..a % PGSIZE + n])
  {
    hide User, PageFor, PageBytes;
    forall b: nat | a <= b < a + n
      ensures b / PGSIZE == a / PGSIZE && b % PGSIZE == a % PGSIZE + (b - a)
    {
      SamePage(a, b, n);
    }
  }

  /** Writing into one page writes these bytes. */
  lemma PageWritten(mem: seq<Page>, tree: Tree, role: seq<Role>, root: nat, a: nat, chunk: seq<byte>)
    requires User(tree, root, a / PGSIZE) && Own(tree, role, root) && |mem| == |role|
    requires PageFor(tree, root, a / PGSIZE) < |mem| && |mem[PageFor(tree, root, a / PGSIZE)].words| == 512
    requires |chunk| <= PGSIZE - a % PGSIZE
    ensures var p := PageFor(tree, root, a / PGSIZE);
            Written(mem, mem[p := Poke(mem[p], a % PGSIZE, chunk)], tree, role, root, a, chunk)
  {
    hide User, PageFor, PageBytes, Poke;
    var v, p := a / PGSIZE, PageFor(tree, root, a / PGSIZE);
    var mem' := mem[p := Poke(mem[p], a % PGSIZE, chunk)];
    assert role[p] == Leaf(root, v);
    PokeBytes(mem[p], a % PGSIZE, chunk);
    forall r: nat, b: nat | Own(tree, role, r)
      ensures ByteAt(mem', tree, r, b) ==
              if r == root && a <= b < a + |chunk| then Some(chunk[b - a]) else ByteAt(mem, tree, r, b)
    {
      if a <= b < a + |chunk| {
        SamePage(a, b, |chunk|);
      }
      if r == root && b / PGSIZE == v {
        assert b == v * PGSIZE + b % PGSIZE && a == v * PGSIZE + a % PGSIZE;
      } else {
        OtherPage(tree, role, root, v, r, b / PGSIZE);
      }
    }
  }

  lemma OtherPage(tree: Tree, role: seq<Role>, root: nat, v: nat, r: nat, w: nat)
    requires Own(tree, role, root) && User(tree, root, v) && Own(tree, role, r) && (r != root || w != v)
    ensures User(tree, r, w) ==> PageFor(tree, r, w) != PageFor(tree, root, v)
  {
  }

  /** A process's pages are memory. */
  lemma OwnBacked(m: Memory, root: nat)
    requires m.Valid() && Own(m.tree, m.role, root)
    ensures Backed(m.mem, m.tree, root)
  {
    hide TreeOk, RolesOk, User, PageFor;
    forall v: nat | User(m.tree, root, v)
      ensures 0 < PageFor(m.tree, root, v) < |m.mem|
    {
      LeafNotLow(m.lo, m.mem, m.role, m.free, m.freelist, PageFor(m.tree, root, v));
    }
  }

  /* -------- the copies -------- */

  /** The page of address a, through walkaddr. */
  method UserPage(m: Memory, root: nat, a: nat) returns (p: nat)
    requires m.Valid() && Node(root, 3, 0) in m.tree && Backed(m.mem, m.tree, root)
    modifies m
    ensures m.tree == old(m.tree) && m.role == old(m.role) && m.free == old(m.free) && m.mem == old(m.mem)
    ensures p == 0 <==> ByteAt(m.mem, m.tree, root, a).None?
    ensures p != 0 ==> User(m.tree, root, a / PGSIZE) && p == PageFor(m.tree, root, a / PGSIZE) < |m.mem|
                       && |m.mem[p].words| == 512
    ensures m.Valid()
  {
    hide TreeOk, RolesOk, PageOf, IsUser, PageBytes;
    Sizes(m.lo, m.mem, m.role, m.free, m.freelist);
    var pa := m.Walkaddr(root, a / PGSIZE * PGSIZE);
    assert a / PGSIZE * PGSIZE / PGSIZE == a / PGSIZE;
    p := pa / PGSIZE;
  }

  /** copyin: the n bytes at va, unless one of them cannot be read. */
  method Copyin(m: Memory, root: nat, va: nat, n: nat) returns (r: Option<seq<byte>>)
    requires m.Valid() && Node(root, 3, 0) in m.tree && Backed(m.mem, m.tree, root)
    modifies m
    ensures m.tree == old(m.tree) && m.role == old(m.role) && m.free == old(m.free) && m.mem == old(m.mem)
    ensures r.Some? <==> Readable(m.mem, m.tree, root, va, n)
    ensures r.Some? ==> |r.value| == n && Reads(m.mem, m.tree, root, va, r.value)
    ensures m.Valid()
  {
    hide m.Valid, ByteAt, User, PageFor, Backed, PageBytes, Part;
    var got: seq<byte> := [];
    while |got| < n
      invariant m.tree == old(m.tree) && m.role == old(m.role) && m.free == old(m.free) && m.mem == old(m.mem)
      invariant m.Valid() && |got| <= n && Reads(m.mem, m.tree, root, va, got)
    {
      var a := va + |got|;
      var p := UserPage(m, root, a);
      if p == 0 {
        return None;
      }
      var k := Part(a, n - |got|);
      PageReads(m.mem, m.tree, root, a, k);
      ReadsMore(m.mem, m.tree, root, va, got, PageBytes(m.mem[p])[a % PGSIZE..a % PGSIZE + k]);
      got := got + PageBytes(m.mem[p])[a % PGSIZE..a % PGSIZE + k];
    }
    return Some(got);
  }

  /** copyout: writes src at va, up to the first page that the user may not touch. */
  method Copyout(m: Memory, root: nat, va: nat, src: seq<byte>) returns (ok: bool, ghost done: nat)
    requires m.Valid() && Node(root, 3, 0) in m.tree && Own(m.tree, m.role, root)
    modifies m
    ensures m.tree == old(m.tree) && m.role == old(m.role) && m.free == old(m.free)
    ensures ok <==> Readable(old(m.mem), m.tree, root, va, |src|)
    ensures done <= |src| && (ok ==> done == |src|)
    ensures Readable(old(m.mem), m.tree, root, va, done)
    ensures !ok ==> ByteAt(old(m.mem), m.tree, root, va + done).None?
    ensures Written(old(m.mem), m.mem, m.tree, m.role, root, va, src[..done])
    ensures m.Valid()
  {
    hide m.Valid, ByteAt, User, PageFor, Own, Backed, PageBytes, Part, Written;
    done := 0;
    ValidSizes(m);
    WrittenNone(m.mem, m.tree, m.role, root, va);
    var i := 0;
    while i < |src|
      invariant m.tree == old(m.tree) && m.role == old(m.role) && m.free == old(m.free)
      invariant m.Valid() && done == i <= |src| && Readable(old(m.mem), m.tree, root, va, i)
      invariant Written(old(m.mem), m.mem, m.tree, m.role, root, va, src[..i])
    {
      var a := va + i;
      OwnBacked(m, root);
      var p := UserPage(m, root, a);
      WrittenReadable(old(m.mem), m.mem, m.tree, m.role, root, va, src[..i], a);
      if p == 0 {
        return false, i;
      }
      var k := Part(a, |src| - i);
      ghost var mem0 := m.mem;
      WritePage(m, root, a, p, src[i..i + k]);
      WrittenMore(old(m.mem), mem0, m.mem, m.tree, m.role, root, va, src[..i], src[i..i + k]);
      assert src[..i] + src[i..i + k] == src[..i + k];
      PageReads(mem0, m.tree, root, a, k);
      forall b: nat | va <= b < va + i + k
        ensures ByteAt(old(m.mem), m.tree, root, b).Some?
      {
        if b >= va + i {
          WrittenReadable(old(m.mem), mem0, m.tree, m.role, root, va, src[..i], b);
        }
      }
      i := i + k;
      done := i;
    }
    return true, |src|;
  }

  lemma ValidSizes(m: Memory)
    requires m.Valid()
    ensures |m.role| == |m.mem| && forall p | 0 <= p < |m.mem| :: |m.mem[p].words| == 512
  {
    hide TreeOk, RolesOk;
  }

  /** memmove into a user page. */
  method WritePage(m: Memory, root: nat, a: nat, p: nat, chunk: seq<byte>)
    requires m.Valid() && Own(m.tree, m.role, root) && User(m.tree, root, a / PGSIZE)
    requires p == PageFor(m.tree, root, a / PGSIZE) < |m.mem| && |m.mem[p].words| == 512
    requires |chunk| <= PGSIZE - a % PGSIZE
    modifies m
    ensures m.tree == old(m.tree) && m.role == old(m.role) && m.free == old(m.free)
    ensures Written(old(m.mem), m.mem, m.tree, m.role, root, a, chunk)
    ensures m.Valid()
  {
    hide TreeOk, RolesOk, User, PageFor, PageBytes, Poke, FreeOk, Written;
    ValidSizes(m);
    PageWritten(m.mem, m.tree, m.role, root, a, chunk);
    assert m.role[p].Leaf?;
    ghost var mem0 := m.mem;
    m.mem := m.mem[p := Poke(m.mem[p], a % PGSIZE, chunk)];
    TreeSame(mem0, m.mem, m.tree, m.role, m.role, None);
    FreeSame(m.lo, mem0, m.mem, m.role, m.role, m.free, m.freelist);
  }

  /** A string of n bytes at a, before its nul. */
  ghost predicate Terminated(mem: seq<Page>, tree: Tree, root: nat, a: nat, n: nat) {
    && (forall b: nat | a <= b < a + n :: ByteAt(mem, tree, root, b).Some? && ByteAt(mem, tree, root, b) != Some(0))
    && ByteAt(mem, tree, root, a + n) == Some(0)
  }

  lemma NotTerminated(mem: seq<Page>, tree: Tree, root: nat, a: nat, got: seq<byte>, n: nat)
    requires Reads(mem, tree, root, a, got) && 0 !in got
    ensures n < |got| ==> !Terminated(mem, tree, root, a, n)
    ensures n >= |got| && ByteAt(mem, tree, root, a + |got|).None? ==> !Terminated(mem, tree, root, a, n)
  {
    hide ByteAt;
    if n < |got| {
      assert ByteAt(mem, tree, root, a + n) == Some(got[n]);
    }
  }

  /** copyinstr: the nul-terminated string at va, if it ends within max bytes. */
  method Copyinstr(m: Memory, root: nat, va: nat, max: nat) returns (r: Option<seq<byte>>)
    requires m.Valid() && Node(root, 3, 0) in m.tree && Backed(m.mem, m.tree, root)
    modifies m
    ensures m.tree == old(m.tree) && m.role == old(m.role) && m.free == old(m.free) && m.mem == old(m.mem)
    ensures r.Some? <==> exists n: nat :: n < max && Terminated(m.mem, m.tree, root, va, n)
    ensures r.Some? ==> |r.value| < max && 0 !in r.value && Reads(m.mem, m.tree, root, va, r.value + [0])
    ensures m.Valid()
  {
    hide m.Valid, ByteAt, User, PageFor, Backed, PageBytes, Part, Terminated;
    var got: seq<byte> := [];
    while |got| < max
      invariant m.tree == old(m.tree) && m.role == old(m.role) && m.free == old(m.free) && m.mem == old(m.mem)
      invariant m.Valid() && |got| <= max && Reads(m.mem, m.tree, root, va, got) && 0 !in got
    {
      var a := va + |got|;
      var p := UserPage(m, root, a);
      forall n: nat
        ensures p == 0 ==> !Terminated(m.mem, m.tree, root, va, n)
      {
        NotTerminated(m.mem, m.tree, root, va, got, n);
      }
      if p == 0 {
        return None;
      }
      var k := Part(a, max - |got|);
      PageReads(m.mem, m.tree, root, a, k);
      var part, nul := BeforeNul(PageBytes(m.mem[p])[a % PGSIZE..a % PGSIZE + k]);
      ReadsFirst(m.mem, m.tree, root, a, PageBytes(m.mem[p])[a % PGSIZE..a % PGSIZE + k], |part|);
      ReadsMore(m.mem, m.tree, root, va, got, part);
      if nul {
        Ended(m.mem, m.tree, root, va, got + part);
        return Some(got + part);
      }
      got := got + part;
    }
    forall n: nat | n < max
      ensures !Terminated(m.mem, m.tree, root, va, n)
    {
      NotTerminated(m.mem, m.tree, root, va, got, n);
    }
    return None;
  }

  lemma ReadsFirst(mem: seq<Page>, tree: Tree, root: nat, a: nat, bytes: seq<byte>, n: nat)
    requires Reads(mem, tree, root, a, bytes) && n <= |bytes|
    ensures Reads(mem, tree, root, a, bytes[..n])
    ensures n < |bytes| ==> ByteAt(mem, tree, root, a + n) == Some(bytes[n])
  {
    hide ByteAt;
  }

  lemma Ended(mem: seq<Page>, tree: Tree, root: nat, a: nat, got: seq<byte>)
    requires Reads(mem, tree, root, a, got) && 0 !in got && ByteAt(mem, tree, root, a + |got|) == Some(0)
    ensures Terminated(mem, tree, root, a, |got|) && Reads(mem, tree, root, a, got + [0])
  {
    hide ByteAt;
  }

  /** The inner loop: the bytes before the first nul. */
  method BeforeNul(bytes: seq<byte>) returns (part: seq<byte>, nul: bool)
    ensures part <= bytes && 0 !in part
    ensures if nul then |part| < |bytes| && bytes[|part|] == 0 else part == bytes
  {
    part := [];
    while |part| < |bytes|
      invariant part <= bytes && 0 !in part
    {
      if bytes[|part|] == 0 {
        return part, true;
      }
      part := part + [bytes[|part|]];
    }
    return part, false;
  }

  /* -------- new pages, and fork -------- */

  /** uvmalloc and uvmcopy keep the user pages of every process its own, with their bytes. */
  lemma AllocedOwn(tree: Tree, role: seq<Role>, mem: seq<Page>, tree': Tree, role': seq<Role>, mem': seq<Page>,
                   root: nat, first: nat, cur: nat, end: nat, r: nat)
    requires Alloced(tree, role, mem, tree', role', mem', root, first, cur, end) && Own(tree, role, r)
    requires forall v | first <= v < cur :: Leafy(tree', role', root, v, true)
    ensures Own(tree', role', r)
    ensures forall a: nat | ByteAt(mem, tree, r, a).Some? :: ByteAt(mem', tree', r, a) == ByteAt(mem, tree, r, a)
  {
    hide IsUser, PageOf, PageBytes, Needed, Flags;
    forall v: nat | User(tree', r, v)
      ensures PageFor(tree', r, v) < |role'| && role'[PageFor(tree', r, v)] == Leaf(r, v)
    {
      if Node(r, 0, v) in tree {
        assert User(tree, r, v);
        assert RoleAlloced(role[PageFor(tree, r, v)], role'[PageFor(tree, r, v)], root, first, cur);
      } else {
        assert Leafy(tree', role', root, v, true);
      }
    }
  }

  lemma UserFlag(pte: nat)
    ensures IsUser(pte) <==> Flags(pte) / 16 % 2 == 1
  {
    var q, f := pte / 1024, pte % 1024;
    assert pte == 16 * (64 * q) + f;
    assert pte / 16 == 2 * (32 * q) + f / 16;
  }

  lemma MadeUser(page: nat, pte: nat)
    ensures IsUser(MakePte(page, Flags(pte))) <==> IsUser(pte)
  {
    UserFlag(pte);
    UserFlag(MakePte(page, Flags(pte)));
  }

  /** After uvmcopy the child reads what the parent read. */
  lemma ForkedBytes(tree: Tree, role: seq<Role>, mem: seq<Page>, tree': Tree, role': seq<Role>, mem': seq<Page>,
                    parent: nat, child: nat, v: nat, a: nat)
    requires Leafy(tree, role, parent, v, true) && |role| == |mem| && v < VPAGES && a / PGSIZE == v
    requires Holding(tree', role', mem', child, v, DataOf(tree, mem, parent, v), PermOf(tree, parent, v))
    ensures ByteAt(mem', tree', child, a) == ByteAt(mem, tree, parent, a)
  {
    hide IsUser, PageBytes, Flags;
    MadeUser(PageOf(tree'[Node(child, 0, v)]), tree[Node(parent, 0, v)]);
  }

  lemma {:induction false} ZeroWord(k: nat)
    ensures ByteIn(0, k) == 0
  {
    if k > 0 {
      ZeroWord(k - 1);
    }
  }

  /** After uvmalloc the user may read, write and execute the new memory, which is zero. */
  lemma GrownBytes(tree: Tree, role: seq<Role>, mem: seq<Page>, tree': Tree, role': seq<Role>, mem': seq<Page>,
                   root: nat, oldsz: nat, newsz: nat, a: nat)
    requires Extended(tree, role, mem, tree', role', mem', root, oldsz, newsz) && newsz <= MAXVA
    requires PageUp(oldsz) <= a / PGSIZE < PageUp(newsz)
    ensures ByteAt(mem', tree', root, a) == Some(0)
    ensures var n := Node(root, 0, a / PGSIZE);
            n in tree' && IsReadable(tree'[n]) && IsWritable(tree'[n]) && IsExecutable(tree'[n]) && IsUser(tree'[n])
  {
    hide IsUser, IsReadable, IsWritable, IsExecutable, MakePte, PageOf, Alloced, ByteIn;
    var n := Node(root, 0, a / PGSIZE);
    assert Holding(tree', role', mem', root, a / PGSIZE, PageTree.Filled(0), USER);
    UserPte(PageOf(tree'[n]));
    ZeroWord(a % PGSIZE % 8);
  }
}
