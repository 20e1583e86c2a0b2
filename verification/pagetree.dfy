/** The structure of Sv39 page tables in physical memory (kernel/riscv.h; section 4.4 of
    the RISC-V Privileged Architecture) and the free list of pages.

    Physical memory is a sequence of pages of 512 words.  Ghost `tree` is the set of
    page-table entries in use: the node of height k and prefix x of a page table is
    the entry for the virtual pages v with v / 512^k == x, so height 0 is the leaf
    mapping of a page, heights 1 and 2 are table pages and height 3 is the root.
    Ghost `role` says what each physical page is for. */
module PageTree {
  import opened Common
  import opened Seqs

  const PGSIZE: nat := 4096
  const MAXVA: nat := 0x40_0000_0000
  const VPAGES: nat := MAXVA / PGSIZE
  const PTE_V: nat := 1
  const USER: nat := 30      // PTE_W | PTE_X | PTE_R | PTE_U

  datatype Page = Page(words: seq<nat>)

  datatype Node = Node(root: nat, height: nat, prefix: nat)

  /** What a physical page is: on the free list (and where), a page-table page, a
      page owned by one leaf mapping, or in anyone else's hands. */
  datatype Role = Free(index: nat) | Table(node: Node) | Leaf(root: nat, vpn: nat) | InUse

  type Tree = map<Node, nat>

  function PageOf(pte: nat): nat { pte / 1024 }

  function Flags(pte: nat): nat { pte % 1024 }

  function IsValid(pte: nat): bool { pte % 2 == 1 }

  /** None of PTE_R, PTE_W and PTE_X. */
  function IsTable(pte: nat): bool { pte / 2 % 8 == 0 }

  /** PTE_U. */
  function IsUser(pte: nat): bool { pte / 16 % 2 == 1 }

  /** PTE_R, PTE_W and PTE_X. */
  function IsReadable(pte: nat): bool { pte / 2 % 2 == 1 }

  function IsWritable(pte: nat): bool { pte / 4 % 2 == 1 }

  function IsExecutable(pte: nat): bool { pte / 8 % 2 == 1 }

  /** PA2PTE(page) | perm | PTE_V. */
  function MakePte(page: nat, perm: nat): (pte: nat)
    requires perm < 1024
    ensures PageOf(pte) == page && Flags(pte) == perm - perm % 2 + 1 && IsValid(pte)
  {
    PteParts(page, perm / 2);
    page * 1024 + (perm - perm % 2 + 1)
  }

  lemma PteParts(page: nat, half: nat)
    requires half < 512
    ensures var pte := page * 1024 + (2 * half + 1);
            pte / 1024 == page && pte % 1024 == 2 * half + 1 && pte % 2 == 1
  {
    assert page * 1024 + (2 * half + 1) == 2 * (page * 512 + half) + 1;
  }

  /** What uvmalloc maps the user can read, write, execute and touch at all. */
  lemma UserPte(page: nat)
    ensures var pte := MakePte(page, USER);
            IsValid(pte) && IsReadable(pte) && IsWritable(pte) && IsExecutable(pte) && IsUser(pte) && !IsTable(pte)
  {
    var pte := MakePte(page, USER);
    assert pte == 1024 * page + 31;
    hide MakePte;
    Bit1(pte, 256 * page + 7);
    Bit2(pte, 128 * page + 3);
    Bit3(pte, 64 * page + 1);
    Bit4(pte, 32 * page);
  }

  lemma Bit1(pte: nat, q: nat)
    requires pte == 4 * q + 3
    ensures IsValid(pte) && IsReadable(pte) && (pte / 2 % 8 == 0 ==> pte / 2 % 2 == 0)
  {
    assert pte / 2 == 2 * q + 1;
  }

  lemma Bit2(pte: nat, q: nat)
    requires pte == 8 * q + 7
    ensures IsWritable(pte)
  {
    assert pte / 4 == 2 * q + 1;
  }

  lemma Bit3(pte: nat, q: nat)
    requires pte == 16 * q + 15
    ensures IsExecutable(pte)
  {
    assert pte / 8 == 2 * q + 1;
  }

  lemma Bit4(pte: nat, q: nat)
    requires pte == 32 * q + 31
    ensures IsUser(pte)
  {
    assert pte / 16 == 2 * q + 1;
  }

  /** Page number v shifted right by k nine-bit indices. */
  function Up(v: nat, k: nat): nat {
    if k == 0 then v else Up(v, k - 1) / 512
  }

  function PX(level: nat, va: nat): (i: nat)
    ensures i < 512
  {
    Up(va / PGSIZE, level) % 512
  }

  function At(root: nat, v: nat, k: nat): Node {
    Node(root, k, Up(v, k))
  }

  function Child(n: Node, i: nat): Node
    requires n.height > 0
  {
    Node(n.root, n.height - 1, 512 * n.prefix + i)
  }

  function Parent(n: Node): Node {
    Node(n.root, n.height + 1, n.prefix / 512)
  }

  lemma ChildParent(n: Node, i: nat)
    requires n.height > 0 && i < 512
    ensures Parent(Child(n, i)) == n && Child(n, i).prefix % 512 == i && Child(n, i).height == n.height - 1
  {
  }

  lemma ParentChild(n: Node)
    ensures Child(Parent(n), n.prefix % 512) == n
  {
  }

  function Content(tree: Tree, n: Node): nat {
    if n in tree then tree[n] else 0
  }

  /** The table page of node n holds its children's entries, except `hole`'s. */
  ghost predicate Holds(mem: seq<Page>, tree: Tree, n: Node, hole: Option<Node>)
    requires n in tree && n.height > 0
  {
    var t := PageOf(tree[n]);
    && t < |mem| && |mem[t].words| == 512
    && forall i | 0 <= i < 512 :: hole == Some(Child(n, i)) || mem[t].words[i] == Content(tree, Child(n, i))
  }

  ghost predicate NodeOk(mem: seq<Page>, tree: Tree, role: seq<Role>, n: Node, hole: Option<Node>)
    requires n in tree
  {
    && n.height <= 3 && IsValid(tree[n])
    && (n.height == 3 ==> n.prefix == 0 && PageOf(tree[n]) == n.root)
    && (n.height < 3 ==> Parent(n) in tree)
    && (n.height > 0 ==> Flags(tree[n]) == PTE_V && Holds(mem, tree, n, hole)
                         && PageOf(tree[n]) < |role| && role[PageOf(tree[n])] == Table(n))
  }

  ghost predicate TreeOk(mem: seq<Page>, tree: Tree, role: seq<Role>, hole: Option<Node>) {
    forall n | n in tree :: NodeOk(mem, tree, role, n, hole)
  }

  /** Page-table pages and owned leaves are where their role says. */
  ghost predicate RoleOk(tree: Tree, role: seq<Role>, p: nat)
    requires p < |role|
  {
    match role[p]
    case Table(n) => n in tree && n.height > 0 && PageOf(tree[n]) == p
    case Leaf(r, v) => Node(r, 0, v) in tree && PageOf(tree[Node(r, 0, v)]) == p
    case _ => true
  }

  ghost predicate RolesOk(tree: Tree, role: seq<Role>) {
    forall p | 0 <= p < |role| :: RoleOk(tree, role, p)
  }

  /** The free list runs through the first words of the pages `free`, last first. */
  ghost predicate FreeOk(lo: nat, mem: seq<Page>, role: seq<Role>, free: seq<nat>, freelist: nat) {
    && |role| == |mem| && 0 < lo
    && (forall p | 0 <= p < |mem| :: |mem[p].words| == 512 && (p < lo ==> role[p] == InUse))
    && (forall p | 0 <= p < |mem| && role[p].Free? :: role[p].index < |free| && free[role[p].index] == p)
    && (forall i | 0 <= i < |free| :: lo <= free[i] < |mem| && role[free[i]] == Free(i))
    && (forall i, j | 0 <= i < |free| && j == i + 1 && j < |free| :: mem[free[j]].words[0] == free[i] * PGSIZE)
    && (|free| > 0 ==> mem[free[0]].words[0] == 0)
    && freelist == (if free == [] then 0 else free[|free| - 1] * PGSIZE)
  }

  /** The first words of a page full of bytes b. */
  function Filled(b: nat): (r: Page)
    ensures |r.words| == 512
  {
    Page(seq(512, _ => b * 0x0101_0101_0101_0101))
  }

  /** The page table that a page belongs to. */
  function Owner(role: Role): Option<nat> {
    match role
    case Table(n) => Some(n.root)
    case Leaf(r, _) => Some(r)
    case _ => None
  }

  /** Free pages may have become table pages; data pages kept their contents. */
  ghost predicate Kept(role: seq<Role>, mem: seq<Page>, role': seq<Role>, mem': seq<Page>) {
    && |mem'| == |mem| && |role'| == |role| == |mem|
    && (forall p | 0 <= p < |role| :: role'[p] == role[p] || (role[p].Free? && role'[p].Table?))
    && (forall p | 0 <= p < |role| && (role[p].Leaf? || role[p].InUse?) :: mem'[p] == mem[p])
  }

  /** Only table pages were added, out of free ones, and only for these nodes. */
  ghost predicate Grown(tree: Tree, role: seq<Role>, mem: seq<Page>, tree': Tree, role': seq<Role>, mem': seq<Page>,
                        added: set<Node>) {
    && Kept(role, mem, role', mem')
    && (forall n | n in tree :: n in tree' && tree'[n] == tree[n])
    && (forall n | n in tree' && n !in tree :: n in added)
  }

  /** The nodes of the lower table pages for virtual page v. */
  function Path(root: nat, v: nat): set<Node> { {At(root, v, 1), At(root, v, 2)} }

  function Needed(root: nat, first: nat, end: nat): set<Node>
    decreases end - first
  {
    if first >= end then {} else Path(root, first) + Needed(root, first + 1, end)
  }

  lemma GrownNone(lo: nat, mem: seq<Page>, role: seq<Role>, free: seq<nat>, freelist: nat, tree: Tree, added: set<Node>)
    requires FreeOk(lo, mem, role, free, freelist)
    ensures Grown(tree, role, mem, tree, role, mem, added)
  {
  }

  lemma GrownTable(tree: Tree, role: seq<Role>, mem: seq<Page>, n: Node, q: nat, t: nat, i: nat)
    requires |role| == |mem| && q < |mem| && role[q].Free? && n !in tree && t < |mem| && role[t].Table?
    requires |mem[t].words| == 512 && i < 512
    ensures Grown(tree, role, mem, tree[n := MakePte(q, 0)], role[q := Table(n)],
                  Stored(mem[q := Filled(0)], t, i, MakePte(q, 0)), {n})
  {
    hide MakePte, Filled;
  }

  lemma GrownTrans(tree: Tree, role: seq<Role>, mem: seq<Page>, tree': Tree, role': seq<Role>, mem': seq<Page>,
                   tree'': Tree, role'': seq<Role>, mem'': seq<Page>, some: set<Node>, more: set<Node>)
    requires Grown(tree, role, mem, tree', role', mem', some) && Grown(tree', role', mem', tree'', role'', mem'', more)
    ensures Grown(tree, role, mem, tree'', role'', mem'', some + more)
    ensures more <= some ==> Grown(tree, role, mem, tree'', role'', mem'', some)
  {
    if more <= some {
      assert some + more == some;
    }
  }

  lemma AtChild(root: nat, v: nat, k: nat)
    ensures At(root, v, k) == Child(At(root, v, k + 1), Up(v, k) % 512)
    ensures Parent(At(root, v, k)) == At(root, v, k + 1)
  {
    ParentChild(At(root, v, k));
  }

  lemma RootAt(mem: seq<Page>, tree: Tree, role: seq<Role>, root: nat, v: nat)
    requires TreeOk(mem, tree, role, None) && Node(root, 3, 0) in tree && v < VPAGES
    ensures At(root, v, 3) == Node(root, 3, 0) && PageOf(tree[Node(root, 3, 0)]) == root
    ensures At(root, v, 0) == Node(root, 0, v) && Up(v, 0) == v
  {
    assert NodeOk(mem, tree, role, Node(root, 3, 0), None);
    assert Up(v, 1) == Up(v, 0) / 512 && Up(v, 2) == Up(v, 1) / 512 && Up(v, 3) == Up(v, 2) / 512;
  }

  lemma NodeAt(mem: seq<Page>, tree: Tree, role: seq<Role>, n: Node)
    requires TreeOk(mem, tree, role, None)
    ensures n in tree ==> IsValid(tree[n]) && (n.height < 3 ==> Parent(n) in tree)
  {
    if n in tree {
      assert NodeOk(mem, tree, role, n, None);
    }
  }

  /** How many of the table pages for virtual page v are missing. */
  function Lacks(tree: Tree, root: nat, v: nat): nat {
    (if At(root, v, 2) in tree then 0 else 1) + (if At(root, v, 1) in tree then 0 else 1)
  }

  lemma TreeSame(mem: seq<Page>, mem': seq<Page>, tree: Tree, role: seq<Role>, role': seq<Role>, hole: Option<Node>)
    requires TreeOk(mem, tree, role, hole)
    requires |role| == |role'| == |mem| == |mem'|
    requires forall p | 0 <= p < |mem| && role[p].Table? :: role'[p] == role[p] && mem'[p] == mem[p]
    ensures TreeOk(mem', tree, role', hole)
  {
    forall n | n in tree
      ensures NodeOk(mem', tree, role', n, hole)
    {
      assert NodeOk(mem, tree, role, n, hole);
    }
  }

  lemma RolesSame(tree: Tree, role: seq<Role>, role': seq<Role>)
    requires RolesOk(tree, role) && |role| == |role'|
    requires forall p | 0 <= p < |role| :: role'[p] == role[p] || role'[p].InUse? || role'[p].Free?
    ensures RolesOk(tree, role')
  {
    forall p | 0 <= p < |role|
      ensures RoleOk(tree, role', p)
    {
      assert RoleOk(tree, role, p);
    }
  }

  /** Writing a node's entry into its parent's table closes the hole. */
  lemma CloseHole(mem: seq<Page>, tree: Tree, role: seq<Role>, n: Node, m: Node)
    requires TreeOk(mem, tree, role, Some(n)) && m in tree && m == Parent(n)
    requires PageOf(tree[m]) < |mem| && |mem[PageOf(tree[m])].words| == 512
    ensures TreeOk(Stored(mem, PageOf(tree[m]), n.prefix % 512, Content(tree, n)), tree, role, None)
  {
    var t, i := PageOf(tree[m]), n.prefix % 512;
    var mem' := Stored(mem, t, i, Content(tree, n));
    ParentChild(n);
    forall k | k in tree
      ensures NodeOk(mem', tree, role, k, None)
    {
      assert NodeOk(mem, tree, role, k, Some(n));
      assert NodeOk(mem, tree, role, m, Some(n));
      if k.height > 0 {
        forall j | 0 <= j < 512
          ensures mem'[PageOf(tree[k])].words[j] == Content(tree, Child(k, j))
        {
          ChildParent(k, j);
        }
      }
    }
  }

  function Stored(mem: seq<Page>, t: nat, i: nat, w: nat): seq<Page>
    requires t < |mem| && i < |mem[t].words|
  {
    mem[t := Page(mem[t].words[i := w])]
  }

  ghost predicate SameBut(tree: Tree, tree': Tree, n: Node) {
    && (forall k | k in tree && k != n :: k in tree' && tree'[k] == tree[k])
    && (forall k | k in tree' && k != n :: k in tree)
  }

  /** Changing what the tree says of one node opens a hole there, if every node
      keeps its parent and a new table page is empty. */
  lemma OpenHole(mem: seq<Page>, tree: Tree, role: seq<Role>, tree': Tree, role': seq<Role>, n: Node)
    requires TreeOk(mem, tree, role, None)
    requires SameBut(tree, tree', n)
    requires |role'| == |role| && forall p | 0 <= p < |role| && role[p].Table?
             && role[p] != Table(n) :: role'[p] == role[p]
    requires n !in tree' ==> forall k | k in tree :: Parent(k) != n || k.height >= 3
    requires n in tree' ==> n !in tree && n.height < 3 && Parent(n) in tree && IsValid(tree'[n])
    requires n in tree' && n.height > 0 ==>
               && Flags(tree'[n]) == PTE_V && PageOf(tree'[n]) < |role| == |mem| && role'[PageOf(tree'[n])] == Table(n)
               && mem[PageOf(tree'[n])] == Filled(0)
    ensures TreeOk(mem, tree', role', Some(n))
  {
    forall k | k in tree'
      ensures NodeOk(mem, tree', role', k, Some(n))
    {
      if k != n {
        assert NodeOk(mem, tree, role, k, None);
      } else if n.height > 0 {
        forall j | 0 <= j < 512
          ensures Child(n, j) !in tree'
        {
          ChildParent(n, j);
          NodeAt(mem, tree, role, Child(n, j));
        }
      }
    }
  }

  lemma Sizes(lo: nat, mem: seq<Page>, role: seq<Role>, free: seq<nat>, freelist: nat)
    requires FreeOk(lo, mem, role, free, freelist)
    ensures |role| == |mem| && 0 < lo && forall p | 0 <= p < |mem| :: |mem[p].words| == 512
  {
  }

  lemma FreeSame(lo: nat, mem: seq<Page>, mem': seq<Page>, role: seq<Role>, role': seq<Role>, free: seq<nat>,
                 freelist: nat)
    requires FreeOk(lo, mem, role, free, freelist)
    requires |mem'| == |mem| && |role'| == |role|
    requires forall p | 0 <= p < |mem| :: |mem'[p].words| == 512 && (role[p].Free? ==> mem'[p] == mem[p])
    requires forall p | 0 <= p < |mem| && role'[p] != role[p] :: p >= lo && !role[p].Free? && !role'[p].Free?
    ensures FreeOk(lo, mem', role', free, freelist)
  {
  }

  /** A page joins the free list at its head. */
  lemma FreeMore(lo: nat, mem: seq<Page>, role: seq<Role>, free: seq<nat>, freelist: nat, p: nat, page: Page)
    requires FreeOk(lo, mem, role, free, freelist) && lo <= p < |mem| && role[p] == InUse
    requires |page.words| == 512 && page.words[0] == freelist
    ensures FreeOk(lo, mem[p := page], role[p := Free(|free|)], free + [p], p * PGSIZE)
  {
  }

  lemma RolesMore(tree: Tree, role: seq<Role>, tree': Tree, role': seq<Role>)
    requires RolesOk(tree, role) && |role| == |role'|
    requires forall n | n in tree :: n in tree' && tree'[n] == tree[n]
    requires forall p | 0 <= p < |role| && role'[p] != role[p] :: RoleOk(tree', role', p)
    ensures RolesOk(tree', role')
  {
    forall p | 0 <= p < |role|
      ensures RoleOk(tree', role', p)
    {
      assert RoleOk(tree, role, p);
    }
  }

  lemma TableAt(mem: seq<Page>, tree: Tree, role: seq<Role>, n: Node)
    requires TreeOk(mem, tree, role, None) && n in tree && n.height > 0
    ensures PageOf(tree[n]) < |mem| && PageOf(tree[n]) < |role| && role[PageOf(tree[n])] == Table(n) && n.height <= 3
    ensures |mem[PageOf(tree[n])].words| == 512
    ensures forall i | 0 <= i < 512 :: mem[PageOf(tree[n])].words[i] == Content(tree, Child(n, i))
  {
    assert NodeOk(mem, tree, role, n, None);
  }

  lemma TableAdded(mem: seq<Page>, tree: Tree, role: seq<Role>, q: nat, n: Node)
    requires TreeOk(mem, tree, role, None) && RolesOk(tree, role)
    requires |mem| == |role| && q < |mem| && role[q] == InUse
    requires n !in tree && 1 <= n.height < 3 && Parent(n) in tree
    ensures TreeOk(mem[q := Filled(0)], tree[n := MakePte(q, 0)], role[q := Table(n)], Some(n))
    ensures RolesOk(tree[n := MakePte(q, 0)], role[q := Table(n)])
  {
    TreeSame(mem, mem[q := Filled(0)], tree, role, role, None);
    OpenHole(mem[q := Filled(0)], tree, role, tree[n := MakePte(q, 0)], role[q := Table(n)], n);
    RolesMore(tree, role, tree[n := MakePte(q, 0)], role[q := Table(n)]);
  }

  lemma LeafAdded(mem: seq<Page>, tree: Tree, role: seq<Role>, root: nat, v: nat, pte: nat)
    requires TreeOk(mem, tree, role, None) && RolesOk(tree, role) && IsValid(pte) && |role| == |mem|
    requires Node(root, 0, v) !in tree && At(root, v, 1) in tree
    requires PageOf(tree[At(root, v, 1)]) < |mem| && |mem[PageOf(tree[At(root, v, 1)])].words| == 512
    ensures TreeOk(Stored(mem, PageOf(tree[At(root, v, 1)]), v % 512, pte), tree[Node(root, 0, v) := pte], role, None)
    ensures RolesOk(tree[Node(root, 0, v) := pte], role)
  {
    var n := Node(root, 0, v);
    var tree' := tree[n := pte];
    assert Up(v, 0) == v && Parent(n) == At(root, v, 1);
    OpenHole(mem, tree, role, tree', role, n);
    CloseHole(mem, tree', role, n, At(root, v, 1));
    RolesMore(tree, role, tree', role);
  }

  lemma LeafRemoved(mem: seq<Page>, tree: Tree, role: seq<Role>, root: nat, v: nat)
    requires TreeOk(mem, tree, role, None) && RolesOk(tree, role) && |role| == |mem|
    requires Node(root, 0, v) in tree && At(root, v, 1) in tree && Leaf(root, v) !in role
    requires PageOf(tree[At(root, v, 1)]) < |mem| && |mem[PageOf(tree[At(root, v, 1)])].words| == 512
    ensures TreeOk(Stored(mem, PageOf(tree[At(root, v, 1)]), v % 512, 0), tree - {Node(root, 0, v)}, role, None)
    ensures RolesOk(tree - {Node(root, 0, v)}, role)
  {
    var n := Node(root, 0, v);
    var tree' := tree - {n};
    assert Up(v, 0) == v && Parent(n) == At(root, v, 1);
    OpenHole(mem, tree, role, tree', role, n);
    CloseHole(mem, tree', role, n, At(root, v, 1));
    forall p | 0 <= p < |role|
      ensures RoleOk(tree', role, p)
    {
      assert RoleOk(tree, role, p);
    }
  }

  lemma LeafOwned(lo: nat, mem: seq<Page>, role: seq<Role>, free: seq<nat>, freelist: nat, tree: Tree, page: nat,
                  root: nat, v: nat)
    requires FreeOk(lo, mem, role, free, freelist) && TreeOk(mem, tree, role, None) && RolesOk(tree, role)
    requires lo <= page < |role| && role[page] == InUse && Node(root, 0, v) in tree
             && PageOf(tree[Node(root, 0, v)]) == page
    ensures FreeOk(lo, mem, role[page := Leaf(root, v)], free, freelist)
    ensures TreeOk(mem, tree, role[page := Leaf(root, v)], None) && RolesOk(tree, role[page := Leaf(root, v)])
  {
    var role' := role[page := Leaf(root, v)];
    TreeSame(mem, mem, tree, role, role', None);
    FreeSame(lo, mem, mem, role, role', free, freelist);
    RolesMore(tree, role, tree, role');
  }

  lemma LeafRole(tree: Tree, role: seq<Role>, root: nat, v: nat)
    requires RolesOk(tree, role) && Node(root, 0, v) in tree
    ensures forall p | 0 <= p < |role| && role[p] == Leaf(root, v) :: p == PageOf(tree[Node(root, 0, v)])
  {
    forall p | 0 <= p < |role| && role[p] == Leaf(root, v)
      ensures p == PageOf(tree[Node(root, 0, v)])
    {
      assert RoleOk(tree, role, p);
    }
  }

  lemma LeafNotLow(lo: nat, mem: seq<Page>, role: seq<Role>, free: seq<nat>, freelist: nat, p: nat)
    requires FreeOk(lo, mem, role, free, freelist) && p < |mem|
    ensures role[p] != InUse ==> lo <= p
  {
  }

  lemma {:induction false} NeededSplit(root: nat, first: nat, mid: nat, end: nat)
    requires first <= mid <= end
    ensures Needed(root, first, end) == Needed(root, first, mid) + Needed(root, mid, end)
    decreases mid - first
  {
    if first < mid {
      NeededSplit(root, first + 1, mid, end);
    }
  }

  lemma {:induction false} NeededTables(root: nat, first: nat, end: nat, n: Node)
    requires n in Needed(root, first, end)
    ensures n.root == root && 1 <= n.height <= 2
    decreases end - first
  {
    if n !in Path(root, first) {
      NeededTables(root, first + 1, end, n);
    }
  }

  /** How many table pages are missing for a range of virtual pages. */
  function Missing(tree: Tree, root: nat, first: nat, end: nat): nat {
    |Needed(root, first, end) - tree.Keys|
  }

  /** There are enough free pages for virtual pages first to end and for the tables
      that they lack. */
  ghost predicate Affordable(tree: Tree, free: seq<nat>, root: nat, first: nat, end: nat) {
    PagesLeft(tree, free, root, first, end) >= 0
  }

  /** What mapping the pages from first up to end would leave of the free pages. */
  ghost function PagesLeft(tree: Tree, free: seq<nat>, root: nat, first: nat, end: nat): int {
    |free| - (end - first) - Missing(tree, root, first, end)
  }

  /** How far from v on up to end pages can be mapped: up to one that is, or to MAXVA. */
  ghost function Reach(tree: Tree, root: nat, v: nat, end: nat): (r: nat)
    requires v <= end
    ensures v <= r <= end && (r < end ==> r >= VPAGES || Node(root, 0, r) in tree)
    ensures (v < r ==> r <= VPAGES) && forall u: nat | v <= u < r :: Node(root, 0, u) !in tree
    decreases end - v
  {
    if v == end || v >= VPAGES || Node(root, 0, v) in tree then v else Reach(tree, root, v + 1, end)
  }

  lemma SplitSize(here: set<Node>, rest: set<Node>, had: set<Node>, has: set<Node>)
    requires had <= has && here <= has && forall n | n in rest && n in has :: n in had || n in here
    ensures |here + rest - had| == |here - had| + |rest - has|
  {
    assert here + rest - had == (here - had) + (rest - has);
  }

  lemma PathLacks(tree: Tree, root: nat, v: nat)
    ensures |Path(root, v) - tree.Keys| == Lacks(tree, root, v)
  {
    hide Up;
    var n1, n2 := At(root, v, 1), At(root, v, 2);
    assert n1 != n2;
    assert Path(root, v) - tree.Keys == (if n1 in tree then {} else {n1}) + (if n2 in tree then {} else {n2});
  }

  lemma PathIn(mem: seq<Page>, tree: Tree, role: seq<Role>, root: nat, v: nat)
    requires TreeOk(mem, tree, role, None) && Node(root, 0, v) in tree
    ensures Path(root, v) <= tree.Keys
  {
    AtChild(root, v, 0);
    AtChild(root, v, 1);
    NodeAt(mem, tree, role, Node(root, 0, v));
    NodeAt(mem, tree, role, At(root, v, 1));
  }

  lemma MissingNone(tree: Tree, root: nat, end: nat)
    ensures Missing(tree, root, end, end) == 0
  {
  }

  lemma MissingOne(tree: Tree, root: nat, v: nat)
    ensures Missing(tree, root, v, v + 1) == Lacks(tree, root, v)
  {
    PathLacks(tree, root, v);
    assert Needed(root, v, v + 1) == Path(root, v) + Needed(root, v + 1, v + 1);
  }

  lemma MissingAtLeast(tree: Tree, root: nat, first: nat, end: nat)
    requires first < end
    ensures Missing(tree, root, first, end) >= Lacks(tree, root, first)
  {
    PathLacks(tree, root, first);
    SubsetSize(Path(root, first) - tree.Keys, Needed(root, first, end) - tree.Keys);
  }

  lemma MissingStep(tree: Tree, tree': Tree, root: nat, first: nat, end: nat)
    requires first < end && Path(root, first) <= tree'.Keys
    requires forall n | n in tree :: n in tree'
    requires forall n | n in tree' && n !in tree && n.height > 0 :: n in Needed(root, first, first + 1)
    ensures Missing(tree, root, first, end) == Lacks(tree, root, first) + Missing(tree', root, first + 1, end)
  {
    hide Up;
    var rest := Needed(root, first + 1, end);
    forall n | n in rest && n in tree'
      ensures n in tree || n in Path(root, first)
    {
      NeededTables(root, first + 1, end, n);
      assert Needed(root, first, first + 1) == Path(root, first) + Needed(root, first + 1, first + 1);
    }
    SplitSize(Path(root, first), rest, tree.Keys, tree'.Keys);
    PathLacks(tree, root, first);
  }

  ghost predicate MapsTo(tree: Tree, tree': Tree, n: Node, page: nat, perm: nat)
    requires perm < 1024
  {
    n !in tree && n in tree' && tree'[n] == MakePte(page, perm)
  }

  /** Pages first, first + 1, .. of a page table, `count` of them, came to map page,
      page + 1, ..; besides that only table pages for pages below `end` were added. */
  ghost predicate Mapped(tree: Tree, tree': Tree, root: nat, first: nat, count: nat, page: nat, perm: nat, end: nat)
    requires perm < 1024
  {
    && (forall n | n in tree :: n in tree' && tree'[n] == tree[n])
    && (forall n | n in tree' && n !in tree && n.height > 0 :: n in Needed(root, first, end))
    && (forall n | n in tree' && n !in tree && n.height == 0 :: n.root == root && first <= n.prefix < first + count)
    && (forall v | first <= v < first + count :: MapsTo(tree, tree', Node(root, 0, v), page + v - first, perm))
  }

  lemma MappedNone(tree: Tree, root: nat, first: nat, page: nat, perm: nat)
    requires perm < 1024
    ensures Mapped(tree, tree, root, first, 0, page, perm, first)
  {
  }

  /** Pages further up are still unmapped. */
  lemma MappedRest(tree: Tree, tree': Tree, root: nat, first: nat, count: nat, page: nat, perm: nat, end: nat, v: nat)
    requires perm < 1024 && Mapped(tree, tree', root, first, count, page, perm, end)
    ensures Node(root, 0, v) !in tree && v >= first + count ==> Node(root, 0, v) !in tree'
    ensures Node(root, 3, 0) in tree ==> Node(root, 3, 0) in tree'
  {
  }

  lemma MissingMapped(tree: Tree, tree': Tree, root: nat, first: nat, page: nat, perm: nat, end: nat)
    requires perm < 1024 && first < end && Path(root, first) <= tree'.Keys
    requires Mapped(tree, tree', root, first, 1, page, perm, first + 1)
    ensures Missing(tree, root, first, end) == Lacks(tree, root, first) + Missing(tree', root, first + 1, end)
  {
    hide Missing, Lacks, Path, MapsTo, Needed;
    MissingStep(tree, tree', root, first, end);
  }

  lemma KeptThen(role: seq<Role>, mem: seq<Page>, role': seq<Role>, mem': seq<Page>, role'': seq<Role>,
                 mem'': seq<Page>)
    requires Kept(role, mem, role', mem') && Kept(role', mem', role'', mem'')
    ensures Kept(role, mem, role'', mem'')
  {
  }

  lemma MappedMore(tree: Tree, tree': Tree, tree'': Tree, root: nat, first: nat, count: nat, page: nat, perm: nat,
                   next: nat, more: nat)
    requires perm < 1024 && next == first + count
    requires Mapped(tree, tree', root, first, count, page, perm, next)
    requires Mapped(tree', tree'', root, next, more, page + count, perm, next + 1)
    ensures Mapped(tree, tree'', root, first, count + more, page, perm, next + 1)
  {
    hide MakePte;
    NeededSplit(root, first, next, next + 1);
    forall n | n in tree'' && n !in tree && n.height > 0
      ensures n in Needed(root, first, next + 1)
    {
      assert n in tree' ==> n in Needed(root, first, next);
      assert n !in tree' ==> n in Needed(root, next, next + 1);
    }
    forall v | first <= v < next + more
      ensures MapsTo(tree, tree'', Node(root, 0, v), page + v - first, perm)
    {
      if v >= next {
        assert MapsTo(tree', tree'', Node(root, 0, v), page + count + v - next, perm);
      } else {
        assert MapsTo(tree, tree', Node(root, 0, v), page + v - first, perm);
      }
    }
  }

  /** PGROUNDUP, in pages. */
  function PageUp(sz: nat): nat { (sz + PGSIZE - 1) / PGSIZE }

  /** Virtual page v has a leaf mapping, and owns its page if that is to be freed. */
  ghost predicate Leafy(tree: Tree, role: seq<Role>, root: nat, v: nat, owned: bool) {
    var n := Node(root, 0, v);
    && n in tree && Flags(tree[n]) != PTE_V
    && (owned ==> PageOf(tree[n]) < |role| && role[PageOf(tree[n])] == Leaf(root, v))
  }

  /** The mappings of pages first to end are gone, and nothing else. */
  ghost predicate Unmapped(tree: Tree, tree': Tree, root: nat, first: nat, end: nat) {
    && (forall n | n in tree' :: n in tree && tree'[n] == tree[n])
    && (forall n | n in tree && n !in tree' :: n.root == root && n.height == 0 && first <= n.prefix < end)
    && (forall v | first <= v < end :: Node(root, 0, v) !in tree')
  }

  predicate InRange(role: Role, root: nat, first: nat, end: nat) {
    role.Leaf? && role.root == root && first <= role.vpn < end
  }

  /** The pages that pages first to end owned are free, or in use if they were not to
      be freed; other pages keep their roles, and data pages their contents. */
  ghost predicate Returned(role: seq<Role>, mem: seq<Page>, role': seq<Role>, mem': seq<Page>,
                           root: nat, first: nat, end: nat, doFree: bool) {
    && |role'| == |role| == |mem| == |mem'|
    && (forall p | 0 <= p < |role| :: if InRange(role[p], root, first, end) then if doFree then role'[p].Free?
      else role'[p].InUse?
                                      else role'[p] == role[p] && (role[p].Table? || mem'[p] == mem[p]))
  }

  lemma LeafyStill(tree: Tree, role: seq<Role>, mem: seq<Page>, tree': Tree, role': seq<Role>, mem': seq<Page>,
                   root: nat, first: nat, end: nat, v: nat, owned: bool)
    requires Unmapped(tree, tree', root, first, end) && Returned(role, mem, role', mem', root, first, end, owned)
    requires Leafy(tree, role, root, v, owned) && v >= end
    ensures Leafy(tree', role', root, v, owned)
  {
  }

  lemma UnmappedMore(tree: Tree, tree': Tree, tree'': Tree, root: nat, first: nat, v: nat)
    requires first <= v && Unmapped(tree, tree', root, first, v) && Unmapped(tree', tree'', root, v, v + 1)
    ensures Unmapped(tree, tree'', root, first, v + 1)
  {
  }

  lemma ReturnedMore(role: seq<Role>, mem: seq<Page>, role': seq<Role>, mem': seq<Page>, role'': seq<Role>,
                     mem'': seq<Page>, root: nat, first: nat, v: nat, doFree: bool)
    requires first <= v && Returned(role, mem, role', mem', root, first, v, doFree)
    requires Returned(role', mem', role'', mem'', root, v, v + 1, doFree)
    ensures Returned(role, mem, role'', mem'', root, first, v + 1, doFree)
  {
  }

  /** Virtual page v is mapped with these permissions to a page that it owns. */
  ghost predicate Holding(tree: Tree, role: seq<Role>, mem: seq<Page>, root: nat, v: nat, content: Page, perm: nat)
    requires perm < 1024
  {
    var n := Node(root, 0, v);
    && n in tree && PageOf(tree[n]) < |role| == |mem|
    && tree[n] == MakePte(PageOf(tree[n]), perm)
    && role[PageOf(tree[n])] == Leaf(root, v) && mem[PageOf(tree[n])] == content
  }

  predicate RoleAlloced(role: Role, role': Role, root: nat, first: nat, cur: nat) {
    role' == role || (role.Free? && (role'.Free? || role'.Table? || InRange(role', root, first, cur)))
  }

  /** Pages first to cur of a page table came to own pages that were free, other free
      pages became tables for pages first to end, and nothing else changed. */
  ghost predicate Alloced(tree: Tree, role: seq<Role>, mem: seq<Page>, tree': Tree, role': seq<Role>, mem': seq<Page>,
                          root: nat, first: nat, cur: nat, end: nat) {
    && |role'| == |role| == |mem| == |mem'|
    && (forall n | n in tree :: n in tree' && tree'[n] == tree[n])
    && (forall n | n in tree' && n !in tree && n.height > 0 :: n in Needed(root, first, end))
    && (forall n | n in tree' && n !in tree && n.height == 0 :: n.root == root && first <= n.prefix < cur)
    && (forall p | 0 <= p < |role| :: RoleAlloced(role[p], role'[p], root, first, cur))
    && (forall p | 0 <= p < |role| && (role[p].Leaf? || role[p].InUse?) :: mem'[p] == mem[p])
  }

  /** The process has zeroed pages of its own from oldsz up to newsz. */
  ghost predicate Extended(tree: Tree, role: seq<Role>, mem: seq<Page>, tree': Tree, role': seq<Role>, mem': seq<Page>,
                              root: nat, oldsz: nat, newsz: nat) {
    && Alloced(tree, role, mem, tree', role', mem', root, PageUp(oldsz), PageUp(newsz), PageUp(newsz))
    && (forall v | PageUp(oldsz) <= v < PageUp(newsz) :: Holding(tree', role', mem', root, v, Filled(0), USER))
  }

  lemma ExtendedLeafy(tree: Tree, role: seq<Role>, mem: seq<Page>, tree': Tree, role': seq<Role>, mem': seq<Page>,
                      root: nat, oldsz: nat, newsz: nat)
    requires Extended(tree, role, mem, tree', role', mem', root, oldsz, newsz)
    ensures Alloced(tree, role, mem, tree', role', mem', root, PageUp(oldsz), PageUp(newsz), PageUp(newsz))
    ensures forall v | PageUp(oldsz) <= v < PageUp(newsz) :: Leafy(tree', role', root, v, true)
  {
    forall v | PageUp(oldsz) <= v < PageUp(newsz) ensures Leafy(tree', role', root, v, true) {
      HoldingLeafy(tree', role', mem', root, v, Filled(0), USER);
    }
  }

  lemma AllocedNone(lo: nat, mem: seq<Page>, role: seq<Role>, free: seq<nat>, freelist: nat, tree: Tree, root: nat,
                    first: nat)
    requires FreeOk(lo, mem, role, free, freelist)
    ensures Alloced(tree, role, mem, tree, role, mem, root, first, first, first)
    ensures forall end | 0 <= end <= first ::
              && Affordable(tree, free, root, first, end)
              && Alloced(tree, role, mem, tree, role, mem, root, first, end, end)
  {
  }

  lemma AllocedMore(tree: Tree, role: seq<Role>, mem: seq<Page>, tree': Tree, role': seq<Role>, mem': seq<Page>,
                    tree'': Tree, role'': seq<Role>, mem'': seq<Page>, root: nat, first: nat, cur: nat, more: nat)
    requires first <= cur && Alloced(tree, role, mem, tree', role', mem', root, first, cur, cur)
    requires Alloced(tree', role', mem', tree'', role'', mem'', root, cur, cur + more, cur + 1)
    ensures Alloced(tree, role, mem, tree'', role'', mem'', root, first, cur + more, cur + 1)
  {
    NeededSplit(root, first, cur, cur + 1);
    forall p | 0 <= p < |role|
      ensures RoleAlloced(role[p], role''[p], root, first, cur + more)
      ensures role[p].Leaf? || role[p].InUse? ==> mem''[p] == mem[p]
    {
      assert RoleAlloced(role[p], role'[p], root, first, cur)
             && RoleAlloced(role'[p], role''[p], root, cur, cur + more);
    }
  }

  lemma AllocedTables(tree: Tree, role: seq<Role>, mem: seq<Page>, tree': Tree, role': seq<Role>, mem': seq<Page>,
                      root: nat, first: nat, cur: nat, end: nat)
    requires Alloced(tree, role, mem, tree', role', mem', root, first, cur, end)
    ensures forall n | n in tree :: n in tree' && tree'[n] == tree[n]
    ensures forall n | n in tree' && n !in tree && n.height > 0 :: n in Needed(root, first, end)
    ensures forall v | v >= cur && Node(root, 0, v) !in tree :: Node(root, 0, v) !in tree'
  {
  }

  /** Giving back every page allocated so far leaves only tables behind. */
  lemma Rollback(tree: Tree, role: seq<Role>, mem: seq<Page>, tree': Tree, role': seq<Role>, mem': seq<Page>,
                 tree'': Tree, role'': seq<Role>, mem'': seq<Page>, root: nat,
                 first: nat, cur: nat, seen: nat, end: nat)
    requires first <= cur <= seen <= end && Alloced(tree, role, mem, tree', role', mem', root, first, cur, seen)
    requires Unmapped(tree', tree'', root, first, cur) && Returned(role', mem', role'', mem'', root, first, cur, true)
    requires RolesOk(tree, role) && forall v | first <= v < cur :: Node(root, 0, v) !in tree
    ensures Alloced(tree, role, mem, tree'', role'', mem'', root, first, first, end)
  {
    NeededSplit(root, first, seen, end);
    forall p | 0 <= p < |role|
      ensures RoleAlloced(role[p], role''[p], root, first, first)
      ensures role[p].Leaf? || role[p].InUse? ==> mem''[p] == mem[p]
    {
      assert RoleOk(tree, role, p);
      assert RoleAlloced(role[p], role'[p], root, first, cur);
    }
  }

  lemma HoldingLeafy(tree: Tree, role: seq<Role>, mem: seq<Page>, root: nat, v: nat, content: Page, perm: nat)
    requires 2 <= perm < 1024 && Holding(tree, role, mem, root, v, content, perm)
    ensures Leafy(tree, role, root, v, true)
  {
  }

  lemma HoldingStill(tree: Tree, role: seq<Role>, mem: seq<Page>, tree': Tree, role': seq<Role>, mem': seq<Page>,
                     root: nat, first: nat, cur: nat, end: nat, r: nat, v: nat, content: Page, perm: nat)
    requires Alloced(tree, role, mem, tree', role', mem', root, first, cur, end)
    requires perm < 1024 && Holding(tree, role, mem, r, v, content, perm)
    ensures Holding(tree', role', mem', r, v, content, perm)
  {
    var p := PageOf(tree[Node(r, 0, v)]);
    assert RoleAlloced(role[p], role'[p], root, first, cur);
  }

  ghost function DataOf(tree: Tree, mem: seq<Page>, root: nat, v: nat): Page {
    var n := Node(root, 0, v);
    if n in tree && PageOf(tree[n]) < |mem| then mem[PageOf(tree[n])] else Filled(0)
  }

  ghost function PermOf(tree: Tree, root: nat, v: nat): (perm: nat)
    ensures perm < 1024
  {
    var n := Node(root, 0, v);
    if n in tree then Flags(tree[n]) else 0
  }

  lemma LeafyPerm(mem: seq<Page>, tree: Tree, role: seq<Role>, root: nat, v: nat)
    requires TreeOk(mem, tree, role, None) && Leafy(tree, role, root, v, true)
    ensures 2 <= PermOf(tree, root, v)
  {
    hide TreeOk;
    NodeAt(mem, tree, role, Node(root, 0, v));
    OddFlags(tree[Node(root, 0, v)]);
  }

  lemma OddFlags(pte: nat)
    requires IsValid(pte) && Flags(pte) != PTE_V
    ensures Flags(pte) >= 2
  {
    assert pte - Flags(pte) == 2 * (512 * (pte / 1024));
    assert Flags(pte) % 2 == 1;
  }

  lemma ParentStill(tree: Tree, role: seq<Role>, mem: seq<Page>, tree': Tree, role': seq<Role>, mem': seq<Page>,
                    root: nat, first: nat, cur: nat, end: nat, r: nat, v: nat)
    requires Alloced(tree, role, mem, tree', role', mem', root, first, cur, end) && Leafy(tree, role, r, v, true)
    ensures Leafy(tree', role', r, v, true)
    ensures DataOf(tree', mem', r, v) == DataOf(tree, mem, r, v) && PermOf(tree', r, v) == PermOf(tree, r, v)
  {
    var p := PageOf(tree[Node(r, 0, v)]);
    assert RoleAlloced(role[p], role'[p], root, first, cur);
  }

  lemma RootAdded(lo: nat, mem: seq<Page>, role: seq<Role>, free: seq<nat>, freelist: nat, tree: Tree, root: nat)
    requires FreeOk(lo, mem, role, free, freelist) && TreeOk(mem, tree, role, None) && RolesOk(tree, role)
    requires lo <= root < |role| && role[root] == InUse && mem[root] == Filled(0)
    ensures Node(root, 3, 0) !in tree
    ensures FreeOk(lo, mem, role[root := Table(Node(root, 3, 0))], free, freelist)
    ensures TreeOk(mem, tree[Node(root, 3, 0) := MakePte(root, 0)], role[root := Table(Node(root, 3, 0))], None)
    ensures RolesOk(tree[Node(root, 3, 0) := MakePte(root, 0)], role[root := Table(Node(root, 3, 0))])
  {
    var n := Node(root, 3, 0);
    var tree', role' := tree[n := MakePte(root, 0)], role[root := Table(n)];
    assert n !in tree by {
      assert forall k | k in tree :: NodeOk(mem, tree, role, k, None);
    }
    forall k | k in tree'
      ensures NodeOk(mem, tree', role', k, None)
    {
      if k != n {
        assert NodeOk(mem, tree, role, k, None);
      } else {
        forall i | 0 <= i < 512
          ensures Child(n, i) !in tree'
        {
          ChildParent(n, i);
          NodeAt(mem, tree, role, Child(n, i));
        }
      }
    }
    FreeSame(lo, mem, mem, role, role', free, freelist);
    RolesMore(tree, role, tree', role');
  }

  /** The ancestor of a node at height h. */
  function Anc(n: Node, h: nat): Node
    requires n.height <= h
    decreases h - n.height
  {
    if n.height == h then n else Anc(Parent(n), h)
  }

  lemma {:induction false} AncUp(n: Node, h: nat)
    requires n.height <= h
    ensures Anc(n, h + 1) == Parent(Anc(n, h)) && Anc(n, h).height == h && Anc(n, h).root == n.root
    decreases h - n.height
  {
    if n.height < h {
      AncUp(Parent(n), h);
    }
  }

  const ALL: nat := 513

  /** Node n is under one of the first i children of m or, for i == ALL, is m. */
  predicate Gone(n: Node, m: Node, i: nat) {
    || (n.height < m.height && Parent(Anc(n, m.height - 1)) == m && Anc(n, m.height - 1).prefix % 512 < i)
    || (i == ALL && n == m)
  }

  lemma GoneStep(n: Node, m: Node, i: nat)
    requires m.height > 0 && i < 512
    ensures Gone(n, m, i + 1) <==> Gone(n, m, i) || Gone(n, Child(m, i), ALL)
  {
    if n.height < m.height {
      var x := Anc(n, m.height - 1);
      AncUp(n, m.height - 1);
      if n.height < m.height - 1 {
        AncUp(n, m.height - 2);
      }
      ParentChild(x);
      ChildParent(m, i);
    }
  }

  lemma GoneAll(n: Node, m: Node)
    ensures Gone(n, m, ALL) <==> Gone(n, m, 512) || n == m
  {
  }

  ghost predicate NoLeaf(tree: Tree, m: Node) {
    forall n | n in tree && Gone(n, m, ALL) :: n.height > 0
  }

  ghost predicate Pruned(tree: Tree, tree': Tree, m: Node, i: nat) {
    && (forall n | n in tree' :: n in tree && tree'[n] == tree[n] && !Gone(n, m, i))
    && (forall n | n in tree && !Gone(n, m, i) :: n in tree')
  }

  /** The table pages of the nodes that are gone are free, and nothing else changed
      but other table pages. */
  ghost predicate Collected(role: seq<Role>, mem: seq<Page>, role': seq<Role>, mem': seq<Page>, m: Node, i: nat) {
    && |role'| == |role| == |mem| == |mem'|
    && (forall p | 0 <= p < |role| :: if role[p].Table? && Gone(role[p].node, m, i) then role'[p].Free?
                                      else role'[p] == role[p] && (role[p].Table? || mem'[p] == mem[p]))
  }

  lemma PrunedNone(lo: nat, mem: seq<Page>, role: seq<Role>, free: seq<nat>, freelist: nat, tree: Tree, m: Node)
    requires FreeOk(lo, mem, role, free, freelist)
    ensures Pruned(tree, tree, m, 0) && Collected(role, mem, role, mem, m, 0)
  {
  }

  lemma PrunedMore(tree: Tree, role: seq<Role>, mem: seq<Page>, tree': Tree, role': seq<Role>, mem': seq<Page>,
                   tree'': Tree, role'': seq<Role>, mem'': seq<Page>, m: Node, i: nat)
    requires m.height > 0 && i < 512 && Pruned(tree, tree', m, i) && Collected(role, mem, role', mem', m, i)
    requires Pruned(tree', tree'', Child(m, i), ALL) && Collected(role', mem', role'', mem'', Child(m, i), ALL)
    ensures Pruned(tree, tree'', m, i + 1) && Collected(role, mem, role'', mem'', m, i + 1)
  {
    hide Gone, Child;
    forall n
      ensures Gone(n, m, i + 1) <==> Gone(n, m, i) || Gone(n, Child(m, i), ALL)
    {
      GoneStep(n, m, i);
    }
  }

  lemma PrunedAll(tree: Tree, role: seq<Role>, mem: seq<Page>, tree': Tree, role': seq<Role>, mem': seq<Page>,
                  tree'': Tree, role'': seq<Role>, mem'': seq<Page>, m: Node)
    requires Pruned(tree, tree', m, 512) && Collected(role, mem, role', mem', m, 512)
    requires m in tree' && PageOf(tree'[m]) < |role'| && RolesOk(tree', role') && role'[PageOf(tree'[m])] == Table(m)
    requires tree'' == tree' - {m} && |role''| == |role'| && |mem''| == |mem'| && role''[PageOf(tree'[m])].Free?
    requires forall p | 0 <= p < |role'| && p != PageOf(tree'[m]) :: role''[p] == role'[p] && mem''[p] == mem'[p]
    ensures Pruned(tree, tree'', m, ALL) && Collected(role, mem, role'', mem'', m, ALL)
  {
    hide Gone;
    forall n
      ensures Gone(n, m, ALL) <==> Gone(n, m, 512) || n == m
    {
      GoneAll(n, m);
    }
    forall p | 0 <= p < |role|
      ensures if role[p].Table? && Gone(role[p].node, m, ALL) then role''[p].Free?
              else role''[p] == role[p] && (role[p].Table? || mem''[p] == mem[p])
    {
      assert RoleOk(tree', role', p);
    }
  }

  lemma ChildGone(k: Node, m: Node)
    ensures Parent(k) == m ==> Gone(k, m, 512)
  {
  }

  lemma TableDropped(lo: nat, mem: seq<Page>, role: seq<Role>, free: seq<nat>, freelist: nat, tree0: Tree, tree: Tree,
                     m: Node)
    requires FreeOk(lo, mem, role, free, freelist) && TreeOk(mem, tree, role, None) && RolesOk(tree, role)
    requires Pruned(tree0, tree, m, 512) && m in tree && m.height > 0
    requires PageOf(tree[m]) < |role| && role[PageOf(tree[m])] == Table(m)
    ensures lo <= PageOf(tree[m]) && FreeOk(lo, mem, role[PageOf(tree[m]) := InUse], free, freelist)
    ensures TreeOk(mem, tree - {m}, role[PageOf(tree[m]) := InUse], Some(m))
            && RolesOk(tree - {m}, role[PageOf(tree[m]) := InUse])
  {
    hide FreeOk, TreeOk, Gone, PageOf, Parent;
    var role' := role[PageOf(tree[m]) := InUse];
    Sizes(lo, mem, role, free, freelist);
    LeafNotLow(lo, mem, role, free, freelist, PageOf(tree[m]));
    FreeSame(lo, mem, mem, role, role', free, freelist);
    forall k | k in tree
      ensures Parent(k) != m
    {
      ChildGone(k, m);
    }
    OpenHole(mem, tree, role, tree - {m}, role', m);
    forall p | 0 <= p < |role|
      ensures RoleOk(tree - {m}, role', p)
    {
      assert RoleOk(tree, role, p);
    }
  }

  lemma ChildFacts(mem: seq<Page>, tree: Tree, role: seq<Role>, m: Node, i: nat)
    requires TreeOk(mem, tree, role, None) && m.height > 0 && i < 512 && NoLeaf(tree, m)
    ensures NoLeaf(tree, Child(m, i))
    ensures Child(m, i) in tree ==> Child(m, i).height > 0 && IsTable(tree[Child(m, i)])
  {
    forall n | n in tree && Gone(n, Child(m, i), ALL)
      ensures n.height > 0
    {
      GoneStep(n, m, i);
      assert Gone(n, m, ALL);
    }
    if Child(m, i) in tree {
      assert Gone(Child(m, i), Child(m, i), ALL);
      assert NodeOk(mem, tree, role, Child(m, i), None);
    }
  }

  lemma ChildPruned(tree: Tree, tree': Tree, m: Node, i: nat)
    requires m.height > 0 && Pruned(tree, tree', Child(m, i), ALL) && m in tree && NoLeaf(tree, m)
    ensures m in tree' && tree'[m] == tree[m] && NoLeaf(tree', m) && Child(m, i) !in tree'
  {
    assert !Gone(m, Child(m, i), ALL) && Gone(Child(m, i), Child(m, i), ALL);
  }

  lemma HoleAt(mem: seq<Page>, tree: Tree, role: seq<Role>, m: Node, c: Node)
    requires TreeOk(mem, tree, role, Some(c)) && m in tree && m.height > 0
    ensures PageOf(tree[m]) < |mem| && PageOf(tree[m]) < |role| && role[PageOf(tree[m])] == Table(m)
    ensures |mem[PageOf(tree[m])].words| == 512
  {
    assert NodeOk(mem, tree, role, m, Some(c));
  }

  lemma CollectedStored(role: seq<Role>, mem: seq<Page>, role': seq<Role>, mem': seq<Page>, mem'': seq<Page>, c: Node,
                        t: nat)
    requires Collected(role, mem, role', mem', c, ALL) && t < |role'| && role'[t].Table?
    requires |mem''| == |mem'| && forall p | 0 <= p < |mem'| && p != t :: mem''[p] == mem'[p]
    ensures Collected(role, mem, role', mem'', c, ALL)
  {
  }

  lemma {:induction false} AncIn(mem: seq<Page>, tree: Tree, role: seq<Role>, n: Node, h: nat)
    requires TreeOk(mem, tree, role, None) && n in tree && n.height <= h <= 3
    ensures Anc(n, h) in tree
    decreases h - n.height
  {
    if n.height < h {
      assert NodeOk(mem, tree, role, n, None);
      AncIn(mem, tree, role, Parent(n), h);
    }
  }

  lemma NothingUnder(mem: seq<Page>, role: seq<Role>, tree: Tree, c: Node)
    requires TreeOk(mem, tree, role, None) && RolesOk(tree, role) && |role| == |mem| && c !in tree && c.height <= 3
    ensures Pruned(tree, tree, c, ALL) && Collected(role, mem, role, mem, c, ALL)
  {
    hide TreeOk, Gone;
    forall n | n in tree
      ensures !Gone(n, c, ALL)
    {
      NotUnder(mem, role, tree, c, n);
    }
    forall p | 0 <= p < |role|
      ensures !(role[p].Table? && Gone(role[p].node, c, ALL))
    {
      assert RoleOk(tree, role, p);
    }
  }

  lemma NotUnder(mem: seq<Page>, role: seq<Role>, tree: Tree, c: Node, n: Node)
    requires TreeOk(mem, tree, role, None) && n in tree && c !in tree && c.height <= 3
    ensures !Gone(n, c, ALL)
  {
    hide TreeOk;
    if n.height <= c.height {
      AncIn(mem, tree, role, n, c.height);
      if n.height < c.height {
        AncUp(n, c.height - 1);
      }
    }
  }

  lemma UnderRoot(mem: seq<Page>, tree: Tree, role: seq<Role>, root: nat, n: Node)
    requires TreeOk(mem, tree, role, None) && n in tree
    ensures Gone(n, Node(root, 3, 0), ALL) <==> n.root == root
  {
    assert NodeOk(mem, tree, role, n, None);
    AncIn(mem, tree, role, n, 3);
    assert NodeOk(mem, tree, role, Anc(n, 3), None);
    AncUp(n, 3);
    if n.height < 3 {
      AncUp(n, 2);
    }
  }

  lemma TablesOnly(mem: seq<Page>, role: seq<Role>, tree0: Tree, tree: Tree, root: nat, end: nat)
    requires TreeOk(mem, tree, role, None) && Unmapped(tree0, tree, root, 0, end)
    requires forall n | n in tree0 && n.root == root && n.height == 0 :: n.prefix < end
    ensures NoLeaf(tree, Node(root, 3, 0))
    ensures forall n | n in tree :: Gone(n, Node(root, 3, 0), ALL) <==> n.root == root
  {
    forall n | n in tree
      ensures Gone(n, Node(root, 3, 0), ALL) <==> n.root == root
      ensures n.root == root ==> n.height > 0
    {
      UnderRoot(mem, tree, role, root, n);
      assert n == Node(n.root, n.height, n.prefix);
    }
  }

  lemma RootHole(mem: seq<Page>, tree: Tree, role: seq<Role>, root: nat)
    requires TreeOk(mem, tree, role, Some(Node(root, 3, 0)))
    ensures TreeOk(mem, tree, role, None)
  {
    forall n | n in tree
      ensures NodeOk(mem, tree, role, n, None)
    {
      assert NodeOk(mem, tree, role, n, Some(Node(root, 3, 0)));
    }
  }

  lemma Freed(tree: Tree, role: seq<Role>, mem: seq<Page>, tree': Tree, role': seq<Role>, mem': seq<Page>,
              tree'': Tree, role'': seq<Role>, mem'': seq<Page>, root: nat, end: nat)
    requires RolesOk(tree, role) && RolesOk(tree', role')
    requires forall n | n in tree && n.root == root && n.height == 0 :: n.prefix < end
    requires Unmapped(tree, tree', root, 0, end) && Returned(role, mem, role', mem', root, 0, end, true)
    requires forall n | n in tree' :: Gone(n, Node(root, 3, 0), ALL) <==> n.root == root
    requires Pruned(tree', tree'', Node(root, 3, 0), ALL)
             && Collected(role', mem', role'', mem'', Node(root, 3, 0), ALL)
    ensures forall n | n in tree'' :: n in tree && n.root != root && tree''[n] == tree[n]
    ensures forall n | n in tree && n.root != root :: n in tree''
    ensures |role''| == |role| == |mem| == |mem''|
    ensures forall p | 0 <= p < |role| :: if Owner(role[p]) == Some(root) then role''[p].Free? else role''[p] == role[p]
    ensures forall p | 0 <= p < |role| && (role''[p].InUse? || role''[p].Leaf?) :: mem''[p] == mem[p]
  {
    hide Gone;
    forall p | 0 <= p < |role|
      ensures if Owner(role[p]) == Some(root) then role''[p].Free? else role''[p] == role[p]
      ensures role''[p].InUse? || role''[p].Leaf? ==> mem''[p] == mem[p]
    {
      assert RoleOk(tree, role, p) && RoleOk(tree', role', p);
    }
  }

  function EntryAt(mem: seq<Page>, t: nat, i: nat): nat {
    if t < |mem| && i < |mem[t].words| then mem[t].words[i] else 0
  }

  /** Through three levels of tables, at these indices. */
  function Through(mem: seq<Page>, root: nat, i2: nat, i1: nat, i0: nat): Option<nat> {
    var e2 := EntryAt(mem, root, i2);
    if !(IsValid(e2) && IsTable(e2)) then None else
    var e1 := EntryAt(mem, PageOf(e2), i1);
    if !(IsValid(e1) && IsTable(e1)) then None else
    var e0 := EntryAt(mem, PageOf(e1), i0);
    if IsValid(e0) then Some(e0) else None
  }

  /** Address translation as the hardware does it, on the memory alone. */
  function Translate(mem: seq<Page>, root: nat, va: nat): Option<nat> {
    Through(mem, root, va / 0x4000_0000 % 512, va / 0x20_0000 % 512, va / 0x1000 % 512)
  }

  /** The indices of Sv39: bits 30 to 38, 21 to 29 and 12 to 20 of the address. */
  lemma Indices(va: nat)
    ensures PX(2, va) == va / 0x4000_0000 % 512 && PX(1, va) == va / 0x20_0000 % 512 && PX(0, va) == va / 0x1000 % 512
  {
    var v := va / PGSIZE;
    assert Up(v, 1) == v / 512 && Up(v, 2) == v / 512 / 512;
    assert v / 512 == va / 0x20_0000 && v / 512 / 512 == va / 0x4000_0000;
  }

  lemma ThroughFlat(mem: seq<Page>, tree: Tree, role: seq<Role>, root: nat, va: nat)
    requires TreeOk(mem, tree, role, None) && Node(root, 3, 0) in tree && va < MAXVA
    ensures var n := Node(root, 0, va / PGSIZE);
            Through(mem, root, PX(2, va), PX(1, va), PX(0, va)) == if n in tree then Some(tree[n]) else None
  {
    hide TreeOk, Up, Flags, PageOf, IsTable, IsValid, Child, Parent;
    var v := va / PGSIZE;
    RootAt(mem, tree, role, root, v);
    AtChild(root, v, 0);
    AtChild(root, v, 1);
    AtChild(root, v, 2);
    LevelAt(mem, tree, role, root, v, 3);
    LevelAt(mem, tree, role, root, v, 2);
    LevelAt(mem, tree, role, root, v, 1);
    NodeAt(mem, tree, role, At(root, v, 0));
    NodeAt(mem, tree, role, At(root, v, 1));
    NodeAt(mem, tree, role, At(root, v, 2));
  }

  /** The three-level tree refines a flat map of virtual pages to entries. */
  lemma TranslateFlat(mem: seq<Page>, tree: Tree, role: seq<Role>, root: nat, va: nat)
    requires TreeOk(mem, tree, role, None) && Node(root, 3, 0) in tree && va < MAXVA
    ensures var n := Node(root, 0, va / PGSIZE);
            Translate(mem, root, va) == if n in tree then Some(tree[n]) else None
  {
    hide TreeOk, Through, PX;
    Indices(va);
    ThroughFlat(mem, tree, role, root, va);
  }

  lemma NotValid()
    ensures !IsValid(0)
  {
  }

  lemma TableFlags(pte: nat)
    requires Flags(pte) == PTE_V
    ensures IsTable(pte) && IsValid(pte)
  {
    var q := pte / 1024;
    assert pte == 2 * (512 * q) + 1;
    assert pte / 2 == 8 * (64 * q);
  }

  lemma LevelAt(mem: seq<Page>, tree: Tree, role: seq<Role>, root: nat, v: nat, k: nat)
    requires TreeOk(mem, tree, role, None) && k > 0
    ensures At(root, v, k) in tree ==>
              && IsTable(tree[At(root, v, k)]) && IsValid(tree[At(root, v, k)]) && !IsValid(0)
              && EntryAt(mem, PageOf(tree[At(root, v, k)]), Up(v, k - 1) % 512) == Content(tree, At(root, v, k - 1))
  {
    hide Up, IsTable, IsValid, Flags, PageOf, Child, Parent;
    NotValid();
    if At(root, v, k) in tree {
      AtChild(root, v, k - 1);
      TableAt(mem, tree, role, At(root, v, k));
      assert NodeOk(mem, tree, role, At(root, v, k), None);
      TableFlags(tree[At(root, v, k)]);
    }
  }

  /** mappages changes the translations of its range, as asked, and no other address
      of any page table. */
  lemma MappedTranslate(mem: seq<Page>, tree: Tree, role: seq<Role>, mem': seq<Page>, tree': Tree, role': seq<Role>,
                        root: nat, first: nat, count: nat, page: nat, perm: nat, end: nat, r: nat, va: nat)
    requires TreeOk(mem, tree, role, None) && TreeOk(mem', tree', role', None) && perm < 1024
    requires Mapped(tree, tree', root, first, count, page, perm, end) && Node(r, 3, 0) in tree && va < MAXVA
    ensures Translate(mem', r, va) == if r == root && first <= va / PGSIZE < first + count
                                      then Some(MakePte(page + va / PGSIZE - first, perm)) else Translate(mem, r, va)
  {
    hide TreeOk, Translate, MakePte;
    TranslateFlat(mem, tree, role, r, va);
    TranslateFlat(mem', tree', role', r, va);
    var v := va / PGSIZE;
    if r == root && first <= v < first + count {
      assert MapsTo(tree, tree', Node(root, 0, v), page + v - first, perm);
    }
  }

  /** uvmunmap undoes the translations of its range and no other. */
  lemma UnmappedTranslate(mem: seq<Page>, tree: Tree, role: seq<Role>, mem': seq<Page>, tree': Tree, role': seq<Role>,
                          root: nat, first: nat, end: nat, r: nat, va: nat)
    requires TreeOk(mem, tree, role, None) && TreeOk(mem', tree', role', None)
    requires Unmapped(tree, tree', root, first, end) && Node(r, 3, 0) in tree && va < MAXVA
    ensures Translate(mem', r, va) == if r == root && first <= va / PGSIZE < end then None else Translate(mem, r, va)
  {
    hide TreeOk, Translate;
    TranslateFlat(mem, tree, role, r, va);
    TranslateFlat(mem', tree', role', r, va);
  }

  /** Two addresses share a leaf entry exactly when they share a page of one table. */
  lemma SameSlot(mem: seq<Page>, tree: Tree, role: seq<Role>, r: nat, va: nat, s: nat, wa: nat)
    requires TreeOk(mem, tree, role, None) && At(r, va / PGSIZE, 1) in tree && At(s, wa / PGSIZE, 1) in tree
    ensures (PageOf(tree[At(r, va / PGSIZE, 1)]), PX(0, va)) == (PageOf(tree[At(s, wa / PGSIZE, 1)]), PX(0, wa))
            <==> r == s && va / PGSIZE == wa / PGSIZE
  {
    hide TreeOk, PageOf, Child;
    TableAt(mem, tree, role, At(r, va / PGSIZE, 1));
    TableAt(mem, tree, role, At(s, wa / PGSIZE, 1));
    AtChild(r, va / PGSIZE, 0);
    AtChild(s, wa / PGSIZE, 0);
    assert Up(va / PGSIZE, 0) == va / PGSIZE && Up(wa / PGSIZE, 0) == wa / PGSIZE;
  }
}
