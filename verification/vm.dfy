/** Page tables and the page allocator (kernel/vm.c, kernel/kalloc.c), on the structure
    of PageTree. */
module VirtualMemory {
  import opened Common
  import opened PageTree
  import opened Seqs

  class Memory {
    const lo: nat               // the first page after `end`
    var mem: seq<Page>          // up to PHYSTOP
    var freelist: nat           // address of the first free page, or 0
    ghost var free: seq<nat>
    ghost var role: seq<Role>
    ghost var tree: Tree

    ghost predicate ValidBut(hole: Option<Node>)
      reads this
    {
      && FreeOk(lo, mem, role, free, freelist)
      && TreeOk(mem, tree, role, hole)
      && RolesOk(tree, role)
    }

    ghost predicate Valid()
      reads this
    {
      ValidBut(None)
    }

    /** kinit: freerange from `end` to PHYSTOP. */
    constructor (end: nat, contents: seq<Page>)
      requires end > 0 && forall p | 0 <= p < |contents| :: |contents[p].words| == 512
      ensures Valid() && tree == map[] && |mem| == |contents| && lo == PageUp(end)
      ensures forall p | 0 <= p < |mem| :: if p < lo then role[p] == InUse else role[p].Free?
    {
      lo := PageUp(end);
      mem := contents;
      freelist := 0;
      free := [];
      role := seq(|contents|, _ => InUse);
      tree := map[];
      new;
      var p := lo;
      while p < |mem|
        invariant lo <= p && |mem| == |contents| && Valid() && tree == map[]
        invariant forall q | 0 <= q < |mem| :: if lo <= q < p then role[q].Free? else role[q] == InUse
      {
        Kfree(p, None);
        p := p + 1;
      }
    }

    /** kfree. */
    method Kfree(p: nat, ghost hole: Option<Node>)
      requires ValidBut(hole) && p < |mem| && lo <= p && role[p] == InUse
      modifies this`mem, this`freelist, this`free, this`role
      ensures ValidBut(hole) && free == old(free) + [p] && role == old(role)[p := Free(|old(free)|)]
      ensures |mem| == old(|mem|) && forall q | 0 <= q < |mem| && q != p :: mem[q] == old(mem[q])
    {
      hide FreeOk, TreeOk, RolesOk, Filled;
      Sizes(lo, mem, role, free, freelist);
      FreeMore(lo, mem, role, free, freelist, p, Page(Filled(1).words[0 := freelist]));
      mem := mem[p := Page(Filled(1).words[0 := freelist])];
      freelist := p * PGSIZE;
      role := role[p := Free(|free|)];
      free := free + [p];
      TreeSame(old(mem), mem, tree, old(role), role, hole);
      RolesSame(tree, old(role), role);
    }

    /** kalloc: a page that was free, or none if there is none. */
    method Kalloc() returns (r: nat)
      requires Valid()
      modifies this`mem, this`freelist, this`free, this`role
      ensures Valid() && |mem| == old(|mem|)
      ensures r == 0 <==> old(free) == []
      ensures r == 0 ==> free == old(free) && role == old(role) && mem == old(mem)
      ensures r != 0 ==>
                && lo <= r < |mem| && old(role[r]).Free? && |old(free)| > 0
                && r == old(free)[|old(free)| - 1] && free == old(free)[..|old(free)| - 1]
                && role == old(role)[r := InUse] && mem == old(mem)[r := Filled(5)]
    {
      r := freelist / PGSIZE;
      if r != 0 {
        freelist := mem[r].words[0];
        mem := mem[r := Filled(5)];
        role := role[r := InUse];
        free := free[..|free| - 1];
        TreeSame(old(mem), mem, tree, old(role), role, None);
        RolesSame(tree, old(role), role);
      }
    }

    /** The part of walk that adds a missing table page for node n, whose entry is
        the i-th of table t. */
    method AddTable(t: nat, i: nat, ghost n: Node) returns (q: nat)
      requires Valid() && n !in tree && 1 <= n.height < 3 && Parent(n) in tree
      requires t == PageOf(tree[Parent(n)]) && i == n.prefix % 512
      modifies this
      ensures Valid()
      ensures q == 0 <==> old(free) == []
      ensures q == 0 ==> free == old(free) && tree == old(tree) && role == old(role) && mem == old(mem)
      ensures q != 0 ==> |old(free)| > 0 && |free| == |old(free)| - 1 && tree == old(tree)[n := MakePte(q, 0)]
      ensures Grown(old(tree), old(role), old(mem), tree, role, mem, {n})
    {
      hide FreeOk, TreeOk, RolesOk, Filled, Grown;
      Sizes(lo, mem, role, free, freelist);
      TableAt(mem, tree, role, Parent(n));
      GrownNone(lo, mem, role, free, freelist, tree, {n});
      q := Kalloc();
      if q != 0 {
        GrownTable(tree, old(role), old(mem), n, q, t, i);
        assert old(mem)[q := Filled(5)][q := Filled(0)] == old(mem)[q := Filled(0)];
        assert old(role)[q := InUse][q := Table(n)] == old(role)[q := Table(n)];
        ghost var role0, mem0 := role, mem;
        mem := mem[q := Filled(0)];
        TableAdded(mem0, tree, role, q, n);
        tree := tree[n := MakePte(q, 0)];
        role := role[q := Table(n)];
        CloseHole(mem, tree, role, n, Parent(n));
        mem := Stored(mem, t, i, MakePte(q, 0));
        FreeSame(lo, mem0, mem, role0, role, free, freelist);
      }
    }

    /** walk: the place of the leaf entry for va, as a table page and an index.
        With alloc it fails exactly when memory runs out, and what it added stays
        reachable. */
    method Walk(root: nat, va: nat, alloc: bool) returns (pte: Option<(nat, nat)>)
      requires Valid() && va < MAXVA && Node(root, 3, 0) in tree
      modifies this
      ensures Valid()
      ensures pte.Some? ==> At(root, va / PGSIZE, 1) in tree
                            && pte.value == (PageOf(tree[At(root, va / PGSIZE, 1)]), va / PGSIZE % 512)
      ensures pte.Some? <==> if alloc then Lacks(old(tree), root, va / PGSIZE) <= |old(free)|
                             else At(root, va / PGSIZE, 1) in old(tree)
      ensures !alloc ==> tree == old(tree) && role == old(role) && free == old(free) && mem == old(mem)
      ensures pte.Some? && alloc ==> |free| == |old(free)| - Lacks(old(tree), root, va / PGSIZE)
      ensures Grown(old(tree), old(role), old(mem), tree, role, mem, Path(root, va / PGSIZE))
    {
      hide Grown, Up, FreeOk, TreeOk, RolesOk, Flags;
      ghost var v := va / PGSIZE;
      var pagetable := root;
      var level := 2;
      RootAt(mem, tree, role, root, v);
      GrownNone(lo, mem, role, free, freelist, tree, Path(root, v));
      while level > 0
        invariant 0 <= level <= 2 && Valid()
        invariant At(root, v, level + 1) in tree && PageOf(tree[At(root, v, level + 1)]) == pagetable
        invariant |free| - Lacks(tree, root, v) == |old(free)| - Lacks(old(tree), root, v)
        invariant !alloc ==> tree == old(tree) && role == old(role) && free == old(free) && mem == old(mem)
        invariant level < 2 ==> At(root, v, 2) in tree
        invariant Grown(old(tree), old(role), old(mem), tree, role, mem, Path(root, v))
      {
        TableAt(mem, tree, role, At(root, v, level + 1));
        AtChild(root, v, level);
        var i := PX(level, va);
        var pte' := mem[pagetable].words[i];
        if IsValid(pte') {
          pagetable := PageOf(pte');
        } else {
          AtChild(root, v, 1);
          NodeAt(mem, tree, role, At(root, v, 1));
          NodeAt(mem, tree, role, At(root, v, level));
          if !alloc {
            return None;
          }
          ghost var n := At(root, v, level);
          ghost var was, was', was'' := tree, role, mem;
          pagetable := AddTable(pagetable, i, n);
          GrownTrans(old(tree), old(role), old(mem), was, was', was'', tree, role, mem, Path(root, v), {n});
          if pagetable == 0 {
            return None;
          }
        }
        level := level - 1;
      }
      return Some((pagetable, PX(0, va)));
    }

    /** walkaddr: the page of a user mapping, as an address, or 0. */
    method Walkaddr(root: nat, va: nat) returns (pa: nat)
      requires Valid() && Node(root, 3, 0) in tree
      modifies this
      ensures Valid() && tree == old(tree) && role == old(role) && free == old(free) && mem == old(mem)
      ensures pa == if va < MAXVA && Node(root, 0, va / PGSIZE) in tree && IsUser(tree[Node(root, 0, va / PGSIZE)])
                    then PageOf(tree[Node(root, 0, va / PGSIZE)]) * PGSIZE else 0
    {
      hide FreeOk, TreeOk, RolesOk, PageOf, IsUser;
      if va >= MAXVA {
        return 0;
      }
      var pte := Entry(root, va);
      if pte.None? || !IsUser(pte.value) {
        return 0;
      }
      return PageOf(pte.value) * PGSIZE;
    }

    /** The valid entry for an address, if there is one. */
    method Entry(root: nat, va: nat) returns (r: Option<nat>)
      requires Valid() && Node(root, 3, 0) in tree && va < MAXVA
      modifies this
      ensures Valid() && tree == old(tree) && role == old(role) && free == old(free) && mem == old(mem)
      ensures r == if Node(root, 0, va / PGSIZE) in tree then Some(tree[Node(root, 0, va / PGSIZE)]) else None
    {
      hide FreeOk, TreeOk, RolesOk, Flags, PageOf, Up, Child, Parent;
      ghost var v := va / PGSIZE;
      RootAt(mem, tree, role, root, v);
      AtChild(root, v, 0);
      NodeAt(mem, tree, role, Node(root, 0, v));
      if At(root, v, 1) in tree {
        TableAt(mem, tree, role, At(root, v, 1));
      }
      var pte := Walk(root, va, false);
      if pte == None {
        return None;
      }
      var (t, i) := pte.value;
      var e := mem[t].words[i];
      return if IsValid(e) then Some(e) else None;
    }

    /** The body of mappages' loop. */
    method MapPage(root: nat, a: nat, pa: nat, perm: nat) returns (ok: bool)
      requires Valid() && a < MAXVA && Node(root, 3, 0) in tree && perm < 1024
      requires Node(root, 0, a / PGSIZE) !in tree
      modifies this
      ensures Valid() && Kept(old(role), old(mem), role, mem)
      ensures ok <==> Lacks(old(tree), root, a / PGSIZE) <= |old(free)|
      ensures ok ==> |free| == |old(free)| - Lacks(old(tree), root, a / PGSIZE)
      ensures ok ==> Path(root, a / PGSIZE) <= tree.Keys
      ensures Mapped(old(tree), tree, root, a / PGSIZE, if ok then 1 else 0, pa / PGSIZE, perm, a / PGSIZE + 1)
    {
      hide FreeOk, TreeOk, RolesOk, Flags, PageOf, Up, MakePte, Child, Parent;
      ghost var v := a / PGSIZE;
      var pte := Walk(root, a, true);
      if pte == None {
        return false;
      }
      RootAt(mem, tree, role, root, v);
      AtChild(root, v, 0);
      AtChild(root, v, 1);
      NodeAt(mem, tree, role, At(root, v, 1));
      Sizes(lo, mem, role, free, freelist);
      TableAt(mem, tree, role, At(root, v, 1));
      ghost var mem0, role0 := mem, role;
      LeafAdded(mem, tree, role, root, v, MakePte(pa / PGSIZE, perm));
      var (t, i) := pte.value;
      mem := Stored(mem, t, i, MakePte(pa / PGSIZE, perm));
      tree := tree[Node(root, 0, v) := MakePte(pa / PGSIZE, perm)];
      FreeSame(lo, mem0, mem, role, role, free, freelist);
      return true;
    }

    /** mappages.  Succeeds exactly when there are pages enough for the missing
        tables; if not, the `done` pages before are left mapped. */
    method Mappages(root: nat, va: nat, size: nat, pa: nat, perm: nat) returns (ok: bool, ghost done: nat)
      requires Valid() && Node(root, 3, 0) in tree && perm < 1024
      requires size > 0 && va + size <= MAXVA
      requires forall v | va / PGSIZE <= v <= (va + size - 1) / PGSIZE :: Node(root, 0, v) !in tree
      modifies this
      ensures Valid() && Kept(old(role), old(mem), role, mem)
      ensures ok <==> Missing(old(tree), root, va / PGSIZE, (va + size - 1) / PGSIZE + 1) <= |old(free)|
      ensures ok ==> |free| == |old(free)| - Missing(old(tree), root, va / PGSIZE, (va + size - 1) / PGSIZE + 1)
      ensures ok <==> va / PGSIZE + done == (va + size - 1) / PGSIZE + 1
      ensures va / PGSIZE + done <= (va + size - 1) / PGSIZE + 1
      ensures Mapped(old(tree), tree, root, va / PGSIZE, done, pa / PGSIZE, perm, va / PGSIZE + done + if ok then 0
              else 1)
    {
      hide FreeOk, TreeOk, RolesOk, MakePte, Missing, Lacks, At, Mapped, Kept, Path;
      var a := va / PGSIZE * PGSIZE;
      var last := (va + size - 1) / PGSIZE * PGSIZE;
      ghost var first, end := va / PGSIZE, last / PGSIZE + 1;
      var pa' := pa;
      done := 0;
      GrownNone(lo, mem, role, free, freelist, tree, {});
      MappedNone(tree, root, first, pa / PGSIZE, perm);
      while true
        invariant Valid() && Kept(old(role), old(mem), role, mem)
        invariant a == (first + done) * PGSIZE && a <= last && pa' / PGSIZE == pa / PGSIZE + done
        invariant Node(root, 3, 0) in tree
        invariant Mapped(old(tree), tree, root, first, done, pa / PGSIZE, perm, first + done)
        invariant |free| - Missing(tree, root, first + done, end) == |old(free)| - Missing(old(tree), root, first, end)
        decreases last - a
      {
        ghost var was, role0, mem0 := tree, role, mem;
        assert a / PGSIZE == first + done;
        MappedRest(old(tree), tree, root, first, done, pa / PGSIZE, perm, first + done, a / PGSIZE);
        ok := MapPage(root, a, pa', perm);
        KeptThen(old(role), old(mem), role0, mem0, role, mem);
        MappedMore(old(tree), was, tree, root, first, done, pa / PGSIZE, perm, first + done, if ok then 1 else 0);
        if !ok {
          MissingAtLeast(was, root, first + done, end);
          return;
        }
        MissingMapped(was, tree, root, first + done, pa / PGSIZE + done, perm, end);
        MappedRest(old(tree), tree, root, first, done + 1, pa / PGSIZE, perm, first + done + 1, 0);
        done := done + 1;
        if a == last {
          MissingNone(tree, root, end);
          break;
        }
        a := a + PGSIZE;
        pa' := pa' + PGSIZE;
      }
    }

    /** Virtual page v gives up its page, which is freed on demand. */
    method ReleasePage(pa: nat, doFree: bool, ghost root: nat, ghost v: nat)
      requires Valid() && Leafy(tree, role, root, v, doFree) && pa == PageOf(tree[Node(root, 0, v)])
      modifies this`mem, this`freelist, this`free, this`role
      ensures Valid() && Leaf(root, v) !in role
      ensures Returned(old(role), old(mem), role, mem, root, v, v + 1, doFree)
      ensures old(free) <= free && |free| == |old(free)| + if doFree then 1 else 0
    {
      hide FreeOk, TreeOk, RolesOk, Flags, PageOf;
      Sizes(lo, mem, role, free, freelist);
      LeafRole(tree, role, root, v);
      if pa < |mem| {
        LeafNotLow(lo, mem, role, free, freelist, pa);
        role := if role[pa] == Leaf(root, v) then role[pa := InUse] else role;
      }
      TreeSame(mem, mem, tree, old(role), role, None);
      RolesSame(tree, old(role), role);
      FreeSame(lo, mem, mem, old(role), role, free, freelist);
      if doFree {
        Kfree(pa, None);
      }
    }

    /** The body of uvmunmap's loop. */
    method UnmapPage(root: nat, a: nat, doFree: bool)
      requires Valid() && a < MAXVA && Node(root, 3, 0) in tree
      requires Leafy(tree, role, root, a / PGSIZE, doFree)
      modifies this
      ensures Valid()
      ensures Unmapped(old(tree), tree, root, a / PGSIZE, a / PGSIZE + 1)
      ensures Returned(old(role), old(mem), role, mem, root, a / PGSIZE, a / PGSIZE + 1, doFree)
      ensures old(free) <= free && |free| == |old(free)| + if doFree then 1 else 0
    {
      hide FreeOk, TreeOk, RolesOk, Flags, PageOf, Up, Child, Parent;
      ghost var v := a / PGSIZE;
      ghost var n := Node(root, 0, v);
      RootAt(mem, tree, role, root, v);
      AtChild(root, v, 0);
      NodeAt(mem, tree, role, n);
      Sizes(lo, mem, role, free, freelist);
      TableAt(mem, tree, role, At(root, v, 1));
      var pte := Walk(root, a, false);
      var (t, i) := pte.value;
      var pa := PageOf(mem[t].words[i]);
      ReleasePage(pa, doFree, root, v);
      TableAt(mem, tree, role, At(root, v, 1));
      LeafRemoved(mem, tree, role, root, v);
      ghost var mem0 := mem;
      mem := Stored(mem, t, i, 0);
      tree := tree - {n};
      Sizes(lo, mem0, role, free, freelist);
      FreeSame(lo, mem0, mem, role, role, free, freelist);
    }

    /** uvmunmap. */
    method Uvmunmap(root: nat, va: nat, npages: nat, doFree: bool)
      requires Valid() && Node(root, 3, 0) in tree
      requires va % PGSIZE == 0 && va + npages * PGSIZE <= MAXVA
      requires forall v | va / PGSIZE <= v < va / PGSIZE + npages :: Leafy(tree, role, root, v, doFree)
      modifies this
      ensures Valid()
      ensures Unmapped(old(tree), tree, root, va / PGSIZE, va / PGSIZE + npages)
      ensures Returned(old(role), old(mem), role, mem, root, va / PGSIZE, va / PGSIZE + npages, doFree)
      ensures old(free) <= free && |free| == |old(free)| + if doFree then npages else 0
    {
      hide FreeOk, TreeOk, RolesOk, Flags, PageOf;
      Sizes(lo, mem, role, free, freelist);
      ghost var first := va / PGSIZE;
      ghost var v := first;
      var a := va;
      while a < va + npages * PGSIZE
        invariant a == v * PGSIZE && first <= v <= first + npages && Valid() && Node(root, 3, 0) in tree
        invariant Unmapped(old(tree), tree, root, first, v)
        invariant Returned(old(role), old(mem), role, mem, root, first, v, doFree)
        invariant old(free) <= free && |free| == |old(free)| + if doFree then v - first else 0
      {
        ghost var was, was', was'' := tree, role, mem;
        assert Leafy(old(tree), old(role), root, v, doFree);
        LeafyStill(old(tree), old(role), old(mem), tree, role, mem, root, first, v, v, doFree);
        UnmapPage(root, a, doFree);
        UnmappedMore(old(tree), was, tree, root, first, v);
        ReturnedMore(old(role), old(mem), was', was'', role, mem, root, first, v, doFree);
        v := v + 1;
        a := a + PGSIZE;
      }
    }

    /** uvmdealloc. */
    method Uvmdealloc(root: nat, oldsz: nat, newsz: nat) returns (sz: nat)
      requires Valid() && Node(root, 3, 0) in tree && oldsz <= MAXVA
      requires forall v | PageUp(newsz) <= v < PageUp(oldsz) :: Leafy(tree, role, root, v, true)
      modifies this
      ensures Valid() && sz == if newsz < oldsz then newsz else oldsz
      ensures Unmapped(old(tree), tree, root, PageUp(newsz), PageUp(oldsz))
      ensures Returned(old(role), old(mem), role, mem, root, PageUp(newsz), PageUp(oldsz), true)
      ensures old(free) <= free
      ensures |free| == |old(free)| + if PageUp(newsz) < PageUp(oldsz) then PageUp(oldsz) - PageUp(newsz) else 0
    {
      hide FreeOk, TreeOk, RolesOk, Flags, PageOf, Leafy;
      Sizes(lo, mem, role, free, freelist);
      if newsz >= oldsz {
        return oldsz;
      }
      if PageUp(newsz) < PageUp(oldsz) {
        var npages := (PageUp(oldsz) * PGSIZE - PageUp(newsz) * PGSIZE) / PGSIZE;
        Uvmunmap(root, PageUp(newsz) * PGSIZE, npages, true);
      }
      return newsz;
    }

    /** kalloc, and then memset or memmove. */
    method FilledPage(content: Page) returns (page: nat)
      requires Valid() && |content.words| == 512
      modifies this`mem, this`freelist, this`free, this`role
      ensures Valid() && |mem| == old(|mem|)
      ensures page == 0 <==> old(free) == []
      ensures page == 0 ==> free == old(free) && role == old(role) && mem == old(mem)
      ensures page != 0 ==> lo <= page < |mem| && old(role[page]).Free? && |old(free)| > 0 && |free| == |old(free)| - 1
                            && role == old(role)[page := InUse] && mem == old(mem)[page := content]
    {
      hide FreeOk, TreeOk, RolesOk, Filled;
      Sizes(lo, mem, role, free, freelist);
      page := Kalloc();
      if page != 0 {
        ghost var mem0 := mem;
        Sizes(lo, mem, role, free, freelist);
        mem := mem[page := content];
        TreeSame(mem0, mem, tree, role, role, None);
        FreeSame(lo, mem0, mem, role, role, free, freelist);
        Overwrite(old(mem), page, Filled(5), content);
      }
    }

    /** The common body of uvmalloc's and uvmcopy's loops: a page with this content,
        mapped at a, or nothing but tables. */
    method AllocPage(root: nat, a: nat, content: Page, perm: nat) returns (ok: bool)
      requires Valid() && Node(root, 3, 0) in tree && a % PGSIZE == 0 && a < MAXVA && perm < 1024
      requires Node(root, 0, a / PGSIZE) !in tree && |content.words| == 512
      modifies this
      ensures Valid()
      ensures ok <==> 1 + Lacks(old(tree), root, a / PGSIZE) <= |old(free)|
      ensures ok ==> |free| == |old(free)| - 1 - Lacks(old(tree), root, a / PGSIZE)
      ensures ok ==> Holding(tree, role, mem, root, a / PGSIZE, content, perm) && Path(root, a / PGSIZE) <= tree.Keys
      ensures Alloced(old(tree), old(role), old(mem), tree, role, mem, root, a / PGSIZE,
                      a / PGSIZE + if ok then 1 else 0, a / PGSIZE + 1)
    {
      hide FreeOk, TreeOk, RolesOk, Flags, PageOf, IsValid, Up, Filled, Missing, Needed, PX;
      ghost var v := a / PGSIZE;
      Sizes(lo, mem, role, free, freelist);
      var page := FilledPage(content);
      if page == 0 {
        return false;
      }
      MissingOne(tree, root, v);
      ghost var done;
      ok, done := Mappages(root, a, PGSIZE, page * PGSIZE, perm);
      if !ok {
        Kfree(page, None);
        return;
      }
      assert MapsTo(old(tree), tree, Node(root, 0, v), page, perm);
      LeafOwned(lo, mem, role, free, freelist, tree, page, root, v);
      role := role[page := Leaf(root, v)];
      PathIn(mem, tree, role, root, v);
    }

    /** uvmalloc.  If nothing is mapped in its way it grows the process exactly when there are
        pages enough for its new pages and their missing tables, and otherwise undoes the
        mappings.  At MAXVA or at a mapped page it undoes them too, or panics exactly if a
        page is left then. */
    method Uvmalloc(root: nat, oldsz: nat, newsz: nat) returns (r: Option<nat>)
      requires Valid() && Node(root, 3, 0) in tree && oldsz <= MAXVA
      modifies this
      ensures newsz < oldsz ==> r == Some(oldsz) && unchanged(this)
      ensures oldsz <= newsz ==>
                var first, end := PageUp(oldsz), Reach(old(tree), root, PageUp(oldsz), PageUp(newsz));
                && (r.None? <==> end < PageUp(newsz) && PagesLeft(old(tree), old(free), root, first, end) > 0)
                && (r == Some(newsz) <==> end == PageUp(newsz) && Affordable(old(tree), old(free), root, first, end))
                && (r.Some? && r.value != newsz ==>
                      && r.value == 0
                      && Alloced(old(tree), old(role), old(mem), tree, role, mem, root, first, first, end))
                && (r == Some(newsz) ==>
                      Extended(old(tree), old(role), old(mem), tree, role, mem, root, oldsz, newsz))
      ensures r.Some? ==> Valid()
    {
      hide FreeOk, TreeOk, RolesOk, Holding, Alloced, Missing, Filled, Extended, Reach;
      if newsz < oldsz {
        return Some(oldsz);
      }
      ghost var first, end := PageUp(oldsz), Reach(tree, root, PageUp(oldsz), PageUp(newsz));
      MissingNone(tree, root, first);
      var top := InTheWay(root, oldsz, newsz);
      var ok := GrowPages(root, oldsz, top);
      if !ok {
        return Some(0);
      }
      if top == newsz {
        return Some(newsz);
      }
      var page := Kalloc();
      if page != 0 {
        return None;
      }
      ExtendedLeafy(old(tree), old(role), old(mem), tree, role, mem, root, oldsz, top);
      ghost var tree0, role0, mem0 := tree, role, mem;
      var _ := Uvmdealloc(root, top, PageUp(oldsz) * PGSIZE);
      Rollback(old(tree), old(role), old(mem), tree0, role0, mem0, tree, role, mem, root, first, end, end, end);
      return Some(0);
    }

    /** Where uvmalloc's loop gets to if memory suffices. */
    method InTheWay(root: nat, oldsz: nat, newsz: nat) returns (top: nat)
      requires Valid() && Node(root, 3, 0) in tree && oldsz <= MAXVA && oldsz <= newsz
      modifies this
      ensures Valid() && tree == old(tree) && role == old(role) && free == old(free) && mem == old(mem)
      ensures var end := Reach(tree, root, PageUp(oldsz), PageUp(newsz));
              top == (if end == PageUp(newsz) then newsz else end * PGSIZE) && oldsz <= top <= MAXVA
              && PageUp(top) == end
    {
      hide FreeOk, TreeOk, RolesOk, IsValid;
      top := PageUp(oldsz) * PGSIZE;
      ghost var v := PageUp(oldsz);
      while top < newsz
        invariant Valid() && tree == old(tree) && role == old(role) && free == old(free) && mem == old(mem)
        invariant top == v * PGSIZE && PageUp(oldsz) <= v <= PageUp(newsz) && v <= VPAGES
        invariant Reach(tree, root, v, PageUp(newsz)) == Reach(tree, root, PageUp(oldsz), PageUp(newsz))
      {
        if top == MAXVA {
          return;
        }
        var pte := Entry(root, top);
        if pte.Some? {
          return;
        }
        top, v := top + PGSIZE, v + 1;
      }
      top := newsz;
    }

    /** uvmalloc's loop, as far as addresses go. */
    method GrowPages(root: nat, oldsz: nat, newsz: nat) returns (ok: bool)
      requires Valid() && Node(root, 3, 0) in tree && oldsz <= newsz <= MAXVA
      requires forall v | PageUp(oldsz) <= v < PageUp(newsz) :: Node(root, 0, v) !in tree
      modifies this
      ensures Valid() && Node(root, 3, 0) in tree
      ensures ok <==> Affordable(old(tree), old(free), root, PageUp(oldsz), PageUp(newsz))
      ensures ok ==> Extended(old(tree), old(role), old(mem), tree, role, mem, root, oldsz, newsz)
      ensures ok ==> |free| == PagesLeft(old(tree), old(free), root, PageUp(oldsz), PageUp(newsz))
      ensures !ok ==> Alloced(old(tree), old(role), old(mem), tree, role, mem, root, PageUp(oldsz), PageUp(oldsz),
                              PageUp(newsz))
    {
      hide FreeOk, TreeOk, RolesOk, Holding, Alloced, Lacks, Missing, Needed, Filled;
      AllocedNone(lo, mem, role, free, freelist, tree, root, PageUp(oldsz));
      ghost var first, end := PageUp(oldsz), PageUp(newsz);
      ghost var v := first;
      var start := PageUp(oldsz) * PGSIZE;
      var a := start;
      while a < newsz
        invariant a == v * PGSIZE && first <= v <= end
        invariant Valid() && Node(root, 3, 0) in tree
        invariant Alloced(old(tree), old(role), old(mem), tree, role, mem, root, first, v, v)
        invariant forall u | first <= u < v :: Holding(tree, role, mem, root, u, Filled(0), USER)
        invariant PagesLeft(tree, free, root, v, end) == PagesLeft(old(tree), old(free), root, first, end)
      {
        ghost var tree0, role0, mem0 := tree, role, mem;
        AllocedTables(old(tree), old(role), old(mem), tree, role, mem, root, first, v, v);
        ok := AllocPage(root, a, Filled(0), USER);
        ghost var v' := if ok then v + 1 else v;
        AllocedMore(old(tree), old(role), old(mem), tree0, role0, mem0, tree, role, mem, root, first, v, v' - v);
        forall u | first <= u < v
          ensures Holding(tree, role, mem, root, u, Filled(0), USER)
        {
          HoldingStill(tree0, role0, mem0, tree, role, mem, root, v, v', v + 1, root, u, Filled(0), USER);
        }
        AllocedTables(tree0, role0, mem0, tree, role, mem, root, v, v', v + 1);
        if !ok {
          MissingAtLeast(tree0, root, v, end);
          forall u | first <= u < v
            ensures Leafy(tree, role, root, u, true)
          {
            HoldingLeafy(tree, role, mem, root, u, Filled(0), USER);
          }
          tree0, role0, mem0 := tree, role, mem;
          var _ := Uvmdealloc(root, a, start);
          Rollback(old(tree), old(role), old(mem), tree0, role0, mem0, tree, role, mem, root, first, v, v + 1, end);
          return false;
        }
        MissingStep(tree0, tree, root, v, end);
        v := v + 1;
        a := a + PGSIZE;
      }
      MissingNone(tree, root, end);
      return true;
    }

    /** uvmcopy.  The child gets pages of its own with the parent's contents and
        permissions, or, when there are not pages enough, no page. */
    method Uvmcopy(parent: nat, child: nat, sz: nat) returns (ok: bool)
      requires Valid() && Node(parent, 3, 0) in tree && Node(child, 3, 0) in tree && sz <= MAXVA
      requires forall v | 0 <= v < PageUp(sz) :: Leafy(tree, role, parent, v, true)
      requires forall v | 0 <= v < PageUp(sz) :: Node(child, 0, v) !in tree
      modifies this
      ensures Valid()
      ensures ok <==> Affordable(old(tree), old(free), child, 0, PageUp(sz))
      ensures ok ==> Alloced(old(tree), old(role), old(mem), tree, role, mem, child, 0, PageUp(sz), PageUp(sz))
      ensures ok ==> forall v | 0 <= v < PageUp(sz) ::
                Holding(tree, role, mem, child, v, DataOf(old(tree), old(mem), parent, v), PermOf(old(tree), parent, v))
      ensures !ok ==> Alloced(old(tree), old(role), old(mem), tree, role, mem, child, 0, 0, PageUp(sz))
    {
      hide FreeOk, TreeOk, RolesOk, Holding, Alloced, Lacks, Missing, Needed, Filled, Leafy, DataOf, PermOf, Flags;
      AllocedNone(lo, mem, role, free, freelist, tree, child, 0);
      ghost var end := PageUp(sz);
      ghost var v := 0;
      var i := 0;
      while i < sz
        invariant i == v * PGSIZE && 0 <= v <= end && Valid()
        invariant Node(parent, 3, 0) in tree && Node(child, 3, 0) in tree
        invariant Alloced(old(tree), old(role), old(mem), tree, role, mem, child, 0, v, v)
        invariant forall u | 0 <= u < v ::
                    Holding(tree, role, mem, child, u, DataOf(old(tree), old(mem), parent, u),
                      PermOf(old(tree), parent, u))
        invariant |free| - (end - v) - Missing(tree, child, v, end) == |old(free)| - end - Missing(old(tree), child, 0,
                  end)
      {
        ghost var tree0, role0, mem0 := tree, role, mem;
        AllocedTables(old(tree), old(role), old(mem), tree, role, mem, child, 0, v, v);
        ParentStill(old(tree), old(role), old(mem), tree, role, mem, child, 0, v, v, parent, v);
        ghost var data, perm := DataOf(old(tree), old(mem), parent, v), PermOf(old(tree), parent, v);
        ok := CopyPage(parent, child, i);
        AllocedMore(old(tree), old(role), old(mem), tree0, role0, mem0, tree, role, mem, child, 0, v, if ok then 1
          else 0);
        AllocedTables(tree0, role0, mem0, tree, role, mem, child, v, if ok then v + 1 else v, v + 1);
        forall u | 0 <= u < v
          ensures Holding(tree, role, mem, child, u, DataOf(old(tree), old(mem), parent, u),
                  PermOf(old(tree), parent, u))
        {
          HoldingStill(tree0, role0, mem0, tree, role, mem, child, v, if ok then v + 1 else v, v + 1, child, u,
                       DataOf(old(tree), old(mem), parent, u), PermOf(old(tree), parent, u));
        }
        if !ok {
          MissingAtLeast(tree0, child, v, end);
          forall u | 0 <= u < v
            ensures Leafy(tree, role, child, u, true)
          {
            LeafyPerm(old(mem), old(tree), old(role), parent, u);
            HoldingLeafy(tree, role, mem, child, u, DataOf(old(tree), old(mem), parent, u),
              PermOf(old(tree), parent, u));
          }
          tree0, role0, mem0 := tree, role, mem;
          Uvmunmap(child, 0, i / PGSIZE, true);
          Rollback(old(tree), old(role), old(mem), tree0, role0, mem0, tree, role, mem, child, 0, v, v + 1, end);
          return;
        }
        MissingStep(tree0, tree, child, v, end);
        v := v + 1;
        i := i + PGSIZE;
      }
      MissingNone(tree, child, end);
      ok := true;
    }

    /** The body of uvmcopy's loop. */
    method CopyPage(parent: nat, child: nat, i: nat) returns (ok: bool)
      requires Valid() && Node(parent, 3, 0) in tree && Node(child, 3, 0) in tree && i < MAXVA && i % PGSIZE == 0
      requires Leafy(tree, role, parent, i / PGSIZE, true) && Node(child, 0, i / PGSIZE) !in tree
      modifies this
      ensures Valid()
      ensures ok <==> 1 + Lacks(old(tree), child, i / PGSIZE) <= |old(free)|
      ensures ok ==> |free| == |old(free)| - 1 - Lacks(old(tree), child, i / PGSIZE)
      ensures ok ==> Path(child, i / PGSIZE) <= tree.Keys
      ensures ok ==> Holding(tree, role, mem, child, i / PGSIZE, DataOf(old(tree), old(mem), parent, i / PGSIZE),
                             PermOf(old(tree), parent, i / PGSIZE))
      ensures Alloced(old(tree), old(role), old(mem), tree, role, mem, child, i / PGSIZE, i / PGSIZE + if ok then 1
              else 0, i / PGSIZE + 1)
    {
      hide FreeOk, TreeOk, RolesOk, Holding, Alloced, Lacks, Needed, Filled, Up;
      ghost var v := i / PGSIZE;
      Sizes(lo, mem, role, free, freelist);
      RootAt(mem, tree, role, parent, v);
      AtChild(parent, v, 0);
      NodeAt(mem, tree, role, Node(parent, 0, v));
      TableAt(mem, tree, role, At(parent, v, 1));
      var pte := Walk(parent, i, false);
      var (t, j) := pte.value;
      var e := mem[t].words[j];
      var pa, flags := PageOf(e), Flags(e);
      ok := AllocPage(child, i, mem[pa], flags);
    }

    /** uvmcreate: an empty page table. */
    method Uvmcreate() returns (root: nat)
      requires Valid()
      modifies this
      ensures Valid() && (root == 0 <==> old(free) == [])
      ensures root == 0 ==> tree == old(tree) && role == old(role) && mem == old(mem)
      ensures root != 0 ==> old(Node(root, 3, 0) !in tree) && tree == old(tree)[Node(root, 3, 0) := MakePte(root, 0)]
      ensures root != 0 ==>
                && |mem| == old(|mem|) && root < |mem| && old(role[root]).Free?
                && role == old(role)[root := Table(Node(root, 3, 0))]
                && forall p | 0 <= p < |mem| && p != root :: mem[p] == old(mem[p])
    {
      hide FreeOk, TreeOk, RolesOk, Filled, MakePte;
      Sizes(lo, mem, role, free, freelist);
      root := FilledPage(Filled(0));
      if root != 0 {
        ghost var role0 := role;
        RootAdded(lo, mem, role, free, freelist, tree, root);
        tree := tree[Node(root, 3, 0) := MakePte(root, 0)];
        role := role[root := Table(Node(root, 3, 0))];
      }
    }

    /** freewalk, at the table page of node m. */
    method Freewalk(pagetable: nat, ghost m: Node)
      requires Valid() && m in tree && m.height > 0 && PageOf(tree[m]) == pagetable && NoLeaf(tree, m)
      modifies this
      ensures ValidBut(Some(m)) && old(free) <= free
      ensures Pruned(old(tree), tree, m, ALL) && Collected(old(role), old(mem), role, mem, m, ALL)
      decreases m.height, 1
    {
      hide FreeOk, TreeOk, RolesOk, PageOf, NoLeaf, Gone, Pruned, Collected;
      PrunedNone(lo, mem, role, free, freelist, tree, m);
      var i := 0;
      while i < 512
        invariant 0 <= i <= 512 && Valid() && old(free) <= free
        invariant m in tree && PageOf(tree[m]) == pagetable && NoLeaf(tree, m)
        invariant Pruned(old(tree), tree, m, i) && Collected(old(role), old(mem), role, mem, m, i)
      {
        ghost var tree0, role0, mem0 := tree, role, mem;
        FreeEntry(pagetable, i, m);
        PrunedMore(old(tree), old(role), old(mem), tree0, role0, mem0, tree, role, mem, m, i);
        i := i + 1;
      }
      ghost var tree0, role0, mem0 := tree, role, mem;
      Sizes(lo, mem, role, free, freelist);
      TableAt(mem, tree, role, m);
      TableDropped(lo, mem, role, free, freelist, old(tree), tree, m);
      tree := tree - {m};
      role := role[pagetable := InUse];
      Kfree(pagetable, Some(m));
      PrunedAll(old(tree), old(role), old(mem), tree0, role0, mem0, tree, role, mem, m);
    }

    /** The body of freewalk's loop. */
    method FreeEntry(pagetable: nat, i: nat, ghost m: Node)
      requires Valid() && m in tree && m.height > 0 && PageOf(tree[m]) == pagetable && NoLeaf(tree, m) && i < 512
      modifies this
      ensures Valid() && old(free) <= free && m in tree && PageOf(tree[m]) == pagetable && NoLeaf(tree, m)
      ensures Pruned(old(tree), tree, Child(m, i), ALL) && Collected(old(role), old(mem), role, mem, Child(m, i), ALL)
      decreases m.height, 0
    {
      hide FreeOk, TreeOk, RolesOk, PageOf, NoLeaf, Gone, Pruned, Collected, Child, Parent;
      ghost var c := Child(m, i);
      ChildParent(m, i);
      Sizes(lo, mem, role, free, freelist);
      TableAt(mem, tree, role, m);
      NodeAt(mem, tree, role, c);
      ChildFacts(mem, tree, role, m, i);
      var pte := mem[pagetable].words[i];
      if IsValid(pte) && IsTable(pte) {
        Freewalk(PageOf(pte), c);
        ChildPruned(old(tree), tree, m, i);
        Sizes(lo, mem, role, free, freelist);
        HoleAt(mem, tree, role, m, c);
        CloseHole(mem, tree, role, c, m);
        ghost var mem0 := mem;
        mem := Stored(mem, pagetable, i, 0);
        FreeSame(lo, mem0, mem, role, role, free, freelist);
        CollectedStored(old(role), old(mem), role, mem0, mem, c, pagetable);
      } else if IsValid(pte) {
        assert false;
      } else {
        NothingUnder(mem, role, tree, c);
      }
    }

    /** uvmfree: every page of the page table goes back to the free list, and no other. */
    method Uvmfree(root: nat, sz: nat)
      requires Valid() && Node(root, 3, 0) in tree && sz <= MAXVA
      requires forall v | 0 <= v < PageUp(sz) :: Leafy(tree, role, root, v, true)
      requires forall n | n in tree && n.root == root && n.height == 0 :: n.prefix < PageUp(sz)
      modifies this
      ensures Valid() && old(free) <= free
      ensures forall n | n in tree :: n in old(tree) && n.root != root && tree[n] == old(tree)[n]
      ensures forall n | n in old(tree) && n.root != root :: n in tree
      ensures |role| == |old(role)| && forall p | 0 <= p < |role| ::
                if Owner(old(role)[p]) == Some(root) then role[p].Free? else role[p] == old(role)[p]
      ensures |mem| == |old(mem)| == |role| && forall p | 0 <= p < |role|
              && (role[p].InUse? || role[p].Leaf?) :: mem[p] == old(mem)[p]
    {
      hide FreeOk, TreeOk, RolesOk, PageOf, Gone, Leafy;
      ghost var m := Node(root, 3, 0);
      Sizes(lo, mem, role, free, freelist);
      RootAt(mem, tree, role, root, 0);
      if sz > 0 {
        Uvmunmap(root, 0, PageUp(sz), true);
      }
      RootAt(mem, tree, role, root, 0);
      ghost var tree0, role0, mem0 := tree, role, mem;
      TablesOnly(mem, role, old(tree), tree, root, PageUp(sz));
      Freewalk(root, m);
      RootHole(mem, tree, role, root);
      Freed(old(tree), old(role), old(mem), tree0, role0, mem0, tree, role, mem, root, PageUp(sz));
    }
  }
}
