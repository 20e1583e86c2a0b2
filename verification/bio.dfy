/** The buffer cache (kernel/bio.c): NBUF buffers on a doubly linked LRU ring.

    Every method below is one critical section of the source, or the disk
    transfer made while the buffer's sleep-lock is held, so a run of the system
    is some sequence of calls in any order.  `Valid` is what each of them keeps:
    the ring is one cycle through all the buffers, sorted by last release; a
    block has at most one buffer; a buffer's reference count is its holder plus
    its waiters plus its pins; and cache plus disk is one block map, `view`. */
module BufferCache {
  import opened Common
  import opened Seqs

  const NBUF: nat := 30
  const HEAD: nat := NBUF   // the list head's index in prev and next
  const ROOTDEV: nat := 1
  const WORDS: nat := 256   // BSIZE / sizeof(uint)

  /** A disk block, as the sequence of its WORDS 32-bit words. */
  datatype Block = Block(words: seq<int>)

  /** struct buf, without the list links, which are kept in `prev` and `next`. */
  datatype Buf = Buf(valid: bool, dev: nat, blockno: nat, locked: bool, refcnt: nat, data: Block)

  /* -------- the LRU ring -------- */

  /** A cycle through the head and all the buffers, the head first. */
  ghost predicate Cycle(ring: seq<nat>) {
    && |ring| == NBUF + 1 && ring[0] == HEAD
    && (forall k | 0 <= k <= NBUF :: ring[k] <= NBUF)
    && NoDup(ring)
  }

  /** prev and next link `ring` in both directions. */
  ghost predicate Linked(prev: seq<nat>, next: seq<nat>, ring: seq<nat>) {
    && |prev| == |next| == NBUF + 1
    && Cycle(ring)
    && (forall i | 0 <= i <= NBUF :: prev[i] <= NBUF && next[i] <= NBUF)
    && next[ring[NBUF]] == HEAD && prev[HEAD] == ring[NBUF]
    && (forall j, k | 0 <= j < NBUF && k == j + 1 :: next[ring[j]] == ring[k] && prev[ring[k]] == ring[j])
  }

  /** The list is sorted by how recently each buffer was released. */
  ghost predicate Sorted(ring: seq<nat>, released: seq<nat>, clock: nat) {
    && |released| == NBUF
    && Cycle(ring)
    && (forall i | 0 <= i < NBUF :: released[i] < clock)
    && (forall k | 1 <= k <= NBUF :: ring[k] < NBUF)
    && (forall j, k | 1 <= j < k <= NBUF :: released[ring[j]] > released[ring[k]])
  }

  /** The ring passes through every buffer. */
  lemma Reaches(ring: seq<nat>, b: nat) returns (k: nat)
    requires Cycle(ring) && b < NBUF
    ensures 1 <= k <= NBUF && ring[k] == b
  {
    Onto(ring, NBUF + 1, b);
    k :| 0 <= k <= NBUF && ring[k] == b;
  }

  /** `ring` with its k-th node moved to just behind the head. */
  ghost function Front(ring: seq<nat>, k: nat): (r: seq<nat>)
    requires 1 <= k < |ring|
  {
    ring[..1] + [ring[k]] + ring[1..k] + ring[k + 1..]
  }

  lemma FrontAt(ring: seq<nat>, k: nat, i: nat)
    requires 1 <= k < |ring| && i < |ring|
    ensures |Front(ring, k)| == |ring|
    ensures Front(ring, k)[i] == (if i == 0 || i > k then ring[i] else if i == 1 then ring[k] else ring[i - 1])
  {
    var head, mid := ring[..1] + [ring[k]], ring[1..k];
    assert Front(ring, k) == (head + mid) + ring[k + 1..];
  }

  lemma FrontCycle(ring: seq<nat>, k: nat)
    requires Cycle(ring) && 1 <= k <= NBUF
    ensures Cycle(Front(ring, k))
  {
    var r := Front(ring, k);
    forall i | 0 <= i <= NBUF
      ensures r[i] == (if i == 0 || i > k then ring[i] else if i == 1 then ring[k] else ring[i - 1])
    {
      FrontAt(ring, k, i);
    }
  }

  /** Releasing a buffer now, and moving it to the front, keeps the list sorted. */
  lemma FrontSorted(ring: seq<nat>, released: seq<nat>, clock: nat, k: nat)
    requires Sorted(ring, released, clock) && 1 <= k <= NBUF
    ensures Sorted(Front(ring, k), released[ring[k] := clock], clock + 1)
  {
    FrontCycle(ring, k);
    var r := Front(ring, k);
    forall i | 0 <= i <= NBUF
      ensures r[i] == (if i == 0 || i > k then ring[i] else if i == 1 then ring[k] else ring[i - 1])
    {
      FrontAt(ring, k, i);
    }
  }

  /** brelse's six pointer writes, in order, as a function of the links. */
  function Relink(prev: seq<nat>, next: seq<nat>, b: nat): (r: (seq<nat>, seq<nat>))
    requires |prev| == |next| == NBUF + 1 && b < NBUF
    requires forall i | 0 <= i <= NBUF :: prev[i] <= NBUF && next[i] <= NBUF
    ensures |r.0| == |r.1| == NBUF + 1
    ensures forall i | 0 <= i <= NBUF :: r.0[i] <= NBUF && r.1[i] <= NBUF
  {
    var prev1 := prev[next[b] := prev[b]];
    var next1 := next[prev[b] := next[b]];
    var next2 := next1[b := next1[HEAD]];
    var prev2 := prev1[b := HEAD];
    (prev2[next2[HEAD] := b], next2[HEAD := b])
  }

  /** One link of the relinked list. */
  lemma RelinkAt(prev: seq<nat>, next: seq<nat>, ring: seq<nat>, k: nat, i: nat)
    requires Linked(prev, next, ring) && 1 <= k <= NBUF && i <= NBUF && ring[k] < NBUF
    ensures var (pv, nx) := Relink(prev, next, ring[k]);
            var r := Front(ring, k);
            var j := if i < NBUF then i + 1 else 0;
            nx[r[i]] == r[j] && pv[r[j]] == r[i]
  {
    hide Front;
    var b := ring[k];
    var j := if i < NBUF then i + 1 else 0;
    FrontAt(ring, k, i);
    FrontAt(ring, k, j);
    assert prev[b] == ring[k - 1] && next[b] == (if k < NBUF then ring[k + 1] else HEAD);
    assert next[HEAD] == ring[1];
    if k < i {
      if i < NBUF { assert next[ring[i]] == ring[i + 1]; }
    } else if 2 <= i < k {
      assert next[ring[i - 1]] == ring[i] && prev[ring[i]] == ring[i - 1];
    }
  }

  lemma RelinkLinked(prev: seq<nat>, next: seq<nat>, ring: seq<nat>, k: nat)
    requires Linked(prev, next, ring) && 1 <= k <= NBUF && ring[k] < NBUF
    ensures var (pv, nx) := Relink(prev, next, ring[k]); Linked(pv, nx, Front(ring, k))
  {
    FrontCycle(ring, k);
    var (pv, nx) := Relink(prev, next, ring[k]);
    var r := Front(ring, k);
    forall i, j | 0 <= i < NBUF && j == i + 1 ensures nx[r[i]] == r[j] && pv[r[j]] == r[i] {
      RelinkAt(prev, next, ring, k, i);
    }
    RelinkAt(prev, next, ring, k, NBUF);
  }

  /* -------- references and agreement with the disk -------- */

  ghost predicate Holds(b: Buf, blockno: nat) {
    b.dev == ROOTDEV && b.blockno == blockno
  }

  /** `index` says which buffer holds which block: none is cached twice. */
  ghost predicate Indexed(buf: seq<Buf>, index: map<nat, nat>) {
    && |buf| == NBUF
    && (forall b | b in index :: index[b] < NBUF && Holds(buf[index[b]], b))
    && (forall i | 0 <= i < NBUF && buf[i].dev == ROOTDEV :: buf[i].blockno in index && index[buf[i].blockno] == i)
  }

  /** Who refers to which blocks: pins, processes between bget and the sleep-lock or
      between releasing it and giving up the reference, and holders of the sleep-lock. */
  datatype Uses = Uses(pinned: multiset<nat>, waiting: multiset<nat>, held: set<nat>) {
    ghost function Count(b: nat): nat {
      pinned[b] + waiting[b] + if b in held then 1 else 0
    }
  }

  /** A buffer's reference count is the number of uses of its block, and every
      block in use has a buffer. */
  ghost predicate Refs(buf: seq<Buf>, index: map<nat, nat>, u: Uses) {
    && |buf| == NBUF
    && (forall i | 0 <= i < NBUF && buf[i].dev == ROOTDEV ::
          buf[i].refcnt == u.Count(buf[i].blockno) && (buf[i].locked <==> buf[i].blockno in u.held)
          && (buf[i].blockno in u.pinned ==> buf[i].valid))
    && (forall i | 0 <= i < NBUF && buf[i].dev != ROOTDEV ::
          buf[i].dev == 0 && !buf[i].valid && !buf[i].locked && buf[i].refcnt == 0)
    && (forall b: nat | u.Count(b) > 0 :: b in index)
  }

  /** Cache and disk together are the block map `view`: a valid buffer holds the
      block's latest contents, and where the disk is behind the block has a valid
      and referenced buffer. */
  ghost predicate Agree(buf: seq<Buf>, index: map<nat, nat>, disk: seq<Block>, view: seq<Block>) {
    && |view| == |disk|
    && (forall b | b in index :: b < |disk| && index[b] < |buf|)
    && (forall b | b in index && buf[index[b]].valid :: buf[index[b]].data == view[b])
    && (forall b: nat | b < |disk| && view[b] != disk[b] ::
          b in index && buf[index[b]].valid && buf[index[b]].refcnt > 0)
  }

  /** The state that the data side of the cache keeps. */
  ghost predicate Coherent(buf: seq<Buf>, index: map<nat, nat>, u: Uses, disk: seq<Block>, view: seq<Block>) {
    Indexed(buf, index) && Refs(buf, index, u) && Agree(buf, index, disk, view)
  }

  /** No device's block has two buffers; device 0 is that of a buffer not used yet. */
  lemma AtMostOnce(buf: seq<Buf>, index: map<nat, nat>, u: Uses, disk: seq<Block>, view: seq<Block>, i: nat, j: nat)
    requires Coherent(buf, index, u, disk, view) && i < j < NBUF && buf[i].dev == buf[j].dev != 0
    ensures buf[i].blockno != buf[j].blockno
  {
  }

  /** What coherence says of the state's sizes and of each buffer. */
  lemma Sizes(buf: seq<Buf>, index: map<nat, nat>, u: Uses, disk: seq<Block>, view: seq<Block>)
    requires Coherent(buf, index, u, disk, view)
    ensures |buf| == NBUF && |view| == |disk|
    ensures forall i | 0 <= i < NBUF :: buf[i].refcnt == 0 ==> !buf[i].locked
    ensures forall i | 0 <= i < NBUF :: buf[i].dev == ROOTDEV ==>
              buf[i].blockno < |disk| && (buf[i].locked <==> buf[i].blockno in u.held) &&
              buf[i].refcnt == u.Count(buf[i].blockno)
  {
  }

  /** What bget leaves in the buffer it returns. */
  function Got(b: Buf, blockno: nat): Buf {
    if b.dev == ROOTDEV && b.blockno == blockno then b.(refcnt := b.refcnt + 1)
    else Buf(false, ROOTDEV, blockno, b.locked, 1, b.data)
  }

  /** What bread leaves in the buffer it returns. */
  function Fetched(b: Buf, blockno: nat, data: Block): Buf {
    Got(b, blockno).(locked := true, valid := true, data := data)
  }

  /** bget's panic: the block is not cached and every buffer is referenced. */
  ghost predicate Exhausted(buf: seq<Buf>, index: map<nat, nat>, blockno: nat) {
    blockno !in index && forall i | 0 <= i < |buf| :: buf[i].refcnt > 0
  }

  /** Some buffer is not referenced. */
  ghost predicate Room(buf: seq<Buf>) {
    exists i :: 0 <= i < |buf| && buf[i].refcnt == 0
  }

  /** A held block is cached, so getting it does not panic. */
  lemma HeldCached(buf: seq<Buf>, index: map<nat, nat>, u: Uses, disk: seq<Block>, view: seq<Block>, blockno: nat)
    requires Coherent(buf, index, u, disk, view) && blockno in u.held
    ensures !Exhausted(buf, index, blockno)
  {
    assert u.Count(blockno) > 0;
  }

  /** For a block that nobody uses, bget panics exactly if every buffer is in use. */
  lemma RoomIff(buf: seq<Buf>, index: map<nat, nat>, u: Uses, disk: seq<Block>, view: seq<Block>, blockno: nat)
    requires Coherent(buf, index, u, disk, view) && u.Count(blockno) == 0
    ensures Exhausted(buf, index, blockno) <==> !Room(buf)
  {
    assert blockno in index ==> buf[index[blockno]].refcnt == 0;
  }

  /** With no block in use every buffer is free. */
  lemma IdleRoom(buf: seq<Buf>, index: map<nat, nat>, u: Uses, disk: seq<Block>, view: seq<Block>)
    requires Coherent(buf, index, u, disk, view) && forall b: nat :: u.Count(b) == 0
    ensures forall i | 0 <= i < NBUF :: buf[i].refcnt == 0
  {
  }

  /** NBUF different blocks in use leave no buffer. */
  lemma NoRoom(buf: seq<Buf>, index: map<nat, nat>, u: Uses, disk: seq<Block>, view: seq<Block>, blocks: seq<nat>)
    requires Coherent(buf, index, u, disk, view) && NoDup(blocks) && |blocks| == NBUF
    requires forall t | 0 <= t < NBUF :: u.Count(blocks[t]) > 0
    ensures !Room(buf)
  {
    var at := seq(NBUF, t requires 0 <= t < NBUF => index[blocks[t]]);
    forall i | 0 <= i < NBUF
      ensures buf[i].refcnt > 0
    {
      Onto(at, NBUF, i);
      var t :| 0 <= t < NBUF && at[t] == i;
    }
  }

  /** Fewer than NBUF blocks in use leave one. */
  lemma SomeRoom(buf: seq<Buf>, index: map<nat, nat>, u: Uses, disk: seq<Block>, view: seq<Block>, blocks: set<nat>)
    requires Coherent(buf, index, u, disk, view) && |blocks| < NBUF && forall b: nat | u.Count(b) > 0 :: b in blocks
    ensures Room(buf)
  {
    if !Room(buf) {
      var used := seq(NBUF, i requires 0 <= i < NBUF => buf[i].blockno);
      forall i | 0 <= i < NBUF
        ensures buf[i].dev == ROOTDEV && u.Count(used[i]) > 0
      {
        assert buf[i].refcnt > 0;
      }
      NoDupIn(used, blocks);
    }
  }

  /** bget's choice: the block's own buffer, or with the block not cached the
      least recently released of the unreferenced buffers. */
  ghost predicate Chosen(buf: seq<Buf>, index: map<nat, nat>, released: seq<nat>, b: nat, blockno: nat) {
    && b < |buf| == |released|
    && (Holds(buf[b], blockno) ||
        (blockno !in index && buf[b].refcnt == 0 &&
         forall j | 0 <= j < |buf| && buf[j].refcnt == 0 :: released[b] <= released[j]))
  }

  /** The index once buffer i holds blockno. */
  ghost function Reindex(buf: seq<Buf>, index: map<nat, nat>, i: nat, blockno: nat): map<nat, nat>
    requires i < |buf|
  {
    (if buf[i].dev == ROOTDEV then index - {buf[i].blockno} else index)[blockno := i]
  }

  lemma GotIndexed(buf: seq<Buf>, index: map<nat, nat>, i: nat, blockno: nat)
    requires Indexed(buf, index) && i < NBUF
    requires Holds(buf[i], blockno) || blockno !in index
    ensures Indexed(buf[i := Got(buf[i], blockno)], Reindex(buf, index, i, blockno))
  {
    var index' := Reindex(buf, index, i, blockno);
    forall b | b in index' && b != blockno ensures b in index && index'[b] == index[b] != i {}
  }

  lemma GotRefs(buf: seq<Buf>, index: map<nat, nat>, u: Uses, i: nat, blockno: nat)
    requires Indexed(buf, index) && Refs(buf, index, u) && i < NBUF
    requires Holds(buf[i], blockno) || (buf[i].refcnt == 0 && blockno !in index)
    ensures Refs(buf[i := Got(buf[i], blockno)], Reindex(buf, index, i, blockno),
                 u.(waiting := u.waiting + multiset{blockno}))
  {
    var u' := u.(waiting := u.waiting + multiset{blockno});
    assert forall b: nat :: u'.Count(b) == u.Count(b) + if b == blockno then 1 else 0;
  }

  lemma GotAgree(buf: seq<Buf>, index: map<nat, nat>, disk: seq<Block>, view: seq<Block>, i: nat, blockno: nat)
    requires Indexed(buf, index) && Agree(buf, index, disk, view) && i < NBUF && blockno < |disk|
    requires Holds(buf[i], blockno) || (buf[i].refcnt == 0 && blockno !in index)
    ensures Agree(buf[i := Got(buf[i], blockno)], Reindex(buf, index, i, blockno), disk, view)
  {
    var index' := Reindex(buf, index, i, blockno);
    forall b | b in index' && b != blockno ensures b in index && index'[b] == index[b] != i {}
  }

  /** Getting the buffer that holds a block, or recycling an unreferenced one for
      a block nobody holds, loses nothing: what the latter held is also on disk. */
  lemma GotKeeps(buf: seq<Buf>, index: map<nat, nat>, u: Uses, disk: seq<Block>, view: seq<Block>, i: nat, blockno: nat)
    requires Coherent(buf, index, u, disk, view) && i < NBUF && blockno < |disk|
    requires Holds(buf[i], blockno) || (buf[i].refcnt == 0 && blockno !in index)
    ensures Coherent(buf[i := Got(buf[i], blockno)], Reindex(buf, index, i, blockno),
                     u.(waiting := u.waiting + multiset{blockno}), disk, view)
  {
    GotIndexed(buf, index, i, blockno);
    GotRefs(buf, index, u, i, blockno);
    GotAgree(buf, index, disk, view, i, blockno);
  }

  /** The uses change only for block c. */
  ghost predicate OnlyAt(u: Uses, u': Uses, c: nat) {
    forall b: nat | b != c ::
      u'.Count(b) == u.Count(b) && (b in u'.held <==> b in u.held) && (b in u'.pinned <==> b in u.pinned)
  }

  lemma UpdateRefs(buf: seq<Buf>, index: map<nat, nat>, u: Uses, i: nat, b': Buf, u': Uses)
    requires Indexed(buf, index) && Refs(buf, index, u) && i < NBUF
    requires buf[i].dev == b'.dev == ROOTDEV && buf[i].blockno == b'.blockno && OnlyAt(u, u', b'.blockno)
    requires b'.refcnt == u'.Count(b'.blockno) && (b'.locked <==> b'.blockno in u'.held)
    requires b'.blockno in u'.pinned ==> b'.valid
    ensures Indexed(buf[i := b'], index) && Refs(buf[i := b'], index, u')
  {
  }

  lemma UpdateAgree(buf: seq<Buf>, index: map<nat, nat>, disk: seq<Block>, view: seq<Block>,
                    i: nat, b': Buf, disk': seq<Block>, view': seq<Block>)
    requires Indexed(buf, index) && Agree(buf, index, disk, view) && i < NBUF
    requires buf[i].dev == b'.dev == ROOTDEV && buf[i].blockno == b'.blockno
    requires |disk'| == |disk| == |view'|
    requires forall b | 0 <= b < |disk| && b != b'.blockno :: disk'[b] == disk[b] && view'[b] == view[b]
    requires b'.valid ==> b'.data == view'[b'.blockno]
    requires !b'.valid || b'.refcnt == 0 ==> view'[b'.blockno] == disk'[b'.blockno]
    ensures Agree(buf[i := b'], index, disk', view')
  {
    assert forall b | b in index && b != b'.blockno :: index[b] != i;
  }

  /** Replacing one buffer by one for the same block, still in use if the disk is
      behind, and moving `view` along, keeps the state coherent. */
  lemma UpdateKeeps(buf: seq<Buf>, index: map<nat, nat>, u: Uses, disk: seq<Block>, view: seq<Block>,
                    i: nat, b': Buf, u': Uses, disk': seq<Block>, view': seq<Block>)
    requires Coherent(buf, index, u, disk, view) && i < NBUF
    requires buf[i].dev == b'.dev == ROOTDEV && buf[i].blockno == b'.blockno && OnlyAt(u, u', b'.blockno)
    requires b'.refcnt == u'.Count(b'.blockno) && (b'.locked <==> b'.blockno in u'.held)
    requires b'.blockno in u'.pinned ==> b'.valid
    requires |disk'| == |disk| == |view'|
    requires forall b | 0 <= b < |disk| && b != b'.blockno :: disk'[b] == disk[b] && view'[b] == view[b]
    requires b'.valid ==> b'.data == view'[b'.blockno]
    requires !b'.valid || b'.refcnt == 0 ==> view'[b'.blockno] == disk'[b'.blockno]
    ensures Coherent(buf[i := b'], index, u', disk', view')
  {
    UpdateRefs(buf, index, u, i, b', u');
    UpdateAgree(buf, index, disk, view, i, b', disk', view');
  }

  /** What coherence says of a buffer of the root device. */
  lemma BufFacts(buf: seq<Buf>, index: map<nat, nat>, u: Uses, disk: seq<Block>, view: seq<Block>, i: nat)
    requires Coherent(buf, index, u, disk, view) && i < NBUF && buf[i].dev == ROOTDEV
    ensures |buf| == NBUF && buf[i].blockno < |disk| == |view|
    ensures buf[i].refcnt == u.Count(buf[i].blockno) && (buf[i].locked <==> buf[i].blockno in u.held)
    ensures buf[i].blockno in u.pinned ==> buf[i].valid
    ensures if buf[i].valid then buf[i].data == view[buf[i].blockno] else OnDisk(disk, view, buf[i].blockno)
    ensures buf[i].refcnt == 0 ==> OnDisk(disk, view, buf[i].blockno)
  {
  }

  /** How many uses of a block there are when a pin comes or goes, */
  lemma PinMoves(u: Uses, c: nat)
    ensures OnlyAt(u, u, c)
    ensures var v := u.(pinned := u.pinned + multiset{c}); OnlyAt(u, v, c) && v.Count(c) == u.Count(c) + 1
    ensures c in u.pinned ==>
              var v := u.(pinned := u.pinned - multiset{c}); OnlyAt(u, v, c) && v.Count(c) == u.Count(c) - 1
    ensures c in u.pinned && c in u.held ==> u.Count(c) >= 2
  {
  }

  /** or when a process gets or leaves the lock or gives up its reference. */
  lemma LockMoves(u: Uses, c: nat)
    ensures c in u.waiting ==>
              var v := u.(waiting := u.waiting - multiset{c}); OnlyAt(u, v, c) && v.Count(c) == u.Count(c) - 1
    ensures c in u.waiting && c !in u.held ==>
              var v := u.(waiting := u.waiting - multiset{c}, held := u.held + {c});
              OnlyAt(u, v, c) && v.Count(c) == u.Count(c)
    ensures c in u.held ==>
              var v := u.(waiting := u.waiting + multiset{c}, held := u.held - {c});
              OnlyAt(u, v, c) && v.Count(c) == u.Count(c)
  {
  }

  ghost predicate OnDisk(disk: seq<Block>, view: seq<Block>, blockno: nat) {
    blockno < |disk| == |view| && view[blockno] == disk[blockno]
  }

  /** Giving up the last reference to a block that the disk is behind on loses it. */
  lemma Lost(buf: seq<Buf>, index: map<nat, nat>, u: Uses, disk: seq<Block>, view: seq<Block>, i: nat, b': Buf,
             u': Uses)
    requires Coherent(buf, index, u, disk, view) && i < NBUF
    requires buf[i].dev == b'.dev == ROOTDEV && buf[i].blockno == b'.blockno && b'.refcnt == 0
    requires !OnDisk(disk, view, b'.blockno)
    ensures !Coherent(buf[i := b'], index, u', disk, view)
  {
    assert index[b'.blockno] == i;
  }

  /* -------- the cache -------- */

  class Cache {
    var buf: seq<Buf>
    var prev: seq<nat>
    var next: seq<nat>
    var disk: seq<Block>
    ghost var ring: seq<nat>         // the head, then most recently released first
    ghost var released: seq<nat>     // when each buffer was last released
    ghost var clock: nat
    ghost var index: map<nat, nat>   // the buffer that holds each cached block
    ghost var uses: Uses
    ghost var view: seq<Block>       // the block map that cache plus disk implement
    ghost var trace: seq<seq<Block>> // the disk image before and after every write

    ghost predicate Valid()
      reads this
    {
      && Linked(prev, next, ring)
      && Sorted(ring, released, clock)
      && Coherent(buf, index, uses, disk, view)
      && |trace| > 0 && trace[|trace| - 1] == disk
    }

    /** Buffer b is locked by a process that has read it. */
    ghost predicate Locked(b: nat)
      reads this
    {
      b < |buf| && buf[b].dev == ROOTDEV && buf[b].locked && buf[b].valid
    }

    lemma LockedSizes(b: nat)
      requires Valid() && Locked(b)
      ensures |buf| == NBUF && buf[b].blockno < |disk| == |view| && buf[b].blockno in uses.held
      ensures buf[b].refcnt == uses.Count(buf[b].blockno) && buf[b].data == view[buf[b].blockno]
    {
    }

    lemma TraceEnds()
      requires Valid()
      ensures |trace| > 0 && trace[|trace| - 1] == disk
    {
    }

    /** With no buffer in use the disk is up to date. */
    lemma IdleClean()
      requires Valid() && forall b: nat :: uses.Count(b) == 0
      ensures view == disk
    {
      forall b | 0 <= b < |disk| ensures view[b] == disk[b] {
        assert uses.Count(b) == 0;
      }
    }

    /** binit: chain the buffers one by one behind the head. */
    constructor (image: seq<Block>)
      ensures Valid()
      ensures disk == view == image && trace == [image]
      ensures uses == Uses(multiset{}, multiset{}, {})
    {
      var pv, nx := Chain();
      prev, next, disk := pv, nx, image;
      buf := seq(NBUF, _ => Buf(false, 0, 0, false, 0, Block(seq(WORDS, _ => 0))));
      ring, released, clock := seq(NBUF + 1, i requires 0 <= i <= NBUF => NBUF - i), seq(NBUF, i => i), NBUF;
      index, uses := map[], Uses(multiset{}, multiset{}, {});
      view, trace := image, [image];
    }

    /** bget's first loop: the buffer that holds the block, if there is one. */
    method Find(dev: nat, blockno: nat) returns (r: Option<nat>)
      requires Valid()
      ensures r.Some? ==> r.value < NBUF && buf[r.value].dev == dev && buf[r.value].blockno == blockno
      ensures r.None? ==> forall i | 0 <= i < NBUF :: buf[i].dev != dev || buf[i].blockno != blockno
      ensures r.None? && dev == ROOTDEV ==> blockno !in index
    {
      var b := next[HEAD];
      ghost var k := 1;
      while b != HEAD
        invariant 1 <= k <= NBUF + 1 && b == (if k <= NBUF then ring[k] else HEAD)
        invariant forall j | 1 <= j < k :: buf[ring[j]].dev != dev || buf[ring[j]].blockno != blockno
        decreases NBUF + 1 - k
      {
        if buf[b].dev == dev && buf[b].blockno == blockno {
          return Some(b);
        }
        b, k := next[b], k + 1;
      }
      forall i: nat | i < NBUF ensures buf[i].dev != dev || buf[i].blockno != blockno { var p := Reaches(ring, i); }
      return None;
    }

    /** bget's second loop: the least recently released unreferenced buffer. */
    method LeastRecent() returns (r: Option<nat>)
      requires Valid()
      ensures r.None? <==> forall i | 0 <= i < NBUF :: buf[i].refcnt > 0
      ensures r.Some? ==> r.value < NBUF && buf[r.value].refcnt == 0
      ensures r.Some? ==> forall j | 0 <= j < NBUF && buf[j].refcnt == 0 :: released[r.value] <= released[j]
    {
      var b := prev[HEAD];
      ghost var k := NBUF;
      while b != HEAD
        invariant 0 <= k <= NBUF && b == ring[k]
        invariant forall j | k < j <= NBUF :: buf[ring[j]].refcnt > 0
        decreases k
      {
        if buf[b].refcnt == 0 {
          forall j: nat | j < NBUF && buf[j].refcnt == 0 ensures released[b] <= released[j] {
            var p := Reaches(ring, j);
          }
          return Some(b);
        }
        b, k := prev[b], k - 1;
      }
      forall i: nat | i < NBUF ensures buf[i].refcnt > 0 { var p := Reaches(ring, i); }
      return None;
    }

    /** bget up to the sleep-lock: find the block's buffer, or recycle the least
        recently released one that nobody references; None is the panic. */
    method Bget(dev: nat, blockno: nat) returns (r: Option<nat>)
      requires Valid() && dev == ROOTDEV && blockno < |disk|
      modifies this`buf, this`index, this`uses
      ensures Valid()
      ensures r.None? <==> Exhausted(old(buf), old(index), blockno)
      ensures r.None? ==> buf == old(buf) && uses == old(uses) && index == old(index)
      ensures r.Some? ==> Chosen(old(buf), old(index), released, r.value, blockno)
      ensures r.Some? ==> buf == old(buf)[r.value := Got(old(buf)[r.value], blockno)]
      ensures r.Some? ==> uses == old(uses).(waiting := old(uses).waiting + multiset{blockno})
    {
      r := Find(dev, blockno);
      if r.None? {
        r := LeastRecent();
      }
      if r.Some? {
        Take(r.value, dev, blockno);
      }
    }

    /** bget's two updates: one more reference, or a recycled buffer. */
    method Take(b: nat, dev: nat, blockno: nat)
      requires Valid() && dev == ROOTDEV && blockno < |disk| && Chosen(buf, index, released, b, blockno)
      modifies this`buf, this`index, this`uses
      ensures Valid()
      ensures buf == old(buf)[b := Got(old(buf)[b], blockno)]
      ensures uses == old(uses).(waiting := old(uses).waiting + multiset{blockno})
    {
      hide Linked, Sorted, Coherent;
      Sizes(buf, index, uses, disk, view);
      GotKeeps(buf, index, uses, disk, view, b, blockno);
      var b' := if buf[b].dev == dev && buf[b].blockno == blockno then buf[b].(refcnt := buf[b].refcnt + 1)
                else buf[b].(dev := dev, blockno := blockno, valid := false, refcnt := 1);
      assert b' == Got(buf[b], blockno);
      index := Reindex(buf, index, b, blockno);
      buf := buf[b := b'];
      uses := uses.(waiting := uses.waiting + multiset{blockno});
    }

    /** acquiresleep, once the lock is free: a waiter becomes the holder. */
    method AcquireSleep(b: nat)
      requires Valid() && b < NBUF && buf[b].dev == ROOTDEV && !buf[b].locked && buf[b].blockno in uses.waiting
      modifies this`buf, this`uses
      ensures Valid()
      ensures buf == old(buf)[b := old(buf)[b].(locked := true)]
      ensures uses == old(uses).(waiting := old(uses).waiting - multiset{buf[b].blockno},
                                 held := old(uses).held + {buf[b].blockno})
    {
      hide Linked, Sorted, Coherent, Uses.Count, OnlyAt;
      Sizes(buf, index, uses, disk, view);
      BufFacts(buf, index, uses, disk, view, b);
      LockMoves(uses, buf[b].blockno);
      var b' := buf[b].(locked := true);
      ghost var u' := uses.(waiting := uses.waiting - multiset{b'.blockno}, held := uses.held + {b'.blockno});
      UpdateKeeps(buf, index, uses, disk, view, b, b', u', disk, view);
      buf := buf[b := b'];
      uses := u';
    }

    /** The transfer in bread, made with the sleep-lock held. */
    method Fill(b: nat)
      requires Valid() && b < NBUF && buf[b].locked
      modifies this`buf
      ensures Valid()
      ensures buf == old(buf)[b := old(buf)[b].(valid := true, data := view[old(buf)[b].blockno])]
    {
      if !buf[b].valid {
        var b' := buf[b].(valid := true, data := disk[buf[b].blockno]);
        UpdateKeeps(buf, index, uses, disk, view, b, b', uses, disk, view);
        buf := buf[b := b'];
      }
    }

    /** The end of bread, once the sleep-lock is free. */
    method Wake(b: nat)
      requires Valid() && b < NBUF && buf[b].dev == ROOTDEV && !buf[b].locked && buf[b].blockno in uses.waiting
      requires buf[b].blockno < |view|
      modifies this`buf, this`uses
      ensures Valid()
      ensures buf == old(buf)[b := old(buf)[b].(locked := true, valid := true, data := view[old(buf)[b].blockno])]
      ensures uses == old(uses).(waiting := old(uses).waiting - multiset{buf[b].blockno},
                                 held := old(uses).held + {buf[b].blockno})
    {
      hide Linked, Sorted, Coherent;
      Sizes(buf, index, uses, disk, view);
      ghost var b0 := buf[b];
      AcquireSleep(b);
      Overwrite(old(buf), b, b0.(locked := true), b0.(locked := true, valid := true, data := view[b0.blockno]));
      Fill(b);
    }

    /** bread: the buffer comes back locked and holding the block's latest
        contents; None is the panic.  With the buffer locked by another process
        the caller sleeps, to go on with `Wake`. */
    method Bread(dev: nat, blockno: nat) returns (r: Option<nat>, asleep: bool)
      requires Valid() && dev == ROOTDEV && blockno < |disk|
      modifies this`buf, this`index, this`uses
      ensures Valid()
      ensures r.None? <==> Exhausted(old(buf), old(index), blockno)
      ensures r.None? ==> buf == old(buf) && uses == old(uses) && index == old(index)
      ensures asleep <==> blockno in old(uses).held
      ensures r.Some? ==> Chosen(old(buf), old(index), released, r.value, blockno)
      ensures r.Some? ==>
                buf == old(buf)[r.value := if asleep then Got(old(buf)[r.value], blockno)
                                           else Fetched(old(buf)[r.value], blockno, view[blockno])]
      ensures r.Some? ==>
                uses == if asleep then old(uses).(waiting := old(uses).waiting + multiset{blockno})
                        else old(uses).(held := old(uses).held + {blockno})
    {
      hide Linked, Sorted, Coherent;
      if blockno in uses.held { HeldCached(buf, index, uses, disk, view, blockno); }
      r := Bget(dev, blockno);
      if r.None? { return r, false; }
      Sizes(old(buf), old(index), old(uses), disk, view);
      Sizes(buf, index, uses, disk, view);
      asleep := buf[r.value].locked;
      if !asleep {
        ghost var b0 := old(buf)[r.value];
        Wake(r.value);
        Overwrite(old(buf), r.value, Got(b0, blockno), Fetched(b0, blockno, view[blockno]));
        assert uses.waiting == old(uses).waiting;
      }
    }

    /** The holder changes the buffer's data, and with it the block map. */
    method Store(b: nat, data: Block)
      requires Valid() && Locked(b)
      modifies this`buf, this`view
      ensures Valid()
      ensures buf == old(buf)[b := old(buf)[b].(data := data)]
      ensures view == old(view)[old(buf)[b].blockno := data]
    {
      hide Linked, Sorted, Coherent, Uses.Count, OnlyAt;
      Sizes(buf, index, uses, disk, view);
      BufFacts(buf, index, uses, disk, view, b);
      PinMoves(uses, buf[b].blockno);
      var b' := buf[b].(data := data);
      ghost var view' := view[b'.blockno := data];
      UpdateKeeps(buf, index, uses, disk, view, b, b', uses, disk, view');
      buf := buf[b := b'];
      view := view';
    }

    /** bwrite: the one atomic write of a block to disk. */
    method Bwrite(b: nat)
      requires Valid() && Locked(b)
      modifies this`disk, this`trace
      ensures Valid()
      ensures disk == old(disk)[buf[b].blockno := buf[b].data]
      ensures trace == old(trace) + [disk]
    {
      hide Linked, Sorted, Coherent, Uses.Count, OnlyAt;
      Sizes(buf, index, uses, disk, view);
      BufFacts(buf, index, uses, disk, view, b);
      PinMoves(uses, buf[b].blockno);
      ghost var disk' := disk[buf[b].blockno := buf[b].data];
      UpdateKeeps(buf, index, uses, disk, view, b, buf[b], uses, disk', view);
      disk := disk[buf[b].blockno := buf[b].data];
      trace := trace + [disk];
      assert buf == buf[b := buf[b]];
    }

    /** brelse's releasesleep: the lock is free, the reference still counts. */
    method ReleaseSleep(b: nat)
      requires Valid() && Locked(b)
      modifies this`buf, this`uses
      ensures Valid()
      ensures buf == old(buf)[b := old(buf)[b].(locked := false)]
      ensures uses == old(uses).(waiting := old(uses).waiting + multiset{buf[b].blockno},
                                 held := old(uses).held - {buf[b].blockno})
    {
      hide Linked, Sorted, Coherent, Uses.Count, OnlyAt;
      Sizes(buf, index, uses, disk, view);
      BufFacts(buf, index, uses, disk, view, b);
      LockMoves(uses, buf[b].blockno);
      var b' := buf[b].(locked := false);
      ghost var u' := uses.(waiting := uses.waiting + multiset{b'.blockno}, held := uses.held - {b'.blockno});
      UpdateKeeps(buf, index, uses, disk, view, b, b', u', disk, view);
      buf := buf[b := b'];
      uses := u';
    }

    /** The rest of brelse, under bcache.lock: one reference less; with the last one gone
        the buffer becomes the most recently released.  That keeps the block map exactly
        if other references remain or the block is on disk. */
    method Drop(b: nat)
      requires Valid() && b < |buf| && buf[b].dev == ROOTDEV && buf[b].blockno in uses.waiting
      modifies this`buf, this`uses, this`prev, this`next, this`ring, this`released, this`clock
      ensures Valid() <==> old(buf)[b].refcnt > 1 || OnDisk(disk, view, old(buf)[b].blockno)
      ensures Linked(prev, next, ring) && Sorted(ring, released, clock)
      ensures old(buf)[b].refcnt > 0
      ensures buf == old(buf)[b := old(buf)[b].(refcnt := old(buf)[b].refcnt - 1)]
      ensures uses == old(uses).(waiting := old(uses).waiting - multiset{buf[b].blockno})
      ensures buf[b].refcnt == 0 ==> next[HEAD] == b && forall j | 0 <= j < NBUF && j != b :: released[j] < released[b]
      ensures buf[b].refcnt > 0 ==> released == old(released) && ring == old(ring)
    {
      hide Linked, Sorted, Coherent, Uses.Count, OnlyAt;
      Sizes(buf, index, uses, disk, view);
      BufFacts(buf, index, uses, disk, view, b);
      LockMoves(uses, buf[b].blockno);
      var b' := buf[b].(refcnt := buf[b].refcnt - 1);
      ghost var u' := uses.(waiting := uses.waiting - multiset{b'.blockno});
      if b'.refcnt > 0 || OnDisk(disk, view, b'.blockno) {
        UpdateKeeps(buf, index, uses, disk, view, b, b', u', disk, view);
      } else {
        Lost(buf, index, uses, disk, view, b, b', u');
      }
      buf := buf[b := b'];
      uses := u';
      if buf[b].refcnt == 0 {
        MoveToFront(b);
      }
    }

    /** brelse, with no one in between. */
    method Brelse(b: nat)
      requires Valid() && Locked(b)
      modifies this`buf, this`uses, this`prev, this`next, this`ring, this`released, this`clock
      ensures Valid() <==> old(buf)[b].refcnt > 1 || OnDisk(disk, view, old(buf)[b].blockno)
      ensures Linked(prev, next, ring) && Sorted(ring, released, clock)
      ensures old(buf)[b].refcnt > 0
      ensures buf == old(buf)[b := old(buf)[b].(locked := false, refcnt := old(buf)[b].refcnt - 1)]
      ensures uses == old(uses).(held := old(uses).held - {buf[b].blockno})
      ensures buf[b].refcnt == 0 ==> next[HEAD] == b && forall j | 0 <= j < NBUF && j != b :: released[j] < released[b]
      ensures buf[b].refcnt > 0 ==> released == old(released) && ring == old(ring)
    {
      hide Linked, Sorted, Coherent;
      LockedSizes(b);
      ghost var b0 := buf[b];
      ReleaseSleep(b);
      Overwrite(old(buf), b, b0.(locked := false), b0.(locked := false, refcnt := b0.refcnt - 1));
      Drop(b);
      assert uses.waiting == old(uses).waiting;
    }

    method MoveToFront(b: nat)
      requires Linked(prev, next, ring) && Sorted(ring, released, clock) && b < NBUF
      modifies this`prev, this`next, this`ring, this`released, this`clock
      ensures Linked(prev, next, ring) && Sorted(ring, released, clock)
      ensures next[HEAD] == b && forall j | 0 <= j < NBUF && j != b :: released[j] < released[b]
    {
      hide Coherent;
      ghost var k := Reaches(ring, b);
      RelinkLinked(prev, next, ring, k);
      FrontSorted(ring, released, clock, k);
      prev := prev[next[b] := prev[b]];
      next := next[prev[b] := next[b]];
      next := next[b := next[HEAD]];
      prev := prev[b := HEAD];
      prev := prev[next[HEAD] := b];
      next := next[HEAD := b];
      ring := Front(ring, k);
      released := released[b := clock];
      clock := clock + 1;
    }

    /** bpin: keep the buffer in the cache after its holder lets go. */
    method Bpin(b: nat)
      requires Valid() && Locked(b)
      modifies this`buf, this`uses
      ensures Valid()
      ensures buf == old(buf)[b := old(buf)[b].(refcnt := old(buf)[b].refcnt + 1)]
      ensures uses == old(uses).(pinned := old(uses).pinned + multiset{buf[b].blockno})
    {
      hide Linked, Sorted, Coherent, Uses.Count, OnlyAt;
      Sizes(buf, index, uses, disk, view);
      BufFacts(buf, index, uses, disk, view, b);
      PinMoves(uses, buf[b].blockno);
      var b' := buf[b].(refcnt := buf[b].refcnt + 1);
      ghost var u' := uses.(pinned := uses.pinned + multiset{b'.blockno});
      UpdateKeeps(buf, index, uses, disk, view, b, b', u', disk, view);
      buf := buf[b := b'];
      uses := u';
    }

    /** bunpin, called with the buffer locked. */
    method Bunpin(b: nat)
      requires Valid() && Locked(b) && buf[b].blockno in uses.pinned
      modifies this`buf, this`uses
      ensures Valid()
      ensures buf == old(buf)[b := old(buf)[b].(refcnt := old(buf)[b].refcnt - 1)]
      ensures uses == old(uses).(pinned := old(uses).pinned - multiset{buf[b].blockno})
    {
      hide Linked, Sorted, Coherent, Uses.Count, OnlyAt;
      Sizes(buf, index, uses, disk, view);
      BufFacts(buf, index, uses, disk, view, b);
      PinMoves(uses, buf[b].blockno);
      var b' := buf[b].(refcnt := buf[b].refcnt - 1);
      ghost var u' := uses.(pinned := uses.pinned - multiset{b'.blockno});
      UpdateKeeps(buf, index, uses, disk, view, b, b', u', disk, view);
      buf := buf[b := b'];
      uses := u';
    }
  }

  /** binit's loop over prev and next. */
  method Chain() returns (pv: seq<nat>, nx: seq<nat>)
    ensures Linked(pv, nx, seq(NBUF + 1, i requires 0 <= i <= NBUF => NBUF - i))
  {
    nx := seq(NBUF + 1, _ => HEAD);
    pv := seq(NBUF + 1, _ => HEAD);
    var b: nat := 0;
    while b < NBUF
      invariant b <= NBUF && |nx| == |pv| == NBUF + 1
      invariant forall i | 0 <= i <= NBUF :: nx[i] <= NBUF && pv[i] <= NBUF
      invariant nx[HEAD] == (if b == 0 then HEAD else b - 1)
      invariant pv[HEAD] == (if b == 0 then HEAD else 0)
      invariant forall k | 0 <= k < b :: nx[k] == (if k == 0 then HEAD else k - 1)
      invariant forall k | 0 <= k < b :: pv[k] == (if k == b - 1 then HEAD else k + 1)
    {
      nx := nx[b := nx[HEAD]];
      pv := pv[b := HEAD];
      pv := pv[nx[HEAD] := b];
      nx := nx[HEAD := b];
      b := b + 1;
    }
  }
}
