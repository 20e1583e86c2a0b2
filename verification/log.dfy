/** The write-ahead log (kernel/log.c) over the buffer cache. */
module WriteAheadLog {
  import opened Common
  import opened Seqs
  import opened BufferCache
  import opened CrashLog

  /** The two brelse calls that end a round, of blocks that are on disk or pinned. */
  method ReleaseBoth(cache: Cache, a: nat, b: nat)
    requires cache.Valid() && cache.Locked(a) && cache.Locked(b) && a != b
    requires cache.buf[a].blockno < |cache.disk| == |cache.view| && cache.buf[b].blockno < |cache.disk|
    requires cache.buf[a].refcnt == 1 ==> cache.view[cache.buf[a].blockno] == cache.disk[cache.buf[a].blockno]
    requires cache.view[cache.buf[b].blockno] == cache.disk[cache.buf[b].blockno]
    modifies cache
    ensures cache.Valid()
    ensures cache.view == old(cache.view) && cache.disk == old(cache.disk) && cache.trace == old(cache.trace)
    ensures cache.uses == old(cache.uses).(held := old(cache.uses).held -
                                                   {old(cache.buf)[a].blockno} - {old(cache.buf)[b].blockno})
    ensures old(cache.buf)[a].refcnt == 1 || old(cache.buf)[b].refcnt == 1 ==> Room(cache.buf)
  {
    hide Linked, Sorted, Coherent, Uses.Count, Room;
    cache.Brelse(a);
    Sizes(cache.buf, cache.index, cache.uses, cache.disk, cache.view);
    cache.Brelse(b);
    if old(cache.buf)[a].refcnt == 1 {
      FreeBuf(cache.buf, a);
    }
    if old(cache.buf)[b].refcnt == 1 {
      FreeBuf(cache.buf, b);
    }
  }

  /** The memmove of a round, and the bwrite after it. */
  method CopyOut(cache: Cache, from: nat, to: nat)
    requires cache.Valid() && cache.Locked(from) && cache.Locked(to)
    modifies cache`buf, cache`view, cache`disk, cache`trace
    ensures cache.Valid()
    ensures cache.buf == old(cache.buf)[to := old(cache.buf)[to].(data := old(cache.buf)[from].data)]
    ensures old(cache.buf)[to].blockno < |old(cache.disk)| == |old(cache.view)|
    ensures cache.view == old(cache.view)[old(cache.buf)[to].blockno := old(cache.buf)[from].data]
    ensures cache.disk == old(cache.disk)[old(cache.buf)[to].blockno := old(cache.buf)[from].data]
    ensures cache.trace == old(cache.trace) + [cache.disk]
  {
    hide Linked, Sorted, Coherent;
    cache.LockedSizes(to);
    cache.Store(to, cache.buf[from].data);
    cache.Bwrite(to);
  }

  /** One round of write_log: copy a cached block to its slot. */
  method WriteSlot(cache: Cache, slot: nat, home: nat) returns (ok: bool)
    requires cache.Valid() && slot < |cache.disk| && home < |cache.disk| && slot != home
    requires cache.uses.Count(slot) == 0 && home !in cache.uses.held && home in cache.uses.pinned
    modifies cache
    ensures cache.Valid() && (ok <==> Room(old(cache.buf)))
    ensures ok ==>
              && Room(cache.buf)
              && cache.view == old(cache.view)[slot := old(cache.view)[home]]
              && cache.disk == old(cache.disk)[slot := old(cache.view)[home]]
              && cache.trace == old(cache.trace) + [cache.disk]
              && cache.uses == old(cache.uses)
    ensures !ok ==> unchanged(cache)
  {
    hide Cache.Valid, Uses.Count, Room;
    NotUsed(cache.uses, slot);
    var both := TakeBoth(cache, slot, home, false);
    if both.None? { return false; }
    var (to, from) := both.value;
    CopyOut(cache, from, to);
    ReleaseBoth(cache, from, to);
    assert cache.uses.held == old(cache.uses).held;
    return true;
  }

  /** The buffers of a slot of the log and of the block that it is for. */
  method TakeBoth(cache: Cache, slot: nat, home: nat, recovering: bool) returns (r: Option<(nat, nat)>)
    requires cache.Valid() && slot < |cache.disk| && home < |cache.disk| && slot != home
    requires cache.uses.Count(slot) == 0 && home !in cache.uses.held
    requires if recovering then forall b: nat :: cache.uses.Count(b) == 0 else home in cache.uses.pinned
    modifies cache`buf, cache`index, cache`uses
    ensures cache.Valid() && (r.Some? <==> Room(old(cache.buf)))
    ensures r.None? ==> unchanged(cache)
    ensures r.Some? ==>
              var (a, b) := r.value;
              && a != b && cache.Locked(a) && cache.Locked(b) && |cache.view| == |cache.disk|
              && cache.buf[a].blockno == slot && cache.buf[a].data == cache.view[slot] && cache.buf[a].refcnt == 1
              && cache.buf[b].blockno == home && cache.buf[b].data == cache.view[home]
              && (!recovering ==> cache.buf[b].refcnt > 1)
              && cache.uses == old(cache.uses).(held := old(cache.uses).held + {slot} + {home})
  {
    hide Linked, Sorted, Coherent, Uses.Count, Room, Exhausted;
    RoomIff(cache.buf, cache.index, cache.uses, cache.disk, cache.view, slot);
    NotUsed(cache.uses, slot);
    var a, _ := cache.Bread(ROOTDEV, slot);
    if a.None? { return None; }
    GotOnce(old(cache.buf), old(cache.index), old(cache.uses), cache.disk, cache.view, cache.released, a.value, slot);
    Sizes(cache.buf, cache.index, cache.uses, cache.disk, cache.view);
    if recovering {
      OneTaken(old(cache.buf), old(cache.index), old(cache.uses), cache.disk, cache.view, a.value, cache.buf,
        cache.index, home);
    } else {
      Cached(cache.buf, cache.index, cache.uses, cache.disk, cache.view, home);
    }
    var b, _ := cache.Bread(ROOTDEV, home);
    cache.LockedSizes(a.value);
    cache.LockedSizes(b.value);
    if !recovering { HeldPinned(cache.uses, home); }
    return Some((a.value, b.value));
  }

  /** A block in use is cached, so getting it does not panic. */
  lemma Cached(buf: seq<Buf>, index: map<nat, nat>, u: Uses, disk: Image, view: Image, blockno: nat)
    requires Coherent(buf, index, u, disk, view) && blockno in u.pinned
    ensures !Exhausted(buf, index, blockno)
  {
    assert u.Count(blockno) > 0;
  }

  /** One buffer taken from an idle cache leaves others. */
  lemma OneTaken(buf: seq<Buf>, index: map<nat, nat>, u: Uses, disk: Image, view: Image, b: nat,
                 buf': seq<Buf>, index': map<nat, nat>, blockno: nat)
    requires Coherent(buf, index, u, disk, view) && (forall x: nat :: u.Count(x) == 0) && b < NBUF
    requires |buf'| == NBUF && forall i | 0 <= i < NBUF && i != b :: buf'[i] == buf[i]
    ensures !Exhausted(buf', index', blockno)
  {
    IdleRoom(buf, index, u, disk, view);
    assert buf'[if b == 0 then 1 else 0].refcnt == 0;
  }

  lemma HeldPinned(u: Uses, x: nat)
    requires x in u.held && x in u.pinned
    ensures u.Count(x) > 1
  {
  }

  lemma NotUsed(u: Uses, x: nat)
    requires u.Count(x) == 0
    ensures x !in u.held && x !in u.pinned
  {
  }

  lemma GotOnce(buf: seq<Buf>, index: map<nat, nat>, u: Uses, disk: Image, view: Image, released: seq<nat>, b: nat,
                x: nat)
    requires Coherent(buf, index, u, disk, view) && Chosen(buf, index, released, b, x) && u.Count(x) == 0
    ensures Got(buf[b], x).refcnt == 1
  {
  }

  lemma FreeBuf(buf: seq<Buf>, b: nat)
    requires b < |buf| && buf[b].refcnt == 0
    ensures Room(buf)
  {
  }

  ghost function Unpin(u: Uses, home: nat): Uses {
    u.(pinned := u.pinned - multiset{home})
  }

  /** One round of install_trans: copy a logged block home, and unpin it. */
  method InstallSlot(cache: Cache, slot: nat, home: nat, recovering: bool) returns (ok: bool)
    requires cache.Valid() && slot < |cache.disk| && home < |cache.disk| && slot != home
    requires cache.uses.Count(slot) == 0 && home !in cache.uses.held && cache.view[slot] == cache.disk[slot]
    requires if recovering then forall b: nat :: cache.uses.Count(b) == 0 else home in cache.uses.pinned
    modifies cache
    ensures cache.Valid() && (ok <==> Room(old(cache.buf)))
    ensures ok ==>
              && Room(cache.buf)
              && cache.view == old(cache.view)[home := old(cache.view)[slot]]
              && cache.disk == old(cache.disk)[home := old(cache.view)[slot]]
              && cache.trace == old(cache.trace) + [cache.disk]
              && cache.uses == if recovering then old(cache.uses) else Unpin(old(cache.uses), home)
    ensures !ok ==> unchanged(cache)
  {
    hide Cache.Valid, Uses.Count, Room;
    NotUsed(cache.uses, slot);
    var both := TakeBoth(cache, slot, home, recovering);
    if both.None? { return false; }
    var (lbuf, dbuf) := both.value;
    CopyOut(cache, lbuf, dbuf);
    if !recovering {
      cache.Bunpin(dbuf);
    }
    ReleaseBoth(cache, lbuf, dbuf);
    assert cache.uses.held == old(cache.uses).held;
    return true;
  }

  /** write_head's loop over the header block's words. */
  method FillHeader(was: Block, block: seq<nat>, n: nat) returns (r: Block)
    requires |was.words| == WORDS && n <= |block| == LOGSIZE
    ensures r == Header(was, block[..n])
  {
    var words: seq<int> := was.words[0 := n];
    var i := 0;
    while i < n
      invariant i <= n && |words| == WORDS && words == [n] + block[..i] + was.words[i + 1..]
    {
      words := words[1 + i := block[i]];
      i := i + 1;
    }
    r := Block(words);
  }

  /** write_head. */
  method WriteHeader(cache: Cache, start: nat, block: seq<nat>, n: nat) returns (ok: bool)
    requires cache.Valid() && start < |cache.disk| && cache.uses.Count(start) == 0
    requires cache.view[start] == cache.disk[start] && |cache.disk[start].words| == WORDS && n <= |block| == LOGSIZE
    modifies cache
    ensures cache.Valid() && (ok <==> Room(old(cache.buf)))
    ensures ok ==>
              && Room(cache.buf)
              && cache.view == old(cache.view)[start := Header(old(cache.disk)[start], block[..n])]
              && cache.disk == old(cache.disk)[start := Header(old(cache.disk)[start], block[..n])]
              && cache.trace == old(cache.trace) + [cache.disk]
              && cache.uses == old(cache.uses)
    ensures !ok ==> unchanged(cache)
  {
    hide Linked, Sorted, Coherent, Header, Room, Exhausted;
    RoomIff(cache.buf, cache.index, cache.uses, cache.disk, cache.view, start);
    var buf, _ := cache.Bread(ROOTDEV, start);
    if buf.None? { return false; }
    Sizes(cache.buf, cache.index, cache.uses, cache.disk, cache.view);
    var hb := FillHeader(cache.buf[buf.value].data, block, n);
    cache.Store(buf.value, hb);
    cache.Bwrite(buf.value);
    Sizes(cache.buf, cache.index, cache.uses, cache.disk, cache.view);
    cache.Brelse(buf.value);
    FreeBuf(cache.buf, buf.value);
    assert cache.uses.held == old(cache.uses).held;
    return true;
  }

  /** read_head. */
  method ReadHeader(cache: Cache, l: Layout) returns (ok: bool, n: nat, block: seq<nat>)
    requires cache.Valid() && l.Sound(cache.disk) && cache.uses.Count(l.start) == 0
    requires cache.view[l.start] == cache.disk[l.start]
    modifies cache
    ensures cache.Valid() && (ok <==> Room(old(cache.buf)))
    ensures cache.view == old(cache.view) && cache.disk == old(cache.disk) && cache.trace == old(cache.trace)
    ensures |block| == LOGSIZE
    ensures ok ==> cache.uses == old(cache.uses) && Room(cache.buf)
    ensures ok ==> n == l.N(cache.disk) && forall t | 0 <= t < n :: block[t] == l.Dst(cache.disk, t)
  {
    hide Linked, Sorted, Coherent, Room, Exhausted;
    block, n := seq(LOGSIZE, _ => 0), 0;
    RoomIff(cache.buf, cache.index, cache.uses, cache.disk, cache.view, l.start);
    var buf, _ := cache.Bread(ROOTDEV, l.start);
    if buf.None? { return false, n, block; }
    Sizes(cache.buf, cache.index, cache.uses, cache.disk, cache.view);
    var words := cache.buf[buf.value].data.words;
    n := words[0];
    var i := 0;
    while i < n
      invariant i <= n && |block| == LOGSIZE && cache.Valid() && cache.Locked(buf.value)
      invariant forall t | 0 <= t < i :: block[t] == l.Dst(cache.disk, t)
    {
      assert words[1 + i] == l.Dst(cache.disk, i);
      block := block[i := words[1 + i]];
      i := i + 1;
    }
    cache.Brelse(buf.value);
    FreeBuf(cache.buf, buf.value);
    assert cache.uses.held == old(cache.uses).held;
    return true, n, block;
  }

  /** log.lh names different home blocks, no more than the log has slots. */
  ghost predicate Lh(l: Layout, size: nat, block: seq<nat>, n: nat) {
    && |block| == LOGSIZE && n <= l.Slots()
    && NoDup(block[..n])
    && (forall t | 0 <= t < n :: block[t] < size && l.Home(block[t]))
  }

  /** Only log.c touches the log's own blocks, and it writes them through. */
  ghost predicate RegionClean(l: Layout, disk: Image, view: Image, u: Uses) {
    && |view| == |disk| && l.start + l.size <= |disk|
    && (forall x | l.start <= x < l.start + l.size :: view[x] == disk[x])
    && (forall x: nat | l.start <= x < l.start + l.size :: u.Count(x) == 0)
  }

  lemma SlotClean(l: Layout, disk: Image, view: Image, u: Uses, x: nat)
    requires RegionClean(l, disk, view, u) && l.start <= x < l.start + l.size
    ensures x < |disk| == |view| && view[x] == disk[x] && u.Count(x) == 0
  {
  }

  /** A write through of one block, and fewer uses, keep the region clean. */
  lemma RegionUntouched(l: Layout, disk: Image, view: Image, u: Uses, b: nat, d: Block, u': Uses)
    requires RegionClean(l, disk, view, u) && b < |disk|
    requires u' == u || (u'.pinned <= u.pinned && u'.waiting == u.waiting && u'.held == u.held)
    ensures RegionClean(l, disk[b := d], view[b := d], u')
  {
    assert forall x: nat :: u'.Count(x) <= u.Count(x);
  }

  /** The group's blocks with their cached contents. */
  function TxnOf(view: Image, block: seq<nat>, n: nat): Txn
    requires n <= |block| && forall t | 0 <= t < n :: block[t] < |view|
  {
    Txn(block[..n], seq(n, t requires 0 <= t < n => view[block[t]]))
  }

  /* -------- commit, write by write -------- */

  /** Whatever the disk is behind on is logged, or still held by its writer. */
  ghost predicate Logged(l: Layout, disk: Image, view: Image, blocks: seq<nat>, held: set<nat>) {
    |view| == |disk| &&
    forall x: nat | x < |disk| && l.Home(x) && view[x] != disk[x] :: x in blocks || x in held
  }

  lemma TxnFits(l: Layout, view: Image, block: seq<nat>, n: nat)
    requires Lh(l, |view|, block, n)
    ensures TxnOf(view, block, n).Fits(l, |view|) && |TxnOf(view, block, n).blocks| == n
  {
  }

  lemma HeaderClears(l: Layout, img: Image, block: seq<nat>)
    requires l.Fits(img)
    ensures img[l.start := Header(img[l.start], block[..0])] == Clear(l, img)
  {
    var words := img[l.start].words;
    assert [0] + block[..0] + words[1..] == words[0 := 0];
  }

  lemma {:induction false} AppliedView(view: Image, block: seq<nat>, n: nat, k: nat, was: Block, x: nat)
    requires k <= n <= |block| && (forall t | 0 <= t < n :: block[t] < |view|)
    ensures Applied(TxnOf(view, block, n), k, was, x) == if x in block[..k] then view[x] else was
  {
    if k > 0 {
      AppliedView(view, block, n, k - 1, was, x);
      assert block[..k] == block[..k - 1] + [block[k - 1]];
    }
  }

  /** Installing a group in which all that differs is logged makes the disk's home
      blocks the cached ones. */
  lemma GroupMeansView(l: Layout, disk: Image, view: Image, block: seq<nat>, n: nat)
    requires Lh(l, |disk|, block, n) && Logged(l, disk, view, block[..n], {})
    ensures SameHome(l, Apply(disk, TxnOf(view, block, n)), view)
  {
    forall x | 0 <= x < |disk| && l.Home(x) ensures Apply(disk, TxnOf(view, block, n))[x] == view[x] {
      AppliedView(view, block, n, n, disk[x], x);
      assert block[..n] == TxnOf(view, block, n).blocks;
    }
  }

  /** How many blocks a commit that made `step` writes has installed. */
  function Homed(n: nat, step: nat): nat {
    if step <= n then 0 else step - n - 1
  }

  /** A commit of block[..n] that started with the disk `from` and the block map `cached`
      has made the first `step` of its writes: the disk is the image that
      crash atomicity is proved for, the block map has not changed, and the blocks
      still to be installed, which are all that the disk is behind on, are pinned. */
  ghost predicate Progress(l: Layout, from: Image, cached: Image, disk: Image, view: Image, pinned: multiset<nat>,
                           block: seq<nat>, n: nat, step: nat) {
    && Quiet(l, from) && Lh(l, |from|, block, n) && |cached| == |from| && TxnOf(cached, block, n).Fits(l, |from|)
    && Logged(l, from, cached, block[..n], {})
    && step <= (if n == 0 then 0 else 2 * n + 1) && disk == Before(l, from, TxnOf(cached, block, n), step)
    && SameHome(l, view, cached)
    && Logged(l, disk, view, block[Homed(n, step)..n], {})
    && pinned == multiset(block[Homed(n, step)..n])
  }

  lemma ProgressStarts(l: Layout, disk: Image, view: Image, pinned: multiset<nat>, block: seq<nat>, n: nat)
    requires Quiet(l, disk) && Lh(l, |disk|, block, n) && Logged(l, disk, view, block[..n], {})
    requires pinned == multiset(block[..n])
    ensures Progress(l, disk, view, disk, view, pinned, block, n, 0)
  {
    TxnFits(l, view, block, n);
    assert block[0..n] == block[..n];
  }

  lemma ProgressFacts(l: Layout, from: Image, cached: Image, disk: Image, view: Image, pinned: multiset<nat>,
                      block: seq<nat>, n: nat, step: nat)
    requires Progress(l, from, cached, disk, view, pinned, block, n, step) && n > 0
    ensures n <= |block| == LOGSIZE && (forall t | 0 <= t < n :: block[t] < |cached|)
    ensures Quiet(l, from) && TxnOf(cached, block, n).Fits(l, |from|) && |TxnOf(cached, block, n).blocks| == n
    ensures |CommitImages(l, from, TxnOf(cached, block, n))| == 2 * n + 2
    ensures |disk| == |from| == |view| && disk == Before(l, from, TxnOf(cached, block, n), step)
    ensures l.start + n < l.start + l.size <= |disk|
    ensures forall t | 0 <= t < n :: block[t] < |disk| && l.Home(block[t]) && view[block[t]] == cached[block[t]]
  {
    hide CommitImages, Quiet, Logged, Before;
    QuietFits(l, from);
    CommitAt(l, from, TxnOf(cached, block, n), step);
  }

  lemma StillPinned(l: Layout, from: Image, cached: Image, disk: Image, view: Image, pinned: multiset<nat>,
                    block: seq<nat>, n: nat, step: nat, t: nat)
    requires Progress(l, from, cached, disk, view, pinned, block, n, step) && Homed(n, step) <= t < n <= |block|
    ensures block[t] in pinned
  {
    hide Quiet, Logged, Lh, Before, Txn.Fits, SameHome;
    assert block[Homed(n, step)..n][t - Homed(n, step)] == block[t];
  }

  /** A write of a log block that is the next image of the commit. */
  lemma LogBlockStep(l: Layout, from: Image, cached: Image, disk: Image, view: Image, pinned: multiset<nat>,
                     block: seq<nat>, n: nat, step: nat, x: nat, d: Block)
    requires Progress(l, from, cached, disk, view, pinned, block, n, step) && n > 0 && step <= n
    requires l.start <= x < l.start + l.size && x < |disk|
    requires disk[x := d] == CommitImages(l, from, TxnOf(cached, block, n))[step]
    ensures Progress(l, from, cached, disk[x := d], view[x := d], pinned, block, n, step + 1)
  {
    hide CommitImages, Lh, Quiet;
  }

  lemma SlotStep(l: Layout, from: Image, cached: Image, disk: Image, view: Image, pinned: multiset<nat>,
                 block: seq<nat>, n: nat, step: nat)
    requires Progress(l, from, cached, disk, view, pinned, block, n, step) && step < n
    requires |disk| == |view| && l.start + step + 1 < |disk| && block[step] < |view|
    ensures var x, d := l.start + step + 1, view[block[step]];
            && Progress(l, from, cached, disk[x := d], view[x := d], pinned, block, n, step + 1)
            && disk[x := d] == CommitImages(l, from, TxnOf(cached, block, n))[step]
  {
    hide CommitImages, Quiet, Progress;
    ProgressFacts(l, from, cached, disk, view, pinned, block, n, step);
    CommitAt(l, from, TxnOf(cached, block, n), step);
    LogBlockStep(l, from, cached, disk, view, pinned, block, n, step, l.start + step + 1, view[block[step]]);
  }

  lemma HeadStep(l: Layout, from: Image, cached: Image, disk: Image, view: Image, pinned: multiset<nat>,
                 block: seq<nat>, n: nat)
    requires Progress(l, from, cached, disk, view, pinned, block, n, n) && n > 0
    ensures l.Fits(disk) && n <= |block| == LOGSIZE && |view| == |disk|
    ensures var d := Header(disk[l.start], block[..n]);
            && Progress(l, from, cached, disk[l.start := d], view[l.start := d], pinned, block, n, n + 1)
            && disk[l.start := d] == CommitImages(l, from, TxnOf(cached, block, n))[n]
  {
    hide CommitImages, Quiet, Progress, Header;
    ProgressFacts(l, from, cached, disk, view, pinned, block, n, n);
    CommitAt(l, from, TxnOf(cached, block, n), n);
    LogBlockStep(l, from, cached, disk, view, pinned, block, n, n, l.start, Header(disk[l.start], block[..n]));
  }

  /** Writing a block's latest contents home leaves the disk behind on one block less. */
  lemma LoggedLess(l: Layout, disk: Image, view: Image, blocks: seq<nat>, b: nat, d: Block)
    requires Logged(l, disk, view, blocks, {}) && |blocks| > 0 && b == blocks[0] && b < |disk| && d == view[b]
    ensures Logged(l, disk[b := d], view, blocks[1..], {})
  {
  }

  /** The slot that a round of installation copies holds the block's cached contents. */
  lemma SlotHolds(l: Layout, from: Image, cached: Image, disk: Image, view: Image, pinned: multiset<nat>,
                  block: seq<nat>, n: nat, step: nat)
    requires Progress(l, from, cached, disk, view, pinned, block, n, step) && n < step <= 2 * n
    ensures |block| == LOGSIZE && n <= LOGSIZE && l.start + step - n < |disk| && block[step - n - 1] < |disk| == |view|
    ensures |CommitImages(l, from, TxnOf(cached, block, n))| == 2 * n + 2
    ensures var t := step - n - 1; var d := disk[l.start + step - n];
            d == view[block[t]] && disk[block[t] := d] == CommitImages(l, from, TxnOf(cached, block, n))[step]
  {
    hide CommitImages, Quiet, Logged, SameHome, Txn.Fits, Progress;
    ProgressFacts(l, from, cached, disk, view, pinned, block, n, step);
    CommitAt(l, from, TxnOf(cached, block, n), step);
  }

  /** What a round of install_trans finds, and what it leads to. */
  lemma InstallFacts(l: Layout, from: Image, cached: Image, disk: Image, view: Image, u: Uses, block: seq<nat>, n: nat,
                     step: nat, trace: seq<Image>, base: Image, commits: seq<Txn>, epoch: seq<nat>)
    requires Progress(l, from, cached, disk, view, u.pinned, block, n, step) && n < step <= 2 * n
    requires RegionClean(l, disk, view, u) && Journal(l, trace, base, commits, epoch)
    requires |trace| > 0 && trace[|trace| - 1] == disk
    ensures |block| == LOGSIZE && n <= LOGSIZE
    ensures var home, slot := block[step - n - 1], l.start + step - n;
            && home < |disk| == |view| && slot < |disk| && slot != home && home in u.pinned
            && u.Count(slot) == 0 && disk[slot] == view[slot] == view[home] && view[home := view[slot]] == view
            && var disk' := disk[home := view[slot]];
               && Progress(l, from, cached, disk', view, u.pinned - multiset{home}, block, n, step + 1)
               && RegionClean(l, disk', view, Unpin(u, home))
               && Journal(l, trace + [disk'], base, commits, epoch + [|commits|])
  {
    hide Quiet, RegionClean, Journal, Progress, CommitImages, TxnOf, Uses.Count, Txn.Fits, Before;
    ProgressFacts(l, from, cached, disk, view, u.pinned, block, n, step);
    var home, slot := block[step - n - 1], l.start + step - n;
    StillPinned(l, from, cached, disk, view, u.pinned, block, n, step, step - n - 1);
    SlotHolds(l, from, cached, disk, view, u.pinned, block, n, step);
    InstallStep(l, from, cached, disk, view, u.pinned, block, n, step);
    SlotClean(l, disk, view, u, slot);
    JournalRound(l, trace, base, commits, epoch, from, TxnOf(cached, block, n), step);
    RegionUntouched(l, disk, view, u, home, view[home], Unpin(u, home));
  }

  lemma NextBefore(l: Layout, img: Image, txn: Txn, i: nat)
    requires Quiet(l, img) && txn.Fits(l, |img|) && i < |CommitImages(l, img, txn)|
    ensures Before(l, img, txn, i + 1) == CommitImages(l, img, txn)[i]
  {
  }

  lemma InstallStep(l: Layout, from: Image, cached: Image, disk: Image, view: Image, pinned: multiset<nat>,
                    block: seq<nat>, n: nat, step: nat)
    requires Progress(l, from, cached, disk, view, pinned, block, n, step) && n < step <= 2 * n
    requires |block| == LOGSIZE && n <= LOGSIZE && block[step - n - 1] < |disk| == |view|
    ensures var b := block[step - n - 1];
            Progress(l, from, cached, disk[b := view[b]], view, pinned - multiset{b}, block, n, step + 1)
  {
    hide CommitImages, Quiet, Lh, Logged, SameHome, Txn.Fits, TxnOf, Before;
    SlotHolds(l, from, cached, disk, view, pinned, block, n, step);
    ProgressFacts(l, from, cached, disk, view, pinned, block, n, step);
    NextBefore(l, from, TxnOf(cached, block, n), step);
    var t := step - n - 1;
    var todo := block[t..n];
    assert todo[1..] == block[t + 1..n] && todo == [block[t]] + block[t + 1..n];
    LoggedLess(l, disk, view, todo, block[t], view[block[t]]);
  }

  lemma ClearStep(l: Layout, from: Image, cached: Image, disk: Image, view: Image, pinned: multiset<nat>,
                  block: seq<nat>, n: nat)
    requires Progress(l, from, cached, disk, view, pinned, block, n, 2 * n + 1) && n > 0
    ensures l.Fits(disk) && |block| == LOGSIZE && |view| == |disk| && pinned == multiset{}
    ensures var d := Header(disk[l.start], block[..0]);
            && disk[l.start := d] == CommitImages(l, from, TxnOf(cached, block, n))[2 * n + 1]
            && Quiet(l, disk[l.start := d]) && SameHome(l, view[l.start := d], cached)
            && SameHome(l, disk[l.start := d], view[l.start := d])
  {
    hide CommitImages, Header, Lh, Means, Quiet, SameHome, Logged, Apply;
    ProgressFacts(l, from, cached, disk, view, pinned, block, n, 2 * n + 1);
    var txn := TxnOf(cached, block, n);
    CommitAt(l, from, txn, 2 * n + 1);
    HeaderClears(l, disk, block);
    CommitAtomic(l, from, txn, 2 * n + 1);
    GroupMeansView(l, from, cached, block, n);
    assert block[n..n] == [];
    AllHome(l, disk, view, cached, Apply(from, txn), Header(disk[l.start], block[..0]));
  }

  lemma AllHome(l: Layout, disk: Image, view: Image, cached: Image, done: Image, d: Block)
    requires SameHome(l, view, cached) && SameHome(l, done, cached) && l.Fits(disk) && |disk| == |view|
    requires SameHome(l, disk[l.start := d], done)
    ensures SameHome(l, view[l.start := d], cached) && SameHome(l, disk[l.start := d], view[l.start := d])
  {
  }

  /* -------- what the disk means -------- */

  /** The home blocks after the first e of these group commits. */
  function Applying(base: Image, commits: seq<Txn>, e: nat): (r: Image)
    requires e <= |commits| && forall c | 0 <= c < |commits| :: |commits[c].blocks| == |commits[c].data|
    ensures |r| == |base|
  {
    if e == 0 then base else Apply(Applying(base, commits, e - 1), commits[e - 1])
  }

  lemma {:induction false} ApplyingMore(base: Image, commits: seq<Txn>, txn: Txn, e: nat)
    requires e <= |commits| && |txn.blocks| == |txn.data|
    requires forall c | 0 <= c < |commits| :: |commits[c].blocks| == |commits[c].data|
    ensures Applying(base, commits + [txn], e) == Applying(base, commits, e)
  {
    if e > 0 {
      ApplyingMore(base, commits, txn, e - 1);
    }
  }

  /** Every image that the disk has been means the commits made by then: the
      i-th one the first epoch[i] commits, and the disk now all of them. */
  ghost predicate Journal(l: Layout, trace: seq<Image>, base: Image, commits: seq<Txn>, epoch: seq<nat>) {
    && |epoch| == |trace| > 0 && epoch[|epoch| - 1] == |commits|
    && (forall c | 0 <= c < |commits| :: |commits[c].blocks| == |commits[c].data|)
    && (forall i, j | 0 <= i < j < |epoch| :: epoch[i] <= epoch[j])
    && (forall i | 0 <= i < |trace| :: epoch[i] <= |commits| && Means(l, trace[i], Applying(base, commits, epoch[i])))
  }

  /** One more write that does not change the meaning. */
  lemma JournalSame(l: Layout, trace: seq<Image>, base: Image, commits: seq<Txn>, epoch: seq<nat>, img: Image)
    requires Journal(l, trace, base, commits, epoch)
    requires forall st | Means(l, trace[|trace| - 1], st) :: Means(l, img, st)
    ensures Journal(l, trace + [img], base, commits, epoch + [|commits|])
  {
    hide Means, Applying;
  }

  /** The write that commits. */
  lemma JournalCommit(l: Layout, trace: seq<Image>, base: Image, commits: seq<Txn>, epoch: seq<nat>, img: Image,
                      txn: Txn)
    requires Journal(l, trace, base, commits, epoch) && |txn.blocks| == |txn.data|
    requires forall st | Means(l, trace[|trace| - 1], st) :: Means(l, img, Apply(st, txn))
    ensures Journal(l, trace + [img], base, commits + [txn], epoch + [|commits| + 1])
  {
    hide Means, Apply;
    forall e: nat | e <= |commits|
      ensures Applying(base, commits + [txn], e) == Applying(base, commits, e)
    {
      ApplyingMore(base, commits, txn, e);
    }
    assert Applying(base, commits + [txn], |commits| + 1) == Apply(Applying(base, commits, |commits|), txn);
  }

  /** A write of a commit: the journal gains the group with the header and no other write. */
  lemma JournalRound(l: Layout, trace: seq<Image>, base: Image, commits: seq<Txn>, epoch: seq<nat>,
                     from: Image, txn: Txn, i: nat)
    requires Journal(l, trace, base, commits, epoch) && |trace| > 0
    requires Quiet(l, from) && txn.Fits(l, |from|) && i < |CommitImages(l, from, txn)|
    requires trace[|trace| - 1] == Before(l, from, txn, i)
    ensures var img := CommitImages(l, from, txn)[i];
            if i == |txn.blocks| then Journal(l, trace + [img], base, commits + [txn], epoch + [|commits| + 1])
            else Journal(l, trace + [img], base, commits, epoch + [|commits|])
  {
    hide CommitImages, Quiet, Means, Journal, Before, Apply;
    var img := CommitImages(l, from, txn)[i];
    if i == |txn.blocks| {
      forall st | Means(l, trace[|trace| - 1], st) ensures Means(l, img, Apply(st, txn)) {
        WriteMeans(l, from, txn, i, st);
      }
      JournalCommit(l, trace, base, commits, epoch, img, txn);
    } else {
      forall st | Means(l, trace[|trace| - 1], st) ensures Means(l, img, st) {
        WriteMeans(l, from, txn, i, st);
      }
      JournalSame(l, trace, base, commits, epoch, img);
    }
  }

  /** Of the writes of a commit only the header changes what the disk means. */
  lemma WriteMeans(l: Layout, from: Image, txn: Txn, i: nat, st: Image)
    requires Quiet(l, from) && txn.Fits(l, |from|) && i < |CommitImages(l, from, txn)|
    requires Means(l, Before(l, from, txn, i), st)
    ensures Means(l, CommitImages(l, from, txn)[i], if i == |txn.blocks| then Apply(st, txn) else st)
  {
    hide CommitImages, Quiet, Means, Apply;
    CommitAt(l, from, txn, i);
    CommitAtomic(l, from, txn, i);
    if i == 0 {
      QuietMeans(l, from);
    } else {
      CommitAtomic(l, from, txn, i - 1);
    }
    var was := if i <= |txn.blocks| then from else Apply(from, txn);
    MeansOne(l, Before(l, from, txn, i), was, st);
    var now := CommitImages(l, from, txn)[i];
    if i == |txn.blocks| {
      SameApply(l, from, st, txn);
      MeansTo(l, now, Apply(from, txn), Apply(st, txn));
    } else {
      MeansTo(l, now, was, st);
    }
  }

  lemma SameApply(l: Layout, a: Image, b: Image, txn: Txn)
    requires SameHome(l, a, b) && |txn.blocks| == |txn.data|
    ensures SameHome(l, Apply(a, txn), Apply(b, txn))
  {
  }

  lemma MeansTo(l: Layout, img: Image, a: Image, b: Image)
    requires Means(l, img, a) && SameHome(l, a, b)
    ensures Means(l, img, b)
  {
  }

  /** A crash at any point, and then reboots cut off any number of times, leave exactly
      the commits made by then. */
  lemma CrashRecovers(l: Layout, trace: seq<Image>, base: Image, commits: seq<Txn>, epoch: seq<nat>, i: nat,
                      reboots: seq<nat>)
    requires Journal(l, trace, base, commits, epoch) && i < |trace|
    ensures epoch[i] <= |commits| && l.Sound(trace[i])
    ensures SameHome(l, Reboots(l, trace[i], reboots), Applying(base, commits, epoch[i]))
  {
    MeansOne(l, trace[i], Reboots(l, trace[i], reboots), Applying(base, commits, epoch[i]));
  }

  /* -------- reservations -------- */

  /** What the running operations may still add to the log. */
  ghost function Unused(ops: seq<set<nat>>): int {
    if ops == [] then 0 else MAXOPBLOCKS - |ops[0]| + Unused(ops[1..])
  }

  lemma {:induction false} UnusedUpdate(ops: seq<set<nat>>, i: nat, s: set<nat>)
    requires i < |ops|
    ensures Unused(ops[i := s]) == Unused(ops) + |ops[i]| - |s|
  {
    if i > 0 {
      assert ops[i := s][1..] == ops[1..][i - 1 := s];
      UnusedUpdate(ops[1..], i - 1, s);
    } else {
      assert ops[0 := s][1..] == ops[1..];
    }
  }

  lemma {:induction false} UnusedRemove(ops: seq<set<nat>>, i: nat)
    requires i < |ops|
    ensures Unused(ops[..i] + ops[i + 1..]) == Unused(ops) - (MAXOPBLOCKS - |ops[i]|)
  {
    if i > 0 {
      assert (ops[..i] + ops[i + 1..])[1..] == ops[1..][..i - 1] + ops[1..][i..];
      UnusedRemove(ops[1..], i - 1);
    } else {
      assert ops[..0] + ops[1..] == ops[1..];
    }
  }

  lemma {:induction false} UnusedAppend(ops: seq<set<nat>>)
    ensures Unused(ops + [{}]) == Unused(ops) + MAXOPBLOCKS
  {
    if ops != [] {
      assert (ops + [{}])[1..] == ops[1..] + [{}];
      UnusedAppend(ops[1..]);
    }
  }

  lemma {:induction false} UnusedNonNegative(ops: seq<set<nat>>, i: nat)
    requires forall o | 0 <= o < |ops| :: |ops[o]| <= MAXOPBLOCKS
    ensures Unused(ops) >= if i < |ops| then MAXOPBLOCKS - |ops[i]| else 0
  {
    if ops != [] {
      UnusedNonNegative(ops[1..], if 0 < i then i - 1 else |ops|);
    }
  }

  lemma {:induction false} UnusedAtMost(ops: seq<set<nat>>)
    ensures Unused(ops) <= |ops| * MAXOPBLOCKS
  {
    if ops != [] {
      UnusedAtMost(ops[1..]);
    }
  }

  /** Each operation logged at most MAXOPBLOCKS blocks, all in the header, and the
      log has room for what the operations may still add. */
  ghost predicate Reserved(ops: seq<set<nat>>, blocks: seq<nat>) {
    && (forall o | 0 <= o < |ops| :: |ops[o]| <= MAXOPBLOCKS)
    && (forall o, b | 0 <= o < |ops| && b in ops[o] :: b in blocks)
    && |blocks| + Unused(ops) <= LOGSIZE
  }

  lemma ReservedBegin(ops: seq<set<nat>>, blocks: seq<nat>)
    requires Reserved(ops, blocks) && |blocks| + (|ops| + 1) * MAXOPBLOCKS <= LOGSIZE
    ensures Reserved(ops + [{}], blocks)
  {
    UnusedAppend(ops);
    UnusedAtMost(ops);
  }

  lemma ReservedEnd(ops: seq<set<nat>>, blocks: seq<nat>, i: nat)
    requires Reserved(ops, blocks) && i < |ops|
    ensures Reserved(ops[..i] + ops[i + 1..], blocks)
  {
    UnusedRemove(ops, i);
  }

  /** Logging a block within the operation's budget keeps the reservation, and
      there is room for it if it is new. */
  lemma ReservedWrite(ops: seq<set<nat>>, blocks: seq<nat>, i: nat, b: nat)
    requires Reserved(ops, blocks) && i < |ops| && |ops[i] + {b}| <= MAXOPBLOCKS
    ensures b !in blocks ==> |blocks| < LOGSIZE
    ensures Reserved(ops[i := ops[i] + {b}], if b in blocks then blocks else blocks + [b])
  {
    UnusedUpdate(ops, i, ops[i] + {b});
    UnusedNonNegative(ops, i);
    if b in blocks {
      SubsetSize(ops[i], ops[i] + {b});
    } else {
      assert |ops[i] + {b}| == |ops[i]| + 1;
    }
  }

  /** Whatever running operations within their budgets have logged, log_write's
      guard lets one more new block in. */
  ghost predicate NeverTooBig(size: nat) {
    forall ops: seq<set<nat>>, blocks: seq<nat>, i: nat, b: nat |
      Reserved(ops, blocks) && i < |ops| && |ops[i] + {b}| <= MAXOPBLOCKS && b !in blocks ::
      |blocks| < LOGSIZE && |blocks| < size - 1
  }

  /** So it is exactly if the log has LOGSIZE slots besides its header.  mkfs makes
      logs of LOGSIZE blocks in all, one slot short. */
  lemma NeverTooBigIff(size: nat)
    ensures NeverTooBig(size) <==> size > LOGSIZE
  {
    forall ops: seq<set<nat>>, blocks: seq<nat>, i: nat, b: nat |
      Reserved(ops, blocks) && i < |ops| && |ops[i] + {b}| <= MAXOPBLOCKS && b !in blocks
      ensures |blocks| < LOGSIZE
    {
      ReservedWrite(ops, blocks, i, b);
    }
    if size <= LOGSIZE {
      var ops, blocks := Crowded(MAXOPBLOCKS - 1, LOGSIZE - 1);
    }
  }

  /** An operation with one block of its budget left, and n blocks logged in all. */
  lemma Crowded(m: nat, n: nat) returns (ops: seq<set<nat>>, blocks: seq<nat>)
    requires m < MAXOPBLOCKS && m <= n && n + MAXOPBLOCKS - m <= LOGSIZE
    ensures Reserved(ops, blocks) && |ops| == 1 && |ops[0] + {n}| == m + 1 && |blocks| == n && n !in blocks
  {
    ops, blocks := [Below(m)], seq(n, i => i);
    forall x: nat | x < n ensures x in blocks { assert blocks[x] == x; }
    assert Unused(ops) == MAXOPBLOCKS - m + Unused(ops[1..]);
  }

  /** log_write's search for the block in log.lh. */
  method FindLogged(block: seq<nat>, n: nat, blockno: nat) returns (i: nat)
    requires n <= |block|
    ensures i <= n && blockno !in block[..i] && (i < n ==> block[i] == blockno)
  {
    i := 0;
    while i < n && block[i] != blockno
      invariant i <= n && blockno !in block[..i]
    {
      i := i + 1;
    }
  }

  lemma PinMore(blocks: seq<nat>, b: nat)
    ensures multiset(blocks + [b]) == multiset(blocks) + multiset{b}
  {
  }

  lemma LhSizes(l: Layout, size: nat, block: seq<nat>, n: nat)
    requires Lh(l, size, block, n)
    ensures n <= |block| == LOGSIZE && n <= l.Slots()
  {
  }

  lemma LhAppend(l: Layout, size: nat, block: seq<nat>, n: nat, b: nat)
    requires Lh(l, size, block, n) && n < l.Slots() && b !in block[..n] && b < size && l.Home(b)
    ensures Lh(l, size, block[n := b], n + 1) && block[n := b][..n + 1] == block[..n] + [b]
  {
    assert block[n := b][..n + 1] == block[..n] + [b];
  }

  lemma LoggedMore(l: Layout, disk: Image, view: Image, blocks: seq<nat>, held: set<nat>, b: nat)
    requires Logged(l, disk, view, blocks, held)
    ensures Logged(l, disk, view, blocks + [b], held)
  {
  }

  /** Between commits: what the disk is behind on is logged, or held by a running
      operation, and the logged blocks are pinned. */
  ghost predicate Open(l: Layout, disk: Image, view: Image, u: Uses, blocks: seq<nat>, held: set<nat>) {
    Quiet(l, disk) && u.pinned == multiset(blocks) && Logged(l, disk, view, blocks, held)
  }

  /** Reading a home block changes nothing in the log's region. */
  lemma RegionUses(l: Layout, disk: Image, view: Image, u: Uses, u': Uses, b: nat)
    requires RegionClean(l, disk, view, u) && l.Home(b) && OnlyAt(u, u', b)
    ensures RegionClean(l, disk, view, u')
  {
    assert forall x: nat | x != b :: u'.Count(x) == u.Count(x);
  }

  lemma LoggedHeld(l: Layout, disk: Image, view: Image, blocks: seq<nat>, held: set<nat>, held': set<nat>)
    requires Logged(l, disk, view, blocks, held) && held <= held'
    ensures Logged(l, disk, view, blocks, held')
  {
  }

  lemma LoggedFree(l: Layout, disk: Image, view: Image, blocks: seq<nat>, held: set<nat>, b: nat)
    requires Logged(l, disk, view, blocks, held) && (b in blocks || OnDisk(disk, view, b))
    ensures Logged(l, disk, view, blocks, held - {b})
  {
  }

  lemma NoneLogged(l: Layout, size: nat, block: seq<nat>, n: nat)
    requires Lh(l, size, block, n)
    ensures Lh(l, size, block, 0) && Reserved([], block[..0])
  {
  }

  lemma HomeLogged(l: Layout, disk: Image, view: Image, blocks: seq<nat>)
    requires SameHome(l, disk, view)
    ensures Logged(l, disk, view, blocks, {})
  {
  }

  lemma NonePinned(l: Layout, from: Image, cached: Image, disk: Image, view: Image, pinned: multiset<nat>,
                   block: seq<nat>, n: nat)
    requires Progress(l, from, cached, disk, view, pinned, block, n, 2 * n + 1)
    ensures pinned == multiset{}
  {
    assert block[n..n] == [];
  }

  /** At the start of a commit nothing has moved, and with nothing to commit nothing will. */
  lemma CommitStarts(l: Layout, from: Image, cached: Image, disk: Image, view: Image, pinned: multiset<nat>,
                     block: seq<nat>, n: nat)
    requires Progress(l, from, cached, disk, view, pinned, block, n, 0)
    ensures SameHome(l, cached, view) && from == disk
    ensures n == 0 ==> pinned == multiset{} && SameHome(l, view, view) && SameHome(l, disk, view)
  {
    assert block[0..0] == [];
  }

  lemma InParts(trace: seq<Image>, all: seq<Image>, m: nat)
    requires |all| == 2 * m + 2
    ensures trace + all[..m] + [all[m]] + all[m + 1..2 * m + 1] + [all[2 * m + 1]] == trace + all
  {
    assert all == all[..m] + [all[m]] + all[m + 1..2 * m + 1] + [all[2 * m + 1]];
  }

  lemma SameHomeTwice(l: Layout, a: Image, b: Image, c: Image)
    requires SameHome(l, a, b) && SameHome(l, b, c)
    ensures SameHome(l, a, c)
  {
  }

  /** Clearing the header ends the commit. */
  lemma Cleared(l: Layout, from: Image, cached: Image, disk: Image, view: Image, u: Uses, block: seq<nat>, n: nat)
    requires Progress(l, from, cached, disk, view, u.pinned, block, n, 2 * n + 1) && n > 0
    requires Lh(l, |disk|, block, n) && RegionClean(l, disk, view, u)
    ensures l.Fits(disk) && |block| == LOGSIZE && |view| == |disk| && u.pinned == multiset{}
    ensures n <= LOGSIZE && Quiet(l, from) && TxnOf(cached, block, n).Fits(l, |from|)
    ensures |CommitImages(l, from, TxnOf(cached, block, n))| == 2 * n + 2
    ensures var d := Header(disk[l.start], block[..0]); var disk', view' := disk[l.start := d], view[l.start := d];
            && disk' == CommitImages(l, from, TxnOf(cached, block, n))[2 * n + 1]
            && SameHome(l, view', cached) && SameHome(l, disk', view')
            && Progress(l, disk', view', disk', view', multiset{}, block, 0, 0)
            && Lh(l, |disk'|, block, 0) && RegionClean(l, disk', view', u) && Reserved([], block[..0])
  {
    hide Quiet, Lh, RegionClean, Logged, Progress, CommitImages, TxnOf, Uses.Count, Txn.Fits, Header, SameHome,
         Reserved;
    ProgressFacts(l, from, cached, disk, view, u.pinned, block, n, 2 * n + 1);
    ClearStep(l, from, cached, disk, view, u.pinned, block, n);
    var d := Header(disk[l.start], block[..0]);
    RegionUntouched(l, disk, view, u, l.start, d, u);
    NoneLogged(l, |disk|, block, n);
    HomeLogged(l, disk[l.start := d], view[l.start := d], block[..0]);
    ProgressStarts(l, disk[l.start := d], view[l.start := d], multiset{}, block, 0);
  }

  lemma RegionFewer(l: Layout, disk: Image, view: Image, u: Uses, u': Uses)
    requires RegionClean(l, disk, view, u) && u'.pinned == u.pinned && u'.waiting == u.waiting && u'.held <= u.held
    ensures RegionClean(l, disk, view, u')
  {
    assert forall x: nat :: u'.Count(x) <= u.Count(x);
  }

  /* -------- recovery, write by write -------- */

  lemma FreshLog(l: Layout, disk: Image, u: Uses, block: seq<nat>)
    requires Quiet(l, disk) && u == Uses(multiset{}, multiset{}, {}) && |block| == LOGSIZE
    ensures Lh(l, |disk|, block, 0) && RegionClean(l, disk, disk, u) && Open(l, disk, disk, u, block[..0], {})
    ensures Reserved([], block[..0])
  {
  }

  lemma IdleFree(cache: Cache)
    requires cache.Valid() && forall b: nat :: cache.uses.Count(b) == 0
    ensures Room(cache.buf)
  {
    IdleRoom(cache.buf, cache.index, cache.uses, cache.disk, cache.view);
    FreeBuf(cache.buf, 0);
  }

  lemma RecoveryStarts(l: Layout, img: Image)
    requires l.Sound(img)
    ensures After(img, InstallImages(l, img, 0), 0) == img
  {
  }

  /** The write of round t of install_trans in recovery. */
  lemma RecoveryStep(l: Layout, img: Image, t: nat)
    requires l.Sound(img) && t < l.N(img)
    ensures var s := InstallImages(l, img, 0); var disk := After(img, s, t);
            && |disk| == |img| && l.start + t + 1 < l.start + l.size <= |img|
            && 0 <= l.Dst(img, t) < |img| && l.Home(l.Dst(img, t))
            && s[t] == disk[l.Dst(img, t) := disk[l.start + t + 1]] == After(img, s, t + 1)
            && |s[t]| == |img|
  {
    hide InstallImages;
    InstallImagesAt(l, img, 0, t);
    InstallSlots(l, img, 0, t);
  }

  lemma RecoveryEnds(l: Layout, img: Image, block: seq<nat>)
    requires l.Sound(img)
    ensures var s := InstallImages(l, img, 0); var last := After(img, s, l.N(img));
            && l.Fits(last) && RecoveryImages(l, img) == s + [last[l.start := Header(last[l.start], block[..0])]]
  {
    hide InstallImages, Header;
    var s := InstallImages(l, img, 0);
    SoundLast(l, img);
    assert After(img, s, l.N(img)) == Last(img, s);
    HeaderClears(l, Last(img, s), block);
  }

  function Zeros(k: nat): seq<nat> {
    seq(k, _ => 0)
  }

  /** Every image of a recovery means the last one. */
  lemma Recovered(l: Layout, img: Image)
    requires l.Sound(img)
    ensures var s := RecoveryImages(l, img); var last := s[|s| - 1];
            && Quiet(l, last) && Means(l, img, last)
            && Journal(l, [img] + s, last, [], Zeros(|[img] + s|))
  {
    hide RecoveryImages, Means, SameMeaning, Quiet;
    RecoveryKeeps(l, img);
    var s := RecoveryImages(l, img);
    var last := s[|s| - 1];
    forall i | 0 <= i <= |s| ensures Means(l, ([img] + s)[i], last) {
      if i > 0 {
        MeansSame(l, s[i - 1], img, last);
      }
    }
  }

  /** What a step of the commit did: its round, nothing because another process
      has the block's buffer locked, or bget's panic. */
  datatype Outcome = Made | Waits | Panics

  /** Whether a round that needs a buffer and the pinned block `home` can be made now. */
  method Ready(cache: Cache, home: nat) returns (r: Outcome)
    requires cache.Valid() && home in cache.uses.pinned
    ensures r == Panics <==> !Room(cache.buf)
    ensures r == Waits <==> Room(cache.buf) && home in cache.uses.held
  {
    hide Linked, Sorted;
    var free := cache.LeastRecent();
    if free.None? { return Panics; }
    FreeBuf(cache.buf, free.value);
    assert cache.uses.Count(home) > 0;
    var b := cache.Find(ROOTDEV, home);
    return if cache.buf[b.value].locked then Waits else Made;
  }

  class Log {
    const cache: Cache
    const l: Layout        // log.start and log.size
    var outstanding: nat
    var committing: bool
    var n: nat             // log.lh.n
    var block: seq<nat>    // log.lh.block
    var step: nat          // where the running commit is: how many writes it has made
    ghost var from: Image    // the disk when it started
    ghost var cached: Image  // the block map when it started
    ghost var ops: seq<set<nat>>   // the blocks each running operation has logged
    ghost var base: Image          // the home blocks at boot
    ghost var commits: seq<Txn>    // the groups committed since
    ghost var epoch: seq<nat>      // how many of them each image of the disk means

    ghost predicate Valid()
      reads this, cache
    {
      && cache.Valid() && Lh(l, |cache.disk|, block, n)
      && RegionClean(l, cache.disk, cache.view, cache.uses)
      && outstanding == |ops| && (committing ==> ops == [])
      && Reserved(ops, block[..n])
      && Journal(l, cache.trace, base, commits, epoch)
      && (if committing then
            Progress(l, from, cached, cache.disk, cache.view, cache.uses.pinned, block, n, step)
          else
            step == 0 && Open(l, cache.disk, cache.view, cache.uses, block[..n], if ops == [] then {}
              else cache.uses.held))
    }

    /** The group that the running commit commits, and all its writes. */
    ghost function Group(): (r: Txn)
      requires Valid() && committing
      reads this, cache
      ensures Quiet(l, from) && r.Fits(l, |from|) && |r.blocks| == n
    {
      TxnOf(cached, block, n)
    }

    ghost function Writes(): (r: seq<Image>)
      requires Valid() && committing
      reads this, cache
      ensures |r| == if n == 0 then 0 else 2 * n + 2
    {
      CommitImages(l, from, Group())
    }

    constructor (cache: Cache, l: Layout)
      ensures this.cache == cache && this.l == l
      ensures outstanding == 0 && !committing && n == 0 && |block| == LOGSIZE && step == 0 && ops == []
    {
      this.cache, this.l := cache, l;
      outstanding, committing, n, block, step, ops := 0, false, 0, seq(LOGSIZE, _ => 0), 0, [];
      from, cached, base, commits, epoch := [], [], [], [], [];
    }

    lemma EntriesFit()
      requires Valid()
      ensures n <= |block| && outstanding == |ops|
    {
      hide Cache.Valid, Reserved, RegionClean, Logged, Journal, Progress;
    }

    /** begin_op's loop body: false is "sleep and try again". */
    method BeginOp() returns (ok: bool)
      requires Valid()
      modifies this`outstanding, this`ops
      ensures Valid()
      ensures ok <==> !committing && n + (old(outstanding) + 1) * MAXOPBLOCKS <= LOGSIZE
      ensures ops == if ok then old(ops) + [{}] else old(ops)
    {
      hide Cache.Valid, Reserved, Quiet, RegionClean, Journal, Progress, Logged;
      if committing || n + (outstanding + 1) * MAXOPBLOCKS > LOGSIZE {
        return false;
      }
      ReservedBegin(ops, block[..n]);
      LoggedHeld(l, cache.disk, cache.view, block[..n], if ops == [] then {} else cache.uses.held, cache.uses.held);
      outstanding, ops := outstanding + 1, ops + [{}];
      return true;
    }

    /** end_op up to the commit; its panic on log.committing is unreachable. */
    method EndOp(ghost op: nat) returns (doCommit: bool)
      requires Valid() && op < |ops|
      requires |ops| == 1 ==> Logged(l, cache.disk, cache.view, block[..n], {})
      modifies this`outstanding, this`committing, this`ops, this`from, this`cached
      ensures Valid() && old(!committing) && step == 0
      ensures ops == old(ops)[..op] + old(ops)[op + 1..]
      ensures doCommit == committing == (ops == [])
    {
      hide Cache.Valid, Reserved, Quiet, RegionClean, Journal, Progress, Logged;
      ReservedEnd(ops, block[..n], op);
      outstanding, ops := outstanding - 1, ops[..op] + ops[op + 1..];
      if outstanding == 0 {
        ProgressStarts(l, cache.disk, cache.view, cache.uses.pinned, block, n);
        committing, from, cached := true, cache.disk, cache.view;
      }
      return committing;
    }

    /** log_write; false is the panic "too big a transaction". */
    method LogWrite(b: nat, ghost op: nat) returns (ok: bool)
      requires Valid() && cache.Locked(b) && l.Home(cache.buf[b].blockno)
      requires op < |ops| && |ops[op] + {cache.buf[b].blockno}| <= MAXOPBLOCKS
      modifies this`n, this`block, this`ops, cache`buf, cache`uses
      ensures Valid() && (ok <==> old(n) < LOGSIZE && old(n) < l.size - 1)
      ensures l.size > LOGSIZE && old(cache.buf[b].blockno) !in old(block[..n]) ==> ok
      ensures cache.Locked(b) && cache.buf[b].blockno == old(cache.buf[b].blockno)
              && cache.uses.held == old(cache.uses.held)
      ensures cache.uses.waiting == old(cache.uses.waiting)
      ensures ok ==>
                && ops == old(ops)[op := old(ops)[op] + {old(cache.buf[b].blockno)}]
                && block[..n] == old(block[..n]) + (if old(cache.buf[b].blockno) in old(block[..n]) then []
                                                    else [old(cache.buf[b].blockno)])
      ensures !ok ==> unchanged(this) && unchanged(cache)
    {
      hide Cache.Valid, Reserved, Quiet, Lh, RegionClean, Logged, Journal, Progress;
      LhSizes(l, |cache.disk|, block, n);
      cache.LockedSizes(b);
      var blockno := cache.buf[b].blockno;
      ReservedWrite(ops, block[..n], op, blockno);
      if n >= LOGSIZE || n >= l.size - 1 {
        return false;
      }
      var i := FindLogged(block, n, blockno);
      ops := ops[op := ops[op] + {blockno}];
      if i == n {
        LogBlock(b, blockno);
      } else {
        assert blockno in block[..n];
        block := block[i := blockno];
        assert block == old(block);
      }
      return true;
    }

    /** log_write's addition of a block that is not yet in the log. */
    method LogBlock(b: nat, blockno: nat)
      requires cache.Valid() && Lh(l, |cache.disk|, block, n) && n < l.Slots() && step == 0
      requires RegionClean(l, cache.disk, cache.view, cache.uses) && Journal(l, cache.trace, base, commits, epoch)
      requires Open(l, cache.disk, cache.view, cache.uses, block[..n], cache.uses.held)
      requires cache.Locked(b) && cache.buf[b].blockno == blockno && blockno !in block[..n]
      requires blockno < |cache.disk| && l.Home(blockno)
      requires outstanding == |ops| > 0 && !committing && Reserved(ops, block[..n] + [blockno])
      modifies this`n, this`block, cache`buf, cache`uses
      ensures Valid() && n == old(n) + 1 && block[..n] == old(block[..n]) + [blockno]
      ensures cache.Locked(b) && cache.buf[b].blockno == blockno && cache.uses.held == old(cache.uses.held)
      ensures cache.uses.waiting == old(cache.uses.waiting)
    {
      hide Cache.Valid, Reserved, Quiet, Lh, RegionClean, Logged, Journal, Progress;
      LhSizes(l, |cache.disk|, block, n);
      LhAppend(l, |cache.disk|, block, n, blockno);
      LoggedMore(l, cache.disk, cache.view, block[..n], cache.uses.held, blockno);
      PinMore(block[..n], blockno);
      block := block[n := blockno];
      cache.Bpin(b);
      RegionUses(l, cache.disk, cache.view, old(cache.uses), cache.uses, blockno);
      n := n + 1;
    }

    /** write_log's loop body. */
    method SlotRound() returns (r: Outcome)
      requires Valid() && committing && step < n
      modifies this`step, this`epoch, cache
      ensures Valid()
      ensures r == Panics <==> !Room(old(cache.buf))
      ensures r == Waits <==> Room(old(cache.buf)) && old(block[step]) in old(cache.uses.held)
      ensures r == Made ==> step == old(step) + 1 && cache.trace == old(cache.trace) + [old(Writes())[old(step)]]
      ensures r == Made ==> cache.uses == old(cache.uses) && Room(cache.buf)
      ensures r != Made ==> unchanged(this) && unchanged(cache)
    {
      hide Cache.Valid, Reserved, Quiet, Lh, RegionClean, Logged, Journal, Progress, CommitImages, TxnOf, Uses.Count,
           Room, Txn.Fits;
      cache.TraceEnds();
      ProgressFacts(l, from, cached, cache.disk, cache.view, cache.uses.pinned, block, n, step);
      StillPinned(l, from, cached, cache.disk, cache.view, cache.uses.pinned, block, n, step, step);
      r := Ready(cache, block[step]);
      if r != Made { return; }
      ghost var slot := l.start + step + 1;
      SlotClean(l, cache.disk, cache.view, cache.uses, slot);
      var ok := WriteSlot(cache, l.start + step + 1, block[step]);
      SlotStep(l, from, cached, old(cache.disk), old(cache.view), old(cache.uses).pinned, block, n, step);
      JournalRound(l, old(cache.trace), base, commits, epoch, from, TxnOf(cached, block, n), step);
      RegionUntouched(l, old(cache.disk), old(cache.view), old(cache.uses), slot, old(cache.view)[block[step]],
        cache.uses);
      step, epoch := step + 1, epoch + [|commits|];
    }

    /** commit's first write_head: the commit itself. */
    method HeadRound() returns (r: Outcome)
      requires Valid() && committing && step == n > 0
      modifies this`step, this`commits, this`epoch, cache
      ensures Valid()
      ensures r == (if Room(old(cache.buf)) then Made else Panics)
      ensures r == Made ==> step == old(step) + 1 && cache.trace == old(cache.trace) + [old(Writes())[old(step)]]
      ensures r == Made ==> cache.uses == old(cache.uses) && Room(cache.buf) && commits == old(commits) + [Group()]
      ensures r != Made ==> unchanged(this) && unchanged(cache)
    {
      hide Cache.Valid, Reserved, Quiet, Lh, RegionClean, Logged, Journal, Progress, CommitImages, TxnOf, Uses.Count,
           Room, Txn.Fits, Header;
      cache.TraceEnds();
      ProgressFacts(l, from, cached, cache.disk, cache.view, cache.uses.pinned, block, n, step);
      HeadStep(l, from, cached, cache.disk, cache.view, cache.uses.pinned, block, n);
      SlotClean(l, cache.disk, cache.view, cache.uses, l.start);
      var ok := WriteHeader(cache, l.start, block, n);
      if !ok { return Panics; }
      JournalRound(l, old(cache.trace), base, commits, epoch, from, TxnOf(cached, block, n), step);
      RegionUntouched(l, old(cache.disk), old(cache.view), old(cache.uses), l.start, cache.disk[l.start], cache.uses);
      step, commits, epoch := step + 1, commits + [TxnOf(cached, block, n)], epoch + [|commits| + 1];
      return Made;
    }

    /** install_trans's loop body, in a commit. */
    method InstallRound() returns (r: Outcome)
      requires Valid() && committing && n < step <= 2 * n
      modifies this`step, this`epoch, cache
      ensures Valid()
      ensures r == Panics <==> !Room(old(cache.buf))
      ensures r == Waits <==> Room(old(cache.buf)) && old(block[step - n - 1]) in old(cache.uses.held)
      ensures r == Made ==> step == old(step) + 1 && cache.trace == old(cache.trace) + [old(Writes())[old(step)]]
      ensures r == Made ==> cache.uses == Unpin(old(cache.uses), old(block[step - n - 1])) && Room(cache.buf)
      ensures r != Made ==> unchanged(this) && unchanged(cache)
    {
      hide Cache.Valid, Reserved, Quiet, Lh, RegionClean, Logged, Journal, Progress, CommitImages, TxnOf, Uses.Count,
           Room, Txn.Fits, SameHome, Open;
      cache.TraceEnds();
      SlotHolds(l, from, cached, cache.disk, cache.view, cache.uses.pinned, block, n, step);
      InstallFacts(l, from, cached, cache.disk, cache.view, cache.uses, block, n, step, cache.trace, base, commits,
        epoch);
      var home := block[step - n - 1];
      r := Ready(cache, home);
      if r != Made { return; }
      var ok := InstallSlot(cache, l.start + step - n, home, false);
      step, epoch := step + 1, epoch + [|commits|];
    }

    /** commit's second write_head, with lh.n set to 0. */
    method ClearRound() returns (r: Outcome)
      requires Valid() && committing && step == 2 * n + 1 && n > 0
      modifies this`n, this`step, this`from, this`cached, this`epoch, cache
      ensures Valid()
      ensures r == (if Room(old(cache.buf)) then Made else Panics)
      ensures r == Made ==> n == step == 0 && cache.trace == old(cache.trace) + [old(Writes())[old(step)]]
      ensures r == Made ==> cache.uses == old(cache.uses) && Room(cache.buf) && cache.uses.pinned == multiset{}
      ensures r == Made ==> SameHome(l, cache.view, old(cached)) && SameHome(l, cache.disk, cache.view)
      ensures r != Made ==> unchanged(this) && unchanged(cache)
    {
      hide Cache.Valid, Reserved, Quiet, Lh, RegionClean, Logged, Journal, Progress, CommitImages, TxnOf, Uses.Count,
           Room, Txn.Fits, Header, SameHome;
      cache.TraceEnds();
      ProgressFacts(l, from, cached, cache.disk, cache.view, cache.uses.pinned, block, n, step);
      Cleared(l, from, cached, cache.disk, cache.view, cache.uses, block, n);
      SlotClean(l, cache.disk, cache.view, cache.uses, l.start);
      var ok := WriteHeader(cache, l.start, block, 0);
      if !ok { return Panics; }
      JournalRound(l, old(cache.trace), base, commits, epoch, from, TxnOf(cached, block, n), step);
      n, step, from, cached, epoch := 0, 0, cache.disk, cache.view, epoch + [|commits|];
      return Made;
    }

    /** No process holds a block that the commit has to read. */
    ghost predicate Unheld()
      requires n <= |block|
      reads this, cache
    {
      forall b | b in block[..n] :: b !in cache.uses.held
    }

    /** write_log, with no other process in between. */
    method WriteLog() returns (ok: bool)
      requires Valid() && committing && step == 0 && n <= |block| && Unheld()
      modifies this`step, this`epoch, cache
      ensures Valid() && (ok <==> n == 0 || Room(old(cache.buf)))
      ensures ok ==> step == n && cache.trace == old(cache.trace) + old(Writes())[..n]
      ensures ok ==> cache.uses == old(cache.uses) && (n > 0 ==> Room(cache.buf))
      ensures !ok ==> unchanged(this) && unchanged(cache)
    {
      hide Valid, CommitImages, TxnOf, Room;
      ghost var all := Writes();
      while step < n
        invariant Valid() && step <= n && Writes() == all && cache.uses == old(cache.uses)
        invariant cache.trace == old(cache.trace) + all[..step]
        invariant if step == 0 then unchanged(this) && unchanged(cache) else Room(old(cache.buf)) && Room(cache.buf)
      {
        assert block[step] in block[..n];
        var r := SlotRound();
        if r != Made { return false; }
        assert all[..step] == all[..step - 1] + [all[step - 1]];
      }
      return true;
    }

    /** install_trans in a commit, with no other process in between. */
    method InstallTrans() returns (ok: bool)
      requires Valid() && committing && step == n + 1 && 0 < n <= |block| && Unheld()
      modifies this`step, this`epoch, cache
      ensures Valid() && (ok <==> Room(old(cache.buf)))
      ensures ok ==> step == 2 * n + 1 && cache.trace == old(cache.trace) + old(Writes())[n + 1..2 * n + 1]
      ensures ok ==> cache.uses == old(cache.uses).(pinned := multiset{}) && Room(cache.buf)
      ensures !ok ==> unchanged(this) && unchanged(cache)
    {
      hide Valid, CommitImages, TxnOf, Room;
      ghost var all := Writes();
      while step <= 2 * n
        invariant Valid() && n < step <= 2 * n + 1 && Writes() == all
        invariant cache.uses == old(cache.uses).(pinned := cache.uses.pinned)
        invariant cache.trace == old(cache.trace) + all[n + 1..step]
        invariant if step == n + 1 then unchanged(this) && unchanged(cache) else Room(old(cache.buf)) && Room(cache.buf)
      {
        assert block[step - n - 1] in block[..n];
        var r := InstallRound();
        if r != Made { return false; }
        assert all[n + 1..step] == all[n + 1..step - 1] + [all[step - 1]];
      }
      AllUnpinned();
      return true;
    }

    lemma AllUnpinned()
      requires Valid() && committing && step == 2 * n + 1
      ensures cache.uses.pinned == multiset{}
    {
      hide Cache.Valid, Reserved, Lh, RegionClean, Logged, Journal, Progress;
      NonePinned(l, from, cached, cache.disk, cache.view, cache.uses.pinned, block, n);
    }

    /** commit, with no other process in between; false is bget's panic.  It is the
        run of the rounds above, and comes to its end exactly if one buffer is free. */
    method Commit() returns (ok: bool)
      requires Valid() && committing && step == 0 && n <= |block| && Unheld()
      modifies this`n, this`step, this`from, this`cached, this`commits, this`epoch, cache
      ensures Valid() && (ok <==> old(n) == 0 || Room(old(cache.buf)))
      ensures ok ==> n == step == 0 && cache.trace == old(cache.trace) + old(Writes())
      ensures ok ==> commits == old(commits) + if old(n) == 0 then [] else [old(Group())]
      ensures ok ==> cache.uses == old(cache.uses).(pinned := multiset{})
      ensures ok ==> SameHome(l, cache.view, old(cache.view)) && SameHome(l, cache.disk, cache.view)
      ensures !ok ==> unchanged(this) && unchanged(cache)
    {
      hide Valid, CommitImages, TxnOf, Room, SameHome;
      Starts();
      if n == 0 { return true; }
      ghost var all, m := Writes(), n;
      ok := WriteLog();
      if !ok { return; }
      var r := HeadRound();
      ok := InstallTrans();
      r := ClearRound();
      InParts(old(cache.trace), all, m);
      SameHomeTwice(l, cache.view, old(cached), old(cache.view));
    }

    lemma Starts()
      requires Valid() && committing && step == 0
      ensures SameHome(l, cached, cache.view) && from == cache.disk
      ensures n == 0 ==> cache.uses.pinned == multiset{} && Writes() == []
      ensures n == 0 ==> SameHome(l, cache.view, cache.view) && SameHome(l, cache.disk, cache.view)
    {
      hide Cache.Valid, Reserved, Quiet, Lh, RegionClean, Logged, Journal, Progress, CommitImages, TxnOf, Uses.Count,
           Txn.Fits, SameHome;
      CommitStarts(l, from, cached, cache.disk, cache.view, cache.uses.pinned, block, n);
    }

    /** The end of end_op. */
    method EndCommit()
      requires Valid() && committing && n == 0
      modifies this`committing
      ensures Valid() && !committing
    {
      hide Cache.Valid, Reserved, Quiet, Lh, RegionClean, Logged, Journal;
      assert block[0..0] == block[..0];
      committing := false;
    }

    /** install_trans in recovery. */
    method InstallRecovering()
      requires cache.Valid() && l.Sound(cache.disk) && cache.view == cache.disk && cache.trace == [cache.disk]
      requires cache.uses == Uses(multiset{}, multiset{}, {}) && n == l.N(cache.disk) && |block| == LOGSIZE
      requires forall t | 0 <= t < n :: block[t] == l.Dst(cache.disk, t)
      modifies cache
      ensures cache.Valid() && cache.view == cache.disk && cache.uses == old(cache.uses)
      ensures cache.disk == After(old(cache.disk), InstallImages(l, old(cache.disk), 0), n)
      ensures cache.trace == old(cache.trace) + InstallImages(l, old(cache.disk), 0)
    {
      hide Linked, Sorted, Coherent, InstallImages, Room, After;
      ghost var img := cache.disk;
      ghost var s := InstallImages(l, img, 0);
      RecoveryStarts(l, img);
      var t := 0;
      while t < n
        invariant 0 <= t <= n == |s| && |cache.disk| == |img|
        invariant cache.Valid() && cache.view == cache.disk && cache.uses == old(cache.uses)
        invariant cache.disk == After(img, s, t) && cache.trace == [img] + s[..t]
      {
        RecoveryStep(l, img, t);
        IdleFree(cache);
        var _ := InstallSlot(cache, l.start + t + 1, block[t], true);
        assert s[..t + 1] == s[..t] + [s[t]];
        t := t + 1;
      }
      assert s[..n] == s;
    }

    /** recover_from_log, at boot: it always comes to its end. */
    method RecoverFromLog()
      requires cache.Valid() && l.Sound(cache.disk) && cache.view == cache.disk && cache.trace == [cache.disk]
      requires cache.uses == Uses(multiset{}, multiset{}, {}) && outstanding == 0 && ops == [] && !committing
               && step == 0
      modifies this`n, this`block, this`base, this`commits, this`epoch, cache
      ensures Valid() && n == 0 && cache.uses == old(cache.uses)
      ensures cache.trace == old(cache.trace) + RecoveryImages(l, old(cache.disk))
      ensures Means(l, old(cache.disk), cache.disk) && cache.view == cache.disk == base && commits == []
    {
      hide Linked, Sorted, Coherent, RecoveryImages, InstallImages, Journal, Means, Room, After, Header, Quiet, Lh,
        RegionClean, Open, Reserved;
      ghost var img := cache.disk;
      IdleFree(cache);
      var ok, n', block' := ReadHeader(cache, l);
      n, block := n', block';
      InstallRecovering();
      RecoveryEnds(l, img, block);
      IdleFree(cache);
      ok := WriteHeader(cache, l.start, block, 0);
      n := 0;
      Recovered(l, img);
      FreshLog(l, cache.disk, cache.uses, block);
      base, commits, epoch := cache.disk, [], Zeros(|cache.trace|);
      assert cache.trace == [img] + RecoveryImages(l, img) && cache.view == cache.disk;
    }

    /** A file system call reads a home block, in a transaction or not, also during a commit. */
    method Read(blockno: nat) returns (r: Option<nat>, asleep: bool)
      requires Valid() && blockno < |cache.disk| && l.Home(blockno)
      modifies cache
      ensures Valid() && cache.view == old(cache.view) && cache.disk == old(cache.disk)
              && cache.trace == old(cache.trace)
      ensures r.None? <==> Exhausted(old(cache.buf), old(cache.index), blockno)
      ensures r.None? ==> cache.uses == old(cache.uses)
      ensures asleep <==> blockno in old(cache.uses.held)
      ensures r.Some? && !asleep ==> cache.Locked(r.value) && cache.buf[r.value].blockno == blockno
                                     && cache.buf[r.value].data == cache.view[blockno]
      ensures r.Some? ==>
                cache.uses == if asleep then old(cache.uses).(waiting := old(cache.uses).waiting + multiset{blockno})
                              else old(cache.uses).(held := old(cache.uses).held + {blockno})
    {
      hide Linked, Sorted, Coherent, Reserved, Lh, Quiet, RegionClean, Logged, Journal, Progress, Exhausted;
      LhSizes(l, |cache.disk|, block, n);
      Sizes(cache.buf, cache.index, cache.uses, cache.disk, cache.view);
      r, asleep := cache.Bread(ROOTDEV, blockno);
      RegionUses(l, cache.disk, cache.view, old(cache.uses), cache.uses, blockno);
      if !committing && ops != [] {
        LoggedHeld(l, cache.disk, cache.view, block[..n], old(cache.uses).held, cache.uses.held);
      }
    }

    /** The rest of the read, when the sleeping process gets the lock. */
    method Resume(b: nat)
      requires Valid() && b < |cache.buf| && cache.buf[b].dev == ROOTDEV && !cache.buf[b].locked
      requires cache.buf[b].blockno in cache.uses.waiting && l.Home(cache.buf[b].blockno)
      modifies cache
      ensures Valid() && cache.view == old(cache.view) && cache.disk == old(cache.disk)
              && cache.trace == old(cache.trace)
      ensures cache.Locked(b) && cache.buf[b].blockno == old(cache.buf[b].blockno) < |cache.view|
      ensures cache.buf[b].data == cache.view[cache.buf[b].blockno]
      ensures cache.uses == old(cache.uses).(waiting := old(cache.uses).waiting - multiset{cache.buf[b].blockno},
                                             held := old(cache.uses).held + {cache.buf[b].blockno})
    {
      hide Linked, Sorted, Coherent, Reserved, Lh, Quiet, RegionClean, Logged, Journal, Progress;
      LhSizes(l, |cache.disk|, block, n);
      Sizes(cache.buf, cache.index, cache.uses, cache.disk, cache.view);
      cache.Wake(b);
      RegionUses(l, cache.disk, cache.view, old(cache.uses), cache.uses, cache.buf[b].blockno);
      if !committing && ops != [] {
        LoggedHeld(l, cache.disk, cache.view, block[..n], old(cache.uses).held, cache.uses.held);
      }
    }

    /** It changes the block it holds, inside a transaction. */
    method Modify(b: nat, data: Block)
      requires Valid() && cache.Locked(b) && l.Home(cache.buf[b].blockno) && ops != []
      modifies cache
      ensures Valid() && cache.Locked(b) && cache.buf[b] == old(cache.buf[b]).(data := data)
      ensures cache.view == old(cache.view)[cache.buf[b].blockno := data] && cache.uses == old(cache.uses)
      ensures cache.disk == old(cache.disk) && cache.trace == old(cache.trace)
    {
      hide Linked, Sorted, Coherent, Reserved, Lh, Quiet, Journal, Progress, Uses.Count;
      cache.LockedSizes(b);
      cache.Store(b, data);
    }

    /** And lets go of it: inside a transaction unmodified or logged, outside and
        during a commit as it is. */
    method Release(b: nat)
      requires Valid() && cache.Locked(b) && l.Home(cache.buf[b].blockno) && n <= |block|
      requires ops == [] || OnDisk(cache.disk, cache.view, cache.buf[b].blockno) || cache.buf[b].blockno in block[..n]
      modifies cache
      ensures Valid() && cache.view == old(cache.view) && cache.disk == old(cache.disk)
              && cache.trace == old(cache.trace)
      ensures cache.uses == old(cache.uses).(held := old(cache.uses).held - {old(cache.buf[b].blockno)})
    {
      hide Linked, Sorted, Coherent, Reserved, Lh, Quiet, RegionClean, Logged, Journal, Progress, Uses.Count;
      cache.LockedSizes(b);
      ghost var blockno := cache.buf[b].blockno;
      LogKeepsIt(blockno);
      cache.Brelse(b);
      RegionFewer(l, cache.disk, cache.view, old(cache.uses), cache.uses);
      if !committing && ops != [] {
        LoggedFree(l, cache.disk, cache.view, block[..n], old(cache.uses).held, blockno);
      }
    }

    /** A held block whose latest contents are not on disk is pinned, unless a running
        operation has still to log it. */
    lemma LogKeepsIt(b: nat)
      requires Valid() && b in cache.uses.held && l.Home(b) && b < |cache.disk| && n <= |block|
      requires ops == [] || OnDisk(cache.disk, cache.view, b) || b in block[..n]
      ensures OnDisk(cache.disk, cache.view, b) || cache.uses.Count(b) > 1
    {
      hide Cache.Valid, Reserved, Lh, Quiet, RegionClean, Journal;
    }

    /** Between commits the disk has the committed groups in place. */
    lemma CommitsOnDisk()
      requires Valid() && !committing
      ensures SameHome(l, cache.disk, Applying(base, commits, |commits|))
    {
      hide Cache.Valid, Reserved, Lh, RegionClean, Logged, Means, Applying, Quiet, SameHome;
      cache.TraceEnds();
      QuietMeans(l, cache.disk);
      MeansOne(l, cache.disk, cache.disk, Applying(base, commits, |commits|));
    }

    /* -------- how much fits -------- */

    /** With fewer than NBUF blocks logged and no other block in use, a commit has its buffer. */
    lemma CommitRoom()
      requires Valid() && n <= |block| && n < NBUF && forall b: nat | cache.uses.Count(b) > 0 :: b in block[..n]
      ensures Room(cache.buf)
    {
      hide Linked, Sorted, Coherent, Reserved, RegionClean, Journal, Progress, Open, Room, Uses.Count;
      var used := set b | b in block[..n];
      NoDupSize(block[..n]);
      SomeRoom(cache.buf, cache.index, cache.uses, cache.disk, cache.view, used);
    }

    /** So in a log of at most LOGSIZE blocks, as mkfs makes it, a commit panics only if other
        blocks are in use. */
    lemma SmallLogCommits()
      requires Valid() && n <= |block| && l.size <= LOGSIZE
      requires forall b: nat | cache.uses.Count(b) > 0 :: b in block[..n]
      ensures Room(cache.buf)
    {
      LhSizes(l, |cache.disk|, block, n);
      CommitRoom();
    }

    /** With NBUF blocks logged every buffer is pinned, so a commit cannot even start. */
    lemma FullLog()
      requires Valid() && n == NBUF && step <= n
      ensures !Room(cache.buf)
    {
      hide Linked, Sorted, Coherent, Reserved, RegionClean, Journal, Room, Before, Logged, Quiet, SameHome, Txn.Fits;
      var blocks := block[..n];
      assert block[0..n] == blocks;
      forall t | 0 <= t < NBUF ensures cache.uses.Count(blocks[t]) > 0 {
        assert blocks[t] in multiset(blocks);
      }
      NoRoom(cache.buf, cache.index, cache.uses, cache.disk, cache.view, blocks);
    }

    /** Three operations log these blocks, each at most MAXOPBLOCKS of them. */
    method Fill(blocks: seq<nat>, data: Block)
      requires Valid() && !committing && ops == [] && n == 0 && cache.uses == Uses(multiset{}, multiset{}, {})
      requires NoDup(blocks) && |blocks| <= l.Slots()
      requires forall t | 0 <= t < |blocks| :: blocks[t] < |cache.disk| && l.Home(blocks[t])
      modifies this`outstanding, this`n, this`block, this`ops, cache
      ensures Valid() && |ops| == 3 && n == |blocks| <= |block| && block[..n] == blocks
      ensures cache.uses == Uses(multiset(blocks), multiset{}, {}) && |cache.disk| == |old(cache.disk)|
      ensures forall o | 0 <= o < 3 :: |ops[o]| <= Spent(|blocks|, o)
    {
      hide Valid, Spent, NoDup;
      BeginThree();
      var i := 0;
      while i < |blocks|
        invariant Valid() && i <= |blocks| && n == i <= |block| && block[..n] == blocks[..i] && |ops| == 3
        invariant cache.uses == Uses(multiset(blocks[..i]), multiset{}, {}) && cache.disk == old(cache.disk)
        invariant |ops[0]| <= Spent(i, 0) && |ops[1]| <= Spent(i, 1) && |ops[2]| <= Spent(i, 2)
      {
        SpentNext(i);
        FirstBlocks(blocks, i);
        LogOne(blocks[i], data, i / MAXOPBLOCKS);
        i := i + 1;
      }
      assert blocks[..i] == blocks;
    }

    /** Three operations begin. */
    method BeginThree()
      requires Valid() && !committing && ops == [] && n == 0
      modifies this`outstanding, this`ops
      ensures Valid() && ops == [{}, {}, {}] && n <= |block|
    {
      hide Valid;
      EntriesFit();
      var _ := BeginOp();
      EntriesFit();
      var _ := BeginOp();
      EntriesFit();
      var _ := BeginOp();
    }

    /** In a log of at most LOGSIZE blocks, operations within their budgets come to a point
        where log_write panics on a new block. */
    method Overfill(blocks: seq<nat>, data: Block) returns (ok: bool)
      requires Valid() && !committing && ops == [] && n == 0 && cache.uses == Uses(multiset{}, multiset{}, {})
      requires 0 < l.size <= LOGSIZE && |blocks| == l.size && NoDup(blocks)
      requires forall t | 0 <= t < |blocks| :: blocks[t] < |cache.disk| && l.Home(blocks[t])
      modifies this`outstanding, this`n, this`block, this`ops, cache
      ensures Valid() && !ok && n == l.size - 1
    {
      hide Cache.Valid, Reserved, Quiet, Lh, RegionClean, Logged, Journal, Progress, Uses.Count, Room;
      var last := l.size - 1;
      Fill(blocks[..last], data);
      NoOthers(block[..n], cache.uses);
      SmallLogCommits();
      RoomGets(cache.buf, cache.index, blocks[last]);
      var b, _ := Read(blocks[last]);
      ok := LogWrite(b.value, last / MAXOPBLOCKS);
    }

    /** In a larger log they come to a point where all NBUF buffers are pinned, so that
        their commit panics. */
    method FillAndCommit(blocks: seq<nat>, data: Block) returns (ok: bool)
      requires Valid() && !committing && ops == [] && n == 0 && cache.uses == Uses(multiset{}, multiset{}, {})
      requires l.size > LOGSIZE && |blocks| == LOGSIZE && NoDup(blocks)
      requires forall t | 0 <= t < |blocks| :: blocks[t] < |cache.disk| && l.Home(blocks[t])
      modifies this, cache
      ensures Valid() && !ok && n == LOGSIZE
    {
      hide Cache.Valid, Reserved, Quiet, Lh, RegionClean, Logged, Journal, Progress, Uses.Count, Room;
      Fill(blocks, data);
      var _ := EndOp(0);
      var _ := EndOp(0);
      var _ := EndOp(0);
      FullLog();
      ok := Commit();
    }

    /** An operation reads, changes, logs and releases one more block. */
    method LogOne(blockno: nat, data: Block, ghost op: nat)
      requires Valid() && n <= |block| && blockno < |cache.disk| && l.Home(blockno) && blockno !in block[..n]
      requires n < l.Slots() && cache.uses == Uses(multiset(block[..n]), multiset{}, {})
      requires op < |ops| && |ops[op]| < MAXOPBLOCKS
      modifies this`n, this`block, this`ops, cache
      ensures Valid() && n == old(n) + 1 <= |block| && block[..n] == old(block[..n]) + [blockno]
      ensures cache.uses == Uses(multiset(block[..n]), multiset{}, {}) && cache.disk == old(cache.disk)
      ensures |ops| == |old(ops)| && (forall o | 0 <= o < |ops| && o != op :: ops[o] == old(ops)[o])
      ensures |ops[op]| <= |old(ops)[op]| + 1
    {
      hide Cache.Valid, Reserved, Quiet, Lh, RegionClean, Logged, Journal, Progress, Uses.Count, Room;
      NoOthers(block[..n], cache.uses);
      CommitRoom();
      RoomGets(cache.buf, cache.index, blockno);
      var b, _ := Read(blockno);
      Modify(b.value, data);
      var _ := LogWrite(b.value, op);
      LhSizes(l, |cache.disk|, block, n);
      Release(b.value);
    }
  }

  lemma NoOthers(blocks: seq<nat>, u: Uses)
    requires u == Uses(multiset(blocks), multiset{}, {})
    ensures forall b: nat | u.Count(b) > 0 :: b in blocks
  {
  }

  lemma RoomGets(buf: seq<Buf>, index: map<nat, nat>, blockno: nat)
    requires Room(buf)
    ensures !Exhausted(buf, index, blockno)
  {
  }

  /** How much of k blocks, MAXOPBLOCKS at a time, falls to operation o. */
  function Spent(k: nat, o: nat): nat {
    if k <= o * MAXOPBLOCKS then 0 else if k - o * MAXOPBLOCKS <= MAXOPBLOCKS then k - o * MAXOPBLOCKS else MAXOPBLOCKS
  }

  lemma SpentNext(k: nat)
    requires k < LOGSIZE
    ensures k / MAXOPBLOCKS < 3 && Spent(k, k / MAXOPBLOCKS) < MAXOPBLOCKS
    ensures Spent(k + 1, k / MAXOPBLOCKS) == Spent(k, k / MAXOPBLOCKS) + 1
    ensures Spent(k, 0) <= Spent(k + 1, 0) && Spent(k, 1) <= Spent(k + 1, 1) && Spent(k, 2) <= Spent(k + 1, 2)
  {
  }

  lemma FirstBlocks(blocks: seq<nat>, i: nat)
    requires NoDup(blocks) && i < |blocks|
    ensures blocks[..i + 1] == blocks[..i] + [blocks[i]] && blocks[i] !in blocks[..i]
  {
  }
}
