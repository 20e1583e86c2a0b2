/** The file system core (kernel/fs.c): block allocator, block map, truncation,
    and reading and writing inodes. */
module FileSystem {
  import opened Common
  import opened Seqs
  import opened Inodes
  import opened Bitmap
  import CrashLog

  const IPB: nat := 16   // BSIZE / sizeof(struct dinode)

  /** What filewrite writes in one transaction, in bytes. */
  const CHUNK: nat := ((CrashLog.MAXOPBLOCKS - 1 - 1 - 2) / 2) * BSIZE

  /** A bit is set exactly for metadata and owned blocks. */
  ghost predicate Bits(bitmap: Map, owned: set<nat>, lo: nat, hi: nat) {
    && Covers(bitmap, hi)
    && (forall b: nat | b < hi :: Bit(bitmap, b) <==> b < lo || b in owned)
  }

  /** What is left of the map when the keys below k of file i are taken out. */
  ghost function Beyond<T>(m: map<(nat, nat), T>, i: nat, k: nat): map<(nat, nat), T> {
    map p | p in m && !(p.0 == i && p.1 < k) :: m[p]
  }

  lemma BeyondNone<T>(m: map<(nat, nat), T>, i: nat)
    ensures Beyond(m, i, 0) == m
  {
  }

  lemma BeyondNext<T>(m: map<(nat, nat), T>, i: nat, k: nat)
    ensures Beyond(m, i, k) - {(i, k)} == Beyond(m, i, k + 1)
    ensures (i, k) !in Beyond(m, i, k) ==> Beyond(m, i, k + 1) == Beyond(m, i, k)
  {
    assert Beyond(m, i, k) - {(i, k)} == Beyond(m, i, k + 1);
  }

  /** The pages of all files but one. */
  ghost function DropFile(pages: Pages, i: nat): Pages {
    map p | p in pages && p.0 != i :: pages[p]
  }

  lemma OwnerAt(inodes: seq<Inode>, data: seq<Block>, slots: Slots, owner: Owner, pages: Pages, lo: nat, s: (nat, nat))
    requires Good(inodes, data, slots, owner, pages, lo) && s in slots
    ensures slots[s] in owner && owner[slots[s]] == s && lo <= slots[s] < |data|
  {
  }

  lemma PagesAt(inodes: seq<Inode>, data: seq<Block>, slots: Slots, owner: Owner, pages: Pages, lo: nat, i: nat,
                bn: nat)
    requires Good(inodes, data, slots, owner, pages, lo)
    ensures (i, bn) in pages <==> bn < MAXFILE && (i, Idx(bn)) in slots
  {
  }

  /** What an address field says of its slot. */
  lemma SlotAt(inodes: seq<Inode>, data: seq<Block>, slots: Slots, owner: Owner, pages: Pages, lo: nat, i: nat, k: nat)
    requires Good(inodes, data, slots, owner, pages, lo) && i < |inodes| && k <= NDIRECT
    ensures Shaped(inodes[i], data)
    ensures inodes[i].addrs[k] == 0 <==> (i, k) !in slots
    ensures (i, k) in slots ==> slots[(i, k)] == inodes[i].addrs[k] < |data|
  {
    assert Slot(inodes[i], data, k) == inodes[i].addrs[k];
  }

  lemma EntryNeedsBlock(inodes: seq<Inode>, data: seq<Block>, slots: Slots, owner: Owner, pages: Pages, lo: nat,
                        i: nat, j: nat)
    requires Good(inodes, data, slots, owner, pages, lo) && i < |inodes| && j < NINDIRECT
    ensures (i, NDIRECT + 1 + j) in slots ==> (i, NDIRECT) in slots
  {
    assert Slot(inodes[i], data, NDIRECT + 1 + j) == 0 || inodes[i].addrs[NDIRECT] != 0;
    assert Slot(inodes[i], data, NDIRECT) == inodes[i].addrs[NDIRECT];
  }

  /** What an indirect entry says of its slot. */
  lemma EntryAt(inodes: seq<Inode>, data: seq<Block>, slots: Slots, owner: Owner, pages: Pages, lo: nat, i: nat, j: nat)
    requires Good(inodes, data, slots, owner, pages, lo) && i < |inodes| && j < NINDIRECT && (i, NDIRECT) in slots
    ensures var ind := slots[(i, NDIRECT)];
            && Shaped(inodes[i], data) && ind == inodes[i].addrs[NDIRECT] < |data| && |data[ind].bytes| == BSIZE
            && (Word(data[ind], j) == 0 <==> (i, NDIRECT + 1 + j) !in slots)
            && ((i, NDIRECT + 1 + j) in slots ==> slots[(i, NDIRECT + 1 + j)] == Word(data[ind], j) < |data|)
  {
    assert Slot(inodes[i], data, NDIRECT) == inodes[i].addrs[NDIRECT];
    assert Slot(inodes[i], data, NDIRECT + 1 + j) == Word(data[slots[(i, NDIRECT)]], j);
  }

  lemma GoodResize(inodes: seq<Inode>, data: seq<Block>, slots: Slots, owner: Owner, pages: Pages, lo: nat, i: nat,
                   ino: Inode)
    requires Good(inodes, data, slots, owner, pages, lo) && i < |inodes| && ino.addrs == inodes[i].addrs
    ensures Good(inodes[i := ino], data, slots, owner, pages, lo)
  {
    SameAddrs(inodes, data, slots, i, ino);
  }

  /** What is still allocated once itrunc has freed the first j indirect entries. */
  ghost function Left(owner: Owner, i: nat, j: nat): set<nat> {
    set b | b in owner && !(owner[b].0 == i && NDIRECT < owner[b].1 <= NDIRECT + j)
  }

  lemma LeftNone(owner: Owner, i: nat)
    ensures Left(owner, i, 0) == owner.Keys
  {
  }

  lemma LeftNext(inodes: seq<Inode>, data: seq<Block>, slots: Slots, owner: Owner, pages: Pages, lo: nat, i: nat,
                 j: nat)
    requires Good(inodes, data, slots, owner, pages, lo)
    ensures var s := (i, NDIRECT + 1 + j);
            && (s in slots ==> slots[s] in Left(owner, i, j))
            && Left(owner, i, j + 1) == if s in slots then Left(owner, i, j) - {slots[s]} else Left(owner, i, j)
  {
    hide Reads, Paged;
    var s := (i, NDIRECT + 1 + j);
    forall b | b in owner
      ensures b in Left(owner, i, j + 1) <==> b in Left(owner, i, j) && !(s in slots && b == slots[s])
    {
      assert slots[owner[b]] == b;
    }
  }

  lemma LeftAll(inodes: seq<Inode>, data: seq<Block>, slots: Slots, owner: Owner, pages: Pages, lo: nat, i: nat)
    requires Good(inodes, data, slots, owner, pages, lo) && (i, NDIRECT) in slots
    ensures slots[(i, NDIRECT)] in Left(owner, i, NINDIRECT)
    ensures CutOwner(owner, i).Keys == Left(owner, i, NINDIRECT) - {slots[(i, NDIRECT)]}
  {
    var ind := slots[(i, NDIRECT)];
    forall b | b in owner
      ensures b in CutOwner(owner, i) <==> b in Left(owner, i, NINDIRECT) && b != ind
    {
      assert slots[owner[b]] == b && owner[b].1 < SLOTS;
    }
  }

  lemma NoIndirect(inodes: seq<Inode>, data: seq<Block>, slots: Slots, owner: Owner, pages: Pages, lo: nat, i: nat)
    requires Good(inodes, data, slots, owner, pages, lo) && i < |inodes| && (i, NDIRECT) !in slots
    ensures CutPages(pages, i) == pages && CutSlots(slots, i) == slots
  {
    hide Good;
    forall s | s in slots && s.0 == i ensures s.1 < NDIRECT {
      SlotInRange(inodes, data, slots, owner, pages, lo, s);
      if s.1 > NDIRECT {
        EntryNeedsBlock(inodes, data, slots, owner, pages, lo, i, s.1 - NDIRECT - 1);
      }
    }
    forall p | p in pages && p.0 == i ensures p.1 < NDIRECT {
      PagesAt(inodes, data, slots, owner, pages, lo, i, p.1);
    }
    assert CutPages(pages, i) == pages;
    assert CutSlots(slots, i) == slots;
  }

  lemma SlotInRange(inodes: seq<Inode>, data: seq<Block>, slots: Slots, owner: Owner, pages: Pages, lo: nat,
                    s: (nat, nat))
    requires Good(inodes, data, slots, owner, pages, lo) && s in slots
    ensures s.0 < |inodes| && s.1 < SLOTS
  {
  }

  /* -------- how many blocks there are -------- */

  /** `busy` are blocks that other processes have taken and not yet put in a slot, or
      taken out of one and not yet freed. */
  ghost predicate Apart(owner: Owner, busy: set<nat>, lo: nat, hi: nat) {
    lo <= hi && busy !! owner.Keys && forall b | b in busy :: lo <= b < hi
  }

  ghost predicate NoneFree(owner: Owner, busy: set<nat>, lo: nat, hi: nat) {
    forall b: nat | lo <= b < hi :: b in owner || b in busy
  }

  /** A block claimed, and a block given up. */
  lemma ApartClaim(owner: Owner, busy: set<nat>, lo: nat, hi: nat, b: nat, s: (nat, nat))
    requires Apart(owner, busy, lo, hi) && b !in busy
    ensures Apart(owner[b := s], busy, lo, hi) && owner[b := s].Keys + busy == owner.Keys + busy + {b}
  {
  }

  lemma ApartFree(owner: Owner, busy: set<nat>, lo: nat, hi: nat, b: nat)
    requires Apart(owner, busy, lo, hi) && b in owner
    ensures Apart(owner - {b}, busy, lo, hi) && (owner - {b}).Keys + busy == owner.Keys + busy - {b}
  {
  }

  lemma ApartLeft(owner: Owner, busy: set<nat>, lo: nat, hi: nat, left: set<nat>, b: nat)
    requires Apart(owner, busy, lo, hi) && b in owner
    ensures left - {b} + busy == left + busy - {b}
  {
  }

  lemma ApartCut(owner: Owner, busy: set<nat>, lo: nat, hi: nat, i: nat)
    requires Apart(owner, busy, lo, hi)
    ensures Apart(CutOwner(owner, i), busy, lo, hi)
  {
  }

  lemma {:induction false} AsManySlots(slots: Slots, owner: Owner, lo: nat, hi: nat)
    requires Owns(slots, owner, lo, hi)
    ensures |slots.Keys| == |owner.Keys|
    decreases |owner|
  {
    if owner.Keys == {} {
      assert slots.Keys == {};
    } else {
      var b :| b in owner;
      var s := owner[b];
      AsManySlots(slots - {s}, owner - {b}, lo, hi);
      assert (slots - {s}).Keys == slots.Keys - {s} && (owner - {b}).Keys == owner.Keys - {b};
    }
  }

  ghost function Range(lo: nat, hi: nat): (r: set<nat>)
    requires lo <= hi
    ensures |r| == hi - lo && forall b: nat :: b in r <==> lo <= b < hi
  {
    if lo == hi then {} else Range(lo, hi - 1) + {hi - 1}
  }

  lemma FullIff(used: set<nat>, all: set<nat>)
    requires used <= all
    ensures |used| <= |all| && (used == all <==> |used| == |all|)
  {
    SubsetSize(used, all);
    if used != all {
      var b :| b in all && b !in used;
      SubsetSize(used, all - {b});
    }
  }

  /** The slots and the blocks in flight never outnumber the data blocks, and equal them
      exactly if no block is free. */
  lemma Capacity(slots: Slots, owner: Owner, busy: set<nat>, lo: nat, hi: nat)
    requires Owns(slots, owner, lo, hi) && Apart(owner, busy, lo, hi)
    ensures |slots.Keys| + |busy| <= hi - lo
    ensures NoneFree(owner, busy, lo, hi) <==> |slots.Keys| + |busy| == hi - lo
  {
    hide Range;
    AsManySlots(slots, owner, lo, hi);
    var used, all := owner.Keys + busy, Range(lo, hi);
    assert |used| == |owner.Keys| + |busy|;
    FullIff(used, all);
    assert used == all <==> NoneFree(owner, busy, lo, hi);
  }

  /** The slots that the bn-th block of file i needs. */
  ghost function Wants(i: nat, bn: nat): set<(nat, nat)> {
    if bn < NDIRECT then {(i, bn)} else {(i, NDIRECT), (i, bn + 1)}
  }

  /** And those that its blocks from a up to b need. */
  ghost function Wanted(i: nat, a: nat, b: nat): set<(nat, nat)> {
    if a >= b then {} else Wanted(i, a, b - 1) + Wants(i, b - 1)
  }

  lemma {:induction false} WantedMore(i: nat, a: nat, b: nat, c: nat)
    requires b <= c
    ensures Wanted(i, a, b) <= Wanted(i, a, c)
    decreases c
  {
    if b < c {
      WantedMore(i, a, b, c - 1);
    }
  }

  /** With these slots filled there would be more blocks in use than the disk has. */
  ghost predicate Short(slots: Slots, wanted: set<(nat, nat)>, busy: set<nat>, blocks: int) {
    |slots.Keys + wanted| + |busy| > blocks
  }

  lemma ShortMore(slots: Slots, wanted: set<(nat, nat)>, more: set<(nat, nat)>, busy: set<nat>, blocks: int)
    requires Short(slots, wanted, busy, blocks) && wanted <= more
    ensures Short(slots, more, busy, blocks)
  {
    SubsetSize(slots.Keys + wanted, slots.Keys + more);
  }

  lemma EntryShort(slots: Slots, i: nat, j: nat, busy: set<nat>, blocks: int)
    ensures Short(slots, {(i, NDIRECT)}, busy, blocks) ==> Short(slots, Wants(i, NDIRECT + j), busy, blocks)
  {
    if Short(slots, {(i, NDIRECT)}, busy, blocks) {
      ShortMore(slots, {(i, NDIRECT)}, Wants(i, NDIRECT + j), busy, blocks);
    }
  }

  /** The end of the blocks that n bytes from off on are in. */
  function Stop(off: nat, n: nat): nat {
    if n == 0 then off / BSIZE else (off + n - 1) / BSIZE + 1
  }

  /** A round of readi or writei goes on with the block of its offset. */
  lemma StopNext(i: nat, off: nat, tot: nat, m: nat, n: nat)
    requires 0 < m <= BSIZE - (off + tot) % BSIZE && tot + m <= n
    ensures Stop(off, tot + m) == (off + tot) / BSIZE + 1 <= Stop(off, n)
    ensures Wanted(i, off / BSIZE, Stop(off, tot + m)) ==
            Wanted(i, off / BSIZE, Stop(off, tot)) + Wants(i, (off + tot) / BSIZE)
  {
    var bn := (off + tot) / BSIZE;
    assert (off + tot + m - 1) / BSIZE == bn;
    assert (off + tot + m - 1) / BSIZE <= (off + n - 1) / BSIZE;
    assert Stop(off, tot) == bn || Stop(off, tot) == bn + 1;
    assert off / BSIZE <= bn;
  }

  /** These slots and no others have been filled. */
  ghost predicate Grew(was: Slots, now: Slots, wanted: set<(nat, nat)>) {
    now.Keys == was.Keys + wanted
  }

  lemma GrewOne(was: Slots, s: (nat, nat), b: nat)
    ensures Grew(was, was[s := b], {s})
    ensures s in was ==> Grew(was, was, {s})
  {
  }

  /** First the indirect block's slot, then the entry's. */
  lemma GrewEntry(was: Slots, mid: Slots, now: Slots, i: nat, j: nat)
    requires Grew(was, mid, {(i, NDIRECT)}) && Grew(mid, now, {(i, NDIRECT + 1 + j)})
    ensures Grew(was, now, Wants(i, NDIRECT + j))
  {
  }

  lemma GrewNone(slots: Slots, i: nat, off: nat)
    ensures Grew(slots, slots, Wanted(i, off / BSIZE, Stop(off, 0)))
  {
  }

  lemma GrewRound(was: Slots, had: Slots, now: Slots, i: nat, off: nat, tot: nat, m: nat)
    requires 0 < m <= BSIZE - (off + tot) % BSIZE && Grew(was, had, Wanted(i, off / BSIZE, Stop(off, tot)))
    requires Grew(had, now, Wants(i, (off + tot) / BSIZE))
    ensures Grew(was, now, Wanted(i, off / BSIZE, Stop(off, tot + m)))
  {
    StopNext(i, off, tot, m, tot + m);
  }

  /** A round that finds too few blocks means that there are too few in all. */
  lemma RoundShort(was: Slots, now: Slots, i: nat, off: nat, tot: nat, m: nat, n: nat, busy: set<nat>, blocks: int)
    requires 0 < m <= BSIZE - (off + tot) % BSIZE && tot + m <= n
    requires Grew(was, now, Wanted(i, off / BSIZE, Stop(off, tot)))
    ensures Short(now, Wants(i, (off + tot) / BSIZE), busy, blocks) ==>
              Short(was, Wanted(i, off / BSIZE, Stop(off, n)), busy, blocks)
  {
    StopNext(i, off, tot, m, n);
    var next := Wanted(i, off / BSIZE, Stop(off, tot + m));
    assert now.Keys + Wants(i, (off + tot) / BSIZE) == was.Keys + next;
    WantedMore(i, off / BSIZE, Stop(off, tot + m), Stop(off, n));
    if Short(was, next, busy, blocks) {
      ShortMore(was, next, Wanted(i, off / BSIZE, Stop(off, n)), busy, blocks);
    }
  }

  /** bmap panics at one of the blocks that n bytes from off on are in. */
  ghost predicate Refused(slots: Slots, i: nat, off: nat, n: nat, busy: set<nat>, blocks: int) {
    n > 0 && (Stop(off, n) > MAXFILE || Short(slots, Wanted(i, off / BSIZE, Stop(off, n)), busy, blocks))
  }

  lemma RoundRefused(was: Slots, now: Slots, i: nat, off: nat, tot: nat, m: nat, n: nat, busy: set<nat>, blocks: int)
    requires 0 < m <= BSIZE - (off + tot) % BSIZE && tot + m <= n
    requires Grew(was, now, Wanted(i, off / BSIZE, Stop(off, tot)))
    requires (off + tot) / BSIZE >= MAXFILE || Short(now, Wants(i, (off + tot) / BSIZE), busy, blocks)
    ensures Refused(was, i, off, n, busy, blocks)
  {
    StopNext(i, off, tot, m, n);
    RoundShort(was, now, i, off, tot, m, n, busy, blocks);
  }

  lemma NotRefused(slots: Slots, i: nat, off: nat, n: nat, busy: set<nat>, blocks: int)
    requires n > 0 ==> Stop(off, n) <= MAXFILE
    requires !Short(slots, Wanted(i, off / BSIZE, Stop(off, n)), busy, blocks)
    ensures !Refused(slots, i, off, n, busy, blocks)
  {
  }

  /* -------- what is logged -------- */

  /** A block that log_write is called with: of data or indirect addresses, of the bitmap, or
      of inodes. */
  datatype Spot = DataAt(b: nat) | BitmapAt(k: nat) | InodeAt(k: nat)

  ghost predicate Extends(was: Slots, now: Slots) {
    forall s | s in was :: s in now && now[s] == was[s]
  }

  /** The bitmap blocks of the blocks in these slots. */
  ghost function BitmapAts(now: Slots, slots: set<(nat, nat)>): set<Spot> {
    set s | s in slots && s in now :: BitmapAt(Blk(now[s]))
  }

  /** The bitmap blocks of the slots that have been filled. */
  ghost function Fresh(was: Slots, now: Slots): set<Spot> {
    BitmapAts(now, now.Keys - was.Keys)
  }

  /** The blocks in these slots. */
  ghost function DataAts(now: Slots, wanted: set<(nat, nat)>): set<Spot> {
    set s | s in wanted && s in now :: DataAt(now[s])
  }

  /** Going from `was` to `now` for the sake of these slots has logged no more than their
      blocks and the bitmap blocks of those that were empty. */
  ghost predicate Logs(was: Slots, now: Slots, logged: set<Spot>, logged': set<Spot>, wanted: set<(nat, nat)>) {
    Extends(was, now) && logged' <= logged + Fresh(was, now) + DataAts(now, wanted)
  }

  /** The bitmap, the inodes and the blocks, as the buffer cache and the disk have them. */
  datatype Disk = Disk(bitmap: Map, inodes: seq<Inode>, data: seq<Block>)

  /** Whatever changed from `was` to `now` has been logged. */
  ghost predicate Tracks(was: Disk, now: Disk, logged: set<Spot>, logged': set<Spot>) {
    && logged <= logged'
    && |now.bitmap| == |was.bitmap| && |now.inodes| == |was.inodes| && |now.data| == |was.data|
    && (forall k: nat | k < |was.bitmap| && now.bitmap[k] != was.bitmap[k] :: BitmapAt(k) in logged')
    && (forall i: nat | i < |was.inodes| && now.inodes[i] != was.inodes[i] :: InodeAt(i / IPB) in logged')
    && (forall b: nat | b < |was.data| && now.data[b] != was.data[b] :: DataAt(b) in logged')
  }

  lemma TracksNone(d: Disk, logged: set<Spot>)
    ensures Tracks(d, d, logged, logged)
  {
  }

  lemma TracksThen(was: Disk, mid: Disk, now: Disk, logged: set<Spot>, logged': set<Spot>, logged'': set<Spot>)
    requires Tracks(was, mid, logged, logged') && Tracks(mid, now, logged', logged'')
    ensures Tracks(was, now, logged, logged'')
  {
  }

  lemma TracksData(d: Disk, b: nat, blk: Block, logged: set<Spot>)
    requires b < |d.data|
    ensures Tracks(d, d.(data := d.data[b := blk]), logged, logged + {DataAt(b)})
  {
  }

  lemma TracksInode(d: Disk, i: nat, ino: Inode, logged: set<Spot>)
    requires i < |d.inodes|
    ensures Tracks(d, d.(inodes := d.inodes[i := ino]), logged, logged + {InodeAt(i / IPB)})
  {
  }

  lemma TracksBits(d: Disk, k: nat, bits: Map, logged: set<Spot>)
    requires OnlyBlock(d.bitmap, bits, k)
    ensures Tracks(d, d.(bitmap := bits), logged, logged + {BitmapAt(k)})
  {
  }

  lemma LogsNone(slots: Slots, logged: set<Spot>, wanted: set<(nat, nat)>)
    ensures Logs(slots, slots, logged, logged, wanted)
  {
  }

  lemma LogsAlso(was: Slots, now: Slots, logged: set<Spot>, logged': set<Spot>, wanted: set<(nat, nat)>, x: Spot)
    requires Logs(was, now, logged, logged', wanted)
    ensures Logs(was, now, logged + {x}, logged' + {x}, wanted)
  {
  }

  lemma LogsClaim(was: Slots, s: (nat, nat), b: nat, logged: set<Spot>)
    requires s !in was
    ensures Logs(was, was[s := b], logged, logged + {BitmapAt(Blk(b)), DataAt(b)}, {s})
  {
    var now := was[s := b];
    assert BitmapAt(Blk(now[s])) in Fresh(was, now);
    assert DataAt(now[s]) in DataAts(now, {s});
  }

  lemma LogsHere(was: Slots, now: Slots, logged: set<Spot>, logged': set<Spot>, wanted: set<(nat, nat)>, s: (nat, nat))
    requires Logs(was, now, logged, logged', wanted) && s in now
    ensures Logs(was, now, logged, logged' + {DataAt(now[s])}, wanted + {s})
  {
    assert DataAt(now[s]) in DataAts(now, wanted + {s});
    DataAtsMore(now, now, wanted, wanted + {s});
  }

  lemma DataAtsMore(was: Slots, now: Slots, wanted: set<(nat, nat)>, more: set<(nat, nat)>)
    requires Extends(was, now) && wanted <= more
    ensures DataAts(was, wanted) <= DataAts(now, more)
  {
    forall d | d in DataAts(was, wanted) ensures d in DataAts(now, more) {
      var s :| s in wanted && s in was && d == DataAt(was[s]);
      assert now[s] == was[s];
    }
  }

  lemma LogsThen(was: Slots, mid: Slots, now: Slots, logged: set<Spot>, logged': set<Spot>, logged'': set<Spot>,
                 wanted: set<(nat, nat)>, wanted': set<(nat, nat)>)
    requires Logs(was, mid, logged, logged', wanted) && Logs(mid, now, logged', logged'', wanted')
    ensures Logs(was, now, logged, logged'', wanted + wanted')
  {
    DataAtsMore(mid, now, wanted, wanted + wanted');
    DataAtsMore(now, now, wanted', wanted + wanted');
    forall d | d in Fresh(was, mid) ensures d in Fresh(was, now) {
      var s :| s in mid && s !in was && d == BitmapAt(Blk(mid[s]));
      assert now[s] == mid[s];
    }
  }

  /** An entry is logged with the indirect block that it is in. */
  lemma LogsNewEntry(was: Slots, i: nat, j: nat, ind: nat, b: nat, logged: set<Spot>)
    requires (i, NDIRECT) in was && was[(i, NDIRECT)] == ind && (i, NDIRECT + 1 + j) !in was
    ensures Logs(was, was[(i, NDIRECT + 1 + j) := b], logged, logged + {BitmapAt(Blk(b)), DataAt(b)} + {DataAt(ind)},
                 Wants(i, NDIRECT + j))
  {
    var s := (i, NDIRECT + 1 + j);
    LogsClaim(was, s, b, logged);
    LogsHere(was, was[s := b], logged, logged + {BitmapAt(Blk(b)), DataAt(b)}, {s}, (i, NDIRECT));
    assert {s} + {(i, NDIRECT)} == Wants(i, NDIRECT + j);
  }

  lemma LogsEntry(was: Slots, mid: Slots, now: Slots, logged: set<Spot>, logged': set<Spot>, logged'': set<Spot>,
                  i: nat, j: nat)
    requires Logs(was, mid, logged, logged', {(i, NDIRECT)}) && Logs(mid, now, logged', logged'', Wants(i, NDIRECT + j))
    ensures Logs(was, now, logged, logged'', Wants(i, NDIRECT + j))
  {
    LogsThen(was, mid, now, logged, logged', logged'', {(i, NDIRECT)}, Wants(i, NDIRECT + j));
    assert {(i, NDIRECT)} + Wants(i, NDIRECT + j) == Wants(i, NDIRECT + j);
  }

  /** writei logs the block it has mapped. */
  lemma LogsWanted(was: Slots, now: Slots, logged: set<Spot>, logged': set<Spot>, i: nat, bn: nat)
    requires Logs(was, now, logged, logged', Wants(i, bn)) && (i, Idx(bn)) in now
    ensures Logs(was, now, logged, logged' + {DataAt(now[(i, Idx(bn))])}, Wants(i, bn))
  {
    LogsHere(was, now, logged, logged', Wants(i, bn), (i, Idx(bn)));
    assert Wants(i, bn) + {(i, Idx(bn))} == Wants(i, bn);
  }

  /** One round of writei's loop. */
  lemma LogsRound(was: Slots, had: Slots, now: Slots, logged: set<Spot>, logged': set<Spot>, logged'': set<Spot>,
                  i: nat, off: nat, tot: nat, m: nat)
    requires 0 < m <= BSIZE - (off + tot) % BSIZE
    requires Logs(was, had, logged, logged', Wanted(i, off / BSIZE, Stop(off, tot)))
    requires Logs(had, now, logged', logged'', Wants(i, (off + tot) / BSIZE))
    ensures Logs(was, now, logged, logged'', Wanted(i, off / BSIZE, Stop(off, tot + m)))
  {
    hide Wanted, Logs;
    StopNext(i, off, tot, m, tot + m);
    LogsThen(was, had, now, logged, logged', logged'', Wanted(i, off / BSIZE, Stop(off, tot)),
             Wants(i, (off + tot) / BSIZE));
  }

  /** A set of images is no larger than the set. */
  lemma {:induction false} DataAtsSize(now: Slots, wanted: set<(nat, nat)>)
    ensures |DataAts(now, wanted)| <= |wanted|
    decreases wanted
  {
    if wanted == {} {
      assert DataAts(now, wanted) == {};
    } else {
      var s :| s in wanted;
      DataAtsSize(now, wanted - {s});
      var rest := DataAts(now, wanted - {s});
      if s in now {
        assert DataAts(now, wanted) == rest + {DataAt(now[s])};
      } else {
        assert DataAts(now, wanted) == rest;
      }
    }
  }

  lemma {:induction false} BitmapAtsSize(now: Slots, slots: set<(nat, nat)>)
    ensures |BitmapAts(now, slots)| <= |slots|
    decreases slots
  {
    if slots == {} {
      assert BitmapAts(now, slots) == {};
    } else {
      var s :| s in slots;
      BitmapAtsSize(now, slots - {s});
      var rest := BitmapAts(now, slots - {s});
      if s in now {
        assert BitmapAts(now, slots) == rest + {BitmapAt(Blk(now[s]))};
      } else {
        assert BitmapAts(now, slots) == rest;
      }
    }
  }

  lemma {:induction false} WantedSize(i: nat, a: nat, b: nat)
    requires a <= b
    ensures |Wanted(i, a, b)| <= b - a + 1
    ensures b <= NDIRECT ==> |Wanted(i, a, b)| <= b - a
    ensures b > a && b > NDIRECT ==> (i, NDIRECT) in Wanted(i, a, b)
    decreases b
  {
    hide Wanted;
    if a < b {
      WantedSize(i, a, b - 1);
      WantedLast(i, a, b);
      WantedNone(i, a);
      var rest, pair := Wanted(i, a, b - 1), {(i, NDIRECT), (i, b)};
      if (i, NDIRECT) in rest {
        assert rest + pair == rest + {(i, b)};
      } else {
        assert rest + pair == rest + {(i, NDIRECT)} + {(i, b)};
      }
    } else {
      WantedNone(i, a);
    }
  }

  lemma WantedNone(i: nat, a: nat)
    ensures Wanted(i, a, a) == {}
  {
  }

  lemma WantedLast(i: nat, a: nat, b: nat)
    requires a < b
    ensures Wanted(i, a, b) == Wanted(i, a, b - 1) + (if b - 1 < NDIRECT then {(i, b - 1)} else {(i, NDIRECT), (i, b)})
  {
  }

  lemma LogsSize(was: Slots, now: Slots, logged: set<Spot>, wanted: set<(nat, nat)>, inode: Spot)
    requires Logs(was, now, {inode}, logged, wanted)
    ensures |logged| <= |now.Keys - was.Keys| + |wanted| + 1
  {
    hide BitmapAts, DataAts, Extends;
    DataAtsSize(now, wanted);
    BitmapAtsSize(now, now.Keys - was.Keys);
    UnionSize(logged, Fresh(was, now), DataAts(now, wanted), inode);
  }

  lemma UnionSize(x: set<Spot>, a: set<Spot>, b: set<Spot>, e: Spot)
    requires x <= {e} + a + b
    ensures |x| <= |a| + |b| + 1
  {
    SubsetSize(x, {e} + a + b);
  }

  lemma FilledSize(was: Slots, now: Slots, wanted: set<(nat, nat)>, s: (nat, nat))
    requires Grew(was, now, wanted) && s in wanted
    ensures |now.Keys - was.Keys| <= |wanted| - if s in was then 1 else 0
  {
    SubsetSize(now.Keys - was.Keys, if s in was then wanted - {s} else wanted);
  }

  /** One transaction of filewrite: with its first block there, unless it starts at one, a
      write of at most CHUNK bytes logs at most MAXOPBLOCKS different blocks. */
  lemma ChunkBudget(was: Slots, now: Slots, logged: set<Spot>, i: nat, off: nat, n: nat, inode: Spot)
    requires 0 < n <= CHUNK && (off % BSIZE != 0 ==> (i, Idx(off / BSIZE)) in was)
    requires Grew(was, now, Wanted(i, off / BSIZE, Stop(off, n)))
    requires Logs(was, now, {inode}, logged, Wanted(i, off / BSIZE, Stop(off, n)))
    ensures |logged| <= CrashLog.MAXOPBLOCKS
  {
    hide Grew, Logs, Wanted;
    var a, b := off / BSIZE, Stop(off, n);
    WantedSize(i, a, b);
    WantedFirst(i, a, b);
    LogsSize(was, now, logged, Wanted(i, a, b), inode);
    FilledSize(was, now, Wanted(i, a, b), (i, Idx(a)));
    assert b - a <= 4 && (b - a == 4 ==> off % BSIZE != 0);
  }

  lemma {:induction false} WantedFirst(i: nat, a: nat, b: nat)
    requires a < b
    ensures (i, Idx(a)) in Wanted(i, a, b)
    decreases b
  {
    if a < b - 1 {
      WantedFirst(i, a, b - 1);
    }
  }

  /* -------- files as byte sequences -------- */

  ghost predicate PagesSized(pages: Pages) {
    forall p | p in pages :: |pages[p].bytes| == BSIZE
  }

  /** Every block below size is mapped. */
  ghost predicate Mapped(pages: Pages, i: nat, size: nat) {
    forall o: nat | o < size :: (i, o / BSIZE) in pages
  }

  lemma MappedAt(pages: Pages, i: nat, size: nat, o: nat)
    requires Mapped(pages, i, size) && o < size
    ensures (i, o / BSIZE) in pages
  {
  }

  /** A byte of the file: 0 in a block that is not mapped. */
  ghost function ByteAt(pages: Pages, i: nat, o: nat): nat
    requires PagesSized(pages)
  {
    if (i, o / BSIZE) in pages then pages[(i, o / BSIZE)].bytes[o % BSIZE] else 0
  }

  /** The file's contents. */
  ghost function Bytes(pages: Pages, i: nat, size: nat): (s: seq<nat>)
    requires PagesSized(pages)
    ensures |s| == size
  {
    seq(size, o requires 0 <= o < size => ByteAt(pages, i, o))
  }

  /** The pages once these blocks of a file are mapped. */
  ghost function Filled(pages: Pages, i: nat, bn: nat): Pages {
    if (i, bn) in pages then pages else pages[(i, bn) := Zero()]
  }

  /** No file's bytes differ. */
  ghost predicate SameBytes(was: Pages, now: Pages) {
    PagesSized(was) && PagesSized(now) && forall j: nat, o: nat :: ByteAt(now, j, o) == ByteAt(was, j, o)
  }

  lemma SameBytesSelf(pages: Pages)
    requires PagesSized(pages)
    ensures SameBytes(pages, pages)
  {
  }

  lemma SameBytesThen(was: Pages, mid: Pages, now: Pages, i: nat, size: nat)
    requires SameBytes(was, mid) && SameBytes(mid, now)
    ensures SameBytes(was, now) && PagesSized(now) && Bytes(mid, i, size) == Bytes(was, i, size)
  {
  }

  lemma SameBytesAll(was: Pages, now: Pages, j: nat, size: nat)
    requires SameBytes(was, now)
    ensures Bytes(now, j, size) == Bytes(was, j, size)
  {
  }

  lemma FilledAt(pages: Pages, i: nat, bn: nat)
    ensures (i, bn) in Filled(pages, i, bn)
  {
  }

  /** One round of readi's loop. */
  lemma Reread(was: Pages, before: Pages, now: Pages, i: nat, cur: nat, m: nat, size: nat)
    requires SameBytes(was, before) && now == Filled(before, i, cur / BSIZE)
    requires cur + m <= size && m <= BSIZE - cur % BSIZE
    ensures SameBytes(was, now) && (i, cur / BSIZE) in now
    ensures Bytes(was, i, size)[cur..cur + m] == now[(i, cur / BSIZE)].bytes[cur % BSIZE..cur % BSIZE + m]
  {
    SameBytesAll(was, now, i, size);
    Chunk(now, i, size, cur, m);
  }

  /** min(n - tot, BSIZE - off % BSIZE): what the block of an offset holds of the rest. */
  function Part(cur: nat, left: nat): (m: nat)
    ensures m <= left && m <= BSIZE - cur % BSIZE && (left > 0 ==> m > 0)
    ensures m < left ==> (cur + m) % BSIZE == 0
  {
    if left < BSIZE - cur % BSIZE then left else BSIZE - cur % BSIZE
  }

  /** One of the blocks that n bytes from off on are in is not mapped, and no transaction is
      running when it is its turn. */
  ghost predicate Untimely(pages: Pages, i: nat, off: nat, n: nat, trans: seq<bool>) {
    exists bn: nat :: off / BSIZE <= bn < Stop(off, n) && (i, bn) !in pages && bn - off / BSIZE < |trans| &&
                      !trans[bn - off / BSIZE]
  }

  /** So far it was not so, and the blocks so far are what is newly mapped. */
  ghost predicate Timely(was: Pages, now: Pages, i: nat, off: nat, tot: nat, trans: seq<bool>) {
    && (forall bn: nat :: (i, bn) in now <==> (i, bn) in was || off / BSIZE <= bn < Stop(off, tot))
    && !Untimely(was, i, off, tot, trans)
  }

  lemma TimelyNone(pages: Pages, i: nat, off: nat, trans: seq<bool>)
    ensures Timely(pages, pages, i, off, 0, trans)
  {
  }

  lemma TimelyHere(was: Pages, now: Pages, i: nat, off: nat, tot: nat, n: nat, trans: seq<bool>)
    requires Timely(was, now, i, off, tot, trans) && tot < n && |trans| > n / BSIZE + 1
    requires tot == 0 || (off + tot) % BSIZE == 0
    ensures 0 <= (off + tot) / BSIZE - off / BSIZE < |trans|
    ensures (i, (off + tot) / BSIZE) in now <==> (i, (off + tot) / BSIZE) in was
  {
    assert Stop(off, tot) <= (off + tot) / BSIZE;
  }

  lemma UntimelyAt(pages: Pages, i: nat, off: nat, n: nat, trans: seq<bool>, bn: nat)
    requires off / BSIZE <= bn < Stop(off, n) && (i, bn) !in pages && bn - off / BSIZE < |trans|
    requires !trans[bn - off / BSIZE]
    ensures Untimely(pages, i, off, n, trans)
  {
  }

  lemma TimelyNext(was: Pages, before: Pages, now: Pages, i: nat, off: nat, tot: nat, m: nat, trans: seq<bool>)
    requires Timely(was, before, i, off, tot, trans) && now == Filled(before, i, (off + tot) / BSIZE)
    requires 0 < m <= BSIZE - (off + tot) % BSIZE && 0 <= (off + tot) / BSIZE - off / BSIZE < |trans|
    requires trans[(off + tot) / BSIZE - off / BSIZE] || (i, (off + tot) / BSIZE) in was
    ensures Timely(was, now, i, off, tot + m, trans)
  {
    var at := (off + tot) / BSIZE;
    StopNext(i, off, tot, m, tot + m);
    assert Stop(off, tot) == at || Stop(off, tot) == at + 1;
    if Untimely(was, i, off, tot + m, trans) {
      var bn: nat :| off / BSIZE <= bn < at + 1 && (i, bn) !in was && bn - off / BSIZE < |trans| &&
                     !trans[bn - off / BSIZE];
      UntimelyAt(was, i, off, tot, trans, bn);
    }
  }

  lemma NotUntimely(was: Pages, now: Pages, i: nat, off: nat, n: nat, trans: seq<bool>)
    requires Timely(was, now, i, off, n, trans)
    ensures !Untimely(was, i, off, n, trans)
  {
  }

  lemma PageAt(inodes: seq<Inode>, data: seq<Block>, slots: Slots, owner: Owner, pages: Pages, lo: nat, i: nat, bn: nat)
    requires Good(inodes, data, slots, owner, pages, lo) && (i, bn) in pages
    ensures PagesSized(pages) && |pages[(i, bn)].bytes| == BSIZE
    ensures (i, Idx(bn)) in slots && slots[(i, Idx(bn))] < |data| && data[slots[(i, Idx(bn))]] == pages[(i, bn)]
  {
  }

  lemma Further(s: seq<nat>, a: nat, b: nat, c: nat)
    requires a <= b <= c <= |s|
    ensures s[a..b] + s[b..c] == s[a..c]
  {
  }

  /** A run of bytes within one block. */
  lemma Chunk(pages: Pages, i: nat, size: nat, off: nat, m: nat)
    requires PagesSized(pages) && (i, off / BSIZE) in pages
    requires off + m <= size && m <= BSIZE - off % BSIZE
    ensures Bytes(pages, i, size)[off..off + m] == pages[(i, off / BSIZE)].bytes[off % BSIZE..off % BSIZE + m]
  {
    forall o | off <= o < off + m ensures o / BSIZE == off / BSIZE && o % BSIZE == off % BSIZE + (o - off) {}
  }

  function Patch(bytes: seq<nat>, o: nat, chunk: seq<nat>): (r: seq<nat>)
    requires o + |chunk| <= |bytes|
    ensures |r| == |bytes|
  {
    bytes[..o] + chunk + bytes[o + |chunk|..]
  }

  /** The first tot bytes of src are in place from off on, and nothing else of
      file i below size, nor of any other file, has changed. */
  ghost predicate Written(was: Pages, now: Pages, i: nat, size: nat, off: nat, src: seq<nat>, tot: nat) {
    && tot <= |src| && off <= size
    && PagesSized(was) && PagesSized(now)
    && (forall o: nat | o < size || o < off + tot ::
          ByteAt(now, i, o) == if off <= o < off + tot then src[o - off] else ByteAt(was, i, o))
    && (forall o: nat | off <= o < off + tot :: (i, o / BSIZE) in now)
    && (forall p | p in was :: p in now)
    && (forall p: (nat, nat) | p.0 != i :: p in now <==> p in was)
    && (forall p: (nat, nat) | p.0 != i && p in was :: now[p] == was[p])
  }

  /** One round of writei's loop. */
  lemma WriteStep(was: Pages, now: Pages, i: nat, size: nat, off: nat, src: seq<nat>, tot: nat, m: nat, mapped: Pages)
    requires Written(was, now, i, size, off, src, tot) && tot + m <= |src| && m <= BSIZE - (off + tot) % BSIZE
    requires mapped == Filled(now, i, (off + tot) / BSIZE)
    ensures var p := (i, (off + tot) / BSIZE);
            var blk := Block(Patch(mapped[p].bytes, (off + tot) % BSIZE, src[tot..tot + m]));
            Written(was, mapped[p := blk], i, size, off, src, tot + m)
  {
    var cur := off + tot;
    var p := (i, cur / BSIZE);
    var bytes := mapped[p].bytes;
    var blk := Block(Patch(bytes, cur % BSIZE, src[tot..tot + m]));
    var next := mapped[p := blk];
    forall o: nat | o < size || o < cur + m
      ensures ByteAt(next, i, o) == if off <= o < cur + m then src[o - off] else ByteAt(was, i, o)
    {
      if o / BSIZE == cur / BSIZE {
        if cur <= o < cur + m {
          assert o % BSIZE == cur % BSIZE + (o - cur);
        } else {
          assert o % BSIZE < cur % BSIZE || o % BSIZE >= cur % BSIZE + m;
          assert ByteAt(next, i, o) == bytes[o % BSIZE] == ByteAt(now, i, o);
        }
      } else {
        assert ByteAt(next, i, o) == ByteAt(now, i, o);
      }
    }
    forall o: nat | off <= o < cur + m ensures (i, o / BSIZE) in next {
      if cur <= o {
        assert o / BSIZE == cur / BSIZE;
      }
    }
  }

  /** The contents writei leaves: src spliced in at off, the file grown if need be. */
  function Splice(s: seq<nat>, off: nat, src: seq<nat>): seq<nat>
    requires off <= |s|
  {
    s[..off] + src + if off + |src| < |s| then s[off + |src|..] else []
  }

  /** The file's bytes are spliced. */
  ghost predicate Spliced(was: Pages, size: nat, now: Pages, size': nat, i: nat, off: nat, src: seq<nat>) {
    && PagesSized(was) && PagesSized(now) && off <= size
    && Bytes(now, i, size') == Splice(Bytes(was, i, size), off, src)
  }

  lemma WrittenBytes(was: Pages, now: Pages, i: nat, size: nat, off: nat, src: seq<nat>)
    requires Written(was, now, i, size, off, src, |src|)
    ensures var size' := if off + |src| > size then off + |src| else size;
            && Bytes(now, i, size') == Splice(Bytes(was, i, size), off, src)
            && (Mapped(was, i, size) ==> Mapped(now, i, size'))
  {
  }

  /** What a write did to each byte. */
  lemma SplicedAt(was: Pages, size: nat, now: Pages, size': nat, i: nat, off: nat, src: seq<nat>, k: nat)
    requires Spliced(was, size, now, size', i, off, src)
    ensures size' == if off + |src| > size then off + |src| else size
    ensures k < size' ==> Bytes(now, i, size')[k] == if off <= k < off + |src| then src[k - off]
                                                     else Bytes(was, i, size)[k]
  {
    hide Bytes;
    assert |Bytes(now, i, size')| == size';
  }

  /** readi after writei: any range that covers the write reads the bytes written, and around
      them the bytes that were there. */
  lemma ReadBack(was: Pages, size: nat, now: Pages, size': nat, i: nat, off: nat, src: seq<nat>, a: nat, e: nat)
    requires Spliced(was, size, now, size', i, off, src) && a <= off && off + |src| <= e <= size'
    ensures var got := Bytes(now, i, size')[a..e];
            && got[off - a..off - a + |src|] == src
            && got[..off - a] == Bytes(was, i, size)[a..off]
            && got[off - a + |src|..] == if off + |src| <= size then Bytes(was, i, size)[off + |src|..e] else []
  {
    hide Bytes;
    assert |Bytes(now, i, size')| == size';
    SpliceSlices(Bytes(was, i, size), off, src, a, e);
  }

  lemma SpliceSlices(s: seq<nat>, off: nat, src: seq<nat>, a: nat, e: nat)
    requires a <= off <= |s| && off + |src| <= e <= |Splice(s, off, src)|
    ensures var got := Splice(s, off, src)[a..e];
            && got[off - a..off - a + |src|] == src && got[..off - a] == s[a..off]
            && got[off - a + |src|..] == if off + |src| <= |s| then s[off + |src|..e] else []
  {
    var t := Splice(s, off, src);
    var rest := if off + |src| < |s| then s[off + |src|..] else [];
    assert t[a..e] == s[a..off] + src + rest[..e - off - |src|];
    if off + |src| <= |s| {
      assert rest[..e - off - |src|] == s[off + |src|..e];
    }
  }

  /** The bytes written so far are in the file, which is untouched if there are none. */
  ghost predicate FileWritten(was: Pages, size: nat, now: Pages, size': nat, i: nat, off: nat, src: seq<nat>) {
    && PagesSized(was) && PagesSized(now)
    && (src == [] ==> size' == size && Bytes(now, i, size') == Bytes(was, i, size))
    && (src != [] ==> Spliced(was, size, now, size', i, off, src))
  }

  lemma FileWrittenNone(pages: Pages, i: nat, size: nat, off: nat, src: seq<nat>)
    requires PagesSized(pages)
    ensures FileWritten(pages, size, pages, size, i, off, src[..0])
  {
  }

  lemma SpliceTwice(s: seq<nat>, off: nat, a: seq<nat>, b: seq<nat>)
    requires off <= |s|
    ensures Splice(Splice(s, off, a), off + |a|, b) == Splice(s, off, a + b)
  {
    var mid := Splice(s, off, a);
    assert mid[..off + |a|] == s[..off] + a;
    if off + |a| + |b| < |s| {
      assert mid[off + |a| + |b|..] == s[off + |a| + |b|..];
    }
  }

  lemma FileWrittenMore(was: Pages, size: nat, mid: Pages, size': nat, now: Pages, size'': nat,
                        i: nat, off: nat, src: seq<nat>, at: nat, m: nat)
    requires at + m <= |src| && m > 0 && FileWritten(was, size, mid, size', i, off, src[..at])
    requires Spliced(mid, size', now, size'', i, off + at, src[at..at + m])
    requires at == 0 ==> off <= size
    ensures FileWritten(was, size, now, size'', i, off, src[..at + m])
  {
    hide Bytes;
    assert src[..at + m] == src[..at] + src[at..at + m];
    if at > 0 {
      SpliceTwice(Bytes(was, i, size), off, src[..at], src[at..at + m]);
    }
  }

  /** A file with no holes has the block that an offset within it, inside a block, is in. */
  lemma FirstMapped(inodes: seq<Inode>, data: seq<Block>, slots: Slots, owner: Owner, pages: Pages, lo: nat,
                    i: nat, size: nat, o: nat)
    requires Good(inodes, data, slots, owner, pages, lo) && Mapped(pages, i, size)
    ensures o <= size && o % BSIZE != 0 ==> (i, Idx(o / BSIZE)) in slots
  {
    if o <= size && o % BSIZE != 0 {
      MappedAt(pages, i, size, o - 1);
      assert (o - 1) / BSIZE == o / BSIZE;
      PagesAt(inodes, data, slots, owner, pages, lo, i, o / BSIZE);
    }
  }

  lemma WrittenNone(pages: Pages, i: nat, size: nat, off: nat, src: seq<nat>)
    requires PagesSized(pages) && off <= size
    ensures Written(pages, pages, i, size, off, src, 0)
  {
  }

  lemma WrittenOthers(was: Pages, now: Pages, i: nat, size: nat, off: nat, src: seq<nat>)
    requires Written(was, now, i, size, off, src, |src|)
    ensures PagesSized(now) && DropFile(now, i) == DropFile(was, i)
  {
  }

  /** Only the addresses of inode i differ. */
  ghost predicate OnlyAddrs(was: seq<Inode>, now: seq<Inode>, i: nat) {
    i < |was| == |now| && now == was[i := was[i].(addrs := now[i].addrs)]
  }

  lemma OnlyAddrsSelf(inodes: seq<Inode>, i: nat)
    requires i < |inodes|
    ensures OnlyAddrs(inodes, inodes, i)
  {
    assert inodes == inodes[i := inodes[i].(addrs := inodes[i].addrs)];
  }

  lemma OnlyAddrsThen(was: seq<Inode>, mid: seq<Inode>, now: seq<Inode>, i: nat)
    requires OnlyAddrs(was, mid, i) && OnlyAddrs(mid, now, i)
    ensures OnlyAddrs(was, now, i) && i < |now|
  {
  }

  /* -------- readi's loop -------- */

  /** What tot bytes read have given, and what has been allocated for them. */
  ghost predicate ReadSoFar(slots: Slots, pages: Pages, inodes: seq<Inode>, slots': Slots, pages': Pages,
                            inodes': seq<Inode>, i: nat, off: nat, tot: nat, total: nat, dst: seq<nat>,
                              trans: seq<bool>) {
    && OnlyAddrs(inodes, inodes', i) && SameBytes(pages, pages')
    && off + tot <= total && dst == Bytes(pages, i, total)[off..off + tot]
    && Grew(slots, slots', Wanted(i, off / BSIZE, Stop(off, tot)))
    && (tot > 0 ==> Stop(off, tot) <= MAXFILE)
    && Timely(pages, pages', i, off, tot, trans)
  }

  lemma ReadNone(slots: Slots, pages: Pages, inodes: seq<Inode>, i: nat, off: nat, total: nat, trans: seq<bool>)
    requires PagesSized(pages) && i < |inodes| && off <= total
    ensures ReadSoFar(slots, pages, inodes, slots, pages, inodes, i, off, 0, total, [], trans)
  {
    hide Bytes, SameBytes, Timely, Grew, OnlyAddrs, Wanted, Stop;
    OnlyAddrsSelf(inodes, i);
    SameBytesSelf(pages);
    GrewNone(slots, i, off);
    TimelyNone(pages, i, off, trans);
  }

  lemma ReadHere(slots: Slots, pages: Pages, inodes: seq<Inode>, slots': Slots, pages': Pages, inodes': seq<Inode>,
                 i: nat, off: nat, tot: nat, n: nat, total: nat, dst: seq<nat>, trans: seq<bool>)
    requires ReadSoFar(slots, pages, inodes, slots', pages', inodes', i, off, tot, total, dst, trans)
    requires tot < n && |trans| > n / BSIZE + 1 && (tot == 0 || (off + tot) % BSIZE == 0)
    ensures 0 <= (off + tot) / BSIZE - off / BSIZE < |trans|
    ensures (i, (off + tot) / BSIZE) in pages' <==> (i, (off + tot) / BSIZE) in pages
  {
    hide Bytes, SameBytes, Timely, Grew, OnlyAddrs, Wanted, Stop;
    TimelyHere(pages, pages', i, off, tot, n, trans);
  }

  lemma ReadStep(slots: Slots, pages: Pages, inodes: seq<Inode>, slots': Slots, pages': Pages, inodes': seq<Inode>,
                 slots'': Slots, pages'': Pages, inodes'': seq<Inode>, i: nat, off: nat, tot: nat, m: nat, total: nat,
                 dst: seq<nat>, chunk: seq<nat>, trans: seq<bool>)
    requires ReadSoFar(slots, pages, inodes, slots', pages', inodes', i, off, tot, total, dst, trans)
    requires 0 < m <= BSIZE - (off + tot) % BSIZE && off + tot + m <= total && PagesSized(pages')
    requires 0 <= (off + tot) / BSIZE - off / BSIZE < |trans| && (off + tot) / BSIZE < MAXFILE
    requires trans[(off + tot) / BSIZE - off / BSIZE] || (i, (off + tot) / BSIZE) in pages
    requires OnlyAddrs(inodes', inodes'', i) && SameBytes(pages', pages'')
    requires Grew(slots', slots'', Wants(i, (off + tot) / BSIZE)) && pages'' == Filled(pages', i, (off + tot) / BSIZE)
    requires chunk == Bytes(pages', i, total)[off + tot..off + tot + m]
    ensures ReadSoFar(slots, pages, inodes, slots'', pages'', inodes'', i, off, tot + m, total, dst + chunk, trans)
    ensures PagesSized(pages'') && i < |inodes''|
  {
    hide Bytes, SameBytes, Timely, Grew, OnlyAddrs, Wanted, Stop, Wants, Filled, PagesSized;
    StopNext(i, off, tot, m, tot + m);
    OnlyAddrsThen(inodes, inodes', inodes'', i);
    GrewRound(slots, slots', slots'', i, off, tot, m);
    SameBytesThen(pages, pages', pages'', i, total);
    Further(Bytes(pages, i, total), off, off + tot, off + tot + m);
    TimelyNext(pages, pages', pages'', i, off, tot, m, trans);
  }

  lemma ReadFails(slots: Slots, pages: Pages, inodes: seq<Inode>, slots': Slots, pages': Pages, inodes': seq<Inode>,
                  i: nat, off: nat, tot: nat, m: nat, n: nat, total: nat, dst: seq<nat>, trans: seq<bool>,
                  busy: set<nat>, blocks: int)
    requires ReadSoFar(slots, pages, inodes, slots', pages', inodes', i, off, tot, total, dst, trans)
    requires 0 < m <= BSIZE - (off + tot) % BSIZE && tot + m <= n
    requires 0 <= (off + tot) / BSIZE - off / BSIZE < |trans|
    requires var bn := (off + tot) / BSIZE;
             bn >= MAXFILE || Short(slots', Wants(i, bn), busy, blocks)
               || (!trans[bn - off / BSIZE] && (i, bn) !in pages)
    ensures Refused(slots, i, off, n, busy, blocks) || Untimely(pages, i, off, n, trans)
  {
    hide Bytes, SameBytes, Timely, Grew, OnlyAddrs, Wanted, Short, Stop, Refused, Untimely, Wants;
    var bn := (off + tot) / BSIZE;
    StopNext(i, off, tot, m, n);
    if !trans[bn - off / BSIZE] && (i, bn) !in pages {
      UntimelyAt(pages, i, off, n, trans, bn);
    } else {
      RoundRefused(slots, slots', i, off, tot, m, n, busy, blocks);
    }
  }

  lemma ReadGrew(slots: Slots, pages: Pages, inodes: seq<Inode>, slots': Slots, pages': Pages, inodes': seq<Inode>,
                 i: nat, off: nat, tot: nat, total: nat, dst: seq<nat>, trans: seq<bool>)
    requires ReadSoFar(slots, pages, inodes, slots', pages', inodes', i, off, tot, total, dst, trans)
    ensures Grew(slots, slots', Wanted(i, off / BSIZE, Stop(off, tot)))
  {
  }

  lemma ReadEnds(slots: Slots, pages: Pages, inodes: seq<Inode>, slots': Slots, pages': Pages, inodes': seq<Inode>,
                 i: nat, off: nat, n: nat, total: nat, dst: seq<nat>, trans: seq<bool>, busy: set<nat>, blocks: int)
    requires ReadSoFar(slots, pages, inodes, slots', pages', inodes', i, off, n, total, dst, trans)
    requires !Short(slots, Wanted(i, off / BSIZE, Stop(off, n)), busy, blocks)
    ensures !Refused(slots, i, off, n, busy, blocks) && !Untimely(pages, i, off, n, trans)
    ensures OnlyAddrs(inodes, inodes', i) && SameBytes(pages, pages')
    ensures off + n <= total && PagesSized(pages) && dst == Bytes(pages, i, total)[off..off + n]
  {
    hide Bytes, Grew, OnlyAddrs, Wanted, Stop;
    NotRefused(slots, i, off, n, busy, blocks);
    NotUntimely(pages, pages', i, off, n, trans);
  }

  class Fs {
    const size: nat        // sb.size
    const nmeta: nat       // the first data block
    var bitmap: Map
    var inode: seq<Inode>  // in-core inodes
    var dinode: seq<Inode> // the inode blocks
    var data: seq<Block>   // all blocks, by number
    ghost var slots: Slots
    ghost var owner: Owner
    ghost var pages: Pages
    ghost var busy: set<nat>   // what other processes have in flight
    ghost var logged: set<Spot>   // what the calls below have given to log_write

    ghost function OnDisk(): Disk
      reads this
    {
      Disk(bitmap, dinode, data)
    }

    ghost predicate Structure()
      reads this
    {
      && |data| == size < 0x1_0000_0000
      && Good(inode, data, slots, owner, pages, nmeta)
      && Apart(owner, busy, nmeta, size)
    }

    /** At every point where this process has no block in flight. */
    ghost predicate Valid()
      reads this
    {
      Structure() && Bits(bitmap, owner.Keys + busy, nmeta, size)
    }

    /** There are too few blocks for one slot exactly if it is empty and no block is free. */
    lemma OneShort(s: (nat, nat))
      requires Structure()
      ensures Short(slots, {s}, busy, size - nmeta) <==> s !in slots && NoneFree(owner, busy, nmeta, size)
    {
      hide Reads, Paged, Apart, NoneFree, Owns;
      Capacity(slots, owner, busy, nmeta, size);
      if s in slots {
        assert slots.Keys + {s} == slots.Keys;
      }
    }

    /** An empty slot when no block is free. */
    lemma MissingShort(was: Slots, i: nat, j: nat)
      requires Structure() && NoneFree(owner, busy, nmeta, size)
      requires Grew(was, slots, {(i, NDIRECT)}) && (i, NDIRECT + 1 + j) !in slots
      ensures Short(was, Wants(i, NDIRECT + j), busy, size - nmeta)
    {
      hide Reads, Paged, Apart, NoneFree, Owns;
      Capacity(slots, owner, busy, nmeta, size);
      SubsetSize(slots.Keys + {(i, NDIRECT + 1 + j)}, was.Keys + Wants(i, NDIRECT + j));
    }

    /** What fits is not too much. */
    lemma Enough(was: Slots, wanted: set<(nat, nat)>)
      requires Valid() && Grew(was, slots, wanted)
      ensures !Short(was, wanted, busy, size - nmeta)
    {
      hide Reads, Paged, Apart, NoneFree, Owns;
      Capacity(slots, owner, busy, nmeta, size);
    }

    constructor (size: nat, nmeta: nat, bitmap: Map, inodes: seq<Inode>, data: seq<Block>,
                 ghost slots: Slots, ghost owner: Owner, ghost pages: Pages)
      requires nmeta <= |data| == size < 0x1_0000_0000 && Good(inodes, data, slots, owner, pages, nmeta)
      requires Bits(bitmap, owner.Keys, nmeta, size)
      ensures Valid() && this.inode == inodes && this.pages == pages && busy == {}
    {
      this.size, this.nmeta, this.bitmap, this.data := size, nmeta, bitmap, data;
      inode, dinode := inodes, inodes;
      this.slots, this.owner, this.pages, busy, logged := slots, owner, pages, {}, {};
      assert owner.Keys + {} == owner.Keys;
    }

    /** balloc: a zeroed block that nobody owned; None is its panic, or that of log_write
        when no transaction is running. */
    method Balloc(trans: bool) returns (r: Option<nat>)
      requires Valid()
      modifies this`bitmap, this`data, this`logged
      ensures Structure()
      ensures r.None? <==> !trans || NoneFree(owner, busy, nmeta, size)
      ensures r.None? ==> bitmap == old(bitmap) && data == old(data) && logged == old(logged)
      ensures r.Some? ==> logged == old(logged) + {BitmapAt(Blk(r.value)), DataAt(r.value)}
      ensures r.Some? ==> nmeta <= r.value < size && r.value !in owner && r.value !in busy
      ensures r.Some? ==> data == old(data)[r.value := Zero()]
      ensures r.Some? ==> Tracks(old(OnDisk()), OnDisk(), old(logged), logged)
      ensures r.Some? ==> Bits(bitmap, owner.Keys + busy + {r.value}, nmeta, size)
    {
      hide Good, Has, Blk, Byt, Bt, Tracks;
      var bits;
      r, bits := SetFirstClear(bitmap, size);
      if r.None? || !trans {
        return None;
      }
      TracksBits(OnDisk(), Blk(r.value), bits, logged);
      bitmap := bits;
      TracksData(OnDisk(), r.value, Zero(), logged + {BitmapAt(Blk(r.value))});
      ZeroUnowned(inode, data, slots, owner, pages, nmeta, r.value);
      data := data[r.value := Zero()];
      TracksThen(old(OnDisk()), old(OnDisk()).(bitmap := bits), OnDisk(), logged, logged + {BitmapAt(Blk(r.value))},
                 logged + {BitmapAt(Blk(r.value))} + {DataAt(r.value)});
      logged := logged + {BitmapAt(Blk(r.value))} + {DataAt(r.value)};
    }

    /** bmap: the address of the file's bn-th block, allocated if there is none;
        None is a panic, with bn out of range, for want of blocks, or for want of a
        transaction to allocate in. */
    method Bmap(i: nat, bn: nat, trans: bool) returns (r: Option<nat>)
      requires Valid() && i < |inode|
      modifies this`bitmap, this`inode, this`data, this`slots, this`owner, this`pages, this`logged
      ensures r.None? <==> || bn >= MAXFILE || Short(old(slots), Wants(i, bn), busy, size - nmeta)
                           || (!trans && (i, bn) !in old(pages))
      ensures r.Some? ==>
                && Valid() && Grew(old(slots), slots, Wants(i, bn))
                && Logs(old(slots), slots, old(logged), logged, Wants(i, bn))
                && Tracks(old(OnDisk()), OnDisk(), old(logged), logged)
                && (i, Idx(bn)) in slots && r.value == slots[(i, Idx(bn))] < |data|
                && pages == Filled(old(pages), i, bn)
                && OnlyAddrs(old(inode), inode, i)
      ensures (i, bn) in old(pages) ==> r.Some? && unchanged(this)
    {
      hide Good, Bits, Apart, NoneFree, Grew, Short, Logs, Tracks;
      PagesAt(inode, data, slots, owner, pages, nmeta, i, bn);
      if bn < NDIRECT {
        r := DirectSlot(i, bn, trans);
      } else if bn < MAXFILE {
        r := IndirectSlot(i, bn - NDIRECT, trans);
      } else {
        r := None;
      }
    }

    /** A direct address, or that of the indirect block. */
    method DirectSlot(i: nat, k: nat, trans: bool) returns (r: Option<nat>)
      requires Valid() && i < |inode| && k <= NDIRECT
      modifies this`bitmap, this`inode, this`data, this`slots, this`owner, this`pages, this`logged
      ensures r.None? <==> Short(old(slots), {(i, k)}, busy, size - nmeta) || (!trans && (i, k) !in old(slots))
      ensures r.Some? ==>
                && Valid()
                && (i, k) in slots && r.value == slots[(i, k)] < |data|
                && pages == (if (i, k) in old(slots) then old(pages) else PagesClaim(old(pages), i, k))
                && slots == old(slots)[(i, k) := r.value] && Grew(old(slots), slots, {(i, k)})
                && Logs(old(slots), slots, old(logged), logged, {(i, k)})
                && Tracks(old(OnDisk()), OnDisk(), old(logged), logged)
                && OnlyAddrs(old(inode), inode, i)
      ensures r.None? ==> slots == old(slots) && Structure()
      ensures (i, k) in old(slots) ==> r.Some? && unchanged(this)
    {
      hide Good, Bits, Apart, NoneFree, Grew, Short, Logs, Tracks;
      SlotAt(inode, data, slots, owner, pages, nmeta, i, k);
      TracksNone(OnDisk(), logged);
      OneShort((i, k));
      LogsNone(slots, logged, {(i, k)});
      var addr := inode[i].addrs[k];
      if addr == 0 {
        r := Balloc(trans);
        if r.None? { return; }
        addr := r.value;
        ClaimAddr(inode, data, slots, owner, pages, nmeta, i, k, addr);
        inode := inode[i := inode[i].(addrs := inode[i].addrs[k := addr])];
        ApartClaim(owner, busy, nmeta, size, addr, (i, k));
        LogsClaim(slots, (i, k), addr, old(logged));
        GrewOne(slots, (i, k), addr);
        slots, owner, pages := slots[(i, k) := addr], owner[addr := (i, k)], PagesClaim(pages, i, k);
      }
      GrewOne(slots, (i, k), addr);
      r := Some(addr);
    }

    /** An entry of the indirect block, which is allocated too if there is none. */
    method IndirectSlot(i: nat, j: nat, trans: bool) returns (r: Option<nat>)
      requires Valid() && i < |inode| && j < NINDIRECT
      modifies this`bitmap, this`inode, this`data, this`slots, this`owner, this`pages, this`logged
      ensures r.None? <==> || Short(old(slots), Wants(i, NDIRECT + j), busy, size - nmeta)
                           || (!trans && (i, NDIRECT + 1 + j) !in old(slots))
      ensures r.Some? ==>
                && Valid()
                && Grew(old(slots), slots, Wants(i, NDIRECT + j))
                && Logs(old(slots), slots, old(logged), logged, Wants(i, NDIRECT + j))
                && Tracks(old(OnDisk()), OnDisk(), old(logged), logged)
                && (i, NDIRECT + 1 + j) in slots && r.value == slots[(i, NDIRECT + 1 + j)] < |data|
                && pages == (if (i, NDIRECT + 1 + j) in old(slots) then old(pages)
                             else old(pages)[(i, NDIRECT + j) := Zero()])
                && OnlyAddrs(old(inode), inode, i)
      ensures (i, NDIRECT + 1 + j) in old(slots) ==> r.Some? && unchanged(this)
    {
      hide Good, Bits, Apart, NoneFree, Grew, Short, Wants, Logs, Tracks;
      EntryNeedsBlock(inode, data, slots, owner, pages, nmeta, i, j);
      r := DirectSlot(i, NDIRECT, trans);
      if r.None? {
        EntryShort(slots, i, j, busy, size - nmeta);
        return;
      }
      ghost var mid, midLogged, midDisk := slots, logged, OnDisk();
      r := EntrySlot(i, j, r.value, trans);
      if r.None? {
        if trans { MissingShort(old(slots), i, j); }
        return;
      }
      LogsEntry(old(slots), mid, slots, old(logged), midLogged, logged, i, j);
      TracksThen(old(OnDisk()), midDisk, OnDisk(), old(logged), midLogged, logged);
      GrewEntry(old(slots), mid, slots, i, j);
      Enough(old(slots), Wants(i, NDIRECT + j));
    }

    /** An entry of the indirect block. */
    method EntrySlot(i: nat, j: nat, ind: nat, trans: bool) returns (r: Option<nat>)
      requires Valid() && i < |inode| && j < NINDIRECT && (i, NDIRECT) in slots && ind == slots[(i, NDIRECT)]
      modifies this`bitmap, this`data, this`slots, this`owner, this`pages, this`logged
      ensures r.None? ==> slots == old(slots) && Structure() && (!trans || NoneFree(owner, busy, nmeta, size))
      ensures r.None? ==> (i, NDIRECT + 1 + j) !in slots
      ensures r.Some? ==>
                && Grew(old(slots), slots, {(i, NDIRECT + 1 + j)})
                && Logs(old(slots), slots, old(logged), logged, Wants(i, NDIRECT + j))
                && Tracks(old(OnDisk()), OnDisk(), old(logged), logged)
                && (i, NDIRECT + 1 + j) in slots && r.value == slots[(i, NDIRECT + 1 + j)] < |data|
                && pages == (if (i, NDIRECT + 1 + j) in old(slots) then old(pages)
                             else old(pages)[(i, NDIRECT + j) := Zero()])
      ensures (i, NDIRECT + 1 + j) in old(slots) ==> r.Some? && unchanged(this)
      ensures (i, NDIRECT + 1 + j) !in old(slots) && !trans ==> r.None?
      ensures r.Some? ==> Valid()
    {
      hide Good, Bits, Apart, NoneFree, Grew, Word, SetWord, Logs, Wants, Tracks, Zero, Blk;
      TracksNone(OnDisk(), logged);
      LogsNone(slots, logged, Wants(i, NDIRECT + j));
      EntryAt(inode, data, slots, owner, pages, nmeta, i, j);
      var addr := Word(data[ind], j);
      if addr == 0 {
        r := NewEntry(i, j, ind, trans);
      } else {
        GrewOne(slots, (i, NDIRECT + 1 + j), addr);
        r := Some(addr);
      }
    }

    /** A block for an empty entry of the indirect block. */
    method NewEntry(i: nat, j: nat, ind: nat, trans: bool) returns (r: Option<nat>)
      requires Valid() && i < |inode| && j < NINDIRECT && (i, NDIRECT) in slots && ind == slots[(i, NDIRECT)]
      requires (i, NDIRECT + 1 + j) !in slots && ind < |data| && |data[ind].bytes| == BSIZE
      modifies this`bitmap, this`data, this`slots, this`owner, this`pages, this`logged
      ensures r.None? <==> !trans || NoneFree(old(owner), busy, nmeta, size)
      ensures r.None? ==> slots == old(slots) && owner == old(owner) && Structure()
      ensures r.Some? ==>
                && r.value < |data| && slots == old(slots)[(i, NDIRECT + 1 + j) := r.value]
                && pages == old(pages)[(i, NDIRECT + j) := Zero()]
                && Grew(old(slots), slots, {(i, NDIRECT + 1 + j)})
                && Logs(old(slots), slots, old(logged), logged, Wants(i, NDIRECT + j))
                && Tracks(old(OnDisk()), OnDisk(), old(logged), logged)
      ensures r.Some? ==> Valid()
    {
      hide Good, Bits, Apart, NoneFree, Grew, Word, SetWord, Logs, Wants, Tracks, Zero, Blk;
      ghost var s := (i, NDIRECT + 1 + j);
      EntryAt(inode, data, slots, owner, pages, nmeta, i, j);
      r := Balloc(trans);
      if r.None? { return; }
      var addr := r.value;
      LogsNewEntry(slots, i, j, ind, addr, old(logged));
      ClaimEntry(inode, data, slots, owner, pages, nmeta, i, j, addr);
      StoreBlock(ind, SetWord(data[ind], j, addr));
      ApartClaim(owner, busy, nmeta, size, addr, s);
      GrewOne(slots, s, addr);
      slots, owner, pages := slots[s := addr], owner[addr := s], pages[(i, NDIRECT + j) := Zero()];
    }

    /** A block's contents are changed, and logged. */
    method StoreBlock(b: nat, blk: Block)
      requires b < |data|
      modifies this`data, this`logged
      ensures data == old(data)[b := blk] && logged == old(logged) + {DataAt(b)}
      ensures forall was, had | Tracks(was, old(OnDisk()), had, old(logged)) :: Tracks(was, OnDisk(), had, logged)
    {
      TracksData(OnDisk(), b, blk, logged);
      data := data[b := blk];
      logged := logged + {DataAt(b)};
    }

    /** bfree, of a block whose bit is set: the panic is unreachable. */
    method Bfree(b: nat, ghost owned: set<nat>)
      requires Bits(bitmap, owned, nmeta, size) && nmeta <= b < size && b in owned
      modifies this`bitmap, this`logged
      ensures logged == old(logged) + {BitmapAt(Blk(b))}
      ensures Tracks(old(OnDisk()), OnDisk(), old(logged), logged)
      ensures Bits(bitmap, owned - {b}, nmeta, size)
    {
      hide Has, Blk, Byt, Bt, Tracks;
      var ok, bits := ClearBit(bitmap, size, b);
      assert ok;
      TracksBits(OnDisk(), Blk(b), bits, logged);
      bitmap := bits;
      logged := logged + {BitmapAt(Blk(b))};
    }

    /** itrunc: the file's blocks are given back, each once. */
    method Itrunc(i: nat)
      requires Valid() && i < |inode| == |dinode|
      modifies this`bitmap, this`inode, this`dinode, this`slots, this`owner, this`pages, this`logged
      ensures Valid()
      ensures Tracks(old(OnDisk()), OnDisk(), old(logged), logged)
      ensures pages == DropFile(old(pages), i)
      ensures slots == map s | s in old(slots) && s.0 != i :: old(slots)[s]
      ensures |inode| == old(|inode|) && inode[i] == old(inode[i]).(size := 0, addrs := inode[i].addrs)
      ensures inode == old(inode)[i := inode[i]] && dinode == old(dinode)[i := inode[i]]
      ensures data == old(data)
    {
      hide Good, Bits, Apart, NoneFree, Grew, Tracks;
      TruncDirect(i);
      ghost var d, had := OnDisk(), logged;
      TruncIndirect(i);
      TracksThen(old(OnDisk()), d, OnDisk(), old(logged), had, logged);
      GoodResize(inode, data, slots, owner, pages, nmeta, i, inode[i].(size := 0));
      inode := inode[i := inode[i].(size := 0)];
      UpdateInode(i);
    }

    /** iupdate. */
    method UpdateInode(i: nat)
      requires i < |inode| == |dinode|
      modifies this`dinode, this`logged
      ensures dinode == old(dinode)[i := inode[i]] && logged == old(logged) + {InodeAt(i / IPB)}
      ensures forall was, had | Tracks(was, old(OnDisk()), had, old(logged)) :: Tracks(was, OnDisk(), had, logged)
    {
      TracksInode(OnDisk(), i, inode[i], logged);
      dinode := dinode[i := inode[i]];
      logged := logged + {InodeAt(i / IPB)};
    }

    method TruncDirect(i: nat)
      requires Valid() && i < |inode|
      modifies this`bitmap, this`inode, this`slots, this`owner, this`pages, this`logged
      ensures Valid()
      ensures Tracks(old(OnDisk()), OnDisk(), old(logged), logged)
      ensures pages == Beyond(old(pages), i, NDIRECT) && slots == Beyond(old(slots), i, NDIRECT)
      ensures |inode| == old(|inode|) && inode == old(inode)[i := old(inode[i]).(addrs := inode[i].addrs)]
    {
      hide Valid, Structure, Beyond, Tracks;
      TracksNone(OnDisk(), logged);
      BeyondNone(pages, i);
      BeyondNone(slots, i);
      var k := 0;
      while k < NDIRECT
        invariant k <= NDIRECT && Valid() && Tracks(old(OnDisk()), OnDisk(), old(logged), logged)
        invariant pages == Beyond(old(pages), i, k) && slots == Beyond(old(slots), i, k)
        invariant |inode| == old(|inode|) && inode == old(inode)[i := old(inode[i]).(addrs := inode[i].addrs)]
      {
        BeyondNext(old(pages), i, k);
        BeyondNext(old(slots), i, k);
        ghost var d, had := OnDisk(), logged;
        DropAddr(i, k);
        TracksThen(old(OnDisk()), d, OnDisk(), old(logged), had, logged);
        k := k + 1;
      }
    }

    /** Its body: one direct block, if there is one. */
    method DropAddr(i: nat, k: nat)
      requires Valid() && i < |inode| && k < NDIRECT
      modifies this`bitmap, this`inode, this`slots, this`owner, this`pages, this`logged
      ensures pages == old(pages) - {(i, k)} && slots == old(slots) - {(i, k)}
      ensures |inode| == old(|inode|) && inode == old(inode)[i := old(inode[i]).(addrs := inode[i].addrs)]
      ensures Tracks(old(OnDisk()), OnDisk(), old(logged), logged)
      ensures Valid()
    {
      hide Good, Bits, Apart, Tracks;
      TracksNone(OnDisk(), logged);
      SlotAt(inode, data, slots, owner, pages, nmeta, i, k);
      PagesAt(inode, data, slots, owner, pages, nmeta, i, k);
      var addr := inode[i].addrs[k];
      if addr != 0 {
        FreeAddr(inode, data, slots, owner, pages, nmeta, i, k);
        OwnerAt(inode, data, slots, owner, pages, nmeta, (i, k));
        Bfree(addr, owner.Keys + busy);
        inode := inode[i := inode[i].(addrs := inode[i].addrs[k := 0])];
        ApartFree(owner, busy, nmeta, size, addr);
        slots, owner, pages := slots - {(i, k)}, owner - {addr}, pages - {(i, k)};
      }
    }

    method TruncIndirect(i: nat)
      requires Valid() && i < |inode|
      modifies this`bitmap, this`inode, this`slots, this`owner, this`pages, this`logged
      ensures Valid()
      ensures Tracks(old(OnDisk()), OnDisk(), old(logged), logged)
      ensures pages == CutPages(old(pages), i) && slots == CutSlots(old(slots), i)
      ensures |inode| == old(|inode|) && inode == old(inode)[i := old(inode[i]).(addrs := inode[i].addrs)]
    {
      hide Good, Bits, Apart, Tracks, Left, CutSlots, CutOwner, CutPages;
      TracksNone(OnDisk(), logged);
      SlotAt(inode, data, slots, owner, pages, nmeta, i, NDIRECT);
      var ind := inode[i].addrs[NDIRECT];
      if ind != 0 {
        DropEntries(i);
        OwnerAt(inode, data, slots, owner, pages, nmeta, (i, NDIRECT));
        LeftAll(inode, data, slots, owner, pages, nmeta, i);
        ghost var d, had := OnDisk(), logged;
        Bfree(ind, Left(owner, i, NINDIRECT) + busy);
        TracksThen(old(OnDisk()), d, OnDisk(), old(logged), had, logged);
        ApartLeft(owner, busy, nmeta, size, Left(owner, i, NINDIRECT), ind);
        ApartCut(owner, busy, nmeta, size, i);
        FreeIndirect(inode, data, slots, owner, pages, nmeta, i);
        inode := inode[i := inode[i].(addrs := inode[i].addrs[NDIRECT := 0])];
        slots, owner, pages := CutSlots(slots, i), CutOwner(owner, i), CutPages(pages, i);
      } else {
        NoIndirect(inode, data, slots, owner, pages, nmeta, i);
      }
    }

    /** Its loop: the blocks in the indirect block. */
    method DropEntries(i: nat)
      requires Valid() && i < |inode| && (i, NDIRECT) in slots
      modifies this`bitmap, this`logged
      ensures Bits(bitmap, Left(owner, i, NINDIRECT) + busy, nmeta, size)
      ensures Tracks(old(OnDisk()), OnDisk(), old(logged), logged)
    {
      hide Good, Bits, Apart, Word, Tracks;
      TracksNone(OnDisk(), logged);
      SlotAt(inode, data, slots, owner, pages, nmeta, i, NDIRECT);
      var ind := inode[i].addrs[NDIRECT];
      var j := 0;
      LeftNone(owner, i);
      while j < NINDIRECT
        invariant Tracks(old(OnDisk()), OnDisk(), old(logged), logged)
        invariant j <= NINDIRECT && Bits(bitmap, Left(owner, i, j) + busy, nmeta, size)
      {
        EntryAt(inode, data, slots, owner, pages, nmeta, i, j);
        var addr := Word(data[ind], j);
        LeftNext(inode, data, slots, owner, pages, nmeta, i, j);
        if addr != 0 {
          ghost var d, had := OnDisk(), logged;
          OwnerAt(inode, data, slots, owner, pages, nmeta, (i, NDIRECT + 1 + j));
          Bfree(addr, Left(owner, i, j) + busy);
          TracksThen(old(OnDisk()), d, OnDisk(), old(logged), had, logged);
          ApartLeft(owner, busy, nmeta, size, Left(owner, i, j), addr);
        }
        j := j + 1;
      }
    }

    /** readi: the slice of the file's bytes, None for a panic in bmap.  It changes
        no file's bytes, and nothing at all if every block below the size is mapped.
        trans[k] says whether a transaction is running when it comes to its k-th block. */
    method Readi(i: nat, off: nat, n: nat, trans: seq<bool>) returns (r: Option<seq<nat>>)
      requires Valid() && i < |inode| && PagesSized(pages) && off < UINT && n < UINT && |trans| > n / BSIZE + 1
      modifies this`bitmap, this`inode, this`data, this`slots, this`owner, this`pages, this`logged
      ensures off > old(inode[i].size) || off + n >= UINT ==> r == Some([]) && unchanged(this)
      ensures off <= old(inode[i].size) && off + n < UINT ==>
                var e := if off + n < old(inode[i].size) then off + n else old(inode[i].size);
                && (r.None? <==> || Refused(old(slots), i, off, e - off, busy, size - nmeta)
                                 || Untimely(old(pages), i, off, e - off, trans))
                && (r.Some? ==> r.value == old(Bytes(pages, i, inode[i].size))[off..e])
      ensures r.Some? ==> Tracks(old(OnDisk()), OnDisk(), old(logged), logged)
      ensures r.Some? ==> Valid() && PagesSized(pages) && SameBytes(old(pages), pages)
      ensures r.Some? ==> OnlyAddrs(old(inode), inode, i)
      ensures Mapped(old(pages), i, old(inode[i].size)) && old(inode[i].size) <= MAXFILE * BSIZE ==>
                && r.Some?
                && unchanged(this)
    {
      hide Good, Bits, Apart, NoneFree, Grew, Bytes, SameBytes, Short, Wanted, Wants, Filled, Tracks;
      TracksNone(OnDisk(), logged);
      assert inode == inode[i := inode[i].(addrs := inode[i].addrs)];
      SameBytesSelf(pages);
      if off > inode[i].size || (off + n) % UINT < off {
        return Some([]);
      }
      var n := if off + n > inode[i].size then inode[i].size - off else n;
      r := ReadBlocks(i, off, n, inode[i].size, trans);
    }

    /** readi's loop. */
    method ReadBlocks(i: nat, off: nat, n: nat, ghost total: nat, trans: seq<bool>) returns (r: Option<seq<nat>>)
      requires Valid() && i < |inode| && PagesSized(pages) && off + n <= total && |trans| > n / BSIZE + 1
      modifies this`bitmap, this`inode, this`data, this`slots, this`owner, this`pages, this`logged
      ensures r.None? <==> Refused(old(slots), i, off, n, busy, size - nmeta) || Untimely(old(pages), i, off, n, trans)
      ensures r.Some? ==> r.value == old(Bytes(pages, i, total))[off..off + n]
      ensures r.Some? ==> Tracks(old(OnDisk()), OnDisk(), old(logged), logged)
      ensures r.Some? ==> Valid() && PagesSized(pages) && SameBytes(old(pages), pages)
      ensures r.Some? ==> OnlyAddrs(old(inode), inode, i)
      ensures Mapped(old(pages), i, total) && total <= MAXFILE * BSIZE ==> r.Some? && unchanged(this)
    {
      hide Valid, Structure, Bytes, SameBytes, Short, Wants, Stop, PagesSized, Mapped, Part, OnlyAddrs, Refused,
           Untimely,
           ReadSoFar, Filled, Grew, Tracks;
      TracksNone(OnDisk(), logged);
      var dst := [];
      var tot, cur := 0, off;
      ReadNone(slots, pages, inode, i, off, total, trans);
      while tot < n
        invariant tot <= n && cur == off + tot && Valid() && i < |inode| && PagesSized(pages)
        invariant ReadSoFar(old(slots), old(pages), old(inode), slots, pages, inode, i, off, tot, total, dst, trans)
        invariant tot == 0 || tot == n || cur % BSIZE == 0
        invariant Mapped(old(pages), i, total) ==> unchanged(this)
        invariant Tracks(old(OnDisk()), OnDisk(), old(logged), logged)
      {
        var m := Part(cur, n - tot);
        ghost var before, had, ino, d, hadLogged := pages, slots, inode, OnDisk(), logged;
        ReadHere(old(slots), old(pages), old(inode), slots, pages, inode, i, off, tot, n, total, dst, trans);
        if Mapped(old(pages), i, total) { MappedAt(pages, i, total, cur); }
        var k := cur / BSIZE - off / BSIZE;
        var chunk := ReadBlock(i, cur, m, total, trans[k]);
        if chunk.None? {
          ReadFails(old(slots), old(pages), old(inode), had, before, ino, i, off, tot, m, n, total, dst, trans,
                    busy, size - nmeta);
          return None;
        }
        TracksThen(old(OnDisk()), d, OnDisk(), old(logged), hadLogged, logged);
        ReadStep(old(slots), old(pages), old(inode), had, before, ino, slots, pages, inode, i, off, tot, m, total, dst,
                 chunk.value, trans);
        dst := dst + chunk.value;
        tot, cur := tot + m, cur + m;
      }
      ReadGrew(old(slots), old(pages), old(inode), slots, pages, inode, i, off, tot, total, dst, trans);
      Enough(old(slots), Wanted(i, off / BSIZE, Stop(off, n)));
      ReadEnds(old(slots), old(pages), old(inode), slots, pages, inode, i, off, n, total, dst, trans, busy,
        size - nmeta);
      return Some(dst);
    }

    /** Its body: the part of one block. */
    method ReadBlock(i: nat, cur: nat, m: nat, ghost total: nat, trans: bool) returns (r: Option<seq<nat>>)
      requires Valid() && i < |inode| && PagesSized(pages) && cur + m <= total && m <= BSIZE - cur % BSIZE
      modifies this`bitmap, this`inode, this`data, this`slots, this`owner, this`pages, this`logged
      ensures r.None? <==> || cur / BSIZE >= MAXFILE || Short(old(slots), Wants(i, cur / BSIZE), busy, size - nmeta)
                           || (!trans && (i, cur / BSIZE) !in old(pages))
      ensures r.Some? ==> pages == Filled(old(pages), i, cur / BSIZE)
      ensures r.Some? ==> Tracks(old(OnDisk()), OnDisk(), old(logged), logged)
      ensures r.Some? ==> r.value == old(Bytes(pages, i, total))[cur..cur + m]
      ensures r.Some? ==> Valid() && SameBytes(old(pages), pages) && Grew(old(slots), slots, Wants(i, cur / BSIZE))
      ensures r.Some? ==> OnlyAddrs(old(inode), inode, i)
      ensures (i, cur / BSIZE) in old(pages) ==> r.Some? && unchanged(this)
    {
      hide Good, Bits, Apart, NoneFree, Grew, Bytes, SameBytes, Short, Wants, Filled, PagesSized, Logs, Tracks;
      var addr := Bmap(i, cur / BSIZE, trans);
      if addr.None? { return None; }
      SameBytesSelf(old(pages));
      Reread(old(pages), old(pages), pages, i, cur, m, total);
      PageAt(inode, data, slots, owner, pages, nmeta, i, cur / BSIZE);
      return Some(data[addr.value].bytes[cur % BSIZE..cur % BSIZE + m]);
    }

    /** writei, with the source bytes at hand: None is a panic for want of blocks. */
    method Writei(i: nat, src: seq<nat>, off: nat) returns (r: Option<int>)
      requires Valid() && i < |inode| == |dinode| && PagesSized(pages) && off < UINT && |src| < UINT
      modifies this`bitmap, this`inode, this`dinode, this`data, this`slots, this`owner, this`pages, this`logged
      ensures r == Some(-1) <==> off > old(inode[i].size) || (off + |src|) % UINT < off || off + |src| > MAXFILE * BSIZE
      ensures r == Some(-1) ==> unchanged(this)
      ensures r != Some(-1) ==>
                (r.None? <==> Short(old(slots), Wanted(i, off / BSIZE, Stop(off, |src|)), busy, size - nmeta))
      ensures r.Some? && r.value != -1 ==>
                && r.value == |src| && |inode| == old(|inode|) && PagesSized(pages)
                && inode[i].size == (if off + |src| > old(inode[i].size) then off + |src| else old(inode[i].size))
                && (Mapped(old(pages), i, old(inode[i].size)) ==> Mapped(pages, i, inode[i].size))
                && Spliced(old(pages), old(inode[i].size), pages, inode[i].size, i, off, src)
                && DropFile(pages, i) == DropFile(old(pages), i)
                && inode == old(inode)[i := inode[i]] && dinode == old(dinode)[i := inode[i]]
      ensures r.Some? && r.value != -1 ==>
                var wanted := Wanted(i, off / BSIZE, Stop(off, |src|));
                && Grew(old(slots), slots, wanted)
                && Logs(old(slots), slots, old(logged) + {InodeAt(i / IPB)}, logged, wanted)
      ensures r.Some? ==> Tracks(old(OnDisk()), OnDisk(), old(logged), logged)
      ensures r.Some? ==> Valid()
    {
      hide Good, Bits, Apart, NoneFree, Grew, Bytes, Written, Short, Wanted, Wants, Filled, Logs, Tracks;
      TracksNone(OnDisk(), logged);
      if off > inode[i].size || (off + |src|) % UINT < off {
        return Some(-1);
      }
      if off + |src| > MAXFILE * BSIZE {
        return Some(-1);
      }
      var tot := WriteBlocks(i, src, off);
      if tot.None? { return None; }
      WrittenBytes(old(pages), pages, i, old(inode[i].size), off, src);
      if off + |src| > inode[i].size {
        GoodResize(inode, data, slots, owner, pages, nmeta, i, inode[i].(size := off + |src|));
        inode := inode[i := inode[i].(size := off + |src|)];
      }
      LogsAlso(old(slots), slots, old(logged), logged, Wanted(i, off / BSIZE, Stop(off, |src|)), InodeAt(i / IPB));
      UpdateInode(i);
      WrittenOthers(old(pages), pages, i, old(inode[i].size), off, src);
      return Some(tot.value);
    }

    /** writei's loop. */
    method WriteBlocks(i: nat, src: seq<nat>, off: nat) returns (r: Option<nat>)
      requires Valid() && i < |inode| && PagesSized(pages) && off <= inode[i].size && off + |src| <= MAXFILE * BSIZE
      modifies this`bitmap, this`inode, this`data, this`slots, this`owner, this`pages, this`logged
      ensures r.None? <==> Short(old(slots), Wanted(i, off / BSIZE, Stop(off, |src|)), busy, size - nmeta)
      ensures r.Some? ==>
                && r.value == |src| && Valid() && OnlyAddrs(old(inode), inode, i)
                && Grew(old(slots), slots, Wanted(i, off / BSIZE, Stop(off, |src|)))
                && Logs(old(slots), slots, old(logged), logged, Wanted(i, off / BSIZE, Stop(off, |src|)))
                && Written(old(pages), pages, i, old(inode[i].size), off, src, |src|)
                && Tracks(old(OnDisk()), OnDisk(), old(logged), logged)
    {
      hide Valid, Structure, Grew, Bytes, Written, Short, Wanted, Wants, Filled, Logs, Stop, OnlyAddrs, Part,
           Tracks;
      TracksNone(OnDisk(), logged);
      WrittenNone(pages, i, inode[i].size, off, src);
      LogsNone(slots, logged, Wanted(i, off / BSIZE, Stop(off, 0)));
      GrewNone(slots, i, off);
      OnlyAddrsSelf(inode, i);
      var n := |src|;
      var tot, cur := 0, off;
      while tot < n
        invariant tot <= n && cur == off + tot && Valid() && i < |inode| && OnlyAddrs(old(inode), inode, i)
        invariant Grew(old(slots), slots, Wanted(i, off / BSIZE, Stop(off, tot)))
        invariant Logs(old(slots), slots, old(logged), logged, Wanted(i, off / BSIZE, Stop(off, tot)))
        invariant Written(old(pages), pages, i, old(inode[i].size), off, src, tot)
        invariant Tracks(old(OnDisk()), OnDisk(), old(logged), logged)
      {
        ghost var before, had, hadLogged, ino, d := pages, slots, logged, inode, OnDisk();
        var m := Part(cur, n - tot);
        var ok := WriteBlock(i, cur, src[tot..tot + m]);
        if !ok {
          RoundShort(old(slots), had, i, off, tot, m, n, busy, size - nmeta);
          return None;
        }
        OnlyAddrsThen(old(inode), ino, inode, i);
        TracksThen(old(OnDisk()), d, OnDisk(), old(logged), hadLogged, logged);
        GrewRound(old(slots), had, slots, i, off, tot, m);
        LogsRound(old(slots), had, slots, old(logged), hadLogged, logged, i, off, tot, m);
        WriteStep(old(pages), before, i, old(inode[i].size), off, src, tot, m, Filled(before, i, cur / BSIZE));
        tot, cur := tot + m, cur + m;
      }
      Enough(old(slots), Wanted(i, off / BSIZE, Stop(off, n)));
      return Some(tot);
    }

    /** Its body: the part of one block. */
    method WriteBlock(i: nat, cur: nat, chunk: seq<nat>) returns (ok: bool)
      requires Valid() && i < |inode| && cur / BSIZE < MAXFILE && |chunk| <= BSIZE - cur % BSIZE
      modifies this`bitmap, this`inode, this`data, this`slots, this`owner, this`pages, this`logged
      ensures !ok <==> Short(old(slots), Wants(i, cur / BSIZE), busy, size - nmeta)
      ensures ok ==>
                && OnlyAddrs(old(inode), inode, i) && Grew(old(slots), slots, Wants(i, cur / BSIZE))
                && Logs(old(slots), slots, old(logged), logged, Wants(i, cur / BSIZE))
      ensures ok ==> Tracks(old(OnDisk()), OnDisk(), old(logged), logged)
      ensures ok ==>
                var p, mid := (i, cur / BSIZE), Filled(old(pages), i, cur / BSIZE);
                && p in mid && |mid[p].bytes| == BSIZE
                && pages == mid[p := Block(Patch(mid[p].bytes, cur % BSIZE, chunk))]
      ensures ok ==> Valid()
    {
      hide Good, Bits, Apart, NoneFree, Grew, Short, Wants, Filled, Logs, OnlyAddrs, Tracks;
      var addr := Bmap(i, cur / BSIZE, true);
      if addr.None? { return false; }
      FilledAt(old(pages), i, cur / BSIZE);
      PageAt(inode, data, slots, owner, pages, nmeta, i, cur / BSIZE);
      var blk := Block(Patch(data[addr.value].bytes, cur % BSIZE, chunk));
      StorePage(inode, data, slots, owner, pages, nmeta, i, cur / BSIZE, blk);
      LogsWanted(old(slots), slots, old(logged), logged, i, cur / BSIZE);
      StoreBlock(addr.value, blk);
      pages := pages[(i, cur / BSIZE) := blk];
      return true;
    }

    /** writei and then readi of a range that covers the write: the bytes written are read.  In a
        file without holes it fails exactly if the write does, for want of blocks. */
    method WriteRead(i: nat, src: seq<nat>, off: nat, a: nat, n: nat, trans: seq<bool>) returns (r: Option<seq<nat>>)
      requires Valid() && i < |inode| == |dinode| && PagesSized(pages) && |trans| > n / BSIZE + 1
      requires a <= off <= inode[i].size && off + |src| <= MAXFILE * BSIZE && off + |src| <= a + n < UINT
      modifies this`bitmap, this`inode, this`dinode, this`data, this`slots, this`owner, this`pages, this`logged
      ensures r.Some? ==> off - a + |src| <= |r.value| && r.value[off - a..off - a + |src|] == src
      ensures Mapped(old(pages), i, old(inode[i].size)) && old(inode[i].size) <= MAXFILE * BSIZE ==>
                (r.None? <==> Short(old(slots), Wanted(i, off / BSIZE, Stop(off, |src|)), busy, size - nmeta))
    {
      hide Valid, Structure, Bytes, Spliced, Short, Wanted, Logs, Grew, Tracks, SameBytes, Refused, Untimely, Mapped,
           DropFile, OnlyAddrs;
      ghost var was, size := pages, inode[i].size;
      var w := Writei(i, src, off);
      if w.None? { return None; }
      ghost var now, size' := pages, inode[i].size;
      r := Readi(i, a, n, trans);
      if r.Some? {
        ReadBack(was, size, now, size', i, off, src, a, if a + n < size' then a + n else size');
      }
    }

    /** filewrite's loop, for a file with no holes: None is writei's panic.  Each transaction
        logs at most MAXOPBLOCKS blocks.  All of src is written, or, exactly if the offset is
        past the end or the file would get too large, only whole chunks of it. */
    method Filewrite(i: nat, src: seq<nat>, off: nat) returns (r: Option<int>, off': nat, ghost txns: seq<set<Spot>>)
      requires Valid() && i < |inode| == |dinode| && PagesSized(pages) && off < UINT && |src| < UINT / 2
      requires Mapped(pages, i, inode[i].size)
      modifies this`bitmap, this`inode, this`dinode, this`data, this`slots, this`owner, this`pages, this`logged
      ensures forall k | 0 <= k < |txns| :: |txns[k]| <= CrashLog.MAXOPBLOCKS
      ensures r.Some? ==>
                && off <= off' <= off + |src| && r.value == (if off' == off + |src| then |src| else -1)
                && (off' == off + |src| <==> src == [] || (off <= old(inode[i].size) && off + |src| <= MAXFILE * BSIZE))
                && (off' != off + |src| ==> (off' - off) % CHUNK == 0)
      ensures r.Some? ==> |inode| == old(|inode|) && PagesSized(pages) && Mapped(pages, i, inode[i].size)
      ensures r.Some? ==> FileWritten(old(pages), old(inode[i].size), pages, inode[i].size, i, off, src[..off' - off])
      ensures r.Some? ==> DropFile(pages, i) == DropFile(old(pages), i) && Valid()
    {
      hide Structure, Valid, Mapped, PagesSized, FileWritten, DropFile, Spliced, Short, Wanted, Tracks;
      txns := [];
      var n := |src|;
      var at := 0;
      FileWrittenNone(pages, i, inode[i].size, off, src);
      while at < n
        invariant 0 <= at <= n && Valid() && i < |inode| == |dinode| && |inode| == old(|inode|)
        invariant PagesSized(pages) && Mapped(pages, i, inode[i].size)
        invariant forall k | 0 <= k < |txns| :: |txns[k]| <= CrashLog.MAXOPBLOCKS
        invariant at > 0 ==> off <= old(inode[i].size) && off + at <= inode[i].size && off + at <= MAXFILE * BSIZE
        invariant at == 0 ==> inode[i].size == old(inode[i].size)
        invariant at < n ==> at % CHUNK == 0
        invariant FileWritten(old(pages), old(inode[i].size), pages, inode[i].size, i, off, src[..at])
        invariant DropFile(pages, i) == DropFile(old(pages), i)
      {
        var n1 := if n - at > CHUNK then CHUNK else n - at;
        ghost var before, size := pages, inode[i].size;
        var w := WriteChunk(i, src[at..at + n1], off + at);
        if w.None? { return None, off + at, txns; }
        txns := txns + [logged];
        if w.value != n1 {
          break;
        }
        FileWrittenMore(old(pages), old(inode[i].size), before, size, pages, inode[i].size, i, off, src, at, n1);
        at := at + n1;
      }
      return Some(if at == n then n else -1), off + at, txns;
    }

    /** One transaction of filewrite. */
    method WriteChunk(i: nat, src: seq<nat>, off: nat) returns (r: Option<int>)
      requires Valid() && i < |inode| == |dinode| && PagesSized(pages) && off < UINT && 0 < |src| <= CHUNK
      requires Mapped(pages, i, inode[i].size)
      modifies this`bitmap, this`inode, this`dinode, this`data, this`slots, this`owner, this`pages, this`logged
      ensures r.Some? ==> |logged| <= CrashLog.MAXOPBLOCKS && |inode| == old(|inode|) && |dinode| == old(|dinode|)
      ensures r.Some? ==> Tracks(old(OnDisk()), OnDisk(), {}, logged)
      ensures r.Some? ==> r.value == if off <= old(inode[i].size) && off + |src| <= MAXFILE * BSIZE then |src| else -1
      ensures r.Some? ==> PagesSized(pages) && Mapped(pages, i, inode[i].size)
      ensures r == Some(-1) ==> pages == old(pages) && inode == old(inode)
      ensures r == Some(|src|) ==>
                && inode[i].size == (if off + |src| > old(inode[i].size) then off + |src| else old(inode[i].size))
                && Spliced(old(pages), old(inode[i].size), pages, inode[i].size, i, off, src)
      ensures r.Some? ==> DropFile(pages, i) == DropFile(old(pages), i) && Valid()
    {
      hide Good, Bits, Apart, NoneFree, Grew, Logs, Wanted, Short, Mapped, PagesSized, DropFile, Spliced,
           Tracks;
      ghost var had := slots;
      FirstMapped(inode, data, slots, owner, pages, nmeta, i, inode[i].size, off);
      logged := {};
      assert {} + {InodeAt(i / IPB)} == {InodeAt(i / IPB)};
      r := Writei(i, src, off);
      if r.Some? && r.value != -1 {
        ChunkBudget(had, slots, logged, i, off, |src|, InodeAt(i / IPB));
      }
    }
  }
}
