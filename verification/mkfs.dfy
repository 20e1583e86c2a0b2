/** The image builder (mkfs/mkfs.c): it establishes what the kernel keeps. */
module Mkfs {
  import opened Seqs
  import opened Inodes
  import opened Bitmap
  import opened FileSystem

  /** Blocks are handed out in order: the owned ones are those below the counter,
      and the others are still zero. */
  ghost predicate InOrder(owner: Owner, data: seq<Block>, lo: nat, freeblock: nat) {
    && lo <= freeblock <= |data|
    && (forall b: nat :: b in owner <==> lo <= b < freeblock)
    && (forall b | freeblock <= b < |data| :: data[b] == Zero())
  }

  /** Only inodes that ialloc has given out have blocks. */
  ghost predicate Begun(slots: Slots, freeinode: nat) {
    forall s | s in slots :: s.0 < freeinode
  }

  /** A file's blocks are exactly those below its size. */
  ghost predicate Exact(inodes: seq<Inode>, pages: Pages) {
    forall i: nat, bn: nat | i < |inodes| :: (i, bn) in pages <==> bn * BSIZE < inodes[i].size
  }

  /** The same for one file, up to a given size. */
  ghost predicate ExactTo(pages: Pages, i: nat, size: nat) {
    forall bn: nat :: (i, bn) in pages <==> bn * BSIZE < size
  }

  lemma ExactMapped(pages: Pages, i: nat, size: nat)
    requires ExactTo(pages, i, size)
    ensures Mapped(pages, i, size)
  {
    forall o: nat | o < size ensures (i, o / BSIZE) in pages {
      assert (o / BSIZE) * BSIZE <= o;
    }
  }

  /** m bytes more, within the block of offset cur, map that block and no other. */
  lemma ExactNext(pages: Pages, i: nat, cur: nat, m: nat, blk: Block)
    requires ExactTo(pages, i, cur) && 0 < m <= BSIZE - cur % BSIZE
    ensures ExactTo(pages[(i, cur / BSIZE) := blk], i, cur + m)
  {
    forall bn: nat ensures bn * BSIZE < cur + m <==> bn * BSIZE < cur || bn == cur / BSIZE {
      if bn < cur / BSIZE { assert bn * BSIZE < cur; }
      if bn > cur / BSIZE { assert bn * BSIZE >= (cur / BSIZE + 1) * BSIZE; }
    }
  }

  lemma ExactOthers(inodes: seq<Inode>, was: Pages, now: Pages, i: nat, ino: Inode)
    requires Exact(inodes, was) && i < |inodes| && DropFile(now, i) == DropFile(was, i) && ExactTo(now, i, ino.size)
    ensures Exact(inodes[i := ino], now)
  {
    forall j: nat, bn: nat | j < |inodes| ensures (j, bn) in now <==> bn * BSIZE < inodes[i := ino][j].size {
      if j != i {
        assert (j, bn) in DropFile(now, i) <==> (j, bn) in now;
        assert (j, bn) in DropFile(was, i) <==> (j, bn) in was;
      }
    }
  }

  /** The size main gives the root directory at the end. */
  function RoundedSize(size: nat): nat {
    (size / BSIZE + 1) * BSIZE
  }

  /** Rounding the root's size up to the next block keeps every block below it
      mapped exactly if the size was not a whole number of blocks. */
  lemma RoundedMappedIff(pages: Pages, i: nat, size: nat)
    requires ExactTo(pages, i, size)
    ensures Mapped(pages, i, RoundedSize(size)) <==> size % BSIZE != 0
  {
    ExactMapped(pages, i, size);
    var last := size / BSIZE;
    if size % BSIZE == 0 {
      assert (i, (last * BSIZE) / BSIZE) !in pages;
      assert last * BSIZE < RoundedSize(size);
    } else {
      forall o: nat | o < RoundedSize(size) ensures (i, o / BSIZE) in pages {
        assert o / BSIZE <= last && (o / BSIZE) * BSIZE <= last * BSIZE < size;
      }
    }
  }

  /** As many slots are in use as the counter has given out. */
  lemma Counted(slots: Slots, owner: Owner, data: seq<Block>, lo: nat, freeblock: nat)
    requires Owns(slots, owner, lo, |data|) && InOrder(owner, data, lo, freeblock)
    ensures |slots.Keys| == freeblock - lo
  {
    AsManySlots(slots, owner, lo, |data|);
    assert owner.Keys == Range(lo, freeblock);
  }

  lemma InOrderBelow(owner: Owner, data: seq<Block>, lo: nat, freeblock: nat)
    requires InOrder(owner, data, lo, freeblock)
    ensures lo <= freeblock <= |data|
  {
  }

  lemma OnlyAddrsSize(was: seq<Inode>, now: seq<Inode>, i: nat)
    requires OnlyAddrs(was, now, i)
    ensures i < |was| == |now| && now[i].size == was[i].size
  {
  }

  lemma FilledOver(pages: Pages, i: nat, bn: nat, blk: Block)
    ensures Filled(pages, i, bn)[(i, bn) := blk] == pages[(i, bn) := blk]
  {
  }

  class Image {
    const nmeta: nat
    var freeinode: nat
    var freeblock: nat
    var inodes: seq<Inode>
    var data: seq<Block>
    ghost var slots: Slots
    ghost var owner: Owner
    ghost var pages: Pages

    ghost predicate Valid()
      reads this
    {
      && |data| < 0x1_0000_0000
      && Good(inodes, data, slots, owner, pages, nmeta)
      && InOrder(owner, data, nmeta, freeblock)
      && Begun(slots, freeinode)
    }

    /** An image of zeroed blocks. */
    constructor (size: nat, nmeta: nat, ninodes: nat)
      requires 0 < nmeta <= size < 0x1_0000_0000
      ensures Valid() && Exact(inodes, pages)
      ensures |inodes| == ninodes && |data| == size && freeinode == 1 && this.nmeta == nmeta
      ensures forall i | 0 <= i < ninodes :: inodes[i].size == 0
    {
      this.nmeta, freeinode, freeblock := nmeta, 1, nmeta;
      inodes := seq(ninodes, _ => Inode(0, 0, 0, seq(NDIRECT + 1, _ => 0)));
      data := seq(size, _ => Zero());
      slots, owner, pages := map[], map[], map[];
    }

    /** ialloc. */
    method Ialloc(kind: int) returns (inum: nat)
      requires Valid() && freeinode < |inodes|
      modifies this`freeinode, this`inodes
      ensures Valid() && inum == old(freeinode) && freeinode == inum + 1 && |inodes| == old(|inodes|)
      ensures inodes == old(inodes)[inum := Inode(kind, 1, 0, seq(NDIRECT + 1, _ => 0))]
    {
      inum := freeinode;
      freeinode := freeinode + 1;
      assert inodes[inum].addrs == seq(NDIRECT + 1, _ => 0) by {
        forall k: nat | k <= NDIRECT ensures inodes[inum].addrs[k] == 0 {
          assert Slot(inodes[inum], data, k) == inodes[inum].addrs[k];
        }
      }
      GoodResize(inodes, data, slots, owner, pages, nmeta, inum, Inode(kind, 1, 0, inodes[inum].addrs));
      inodes := inodes[inum := Inode(kind, 1, 0, seq(NDIRECT + 1, _ => 0))];
    }

    /** There are too few blocks for one slot exactly if it is empty and the counter is at the end. */
    lemma OneShort(s: (nat, nat))
      requires Valid()
      ensures Short(slots, {s}, {}, |data| - nmeta) <==> s !in slots && freeblock == |data|
    {
      hide Reads, Paged, Owns;
      Counted(slots, owner, data, nmeta, freeblock);
      if s in slots {
        assert slots.Keys + {s} == slots.Keys;
      }
    }

    lemma MissingShort(was: Slots, i: nat, j: nat)
      requires Valid() && freeblock == |data|
      requires Grew(was, slots, {(i, NDIRECT)}) && (i, NDIRECT + 1 + j) !in slots
      ensures Short(was, Wants(i, NDIRECT + j), {}, |data| - nmeta)
    {
      hide Reads, Paged, Owns;
      Counted(slots, owner, data, nmeta, freeblock);
      SubsetSize(slots.Keys + {(i, NDIRECT + 1 + j)}, was.Keys + Wants(i, NDIRECT + j));
    }

    lemma Enough(was: Slots, wanted: set<(nat, nat)>)
      requires Valid() && Grew(was, slots, wanted)
      ensures !Short(was, wanted, {}, |data| - nmeta)
    {
      hide Reads, Paged, Owns;
      Counted(slots, owner, data, nmeta, freeblock);
    }

    /** freeblock++ for address k of the inode; false if the image has no such block. */
    method NewAddr(i: nat, k: nat) returns (ok: bool)
      requires Valid() && i < |inodes| && i < freeinode && k <= NDIRECT && (i, k) !in slots
      modifies this`freeblock, this`inodes, this`slots, this`owner, this`pages
      ensures Valid() && (ok <==> old(freeblock) < |data|)
      ensures ok ==>
                && slots == old(slots)[(i, k) := old(freeblock)] && Grew(old(slots), slots, {(i, k)})
                && pages == PagesClaim(old(pages), i, k)
                && OnlyAddrs(old(inodes), inodes, i)
      ensures !ok ==> unchanged(this)
    {
      hide Good, Grew;
      if freeblock >= |data| { return false; }
      ClaimAddr(inodes, data, slots, owner, pages, nmeta, i, k, freeblock);
      GrewOne(slots, (i, k), freeblock);
      inodes := inodes[i := inodes[i].(addrs := inodes[i].addrs[k := freeblock])];
      slots, owner, pages := slots[(i, k) := freeblock], owner[freeblock := (i, k)], PagesClaim(pages, i, k);
      freeblock := freeblock + 1;
      return true;
    }

    /** freeblock++ for entry j of the inode's indirect block. */
    method NewEntry(i: nat, j: nat) returns (ok: bool)
      requires Valid() && i < |inodes| && i < freeinode && j < NINDIRECT && (i, NDIRECT) in slots
               && (i, NDIRECT + 1 + j) !in slots
      modifies this`freeblock, this`data, this`slots, this`owner, this`pages
      ensures Valid() && |data| == old(|data|) && (ok <==> old(freeblock) < |data|)
      ensures ok ==>
                && slots == old(slots)[(i, NDIRECT + 1 + j) := old(freeblock)]
                && Grew(old(slots), slots, {(i, NDIRECT + 1 + j)})
                && pages == old(pages)[(i, NDIRECT + j) := Zero()]
      ensures !ok ==> unchanged(this)
    {
      hide Good, SetWord, Word, Grew;
      if freeblock >= |data| { return false; }
      ClaimEntry(inodes, data, slots, owner, pages, nmeta, i, j, freeblock);
      EntryAt(inodes, data, slots, owner, pages, nmeta, i, j);
      OwnerAt(inodes, data, slots, owner, pages, nmeta, (i, NDIRECT));
      var ind := inodes[i].addrs[NDIRECT];
      data := data[ind := SetWord(data[ind], j, freeblock)];
      ghost var s := (i, NDIRECT + 1 + j);
      GrewOne(slots, s, freeblock);
      slots, owner, pages := slots[s := freeblock], owner[freeblock := s], pages[(i, NDIRECT + j) := Zero()];
      freeblock := freeblock + 1;
      return true;
    }

    /** iappend's choice of the block for fbn; false if the image has too few. */
    method BlockFor(i: nat, fbn: nat) returns (ok: bool, x: nat)
      requires Valid() && i < |inodes| && i < freeinode && fbn < MAXFILE
      modifies this`freeblock, this`data, this`inodes, this`slots, this`owner, this`pages
      ensures Valid() && |data| == old(|data|)
      ensures !ok <==> Short(old(slots), Wants(i, fbn), {}, |data| - nmeta)
      ensures ok ==>
                && pages == Filled(old(pages), i, fbn) && Grew(old(slots), slots, Wants(i, fbn))
                && (i, Idx(fbn)) in slots && x == slots[(i, Idx(fbn))] < |data|
                && OnlyAddrs(old(inodes), inodes, i)
    {
      hide Good, InOrder, Word, Short, Grew;
      x := 0;
      PagesAt(inodes, data, slots, owner, pages, nmeta, i, fbn);
      if fbn < NDIRECT {
        ok := DirectFor(i, fbn);
        if ok {
          SlotAt(inodes, data, slots, owner, pages, nmeta, i, fbn);
          x := inodes[i].addrs[fbn];
        }
      } else {
        ok, x := IndirectFor(i, fbn - NDIRECT);
      }
    }

    method DirectFor(i: nat, k: nat) returns (ok: bool)
      requires Valid() && i < |inodes| && i < freeinode && k <= NDIRECT
      modifies this`freeblock, this`inodes, this`slots, this`owner, this`pages
      ensures Valid() && (!ok <==> Short(old(slots), {(i, k)}, {}, |data| - nmeta))
      ensures ok ==>
                && (i, k) in slots && Grew(old(slots), slots, {(i, k)}) && OnlyAddrs(old(inodes), inodes, i)
                && pages == if (i, k) in old(slots) then old(pages) else PagesClaim(old(pages), i, k)
      ensures ok ==> forall s | s != (i, k) :: s in slots <==> s in old(slots)
      ensures !ok ==> unchanged(this)
    {
      hide Good, InOrder, Short, Grew;
      SlotAt(inodes, data, slots, owner, pages, nmeta, i, k);
      OneShort((i, k));
      InOrderBelow(owner, data, nmeta, freeblock);
      OnlyAddrsSelf(inodes, i);
      GrewOne(slots, (i, k), 0);
      ok := true;
      if inodes[i].addrs[k] == 0 {
        ok := NewAddr(i, k);
      }
    }

    method IndirectFor(i: nat, j: nat) returns (ok: bool, x: nat)
      requires Valid() && i < |inodes| && i < freeinode && j < NINDIRECT
      modifies this`freeblock, this`data, this`inodes, this`slots, this`owner, this`pages
      ensures Valid() && |data| == old(|data|)
      ensures !ok <==> Short(old(slots), Wants(i, NDIRECT + j), {}, |data| - nmeta)
      ensures ok ==>
                && Grew(old(slots), slots, Wants(i, NDIRECT + j)) && OnlyAddrs(old(inodes), inodes, i)
                && (i, NDIRECT + 1 + j) in slots && x == slots[(i, NDIRECT + 1 + j)] < |data|
                && pages == (if (i, NDIRECT + 1 + j) in old(slots) then old(pages)
                             else old(pages)[(i, NDIRECT + j) := Zero()])
    {
      hide Good, InOrder, Word, Short, Grew, Wants, OnlyAddrs;
      x := 0;
      EntryNeedsBlock(inodes, data, slots, owner, pages, nmeta, i, j);
      ok := DirectFor(i, NDIRECT);
      if !ok {
        EntryShort(slots, i, j, {}, |data| - nmeta);
        return;
      }
      OnlyAddrsSize(old(inodes), inodes, i);
      ghost var mid := slots;
      EntryAt(inodes, data, slots, owner, pages, nmeta, i, j);
      GrewOne(slots, (i, NDIRECT + 1 + j), 0);
      InOrderBelow(owner, data, nmeta, freeblock);
      if Word(data[inodes[i].addrs[NDIRECT]], j) == 0 {
        ok := NewEntry(i, j);
        if !ok {
          MissingShort(old(slots), i, j);
          return;
        }
      }
      GrewEntry(old(slots), mid, slots, i, j);
      Enough(old(slots), Wants(i, NDIRECT + j));
      EntryAt(inodes, data, slots, owner, pages, nmeta, i, j);
      x := Word(data[inodes[i].addrs[NDIRECT]], j);
    }

    /** iappend: the bytes are added at the end; false is a failed assert or a
        read beyond the image. */
    method Iappend(i: nat, xp: seq<nat>) returns (ok: bool)
      requires Valid() && i < |inodes| && i < freeinode && Exact(inodes, pages) && PagesSized(pages)
      modifies this`freeblock, this`data, this`inodes, this`slots, this`owner, this`pages
      ensures !ok <==> Refused(old(slots), i, old(inodes[i].size), |xp|, {}, old(|data|) - nmeta)
      ensures ok ==>
                && Valid() && |inodes| == old(|inodes|) && Exact(inodes, pages) && PagesSized(pages)
                && inodes == old(inodes)[i := inodes[i]] && inodes[i].size == old(inodes[i].size) + |xp|
                && Bytes(pages, i, inodes[i].size) == old(Bytes(pages, i, inodes[i].size)) + xp
                && DropFile(pages, i) == DropFile(old(pages), i)
    {
      hide Good, InOrder, Bytes, Written, Exact, ExactTo, PagesSized, Short, Wanted, Wants, Grew;
      ExactFile(inodes, pages, i);
      ghost var size := inodes[i].size;
      ok := AppendBlocks(i, xp);
      if !ok { return; }
      WrittenBytes(old(pages), pages, i, size, size, xp);
      WrittenOthers(old(pages), pages, i, size, size, xp);
      var off := inodes[i].size + |xp|;
      ExactOthers(old(inodes), old(pages), pages, i, inodes[i].(size := off));
      GoodResize(inodes, data, slots, owner, pages, nmeta, i, inodes[i].(size := off));
      inodes := inodes[i := inodes[i].(size := off)];
      assert inodes == old(inodes)[i := inodes[i]];
    }

    /** iappend's loop. */
    method AppendBlocks(i: nat, xp: seq<nat>) returns (ok: bool)
      requires Valid() && i < |inodes| && i < freeinode && ExactTo(pages, i, inodes[i].size) && PagesSized(pages)
      modifies this`freeblock, this`data, this`inodes, this`slots, this`owner, this`pages
      ensures !ok <==> Refused(old(slots), i, old(inodes[i].size), |xp|, {}, old(|data|) - nmeta)
      ensures ok ==>
                && Valid() && OnlyAddrs(old(inodes), inodes, i) && ExactTo(pages, i, inodes[i].size + |xp|)
                && Written(old(pages), pages, i, old(inodes[i].size), old(inodes[i].size), xp, |xp|)
    {
      hide Good, InOrder, Bytes, Written, ExactTo, PagesSized, Short, Wanted, Wants, Grew, OnlyAddrs, Stop, Part,
           Begun, Refused;
      WrittenNone(pages, i, inodes[i].size, inodes[i].size, xp);
      GrewNone(slots, i, inodes[i].size);
      OnlyAddrsSelf(inodes, i);
      var off := inodes[i].size;
      ghost var size := off;
      var tot := 0;
      while tot < |xp|
        invariant tot <= |xp| && off == size + tot && Valid() && |data| == old(|data|) && i < |inodes|
        invariant OnlyAddrs(old(inodes), inodes, i) && inodes[i].size == size
        invariant Grew(old(slots), slots, Wanted(i, size / BSIZE, Stop(size, tot)))
        invariant tot > 0 ==> Stop(size, tot) <= MAXFILE
        invariant Written(old(pages), pages, i, size, size, xp, tot) && ExactTo(pages, i, off)
      {
        var n1 := Part(off, |xp| - tot);
        StopNext(i, size, tot, n1, |xp|);
        ghost var had, ino := slots, inodes;
        if off / BSIZE >= MAXFILE {
          RoundRefused(old(slots), had, i, size, tot, n1, |xp|, {}, |data| - nmeta);
          return false;
        }
        ok := AppendBlock(i, off / BSIZE, off, xp, tot, n1, size, old(pages));
        if !ok {
          RoundRefused(old(slots), had, i, size, tot, n1, |xp|, {}, |data| - nmeta);
          return;
        }
        GrewRound(old(slots), had, slots, i, size, tot, n1);
        OnlyAddrsThen(old(inodes), ino, inodes, i);
        OnlyAddrsSize(old(inodes), inodes, i);
        tot, off := tot + n1, off + n1;
      }
      Enough(old(slots), Wanted(i, size / BSIZE, Stop(size, |xp|)));
      NotRefused(old(slots), i, size, |xp|, {}, |data| - nmeta);
      return true;
    }

    /** Its body: the part of one block. */
    method AppendBlock(i: nat, fbn: nat, off: nat, xp: seq<nat>, tot: nat, n1: nat, ghost size: nat, ghost was: Pages)
      returns (ok: bool)
      requires Valid() && i < |inodes| && i < freeinode && off == size + tot && fbn == off / BSIZE < MAXFILE
      requires 0 < n1 <= BSIZE - off % BSIZE && tot + n1 <= |xp|
      requires Written(was, pages, i, size, size, xp, tot) && ExactTo(pages, i, off)
      modifies this`freeblock, this`data, this`inodes, this`slots, this`owner, this`pages
      ensures Valid() && |data| == old(|data|)
      ensures !ok <==> Short(old(slots), Wants(i, fbn), {}, |data| - nmeta)
      ensures ok ==>
                && Grew(old(slots), slots, Wants(i, fbn)) && OnlyAddrs(old(inodes), inodes, i)
                && Written(was, pages, i, size, size, xp, tot + n1) && ExactTo(pages, i, off + n1)
    {
      hide Good, InOrder, Written, ExactTo, Short, Wants, Grew, OnlyAddrs, PagesSized, Filled;
      ghost var before := pages;
      var x;
      ok, x := BlockFor(i, fbn);
      if !ok { return; }
      FilledAt(before, i, fbn);
      PageAt(inodes, data, slots, owner, pages, nmeta, i, fbn);
      var blk := Block(Patch(data[x].bytes, off % BSIZE, xp[tot..tot + n1]));
      WriteStep(was, before, i, size, size, xp, tot, n1, pages);
      ExactNext(before, i, off, n1, blk);
      FilledOver(before, i, fbn, blk);
      StorePage(inodes, data, slots, owner, pages, nmeta, i, fbn, blk);
      OwnerAt(inodes, data, slots, owner, pages, nmeta, (i, Idx(fbn)));
      InOrderStill(owner, data, nmeta, freeblock, x, blk);
      data := data[x := blk];
      pages := pages[(i, fbn) := blk];
    }

    /** main's last change to the root directory: its size goes up to the next whole block.  It
        reads as before up to its old size, and all its blocks stay mapped exactly if the old
        size was not a whole number of blocks. */
    method RoundRoot(i: nat)
      requires Valid() && i < |inodes| && Exact(inodes, pages) && PagesSized(pages)
      modifies this`inodes
      ensures Valid() && inodes == old(inodes)[i := old(inodes)[i].(size := RoundedSize(old(inodes[i].size)))]
      ensures inodes[i].size % BSIZE == 0 && old(inodes[i].size) < inodes[i].size <= old(inodes[i].size) + BSIZE
      ensures Bytes(pages, i, inodes[i].size)[..old(inodes[i].size)] == Bytes(pages, i, old(inodes[i].size))
      ensures Mapped(pages, i, inodes[i].size) <==> old(inodes[i].size) % BSIZE != 0
    {
      hide Good, InOrder;
      ExactFile(inodes, pages, i);
      RoundedMappedIff(pages, i, inodes[i].size);
      var off := RoundedSize(inodes[i].size);
      GoodResize(inodes, data, slots, owner, pages, nmeta, i, inodes[i].(size := off));
      inodes := inodes[i := inodes[i].(size := off)];
    }

    /** balloc(freeblock), the last step: the image meets the kernel's invariant. */
    method Finish() returns (fs: Fs)
      requires Valid() && freeblock < BPB && |data| <= BPB
      ensures fs.Valid() && fs.inode == inodes && fs.pages == pages
    {
      hide Good, Has, Byt, Bt;
      var block := SetFirst(freeblock);
      fs := new Fs(|data|, nmeta, [block], inodes, data, slots, owner, pages);
    }
  }

  lemma ExactFile(inodes: seq<Inode>, pages: Pages, i: nat)
    requires Exact(inodes, pages) && i < |inodes|
    ensures ExactTo(pages, i, inodes[i].size)
  {
  }

  lemma InOrderStill(owner: Owner, data: seq<Block>, lo: nat, freeblock: nat, x: nat, blk: Block)
    requires InOrder(owner, data, lo, freeblock) && x in owner && x < |data|
    ensures InOrder(owner, data[x := blk], lo, freeblock)
  {
  }
}
