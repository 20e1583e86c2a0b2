/** How files own disk blocks (kernel/fs.h, kernel/fs.c).

    An inode's slots are its NDIRECT direct addresses, the address of its indirect
    block, and the entries of that block.  `Owns` says that the slots of all
    inodes name different blocks, `owner` telling which slot a block is in, and
    `Paged` that together the inodes are a map, `pages`, from (inode, block index)
    to contents. */
module Inodes {
  const BSIZE: nat := 1024
  const NDIRECT: nat := 12
  const NINDIRECT: nat := 256
  const MAXFILE: nat := NDIRECT + NINDIRECT
  const SLOTS: nat := NDIRECT + 1 + NINDIRECT

  datatype Block = Block(bytes: seq<nat>)

  /** struct dinode, without the device numbers. */
  datatype Inode = Inode(kind: int, nlink: int, size: nat, addrs: seq<nat>)

  function Zero(): (r: Block)
    ensures |r.bytes| == BSIZE && forall o | 0 <= o < BSIZE :: r.bytes[o] == 0
  {
    Block(seq(BSIZE, _ => 0))
  }

  /** The j-th little-endian uint of a block. */
  function Word(b: Block, j: nat): nat
    requires |b.bytes| == BSIZE && j < NINDIRECT
  {
    b.bytes[4 * j] + 0x100 * b.bytes[4 * j + 1] + 0x1_0000 * b.bytes[4 * j + 2] + 0x100_0000 * b.bytes[4 * j + 3]
  }

  function SetWord(b: Block, j: nat, v: nat): (r: Block)
    requires |b.bytes| == BSIZE && j < NINDIRECT
    ensures |r.bytes| == BSIZE
  {
    Block(b.bytes[4 * j := v % 0x100][4 * j + 1 := v / 0x100 % 0x100]
          [4 * j + 2 := v / 0x1_0000 % 0x100][4 * j + 3 := v / 0x100_0000 % 0x100])
  }

  lemma WordSet(b: Block, j: nat, v: nat, k: nat)
    requires |b.bytes| == BSIZE && j < NINDIRECT && k < NINDIRECT && v < 0x1_0000_0000
    ensures Word(SetWord(b, j, v), k) == if k == j then v else Word(b, k)
  {
    if k == j {
      Digits(v);
    }
  }

  lemma Digits(v: nat)
    requires v < 0x1_0000_0000
    ensures v % 0x100 + 0x100 * (v / 0x100 % 0x100) + 0x1_0000 * (v / 0x1_0000 % 0x100)
            + 0x100_0000 * (v / 0x100_0000 % 0x100) == v
  {
    var q := v / 0x100;
    assert v / 0x1_0000 == q / 0x100 && v / 0x100_0000 == q / 0x1_0000;
    assert q / 0x1_0000 == q / 0x100 / 0x100;
  }

  /** The block in slot k: a direct address, the indirect block, or one of the
      indirect block's entries; 0 is none. */
  function Slot(ino: Inode, data: seq<Block>, k: nat): nat
    requires Shaped(ino, data) && k < SLOTS
  {
    if k <= NDIRECT then ino.addrs[k]
    else if ino.addrs[NDIRECT] == 0 then 0
    else Word(data[ino.addrs[NDIRECT]], k - NDIRECT - 1)
  }

  predicate Shaped(ino: Inode, data: seq<Block>) {
    && |ino.addrs| == NDIRECT + 1
    && ino.addrs[NDIRECT] < |data| && |data[ino.addrs[NDIRECT]].bytes| == BSIZE
  }

  /** The slot of a file's bn-th block. */
  function Idx(bn: nat): nat {
    if bn < NDIRECT then bn else bn + 1
  }

  type Slots = map<(nat, nat), nat>
  type Owner = map<nat, (nat, nat)>
  type Pages = map<(nat, nat), Block>

  ghost predicate Sized(inodes: seq<Inode>, data: seq<Block>) {
    && (forall b | 0 <= b < |data| :: |data[b].bytes| == BSIZE)
    && (forall i | 0 <= i < |inodes| :: Shaped(inodes[i], data))
  }

  /** `slots` are the slots in use, with their blocks. */
  ghost predicate Reads(inodes: seq<Inode>, data: seq<Block>, slots: Slots) {
    && Sized(inodes, data)
    && (forall s | s in slots :: s.0 < |inodes| && s.1 < SLOTS)
    && (forall i: nat, k: nat | i < |inodes| && k < SLOTS ::
          Slot(inodes[i], data, k) == if (i, k) in slots then slots[(i, k)] else 0)
    && (forall s | s in slots :: slots[s] != 0)
  }

  /** Each block from lo up is in at most one slot, its owner. */
  ghost predicate Owns(slots: Slots, owner: Owner, lo: nat, hi: nat) {
    && (forall s | s in slots :: slots[s] in owner && owner[slots[s]] == s)
    && (forall b | b in owner :: lo <= b < hi && owner[b] in slots && slots[owner[b]] == b)
  }

  /** The files' blocks are these pages. */
  ghost predicate Paged(slots: Slots, data: seq<Block>, pages: Pages) {
    && (forall p | p in pages :: p.1 < MAXFILE && (p.0, Idx(p.1)) in slots)
    && (forall i: nat, bn: nat | bn < MAXFILE && (i, Idx(bn)) in slots ::
          (i, bn) in pages && slots[(i, Idx(bn))] < |data| && pages[(i, bn)] == data[slots[(i, Idx(bn))]])
  }

  ghost predicate Good(inodes: seq<Inode>, data: seq<Block>, slots: Slots, owner: Owner, pages: Pages, lo: nat) {
    lo > 0 && Reads(inodes, data, slots) && Owns(slots, owner, lo, |data|) && Paged(slots, data, pages)
  }

  /* -------- what each change does -------- */

  /** Changing a block that is no inode's indirect block moves no slot. */
  lemma SlotsStill(inodes: seq<Inode>, data: seq<Block>, slots: Slots, b: nat, blk: Block)
    requires Reads(inodes, data, slots) && b < |data| && |blk.bytes| == BSIZE && b != 0
    requires forall i: nat | (i, NDIRECT) in slots :: slots[(i, NDIRECT)] != b
    ensures Reads(inodes, data[b := blk], slots)
  {
    var data' := data[b := blk];
    forall i: nat | i < |inodes|
      ensures Shaped(inodes[i], data') && forall k: nat | k < SLOTS ::
              Slot(inodes[i], data', k) == Slot(inodes[i], data, k)
    {
      assert Slot(inodes[i], data, NDIRECT) == inodes[i].addrs[NDIRECT] != b;
    }
  }

  /** balloc may zero a block nobody owns. */
  lemma ZeroUnowned(inodes: seq<Inode>, data: seq<Block>, slots: Slots, owner: Owner, pages: Pages, lo: nat, b: nat)
    requires Good(inodes, data, slots, owner, pages, lo) && lo <= b < |data| && b !in owner
    ensures Good(inodes, data[b := Zero()], slots, owner, pages, lo)
  {
    SlotsStill(inodes, data, slots, b, Zero());
  }

  lemma PagedStore(slots: Slots, data: seq<Block>, owner: Owner, pages: Pages, lo: nat, i: nat, bn: nat, blk: Block)
    requires Owns(slots, owner, lo, |data|) && Paged(slots, data, pages) && (i, bn) in pages
    ensures Paged(slots, data[slots[(i, Idx(bn))] := blk], pages[(i, bn) := blk])
  {
    var b := slots[(i, Idx(bn))];
    forall j: nat, c: nat | c < MAXFILE && (j, Idx(c)) in slots && (j, c) != (i, bn)
      ensures slots[(j, Idx(c))] != b
    {
      assert owner[b] == (i, Idx(bn));
    }
  }

  /** writei changes a page in place. */
  lemma StorePage(inodes: seq<Inode>, data: seq<Block>, slots: Slots, owner: Owner, pages: Pages, lo: nat,
                  i: nat, bn: nat, blk: Block)
    requires Good(inodes, data, slots, owner, pages, lo) && (i, bn) in pages && |blk.bytes| == BSIZE
    ensures (i, Idx(bn)) in slots && slots[(i, Idx(bn))] < |data|
    ensures Good(inodes, data[slots[(i, Idx(bn))] := blk], slots, owner, pages[(i, bn) := blk], lo)
  {
    hide Reads;
    var b := slots[(i, Idx(bn))];
    forall j: nat | (j, NDIRECT) in slots ensures slots[(j, NDIRECT)] != b {
      assert owner[b] == (i, Idx(bn));
    }
    SlotsStill(inodes, data, slots, b, blk);
    PagedStore(slots, data, owner, pages, lo, i, bn, blk);
  }

  /* -------- claiming a block for an empty slot -------- */

  lemma OwnsClaim(slots: Slots, owner: Owner, lo: nat, hi: nat, s: (nat, nat), b: nat)
    requires Owns(slots, owner, lo, hi) && s !in slots && b !in owner && lo <= b < hi
    ensures Owns(slots[s := b], owner[b := s], lo, hi)
  {
  }

  /** The pages once slot s holds a zeroed block. */
  ghost function PagesClaim(pages: Pages, i: nat, k: nat): Pages {
    if k < NDIRECT then pages[(i, k) := Zero()]
    else if k == NDIRECT then pages
    else pages[(i, k - 1) := Zero()]
  }

  lemma PagedClaimPage(slots: Slots, data: seq<Block>, pages: Pages, i: nat, bn: nat, b: nat)
    requires Paged(slots, data, pages) && (i, Idx(bn)) !in slots && bn < MAXFILE && b < |data|
    ensures Paged(slots[(i, Idx(bn)) := b], data, pages[(i, bn) := data[b]])
  {
    var slots', pages' := slots[(i, Idx(bn)) := b], pages[(i, bn) := data[b]];
    forall p | p in pages' ensures p.1 < MAXFILE && (p.0, Idx(p.1)) in slots' {
      if p != (i, bn) { assert p in pages; }
    }
    forall j: nat, c: nat | c < MAXFILE && (j, Idx(c)) in slots'
      ensures (j, c) in pages' && slots'[(j, Idx(c))] < |data| && pages'[(j, c)] == data[slots'[(j, Idx(c))]]
    {
      if (j, c) != (i, bn) { assert (j, Idx(c)) in slots; }
    }
  }

  lemma PagedClaimIndirect(slots: Slots, data: seq<Block>, pages: Pages, i: nat, b: nat)
    requires Paged(slots, data, pages)
    ensures Paged(slots[(i, NDIRECT) := b], data, pages)
  {
    var slots' := slots[(i, NDIRECT) := b];
    forall j: nat, c: nat | c < MAXFILE && (j, Idx(c)) in slots'
      ensures (j, c) in pages && slots'[(j, Idx(c))] < |data| && pages[(j, c)] == data[slots'[(j, Idx(c))]]
    {
      assert (j, Idx(c)) in slots;
    }
  }

  lemma PagedClaim(slots: Slots, data: seq<Block>, pages: Pages, i: nat, k: nat, b: nat)
    requires Paged(slots, data, pages) && (i, k) !in slots && k < SLOTS && b < |data| && data[b] == Zero()
    ensures Paged(slots[(i, k) := b], data, PagesClaim(pages, i, k))
  {
    hide Paged;
    if k == NDIRECT {
      PagedClaimIndirect(slots, data, pages, i, b);
    } else {
      PagedClaimPage(slots, data, pages, i, if k < NDIRECT then k else k - 1, b);
    }
  }

  /** bmap: a direct address, or the indirect block's. */
  lemma ReadsAddr(inodes: seq<Inode>, data: seq<Block>, slots: Slots, i: nat, k: nat, b: nat)
    requires Reads(inodes, data, slots) && i < |inodes| && k <= NDIRECT && (i, k) !in slots
    requires 0 < b < |data| && data[b] == Zero()
    ensures Shaped(inodes[i], data)
    ensures Reads(inodes[i := inodes[i].(addrs := inodes[i].addrs[k := b])], data, slots[(i, k) := b])
  {
    var ino := inodes[i];
    var ino' := ino.(addrs := ino.addrs[k := b]);
    assert Slot(ino, data, k) == 0;
    forall j: nat | j < SLOTS ensures Slot(ino', data, j) == if j == k then b else Slot(ino, data, j) {
      if k == NDIRECT < j {
        assert Word(Zero(), j - NDIRECT - 1) == 0;
      }
    }
  }

  lemma ClaimAddr(inodes: seq<Inode>, data: seq<Block>, slots: Slots, owner: Owner, pages: Pages, lo: nat,
                  i: nat, k: nat, b: nat)
    requires Good(inodes, data, slots, owner, pages, lo) && i < |inodes| && k <= NDIRECT && (i, k) !in slots
    requires lo <= b < |data| && b !in owner && data[b] == Zero()
    ensures Shaped(inodes[i], data)
    ensures Good(inodes[i := inodes[i].(addrs := inodes[i].addrs[k := b])], data, slots[(i, k) := b],
                 owner[b := (i, k)], PagesClaim(pages, i, k), lo)
  {
    hide Reads, Owns, Paged, PagesClaim;
    ReadsAddr(inodes, data, slots, i, k, b);
    OwnsClaim(slots, owner, lo, |data|, (i, k), b);
    PagedClaim(slots, data, pages, i, k, b);
  }

  /** bmap: an entry of the indirect block. */
  lemma ReadsEntry(inodes: seq<Inode>, data: seq<Block>, slots: Slots, owner: Owner, lo: nat, i: nat, j: nat, b: nat)
    requires Reads(inodes, data, slots) && Owns(slots, owner, lo, |data|) && i < |inodes| && j < NINDIRECT
    requires (i, NDIRECT) in slots && (i, NDIRECT + 1 + j) !in slots && 0 < b < 0x1_0000_0000
    ensures Shaped(inodes[i], data)
    ensures var ind := inodes[i].addrs[NDIRECT];
            Reads(inodes, data[ind := SetWord(data[ind], j, b)], slots[(i, NDIRECT + 1 + j) := b])
  {
    hide Word, SetWord;
    var ind := inodes[i].addrs[NDIRECT];
    assert Slot(inodes[i], data, NDIRECT) == ind;
    var data' := data[ind := SetWord(data[ind], j, b)];
    forall n: nat, k: nat | n < |inodes| && k < SLOTS
      ensures Shaped(inodes[n], data') &&
              Slot(inodes[n], data', k) == if (n, k) == (i, NDIRECT + 1 + j) then b else Slot(inodes[n], data, k)
    {
      assert Slot(inodes[n], data, NDIRECT) == inodes[n].addrs[NDIRECT];
      if n != i {
        assert inodes[n].addrs[NDIRECT] != ind by {
          assert owner[ind] == (i, NDIRECT);
        }
      } else if k > NDIRECT {
        WordSet(data[ind], j, b, k - NDIRECT - 1);
      }
    }
    forall n: nat | n < |inodes| ensures Shaped(inodes[n], data') {
      assert Slot(inodes[n], data', 0) == if (n, 0) == (i, NDIRECT + 1 + j) then b else Slot(inodes[n], data, 0);
    }
  }

  /** The indirect block is no page, so changing it changes none. */
  lemma PagedIndirect(slots: Slots, data: seq<Block>, owner: Owner, pages: Pages, lo: nat, i: nat, blk: Block)
    requires Owns(slots, owner, lo, |data|) && Paged(slots, data, pages) && (i, NDIRECT) in slots
    ensures slots[(i, NDIRECT)] < |data| && Paged(slots, data[slots[(i, NDIRECT)] := blk], pages)
  {
    var b := slots[(i, NDIRECT)];
    forall j: nat, c: nat | c < MAXFILE && (j, Idx(c)) in slots ensures slots[(j, Idx(c))] != b {
      assert owner[b] == (i, NDIRECT);
    }
  }

  lemma ClaimEntry(inodes: seq<Inode>, data: seq<Block>, slots: Slots, owner: Owner, pages: Pages, lo: nat,
                   i: nat, j: nat, b: nat)
    requires Good(inodes, data, slots, owner, pages, lo) && i < |inodes| && j < NINDIRECT
    requires (i, NDIRECT) in slots && (i, NDIRECT + 1 + j) !in slots
    requires lo <= b < |data| && b !in owner && data[b] == Zero() && b < 0x1_0000_0000
    ensures Shaped(inodes[i], data)
    ensures var ind := inodes[i].addrs[NDIRECT];
            Good(inodes, data[ind := SetWord(data[ind], j, b)], slots[(i, NDIRECT + 1 + j) := b],
                 owner[b := (i, NDIRECT + 1 + j)], PagesClaim(pages, i, NDIRECT + 1 + j), lo)
  {
    hide Reads, Paged, PagesClaim, SetWord, Word;
    ReadsEntry(inodes, data, slots, owner, lo, i, j, b);
    var ind := inodes[i].addrs[NDIRECT];
    IndirectAt(inodes, data, slots, i);
    var data' := data[ind := SetWord(data[ind], j, b)];
    PagedIndirect(slots, data, owner, pages, lo, i, SetWord(data[ind], j, b));
    OwnsClaim(slots, owner, lo, |data|, (i, NDIRECT + 1 + j), b);
    PagedClaim(slots, data', pages, i, NDIRECT + 1 + j, b);
  }

  lemma IndirectAt(inodes: seq<Inode>, data: seq<Block>, slots: Slots, i: nat)
    requires Reads(inodes, data, slots) && i < |inodes|
    ensures Shaped(inodes[i], data)
    ensures inodes[i].addrs[NDIRECT] == if (i, NDIRECT) in slots then slots[(i, NDIRECT)] else 0
  {
    assert Slot(inodes[i], data, NDIRECT) == inodes[i].addrs[NDIRECT];
  }

  /* -------- giving blocks back -------- */

  /** itrunc: one direct address. */
  lemma FreeAddr(inodes: seq<Inode>, data: seq<Block>, slots: Slots, owner: Owner, pages: Pages, lo: nat, i: nat,
                 k: nat)
    requires Good(inodes, data, slots, owner, pages, lo) && i < |inodes| && k < NDIRECT && (i, k) in slots
    ensures Shaped(inodes[i], data)
    ensures Good(inodes[i := inodes[i].(addrs := inodes[i].addrs[k := 0])], data, slots - {(i, k)},
                 owner - {slots[(i, k)]}, pages - {(i, k)}, lo)
  {
    hide Reads;
    ReadsFree(inodes, data, slots, i, k);
  }

  lemma ReadsFree(inodes: seq<Inode>, data: seq<Block>, slots: Slots, i: nat, k: nat)
    requires Reads(inodes, data, slots) && i < |inodes| && k < NDIRECT
    ensures Shaped(inodes[i], data)
    ensures Reads(inodes[i := inodes[i].(addrs := inodes[i].addrs[k := 0])], data, slots - {(i, k)})
  {
  }

  /** itrunc: the indirect block and with it all its entries. */
  lemma FreeIndirect(inodes: seq<Inode>, data: seq<Block>, slots: Slots, owner: Owner, pages: Pages, lo: nat, i: nat)
    requires Good(inodes, data, slots, owner, pages, lo) && i < |inodes|
    ensures Shaped(inodes[i], data)
    ensures Good(inodes[i := inodes[i].(addrs := inodes[i].addrs[NDIRECT := 0])], data, CutSlots(slots, i),
                 CutOwner(owner, i), CutPages(pages, i), lo)
  {
    hide Reads, Owns, Paged, CutSlots, CutOwner, CutPages;
    ReadsCut(inodes, data, slots, i);
    OwnsCut(slots, owner, lo, |data|, i);
    PagedCut(slots, data, pages, i);
  }

  ghost function CutSlots(slots: Slots, i: nat): Slots {
    map s | s in slots && !(s.0 == i && s.1 >= NDIRECT) :: slots[s]
  }
  ghost function CutOwner(owner: Owner, i: nat): Owner {
    map b | b in owner && !(owner[b].0 == i && owner[b].1 >= NDIRECT) :: owner[b]
  }
  ghost function CutPages(pages: Pages, i: nat): Pages {
    map p | p in pages && !(p.0 == i && p.1 >= NDIRECT) :: pages[p]
  }

  lemma ReadsCut(inodes: seq<Inode>, data: seq<Block>, slots: Slots, i: nat)
    requires Reads(inodes, data, slots) && i < |inodes|
    ensures Shaped(inodes[i], data)
    ensures Reads(inodes[i := inodes[i].(addrs := inodes[i].addrs[NDIRECT := 0])], data, CutSlots(slots, i))
  {
    var inodes' := inodes[i := inodes[i].(addrs := inodes[i].addrs[NDIRECT := 0])];
    assert Sized(inodes', data);
    forall n: nat, k: nat | n < |inodes| && k < SLOTS
      ensures Slot(inodes'[n], data, k) == if (n, k) in CutSlots(slots, i) then CutSlots(slots, i)[(n, k)] else 0
    {
      assert Slot(inodes[n], data, k) == if (n, k) in slots then slots[(n, k)] else 0;
    }
  }

  lemma OwnsCut(slots: Slots, owner: Owner, lo: nat, hi: nat, i: nat)
    requires Owns(slots, owner, lo, hi)
    ensures Owns(CutSlots(slots, i), CutOwner(owner, i), lo, hi)
  {
  }

  lemma PagedCut(slots: Slots, data: seq<Block>, pages: Pages, i: nat)
    requires Paged(slots, data, pages)
    ensures Paged(CutSlots(slots, i), data, CutPages(pages, i))
  {
  }

  /** Fields other than the addresses do not matter to ownership. */
  lemma SameAddrs(inodes: seq<Inode>, data: seq<Block>, slots: Slots, i: nat, ino: Inode)
    requires Reads(inodes, data, slots) && i < |inodes| && ino.addrs == inodes[i].addrs
    ensures Reads(inodes[i := ino], data, slots)
  {
    forall k: nat | k < SLOTS ensures Slot(ino, data, k) == Slot(inodes[i], data, k) {}
  }
}
