/** The file system across a crash: what the blocks of a disk image hold (kernel/fs.h, mkfs/mkfs.c),
    and that the image which recovery leaves holds the file system of the last commit, in which
    each block has one owner and a set bit. */
module Recovery {
  import opened Common
  import opened CrashLog
  import opened FileSystem
  import opened WriteAheadLog
  import BufferCache
  import Bitmap
  import Inodes

  /** Where mkfs puts things: the boot block, the superblock, the log, the inodes, the bitmap
      and the data. */
  datatype Geometry = Geometry(nlog: nat, ninodes: nat, size: nat) {
    function L(): Layout { Layout(2, nlog) }
    function InodeStart(): nat { 2 + nlog }
    function BmapStart(): nat { InodeStart() + ninodes / IPB + 1 }
    function Bitmaps(): nat { size / Bitmap.BPB + 1 }
    function Meta(): nat { BmapStart() + Bitmaps() }
  }

  /** IBLOCK, BBLOCK and the block itself. */
  function BlockOf(g: Geometry, s: Spot): nat {
    match s
    case DataAt(b) => b
    case BitmapAt(k) => g.BmapStart() + k
    case InodeAt(k) => g.InodeStart() + k
  }

  /* -------- what is in a block -------- */

  function WordAt(b: BufferCache.Block, j: nat): nat {
    (if j < |b.words| then b.words[j] else 0) % 0x1_0000_0000
  }

  function Octet(w: nat, k: nat): (r: nat)
    ensures r < 0x100
  {
    if k == 0 then w % 0x100
    else if k == 1 then w / 0x100 % 0x100
    else if k == 2 then w / 0x1_0000 % 0x100
    else w / 0x100_0000 % 0x100
  }

  /** A block as bytes, and as a block of the bitmap. */
  function BytesOf(b: BufferCache.Block): (r: Inodes.Block)
    ensures |r.bytes| == Inodes.BSIZE
  {
    Inodes.Block(seq(Inodes.BSIZE, o requires 0 <= o < Inodes.BSIZE => Octet(WordAt(b, o / 4), o % 4)))
  }

  function BitsOf(b: BufferCache.Block): (r: seq<bv8>)
    ensures |r| == Inodes.BSIZE
  {
    seq(Inodes.BSIZE, o requires 0 <= o < Inodes.BSIZE => Octet(WordAt(b, o / 4), o % 4) as bv8)
  }

  /** An indirect block's entries are its words. */
  lemma WordOf(b: BufferCache.Block, j: nat)
    requires j < Inodes.NINDIRECT
    ensures Inodes.Word(BytesOf(b), j) == WordAt(b, j)
  {
    hide WordAt;
    var w := WordAt(b, j);
    WordBound(b, j);
    Inodes.Digits(w);
    forall k: nat | k < 4 ensures BytesOf(b).bytes[4 * j + k] == Octet(w, k) {
      assert (4 * j + k) / 4 == j && (4 * j + k) % 4 == k;
    }
  }

  lemma WordBound(b: BufferCache.Block, j: nat)
    ensures WordAt(b, j) < 0x1_0000_0000
  {
  }

  /** A short. */
  function Short16(w: nat): int {
    if w % 0x1_0000 < 0x8000 then w % 0x1_0000 else w % 0x1_0000 - 0x1_0000
  }

  /** struct dinode number j of a block. */
  function InodeIn(b: BufferCache.Block, j: nat): Inodes.Inode {
    Inodes.Inode(Short16(WordAt(b, 16 * j)), Short16(WordAt(b, 16 * j + 1) / 0x1_0000), WordAt(b, 16 * j + 2),
                 seq<nat>(Inodes.NDIRECT + 1, k requires 0 <= k <= Inodes.NDIRECT => WordAt(b, 16 * j + 3 + k)))
  }

  /** The little-endian numbers at these bytes of a block. */
  function Two(b: Inodes.Block, o: nat): int
    requires o + 2 <= |b.bytes|
  {
    Short16(b.bytes[o] + 0x100 * b.bytes[o + 1])
  }

  function Four(b: Inodes.Block, o: nat): nat
    requires o + 4 <= |b.bytes|
  {
    b.bytes[o] + 0x100 * b.bytes[o + 1] + 0x1_0000 * b.bytes[o + 2] + 0x100_0000 * b.bytes[o + 3]
  }

  /** struct dinode, byte by byte: type at 0, nlink at 6, size at 8 and the addresses from 12 on,
      of 64 bytes. */
  lemma DinodeBytes(b: BufferCache.Block, j: nat)
    requires j < IPB
    ensures InodeIn(b, j).kind == Two(BytesOf(b), 64 * j) && InodeIn(b, j).nlink == Two(BytesOf(b), 64 * j + 6)
    ensures InodeIn(b, j).size == Four(BytesOf(b), 64 * j + 8) && |InodeIn(b, j).addrs| == Inodes.NDIRECT + 1
    ensures forall k: nat | k <= Inodes.NDIRECT :: InodeIn(b, j).addrs[k] == Four(BytesOf(b), 64 * j + 12 + 4 * k)
  {
    hide BytesOf, WordAt, Short16;
    HalfAt(b, 16 * j, 0);
    HalfAt(b, 16 * j + 1, 1);
    FourAt(b, 16 * j + 2);
    forall k: nat | k <= Inodes.NDIRECT
      ensures InodeIn(b, j).addrs[k] == Four(BytesOf(b), 64 * j + 12 + 4 * k)
    {
      FourAt(b, 16 * j + 3 + k);
    }
  }

  lemma FourAt(b: BufferCache.Block, w: nat)
    requires w < BufferCache.WORDS
    ensures Four(BytesOf(b), 4 * w) == WordAt(b, w)
  {
    hide BytesOf, WordAt;
    WordOf(b, w);
  }

  /** The low or high half of a word. */
  lemma HalfAt(b: BufferCache.Block, w: nat, half: nat)
    requires w < BufferCache.WORDS && half < 2
    ensures Two(BytesOf(b), 4 * w + 2 * half) == Short16(if half == 0 then WordAt(b, w) else WordAt(b, w) / 0x1_0000)
  {
    hide WordAt;
    var v := WordAt(b, w);
    var bytes := BytesOf(b).bytes;
    assert bytes[4 * w + 2 * half] == Octet(v, 2 * half) && bytes[4 * w + 2 * half + 1] == Octet(v, 2 * half + 1);
    WordBound(b, w);
    Halved(v, half);
  }

  lemma Halved(v: nat, half: nat)
    requires v < 0x1_0000_0000 && half < 2
    ensures Short16(Octet(v, 2 * half) + 0x100 * Octet(v, 2 * half + 1))
            == Short16(if half == 0 then v else v / 0x1_0000)
  {
    hide Short16;
    var w := if half == 0 then v else v / 0x1_0000;
    assert Octet(v, 2 * half) == w % 0x100 && Octet(v, 2 * half + 1) == w / 0x100 % 0x100 by {
      assert v / 0x100_0000 == v / 0x1_0000 / 0x100;
    }
    LowHalf(w);
    ShortLow(w);
  }

  lemma ShortLow(w: nat)
    ensures Short16(w % 0x1_0000) == Short16(w)
  {
  }

  lemma LowHalf(v: nat)
    ensures v % 0x100 + 0x100 * (v / 0x100 % 0x100) == v % 0x1_0000
  {
    var q := v / 0x100;
    assert v % 0x1_0000 == 0x100 * (q % 0x100) + v % 0x100 by {
      assert v == 0x1_0000 * (q / 0x100) + 0x100 * (q % 0x100) + v % 0x100;
    }
  }

  /** iupdate's copy into the block, the device numbers kept. */
  function PutInode(b: BufferCache.Block, j: nat, ino: Inodes.Inode): (r: BufferCache.Block)
    requires |b.words| == BufferCache.WORDS && j < IPB && |ino.addrs| == Inodes.NDIRECT + 1
    ensures |r.words| == |b.words|
  {
    BufferCache.Block(
      b.words[..16 * j]
      + [WordAt(b, 16 * j) / 0x1_0000 * 0x1_0000 + ino.kind % 0x1_0000,
         ino.nlink % 0x1_0000 * 0x1_0000 + WordAt(b, 16 * j + 1) % 0x1_0000, ino.size]
      + ino.addrs + b.words[16 * j + 16..])
  }

  /** The ranges of the fields of struct dinode. */
  predicate Storable(ino: Inodes.Inode) {
    && -0x8000 <= ino.kind < 0x8000 && -0x8000 <= ino.nlink < 0x8000 && ino.size < 0x1_0000_0000
    && |ino.addrs| == Inodes.NDIRECT + 1 && (forall k | 0 <= k <= Inodes.NDIRECT :: ino.addrs[k] < 0x1_0000_0000)
  }

  /** iupdate, then ilock: the inode comes back, and its neighbours stay. */
  lemma InodeBack(b: BufferCache.Block, j: nat, ino: Inodes.Inode, i: nat)
    requires |b.words| == BufferCache.WORDS && j < IPB && i < IPB && Storable(ino)
    ensures InodeIn(PutInode(b, j, ino), i) == if i == j then ino else InodeIn(b, i)
  {
    if i == j {
      SameBack(b, j, ino);
    } else {
      OtherBack(b, j, ino, i);
    }
  }

  lemma SameBack(b: BufferCache.Block, j: nat, ino: Inodes.Inode)
    requires |b.words| == BufferCache.WORDS && j < IPB && Storable(ino)
    ensures InodeIn(PutInode(b, j, ino), j) == ino
  {
    hide Short16;
    var r := PutInode(b, j, ino);
    Halves(WordAt(b, 16 * j) / 0x1_0000, ino.kind);
    High(ino.nlink, WordAt(b, 16 * j + 1) % 0x1_0000);
    forall k: nat | k <= Inodes.NDIRECT ensures InodeIn(r, j).addrs[k] == ino.addrs[k] {
      assert r.words[16 * j + 3 + k] == ino.addrs[k];
    }
  }

  lemma OtherBack(b: BufferCache.Block, j: nat, ino: Inodes.Inode, i: nat)
    requires |b.words| == BufferCache.WORDS && j < IPB && i < IPB && i != j && |ino.addrs| == Inodes.NDIRECT + 1
    ensures InodeIn(PutInode(b, j, ino), i) == InodeIn(b, i)
  {
    hide Short16;
    var r := PutInode(b, j, ino);
    forall w: nat | 16 * i <= w < 16 * i + 16 ensures WordAt(r, w) == WordAt(b, w) {
      if i < j {
        assert w < 16 * j;
      } else {
        assert w >= 16 * j + 16;
      }
    }
    hide WordAt, PutInode;
    forall k: nat | k <= Inodes.NDIRECT ensures InodeIn(r, i).addrs[k] == InodeIn(b, i).addrs[k] {
      assert WordAt(r, 16 * i + 3 + k) == WordAt(b, 16 * i + 3 + k);
    }
  }

  lemma Halves(high: nat, x: int)
    requires high < 0x1_0000 && -0x8000 <= x < 0x8000
    ensures Short16((high * 0x1_0000 + x % 0x1_0000) % 0x1_0000_0000) == x
  {
  }

  lemma High(x: int, low: nat)
    requires low < 0x1_0000 && -0x8000 <= x < 0x8000
    ensures Short16((x % 0x1_0000 * 0x1_0000 + low) % 0x1_0000_0000 / 0x1_0000) == x
  {
  }

  /* -------- what is in an image -------- */

  /** The image holds these bits, inodes and data. */
  ghost predicate Encodes(g: Geometry, img: Image, d: Disk) {
    && |img| == |d.data| == g.size && g.Meta() <= g.size
    && |d.inodes| == g.ninodes && |d.bitmap| == g.Bitmaps()
    && (forall i: nat | i < g.ninodes :: d.inodes[i] == InodeIn(img[g.InodeStart() + i / IPB], i % IPB))
    && (forall k: nat | k < g.Bitmaps() :: d.bitmap[k] == BitsOf(img[g.BmapStart() + k]))
    && (forall b: nat | g.Meta() <= b < g.size :: d.data[b] == BytesOf(img[b]))
  }

  /** Every block is in at most one slot, and its bit is set exactly if it is in one or is
      metadata: what the file system is started from. */
  ghost predicate Owned(g: Geometry, d: Disk) {
    exists slots, owner, pages ::
      && Inodes.Good(d.inodes, d.data, slots, owner, pages, g.Meta())
      && Bits(d.bitmap, owner.Keys, g.Meta(), g.size)
  }

  /** So it is when nothing is in flight and every inode has been written back. */
  lemma OwnedNow(g: Geometry, fs: Fs)
    requires fs.Valid() && fs.busy == {} && fs.inode == fs.dinode && fs.size == g.size && fs.nmeta == g.Meta()
    ensures Owned(g, fs.OnDisk())
  {
    hide Inodes.Good, Bits;
    assert fs.owner.Keys + {} == fs.owner.Keys;
  }

  /** Only the home blocks matter. */
  lemma EncodesHome(g: Geometry, a: Image, b: Image, d: Disk)
    requires Encodes(g, a, d) && SameHome(g.L(), a, b)
    ensures Encodes(g, b, d)
  {
    hide InodeIn, BitsOf, BytesOf;
  }

  /** One group commit: it carries the current contents of some blocks, among them every
      block in which the file system changed. */
  ghost predicate Carries(g: Geometry, was: Disk, now: Disk, logged: set<Spot>, view: Image, txn: Txn) {
    && Tracks(was, now, {}, logged) && Encodes(g, view, now)
    && |txn.blocks| == |txn.data|
    && (forall s | s in logged :: BlockOf(g, s) in txn.blocks)
    && (forall t | 0 <= t < |txn.blocks| :: txn.blocks[t] < |view| && txn.data[t] == view[txn.blocks[t]])
  }

  lemma {:induction false} AppliedView(txn: Txn, n: nat, was: BufferCache.Block, x: nat, view: Image)
    requires n <= |txn.blocks| == |txn.data| && x < |view|
    requires forall t | 0 <= t < n :: txn.blocks[t] == x ==> txn.data[t] == view[x]
    ensures Applied(txn, n, was, x) == if x in txn.blocks[..n] then view[x] else was
  {
    if n > 0 {
      AppliedView(txn, n - 1, was, x, view);
      assert txn.blocks[..n] == txn.blocks[..n - 1] + [txn.blocks[n - 1]];
    }
  }

  lemma AppliedAt(g: Geometry, was: Disk, now: Disk, logged: set<Spot>, view: Image, txn: Txn, img: Image, x: nat)
    requires Carries(g, was, now, logged, view, txn) && x < |img| == |view|
    ensures Apply(img, txn)[x] == if x in txn.blocks then view[x] else img[x]
  {
    hide Encodes, Tracks, BlockOf;
    AppliedView(txn, |txn.blocks|, img[x], x, view);
    assert txn.blocks[..|txn.blocks|] == txn.blocks;
  }

  /** A commit takes the image from one file system to the next. */
  lemma CommitEncodes(g: Geometry, was: Disk, now: Disk, logged: set<Spot>, view: Image, txn: Txn, img: Image)
    requires Encodes(g, img, was) && Carries(g, was, now, logged, view, txn)
    ensures Encodes(g, Apply(img, txn), now)
  {
    hide InodeIn, BitsOf, BytesOf, Apply;
    var r := Apply(img, txn);
    forall i: nat | i < g.ninodes ensures now.inodes[i] == InodeIn(r[g.InodeStart() + i / IPB], i % IPB) {
      AppliedAt(g, was, now, logged, view, txn, img, g.InodeStart() + i / IPB);
      assert InodeAt(i / IPB) in logged ==> BlockOf(g, InodeAt(i / IPB)) in txn.blocks;
    }
    forall k: nat | k < g.Bitmaps() ensures now.bitmap[k] == BitsOf(r[g.BmapStart() + k]) {
      AppliedAt(g, was, now, logged, view, txn, img, g.BmapStart() + k);
      assert BitmapAt(k) in logged ==> BlockOf(g, BitmapAt(k)) in txn.blocks;
    }
    forall b: nat | g.Meta() <= b < g.size ensures now.data[b] == BytesOf(r[b]) {
      AppliedAt(g, was, now, logged, view, txn, img, b);
      assert DataAt(b) in logged ==> BlockOf(g, DataAt(b)) in txn.blocks;
    }
  }

  /** The file systems disks[0], disks[1], ... of the commits. */
  ghost predicate History(g: Geometry, base: Image, commits: seq<Txn>, disks: seq<Disk>, logged: seq<set<Spot>>,
                          views: seq<Image>) {
    && |disks| == |commits| + 1 && |logged| == |views| == |commits|
    && Encodes(g, base, disks[0])
    && (forall c, e | 0 <= c < |commits| && e == c + 1 ::
          Carries(g, disks[c], disks[e], logged[c], views[c], commits[c]))
  }

  lemma {:induction false} ApplyingEncodes(g: Geometry, base: Image, commits: seq<Txn>, disks: seq<Disk>,
                                           logged: seq<set<Spot>>, views: seq<Image>, e: nat)
    requires History(g, base, commits, disks, logged, views) && e <= |commits|
    requires forall c | 0 <= c < |commits| :: |commits[c].blocks| == |commits[c].data|
    ensures Encodes(g, Applying(base, commits, e), disks[e])
  {
    hide Encodes, Carries;
    if e > 0 {
      ApplyingEncodes(g, base, commits, disks, logged, views, e - 1);
      CommitEncodes(g, disks[e - 1], disks[e], logged[e - 1], views[e - 1], commits[e - 1],
                    Applying(base, commits, e - 1));
    }
  }

  /** A crash between any two writes, and any number of further crashes in recovery: the disk
      holds the file system of the last commit, with every block owned at most once. */
  lemma OwnershipSurvives(g: Geometry, trace: seq<Image>, base: Image, commits: seq<Txn>, epoch: seq<nat>,
                          disks: seq<Disk>, logged: seq<set<Spot>>, views: seq<Image>, i: nat, reboots: seq<nat>)
    requires Journal(g.L(), trace, base, commits, epoch) && i < |trace|
    requires History(g, base, commits, disks, logged, views)
    requires forall c | 0 <= c < |disks| :: Owned(g, disks[c])
    ensures epoch[i] < |disks| && g.L().Sound(trace[i])
    ensures Encodes(g, Reboots(g.L(), trace[i], reboots), disks[epoch[i]]) && Owned(g, disks[epoch[i]])
  {
    hide Encodes, Owned, Carries, SameHome;
    CrashRecovers(g.L(), trace, base, commits, epoch, i, reboots);
    ApplyingEncodes(g, base, commits, disks, logged, views, epoch[i]);
    SameHomeBack(g.L(), Reboots(g.L(), trace[i], reboots), Applying(base, commits, epoch[i]));
    EncodesHome(g, Applying(base, commits, epoch[i]), Reboots(g.L(), trace[i], reboots), disks[epoch[i]]);
  }

  lemma SameHomeBack(l: Layout, a: Image, b: Image)
    requires SameHome(l, a, b)
    ensures SameHome(l, b, a)
  {
  }
}
