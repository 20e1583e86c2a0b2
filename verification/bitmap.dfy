/** The free-block bitmap (kernel/fs.c, mkfs/mkfs.c), bit by bit in its bytes. */
module Bitmap {
  import opened Common
  import opened Inodes

  const BPB: nat := BSIZE * 8

  /** The bitmap's blocks, each of BSIZE bytes. */
  type Map = seq<seq<bv8>>

  /** 1 << k for k below 8. */
  function Mask(k: nat): bv8
    requires k < 8
  {
    [1, 2, 4, 8, 16, 32, 64, 128][k]
  }

  predicate Has(x: bv8, k: nat)
    requires k < 8
  {
    x & Mask(k) != 0
  }

  /** It is the k-th bit from below. */
  lemma MaskShift(x: bv8, k: nat)
    requires k < 8
    ensures Mask(k) == (1 as bv8) << k
    ensures Has(x, k) <==> (x >> k) & 1 == 1
  {
    if k == 0 {
    } else if k == 1 {
    } else if k == 2 {
    } else if k == 3 {
    } else if k == 4 {
    } else if k == 5 {
    } else if k == 6 {
    } else {
    }
  }

  /** Setting one bit of a byte leaves the other seven alone. */
  lemma MaskSet(x: bv8, j: nat, k: nat)
    requires j < 8 && k < 8
    ensures Has(x | Mask(j), k) <==> j == k || Has(x, k)
  {
    var ms: seq<bv8> := [1, 2, 4, 8, 16, 32, 64, 128];
    assert Mask(j) == ms[j] && Mask(k) == ms[k];
  }

  /** And so does clearing one. */
  lemma MaskClear(x: bv8, j: nat, k: nat)
    requires j < 8 && k < 8
    ensures Has(x & !Mask(j), k) <==> j != k && Has(x, k)
  {
    var ms: seq<bv8> := [1, 2, 4, 8, 16, 32, 64, 128];
    assert Mask(j) == ms[j] && Mask(k) == ms[k];
  }

  /** Block b's bit: which bitmap block, which byte of it, which bit of that. */
  function Blk(b: nat): nat { b / BPB }
  function Byt(b: nat): (r: nat) ensures r < BSIZE { b % BPB / 8 }
  function Bt(b: nat): (r: nat) ensures r < 8 { b % BPB % 8 }

  lemma Place(b: nat, c: nat)
    requires Blk(b) == Blk(c) && Byt(b) == Byt(c) && Bt(b) == Bt(c)
    ensures b == c
  {
  }

  ghost predicate Covers(m: Map, size: nat) {
    && (forall i | 0 <= i < |m| :: |m[i]| == BSIZE)
    && (forall b: nat | b < size :: Blk(b) < |m|)
  }

  /** Is block b's bit set? */
  predicate Bit(m: Map, b: nat)
    requires Blk(b) < |m| && |m[Blk(b)]| == BSIZE
  {
    Has(m[Blk(b)][Byt(b)], Bt(b))
  }

  function Put(m: Map, b: nat, x: bv8): Map
    requires Blk(b) < |m| && |m[Blk(b)]| == BSIZE
  {
    m[Blk(b) := m[Blk(b)][Byt(b) := x]]
  }

  /** The bitmaps differ in block k at most. */
  ghost predicate OnlyBlock(m: Map, m': Map, k: nat) {
    |m'| == |m| && forall j | 0 <= j < |m| && j != k :: m'[j] == m[j]
  }

  /** Replacing the byte that holds b's bit, with only that bit changed. */
  lemma PutBit(m: Map, size: nat, b: nat, x: bv8, on: bool)
    requires Covers(m, size) && b < size
    requires x == if on then m[Blk(b)][Byt(b)] | Mask(Bt(b)) else m[Blk(b)][Byt(b)] & !Mask(Bt(b))
    ensures Covers(Put(m, b, x), size)
    ensures forall c: nat | c < size :: Bit(Put(m, b, x), c) <==> if c == b then on else Bit(m, c)
  {
    hide Has, Mask, Blk, Byt, Bt;
    forall c: nat | c < size ensures Bit(Put(m, b, x), c) <==> if c == b then on else Bit(m, c) {
      MaskSet(m[Blk(b)][Byt(b)], Bt(b), Bt(c));
      MaskClear(m[Blk(b)][Byt(b)], Bt(b), Bt(c));
      if Blk(b) == Blk(c) && Byt(b) == Byt(c) && Bt(b) == Bt(c) {
        Place(b, c);
      }
    }
  }

  lemma PlaceIn(b: nat, bi: nat)
    requires b % BPB == 0 && bi < BPB
    ensures Blk(b + bi) == b / BPB && Byt(b + bi) == bi / 8 && Bt(b + bi) == bi % 8
  {
    assert b + bi == BPB * (b / BPB) + bi;
  }

  /** balloc's search: the lowest clear bit. */
  method FirstClear(m: Map, size: nat) returns (r: Option<nat>)
    requires Covers(m, size)
    ensures r.None? <==> forall c: nat | c < size :: Bit(m, c)
    ensures r.Some? ==> r.value < size && !Bit(m, r.value) && forall c: nat | c < r.value :: Bit(m, c)
  {
    hide Has, Mask, Blk, Byt, Bt;
    var b := 0;
    while b < size
      invariant b % BPB == 0
      invariant forall c: nat | c < b && c < size :: Bit(m, c)
      decreases size + BPB - b
    {
      var bi := 0;
      while bi < BPB && b + bi < size
        invariant bi <= BPB
        invariant forall c: nat | c < b + bi && c < size :: Bit(m, c)
      {
        PlaceIn(b, bi);
        if !Has(m[b / BPB][bi / 8], bi % 8) {
          assert !Bit(m, b + bi);
          return Some(b + bi);
        }
        bi := bi + 1;
      }
      b := b + BPB;
    }
    return None;
  }

  /** balloc: the lowest clear bit is set; None is the panic. */
  method SetFirstClear(m: Map, size: nat) returns (r: Option<nat>, m': Map)
    requires Covers(m, size)
    ensures Covers(m', size)
    ensures r.None? <==> forall c: nat | c < size :: Bit(m, c)
    ensures r.None? ==> m' == m
    ensures r.Some? ==> r.value < size && !Bit(m, r.value) && forall c: nat | c < r.value :: Bit(m, c)
    ensures r.Some? ==> forall c: nat | c < size :: Bit(m', c) <==> c == r.value || Bit(m, c)
    ensures r.Some? ==> OnlyBlock(m, m', Blk(r.value))
  {
    hide Has, Mask, Blk, Byt, Bt;
    m' := m;
    r := FirstClear(m, size);
    if r.Some? {
      var b := r.value;
      var x := m[Blk(b)][Byt(b)] | Mask(Bt(b));
      PutBit(m, size, b, x, true);
      m' := m[Blk(b) := m[Blk(b)][Byt(b) := x]];
    }
  }

  /** bfree's update; false is the panic "freeing free block". */
  method ClearBit(m: Map, size: nat, b: nat) returns (ok: bool, m': Map)
    requires Covers(m, size) && b < size
    ensures Covers(m', size)
    ensures ok <==> Bit(m, b)
    ensures !ok ==> m' == m
    ensures ok ==> forall c: nat | c < size :: Bit(m', c) <==> c != b && Bit(m, c)
    ensures ok ==> OnlyBlock(m, m', Blk(b))
  {
    hide Has, Mask, Blk, Byt, Bt;
    m' := m;
    ok := Has(m[Blk(b)][Byt(b)], Bt(b));
    if ok {
      var x := m[Blk(b)][Byt(b)] & !Mask(Bt(b));
      PutBit(m, size, b, x, false);
      m' := m[Blk(b) := m[Blk(b)][Byt(b) := x]];
    }
  }

  /** mkfs's balloc: the first `used` bits of one zeroed bitmap block. */
  method SetFirst(used: nat) returns (block: seq<bv8>)
    requires used < BPB
    ensures Covers([block], BPB)
    ensures forall c: nat | c < BPB :: Bit([block], c) <==> c < used
  {
    hide Byt, Bt;
    block := seq(BSIZE, _ => 0);
    var i := 0;
    while i < used
      invariant i <= used && |block| == BSIZE && Covers([block], BPB)
      invariant forall c: nat | c < BPB :: Bit([block], c) <==> c < i
    {
      PutBit([block], BPB, i, block[Byt(i)] | Mask(Bt(i)), true);
      ghost var was := block;
      block := block[Byt(i) := block[Byt(i)] | Mask(Bt(i))];
      assert Put([was], i, was[Byt(i)] | Mask(Bt(i))) == [block];
      i := i + 1;
    }
  }
}
