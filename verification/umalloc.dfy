/** The user-level allocator (user/umalloc.c; section 8.7 of The C Programming
    Language, 2nd edition).

    Addresses count headers, which are 16 bytes; `base` lies below every address that
    sbrk returns.  Ghost `list` is the free list from `base` on, `live` the blocks
    handed out and `owner` the block that each unit got from sbrk is part of. */
module Malloc {
  import opened Common
  import opened Seqs

  const HEADER: nat := 16
  const BASE: nat := 1

  /** The free list is one cycle, in address order but for the wrap to BASE. */
  ghost predicate Ring(ptr: map<nat, nat>, list: seq<nat>) {
    && |list| > 0 && list[0] == BASE
    && (forall i | 0 <= i < |list| :: list[i] in ptr)
    && (forall i, j | 0 <= i < j < |list| :: list[i] < list[j])
    && (forall i, j | 0 <= i < |list| && j == i + 1 && j < |list| :: ptr[list[i]] == list[j])
    && ptr[list[|list| - 1]] == BASE
  }

  /** Neighbours do not overlap, and only BASE is empty. */
  ghost predicate Fits(size: map<nat, nat>, list: seq<nat>) {
    && (forall i | 0 <= i < |list| :: list[i] in size && (i > 0 ==> size[list[i]] > 0))
    && (forall i, j | 0 <= i < |list| && j == i + 1 && j < |list| :: list[i] + size[list[i]] <= list[j])
    && (|list| > 0 ==> size[list[0]] == 0)
  }

  ghost predicate Apart(size: map<nat, nat>, list: seq<nat>, i: nat)
    requires Fits(size, list)
  {
    forall j | j == i + 1 && j < |list| :: list[i] + size[list[i]] < list[j]
  }

  /** Nor do they touch. */
  ghost predicate Gaps(size: map<nat, nat>, list: seq<nat>) {
    Fits(size, list) && forall i | 0 <= i < |list| :: Apart(size, list, i)
  }

  ghost predicate Block(list: seq<nat>, live: set<nat>, b: nat) {
    b != BASE && (b in list || b in live)
  }

  /** Block b is exactly its units. */
  ghost predicate Whole(size: map<nat, nat>, owner: map<nat, nat>, b: nat)
    requires b in size
  {
    forall u | b <= u < b + size[b] :: u in owner && owner[u] == b
  }

  /** Every unit is in exactly one block, free or live. */
  ghost predicate Cover(size: map<nat, nat>, list: seq<nat>, live: set<nat>, owner: map<nat, nat>, top: nat) {
    && (forall b | Block(list, live, b) :: b in size && size[b] > 0 && Whole(size, owner, b))
    && (forall b | b in live :: b !in list)
    && (forall u | u in owner :: BASE < u < top && Block(list, live, owner[u])
                                 && owner[u] <= u < owner[u] + size[owner[u]])
  }

  class Heap {
    var ptr: map<nat, nat>      // s.ptr of the headers
    var size: map<nat, nat>     // s.size of the headers
    var freep: nat              // 0 before the first malloc
    ghost var list: seq<nat>
    ghost var live: set<nat>
    ghost var owner: map<nat, nat>
    ghost var top: nat          // sbrk has not gone beyond

    ghost predicate Valid()
      reads this
    {
      && BASE < top <= UINT
      && Cover(size, list, live, owner, top)
      && (if freep == 0 then list == [] && live == {} else Ring(ptr, list) && Gaps(size, list) && freep in list)
    }

    /** Before the first malloc: freep is 0 and nothing has come from sbrk. */
    constructor ()
      ensures Valid() && freep == 0 && live == {} && owner == map[]
    {
      ptr, size, freep := map[], map[], 0;
      list, live, owner, top := [], {}, map[], BASE + 1;
    }

    /** The search of free: the last free block before bp. */
    method Search(bp: nat) returns (p: nat, ghost j: nat)
      requires Valid() && freep != 0 && BASE < bp && bp !in list
      ensures j < |list| && p == list[j] < bp && forall k | j < k < |list| :: bp < list[k]
    {
      hide Cover, Gaps;
      p := freep;
      ghost var i: nat :| i < |list| && list[i] == p;
      ghost var goal := Position(list, bp);
      while !(bp > p && bp < ptr[p])
        invariant i < |list| && list[i] == p
        decreases if i <= goal then goal - i else |list| - i + goal
      {
        assert i + 1 < |list| ==> ptr[p] == list[i + 1];
        if p >= ptr[p] && (bp > p || bp < ptr[p]) {
          break;
        }
        p := ptr[p];
        i := if i + 1 < |list| then i + 1 else 0;
      }
      assert i + 1 < |list| ==> ptr[p] == list[i + 1];
      j := i;
    }

    /** The first half of free's linking: bp and the free block after it. */
    method JoinNext(p: nat, bp: nat, ghost j: nat)
      requires Valid() && freep != 0 && bp in live
      requires j < |list| && p == list[j] < bp && forall k | j < k < |list| :: bp < list[k]
      modifies this`ptr, this`size, this`list, this`live, this`owner
      ensures Pending(ptr, size, list, live, owner, top, p, bp, j)
      ensures live == old(live) - {bp} && owner.Keys == old(owner.Keys) && Same(old(size), size, live)
              && size[bp] >= old(size[bp])
    {
      hide Cover, Gaps, Pending, Reown, With, Without;
      LiveFacts(size, list, live, owner, top, bp);
      RingFacts(ptr, size, list);
      InsertPending(ptr, size, list, live, owner, top, p, bp, j);
      var next := ptr[p];
      if bp + size[bp] == next {
        MergePending(ptr, size, list, live, owner, top, p, bp, j);
        list := Without(With(list, j + 1, bp), j + 2);
        owner := Reown(owner, next, bp);
        size := size[bp := size[bp] + size[next]];
        ptr := ptr[bp := ptr[next]];
      } else {
        list := With(list, j + 1, bp);
        ptr := ptr[bp := next];
      }
      live := live - {bp};
    }

    /** free, of the block whose header is bp.  The block becomes part of a free one,
        and no other live block is touched. */
    method Free(bp: nat)
      requires Valid() && bp in live
      modifies this
      ensures Valid() && freep != 0 && top == old(top)
      ensures live == old(live) - {bp} && owner.Keys == old(owner.Keys) && Same(old(size), size, live)
      ensures bp in owner && owner[bp] in list && owner[bp] in size && size[owner[bp]] >= old(size[bp])
      ensures freep in old(list) && freep < bp && forall b | b in old(list) && b < bp :: b <= freep
    {
      hide Cover, Gaps, Pending, Reown, Without, Fits, Apart, ApartBut;
      LiveFacts(size, list, live, owner, top, bp);
      var p, j := Search(bp);
      JoinNext(p, bp, j);
      PendingFacts(ptr, size, list, live, owner, top, p, bp, j);
      if p + size[p] == bp {
        PendingMerged(ptr, size, list, live, owner, top, p, bp, j);
        list := Without(list, j + 1);
        owner := Reown(owner, bp, p);
        size := size[p := size[p] + size[bp]];
        ptr := ptr[p := ptr[bp]];
      } else {
        PendingLinked(ptr, size, list, live, owner, top, p, bp, j);
        ptr := ptr[p := bp];
      }
      freep := p;
    }

    /** morecore, when sbrk returns this address or fails: a free block of nu units or
        more joins the list. */
    method Morecore(nu: nat, sbrk: Option<nat>) returns (p: nat)
      requires Valid() && freep != 0
      requires sbrk.Some? ==> top <= sbrk.value && sbrk.value + Granted(nu) <= UINT
      modifies this
      ensures Valid() && freep != 0 && p == (if sbrk == None then 0 else freep)
      ensures sbrk == None ==>
                && top == old(top) && list == old(list) && live == old(live) && owner == old(owner)
                && size == old(size)
      ensures live == old(live) && Same(old(size), size, live)
      ensures sbrk.Some? ==> owner.Keys == old(owner.Keys) + Units(sbrk.value, Granted(nu)) && Big(size, list, nu)
    {
      hide Cover, Gaps, Ring, Fits, Claim, Units;
      var nu' := if nu < 4096 then 4096 else nu;
      if sbrk == None {
        return 0;
      }
      var hp := sbrk.value;
      RingHead(ptr, list);
      Grown(size, list, live, owner, top, hp, nu');
      size := size[hp := nu'];
      live := live + {hp};
      owner := Claim(owner, hp, nu');
      top := hp + nu';
      Free(hp);
      return freep;
    }

    /** malloc's use of a block p that is big enough, after prevp in the list. */
    method Take(prevp: nat, p: nat, nunits: nat, ghost i: nat) returns (b: nat)
      requires Valid() && freep != 0 && nunits > 0
      requires 0 < i < |list| && list[i] == p && list[i - 1] == prevp && p in size && size[p] >= nunits
      modifies this
      ensures Valid() && freep != 0 && top == old(top) && owner.Keys == old(owner.Keys)
      ensures b !in old(live) && live == old(live) + {b} && b in size && size[b] == nunits
              && Same(old(size), size, old(live))
      ensures b == p + old(size[p]) - nunits && freep == prevp
    {
      hide Cover, Gaps, Split, Without;
      RingFacts(ptr, size, list);
      LiveApart(size, list, live, owner, top);
      if size[p] == nunits {
        Unlinked(ptr, size, list, live, owner, top, i);
        list := Without(list, i);
        ptr := ptr[prevp := ptr[p]];
        b := p;
      } else {
        SplitOff(size, list, live, owner, top, i, nunits);
        size := size[p := size[p] - nunits];
        b := p + size[p];
        size := size[b := nunits];
        owner := Split(owner, b, nunits);
      }
      live := live + {b};
      freep := prevp;
    }

    /** The first malloc makes BASE the free list. */
    method Start(ghost n: nat)
      requires Valid() && n > 0
      modifies this`ptr, this`size, this`freep, this`list
      ensures Valid() && freep != 0 && Same(old(size), size, live)
      ensures old(freep) != 0 ==> list == old(list) && size == old(size) && freep == old(freep)
      ensures Big(size, list, n) <==> Big(old(size), old(list), n)
    {
      hide Ring, Cover, Gaps, Big;
      if freep == 0 {
        NoUnits(size, owner, top);
        Started(ptr, size, top, n);
        ptr := ptr[BASE := BASE];
        size := size[BASE := 0];
        freep := BASE;
        list := [BASE];
      }
    }

    /** malloc, where sbrk returns this address or fails if it is called.  The result is
        the header of a block of at least nbytes bytes besides the header. */
    method Malloc(nbytes: nat, sbrk: Option<nat>) returns (r: Option<nat>, ghost grew: bool)
      requires Valid() && nbytes <= 0x8000_0000 - 2 * HEADER
      requires sbrk.Some? ==> top <= sbrk.value && sbrk.value + Granted(UnitsFor(nbytes)) <= UINT
      modifies this
      ensures Valid()
      ensures grew <==> sbrk.Some? && !Fitting(old(size), old(list), nbytes)
      ensures r.Some? <==> sbrk.Some? || Fitting(old(size), old(list), nbytes)
      ensures r == None ==> live == old(live)
      ensures r.Some? ==>
                && r.value !in old(live) && live == old(live) + {r.value} && r.value in size
                && (size[r.value] - 2) * HEADER < nbytes <= (size[r.value] - 1) * HEADER
      ensures r.Some? && !grew ==> FirstFit(old(size), old(list), old(freep), size[r.value], r.value, freep)
      ensures !grew ==> owner.Keys == old(owner.Keys)
      ensures grew ==> && r.Some?
                       && var more := if size[r.value] < 4096 then 4096 else size[r.value];
                          owner.Keys == old(owner.Keys) + Units(sbrk.value, more)
      ensures Same(old(size), size, old(live))
    {
      hide Ring, Cover, Gaps, Fits, Units, Big, Same, Small, Granted, UnitsFor, Fitting, FirstFit;
      var nunits := UnitsFor(nbytes);
      UnitsExact(nbytes);
      BigFits(size, list, nbytes);
      GrantedIs(nunits);
      grew := false;
      Start(nunits);
      var prevp := freep;
      ghost var f: nat :| f < |list| && list[f] == freep;
      ghost var i: nat := Next(list, f);
      RingNext(ptr, list, f);
      var p := ptr[prevp];
      SmallStart(size, list, nunits, f);
      while true
        invariant Valid() && freep != 0 && f < |list| && list[f] == freep && i < |list| && list[i] == p
        invariant prevp == list[Previous(list, i)] && live == old(live) && Same(old(size), size, live)
                  && Small(size, list, nunits, f, i)
        invariant !grew ==>
                  && owner == old(owner) && top == old(top)
                  && (old(freep) != 0 ==> list == old(list) && size == old(size) && freep == old(freep))
                  && (Big(size, list, nunits) <==> Big(old(size), old(list), nunits))
        invariant grew ==> && sbrk.Some? && !Big(old(size), old(list), nunits) && Big(size, list, nunits)
                           && owner.Keys == old(owner.Keys) + Units(sbrk.value, Granted(nunits))
        decreases if grew then 0 else 1, if i > f then |list| - i + f else f - i
      {
        SizeAt(ptr, size, list, i);
        if size[p] >= nunits {
          FoundBig(size, list, i, nunits);
          ghost var size0 := size;
          if !grew {
            NoBlocks(old(size), old(list), nunits);
            FitFirst(size, list, nunits, f, i);
          }
          var b := Take(prevp, p, nunits, i);
          SameTrans(old(size), size0, size, old(live));
          return Some(b), grew;
        }
        SmallNext(ptr, size, list, nunits, f, i);
        RingNext(ptr, list, i);
        if p == freep {
          ghost var size0 := size;
          p := Morecore(nunits, sbrk);
          SameTrans(old(size), size0, size, old(live));
          if p == 0 {
            return None, false;
          }
          grew := true;
          f :| 0 <= f < |list| && list[f] == freep;
          i := f;
          RingNext(ptr, list, f);
          SmallStart(size, list, nunits, f);
        }
        prevp := p;
        p := ptr[p];
        i := Next(list, i);
      }
    }
  }

  /** Everything is in order once p points to bp, but that p may touch bp. */
  ghost predicate Pending(ptr: map<nat, nat>, size: map<nat, nat>, list: seq<nat>, live: set<nat>, owner: map<nat, nat>,
                          top: nat, p: nat, bp: nat, j: nat) {
    && j + 1 < |list| && list[j] == p && list[j + 1] == bp && bp in ptr
    && Ring(ptr[p := bp], list) && Fits(size, list) && ApartBut(size, list, j, j)
    && Cover(size, list, live, owner, top)
  }

  lemma InsertPending(ptr: map<nat, nat>, size: map<nat, nat>, list: seq<nat>, live: set<nat>, owner: map<nat, nat>,
                      top: nat, p: nat, bp: nat, j: nat)
    requires Ring(ptr, list) && Gaps(size, list) && Cover(size, list, live, owner, top) && bp in live && BASE < bp
             && bp in size
    requires j < |list| && p == list[j] < bp && forall k | j < k < |list| :: bp < list[k]
    ensures bp + size[bp] != ptr[p] ==> Pending(ptr[bp := ptr[p]], size, With(list, j + 1, bp), live - {bp}, owner,
            top, p, bp, j)
    ensures Ring(ptr[bp := ptr[p]][p := bp], With(list, j + 1, bp))
    ensures Fits(size, With(list, j + 1, bp)) && ApartBut(size, With(list, j + 1, bp), j, j + 1)
    ensures Cover(size, With(list, j + 1, bp), live - {bp}, owner, top)
  {
    hide With, Cover;
    WithInserted(list, j, bp);
    InsertRing(ptr, list, With(list, j + 1, bp), j, bp);
    InsertGaps(size, list, With(list, j + 1, bp), live, owner, top, j, bp);
    InsertCover(size, list, live, owner, top, j + 1, bp);
  }

  lemma WithoutRemoved(list: seq<nat>, i: nat)
    requires i < |list|
    ensures Removed(list, Without(list, i), i)
  {
  }

  lemma RingSorted(ptr: map<nat, nat>, list: seq<nat>)
    requires Ring(ptr, list)
    ensures forall i, j | 0 <= i < j < |list| :: list[i] < list[j]
  {
  }

  lemma NextAbove(ptr: map<nat, nat>, list: seq<nat>, j: nat, bp: nat)
    requires Ring(ptr, list) && j < |list| && ptr[list[j]] >= bp > BASE
    ensures j + 1 < |list| && ptr[list[j]] == list[j + 1]
  {
    assert j + 1 < |list| ==> ptr[list[j]] == list[j + 1];
  }

  lemma MergePending(ptr: map<nat, nat>, size: map<nat, nat>, list: seq<nat>, live: set<nat>, owner: map<nat, nat>,
                     top: nat, p: nat, bp: nat, j: nat)
    requires Ring(ptr, list) && Gaps(size, list) && Cover(size, list, live, owner, top) && bp in live && BASE < bp
             && bp in size
    requires j < |list| && p == list[j] < bp && forall k | j < k < |list| :: bp < list[k]
    requires bp + size[bp] == ptr[p]
    ensures j + 2 < |With(list, j + 1, bp)| && ptr[p] in size && ptr[p] in ptr && ptr[p] !in live
    ensures Pending(ptr[bp := ptr[ptr[p]]], size[bp := size[bp] + size[ptr[p]]], Without(With(list, j + 1, bp), j + 2),
                    live - {bp}, Reown(owner, ptr[p], bp), top, p, bp, j)
  {
    hide With, Without, Cover, Reown, Fits, Gaps, Apart, ApartBut, Ring;
    RingFacts(ptr, size, list);
    NextAbove(ptr, list, j, bp);
    var next := ptr[p];
    var list1, ptr1 := With(list, j + 1, bp), ptr[bp := next][p := bp];
    WithInserted(list, j, bp);
    InsertPending(ptr, size, list, live, owner, top, p, bp, j);
    assert list1[j + 2] == next;
    WithoutRemoved(list1, j + 2);
    var list2 := Without(list1, j + 2);
    FitsFacts(size, list1);
    RemoveRing(ptr1, list1, list2, j + 2);
    RingSorted(ptr1, list1);
    MergeGaps(size, list1, list2, j + 1, j);
    MergeCover(size, list1, list2, live - {bp}, owner, top, j + 1);
    LiveApart(size, list, live, owner, top);
    assert ptr[bp := ptr[next]][p := bp] == ptr1[bp := ptr1[next]];
  }

  lemma LiveApart(size: map<nat, nat>, list: seq<nat>, live: set<nat>, owner: map<nat, nat>, top: nat)
    requires Cover(size, list, live, owner, top)
    ensures forall b | b in live :: b !in list && (b != BASE ==> b in size)
  {
    assert forall b | b in live && b != BASE :: Block(list, live, b);
  }

  lemma PendingFacts(ptr: map<nat, nat>, size: map<nat, nat>, list: seq<nat>, live: set<nat>, owner: map<nat, nat>,
                     top: nat, p: nat, bp: nat, j: nat)
    requires Pending(ptr, size, list, live, owner, top, p, bp, j)
    ensures p in size && bp in size && bp in ptr && p in list && p != 0 && j + 1 < |list| && list[j + 1] == bp
            && p !in live
    ensures bp in owner && owner[bp] == bp && bp in list
  {
    LiveApart(size, list, live, owner, top);
    assert Block(list, live, bp) && Whole(size, owner, bp);
  }

  lemma NotBase(size: map<nat, nat>, list: seq<nat>, j: nat)
    requires Fits(size, list) && j + 1 < |list| && list[j] < list[j + 1]
    ensures list[j] + size[list[j]] == list[j + 1] ==> j > 0
  {
  }

  lemma ApartAll(size: map<nat, nat>, list: seq<nat>, h: nat)
    requires Fits(size, list) && ApartBut(size, list, h, h) && h >= |list|
    ensures Gaps(size, list)
  {
  }

  lemma PendingMerged(ptr: map<nat, nat>, size: map<nat, nat>, list: seq<nat>, live: set<nat>, owner: map<nat, nat>,
                      top: nat, p: nat, bp: nat, j: nat)
    requires Pending(ptr, size, list, live, owner, top, p, bp, j) && p in size && bp in size && p + size[p] == bp
    ensures Ring(ptr[p := ptr[bp]], Without(list, j + 1)) && p in Without(list, j + 1)
    ensures Gaps(size[p := size[p] + size[bp]], Without(list, j + 1))
    ensures Cover(size[p := size[p] + size[bp]], Without(list, j + 1), live, Reown(owner, bp, p), top)
    ensures bp in owner && Reown(owner, bp, p)[bp] == p
  {
    hide Cover, Without, Fits, Apart, ApartBut, Gaps;
    PendingFacts(ptr, size, list, live, owner, top, p, bp, j);
    WithoutRemoved(list, j + 1);
    var list' := Without(list, j + 1);
    RemoveRing(ptr[p := bp], list, list', j + 1);
    NotBase(size, list, j);
    MergeGaps(size, list, list', j, j);
    ApartAll(size[p := size[p] + size[bp]], list', |list|);
    MergeCover(size, list, list', live, owner, top, j);
    assert ptr[p := ptr[bp]] == ptr[p := bp][p := ptr[p := bp][bp]];
    assert list'[j] == p;
  }

  lemma PendingLinked(ptr: map<nat, nat>, size: map<nat, nat>, list: seq<nat>, live: set<nat>, owner: map<nat, nat>,
                      top: nat, p: nat, bp: nat, j: nat)
    requires Pending(ptr, size, list, live, owner, top, p, bp, j) && p in size && p + size[p] != bp
    ensures Ring(ptr[p := bp], list) && Gaps(size, list) && Cover(size, list, live, owner, top)
  {
    hide Cover;
    assert Apart(size, list, j);
  }

  /** The units that morecore asks for. */
  function Granted(nu: nat): nat { if nu < 4096 then 4096 else nu }

  function Units(b: nat, n: nat): (r: set<nat>)
    ensures |r| == n && forall u: nat :: u in r <==> b <= u < b + n
  {
    if n == 0 then {} else Units(b, n - 1) + {b + n - 1}
  }

  function Claim(owner: map<nat, nat>, b: nat, n: nat): (r: map<nat, nat>)
    ensures r.Keys == owner.Keys + Units(b, n)
  {
    map u | u in owner.Keys + Units(b, n) :: if u in Units(b, n) then b else owner[u]
  }

  /** Some free block has nu units. */
  ghost predicate Big(size: map<nat, nat>, list: seq<nat>, nu: nat) {
    exists f :: f in list && f in size && size[f] >= nu
  }

  lemma Grown(size: map<nat, nat>, list: seq<nat>, live: set<nat>, owner: map<nat, nat>, top: nat, hp: nat, nu: nat)
    requires Gaps(size, list) && Cover(size, list, live, owner, top) && BASE < top <= hp && nu > 0
    requires |list| > 0 && list[0] == BASE
    ensures hp !in live && Gaps(size[hp := nu], list)
    ensures Cover(size[hp := nu], list, live + {hp}, Claim(owner, hp, nu), hp + nu)
  {
    hide Cover, Claim, Gaps;
    BlocksBelow(size, list, live, owner, top);
    GrownGaps(size, list, live, hp, nu);
    GrownCover(size, list, live, owner, top, hp, nu);
  }

  lemma BlocksBelow(size: map<nat, nat>, list: seq<nat>, live: set<nat>, owner: map<nat, nat>, top: nat)
    requires Cover(size, list, live, owner, top) && |list| > 0 && list[0] == BASE < top
    ensures forall b: nat | Block(list, live, b) :: BASE < b < top
    ensures forall b | b in list || b in live :: b < top
  {
    forall b: nat | Block(list, live, b)
      ensures BASE < b < top
    {
      assert Whole(size, owner, b);
      assert b in owner && owner[b] == b;
    }
    forall b | b in list || b in live
      ensures b < top
    {
      assert b == BASE || Block(list, live, b);
    }
  }

  lemma GrownCover(size: map<nat, nat>, list: seq<nat>, live: set<nat>, owner: map<nat, nat>, top: nat, hp: nat,
                   nu: nat)
    requires Cover(size, list, live, owner, top) && BASE < top <= hp && nu > 0
    requires forall b | b in list || b in live :: b < top
    ensures Cover(size[hp := nu], list, live + {hp}, Claim(owner, hp, nu), hp + nu)
  {
    hide Claim, Units, Whole, Block;
    var size', owner' := size[hp := nu], Claim(owner, hp, nu);
    forall b | Block(list, live + {hp}, b)
      ensures b in size' && size'[b] > 0 && Whole(size', owner', b)
    {
      BlockMore(list, live, hp, b);
      GrownWhole(size, owner, hp, nu, b);
    }
    forall u | u in owner'
      ensures BASE < u < hp + nu && Block(list, live + {hp}, owner'[u]) && owner'[u] <= u < owner'[u] + size'[owner'[u]]
    {
      ClaimAt(owner, hp, nu, u);
      BlockMore(list, live, hp, owner'[u]);
      if u in owner {
        BlockBelow(list, live, top, owner[u]);
      }
    }
    forall b | b in live + {hp}
      ensures b !in list
    {
    }
  }

  lemma BlockMore(list: seq<nat>, live: set<nat>, hp: nat, b: nat)
    requires hp != BASE
    ensures Block(list, live + {hp}, b) <==> b == hp || Block(list, live, b)
  {
  }

  lemma BlockBelow(list: seq<nat>, live: set<nat>, top: nat, b: nat)
    requires Block(list, live, b) && forall x | x in list || x in live :: x < top
    ensures b < top
  {
  }

  lemma ClaimAt(owner: map<nat, nat>, hp: nat, nu: nat, u: nat)
    requires u in Claim(owner, hp, nu)
    ensures u in owner || hp <= u < hp + nu
    ensures Claim(owner, hp, nu)[u] == if hp <= u < hp + nu then hp else owner[u]
  {
  }

  lemma GrownWhole(size: map<nat, nat>, owner: map<nat, nat>, hp: nat, nu: nat, b: nat)
    requires (b == hp || (b in size && Whole(size, owner, b))) && forall u | u in owner :: u < hp
    ensures Whole(size[hp := nu], Claim(owner, hp, nu), b)
  {
  }

  lemma GrownGaps(size: map<nat, nat>, list: seq<nat>, live: set<nat>, hp: nat, nu: nat)
    requires Gaps(size, list) && hp > BASE && forall b: nat | Block(list, live, b) :: b < hp
    ensures Gaps(size[hp := nu], list)
  {
    forall i | 0 <= i < |list|
      ensures list[i] != hp
    {
      assert list[i] == BASE || Block(list, live, list[i]);
    }
    assert Fits(size[hp := nu], list);
    forall i, k | 0 <= i < |list| && k == i + 1 && k < |list|
      ensures list[i] + size[list[i]] < list[k]
    {
      assert Apart(size, list, i);
    }
  }

  /** The tail of a block becomes a block of its own. */
  function Split(owner: map<nat, nat>, b: nat, n: nat): (r: map<nat, nat>)
    ensures r.Keys == owner.Keys && forall u | u in r :: r[u] == if b <= u < b + n then b else owner[u]
  {
    map u | u in owner :: if b <= u < b + n then b else owner[u]
  }

  lemma SplitOff(size: map<nat, nat>, list: seq<nat>, live: set<nat>, owner: map<nat, nat>, top: nat, i: nat, n: nat)
    requires Gaps(size, list) && Cover(size, list, live, owner, top) && 0 < i < |list| && 0 < n < size[list[i]]
    requires list[0] == BASE && forall j, k | 0 <= j < k < |list| :: list[j] < list[k]
    ensures var b := list[i] + size[list[i]] - n; var size' := size[list[i] := size[list[i]] - n][b := n];
            b !in live && b !in list && Gaps(size', list) && Cover(size', list, live + {b}, Split(owner, b, n), top)
  {
    hide Cover, Split, Block, Whole, Apart;
    var p := list[i];
    var b := p + size[p] - n;
    Inside(size, list, live, owner, top, i, b);
    SplitGaps(size, list, i, b, n);
    SplitCover(size, list, live, owner, top, p, b, n);
  }

  /** The inside of a free block is not the start of a block. */
  lemma Inside(size: map<nat, nat>, list: seq<nat>, live: set<nat>, owner: map<nat, nat>, top: nat, i: nat, b: nat)
    requires Gaps(size, list) && Cover(size, list, live, owner, top) && 0 < i < |list|
             && list[i] < b < list[i] + size[list[i]]
    requires list[0] == BASE && forall j, k | 0 <= j < k < |list| :: list[j] < list[k]
    ensures b !in list && b !in live && BASE < b && Block(list, live, list[i])
  {
    assert Block(list, live, list[i]) && Whole(size, owner, list[i]);
    assert owner[b] == list[i];
    assert !Block(list, live, b);
  }

  lemma SplitGaps(size: map<nat, nat>, list: seq<nat>, i: nat, b: nat, n: nat)
    requires Gaps(size, list) && 0 < i < |list| && b !in list && 0 < n < size[list[i]]
    requires forall j, k | 0 <= j < k < |list| :: list[j] < list[k]
    ensures Gaps(size[list[i] := size[list[i]] - n][b := n], list)
  {
    forall j, k | 0 <= j < |list| && k == j + 1 && k < |list|
      ensures list[j] + size[list[j]] < list[k]
    {
      assert Apart(size, list, j);
    }
  }

  lemma SplitCover(size: map<nat, nat>, list: seq<nat>, live: set<nat>, owner: map<nat, nat>, top: nat, p: nat, b: nat,
                   n: nat)
    requires Cover(size, list, live, owner, top) && Block(list, live, p) && p in size && 0 < n < size[p]
             && b == p + size[p] - n
    requires b !in list && b !in live && BASE < b
    ensures Cover(size[p := size[p] - n][b := n], list, live + {b}, Split(owner, b, n), top)
  {
    hide Split, Whole;
    var size', owner' := size[p := size[p] - n][b := n], Split(owner, b, n);
    forall x: nat | Block(list, live + {b}, x)
      ensures x in size' && size'[x] > 0 && Whole(size', owner', x)
    {
      assert x == b || Block(list, live, x);
      SplitWhole(size, owner, p, b, n, x);
    }
    forall u | u in owner'
      ensures Block(list, live + {b}, owner'[u]) && owner'[u] <= u < owner'[u] + size'[owner'[u]]
    {
      assert Block(list, live, owner[u]);
      SplitUnit(size, owner, p, b, n, u);
    }
  }

  lemma SplitWhole(size: map<nat, nat>, owner: map<nat, nat>, p: nat, b: nat, n: nat, x: nat)
    requires p in size && n < size[p] && b == p + size[p] - n && Whole(size, owner, p)
    requires x == b || (x in size && Whole(size, owner, x))
    ensures Whole(size[p := size[p] - n][b := n], Split(owner, b, n), x)
  {
    hide Split;
    forall u | x <= u < x + size[p := size[p] - n][b := n][x]
      ensures u in owner && Split(owner, b, n)[u] == x
    {
    }
  }

  lemma SplitUnit(size: map<nat, nat>, owner: map<nat, nat>, p: nat, b: nat, n: nat, u: nat)
    requires p in size && n < size[p] && b == p + size[p] - n && Whole(size, owner, p)
    requires u in owner && owner[u] in size && owner[u] <= u < owner[u] + size[owner[u]] && owner[u] != b
    ensures var x := Split(owner, b, n)[u];
            x in size[b := n] && x <= u < x + size[p := size[p] - n][b := n][x] && (x == b || x == owner[u])
  {
  }

  lemma Unlinked(ptr: map<nat, nat>, size: map<nat, nat>, list: seq<nat>, live: set<nat>, owner: map<nat, nat>,
                 top: nat, i: nat)
    requires Ring(ptr, list) && Gaps(size, list) && Cover(size, list, live, owner, top) && 0 < i < |list|
    ensures Ring(ptr[list[i - 1] := ptr[list[i]]], Without(list, i)) && Gaps(size, Without(list, i))
            && list[i - 1] in Without(list, i)
    ensures Cover(size, Without(list, i), live + {list[i]}, owner, top)
  {
    hide Without, Cover, Gaps;
    WithoutRemoved(list, i);
    var list' := Without(list, i);
    RemoveRing(ptr, list, list', i);
    assert list'[i - 1] == list[i - 1];
    UnlinkedGaps(size, list, list', i);
    UnlinkedCover(size, list, list', live, owner, top, i);
  }

  lemma UnlinkedGaps(size: map<nat, nat>, list: seq<nat>, list': seq<nat>, i: nat)
    requires Gaps(size, list) && 0 < i && Removed(list, list', i)
    ensures Gaps(size, list')
  {
    forall j, k | 0 <= j < |list'| && k == j + 1 && k < |list'|
      ensures list'[j] + size[list'[j]] < list'[k]
    {
      assert Apart(size, list, if j < i then j else j + 1);
      assert Apart(size, list, i);
    }
  }

  lemma UnlinkedCover(size: map<nat, nat>, list: seq<nat>, list': seq<nat>, live: set<nat>, owner: map<nat, nat>,
                      top: nat, i: nat)
    requires Cover(size, list, live, owner, top) && 0 < i && Removed(list, list', i)
    requires list[0] == BASE && forall j, k | 0 <= j < k < |list| :: list[j] < list[k]
    ensures Cover(size, list', live + {list[i]}, owner, top)
  {
    hide Whole;
    forall x
      ensures Block(list', live + {list[i]}, x) <==> Block(list, live, x)
      ensures x in live + {list[i]} ==> x !in list'
    {
      RemovedIn(list, list', i, x);
    }
  }

  /** Some free block has room for nbytes bytes behind its header. */
  ghost predicate Fitting(size: map<nat, nat>, list: seq<nat>, nbytes: nat) {
    exists f :: f in list && f in size && (size[f] - 1) * HEADER >= nbytes
  }

  /** b is the end of the first block after freep that has n units, and prev the one before it. */
  ghost predicate FirstFit(size: map<nat, nat>, list: seq<nat>, freep: nat, n: nat, b: nat, prev: nat) {
    exists f: nat, i: nat | f < |list| && i < |list| ::
      && list[f] == freep && list[i] in size && size[list[i]] >= n && Small(size, list, n, f, i)
      && b == list[i] + size[list[i]] - n && prev == list[Previous(list, i)]
  }

  lemma FitFirst(size: map<nat, nat>, list: seq<nat>, n: nat, f: nat, i: nat)
    requires f < |list| && i < |list| && list[i] in size && size[list[i]] >= n && Small(size, list, n, f, i)
    ensures FirstFit(size, list, list[f], n, list[i] + size[list[i]] - n, list[Previous(list, i)])
  {
    hide Small;
  }

  lemma NoBlocks(size: map<nat, nat>, list: seq<nat>, n: nat)
    requires Big(size, list, n)
    ensures list != []
  {
  }

  lemma UnitsExact(nbytes: nat)
    ensures var n := UnitsFor(nbytes); n > 0 && (n - 2) * HEADER < nbytes <= (n - 1) * HEADER
  {
  }

  lemma BigFits(size: map<nat, nat>, list: seq<nat>, nbytes: nat)
    ensures Big(size, list, UnitsFor(nbytes)) <==> Fitting(size, list, nbytes)
  {
    hide UnitsFor;
    UnitsExact(nbytes);
    forall f | f in list && f in size
      ensures size[f] >= UnitsFor(nbytes) <==> (size[f] - 1) * HEADER >= nbytes
    {
    }
  }

  lemma GrantedIs(n: nat)
    ensures Granted(n) == if n < 4096 then 4096 else n
  {
  }

  /** The units for nbytes bytes and a header. */
  function UnitsFor(nbytes: nat): nat { (nbytes + HEADER - 1) / HEADER + 1 }

  function Next(list: seq<nat>, i: nat): nat { if i + 1 < |list| then i + 1 else 0 }

  function Previous(list: seq<nat>, i: nat): (j: nat)
    requires i < |list|
    ensures j < |list|
  {
    if i > 0 then i - 1 else |list| - 1
  }

  /** The blocks after f and before i in the cycle are too small. */
  ghost predicate Small(size: map<nat, nat>, list: seq<nat>, n: nat, f: nat, i: nat) {
    forall k | 0 <= k < |list| && (if i > f then f < k < i else k > f || k < i) :: list[k] in size ==> size[list[k]] < n
  }

  lemma SmallStart(size: map<nat, nat>, list: seq<nat>, n: nat, f: nat)
    requires f < |list|
    ensures Small(size, list, n, f, Next(list, f))
  {
  }

  lemma SmallNext(ptr: map<nat, nat>, size: map<nat, nat>, list: seq<nat>, n: nat, f: nat, i: nat)
    requires Ring(ptr, list) && f < |list| && i < |list| && Small(size, list, n, f, i) && list[i] in size
             && size[list[i]] < n
    ensures i != f ==> Small(size, list, n, f, Next(list, i))
    ensures list[i] == list[f] ==> i == f && !Big(size, list, n)
  {
  }

  lemma RingNext(ptr: map<nat, nat>, list: seq<nat>, i: nat)
    requires Ring(ptr, list) && i < |list|
    ensures list[i] in ptr && ptr[list[i]] == list[Next(list, i)] && list[i] != 0 && Previous(list, Next(list, i)) == i
  {
  }

  lemma Started(ptr: map<nat, nat>, size: map<nat, nat>, top: nat, n: nat)
    requires n > 0
    ensures Ring(ptr[BASE := BASE], [BASE]) && Gaps(size[BASE := 0], [BASE])
            && Cover(size[BASE := 0], [BASE], {}, map[], top)
    ensures !Big(size[BASE := 0], [BASE], n) && !Big(size, [], n)
  {
    assert forall f | f in [BASE] :: f == BASE;
    assert forall b :: !Block([BASE], {}, b);
    assert Apart(size[BASE := 0], [BASE], 0);
  }

  lemma NoUnits(size: map<nat, nat>, owner: map<nat, nat>, top: nat)
    requires Cover(size, [], {}, owner, top)
    ensures owner == map[]
  {
    assert forall b :: !Block([], {}, b);
  }

  lemma SizeAt(ptr: map<nat, nat>, size: map<nat, nat>, list: seq<nat>, i: nat)
    requires Ring(ptr, list) && Gaps(size, list) && i < |list|
    ensures list[i] in size && (i == 0 ==> size[list[i]] == 0)
  {
  }

  lemma FoundBig(size: map<nat, nat>, list: seq<nat>, i: nat, n: nat)
    requires i < |list| && list[i] in size && size[list[i]] >= n
    ensures Big(size, list, n)
  {
  }

  lemma SameTrans(size: map<nat, nat>, size': map<nat, nat>, size'': map<nat, nat>, blocks: set<nat>)
    requires Same(size, size', blocks) && Same(size', size'', blocks)
    ensures Same(size, size'', blocks)
  {
  }

  /** The blocks keep their sizes. */
  ghost predicate Same(size: map<nat, nat>, size': map<nat, nat>, blocks: set<nat>) {
    forall b | b in blocks && b in size :: b in size' && size'[b] == size[b]
  }

  lemma LiveFacts(size: map<nat, nat>, list: seq<nat>, live: set<nat>, owner: map<nat, nat>, top: nat, b: nat)
    requires Cover(size, list, live, owner, top) && b in live
    requires |list| > 0 && list[0] == BASE
    ensures BASE < b && b !in list && b in size && size[b] > 0 && b in owner && b < top
    ensures forall x | x in live :: x !in list
  {
    assert Block(list, live, b) && Whole(size, owner, b);
    assert b in owner && owner[b] == b;
  }

  lemma RingHead(ptr: map<nat, nat>, list: seq<nat>)
    requires Ring(ptr, list)
    ensures |list| > 0 && list[0] == BASE
  {
  }

  lemma RingFacts(ptr: map<nat, nat>, size: map<nat, nat>, list: seq<nat>)
    requires Ring(ptr, list) && Gaps(size, list)
    ensures forall i | 0 <= i < |list| :: list[i] in ptr && list[i] in size
  {
  }

  lemma FitsFacts(size: map<nat, nat>, list: seq<nat>)
    requires Fits(size, list)
    ensures forall i | 0 <= i < |list| :: list[i] in size
  {
  }

  /** Where an address belongs in a sorted list. */
  ghost function Position(list: seq<nat>, b: nat): (j: nat)
    requires |list| > 0 && list[0] < b && b !in list && forall i, j | 0 <= i < j < |list| :: list[i] < list[j]
    ensures j < |list| && list[j] < b && forall k | j < k < |list| :: b < list[k]
    decreases |list|
  {
    if list[|list| - 1] < b then |list| - 1
    else
      var j := Position(list[..|list| - 1], b);
      j
  }

  function With(list: seq<nat>, i: nat, b: nat): seq<nat>
    requires i <= |list|
  {
    list[..i] + [b] + list[i..]
  }

  function Without(list: seq<nat>, i: nat): seq<nat>
    requires i < |list|
  {
    list[..i] + list[i + 1..]
  }

  ghost predicate Inserted(list: seq<nat>, list': seq<nat>, j: nat, b: nat) {
    && j < |list| && |list'| == |list| + 1 && list'[j + 1] == b
    && (forall k | 0 <= k <= j :: list'[k] == list[k])
    && (forall k {:trigger list'[k]} | j + 1 < k < |list'| :: list'[k] == list[k - 1])
  }

  lemma WithInserted(list: seq<nat>, j: nat, b: nat)
    requires j < |list|
    ensures Inserted(list, With(list, j + 1, b), j, b)
  {
  }

  lemma InsertRing(ptr: map<nat, nat>, list: seq<nat>, list': seq<nat>, j: nat, b: nat)
    requires Ring(ptr, list) && Inserted(list, list', j, b) && list[j] < b && forall k | j < k < |list| :: b < list[k]
    ensures Ring(ptr[b := ptr[list[j]]][list[j] := b], list')
  {
    var ptr' := ptr[b := ptr[list[j]]][list[j] := b];
    forall i, k | 0 <= i < |list'| && k == i + 1 && k < |list'|
      ensures list'[i] in ptr' && ptr'[list'[i]] == list'[k] && list'[i] < list'[k]
    {
    }
    Increasing(list');
  }

  lemma Increasing(list: seq<nat>)
    requires forall i, k | 0 <= i < |list| && k == i + 1 && k < |list| :: list[i] < list[k]
    ensures forall i, k | 0 <= i < k < |list| :: list[i] < list[k]
  {
    forall i, k | 0 <= i < k < |list|
      ensures list[i] < list[k]
    {
      var m := i + 1;
      while m < k
        invariant m <= k && list[i] < list[m]
      {
        m := m + 1;
      }
    }
  }

  ghost predicate Removed(list: seq<nat>, list': seq<nat>, i: nat) {
    && i < |list| && |list'| == |list| - 1
    && (forall k | 0 <= k < i :: list'[k] == list[k])
    && (forall k {:trigger list'[k]} | i <= k < |list'| :: list'[k] == list[k + 1])
  }

  lemma RemoveRing(ptr: map<nat, nat>, list: seq<nat>, list': seq<nat>, i: nat)
    requires Ring(ptr, list) && 0 < i && Removed(list, list', i)
    ensures Ring(ptr[list[i - 1] := ptr[list[i]]], list')
  {
  }

  /** Block i absorbs block i + 1, which it touches. */
  lemma MergeGaps(size: map<nat, nat>, list: seq<nat>, list': seq<nat>, i: nat, h: nat)
    requires Fits(size, list) && ApartBut(size, list, h, i) && Removed(list, list', i + 1) && h <= i && i > 0
    requires list[i] + size[list[i]] == list[i + 1] && forall j, k | 0 <= j < k < |list| :: list[j] < list[k]
    ensures Fits(size[list[i] := size[list[i]] + size[list[i + 1]]], list')
    ensures ApartBut(size[list[i] := size[list[i]] + size[list[i + 1]]], list', if h < i then h else |list|, if h < i
            then h else |list|)
  {
    var size' := size[list[i] := size[list[i]] + size[list[i + 1]]];
    forall j, k | 0 <= j < |list'| && k == j + 1 && k < |list'|
      ensures list'[j] in size' && list'[j] + size'[list'[j]] <= list'[k]
      ensures j != h || h == i ==> list'[j] + size'[list'[j]] < list'[k]
    {
      assert k == |list'| || list'[k] == list[if k <= i then k else k + 1];
      if j != h || h == i {
        assert Apart(size, list, if j < i then j else j + 1);
      }
    }
  }

  function Reown(owner: map<nat, nat>, from: nat, to: nat): (r: map<nat, nat>)
    ensures r.Keys == owner.Keys
  {
    map u | u in owner :: if owner[u] == from then to else owner[u]
  }

  lemma MergeCover(size: map<nat, nat>, list: seq<nat>, list': seq<nat>, live: set<nat>, owner: map<nat, nat>, top: nat,
                   i: nat)
    requires Cover(size, list, live, owner, top) && Removed(list, list', i + 1) && i > 0
    requires list[0] == BASE && list[i] in size && list[i + 1] in size && list[i] + size[list[i]] == list[i + 1]
    requires forall j, k | 0 <= j < k < |list| :: list[j] < list[k]
    ensures Cover(size[list[i] := size[list[i]] + size[list[i + 1]]], list', live, Reown(owner, list[i + 1], list[i]),
            top)
  {
    hide Whole, Reown, Block;
    var a, b := list[i], list[i + 1];
    var size', owner' := size[a := size[a] + size[b]], Reown(owner, b, a);
    MergeBlocks(list, list', live, i);
    var blocks := set x | x in size && Block(list', live, x);
    MergeWhole(size, owner, a, b, blocks);
    MergeUnits(size, owner, a, b);
    forall x | Block(list', live, x)
      ensures x in size' && size'[x] > 0 && Whole(size', owner', x)
    {
      assert x in blocks;
    }
  }

  lemma MergeBlocks(list: seq<nat>, list': seq<nat>, live: set<nat>, i: nat)
    requires Removed(list, list', i + 1) && i > 0 && list[0] == BASE
             && forall j, k | 0 <= j < k < |list| :: list[j] < list[k]
    requires forall b | b in live :: b !in list
    ensures Block(list, live, list[i]) && Block(list, live, list[i + 1])
    ensures forall x :: Block(list', live, x) <==> Block(list, live, x) && x != list[i + 1]
    ensures forall x | x in live :: x !in list'
  {
    forall x
      ensures Block(list', live, x) <==> Block(list, live, x) && x != list[i + 1]
      ensures x in live ==> x !in list'
    {
      RemovedIn(list, list', i + 1, x);
    }
  }

  lemma MergeWhole(size: map<nat, nat>, owner: map<nat, nat>, a: nat, b: nat, blocks: set<nat>)
    requires a in size && b in size && a + size[a] == b && b !in blocks
    requires Whole(size, owner, a) && Whole(size, owner, b)
    requires forall x | x in blocks :: x in size && Whole(size, owner, x)
    ensures forall x | x in blocks :: Whole(size[a := size[a] + size[b]], Reown(owner, b, a), x)
  {
  }

  lemma MergeUnits(size: map<nat, nat>, owner: map<nat, nat>, a: nat, b: nat)
    requires a in size && b in size && a + size[a] == b
    requires forall u | u in owner :: owner[u] in size && owner[u] <= u < owner[u] + size[owner[u]]
    ensures forall u | u in owner :: var x := Reown(owner, b, a)[u];
              && x in size && x <= u < x + size[a := size[a] + size[b]][x] && (x == a || x == owner[u] != b)
  {
  }

  lemma RemovedIn(list: seq<nat>, list': seq<nat>, i: nat, x: nat)
    requires Removed(list, list', i) && forall j, k | 0 <= j < k < |list| :: list[j] < list[k]
    ensures x in list' <==> x in list && x != list[i]
  {
    if x in list && x != list[i] {
      var k :| 0 <= k < |list| && list[k] == x;
      assert list'[if k < i then k else k - 1] == x;
    }
  }

  /** A live block does not overlap its new neighbours. */
  lemma InsertGaps(size: map<nat, nat>, list: seq<nat>, list': seq<nat>, live: set<nat>, owner: map<nat, nat>, top: nat,
                   j: nat, b: nat)
    requires Gaps(size, list) && Cover(size, list, live, owner, top) && b in live && BASE < b
    requires |list| > 0 && list[0] == BASE && (forall i, j | 0 <= i < j < |list| :: list[i] < list[j])
    requires Inserted(list, list', j, b) && list[j] < b && forall k | j < k < |list| :: b < list[k]
    ensures Fits(size, list') && ApartBut(size, list', j, j + 1)
  {
    assert Block(list, live, b);
    if j > 0 {
      assert Block(list, live, list[j]);
      NoOverlap(size, owner, list[j], b);
    }
    if j + 1 < |list| {
      assert Block(list, live, list[j + 1]);
      NoOverlap(size, owner, b, list[j + 1]);
    }
    InsertFits(size, list, list', j, b);
  }

  lemma InsertFits(size: map<nat, nat>, list: seq<nat>, list': seq<nat>, j: nat, b: nat)
    requires Gaps(size, list) && Inserted(list, list', j, b) && b in size && size[b] > 0
    requires list[j] + size[list[j]] <= b && (j + 1 < |list| ==> b + size[b] <= list[j + 1])
    ensures Fits(size, list') && ApartBut(size, list', j, j + 1)
  {
    forall i, k | 0 <= i < |list'| && k == i + 1 && k < |list'|
      ensures list'[i] in size && list'[i] + size[list'[i]] <= list'[k]
      ensures i != j && i != j + 1 ==> list'[i] + size[list'[i]] < list'[k]
    {
      if i != j && i != j + 1 {
        assert Apart(size, list, if i < j then i else i - 1);
      }
    }
  }

  ghost predicate ApartBut(size: map<nat, nat>, list: seq<nat>, j: nat, k: nat)
    requires Fits(size, list)
  {
    forall i | 0 <= i < |list| && i != j && i != k :: Apart(size, list, i)
  }

  lemma InsertCover(size: map<nat, nat>, list: seq<nat>, live: set<nat>, owner: map<nat, nat>, top: nat, i: nat, b: nat)
    requires Cover(size, list, live, owner, top) && i <= |list| && b in live
    ensures Cover(size, With(list, i, b), live - {b}, owner, top)
  {
    hide With;
    forall x
      ensures Block(With(list, i, b), live - {b}, x) <==> Block(list, live, x)
      ensures x in live - {b} ==> x !in With(list, i, b)
    {
      WithIn(list, i, b, x);
    }
  }

  lemma WithIn(list: seq<nat>, i: nat, b: nat, x: nat)
    requires i <= |list|
    ensures x in With(list, i, b) <==> x in list || x == b
  {
    assert list == list[..i] + list[i..];
  }

  lemma NoOverlap(size: map<nat, nat>, owner: map<nat, nat>, a: nat, b: nat)
    requires a in size && b in size && Whole(size, owner, a) && Whole(size, owner, b) && a < b && size[b] > 0
    ensures a + size[a] <= b
  {
    assert owner[b] == b;
  }

  function Sum(size: map<nat, nat>, blocks: seq<nat>): nat
    requires forall b | b in blocks :: b in size
  {
    if blocks == [] then 0 else Sum(size, blocks[..|blocks| - 1]) + size[blocks[|blocks| - 1]]
  }

  /** The units of some blocks. */
  ghost function Held(owner: map<nat, nat>, blocks: seq<nat>): set<nat> {
    set u | u in owner && owner[u] in blocks
  }

  lemma HeldMore(size: map<nat, nat>, owner: map<nat, nat>, rest: seq<nat>, b: nat)
    requires b in size && Whole(size, owner, b) && b !in rest
    requires forall u | u in owner && owner[u] == b :: b <= u < b + size[b]
    ensures |Held(owner, rest + [b])| == |Held(owner, rest)| + size[b]
  {
    var units := Units(b, size[b]);
    forall u
      ensures u in Held(owner, rest + [b]) <==> u in Held(owner, rest) || u in units
      ensures !(u in Held(owner, rest) && u in units)
    {
    }
    assert Held(owner, rest + [b]) == Held(owner, rest) + units;
  }

  lemma UnitsOf(size: map<nat, nat>, list: seq<nat>, live: set<nat>, owner: map<nat, nat>, top: nat, b: nat)
    requires Cover(size, list, live, owner, top) && Block(list, live, b)
    ensures b in size && size[b] > 0 && Whole(size, owner, b)
    ensures forall u | u in owner && owner[u] == b :: b <= u < b + size[b]
  {
  }

  lemma {:induction false} SumUnits(size: map<nat, nat>, list: seq<nat>, live: set<nat>, owner: map<nat, nat>, top: nat,
                                    blocks: seq<nat>)
    requires Cover(size, list, live, owner, top) && NoDup(blocks)
    requires forall b | b in blocks :: b in size && Block(list, live, b)
    ensures Sum(size, blocks) == |Held(owner, blocks)|
  {
    hide Cover, Block, Whole;
    if blocks == [] {
      assert Held(owner, blocks) == {};
    } else {
      var rest, b := blocks[..|blocks| - 1], blocks[|blocks| - 1];
      SumUnits(size, list, live, owner, top, rest);
      UnitsOf(size, list, live, owner, top, b);
      assert blocks == rest + [b];
      HeldMore(size, owner, rest, b);
    }
  }

  lemma Divided(size: map<nat, nat>, list: seq<nat>, live: set<nat>, owner: map<nat, nat>, top: nat, free: seq<nat>,
                order: seq<nat>)
    requires Cover(size, list, live, owner, top)
    requires forall b :: Block(list, live, b) <==> b in free || b in order
    requires forall b :: !(b in free && b in order)
    ensures |Held(owner, free)| + |Held(owner, order)| == |owner|
  {
    hide Whole, Block;
    assert Held(owner, free) + Held(owner, order) == owner.Keys;
    assert Held(owner, free) !! Held(owner, order);
  }

  lemma Blocks(ptr: map<nat, nat>, list: seq<nat>, live: set<nat>, order: seq<nat>, b: nat)
    requires Ring(ptr, list) && (forall b :: b in order <==> b in live) && forall b | b in live :: b !in list
    ensures NoDup(list[1..])
    ensures Block(list, live, b) <==> b in list[1..] || b in order
    ensures !(b in list[1..] && b in order)
  {
    assert list == [BASE] + list[1..];
  }

  /** Conservation: the free blocks and the live ones, in any order, add up to the units
      obtained from sbrk, and no two of them overlap. */
  lemma Conserved(h: Heap, order: seq<nat>)
    requires h.Valid() && h.freep != 0 && NoDup(order) && forall b :: b in order <==> b in h.live
    ensures (forall b | b in order :: b in h.size) && (forall b | b in h.list[1..] :: b in h.size)
    ensures Sum(h.size, h.list[1..]) + Sum(h.size, order) == |h.owner|
    ensures forall a, b | Block(h.list, h.live, a) && Block(h.list, h.live, b) :: Disjoint(h.size, a, b)
  {
    hide Cover, Ring, Gaps, Whole, Block, Sum, Held;
    var free := h.list[1..];
    LiveApart(h.size, h.list, h.live, h.owner, h.top);
    forall b
      ensures Block(h.list, h.live, b) <==> b in free || b in order
      ensures Block(h.list, h.live, b) ==> b in h.size
      ensures !(b in free && b in order)
    {
      Blocks(h.ptr, h.list, h.live, order, b);
      if Block(h.list, h.live, b) {
        UnitsOf(h.size, h.list, h.live, h.owner, h.top, b);
      }
    }
    Blocks(h.ptr, h.list, h.live, order, 0);
    SumUnits(h.size, h.list, h.live, h.owner, h.top, order);
    SumUnits(h.size, h.list, h.live, h.owner, h.top, free);
    Divided(h.size, h.list, h.live, h.owner, h.top, free, order);
    forall a, b | Block(h.list, h.live, a) && Block(h.list, h.live, b)
      ensures Disjoint(h.size, a, b)
    {
      UnitsOf(h.size, h.list, h.live, h.owner, h.top, a);
      UnitsOf(h.size, h.list, h.live, h.owner, h.top, b);
      if a < b {
        NoOverlap(h.size, h.owner, a, b);
      }
    }
  }

  ghost predicate Disjoint(size: map<nat, nat>, a: nat, b: nat) {
    a in size && a < b ==> a + size[a] <= b
  }
}
