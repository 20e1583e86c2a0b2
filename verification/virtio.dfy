/** The virtio disk driver and its device, sharing a split ring (kernel/virtio_disk.c;
    sections 2.6 and 5.2 of VIRTIO 1.1).

    The driver's methods are stretches with vdisk_lock held; Fetch and Complete are the
    device's steps.  Any of them may come next.  Ghost `chains` has the requests in
    flight, by head descriptor, and `offers` and `completions` all heads that ever went
    through the two rings. */
module VirtioDisk {
  import opened Common
  import opened Seqs

  const NUM: nat := 8
  const U16: nat := 0x1_0000

  /** What a descriptor points to. */
  datatype Addr = Null | Op(i: nat) | Data(buf: nat) | Status(i: nat)

  datatype Desc = Desc(addr: Addr, len: nat, write: bool, hasNext: bool, next: nat)

  const CLEAR: Desc := Desc(Null, 0, false, false, 0)

  datatype Request = Request(out: bool, sector: nat)

  /** blockno * (BSIZE / 512), which is computed in 32 bits: the block's own sector exactly
      for the first half of all block numbers. */
  function Sector(blockno: nat): (sector: nat)
    requires blockno < UINT
    ensures sector == blockno * 2 <==> blockno < UINT / 2
  {
    U32(blockno * 2)
  }

  datatype Info = Info(buf: Option<nat>, status: nat)

  /** Where a request is: in the avail ring, with the device, in the used ring, or done. */
  datatype Phase = Offered(at: nat) | Fetched | Used(at: nat) | Handled

  datatype Chain = Chain(mid: nat, tail: nat, buf: nat, req: Request, phase: Phase)

  type Chains = map<nat, Chain>

  /** The descriptors say what request h is. */
  ghost predicate Formatted(desc: seq<Desc>, ops: seq<Request>, info: seq<Info>, h: nat, c: Chain) {
    && |desc| == |ops| == |info| == NUM && h < NUM && c.mid < NUM && c.tail < NUM
    && ops[h] == c.req
    && desc[h] == Desc(Op(h), 16, false, true, c.mid)
    && desc[c.mid] == Desc(Data(c.buf), 1024, !c.req.out, true, c.tail)
    && desc[c.tail] == Desc(Status(h), 1, true, false, 0)
    && info[h].buf == Some(c.buf)
    && (c.phase.Used? || c.phase.Handled? ==> info[h].status == 0)
  }

  ghost predicate AllFormatted(chains: Chains, desc: seq<Desc>, ops: seq<Request>, info: seq<Info>) {
    |desc| == |ops| == |info| == NUM && forall h | h in chains :: Formatted(desc, ops, info, h, chains[h])
  }

  /** The three descriptors of request h are its own. */
  ghost predicate Owns(part: seq<Option<nat>>, h: nat, c: Chain) {
    && |part| == NUM && h < NUM && c.mid < NUM && c.tail < NUM
    && h != c.mid && h != c.tail && c.mid != c.tail
    && part[h] == Some(h) && part[c.mid] == Some(h) && part[c.tail] == Some(h)
  }

  /** A descriptor is free, or one of the three of one request. */
  ghost predicate Accounted(chains: Chains, part: seq<Option<nat>>, free: seq<bool>, desc: seq<Desc>, i: nat)
    requires |part| == |free| == |desc| == NUM && i < NUM
  {
    match part[i]
    case None => free[i] && desc[i] == CLEAR
    case Some(h) => !free[i] && h in chains && (i == h || i == chains[h].mid || i == chains[h].tail)
  }

  ghost predicate Parted(chains: Chains, part: seq<Option<nat>>, free: seq<bool>, desc: seq<Desc>) {
    && |part| == |free| == |desc| == NUM
    && (forall i | 0 <= i < NUM :: Accounted(chains, part, free, desc, i))
    && (forall h | h in chains :: Owns(part, h, chains[h]))
  }

  /** The entries lo to hi of a ring are the requests of one phase. */
  ghost predicate Queue(ring: seq<nat>, idx: nat, history: seq<nat>, lo: nat) {
    && |ring| == NUM && lo <= |history| && idx == |history| % U16
    && forall k, j | lo <= k < |history| && j == k % NUM :: ring[j] == history[k]
  }

  ghost predicate Placed(chains: Chains, offers: seq<nat>, taken: nat, completions: seq<nat>, handled: nat, h: nat)
    requires h in chains
  {
    match chains[h].phase
    case Offered(k) => taken <= k < |offers| && offers[k] == h
    case Used(k) => handled <= k < |completions| && completions[k] == h
    case _ => true
  }

  /** The requests in a ring are those whose phase says so. */
  ghost predicate Rings(chains: Chains, offers: seq<nat>, taken: nat, completions: seq<nat>, handled: nat) {
    && (forall h | h in chains :: Placed(chains, offers, taken, completions, handled, h))
    && (forall k | taken <= k < |offers| :: offers[k] in chains && chains[offers[k]].phase == Offered(k))
    && (forall k | handled <= k < |completions| :: completions[k] in chains && chains[completions[k]].phase == Used(k))
  }

  /** Buffers are in one request at most, and marked until it is handled. */
  ghost predicate Buffers(chains: Chains, busy: set<nat>) {
    && (forall h, g | h in chains && g in chains && h != g :: chains[h].buf != chains[g].buf)
    && (forall h | h in chains :: chains[h].buf in busy <==> !chains[h].phase.Handled?)
  }

  /* -------- the device -------- */

  type Sectors = map<nat, nat>

  /** What a sector holds, 0 if it was never written; and the two sectors of a buffer. */
  function SectorAt(sectors: Sectors, k: nat): nat {
    if k in sectors then sectors[k] else 0
  }

  function DataOf(content: map<nat, seq<nat>>, b: nat): (r: seq<nat>)
    ensures |r| == 2
  {
    if b in content && |content[b]| == 2 then content[b] else [0, 0]
  }

  /** What the device does with a chain: status, sectors and buffers after it.  It follows the
      descriptors, reads the request, and moves len / 512 sectors, into a buffer only if the
      descriptor is marked as its to write and out of one only if not; what it cannot make
      sense of it answers with an error (sections 2.6.4 and 5.2.6 of VIRTIO 1.1). */
  function Serve(desc: seq<Desc>, ops: seq<Request>, sectors: Sectors, content: map<nat, seq<nat>>, h: nat):
    (r: (nat, Sectors, map<nat, seq<nat>>))
    requires |desc| == |ops| == NUM && h < NUM
  {
    var d0 := desc[h];
    if !(d0.addr.Op? && d0.addr.i < NUM && d0.len == 16 && !d0.write && d0.hasNext && d0.next < NUM) then
      (1, sectors, content)
    else
      var req, d1 := ops[d0.addr.i], desc[d0.next];
      if !(d1.addr.Data? && d1.hasNext && d1.next < NUM && d1.len == 1024) then (1, sectors, content)
      else
        var d2, data := desc[d1.next], DataOf(content, d1.addr.buf);
        if !(d2.addr.Status? && d2.len == 1 && d2.write && !d2.hasNext) || d1.write == req.out then
          (1, sectors, content)
        else if req.out then (0, sectors[req.sector := data[0]][req.sector + 1 := data[1]], content)
        else (0, sectors, content[d1.addr.buf := [SectorAt(sectors, req.sector), SectorAt(sectors, req.sector + 1)]])
  }

  /** A formatted request is served as asked. */
  lemma ServedAs(desc: seq<Desc>, ops: seq<Request>, info: seq<Info>, sectors: Sectors, content: map<nat, seq<nat>>,
                 h: nat, c: Chain)
    requires Formatted(desc, ops, info, h, c)
    ensures var (status, sectors', content') := Serve(desc, ops, sectors, content, h);
            && status == 0
            && Moved(sectors, content, sectors', content', c.req, c.buf)
  {
  }

  lemma StatusAt(desc: seq<Desc>, ops: seq<Request>, info: seq<Info>, h: nat, c: Chain)
    requires Formatted(desc, ops, info, h, c)
    ensures h < NUM && |desc| == |ops| == NUM && desc[h].next < NUM && desc[desc[h].next].next < NUM
    ensures desc[desc[desc[h].next].next].addr == Status(h)
  {
  }

  /** The request's two sectors and the buffer agree now, the side that was not to change has
      not changed, and nothing else has. */
  ghost predicate Moved(sectors: Sectors, content: map<nat, seq<nat>>, sectors': Sectors, content': map<nat, seq<nat>>,
                        req: Request, buf: nat)
  {
    && (forall b: nat :: DataOf(content', b) ==
          if b == buf && !req.out then [SectorAt(sectors, req.sector), SectorAt(sectors, req.sector + 1)]
          else DataOf(content, b))
    && (forall k: nat :: SectorAt(sectors', k) ==
          if req.out && req.sector <= k < req.sector + 2 then DataOf(content, buf)[k - req.sector]
          else SectorAt(sectors, k))
  }

  class Disk {
    var free: seq<bool>
    var desc: seq<Desc>
    var ops: seq<Request>
    var info: seq<Info>
    var availRing: seq<nat>
    var availIdx: nat           // 16 bits
    var usedRing: seq<nat>
    var usedDev: nat            // used->idx, 16 bits
    var usedIdx: nat            // 16 bits
    var fetchIdx: nat           // the device's place in the avail ring, 16 bits
    var busy: set<nat>          // the buffers with b->disk set
    var content: map<nat, seq<nat>>   // the buffers' data
    var sectors: Sectors        // the device's
    ghost var chains: Chains
    ghost var part: seq<Option<nat>>
    ghost var offers: seq<nat>
    ghost var taken: nat
    ghost var completions: seq<nat>
    ghost var handled: nat

    ghost predicate Valid()
      reads this
    {
      && Parted(chains, part, free, desc) && AllFormatted(chains, desc, ops, info)
      && Rings(chains, offers, taken, completions, handled) && Buffers(chains, busy)
      && Queue(availRing, availIdx, offers, taken) && Queue(usedRing, usedDev, completions, handled)
      && usedIdx == handled % U16 && fetchIdx == taken % U16
    }

    constructor ()
      ensures Valid() && chains == map[] && busy == {}
    {
      free := seq(NUM, _ => true);
      desc := seq(NUM, _ => CLEAR);
      ops := seq(NUM, _ => Request(false, 0));
      info := seq(NUM, _ => Info(None, 0));
      availRing, availIdx := seq(NUM, _ => 0), 0;
      usedRing, usedDev, usedIdx, fetchIdx := seq(NUM, _ => 0), 0, 0, 0;
      busy, content, sectors := {}, map[], map[];
      chains, part := map[], seq(NUM, _ => None);
      offers, taken, completions, handled := [], 0, [], 0;
    }

    /** alloc_desc. */
    method AllocDesc() returns (i: int)
      requires |free| == NUM
      modifies this`free
      ensures i == -1 ==> free == old(free) && forall k | 0 <= k < NUM :: !free[k]
      ensures i != -1 ==> 0 <= i < NUM && old(free)[i] && free == old(free)[i := false]
      ensures i != -1 ==> forall k | 0 <= k < i :: !old(free)[k]
    {
      i := 0;
      while i < NUM
        invariant 0 <= i <= NUM && free == old(free) && forall k | 0 <= k < i :: !free[k]
      {
        if free[i] {
          free := free[i := false];
          return;
        }
        i := i + 1;
      }
      return -1;
    }

    /** free_desc. */
    method FreeDesc(i: nat)
      requires |free| == |desc| == NUM && i < NUM && !free[i]
      modifies this`free, this`desc
      ensures free == old(free)[i := true] && desc == old(desc)[i := CLEAR]
    {
      desc := desc[i := CLEAR];
      free := free[i := true];
    }

    /** alloc3_desc: three free descriptors, or, if there are not three, none. */
    method Alloc3() returns (idx: Option<(nat, nat, nat)>)
      requires |free| == |desc| == NUM && forall i | 0 <= i < NUM :: free[i] ==> desc[i] == CLEAR
      modifies this`free, this`desc
      ensures desc == old(desc)
      ensures idx.Some? ==> var (a, b, c) := idx.value;
                && a < NUM && b < NUM && c < NUM && a != b && a != c && b != c
                && old(free)[a] && old(free)[b] && old(free)[c] && free == old(free)[a := false][b := false][c := false]
      ensures idx == None ==> free == old(free)
      ensures idx.Some? <==> ThreeFree(old(free))
    {
      var got: seq<nat> := [];
      var i := 0;
      while i < 3
        invariant 0 <= i <= 3 && |got| == i && |free| == NUM && desc == old(desc) && NoDup(got)
        invariant forall k | 0 <= k < i :: got[k] < NUM && old(free)[got[k]]
        invariant forall k | 0 <= k < NUM :: free[k] == (old(free)[k] && k !in got)
      {
        var d := AllocDesc();
        if d < 0 {
          FreeAll(got, old(free));
          return None;
        }
        got := got + [d];
        i := i + 1;
      }
      return Some((got[0], got[1], got[2]));
    }

    /** alloc3_desc's undoing of a partial allocation. */
    method FreeAll(got: seq<nat>, ghost was: seq<bool>)
      requires |free| == |desc| == |was| == NUM && NoDup(got)
      requires forall k | 0 <= k < |got| :: got[k] < NUM && was[got[k]]
      requires forall k | 0 <= k < NUM :: free[k] == (was[k] && k !in got)
      requires forall k | 0 <= k < NUM && was[k] :: desc[k] == CLEAR
      modifies this`free, this`desc
      ensures free == was && desc == old(desc)
    {
      var j := 0;
      while j < |got|
        invariant 0 <= j <= |got| && |free| == NUM && desc == old(desc)
        invariant forall k | 0 <= k < NUM :: free[k] == (was[k] && k !in got[j..])
      {
        FreeDesc(got[j]);
        assert got[j..] == [got[j]] + got[j + 1..];
        j := j + 1;
      }
    }

    /** virtio_disk_rw, up to its sleep: offers a request to the device, exactly when
        fewer than two are in flight; otherwise it sleeps and tries again. */
    method Start(b: nat, out: bool, blockno: nat) returns (head: Option<nat>)
      requires Valid() && blockno < UINT && forall h | h in chains :: chains[h].buf != b
      modifies this`free, this`desc, this`ops, this`info, this`part, this`busy, this`availRing, this`availIdx,
               this`chains, this`offers
      ensures Valid()
      ensures head.Some? <==> |old(chains)| < 2
      ensures head == None ==> chains == old(chains) && busy == old(busy) && offers == old(offers)
      ensures head.Some? ==>
                && head.value !in old(chains) && busy == old(busy) + {b}
                && offers == old(offers) + [head.value]
                && head.value in chains && chains == old(chains)[head.value := chains[head.value]]
                && chains[head.value].buf == b && chains[head.value].req == Request(out, Sector(blockno))
    {
      hide AllFormatted, Queue, Rings, Buffers, Parted;
      ghost var c;
      head, c := Prepare(b, Request(out, U32(blockno * 2)));
      if head.Some? {
        Publish(head.value, b, c);
      }
    }

    /** The part of virtio_disk_rw that makes a chain of three descriptors, if it can. */
    method Prepare(b: nat, req: Request) returns (head: Option<nat>, ghost c: Chain)
      requires Parted(chains, part, free, desc) && AllFormatted(chains, desc, ops, info)
      modifies this`free, this`desc, this`ops, this`info, this`part
      ensures |chains| <= 2 && (head.Some? <==> |chains| < 2)
      ensures head == None ==> Parted(chains, part, free, desc) && AllFormatted(chains, desc, ops, info)
      ensures head.Some? ==> && head.value !in chains && c.buf == b && c.req == req && c.phase == Offered(|offers|)
                             && Parted(chains[head.value := c], part, free, desc)
                             && AllFormatted(chains[head.value := c], desc, ops, info)
    {
      hide AllFormatted, Formatted, Parted, ThreeFree, SameAt;
      FreeClear(chains, part, free, desc);
      TwoChains(chains, part, free, desc);
      var idx := Alloc3();
      if idx == None {
        head, c := None, *;
        return;
      }
      var (h, m, t) := idx.value;
      c := Chain(m, t, b, req, Offered(|offers|));
      ghost var desc0, ops0, info0 := desc, ops, info;
      Lengths(chains, desc, ops, info);
      Format(h, m, t, b, req, c);
      Fresh(chains, part, old(free), desc0, ops0, info0, desc, ops, info, h, c, chains[h := c]);
      part := part[h := Some(h)][m := Some(h)][t := Some(h)];
      head := Some(h);
    }

    /** The part of virtio_disk_rw that marks b and offers the request. */
    method Publish(h: nat, b: nat, ghost c: Chain)
      requires Parted(chains[h := c], part, free, desc) && AllFormatted(chains[h := c], desc, ops, info)
               && h !in chains && |chains| <= 2
      requires Rings(chains, offers, taken, completions, handled) && Buffers(chains, busy)
      requires Queue(availRing, availIdx, offers, taken) && Queue(usedRing, usedDev, completions, handled)
      requires usedIdx == handled % U16 && fetchIdx == taken % U16
      requires c.phase == Offered(|offers|) && c.buf == b && forall g | g in chains :: chains[g].buf != b
      modifies this`busy, this`availRing, this`availIdx, this`chains, this`offers
      ensures Valid() && busy == old(busy) + {b} && chains == old(chains)[h := c] && offers == old(offers) + [h]
    {
      hide AllFormatted, Formatted, Queue, Rings, Buffers, Parted;
      ShortRings(chains, offers, taken, completions, handled, availRing, availIdx, usedRing, usedDev);
      QueuePush(availRing, availIdx, offers, taken, h);
      Offer(chains, offers, taken, completions, handled, busy, h, c, chains[h := c]);
      busy := busy + {b};
      availRing := availRing[availIdx % NUM := h];
      availIdx := (availIdx + 1) % U16;
      chains := chains[h := c];
      offers := offers + [h];
    }

    /** The part of virtio_disk_rw that fills in three descriptors. */
    method Format(h: nat, m: nat, t: nat, b: nat, req: Request, ghost c: Chain)
      requires |desc| == |ops| == |info| == NUM && h < NUM && m < NUM && t < NUM && h != m && h != t && m != t
      requires c.mid == m && c.tail == t && c.buf == b && c.req == req && c.phase.Offered?
      modifies this`desc, this`ops, this`info
      ensures |desc| == |ops| == |info| == NUM && Formatted(desc, ops, info, h, c)
      ensures SameAt(old(desc), old(ops), old(info), desc, ops, info, {h, m, t})
    {
      ops := ops[h := req];
      desc := desc[h := Desc(Op(h), 16, false, true, m)];
      desc := desc[m := Desc(Data(b), 1024, !req.out, true, t)];
      info := info[h := info[h].(status := 0xff)];
      desc := desc[t := Desc(Status(h), 1, true, false, 0)];
      info := info[h := info[h].(buf := Some(b))];
    }

    /** The device takes the next request offered and can read it. */
    method Fetch() returns (h: nat)
      requires Valid() && fetchIdx != availIdx
      modifies this`chains, this`taken, this`fetchIdx
      ensures Valid() && old(taken) < |offers| && taken == old(taken) + 1 && h == offers[old(taken)]
      ensures h in old(chains) && chains == old(chains)[h := old(chains)[h].(phase := Fetched)]
      ensures Formatted(desc, ops, info, h, chains[h])
    {
      hide AllFormatted, Formatted, Buffers, Parted, Rings;
      RingAt(chains, offers, taken, completions, handled);
      Wrap(taken);
      assert taken < |offers|;
      h := availRing[fetchIdx % NUM];
      Bounds(chains, part, free, desc, ops, info, h);
      FetchRings(chains, offers, taken, completions, handled, busy, h, chains[h := chains[h].(phase := Fetched)]);
      NextPhase(chains, part, free, desc, ops, info, info, h, Fetched, chains[h := chains[h].(phase := Fetched)]);
      chains := chains[h := chains[h].(phase := Fetched)];
      taken := taken + 1;
      fetchIdx := (fetchIdx + 1) % U16;
    }

    /** The device serves a request that it fetched, in any order.  The status it writes is 0. */
    method Complete(h: nat)
      requires Valid() && h in chains && chains[h].phase == Fetched
      modifies this`chains, this`completions, this`usedRing, this`usedDev, this`info, this`sectors, this`content
      ensures Valid() && completions == old(completions) + [h]
      ensures chains == old(chains)[h := old(chains)[h].(phase := Used(|old(completions)|))]
      ensures Moved(old(sectors), old(content), sectors, content, chains[h].req, chains[h].buf)
    {
      hide AllFormatted, Formatted, Buffers, Parted, Queue, Rings, Moved;
      Bounds(chains, part, free, desc, ops, info, h);
      Lengths(chains, desc, ops, info);
      CompleteKeeps(chains, part, free, desc, ops, info, offers, taken, completions, handled, availRing, availIdx,
                    usedRing, usedDev, busy, h);
      Answer(h);
      usedRing := usedRing[usedDev % NUM := h];
      usedDev := (usedDev + 1) % U16;
      chains := chains[h := chains[h].(phase := Used(|completions|))];
      completions := completions + [h];
    }

    /** Its transfer, and its answer. */
    method Answer(h: nat)
      requires h in chains && |info| == NUM && Formatted(desc, ops, info, h, chains[h])
      modifies this`info, this`sectors, this`content
      ensures h < NUM && info == old(info)[h := old(info)[h].(status := 0)]
      ensures Moved(old(sectors), old(content), sectors, content, chains[h].req, chains[h].buf)
    {
      hide Formatted, Serve, Moved;
      ServedAs(desc, ops, info, sectors, content, h, chains[h]);
      StatusAt(desc, ops, info, h, chains[h]);
      var (status, sectors', content') := Serve(desc, ops, sectors, content, h);
      sectors, content := sectors', content';
      var at := desc[desc[desc[h].next].next].addr.i;
      info := info[at := info[at].(status := status)];
    }

    lemma IdleNow()
      requires Valid() && chains == map[]
      ensures taken == |offers| && handled == |completions|
    {
      hide AllFormatted, Buffers, Parted, Queue, Placed;
      Idle(chains, offers, taken, completions, handled);
      Waiting(availRing, availIdx, offers, taken);
      Waiting(usedRing, usedDev, completions, handled);
    }

    lemma OneOffered()
      requires Valid() && |offers| == taken + 1
      ensures fetchIdx != availIdx
    {
      hide AllFormatted, Buffers, Parted, Queue, Rings;
      Waiting(availRing, availIdx, offers, taken);
      NextWrap(taken);
    }

    /** A whole transfer by an idle driver: the buffer gets the block's sectors, or they get its
        data, and all else stays. */
    method Transfer(b: nat, out: bool, blockno: nat)
      requires Valid() && chains == map[] && blockno < UINT / 2
      modifies this
      ensures Valid() && chains == map[] && b !in busy
      ensures Moved(old(sectors), old(content), sectors, content, Request(out, 2 * blockno), b)
    {
      hide Valid, Formatted, Moved, Sector;
      IdleNow();
      var head := Start(b, out, blockno);
      OneOffered();
      var h := Fetch();
      Complete(h);
      Intr();
      var done := Finish(h, b);
      assert chains == map[];
    }

    /** virtio_disk_intr: every completed request is handled, clearing the mark of its own
        buffer and of no other; the status panic does not happen. */
    method Intr()
      requires Valid()
      modifies this`chains, this`handled, this`usedIdx, this`busy
      ensures Valid() && handled == |completions| && chains.Keys == old(chains).Keys
      ensures forall h | h in chains :: chains[h] == if old(chains)[h].phase.Used?
              then old(chains)[h].(phase := Handled) else old(chains)[h]
      ensures forall b :: b in busy <==> b in old(busy) && forall h | h in old(chains)
              && old(chains)[h].phase.Used? :: old(chains)[h].buf != b
    {
      hide AllFormatted, Buffers, Parted, Queue, Rings, ThreeFree, HandledTo, Cleared;
      TwoChains(chains, part, free, desc);
      ShortRings(chains, offers, taken, completions, handled, availRing, availIdx, usedRing, usedDev);
      WrapEqual(handled, |completions|);
      HandledNone(chains, busy, offers, taken, completions, handled);
      while usedIdx != usedDev
        invariant Valid() && old(handled) <= handled <= |completions|
                  && (usedIdx == usedDev <==> handled == |completions|)
        invariant HandledTo(old(chains), chains, handled) && Cleared(old(chains), old(busy), busy, handled)
        decreases |completions| - handled
      {
        HandledMore(old(chains), chains, offers, taken, completions, handled, old(busy), busy);
        IntrOne();
        TwoChains(chains, part, free, desc);
        ShortRings(chains, offers, taken, completions, handled, availRing, availIdx, usedRing, usedDev);
        WrapEqual(handled, |completions|);
      }
      HandledAll(old(chains), chains, offers, taken, completions, old(handled), old(busy), busy);
    }

    /** The body of virtio_disk_intr's loop. */
    method IntrOne()
      requires Valid() && handled < |completions|
      modifies this`chains, this`handled, this`usedIdx, this`busy
      ensures Valid() && handled == old(handled) + 1
      ensures var h := completions[old(handled)];
              && h in old(chains) && old(chains)[h].phase == Used(old(handled))
              && chains == old(chains)[h := old(chains)[h].(phase := Handled)]
                && busy == old(busy) - {old(chains)[h].buf}
    {
      hide AllFormatted, Buffers, Parted, ThreeFree, Rings;
      RingAt(chains, offers, taken, completions, handled);
      Wrap(handled);
      var id := usedRing[usedIdx % NUM];
      HandleRings(chains, offers, taken, completions, handled, busy, id, chains[id := chains[id].(phase := Handled)]);
      Bounds(chains, part, free, desc, ops, info, id);
      if info[id].status != 0 {
        assert false;
      }
      NextPhase(chains, part, free, desc, ops, info, info, id, Handled, chains[id := chains[id].(phase := Handled)]);
      var b := info[id].buf.value;
      busy := busy - {b};
      usedIdx := (usedIdx + 1) % U16;
      chains := chains[id := chains[id].(phase := Handled)];
      handled := handled + 1;
    }

    /** The end of virtio_disk_rw: once b is no longer marked its descriptors are free
        again, else it goes on sleeping. */
    method Finish(head: nat, b: nat) returns (done: bool)
      requires Valid() && head in chains && chains[head].buf == b
      modifies this`info, this`free, this`desc, this`chains, this`part
      ensures Valid() && done == (b !in busy)
      ensures chains == if done then old(chains) - {head} else old(chains)
    {
      hide AllFormatted, Formatted, Buffers, Parted, Queue, Rings, Owns;
      if b in busy {
        return false;
      }
      GiveBack(head);
      RemoveRings(chains, offers, taken, completions, handled, busy, head);
      chains := chains - {head};
      return true;
    }

    /** Its changes: the request's buffer is forgotten, and its descriptors are free. */
    method GiveBack(head: nat)
      requires Parted(chains, part, free, desc) && AllFormatted(chains, desc, ops, info) && head in chains
      modifies this`info, this`free, this`desc, this`part
      ensures Parted(chains - {head}, part, free, desc) && AllFormatted(chains - {head}, desc, ops, info)
    {
      hide AllFormatted, Formatted, Parted, Owns;
      ghost var c := chains[head];
      ChainShape(chains, part, free, desc, ops, info, head);
      ghost var desc0, free0, info0 := desc, free, info;
      info := info[head := info[head].(buf := None)];
      FreeChain(head, c);
      RemoveParts(chains, part, free0, desc0, ops, info0, desc, free, info, head);
      part := part[head := None][c.mid := None][c.tail := None];
    }

    /** free_chain. */
    method FreeChain(h: nat, ghost c: Chain)
      requires |free| == |desc| == NUM && h < NUM && c.mid < NUM && c.tail < NUM && h != c.mid && h != c.tail
               && c.mid != c.tail
      requires !free[h] && !free[c.mid] && !free[c.tail]
      requires desc[h].hasNext && desc[h].next == c.mid && desc[c.mid].hasNext && desc[c.mid].next == c.tail
               && !desc[c.tail].hasNext
      modifies this`free, this`desc
      ensures free == old(free)[h := true][c.mid := true][c.tail := true]
      ensures desc == old(desc)[h := CLEAR][c.mid := CLEAR][c.tail := CLEAR]
    {
      var i := h;
      while true
        invariant i == h || i == c.mid || i == c.tail
        invariant free == if i == h then old(free) else if i == c.mid then old(free)[h := true]
                  else old(free)[h := true][c.mid := true]
        invariant desc == if i == h then old(desc) else if i == c.mid then old(desc)[h := CLEAR]
                  else old(desc)[h := CLEAR][c.mid := CLEAR]
        decreases if i == h then 2 else if i == c.mid then 1 else 0
      {
        var flag, nxt := desc[i].hasNext, desc[i].next;
        FreeDesc(i);
        if flag {
          i := nxt;
        } else {
          break;
        }
      }
    }
  }

  ghost predicate HandledTo(was: Chains, chains: Chains, handled: nat) {
    chains.Keys == was.Keys && forall h | h in was ::
      chains[h] == if was[h].phase.Used? && was[h].phase.at < handled then was[h].(phase := Handled) else was[h]
  }

  ghost predicate Cleared(was: Chains, busy: set<nat>, busy': set<nat>, handled: nat) {
    forall b :: b in busy' <==> b in busy && forall h | h in was && was[h].phase.Used?
      && was[h].phase.at < handled :: was[h].buf != b
  }

  ghost predicate SameAt(desc: seq<Desc>, ops: seq<Request>, info: seq<Info>, desc': seq<Desc>, ops': seq<Request>,
                         info': seq<Info>, but: set<nat>)
  {
    && |desc| == |ops| == |info| == |desc'| == |ops'| == |info'| == NUM
    && forall i | 0 <= i < NUM && i !in but :: desc'[i] == desc[i] && ops'[i] == ops[i] && info'[i] == info[i]
  }

  /** The descriptors of some requests. */
  ghost function Parts(part: seq<Option<nat>>, heads: set<nat>): set<nat> {
    set i | 0 <= i < |part| && part[i].Some? && part[i].value in heads
  }

  lemma {:induction false} ThreeEach(chains: Chains, part: seq<Option<nat>>, free: seq<bool>, desc: seq<Desc>,
                                     heads: set<nat>)
    requires Parted(chains, part, free, desc) && heads <= chains.Keys
    ensures |Parts(part, heads)| == 3 * |heads|
  {
    if heads == {} {
      assert Parts(part, heads) == {};
    } else {
      var h :| h in heads;
      ThreeEach(chains, part, free, desc, heads - {h});
      PartsOf(chains, part, free, desc, heads, h);
    }
  }

  lemma PartsOf(chains: Chains, part: seq<Option<nat>>, free: seq<bool>, desc: seq<Desc>, heads: set<nat>, h: nat)
    requires Parted(chains, part, free, desc) && h in heads && h in chains
    ensures |Parts(part, heads)| == |Parts(part, heads - {h})| + 3
  {
    var three := {h, chains[h].mid, chains[h].tail};
    assert Owns(part, h, chains[h]);
    assert |three| == 3;
    forall i | 0 <= i < NUM
      ensures part[i] == Some(h) <==> i in three
    {
      assert Accounted(chains, part, free, desc, i);
    }
    assert Parts(part, heads) == Parts(part, heads - {h}) + three;
    assert Parts(part, heads - {h}) !! three;
  }

  ghost predicate ThreeFree(free: seq<bool>) {
    exists a, b, c :: 0 <= a < |free| && 0 <= b < |free| && 0 <= c < |free| && a != b && a != c && b != c && free[a]
      && free[b] && free[c]
  }

  /** At most two requests are in flight, and three descriptors are free exactly when
      there are fewer. */
  lemma TwoChains(chains: Chains, part: seq<Option<nat>>, free: seq<bool>, desc: seq<Desc>)
    requires Parted(chains, part, free, desc)
    ensures |chains| <= 2 && (|chains| < 2 <==> ThreeFree(free))
  {
    var taken, idle := Parts(part, chains.Keys), set i | 0 <= i < |free| && free[i];
    ThreeEach(chains, part, free, desc, chains.Keys);
    forall i | 0 <= i < NUM
      ensures i in taken <==> i !in idle
    {
      assert Accounted(chains, part, free, desc, i);
    }
    Complement(|free|, taken, idle);
    Threes(free, idle);
  }

  lemma Complement(n: nat, a: set<nat>, b: set<nat>)
    requires (forall i | i in a || i in b :: i < n) && forall i | 0 <= i < n :: i in a <==> i !in b
    ensures |a| + |b| == n
  {
    assert a + b == Below(n) && a !! b;
  }

  lemma Threes(free: seq<bool>, idle: set<nat>)
    requires idle == set i | 0 <= i < |free| && free[i]
    ensures ThreeFree(free) <==> |idle| >= 3
  {
    if |idle| >= 3 {
      var a :| a in idle;
      assert |idle - {a}| >= 2;
      var b :| b in idle - {a};
      assert |idle - {a} - {b}| >= 1;
      var c :| c in idle - {a} - {b};
      assert free[a] && free[b] && free[c];
    }
    if a, b, c :|
      && 0 <= a < |free| && 0 <= b < |free| && 0 <= c < |free| && a != b && a != c && b != c
      && free[a] && free[b] && free[c]
    {
      SubsetSize({a, b, c}, idle);
    }
  }

  /** So a ring has at most two entries that are not yet taken. */
  lemma ShortQueue(chains: Chains, history: seq<nat>, lo: nat)
    requires |chains| <= 2 && lo <= |history|
    requires NoDup(history[lo..]) && forall k | lo <= k < |history| :: history[k] in chains
    ensures |history| - lo <= 2
  {
    NoDupSize(history[lo..]);
    SubsetSize((set h | h in history[lo..]), chains.Keys);
  }

  lemma FreeClear(chains: Chains, part: seq<Option<nat>>, free: seq<bool>, desc: seq<Desc>)
    requires Parted(chains, part, free, desc)
    ensures |free| == |desc| == |part| == NUM
    ensures forall i | 0 <= i < NUM && free[i] :: desc[i] == CLEAR && part[i] == None
  {
    forall i | 0 <= i < NUM && free[i]
      ensures desc[i] == CLEAR && part[i] == None
    {
      assert Accounted(chains, part, free, desc, i);
    }
  }

  lemma Bounds(chains: Chains, part: seq<Option<nat>>, free: seq<bool>, desc: seq<Desc>, ops: seq<Request>,
               info: seq<Info>, h: nat)
    requires Parted(chains, part, free, desc) && AllFormatted(chains, desc, ops, info) && h in chains
    ensures |free| == |part| == NUM && Owns(part, h, chains[h]) && Formatted(desc, ops, info, h, chains[h])
    ensures !free[h] && !free[chains[h].mid] && !free[chains[h].tail]
  {
    assert Owns(part, h, chains[h]);
    assert Accounted(chains, part, free, desc, h) && Accounted(chains, part, free, desc, chains[h].mid);
    assert Accounted(chains, part, free, desc, chains[h].tail);
  }

  /** What free_chain finds. */
  lemma ChainShape(chains: Chains, part: seq<Option<nat>>, free: seq<bool>, desc: seq<Desc>, ops: seq<Request>,
                   info: seq<Info>, h: nat)
    requires Parted(chains, part, free, desc) && AllFormatted(chains, desc, ops, info) && h in chains
    ensures |free| == |part| == |desc| == |info| == NUM && Owns(part, h, chains[h])
    ensures var c := chains[h];
            && h < NUM && c.mid < NUM && c.tail < NUM && h != c.mid && h != c.tail && c.mid != c.tail
            && !free[h] && !free[c.mid] && !free[c.tail]
            && desc[h].hasNext && desc[h].next == c.mid && desc[c.mid].hasNext && desc[c.mid].next == c.tail
            && !desc[c.tail].hasNext
  {
    Bounds(chains, part, free, desc, ops, info, h);
  }

  lemma Idle(chains: Chains, offers: seq<nat>, taken: nat, completions: seq<nat>, handled: nat)
    requires Rings(chains, offers, taken, completions, handled)
    ensures taken < |offers| || handled < |completions| ==> exists h :: h in chains
  {
    if taken < |offers| {
      assert offers[taken] in chains;
    } else if handled < |completions| {
      assert completions[handled] in chains;
    }
  }

  lemma Waiting(ring: seq<nat>, idx: nat, history: seq<nat>, lo: nat)
    requires Queue(ring, idx, history, lo)
    ensures lo <= |history| && idx == |history| % U16
  {
  }

  lemma NextWrap(x: nat)
    ensures (x + 1) % U16 != x % U16
  {
  }

  lemma CompleteKeeps(chains: Chains, part: seq<Option<nat>>, free: seq<bool>, desc: seq<Desc>, ops: seq<Request>,
                      info: seq<Info>, offers: seq<nat>, taken: nat, completions: seq<nat>, handled: nat,
                      availRing: seq<nat>, availIdx: nat, usedRing: seq<nat>, usedDev: nat, busy: set<nat>, h: nat)
    requires Parted(chains, part, free, desc) && AllFormatted(chains, desc, ops, info)
    requires Rings(chains, offers, taken, completions, handled) && Buffers(chains, busy)
    requires Queue(availRing, availIdx, offers, taken) && Queue(usedRing, usedDev, completions, handled)
    requires h in chains && chains[h].phase == Fetched && h < NUM && |info| == NUM
    ensures |usedRing| == NUM
    ensures var chains' := chains[h := chains[h].(phase := Used(|completions|))];
            && Parted(chains', part, free, desc)
            && AllFormatted(chains', desc, ops, info[h := info[h].(status := 0)])
            && Rings(chains', offers, taken, completions + [h], handled) && Buffers(chains', busy)
    ensures Queue(usedRing[usedDev % NUM := h], (usedDev + 1) % U16, completions + [h], handled)
  {
    hide AllFormatted, Formatted, Buffers, Parted, Queue, Rings, ThreeFree;
    var chains' := chains[h := chains[h].(phase := Used(|completions|))];
    TwoChains(chains, part, free, desc);
    ShortRings(chains, offers, taken, completions, handled, availRing, availIdx, usedRing, usedDev);
    QueuePush(usedRing, usedDev, completions, handled, h);
    CompleteRings(chains, offers, taken, completions, handled, busy, h, chains');
    NextPhase(chains, part, free, desc, ops, info, info[h := info[h].(status := 0)], h, Used(|completions|), chains');
  }

  lemma RingAt(chains: Chains, offers: seq<nat>, taken: nat, completions: seq<nat>, handled: nat)
    requires Rings(chains, offers, taken, completions, handled)
    ensures taken < |offers| ==> offers[taken] in chains
    ensures handled < |completions| ==>
              && completions[handled] in chains
              && chains[completions[handled]].phase == Used(handled)
    ensures forall h | h in chains && chains[h].phase.Used? :: handled <= chains[h].phase.at < |completions|
  {
    assert forall h | h in chains :: Placed(chains, offers, taken, completions, handled, h);
  }

  lemma Lengths(chains: Chains, desc: seq<Desc>, ops: seq<Request>, info: seq<Info>)
    requires AllFormatted(chains, desc, ops, info)
    ensures |desc| == |ops| == |info| == NUM
  {
  }

  lemma HandledNone(chains: Chains, busy: set<nat>, offers: seq<nat>, taken: nat, completions: seq<nat>, handled: nat)
    requires Rings(chains, offers, taken, completions, handled)
    ensures HandledTo(chains, chains, handled) && Cleared(chains, busy, busy, handled)
  {
    RingAt(chains, offers, taken, completions, handled);
  }

  lemma HandledMore(was: Chains, chains: Chains, offers: seq<nat>, taken: nat, completions: seq<nat>, handled: nat,
                    busy: set<nat>, busy': set<nat>)
    requires Rings(chains, offers, taken, completions, handled) && handled < |completions|
    requires HandledTo(was, chains, handled) && Cleared(was, busy, busy', handled)
    ensures var h := completions[handled];
            && h in chains && HandledTo(was, chains[h := chains[h].(phase := Handled)], handled + 1)
            && Cleared(was, busy, busy' - {chains[h].buf}, handled + 1)
  {
    RingAt(chains, offers, taken, completions, handled);
    var h := completions[handled];
    forall g | g in was && was[g].phase.Used? && was[g].phase.at == handled
      ensures g == h
    {
      assert Placed(chains, offers, taken, completions, handled, g);
    }
  }

  lemma HandledAll(was: Chains, chains: Chains, offers: seq<nat>, taken: nat, completions: seq<nat>, handled: nat,
                   busy: set<nat>, busy': set<nat>)
    requires Rings(was, offers, taken, completions, handled)
    requires HandledTo(was, chains, |completions|) && Cleared(was, busy, busy', |completions|)
    ensures chains.Keys == was.Keys
    ensures forall h | h in chains :: chains[h] == if was[h].phase.Used? then was[h].(phase := Handled) else was[h]
    ensures forall b :: b in busy' <==> b in busy && forall h | h in was && was[h].phase.Used? :: was[h].buf != b
  {
    RingAt(was, offers, taken, completions, handled);
  }

  lemma ShortRings(chains: Chains, offers: seq<nat>, taken: nat, completions: seq<nat>, handled: nat,
                   availRing: seq<nat>, availIdx: nat, usedRing: seq<nat>, usedDev: nat)
    requires |chains| <= 2 && Rings(chains, offers, taken, completions, handled)
    requires Queue(availRing, availIdx, offers, taken) && Queue(usedRing, usedDev, completions, handled)
    ensures taken <= |offers| <= taken + 2 && handled <= |completions| <= handled + 2
    ensures |availRing| == |usedRing| == NUM && usedDev == |completions| % U16
  {
    ShortQueue(chains, offers, taken);
    ShortQueue(chains, completions, handled);
  }

  /** A new entry goes behind the entries not yet taken, whatever the wrapped index. */
  lemma QueuePush(ring: seq<nat>, idx: nat, history: seq<nat>, lo: nat, h: nat)
    requires Queue(ring, idx, history, lo) && |history| - lo < NUM
    ensures Queue(ring[idx % NUM := h], (idx + 1) % U16, history + [h], lo)
  {
    Wrap(|history|);
    forall k | lo <= k < |history|
      ensures k % NUM != |history| % NUM
    {
      assert |history| - k == NUM * (|history| / NUM - k / NUM) + (|history| % NUM - k % NUM);
    }
  }

  lemma Wrap(n: nat)
    ensures n % U16 % NUM == n % NUM && (n % U16 + 1) % U16 == (n + 1) % U16
  {
    assert n == NUM * (0x2000 * (n / U16)) + n % U16;
  }

  lemma WrapEqual(n: nat, m: nat)
    requires n <= m <= n + 2
    ensures n % U16 == m % U16 <==> n == m
  {
  }

  /** Three free descriptors, filled in, make a new request. */
  lemma Fresh(chains: Chains, part: seq<Option<nat>>, free: seq<bool>, desc: seq<Desc>, ops: seq<Request>,
              info: seq<Info>,
              desc': seq<Desc>, ops': seq<Request>, info': seq<Info>, h: nat, c: Chain, chains': Chains)
    requires Parted(chains, part, free, desc) && AllFormatted(chains, desc, ops, info) && chains' == chains[h := c]
    requires h < NUM && c.mid < NUM && c.tail < NUM && h != c.mid && h != c.tail && c.mid != c.tail
    requires free[h] && free[c.mid] && free[c.tail] && Formatted(desc', ops', info', h, c)
    requires SameAt(desc, ops, info, desc', ops', info', {h, c.mid, c.tail})
    ensures h !in chains && AllFormatted(chains', desc', ops', info')
    ensures Parted(chains', part[h := Some(h)][c.mid := Some(h)][c.tail := Some(h)],
                   free[h := false][c.mid := false][c.tail := false], desc')
  {
    Elsewhere(chains, part, free, desc, h, c);
    var part', free' := part[h := Some(h)][c.mid := Some(h)][c.tail := Some(h)],
      free[h := false][c.mid := false][c.tail := false];
    forall i | 0 <= i < NUM
      ensures Accounted(chains', part', free', desc', i)
    {
      assert Accounted(chains, part, free, desc, i);
    }
    forall g | g in chains'
      ensures Owns(part', g, chains'[g]) && Formatted(desc', ops', info', g, chains'[g])
    {
      assert g != h ==> Owns(part, g, chains[g]) && Formatted(desc, ops, info, g, chains[g]);
    }
  }

  /** Free descriptors are in no chain. */
  lemma Elsewhere(chains: Chains, part: seq<Option<nat>>, free: seq<bool>, desc: seq<Desc>, h: nat, c: Chain)
    requires Parted(chains, part, free, desc)
    requires h < NUM && c.mid < NUM && c.tail < NUM && free[h] && free[c.mid] && free[c.tail]
    ensures h !in chains
    ensures forall g | g in chains :: {g, chains[g].mid, chains[g].tail} !! {h, c.mid, c.tail}
  {
    FreeClear(chains, part, free, desc);
    forall g | g in chains
      ensures {g, chains[g].mid, chains[g].tail} !! {h, c.mid, c.tail}
    {
      assert Owns(part, g, chains[g]);
    }
  }

  /** Only the phase and the status of request h change. */
  lemma NextPhase(chains: Chains, part: seq<Option<nat>>, free: seq<bool>, desc: seq<Desc>, ops: seq<Request>,
                  info: seq<Info>, info': seq<Info>, h: nat, phase: Phase, chains': Chains)
    requires Parted(chains, part, free, desc) && AllFormatted(chains, desc, ops, info)
    requires h in chains && chains' == chains[h := chains[h].(phase := phase)]
    requires |info'| == NUM && h < NUM && (phase.Used? || phase.Handled? ==> info'[h].status == 0)
    requires forall i | 0 <= i < NUM :: info'[i].buf == info[i].buf && (i != h ==> info'[i] == info[i])
    ensures Parted(chains', part, free, desc) && AllFormatted(chains', desc, ops, info')
  {
    forall i | 0 <= i < NUM
      ensures Accounted(chains', part, free, desc, i)
    {
      assert Accounted(chains, part, free, desc, i);
    }
    forall g | g in chains'
      ensures Owns(part, g, chains'[g]) && Formatted(desc, ops, info', g, chains'[g])
    {
      assert Owns(part, g, chains[g]) && Formatted(desc, ops, info, g, chains[g]);
    }
  }

  lemma Offer(chains: Chains, offers: seq<nat>, taken: nat, completions: seq<nat>, handled: nat, busy: set<nat>, h: nat,
              c: Chain, chains': Chains)
    requires Rings(chains, offers, taken, completions, handled) && Buffers(chains, busy) && taken <= |offers|
    requires h !in chains && c.phase == Offered(|offers|) && (forall g | g in chains :: chains[g].buf != c.buf)
             && chains' == chains[h := c]
    ensures Rings(chains', offers + [h], taken, completions, handled) && Buffers(chains', busy + {c.buf})
  {
    forall g | g in chains'
      ensures Placed(chains', offers + [h], taken, completions, handled, g)
    {
      assert g != h ==> Placed(chains, offers, taken, completions, handled, g);
    }
  }

  lemma FetchRings(chains: Chains, offers: seq<nat>, taken: nat, completions: seq<nat>, handled: nat, busy: set<nat>,
                   h: nat, chains': Chains)
    requires Rings(chains, offers, taken, completions, handled) && Buffers(chains, busy)
    requires taken < |offers| && h == offers[taken] && h in chains
             && chains' == chains[h := chains[h].(phase := Fetched)]
    ensures Rings(chains', offers, taken + 1, completions, handled) && Buffers(chains', busy)
  {
    forall g | g in chains'
      ensures Placed(chains', offers, taken + 1, completions, handled, g)
    {
      assert Placed(chains, offers, taken, completions, handled, g);
    }
  }

  lemma CompleteRings(chains: Chains, offers: seq<nat>, taken: nat, completions: seq<nat>, handled: nat, busy: set<nat>,
                      h: nat, chains': Chains)
    requires Rings(chains, offers, taken, completions, handled) && Buffers(chains, busy) && handled <= |completions|
    requires h in chains && chains[h].phase == Fetched
             && chains' == chains[h := chains[h].(phase := Used(|completions|))]
    ensures Rings(chains', offers, taken, completions + [h], handled) && Buffers(chains', busy)
  {
    forall g | g in chains'
      ensures Placed(chains', offers, taken, completions + [h], handled, g)
    {
      assert Placed(chains, offers, taken, completions, handled, g);
    }
  }

  lemma HandleRings(chains: Chains, offers: seq<nat>, taken: nat, completions: seq<nat>, handled: nat, busy: set<nat>,
                    h: nat, chains': Chains)
    requires Rings(chains, offers, taken, completions, handled) && Buffers(chains, busy)
    requires handled < |completions| && h == completions[handled] && h in chains
             && chains' == chains[h := chains[h].(phase := Handled)]
    ensures Rings(chains', offers, taken, completions, handled + 1) && Buffers(chains', busy - {chains[h].buf})
  {
    forall g | g in chains'
      ensures Placed(chains', offers, taken, completions, handled + 1, g)
    {
      assert Placed(chains, offers, taken, completions, handled, g);
    }
  }

  lemma RemoveRings(chains: Chains, offers: seq<nat>, taken: nat, completions: seq<nat>, handled: nat, busy: set<nat>,
                    h: nat)
    requires Rings(chains, offers, taken, completions, handled) && Buffers(chains, busy) && h in chains
             && chains[h].buf !in busy
    ensures Rings(chains - {h}, offers, taken, completions, handled) && Buffers(chains - {h}, busy)
  {
    forall g | g in chains - {h}
      ensures Placed(chains - {h}, offers, taken, completions, handled, g)
    {
      assert Placed(chains, offers, taken, completions, handled, g);
    }
  }

  lemma RemoveParts(chains: Chains, part: seq<Option<nat>>, free: seq<bool>, desc: seq<Desc>, ops: seq<Request>,
                    info: seq<Info>, desc': seq<Desc>, free': seq<bool>, info': seq<Info>, h: nat)
    requires Parted(chains, part, free, desc) && AllFormatted(chains, desc, ops, info) && h in chains
             && Owns(part, h, chains[h])
    requires free' == free[h := true][chains[h].mid := true][chains[h].tail := true]
    requires desc' == desc[h := CLEAR][chains[h].mid := CLEAR][chains[h].tail := CLEAR]
    requires |info'| == NUM && forall i | 0 <= i < NUM && i != h :: info'[i] == info[i]
    ensures Parted(chains - {h}, part[h := None][chains[h].mid := None][chains[h].tail := None], free', desc')
    ensures AllFormatted(chains - {h}, desc', ops, info')
  {
    var c := chains[h];
    var part', chains' := part[h := None][c.mid := None][c.tail := None], chains - {h};
    forall i | 0 <= i < NUM
      ensures Accounted(chains', part', free', desc', i)
    {
      assert Accounted(chains, part, free, desc, i);
    }
    forall g | g in chains'
      ensures Owns(part', g, chains'[g]) && Formatted(desc', ops, info', g, chains'[g])
    {
      assert Owns(part, g, chains[g]) && Formatted(desc, ops, info, g, chains[g]);
    }
  }
}
