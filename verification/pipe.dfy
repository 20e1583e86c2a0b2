/** The pipe's ring buffer and its wrapping 32-bit counters (kernel/pipe.c).

    Each method is one stretch of a system call during which the pipe's lock is held:
    it ends when the call returns or sleeps, and the methods may be called in any order
    by any number of readers and writers. */
module Pipes {
  import opened Common

  const PIPESIZE: nat := 512

  /** How a stretch ends: the call returns, or sleeps and goes on at byte `at`. */
  datatype End = Return(value: int) | Sleep(at: nat)

  /** The bytes that copyin gave for src[from..to]. */
  ghost function Values(src: seq<Option<char>>, from: nat, to: nat): (r: seq<char>)
    requires from <= to <= |src| && forall k | from <= k < to :: src[k].Some?
  {
    seq(to - from, k requires 0 <= k < to - from => src[from + k].value)
  }

  class Pipe {
    const data: array<char>
    var nread: nat            // 32 bits
    var nwrite: nat           // 32 bits
    var readopen: bool
    var writeopen: bool
    ghost var stored: seq<char>     // all bytes ever written
    ghost var removed: seq<char>    // all bytes ever taken out

    ghost predicate Valid()
      reads this, data
    {
      && data.Length == PIPESIZE
      && nread == U32(|removed|) && nwrite == U32(|stored|)
      && removed <= stored && |stored| - |removed| <= PIPESIZE
      && forall k, j | |removed| <= k < |stored| && j == k % PIPESIZE :: data[j] == stored[k]
    }

    /** pipealloc. */
    constructor ()
      ensures Valid() && stored == [] && removed == [] && readopen && writeopen && fresh(data)
    {
      data := new char[PIPESIZE];
      nread, nwrite, readopen, writeopen := 0, 0, true, true;
      stored, removed := [], [];
    }

    /** The counters tell a full pipe from an empty one, wrapped or not. */
    lemma Counters()
      requires Valid()
      ensures nwrite == U32(nread + PIPESIZE) <==> |stored| == |removed| + PIPESIZE
      ensures nread == nwrite <==> |stored| == |removed|
      ensures nwrite % PIPESIZE == |stored| % PIPESIZE && nread % PIPESIZE == |removed| % PIPESIZE
    {
      Wrapped(|removed|, |stored|);
    }

    /** pi->data[pi->nwrite++ % PIPESIZE] = ch. */
    method Put(ch: char)
      requires Valid() && |stored| < |removed| + PIPESIZE
      modifies this`nwrite, this`stored, data
      ensures Valid() && stored == old(stored) + [ch]
    {
      Counters();
      Next(|stored|);
      Different(|removed|, |stored|);
      data[nwrite % PIPESIZE] := ch;
      nwrite := U32(nwrite + 1);
      stored := stored + [ch];
    }

    /** ch = pi->data[pi->nread++ % PIPESIZE]. */
    method Take() returns (ch: char)
      requires Valid() && |stored| > |removed|
      modifies this`nread, this`removed
      ensures Valid() && removed == old(removed) + [ch]
    {
      Counters();
      Next(|removed|);
      ch := data[nread % PIPESIZE];
      nread := U32(nread + 1);
      removed := removed + [ch];
    }

    /** pipewrite from byte i on: the bytes it stores follow those stored before, and
        it stops short only for want of room, a reader, or the caller's memory, or when
        killed, which it looks at before each byte and which may change at any time. */
    method Write(src: seq<Option<char>>, start: nat, killed: seq<bool>) returns (end: End, ghost to: nat)
      requires Valid() && start <= |src| <= |killed|
      modifies this`nwrite, this`stored, data
      ensures Valid()
      ensures start <= to <= |src| && (forall k | start <= k < to :: src[k].Some?)
      ensures stored == old(stored) + Values(src, start, to)
      ensures end == if to < |src| && (!readopen || killed[to]) then Return(-1)
                     else if to < |src| && |stored| == |removed| + PIPESIZE then Sleep(to)
                     else Return(to)
      ensures end == Return(to) ==> to == |src| || src[to] == None
      ensures (forall k | start <= k < to :: !killed[k]) && (to > start ==> readopen)
    {
      var i := start;
      to := i;
      while i < |src|
        invariant start <= to == i <= |src| && Valid() && (forall k | start <= k < to :: src[k].Some?)
        invariant stored == old(stored) + Values(src, start, to)
        invariant (forall k | start <= k < to :: !killed[k]) && (to > start ==> readopen)
      {
        if !readopen || killed[i] {
          return Return(-1), to;
        }
        Counters();
        if nwrite == U32(nread + PIPESIZE) {
          return Sleep(i), to;
        }
        if src[i] == None {
          break;
        }
        Put(src[i].value);
        i := i + 1;
        to := i;
      }
      return Return(i), to;
    }

    /** piperead of n bytes, where copyout fails at byte `bad`: it takes the oldest
        bytes that are stored, as many as it may. */
    method Read(n: nat, bad: nat, killed: bool) returns (end: End, got: seq<char>)
      requires Valid()
      modifies this`nread, this`removed
      ensures Valid() && removed == old(removed) + got
      ensures |stored| == |old(removed)| && writeopen ==> got == [] && end == if killed then Return(-1) else Sleep(0)
      ensures |stored| > |old(removed)| || !writeopen ==>
                var room := if bad < n then bad + 1 else n;
                && |got| == (if |stored| - |old(removed)| < room then |stored| - |old(removed)| else room)
                && end == Return(if |got| > bad then bad else |got|)
    {
      Counters();
      got := [];
      if nread == nwrite && writeopen {
        return if killed then Return(-1) else Sleep(0), [];
      }
      var i := 0;
      while i < n
        invariant i <= n && i <= bad && Valid() && |got| == i && removed == old(removed) + got
      {
        Counters();
        if nread == nwrite {
          break;
        }
        var ch := Take();
        got := got + [ch];
        if i == bad {
          break;
        }
        i := i + 1;
      }
      return Return(i), got;
    }

    /** pipeclose; the caller frees the pipe when both ends are closed. */
    method Close(writable: bool) returns (dead: bool)
      requires Valid()
      modifies this`readopen, this`writeopen
      ensures Valid() && dead == (!readopen && !writeopen)
      ensures readopen == (old(readopen) && writable) && writeopen == (old(writeopen) && !writable)
    {
      if writable {
        writeopen := false;
      } else {
        readopen := false;
      }
      dead := !readopen && !writeopen;
    }
  }

  lemma Wrapped(r: nat, w: nat)
    requires r <= w <= r + PIPESIZE
    ensures U32(w) == U32(U32(r) + PIPESIZE) <==> w == r + PIPESIZE
    ensures U32(r) == U32(w) <==> r == w
    ensures U32(w) % PIPESIZE == w % PIPESIZE && U32(r) % PIPESIZE == r % PIPESIZE
  {
    hide U32;
    U32Add(r, PIPESIZE);
    U32Injective(w, r + PIPESIZE);
    U32Injective(r, w);
    U32Mod(r);
    U32Mod(w);
  }

  lemma U32Add(x: nat, y: nat)
    ensures U32(U32(x) + y) == U32(x + y)
  {
    var q, u := x / UINT, U32(x);
    var p, t := (u + y) / UINT, U32(u + y);
    assert x + y == UINT * (q + p) + t;
  }

  lemma U32Injective(x: nat, y: nat)
    requires x <= y < x + UINT
    ensures U32(x) == U32(y) <==> x == y
  {
    assert x == UINT * (x / UINT) + U32(x) && y == UINT * (y / UINT) + U32(y);
  }

  lemma U32Mod(x: nat)
    ensures U32(x) % PIPESIZE == x % PIPESIZE
  {
    assert x == PIPESIZE * (0x80_0000 * (x / UINT)) + U32(x);
  }

  lemma Next(x: nat)
    ensures U32(U32(x) + 1) == U32(x + 1)
  {
    U32Add(x, 1);
  }

  lemma Different(r: nat, w: nat)
    requires r <= w < r + PIPESIZE
    ensures forall k | r <= k < w :: k % PIPESIZE != w % PIPESIZE
  {
    forall k | r <= k < w
      ensures k % PIPESIZE != w % PIPESIZE
    {
      assert w - k == PIPESIZE * (w / PIPESIZE - k / PIPESIZE) + (w % PIPESIZE - k % PIPESIZE);
    }
  }
}
