/** Link counts (kernel/sysfile.c, kernel/fs.c).

    An inode is its type, its nlink and, for a directory, its entries; `refs` counts
    in-memory references.  The methods are the stretches of the system calls that run
    with the inodes they change locked; sys_link has two, and `pending` counts the
    calls between them.  Ghost `places` has, for every inode, the entries that count. */
module Links {
  import opened Common
  import opened Seqs

  const ROOT: nat := 1
  const SHRT_MAX: int := 0x7fff

  /** What a short keeps of x. */
  function Short(x: int): (r: int)
    ensures -0x8000 <= r <= SHRT_MAX
    ensures -0x8000 <= x <= SHRT_MAX ==> r == x
    ensures x == SHRT_MAX + 1 ==> r == -0x8000
  {
    (x + 0x8000) % 0x1_0000 - 0x8000
  }

  datatype Kind = Unused | Dir | File | Device

  datatype Entry = Entry(name: string, inum: nat)

  datatype Inode = Inode(kind: Kind, nlink: int, entries: seq<Entry>)

  type Place = (nat, nat)

  predicate Linked(inodes: seq<Inode>, d: nat) {
    d < |inodes| && inodes[d].kind == Dir && inodes[d].nlink > 0
  }

  /** Entry k of directory d counts as a link to i: it names it, is not "." and the
      directory is linked. */
  predicate Counts(inodes: seq<Inode>, d: nat, k: nat, i: nat) {
    Linked(inodes, d) && k < |inodes[d].entries| && inodes[d].entries[k].inum == i && inodes[d].entries[k].name != "."
  }

  /** The directory starts with "." and "..", which are nowhere else. */
  ghost predicate Dots(inodes: seq<Inode>, i: nat)
    requires i < |inodes|
  {
    var e := inodes[i].entries;
    && |e| >= 2 && e[0] == Entry(".", i) && e[1].name == ".."
    && forall k | 2 <= k < |e| :: e[k].inum != 0 ==> e[k].name != "." && e[k].name != ".."
  }

  /** A linked directory is in its parent, once, and knows it; an unlinked one is empty. */
  ghost predicate Tree(inodes: seq<Inode>, home: map<nat, Place>, i: nat)
    requires i < |inodes| && Dots(inodes, i)
  {
    if inodes[i].nlink > 0 then
      if i == ROOT then inodes[i].entries[1].inum == ROOT
      else
        && i in home && home[i].1 >= 2 && Counts(inodes, home[i].0, home[i].1, i)
        && inodes[i].entries[1].inum == home[i].0
    else i != ROOT && inodes[i].entries[1].inum != i && 0 < inodes[i].entries[1].inum < |inodes|
         && forall k | 2 <= k < |inodes[i].entries| :: inodes[i].entries[k].inum == 0
  }

  ghost predicate Good(inodes: seq<Inode>, refs: seq<nat>, pending: seq<nat>, places: seq<set<Place>>,
                       home: map<nat, Place>, i: nat)
    requires |inodes| == |refs| == |pending| == |places| && i < |inodes|
  {
    && inodes[i].nlink == |places[i]| + pending[i] <= SHRT_MAX
    && (forall d: nat, k: nat :: (d, k) in places[i] <==> i != 0 && Counts(inodes, d, k, i))
    && (inodes[i].kind == Dir ==> pending[i] == 0 && Dots(inodes, i) && Tree(inodes, home, i))
    && (inodes[i].kind != Dir ==> inodes[i].entries == [])
    && (inodes[i].kind == Unused ==> inodes[i].nlink == 0)
    && (inodes[i].kind != Unused && inodes[i].nlink == 0 ==> refs[i] > 0)
  }

  /** The entries of linked directories name inodes, and a directory only from home. */
  ghost predicate Named(inodes: seq<Inode>, home: map<nat, Place>, d: nat, k: nat)
    requires d < |inodes| && k < |inodes[d].entries|
  {
    var i := inodes[d].entries[k].inum;
    Linked(inodes, d) && i != 0 ==>
      (i < |inodes| && inodes[i].kind != Unused && (k >= 2 && inodes[i].kind == Dir ==>
        && i != ROOT && i in home
        && home[i] == (d, k)))
  }

  /** The entries that count as links to i. */
  ghost function LinksTo(inodes: seq<Inode>, i: nat): set<Place> {
    set d, k | 0 <= d < |inodes| && 0 <= k < |inodes[d].entries| && Counts(inodes, d, k, i) :: (d, k)
  }

  /** The inode's nlink is the number of entries that count and of links on their way. */
  ghost predicate Right(inodes: seq<Inode>, pending: seq<nat>, i: nat)
    requires i < |inodes| == |pending|
  {
    inodes[i].nlink == |LinksTo(inodes, i)| + pending[i]
  }

  ghost predicate AllRight(inodes: seq<Inode>, pending: seq<nat>) {
    |inodes| == |pending| && forall i | 0 < i < |inodes| :: Right(inodes, pending, i)
  }

  /** sys_unlink's check on what it finds under the name fails. */
  ghost predicate NlinkPanic(inodes: seq<Inode>, dp: nat, name: string)
    requires dp < |inodes|
  {
    var k := Lookup(inodes[dp].entries, name, 0);
    k.Some? && inodes[dp].entries[k.value].inum < |inodes| && inodes[inodes[dp].entries[k.value].inum].nlink < 1
  }

  /** The first entry in use, from k on, with this name. */
  function Lookup(entries: seq<Entry>, name: string, k: nat): (r: Option<nat>)
    requires k <= |entries|
    ensures r.Some? ==> k <= r.value < |entries| && entries[r.value].inum != 0 && entries[r.value].name == name
    ensures forall j | k <= j < (if r.Some? then r.value else |entries|) ::
              entries[j].inum != 0 ==> entries[j].name != name
    decreases |entries| - k
  {
    if k == |entries| then None
    else if entries[k].inum != 0 && entries[k].name == name then Some(k)
    else Lookup(entries, name, k + 1)
  }

  function Put(entries: seq<Entry>, k: nat, e: Entry): seq<Entry>
    requires k <= |entries|
  {
    if k < |entries| then entries[k := e] else entries + [e]
  }

  /** Entry k is empty, or one more. */
  ghost predicate Vacant(entries: seq<Entry>, k: nat) {
    k <= |entries| && (k < |entries| ==> entries[k].inum == 0)
  }

  /** Entry k is the one that dirlink fills: the first empty one, or else one more. */
  ghost predicate FirstVacant(entries: seq<Entry>, k: nat) {
    Vacant(entries, k) && forall j | 0 <= j < k :: entries[j].inum != 0
  }

  /** No two entries in use have the same name. */
  ghost predicate Distinct(entries: seq<Entry>) {
    forall j, k | 0 <= j < k < |entries| && entries[j].inum != 0 && entries[k].inum != 0 ::
      entries[j].name != entries[k].name
  }

  ghost predicate NamesApart(inodes: seq<Inode>) {
    forall d | 0 <= d < |inodes| :: Distinct(inodes[d].entries)
  }

  /** Looking up that name fails, and any other one gives what it gave. */
  ghost predicate Forgot(was: seq<Entry>, now: seq<Entry>, name: string) {
    Lookup(now, name, 0) == None && forall other | other != name :: Lookup(now, other, 0) == Lookup(was, other, 0)
  }

  lemma PutDistinct(entries: seq<Entry>, k: nat, e: Entry)
    requires Distinct(entries) && Vacant(entries, k) && Lookup(entries, e.name, 0) == None
    ensures Distinct(Put(entries, k, e))
  {
  }

  lemma {:induction false} ClearedLookup(entries: seq<Entry>, k: nat, name: string, j: nat)
    requires Distinct(entries) && k < |entries| && j <= |entries| && entries[k].inum != 0
    ensures Lookup(entries[k := Entry("", 0)], name, j) ==
            if name == entries[k].name && j <= k then None else Lookup(entries, name, j)
    decreases |entries| - j
  {
    if j < |entries| {
      ClearedLookup(entries, k, name, j + 1);
    }
  }

  /** Without the entry its name is found no more, and every other name as before. */
  lemma UnlinkForgets(inodes: seq<Inode>, d: nat, k: nat, name: string)
    requires NamesApart(inodes) && d < |inodes| && k < |inodes[d].entries|
    requires 0 < inodes[d].entries[k].inum < |inodes| && name == inodes[d].entries[k].name
    ensures NamesApart(Unlinked(inodes, d, k)) && Forgot(inodes[d].entries, Unlinked(inodes, d, k)[d].entries, name)
  {
    var now := inodes[d].entries[k := Entry("", 0)];
    assert Unlinked(inodes, d, k)[d].entries == now;
    assert forall c | 0 <= c < |inodes| && c != d :: Unlinked(inodes, d, k)[c].entries == inodes[c].entries;
    forall other
      ensures Lookup(now, other, 0) == if other == name then None else Lookup(inodes[d].entries, other, 0)
    {
      ClearedLookup(inodes[d].entries, k, other, 0);
    }
  }

  function WithEntry(inodes: seq<Inode>, d: nat, k: nat, e: Entry): (r: seq<Inode>)
    requires d < |inodes| && k <= |inodes[d].entries|
    ensures |r| == |inodes|
  {
    inodes[d := inodes[d].(entries := Put(inodes[d].entries, k, e))]
  }

  /** Entry k of d may be unlinked: it names a file or an empty directory. */
  ghost predicate Removable(inodes: seq<Inode>, d: nat, k: nat) {
    && d < |inodes| && k < |inodes[d].entries| && inodes[d].entries[k].inum < |inodes|
    && var i := inodes[d].entries[k].inum;
       inodes[i].kind == Dir ==> forall l | 2 <= l < |inodes[i].entries| :: inodes[i].entries[l].inum == 0
  }

  /** Without entry k of d: its inode has a link less and, if that is a directory, so
      has d. */
  function Unlinked(inodes: seq<Inode>, d: nat, k: nat): (r: seq<Inode>)
    requires d < |inodes| && k < |inodes[d].entries| && inodes[d].entries[k].inum < |inodes|
    ensures |r| == |inodes|
  {
    var i := inodes[d].entries[k].inum;
    var less := if inodes[i].kind == Dir then 1 else 0;
    var removed := inodes[d := inodes[d].(entries := inodes[d].entries[k := Entry("", 0)],
      nlink := inodes[d].nlink - less)];
    removed[i := removed[i].(nlink := removed[i].nlink - 1)]
  }

  ghost function LessPlaces(inodes: seq<Inode>, places: seq<set<Place>>, d: nat, k: nat): seq<set<Place>>
    requires d < |inodes| == |places| && k < |inodes[d].entries| && inodes[d].entries[k].inum < |inodes|
  {
    var i := inodes[d].entries[k].inum;
    var less := places[i := places[i] - {(d, k)}];
    if inodes[i].kind == Dir then less[d := less[d] - {(i, 1)}] else less
  }

  /** Every inode that ialloc looks at is in use. */
  ghost predicate Full(inodes: seq<Inode>) {
    forall j | 1 <= j < |inodes| :: inodes[j].kind != Unused
  }

  datatype Created = Made(inum: nat, at: nat) | Exists(inum: nat) | Refused | Panic

  function WithNlink(inodes: seq<Inode>, i: nat, nlink: int): seq<Inode>
    requires i < |inodes|
  {
    inodes[i := inodes[i].(nlink := nlink)]
  }

  /** With a new inode i under the name in entry k of d. */
  function WithNew(inodes: seq<Inode>, d: nat, k: nat, name: string, i: nat, kind: Kind): (r: seq<Inode>)
    requires d < |inodes| && k <= |inodes[d].entries| && i < |inodes|
    ensures |r| == |inodes|
  {
    var dots := if kind == Dir then [Entry(".", i), Entry("..", d)] else [];
    var nlink := if kind == Dir then Short(inodes[d].nlink + 1) else inodes[d].nlink;
    inodes[i := Inode(kind, 1, dots)]
          [d := inodes[d].(entries := Put(inodes[d].entries, k, Entry(name, i)), nlink := nlink)]
  }

  lemma NewApart(inodes: seq<Inode>, d: nat, k: nat, name: string, i: nat, kind: Kind)
    requires d < |inodes| && i < |inodes| && i != d && NamesApart(inodes)
    requires FirstVacant(inodes[d].entries, k) && Lookup(inodes[d].entries, name, 0) == None
    ensures NamesApart(WithNew(inodes, d, k, name, i, kind))
  {
    PutDistinct(inodes[d].entries, k, Entry(name, i));
  }

  ghost function MorePlaces(places: seq<set<Place>>, d: nat, k: nat, i: nat, kind: Kind): seq<set<Place>>
    requires d < |places| && i < |places|
  {
    var more := places[i := {(d, k)}];
    if kind == Dir then more[d := more[d] + {(i, 1)}] else more
  }

  /** The directory is linked, and for one more ".." to it there is room in its count. */
  predicate CreateKeeps(inodes: seq<Inode>, dp: nat, kind: Kind) {
    Linked(inodes, dp) && (kind == Dir ==> inodes[dp].nlink < SHRT_MAX)
  }

  class Directories {
    var inodes: seq<Inode>
    var refs: seq<nat>
    ghost var pending: seq<nat>
    ghost var places: seq<set<Place>>
    ghost var home: map<nat, Place>

    ghost predicate Valid()
      reads this
    {
      AllGood(inodes, refs, pending, places, home)
    }

    /** The tree that mkfs starts from: the root directory alone. */
    constructor (n: nat)
      requires n > ROOT
      ensures Valid() && |inodes| == n && forall i | 0 <= i < n && i != ROOT :: inodes[i] == Inode(Unused, 0, [])
      ensures inodes[ROOT] == Inode(Dir, 1, [Entry(".", ROOT), Entry("..", ROOT)])
      ensures |refs| == n && (forall i | 0 <= i < n :: refs[i] == 0) && NamesApart(inodes)
    {
      inodes := seq(n, _ => Inode(Unused, 0, []))[ROOT := Inode(Dir, 1, [Entry(".", ROOT), Entry("..", ROOT)])];
      refs := seq(n, _ => 0);
      pending := seq(n, _ => 0);
      places := seq(n, _ => {})[ROOT := {(ROOT, 1)}];
      home := map[];
    }

    /** dirlookup: the first entry with this name. */
    method Dirlookup(dp: nat, name: string) returns (at: Option<nat>)
      requires dp < |inodes| && inodes[dp].kind == Dir
      ensures at == Lookup(inodes[dp].entries, name, 0)
    {
      var off := 0;
      while off < |inodes[dp].entries|
        invariant off <= |inodes[dp].entries|
        invariant Lookup(inodes[dp].entries, name, 0) == Lookup(inodes[dp].entries, name, off)
      {
        var de := inodes[dp].entries[off];
        if de.inum != 0 && de.name == name {
          return Some(off);
        }
        off := off + 1;
      }
      return None;
    }

    /** isdirempty. */
    method IsDirEmpty(dp: nat) returns (empty: bool)
      requires dp < |inodes|
      ensures empty <==> forall k | 2 <= k < |inodes[dp].entries| :: inodes[dp].entries[k].inum == 0
    {
      var off := 2;
      while off < |inodes[dp].entries|
        invariant off >= 2 && forall k | 2 <= k < off && k < |inodes[dp].entries| :: inodes[dp].entries[k].inum == 0
      {
        if inodes[dp].entries[off].inum != 0 {
          return false;
        }
        off := off + 1;
      }
      return true;
    }

    /** iget; it does not look whether the inode is in use. */
    method Iget(i: nat)
      requires Valid() && i < |inodes|
      modifies this`refs
      ensures Valid() && refs == old(refs)[i := old(refs)[i] + 1]
    {
      refs := refs[i := refs[i] + 1];
      forall j | 0 <= j < |inodes|
        ensures Good(inodes, refs, pending, places, home, j)
      {
        assert Good(inodes, old(refs), pending, places, home, j);
      }
    }

    /** iput.  An inode is freed only with its last reference, and when no entry of a
        linked directory names it. */
    method Iput(i: nat) returns (freed: bool)
      requires Valid() && i < |inodes| && refs[i] > 0
      modifies this`inodes, this`refs
      ensures Valid() && refs == old(refs)[i := old(refs)[i] - 1]
      ensures freed <==> refs[i] == 0 && old(inodes)[i].kind != Unused && old(inodes)[i].nlink == 0
      ensures freed ==>
                && (forall d: nat, k: nat :: !Counts(old(inodes), d, k, i))
                && inodes == old(inodes)[i := Inode(Unused, 0, [])]
      ensures !freed ==> inodes == old(inodes)
      ensures NamesApart(old(inodes)) ==> NamesApart(inodes)
    {
      hide Good, Named;
      freed := refs[i] == 1 && inodes[i].kind != Unused && inodes[i].nlink == 0;
      if freed {
        Release(inodes, refs, pending, places, home, i);
        inodes := inodes[i := Inode(Unused, 0, [])];
      } else {
        Fewer(inodes, refs, pending, places, home, i);
      }
      refs := refs[i := refs[i] - 1];
    }

    /** dirlink: a new entry in the first empty place, unless the name is there. */
    method Dirlink(dp: nat, name: string, inum: nat) returns (ok: bool, k: nat)
      requires dp < |inodes| && inodes[dp].kind == Dir
      modifies this`inodes
      ensures ok <==> Lookup(old(inodes)[dp].entries, name, 0) == None
      ensures ok ==>
                FirstVacant(old(inodes)[dp].entries, k) && inodes == WithEntry(old(inodes), dp, k, Entry(name, inum))
      ensures !ok ==> inodes == old(inodes)
      ensures NamesApart(old(inodes)) ==> NamesApart(inodes)
    {
      var at := Dirlookup(dp, name);
      if at.Some? {
        return false, 0;
      }
      var off := 0;
      while off < |inodes[dp].entries| && inodes[dp].entries[off].inum != 0
        invariant off <= |inodes[dp].entries| && forall j | 0 <= j < off :: inodes[dp].entries[j].inum != 0
      {
        off := off + 1;
      }
      if NamesApart(inodes) { PutDistinct(inodes[dp].entries, off, Entry(name, inum)); }
      inodes := inodes[dp := inodes[dp].(entries := Put(inodes[dp].entries, off, Entry(name, inum)))];
      return true, off;
    }

    /** sys_link, before it looks for the new name: false for a directory.  The count
        is a short, and stays right exactly if it has not reached the largest one. */
    method LinkStart(ip: nat) returns (ok: bool)
      requires Valid() && ip < |inodes| && inodes[ip].kind != Unused && refs[ip] > 0
      modifies this`inodes, this`pending
      ensures ok == (old(inodes)[ip].kind != Dir)
      ensures pending == if ok then old(pending)[ip := old(pending)[ip] + 1] else old(pending)
      ensures inodes == if ok then WithNlink(old(inodes), ip, Short(old(inodes)[ip].nlink + 1)) else old(inodes)
      ensures Valid() <==> (ok ==> old(inodes)[ip].nlink < SHRT_MAX)
      ensures Right(inodes, pending, ip) <==> (ok ==> old(inodes)[ip].nlink < SHRT_MAX)
      ensures NamesApart(old(inodes)) ==> NamesApart(inodes)
    {
      hide Distinct, Good, Named, Counts, LinksTo, Right;
      Facts(inodes, refs, pending, places, home, ip);
      if inodes[ip].kind == Dir {
        GoodRight(inodes, refs, pending, places, home, ip);
        return false;
      }
      if inodes[ip].nlink < SHRT_MAX {
        Recount(inodes, refs, pending, places, home, ip, 1);
      }
      inodes := inodes[ip := inodes[ip].(nlink := Short(inodes[ip].nlink + 1))];
      pending := pending[ip := pending[ip] + 1];
      if inodes[ip].nlink < 0 {
        NotRight(inodes, refs, pending, places, home, ip);
      } else {
        GoodRight(inodes, refs, pending, places, home, ip);
      }
      return true;
    }

    /** sys_link, with the directory of the new name locked, if there is one: the count
        taken at the start becomes an entry or is given back.  The code does not look
        whether that directory is linked, and the count stays right exactly if it is. */
    method LinkFinish(ip: nat, dp: Option<nat>, name: string) returns (ok: bool)
      requires Valid() && ip < |inodes| && inodes[ip].kind != Unused && refs[ip] > 0 && pending[ip] > 0
      requires dp.Some? ==> dp.value < |inodes| && inodes[dp.value].kind == Dir
      modifies this`inodes, this`pending, this`places
      ensures pending == old(pending)[ip := old(pending)[ip] - 1]
      ensures ok <==> dp.Some? && Lookup(old(inodes)[dp.value].entries, name, 0) == None
      ensures !ok ==> inodes == WithNlink(old(inodes), ip, old(inodes)[ip].nlink - 1)
      ensures ok ==>
                exists k: nat :: FirstVacant(old(inodes)[dp.value].entries, k) &&
                                 inodes == WithEntry(old(inodes), dp.value, k, Entry(name, ip))
      ensures Valid() <==> (ok ==> Linked(old(inodes), dp.value))
      ensures Right(inodes, pending, ip) <==> (ok ==> Linked(old(inodes), dp.value))
      ensures NamesApart(old(inodes)) ==> NamesApart(inodes)
    {
      hide Distinct, Good, Named, Counts, Vacant, WithEntry, LinksTo, Right;
      Facts(inodes, refs, pending, places, home, ip);
      if dp.Some? {
        var k;
        Facts(inodes, refs, pending, places, home, dp.value);
        ok, k := Dirlink(dp.value, name, ip);
        if ok {
          ghost var was := places;
          LinkKeepsIff(old(inodes), refs, pending, places, home, ip, dp.value, k, name);
          if Linked(old(inodes), dp.value) {
            LinkMade(old(inodes), refs, pending, places, home, ip, dp.value, k, name);
            places := places[ip := places[ip] + {(dp.value, k)}];
          }
          pending := pending[ip := pending[ip] - 1];
          if !Linked(old(inodes), dp.value) {
            NotGood(inodes, refs, pending, places, home, ip);
          }
          return;
        }
      }
      Recount(inodes, refs, pending, places, home, ip, -1);
      inodes := inodes[ip := inodes[ip].(nlink := inodes[ip].nlink - 1)];
      pending := pending[ip := pending[ip] - 1];
      GoodRight(inodes, refs, pending, places, home, ip);
      return false;
    }

    /** sys_unlink, in the directory dp.  The nlink panic does not happen; the inode is
        freed exactly when that was its last link and nobody refers to it. */
    method Unlink(dp: nat, name: string) returns (ok: bool, freed: bool, k: nat)
      requires Valid() && dp < |inodes| && inodes[dp].kind == Dir
      modifies this`inodes, this`refs, this`places
      ensures Valid() && refs == old(refs)
      ensures name != "." && name != ".." ==> !NlinkPanic(old(inodes), dp, name)
      ensures ok <==>
                && name != "." && name != ".." && Lookup(old(inodes)[dp].entries, name, 0) == Some(k)
                && Removable(old(inodes), dp, k)
      ensures name != "." && name != ".." && Lookup(old(inodes)[dp].entries, name, 0).Some? ==>
                k == Lookup(old(inodes)[dp].entries, name, 0).value
      ensures !ok ==> inodes == old(inodes)
      ensures ok ==> var i := old(inodes)[dp].entries[k].inum; var after := Unlinked(old(inodes), dp, k);
                && (freed <==> after[i].nlink == 0 && refs[i] == 0)
                && inodes == if freed then after[i := Inode(Unused, 0, [])] else after
      ensures NamesApart(old(inodes)) ==> NamesApart(inodes)
      ensures ok && NamesApart(old(inodes)) ==> Forgot(old(inodes)[dp].entries, inodes[dp].entries, name)
    {
      hide NamesApart, Forgot, Good, Named, Counts, Lookup, AllGood, LessPlaces;
      Sizes(inodes, refs, pending, places, home);
      if name == "." || name == ".." {
        return false, false, 0;
      }
      var at := Dirlookup(dp, name);
      if at == None {
        return false, false, |inodes[dp].entries|;
      }
      k := at.value;
      var ip := inodes[dp].entries[k].inum;
      Found(inodes, refs, pending, places, home, dp, k);
      Iget(ip);
      if inodes[ip].nlink < 1 {
        assert false;
      }
      if inodes[ip].kind == Dir {
        var empty := IsDirEmpty(ip);
        if !empty {
          var _ := Iput(ip);
          return false, false, k;
        }
      }
      Unlinking(inodes, refs, pending, places, home, dp, k);
      if NamesApart(inodes) { UnlinkForgets(inodes, dp, k, name); }
      Remove(dp, k);
      freed := Iput(ip);
      ok := true;
    }

    /** Its writes: the entry, ".." if the entry was a directory's, and the inode's count. */
    method Remove(dp: nat, k: nat)
      requires dp < |inodes| == |places| && k < |inodes[dp].entries| && inodes[dp].entries[k].inum < |inodes|
      modifies this`inodes, this`places
      ensures inodes == Unlinked(old(inodes), dp, k) && places == LessPlaces(old(inodes), old(places), dp, k)
    {
      places := LessPlaces(inodes, places, dp, k);
      var ip := inodes[dp].entries[k].inum;
      var isDir := inodes[ip].kind == Dir;
      inodes := inodes[dp := inodes[dp].(entries := inodes[dp].entries[k := Entry("", 0)])];
      if isDir {
        Overwrite(old(inodes), dp, inodes[dp], inodes[dp].(nlink := inodes[dp].nlink - 1));
        inodes := inodes[dp := inodes[dp].(nlink := inodes[dp].nlink - 1)];
      }
      inodes := inodes[ip := inodes[ip].(nlink := inodes[ip].nlink - 1)];
    }

    /** sys_link, for these names in a linked directory, one after the other. */
    method LinkMany(ip: nat, dp: nat, from: nat, to: nat, ghost keep: string)
      requires Valid() && ip < |inodes| && inodes[ip].kind == File && refs[ip] > 0 && Linked(inodes, dp)
      requires from <= to <= 40000 && inodes[ip].nlink + (to - from) <= SHRT_MAX && |keep| < 3
      requires forall t | from <= t < to :: Lookup(inodes[dp].entries, Name(t), 0) == None
      modifies this`inodes, this`pending, this`places
      ensures Valid() && |inodes| == |old(inodes)| && pending == old(pending)
      ensures inodes[ip].kind == File && inodes[ip].nlink == old(inodes)[ip].nlink + (to - from)
      ensures inodes[dp].kind == Dir && inodes[dp].nlink == old(inodes)[dp].nlink
      ensures forall i | 0 <= i < |inodes| && i != ip && i != dp :: inodes[i] == old(inodes)[i]
      ensures SameAt(old(inodes)[dp].entries, inodes[dp].entries, keep)
    {
      hide Good, Named, Counts, LinksTo, Right, Lookup, AllGood, SameAt;
      SameAtSelf(inodes[dp].entries, keep);
      var t := from;
      while t < to
        invariant from <= t <= to && Valid() && |inodes| == |old(inodes)| && pending == old(pending)
        invariant inodes[ip].kind == File && inodes[ip].nlink == old(inodes)[ip].nlink + (t - from)
        invariant inodes[dp].kind == Dir && inodes[dp].nlink == old(inodes)[dp].nlink
        invariant forall i | 0 <= i < |inodes| && i != ip && i != dp :: inodes[i] == old(inodes)[i]
        invariant forall u | t <= u < to :: Lookup(inodes[dp].entries, Name(u), 0) == None
        invariant SameAt(old(inodes)[dp].entries, inodes[dp].entries, keep)
      {
        ghost var was := inodes[dp].entries;
        LinkOne(ip, dp, Name(t));
        ghost var k: nat :| FirstVacant(was, k) && inodes[dp].entries == Put(was, k, Entry(Name(t), ip));
        forall u | t < u < to ensures Lookup(inodes[dp].entries, Name(u), 0) == None {
          NameApart(t, u);
          LookupPut(was, k, Entry(Name(t), ip), Name(u), 0);
        }
        SameAtPut(old(inodes)[dp].entries, was, k, Entry(Name(t), ip), keep);
        t := t + 1;
      }
    }

    /** sys_link as a whole, to a new name in a linked directory. */
    method LinkOne(ip: nat, dp: nat, name: string)
      requires Valid() && ip < |inodes| && inodes[ip].kind == File && refs[ip] > 0 && inodes[ip].nlink < SHRT_MAX
      requires Linked(inodes, dp) && Lookup(inodes[dp].entries, name, 0) == None
      modifies this`inodes, this`pending, this`places
      ensures Valid() && |inodes| == |old(inodes)| && pending == old(pending)
      ensures inodes[ip] == old(inodes)[ip].(nlink := old(inodes)[ip].nlink + 1)
      ensures inodes[dp].kind == Dir && inodes[dp].nlink == old(inodes)[dp].nlink
      ensures forall i | 0 <= i < |inodes| && i != ip && i != dp :: inodes[i] == old(inodes)[i]
      ensures exists k: nat :: FirstVacant(old(inodes)[dp].entries, k) &&
                               inodes[dp].entries == Put(old(inodes)[dp].entries, k, Entry(name, ip))
    {
      hide Good, Named, Counts, LinksTo, Right, Lookup, AllGood;
      Sizes(inodes, refs, pending, places, home);
      Facts(inodes, refs, pending, places, home, ip);
      var _ := LinkStart(ip);
      var _ := LinkFinish(ip, Some(dp), name);
      assert pending == old(pending);
    }

    /** ialloc's search. */
    method Ialloc() returns (i: nat)
      requires Valid()
      ensures 0 < i <= |inodes| && (i < |inodes| ==> inodes[i].kind == Unused)
      ensures forall j | 1 <= j < i :: inodes[j].kind != Unused
    {
      i := 1;
      while i < |inodes|
        invariant 1 <= i <= |inodes| && forall j | 1 <= j < i :: inodes[j].kind != Unused
      {
        if inodes[i].kind == Unused {
          return;
        }
        i := i + 1;
      }
    }

    /** create, in the directory dp: a new inode under a new name, or the file that is
        there already.  The code looks neither whether dp is linked nor at the size of
        its count; the counts stay right exactly if both are in order. */
    method Create(dp: nat, name: string, kind: Kind) returns (result: Created)
      requires Valid() && dp < |inodes| && inodes[dp].kind == Dir && kind != Unused
      modifies this
      ensures |pending| == |inodes| == |old(inodes)|
      ensures Valid() <==> (result.Made? ==> CreateKeeps(old(inodes), dp, kind))
      ensures AllRight(inodes, pending) <==> (result.Made? ==> CreateKeeps(old(inodes), dp, kind))
      ensures var at := Lookup(old(inodes)[dp].entries, name, 0);
              if at.None? then
                && (result.Made? <==> !Full(old(inodes))) && (result.Panic? <==> Full(old(inodes)))
              else
                var found := old(inodes)[dp].entries[at.value].inum;
                && found < |old(inodes)|
                && (result.Panic? <==> old(inodes)[found].kind == Unused)
                && (result.Exists? <==> kind == File && old(inodes)[found].kind in {File, Device})
                && (result.Refused? <==> old(inodes)[found].kind != Unused && !result.Exists?)
                && (result.Exists? ==> result.inum == found)
                && (Linked(old(inodes), dp) ==> !result.Panic?)
      ensures result.Made? ==>
                && FirstVacant(old(inodes)[dp].entries, result.at) && result.inum != dp
                && 0 < result.inum < |old(inodes)| && old(inodes)[result.inum].kind == Unused
                && (forall j | 1 <= j < result.inum :: old(inodes)[j].kind != Unused)
                && inodes == WithNew(old(inodes), dp, result.at, name, result.inum, kind)
      ensures !result.Made? ==> inodes == old(inodes)
      ensures refs == if result.Made? || result.Exists? then old(refs)[result.inum := old(refs)[result.inum] + 1]
                      else old(refs)
      ensures NamesApart(old(inodes)) ==> NamesApart(inodes)
    {
      hide Distinct, Good, Named, Counts, Vacant, Right, LinksTo;
      Facts(inodes, refs, pending, places, home, dp);
      ValidRight(inodes, refs, pending, places, home);
      var at := Dirlookup(dp, name);
      if at.Some? {
        var found := inodes[dp].entries[at.value].inum;
        Existing(inodes, refs, pending, places, home, dp, at.value);
        if inodes[found].kind == Unused {
          return Panic;
        }
        Facts(inodes, refs, pending, places, home, found);
        Iget(found);
        if kind == File && (inodes[found].kind == File || inodes[found].kind == Device) {
          return Exists(found);
        }
        var _ := Iput(found);
        return Refused;
      }
      result := CreateNew(dp, name, kind);
    }

    /** create, once it knows that the name is free. */
    method CreateNew(dp: nat, name: string, kind: Kind) returns (result: Created)
      requires Valid() && dp < |inodes| && inodes[dp].kind == Dir && kind != Unused
               && Lookup(inodes[dp].entries, name, 0) == None
      modifies this
      ensures |pending| == |inodes| == |old(inodes)| && (result.Made? || result.Panic?)
      ensures Valid() <==> (result.Made? ==> CreateKeeps(old(inodes), dp, kind))
      ensures AllRight(inodes, pending) <==> (result.Made? ==> CreateKeeps(old(inodes), dp, kind))
      ensures result.Made? ==>
                && FirstVacant(old(inodes)[dp].entries, result.at) && result.inum != dp
                && 0 < result.inum < |old(inodes)| && old(inodes)[result.inum].kind == Unused
                && (forall j | 1 <= j < result.inum :: old(inodes)[j].kind != Unused)
                && inodes == WithNew(old(inodes), dp, result.at, name, result.inum, kind)
                && refs == old(refs)[result.inum := old(refs)[result.inum] + 1]
      ensures result.Panic? ==> inodes == old(inodes) && refs == old(refs)
      ensures result.Panic? <==> Full(old(inodes))
      ensures NamesApart(old(inodes)) ==> NamesApart(inodes)
    {
      hide NamesApart, Good, Named, Counts, Vacant, Right, LinksTo, AllRight, MorePlaces, WithNew;
      Facts(inodes, refs, pending, places, home, dp);
      ValidRight(inodes, refs, pending, places, home);
      var ip := Ialloc();
      if ip == |inodes| {
        return Panic;
      }
      var k := Fill(dp, name, ip, kind);
      ghost var keeps := CreateKeeps(old(inodes), dp, kind);
      if keeps {
        Creating(old(inodes), refs, pending, places, home, dp, k, name, ip, kind);
      } else {
        CreateBreaks(old(inodes), refs, pending, places, home, dp, k, name, ip, kind);
      }
      refs := refs[ip := refs[ip] + 1];
      home := if kind == Dir then home[ip := (dp, k)] else home;
      places := MorePlaces(places, dp, k, ip, kind);
      if keeps {
        ValidRight(inodes, refs, pending, places, home);
      } else {
        NotAllGood(inodes, refs, pending, places, home);
      }
      return Made(ip, k);
    }

    /** The writes of create, once it has its inode. */
    method Fill(dp: nat, name: string, ip: nat, kind: Kind) returns (k: nat)
      requires dp < |inodes| && 0 < ip < |inodes| && ip != dp && inodes[dp].kind == Dir
               && Lookup(inodes[dp].entries, name, 0) == None
      modifies this`inodes
      ensures FirstVacant(old(inodes)[dp].entries, k) && inodes == WithNew(old(inodes), dp, k, name, ip, kind)
      ensures NamesApart(old(inodes)) ==> NamesApart(inodes)
    {
      hide NamesApart;
      inodes := inodes[ip := Inode(kind, 0, [])];
      inodes := inodes[ip := inodes[ip].(nlink := 1)];
      if kind == Dir {
        inodes := inodes[dp := inodes[dp].(nlink := Short(inodes[dp].nlink + 1))];
        var _, _ := Dirlink(ip, ".", ip);
        var _, _ := Dirlink(ip, "..", dp);
        assert inodes[ip].entries == [Entry(".", ip), Entry("..", dp)];
      }
      assert forall j | 0 <= j < |inodes| && j != ip && j != dp :: inodes[j] == old(inodes)[j];
      var ok;
      ok, k := Dirlink(dp, name, ip);
      if NamesApart(old(inodes)) { NewApart(old(inodes), dp, k, name, ip, kind); }
    }
  }

  ghost predicate AllGood(inodes: seq<Inode>, refs: seq<nat>, pending: seq<nat>, places: seq<set<Place>>,
                          home: map<nat, Place>) {
    && |inodes| == |refs| == |pending| == |places| && |inodes| > ROOT && Linked(inodes, ROOT)
      && inodes[0].kind == Unused
    && (forall i | 0 <= i < |inodes| :: Good(inodes, refs, pending, places, home, i))
    && (forall d, k | 0 <= d < |inodes| && 0 <= k < |inodes[d].entries| :: Named(inodes, home, d, k))
  }

  lemma Fewer(inodes: seq<Inode>, refs: seq<nat>, pending: seq<nat>, places: seq<set<Place>>, home: map<nat, Place>,
              i: nat)
    requires AllGood(inodes, refs, pending, places, home) && i < |inodes| && refs[i] > 0
             && !(refs[i] == 1 && inodes[i].kind != Unused && inodes[i].nlink == 0)
    ensures AllGood(inodes, refs[i := refs[i] - 1], pending, places, home)
  {
    var refs' := refs[i := refs[i] - 1];
    forall j | 0 <= j < |inodes|
      ensures Good(inodes, refs', pending, places, home, j)
    {
      assert Good(inodes, refs, pending, places, home, j) && Good(inodes, refs, pending, places, home, i);
    }
  }

  lemma Sizes(inodes: seq<Inode>, refs: seq<nat>, pending: seq<nat>, places: seq<set<Place>>, home: map<nat, Place>)
    requires AllGood(inodes, refs, pending, places, home)
    ensures |inodes| == |refs| == |pending| == |places|
  {
  }

  /** No entry that counts names an inode whose nlink is 0. */
  lemma NotNamed(inodes: seq<Inode>, refs: seq<nat>, pending: seq<nat>, places: seq<set<Place>>, home: map<nat, Place>,
                 i: nat, d: nat, k: nat)
    requires AllGood(inodes, refs, pending, places, home) && 0 < i < |inodes| && inodes[i].nlink == 0
    ensures !Counts(inodes, d, k, i)
    ensures d < |inodes| && k < |inodes[d].entries| && Linked(inodes, d) ==> inodes[d].entries[k].inum != i
  {
    assert Good(inodes, refs, pending, places, home, i);
    assert (d, k) !in places[i];
    if Linked(inodes, d) {
      assert Good(inodes, refs, pending, places, home, d);
    }
  }

  lemma Release(inodes: seq<Inode>, refs: seq<nat>, pending: seq<nat>, places: seq<set<Place>>, home: map<nat, Place>,
                i: nat)
    requires AllGood(inodes, refs, pending, places, home) && i < |inodes| && inodes[i].kind != Unused
    requires refs[i] == 1 && inodes[i].nlink == 0
    ensures forall d: nat, k: nat :: !Counts(inodes, d, k, i)
    ensures AllGood(inodes[i := Inode(Unused, 0, [])], refs[i := refs[i] - 1], pending, places, home)
  {
    var inodes', refs' := inodes[i := Inode(Unused, 0, [])], refs[i := refs[i] - 1];
    forall d: nat, k: nat
      ensures !Counts(inodes, d, k, i)
      ensures forall j :: Counts(inodes', d, k, j) <==> Counts(inodes, d, k, j)
    {
      NotNamed(inodes, refs, pending, places, home, i, d, k);
    }
    forall j | 0 <= j < |inodes|
      ensures Good(inodes', refs', pending, places, home, j)
    {
      assert Good(inodes, refs, pending, places, home, j) && Good(inodes, refs, pending, places, home, i);
    }
    forall d, k | 0 <= d < |inodes'| && 0 <= k < |inodes'[d].entries|
      ensures Named(inodes', home, d, k)
    {
      assert Named(inodes, home, d, k);
      NotNamed(inodes, refs, pending, places, home, i, d, k);
    }
  }

  /** In a good state the ghost places are the entries that count. */
  lemma GoodRight(inodes: seq<Inode>, refs: seq<nat>, pending: seq<nat>, places: seq<set<Place>>, home: map<nat, Place>,
                  i: nat)
    requires AllGood(inodes, refs, pending, places, home) && 0 < i < |inodes|
    ensures Right(inodes, pending, i) && LinksTo(inodes, i) == places[i]
  {
    assert Good(inodes, refs, pending, places, home, i);
    forall p: Place
      ensures p in LinksTo(inodes, i) <==> p in places[i]
    {
      assert p == (p.0, p.1);
    }
    assert LinksTo(inodes, i) == places[i];
  }

  lemma ValidRight(inodes: seq<Inode>, refs: seq<nat>, pending: seq<nat>, places: seq<set<Place>>,
                   home: map<nat, Place>)
    requires AllGood(inodes, refs, pending, places, home)
    ensures AllRight(inodes, pending)
  {
    forall i | 0 < i < |inodes| ensures Right(inodes, pending, i) {
      GoodRight(inodes, refs, pending, places, home, i);
    }
  }

  lemma NotGood(inodes: seq<Inode>, refs: seq<nat>, pending: seq<nat>, places: seq<set<Place>>, home: map<nat, Place>,
                i: nat)
    requires 0 < i < |inodes| == |pending| && !Right(inodes, pending, i)
    ensures !AllGood(inodes, refs, pending, places, home)
  {
    if AllGood(inodes, refs, pending, places, home) {
      GoodRight(inodes, refs, pending, places, home, i);
    }
  }

  lemma NotAllGood(inodes: seq<Inode>, refs: seq<nat>, pending: seq<nat>, places: seq<set<Place>>,
                   home: map<nat, Place>)
    requires !AllRight(inodes, pending)
    ensures !AllGood(inodes, refs, pending, places, home)
  {
    if AllGood(inodes, refs, pending, places, home) {
      ValidRight(inodes, refs, pending, places, home);
    }
  }

  lemma NotRight(inodes: seq<Inode>, refs: seq<nat>, pending: seq<nat>, places: seq<set<Place>>, home: map<nat, Place>,
                 i: nat)
    requires 0 < i < |inodes| == |pending| && inodes[i].nlink < 0
    ensures !Right(inodes, pending, i) && !AllGood(inodes, refs, pending, places, home)
  {
    NotGood(inodes, refs, pending, places, home, i);
  }

  /** The nlink of a file changes with the links on their way. */
  lemma Recount(inodes: seq<Inode>, refs: seq<nat>, pending: seq<nat>, places: seq<set<Place>>, home: map<nat, Place>,
                i: nat, step: int)
    requires AllGood(inodes, refs, pending, places, home) && i < |inodes| && inodes[i].kind != Unused
             && inodes[i].kind != Dir
    requires refs[i] > 0 && pending[i] + step >= 0 && inodes[i].nlink + step <= SHRT_MAX
    ensures AllGood(inodes[i := inodes[i].(nlink := inodes[i].nlink + step)], refs, pending[i := pending[i] + step],
            places, home)
  {
    var inodes', pending' := inodes[i := inodes[i].(nlink := inodes[i].nlink + step)], pending[i := pending[i] + step];
    forall d: nat, k: nat, j: nat
      ensures Counts(inodes', d, k, j) <==> Counts(inodes, d, k, j)
    {
    }
    forall j | 0 <= j < |inodes|
      ensures Good(inodes', refs, pending', places, home, j)
    {
      assert Good(inodes, refs, pending, places, home, j);
    }
    forall d, k | 0 <= d < |inodes'| && 0 <= k < |inodes'[d].entries|
      ensures Named(inodes', home, d, k)
    {
      assert Named(inodes, home, d, k);
    }
  }

  lemma Facts(inodes: seq<Inode>, refs: seq<nat>, pending: seq<nat>, places: seq<set<Place>>, home: map<nat, Place>,
              i: nat)
    requires AllGood(inodes, refs, pending, places, home) && i < |inodes|
    ensures 0 <= inodes[i].nlink <= SHRT_MAX && (pending[i] > 0 ==> inodes[i].kind != Dir)
    ensures inodes[i].kind != Unused ==> i != 0 && (inodes[i].nlink == 0 ==> refs[i] > 0)
    ensures inodes[i].kind == Dir ==> var e := inodes[i].entries;
              |e| >= 2 && e[0] == Entry(".", i) && e[1].name == ".." && e[1].inum != 0
  {
    assert Good(inodes, refs, pending, places, home, i);
  }

  /** The first two entries of a linked directory are in use. */
  lemma NotDots(inodes: seq<Inode>, refs: seq<nat>, pending: seq<nat>, places: seq<set<Place>>, home: map<nat, Place>,
                d: nat, k: nat)
    requires AllGood(inodes, refs, pending, places, home) && Linked(inodes, d) && Vacant(inodes[d].entries, k)
    ensures k >= 2
  {
    assert Good(inodes, refs, pending, places, home, d);
  }

  lemma LinkMade(inodes: seq<Inode>, refs: seq<nat>, pending: seq<nat>, places: seq<set<Place>>, home: map<nat, Place>,
                 i: nat, d: nat, k: nat, name: string)
    requires AllGood(inodes, refs, pending, places, home) && 0 < i < |inodes| && inodes[i].kind != Unused
             && inodes[i].kind != Dir
    requires pending[i] > 0 && Linked(inodes, d) && Vacant(inodes[d].entries, k) && name != "." && name != ".."
    ensures AllGood(WithEntry(inodes, d, k, Entry(name, i)), refs, pending[i := pending[i] - 1],
            places[i := places[i] + {(d, k)}], home)
  {
    hide Counts, Named;
    NotDots(inodes, refs, pending, places, home, d, k);
    var inodes', pending', places' := WithEntry(inodes, d, k, Entry(name, i)), pending[i := pending[i] - 1],
      places[i := places[i] + {(d, k)}];
    CountsMore(inodes, d, k, Entry(name, i));
    forall j | 0 <= j < |inodes|
      ensures Good(inodes', refs, pending', places', home, j)
    {
      assert Good(inodes, refs, pending, places, home, j);
    }
    MoreNamed(inodes, home, d, k, Entry(name, i));
  }

  lemma MoreNamed(inodes: seq<Inode>, home: map<nat, Place>, d: nat, k: nat, e: Entry)
    requires d < |inodes| && Vacant(inodes[d].entries, k) && 0 < e.inum < |inodes|
    requires inodes[e.inum].kind != Unused && inodes[e.inum].kind != Dir
    requires forall c, l | 0 <= c < |inodes| && 0 <= l < |inodes[c].entries| :: Named(inodes, home, c, l)
    ensures var inodes' := WithEntry(inodes, d, k, e);
            forall c, l | 0 <= c < |inodes'| && 0 <= l < |inodes'[c].entries| :: Named(inodes', home, c, l)
  {
    var inodes' := WithEntry(inodes, d, k, e);
    forall c, l | 0 <= c < |inodes'| && 0 <= l < |inodes'[c].entries|
      ensures Named(inodes', home, c, l)
    {
      assert (c, l) != (d, k) ==> Named(inodes, home, c, l);
    }
  }

  lemma CountsMore(inodes: seq<Inode>, d: nat, k: nat, e: Entry)
    requires Linked(inodes, d) && Vacant(inodes[d].entries, k) && e.name != "." && e.inum != 0
    ensures forall c: nat, l: nat, j: nat | j != 0 ::
              Counts(WithEntry(inodes, d, k, e), c, l, j) <==>
                Counts(inodes, c, l, j) || (c == d && l == k && j == e.inum)
    ensures !Counts(inodes, d, k, e.inum)
  {
  }

  /** What sys_unlink finds is a link that counts. */
  lemma Found(inodes: seq<Inode>, refs: seq<nat>, pending: seq<nat>, places: seq<set<Place>>, home: map<nat, Place>,
              d: nat, k: nat)
    requires AllGood(inodes, refs, pending, places, home) && d < |inodes| && inodes[d].kind == Dir
    requires k < |inodes[d].entries| && inodes[d].entries[k].inum != 0 && inodes[d].entries[k].name != "."
             && inodes[d].entries[k].name != ".."
    ensures Linked(inodes, d) && k >= 2
    ensures var i := inodes[d].entries[k].inum;
            i < |inodes| && inodes[i].kind != Unused && (d, k) in places[i] && inodes[i].nlink >= 1
  {
    assert Good(inodes, refs, pending, places, home, d);
    assert Named(inodes, home, d, k);
    var i := inodes[d].entries[k].inum;
    assert Good(inodes, refs, pending, places, home, i);
    assert Counts(inodes, d, k, i);
  }

  lemma Unlinking(inodes: seq<Inode>, refs: seq<nat>, pending: seq<nat>, places: seq<set<Place>>, home: map<nat, Place>,
                  d: nat, k: nat)
    requires AllGood(inodes, refs, pending, places, home) && Removable(inodes, d, k) && inodes[d].kind == Dir
    requires inodes[d].entries[k].inum != 0 && inodes[d].entries[k].name != "." && inodes[d].entries[k].name != ".."
    requires refs[inodes[d].entries[k].inum] > 0
    ensures AllGood(Unlinked(inodes, d, k), refs, pending, LessPlaces(inodes, places, d, k), home)
  {
    Found(inodes, refs, pending, places, home, d, k);
    var i := inodes[d].entries[k].inum;
    if inodes[i].kind == Dir {
      UnlinkDir(inodes, refs, pending, places, home, d, k, i);
    } else {
      UnlinkFile(inodes, refs, pending, places, home, d, k, i);
    }
  }

  lemma UnlinkFile(inodes: seq<Inode>, refs: seq<nat>, pending: seq<nat>, places: seq<set<Place>>,
                   home: map<nat, Place>, d: nat, k: nat, i: nat)
    requires AllGood(inodes, refs, pending, places, home) && Linked(inodes, d) && 2 <= k < |inodes[d].entries|
    requires i == inodes[d].entries[k].inum && 0 < i < |inodes| && inodes[i].kind != Dir && inodes[i].kind != Unused
             && refs[i] > 0
    requires (d, k) in places[i]
    ensures AllGood(Unlinked(inodes, d, k), refs, pending, LessPlaces(inodes, places, d, k), home)
  {
    var inodes', places' := Unlinked(inodes, d, k), LessPlaces(inodes, places, d, k);
    forall c: nat, l: nat, j: nat | j != 0
      ensures Counts(inodes', c, l, j) <==> Counts(inodes, c, l, j) && !(c == d && l == k)
    {
    }
    forall j | 0 <= j < |inodes|
      ensures Good(inodes', refs, pending, places', home, j)
    {
      assert Good(inodes, refs, pending, places, home, j);
      if inodes[j].kind == Dir && inodes[j].nlink > 0 && j != ROOT {
        assert home[j] != (d, k);
      }
    }
    LessNamed(inodes, home, d, k);
  }

  /** An empty directory has one link, its parent's entry, and its parent has another
      link besides its "..". */
  lemma EmptyDir(inodes: seq<Inode>, refs: seq<nat>, pending: seq<nat>, places: seq<set<Place>>, home: map<nat, Place>,
                 d: nat, k: nat, i: nat)
    requires AllGood(inodes, refs, pending, places, home) && Linked(inodes, d) && 2 <= k < |inodes[d].entries|
    requires i == inodes[d].entries[k].inum && 0 < i < |inodes| && inodes[i].kind == Dir && (d, k) in places[i]
    requires forall l | 2 <= l < |inodes[i].entries| :: inodes[i].entries[l].inum == 0
    ensures i != ROOT && i != d && i in home && home[i] == (d, k) && inodes[i].nlink == 1 && places[i] == {(d, k)}
    ensures (i, 1) in places[d] && inodes[d].nlink >= 2
  {
    assert Good(inodes, refs, pending, places, home, i) && Good(inodes, refs, pending, places, home, d);
    assert Named(inodes, home, d, k);
    assert inodes[i].nlink > 0 by {
      assert |places[i]| > 0;
    }
    forall p: Place | p in places[i]
      ensures p == (d, k)
    {
      var (c, l) := p;
      assert Counts(inodes, c, l, i) && Named(inodes, home, c, l);
      assert Good(inodes, refs, pending, places, home, c);
    }
    assert places[i] == {(d, k)};
    assert Counts(inodes, i, 1, d);
    var other := if d == ROOT then (ROOT, 1) else home[d];
    assert Counts(inodes, other.0, other.1, d);
    assert {(i, 1), other} <= places[d];
    SubsetSize({(i, 1), other}, places[d]);
  }

  lemma UnlinkDir(inodes: seq<Inode>, refs: seq<nat>, pending: seq<nat>, places: seq<set<Place>>, home: map<nat, Place>,
                  d: nat, k: nat, i: nat)
    requires AllGood(inodes, refs, pending, places, home) && Linked(inodes, d) && 2 <= k < |inodes[d].entries|
    requires i == inodes[d].entries[k].inum && 0 < i < |inodes| && inodes[i].kind == Dir && (d, k) in places[i]
             && refs[i] > 0
    requires forall l | 2 <= l < |inodes[i].entries| :: inodes[i].entries[l].inum == 0
    ensures AllGood(Unlinked(inodes, d, k), refs, pending, LessPlaces(inodes, places, d, k), home)
  {
    hide Good, Counts, Named;
    EmptyDir(inodes, refs, pending, places, home, d, k, i);
    var inodes', places' := Unlinked(inodes, d, k), LessPlaces(inodes, places, d, k);
    assert Good(inodes, refs, pending, places, home, i) && Good(inodes, refs, pending, places, home, d);
    LessCounts(inodes, refs, pending, places, home, d, k, i);
    forall j | 0 <= j < |inodes|
      ensures Good(inodes', refs, pending, places', home, j)
    {
      UnlinkedGood(inodes, refs, pending, places, home, d, k, i, j);
    }
    LessNamed(inodes, home, d, k);
  }

  lemma LessCounts(inodes: seq<Inode>, refs: seq<nat>, pending: seq<nat>, places: seq<set<Place>>,
                   home: map<nat, Place>, d: nat, k: nat, i: nat)
    requires |inodes| == |refs| == |pending| == |places| && Linked(inodes, d) && 2 <= k < |inodes[d].entries|
    requires i == inodes[d].entries[k].inum && 0 < i < |inodes| && inodes[i].kind == Dir && i != d
    requires inodes[i].nlink == 1 && inodes[d].nlink >= 2 && Good(inodes, refs, pending, places, home, i)
    requires forall l | 2 <= l < |inodes[i].entries| :: inodes[i].entries[l].inum == 0
    ensures forall c: nat, l: nat, j: nat | j != 0 :: Counts(Unlinked(inodes, d, k), c, l, j) <==>
              Counts(inodes, c, l, j) && !(c == d && l == k) && !(c == i && l == 1)
  {
  }

  lemma UnlinkedGood(inodes: seq<Inode>, refs: seq<nat>, pending: seq<nat>, places: seq<set<Place>>,
                     home: map<nat, Place>, d: nat, k: nat, i: nat, j: nat)
    requires |inodes| == |refs| == |pending| == |places| && Linked(inodes, d) && 2 <= k < |inodes[d].entries|
    requires i == inodes[d].entries[k].inum && 0 < i < |inodes| && inodes[i].kind == Dir && i != d && i != ROOT
    requires inodes[i].nlink == 1 && inodes[d].nlink >= 2 && refs[i] > 0 && inodes[0].kind == Unused
    requires i in home && home[i] == (d, k) && places[i] == {(d, k)} && (i, 1) in places[d]
    requires forall l | 2 <= l < |inodes[i].entries| :: inodes[i].entries[l].inum == 0
    requires Good(inodes, refs, pending, places, home, i) && Good(inodes, refs, pending, places, home, d)
    requires forall c: nat, l: nat, j: nat | j != 0 :: Counts(Unlinked(inodes, d, k), c, l, j) <==>
               Counts(inodes, c, l, j) && !(c == d && l == k) && !(c == i && l == 1)
    requires j < |inodes| && Good(inodes, refs, pending, places, home, j)
    ensures Good(Unlinked(inodes, d, k), refs, pending, LessPlaces(inodes, places, d, k), home, j)
  {
    hide Counts;
    assert Counts(inodes, d, k, i) && Counts(inodes, i, 1, d);
    if j != i && j != 0 {
      OneTarget(inodes, d, k, i, j);
      OneTarget(inodes, i, 1, d, j);
    }
  }

  /** An entry counts for one inode only. */
  lemma OneTarget(inodes: seq<Inode>, c: nat, l: nat, i: nat, j: nat)
    requires Counts(inodes, c, l, i)
    ensures Counts(inodes, c, l, j) <==> j == i
  {
  }

  lemma LessNamed(inodes: seq<Inode>, home: map<nat, Place>, d: nat, k: nat)
    requires d < |inodes| && k < |inodes[d].entries| && inodes[d].entries[k].inum < |inodes|
    requires forall c, l | 0 <= c < |inodes| && 0 <= l < |inodes[c].entries| :: Named(inodes, home, c, l)
    ensures var inodes' := Unlinked(inodes, d, k);
            forall c, l | 0 <= c < |inodes'| && 0 <= l < |inodes'[c].entries| :: Named(inodes', home, c, l)
  {
    var inodes' := Unlinked(inodes, d, k);
    forall c, l | 0 <= c < |inodes'| && 0 <= l < |inodes'[c].entries|
      ensures Named(inodes', home, c, l)
    {
      assert Named(inodes, home, c, l);
    }
  }

  lemma Existing(inodes: seq<Inode>, refs: seq<nat>, pending: seq<nat>, places: seq<set<Place>>, home: map<nat, Place>,
                 d: nat, k: nat)
    requires AllGood(inodes, refs, pending, places, home) && d < |inodes| && inodes[d].kind == Dir
    requires k < |inodes[d].entries| && inodes[d].entries[k].inum != 0
    ensures var i := inodes[d].entries[k].inum; i < |inodes| && (Linked(inodes, d) ==> inodes[i].kind != Unused)
  {
    assert Named(inodes, home, d, k);
    assert Good(inodes, refs, pending, places, home, d);
  }

  lemma Creating(inodes: seq<Inode>, refs: seq<nat>, pending: seq<nat>, places: seq<set<Place>>, home: map<nat, Place>,
                 d: nat, k: nat, name: string, i: nat, kind: Kind)
    requires AllGood(inodes, refs, pending, places, home) && CreateKeeps(inodes, d, kind)
             && Vacant(inodes[d].entries, k)
    requires 0 < i < |inodes| && inodes[i].kind == Unused && kind != Unused && name != "." && name != ".."
    ensures AllGood(WithNew(inodes, d, k, name, i, kind), refs[i := refs[i] + 1], pending,
            MorePlaces(places, d, k, i, kind),
                    if kind == Dir then home[i := (d, k)] else home)
  {
    hide Good, Named, Counts;
    NotDots(inodes, refs, pending, places, home, d, k);
    var inodes', refs', places' := WithNew(inodes, d, k, name, i, kind), refs[i := refs[i] + 1],
      MorePlaces(places, d, k, i, kind);
    var home' := if kind == Dir then home[i := (d, k)] else home;
    UnusedUnlinked(inodes, refs, pending, places, home, i);
    forall c: nat, l: nat
      ensures !Counts(inodes, c, l, i)
    {
      NotNamed(inodes, refs, pending, places, home, i, c, l);
    }
    NewCounts(inodes, d, k, name, i, kind);
    forall j | 0 <= j < |inodes|
      ensures Good(inodes', refs', pending, places', home', j)
    {
      CreatedGood(inodes, refs, pending, places, home, d, k, name, i, kind, j);
    }
    NewNamed(inodes, home, d, k, name, i, kind);
  }

  lemma UnusedUnlinked(inodes: seq<Inode>, refs: seq<nat>, pending: seq<nat>, places: seq<set<Place>>,
                       home: map<nat, Place>, i: nat)
    requires AllGood(inodes, refs, pending, places, home) && i < |inodes| && inodes[i].kind == Unused
    ensures inodes[i].nlink == 0 && places[i] == {} && pending[i] == 0
  {
    assert Good(inodes, refs, pending, places, home, i);
  }

  lemma CreatedGood(inodes: seq<Inode>, refs: seq<nat>, pending: seq<nat>, places: seq<set<Place>>,
                    home: map<nat, Place>, d: nat, k: nat, name: string, i: nat, kind: Kind, j: nat)
    requires |inodes| == |refs| == |pending| == |places| && CreateKeeps(inodes, d, kind) && k >= 2
             && Vacant(inodes[d].entries, k)
    requires 0 < i < |inodes| && inodes[i].kind == Unused && kind != Unused && name != "." && name != ".."
    requires j < |inodes| && Good(inodes, refs, pending, places, home, j) && Linked(inodes, ROOT)
             && inodes[0].kind == Unused
    requires Good(inodes, refs, pending, places, home, i) && Good(inodes, refs, pending, places, home, d)
    requires forall c: nat, l: nat, j: nat | j != 0 :: Counts(WithNew(inodes, d, k, name, i, kind), c, l, j) <==>
               Counts(inodes, c, l, j) || (c == d && l == k && j == i) || (kind == Dir && c == i && l == 1 && j == d)
    requires forall l: nat, j: nat :: !Counts(inodes, i, l, j)
    requires (forall c: nat, l: nat :: !Counts(inodes, c, l, i)) && forall j: nat | j != 0 :: !Counts(inodes, d, k, j)
    ensures Good(WithNew(inodes, d, k, name, i, kind), refs[i := refs[i] + 1], pending,
                 MorePlaces(places, d, k, i, kind), if kind == Dir then home[i := (d, k)] else home, j)
  {
    hide Counts;
  }

  /** The entries of linked directories that create leaves alone count as before. */
  lemma CountsStill(inodes: seq<Inode>, d: nat, k: nat, name: string, i: nat, kind: Kind, c: nat, l: nat, j: nat)
    requires d < |inodes| && i < |inodes| && Vacant(inodes[d].entries, k) && c != d && c != i
    ensures Counts(WithNew(inodes, d, k, name, i, kind), c, l, j) <==> Counts(inodes, c, l, j)
  {
  }

  /** In an unlinked directory, a new file has an entry that does not count. */
  lemma NewFileWrong(inodes: seq<Inode>, refs: seq<nat>, pending: seq<nat>, places: seq<set<Place>>,
                     home: map<nat, Place>, d: nat, k: nat, name: string, i: nat, kind: Kind)
    requires AllGood(inodes, refs, pending, places, home) && d < |inodes| && inodes[d].kind == Dir && !Linked(inodes, d)
    requires 0 < i < |inodes| && i != d && inodes[i].kind == Unused && kind != Dir && Vacant(inodes[d].entries, k)
    ensures !Right(WithNew(inodes, d, k, name, i, kind), pending, i)
  {
    var inodes' := WithNew(inodes, d, k, name, i, kind);
    assert Good(inodes, refs, pending, places, home, i);
    Facts(inodes, refs, pending, places, home, d);
    forall p | p in LinksTo(inodes', i) ensures false {
      CountsStill(inodes, d, k, name, i, kind, p.0, p.1, i);
      NotNamed(inodes, refs, pending, places, home, i, p.0, p.1);
    }
    assert LinksTo(inodes', i) == {};
  }

  /** A new directory links its unlinked parent again, whose ".." then counts once more
      for a directory that has given up that link. */
  lemma NewDirWrong(inodes: seq<Inode>, refs: seq<nat>, pending: seq<nat>, places: seq<set<Place>>,
                    home: map<nat, Place>, d: nat, k: nat, name: string, i: nat)
    requires AllGood(inodes, refs, pending, places, home) && d < |inodes| && inodes[d].kind == Dir && !Linked(inodes, d)
    requires 0 < i < |inodes| && i != d && inodes[i].kind == Unused && 2 <= k && Vacant(inodes[d].entries, k)
             && name != "."
    ensures 0 < inodes[d].entries[1].inum < |inodes| == |pending| && k <= |inodes[d].entries|
    ensures !Right(WithNew(inodes, d, k, name, i, Dir), pending, inodes[d].entries[1].inum)
  {
    var inodes' := WithNew(inodes, d, k, name, i, Dir);
    assert Good(inodes, refs, pending, places, home, d) && Good(inodes, refs, pending, places, home, i);
    var p := inodes[d].entries[1].inum;
    GoodRight(inodes, refs, pending, places, home, p);
    assert Counts(inodes', d, 1, p) && (d, 1) in LinksTo(inodes', p);
    if p == i {
      assert Counts(inodes', d, k, i) && (d, k) in LinksTo(inodes', i);
      SubsetSize({(d, 1), (d, k)}, LinksTo(inodes', p));
    } else {
      forall q | q in LinksTo(inodes, p) ensures q in LinksTo(inodes', p) {
        CountsStill(inodes, d, k, name, i, Dir, q.0, q.1, p);
        assert Counts(inodes', q.0, q.1, p);
      }
      assert (d, 1) !in LinksTo(inodes, p);
      SubsetSize(LinksTo(inodes, p) + {(d, 1)}, LinksTo(inodes', p));
    }
  }

  lemma CreateBreaks(inodes: seq<Inode>, refs: seq<nat>, pending: seq<nat>, places: seq<set<Place>>,
                     home: map<nat, Place>, d: nat, k: nat, name: string, i: nat, kind: Kind)
    requires AllGood(inodes, refs, pending, places, home) && d < |inodes| && inodes[d].kind == Dir
             && Vacant(inodes[d].entries, k)
    requires 0 < i < |inodes| && i != d && inodes[i].kind == Unused && kind != Unused && name != "." && name != ".."
    requires !CreateKeeps(inodes, d, kind)
    ensures !AllRight(WithNew(inodes, d, k, name, i, kind), pending)
  {
    hide Good, Named, Counts, Right, LinksTo;
    Facts(inodes, refs, pending, places, home, d);
    var inodes' := WithNew(inodes, d, k, name, i, kind);
    if Linked(inodes, d) {
      NotRight(inodes', refs, pending, places, home, d);
    } else if kind == Dir {
      NewDirWrong(inodes, refs, pending, places, home, d, k, name, i);
    } else {
      NewFileWrong(inodes, refs, pending, places, home, d, k, name, i, kind);
    }
  }

  lemma NewNamed(inodes: seq<Inode>, home: map<nat, Place>, d: nat, k: nat, name: string, i: nat, kind: Kind)
    requires CreateKeeps(inodes, d, kind) && Vacant(inodes[d].entries, k) && k >= 2 && 0 < i < |inodes|
             && inodes[i].kind == Unused && kind != Unused
    requires i != ROOT && forall c, l | 0 <= c < |inodes| && 0 <= l < |inodes[c].entries| :: Named(inodes, home, c, l)
    ensures var inodes', home' := WithNew(inodes, d, k, name, i, kind), if kind == Dir then home[i := (d, k)] else home;
            forall c, l | 0 <= c < |inodes'| && 0 <= l < |inodes'[c].entries| :: Named(inodes', home', c, l)
  {
    var inodes', home' := WithNew(inodes, d, k, name, i, kind), if kind == Dir then home[i := (d, k)] else home;
    forall c, l | 0 <= c < |inodes'| && 0 <= l < |inodes'[c].entries|
      ensures Named(inodes', home', c, l)
    {
      assert c < |inodes| && l < |inodes[c].entries| ==> Named(inodes, home, c, l);
    }
  }

  lemma NewCounts(inodes: seq<Inode>, d: nat, k: nat, name: string, i: nat, kind: Kind)
    requires CreateKeeps(inodes, d, kind) && Vacant(inodes[d].entries, k) && 0 < i < |inodes|
             && inodes[i].kind == Unused && name != "."
    requires forall c: nat, l: nat :: !Counts(inodes, c, l, i)
    ensures forall c: nat, l: nat, j: nat | j != 0 :: Counts(WithNew(inodes, d, k, name, i, kind), c, l, j) <==>
              Counts(inodes, c, l, j) || (c == d && l == k && j == i) || (kind == Dir && c == i && l == 1 && j == d)
    ensures forall l: nat, j: nat :: !Counts(inodes, i, l, j)
    ensures forall j: nat | j != 0 :: !Counts(inodes, d, k, j)
  {
  }

  /** sys_link keeps nlink equal to the entries that count exactly when the directory of
      the new name is linked; its code does not look. */
  lemma LinkKeepsIff(inodes: seq<Inode>, refs: seq<nat>, pending: seq<nat>, places: seq<set<Place>>,
                     home: map<nat, Place>, i: nat, d: nat, k: nat, name: string)
    requires AllGood(inodes, refs, pending, places, home) && 0 < i < |inodes| && inodes[i].kind != Dir && pending[i] > 0
    requires d < |inodes| && inodes[d].kind == Dir && Vacant(inodes[d].entries, k) && name != "."
    ensures Right(WithEntry(inodes, d, k, Entry(name, i)), pending[i := pending[i] - 1], i) <==> Linked(inodes, d)
  {
    hide Good, Named, Counts, LinksTo;
    GoodRight(inodes, refs, pending, places, home, i);
    LinksAfter(inodes, i, d, k, name);
    assert (d, k) !in LinksTo(inodes, i) by { NotLinkedYet(inodes, i, d, k); }
  }

  lemma NotLinkedYet(inodes: seq<Inode>, i: nat, d: nat, k: nat)
    requires 0 < i && d < |inodes| && Vacant(inodes[d].entries, k)
    ensures (d, k) !in LinksTo(inodes, i)
  {
  }

  /** The new entry counts exactly if its directory is linked. */
  lemma LinksAfter(inodes: seq<Inode>, i: nat, d: nat, k: nat, name: string)
    requires 0 < i < |inodes| && d < |inodes| && d != i && Vacant(inodes[d].entries, k) && name != "."
    requires inodes[d].kind == Dir
    ensures LinksTo(WithEntry(inodes, d, k, Entry(name, i)), i) ==
            LinksTo(inodes, i) + if Linked(inodes, d) then {(d, k)} else {}
  {
    var inodes' := WithEntry(inodes, d, k, Entry(name, i));
    forall p: Place
      ensures p in LinksTo(inodes', i) <==> p in LinksTo(inodes, i) || (Linked(inodes, d) && p == (d, k))
    {
      assert p == (p.0, p.1);
      assert Counts(inodes', p.0, p.1, i) <==> Counts(inodes, p.0, p.1, i) || (Linked(inodes, d) && p == (d, k));
    }
  }

  /** After the largest count, sys_link's next increment makes it negative, and then
      sys_unlink panics on every name of that file; before, on none. */
  lemma LinkPanicIff(inodes: seq<Inode>, refs: seq<nat>, pending: seq<nat>, places: seq<set<Place>>,
                     home: map<nat, Place>, i: nat, d: nat, name: string)
    requires AllGood(inodes, refs, pending, places, home) && 0 < i < |inodes| && inodes[i].kind != Dir
    requires d < |inodes| && inodes[d].kind == Dir && Lookup(inodes[d].entries, name, 0).Some?
    requires inodes[d].entries[Lookup(inodes[d].entries, name, 0).value].inum == i
    ensures NlinkPanic(WithNlink(inodes, i, Short(inodes[i].nlink + 1)), d, name) <==> inodes[i].nlink == SHRT_MAX
  {
    Facts(inodes, refs, pending, places, home, i);
  }

  /** Different names of three bytes, each an element of a path. */
  function Name(t: nat): (r: string)
    requires t < 40000
    ensures |r| == 3
  {
    ['x', (48 + t / 200) as char, (48 + t % 200) as char]
  }

  lemma NameApart(t: nat, u: nat)
    requires t < u < 40000
    ensures Name(t) != Name(u)
  {
    assert t == 200 * (t / 200) + t % 200 && u == 200 * (u / 200) + u % 200;
  }

  lemma {:induction false} LookupPut(entries: seq<Entry>, v: nat, e: Entry, name: string, k: nat)
    requires Vacant(entries, v) && e.name != name && k <= |entries|
    ensures Lookup(Put(entries, v, e), name, k) == Lookup(entries, name, k)
    decreases |entries| - k
  {
    if k < |entries| {
      LookupPut(entries, v, e, name, k + 1);
    }
  }

  /** The name is found as before. */
  ghost predicate SameAt(was: seq<Entry>, now: seq<Entry>, name: string) {
    Lookup(now, name, 0) == Lookup(was, name, 0) &&
    (Lookup(was, name, 0).Some? ==> now[Lookup(was, name, 0).value] == was[Lookup(was, name, 0).value])
  }

  lemma SameAtSelf(entries: seq<Entry>, name: string)
    ensures SameAt(entries, entries, name)
  {
  }

  lemma SameAtPut(was: seq<Entry>, mid: seq<Entry>, v: nat, e: Entry, name: string)
    requires SameAt(was, mid, name) && Vacant(mid, v) && e.name != name
    ensures SameAt(was, Put(mid, v, e), name)
  {
    LookupPut(mid, v, e, name, 0);
  }

  lemma FreshName(entries: seq<Entry>, name: string)
    requires |entries| == 2 && entries[0].name != name && entries[1].name != name
    ensures Lookup(entries, name, 0) == None
  {
    assert Lookup(entries, name, 2) == None;
    assert Lookup(entries, name, 1) == None;
  }

  lemma OnlyName(entries: seq<Entry>, name: string)
    requires |entries| == 3 && entries[0].name != name && entries[1].name != name
    requires entries[2].name == name && entries[2].inum != 0
    ensures Lookup(entries, name, 0) == Some(2)
  {
    assert Lookup(entries, name, 2) == Some(2);
    assert Lookup(entries, name, 1) == Some(2);
  }

  lemma ShortNames(entries: seq<Entry>, name: string)
    requires |name| == 3 && forall k | 0 <= k < |entries| :: |entries[k].name| < 3
    ensures Lookup(entries, name, 0) == None
  {
  }

  /** A file in the root directory. */
  method OneName(n: nat) returns (fs: Directories, ip: nat)
    requires n > 3
    ensures fs.Valid() && |fs.inodes| == |fs.refs| == n && ip < n && ip != ROOT && fresh(fs)
    ensures fs.inodes[ip].kind == File && fs.inodes[ip].nlink == 1 && fs.refs[ip] > 0
    ensures exists j :: 0 < j < n && fs.inodes[j].kind == Unused
    ensures fs.inodes[ROOT] == Inode(Dir, 1, [Entry(".", ROOT), Entry("..", ROOT), Entry("f", ip)])
    ensures Lookup(fs.inodes[ROOT].entries, "f", 0) == Some(2) && Lookup(fs.inodes[ROOT].entries, "d", 0) == None
  {
    hide Good, Named, Counts, Right, LinksTo, AllGood;
    fs := new Directories(n);
    FreshName(fs.inodes[ROOT].entries, "f");
    FreshName(fs.inodes[ROOT].entries, "d");
    assert fs.inodes[2].kind == Unused;
    ghost var entries := fs.inodes[ROOT].entries;
    Sizes(fs.inodes, fs.refs, fs.pending, fs.places, fs.home);
    var file := fs.Create(ROOT, "f", File);
    ip := file.inum;
    assert file.at == 2;
    OnlyName(fs.inodes[ROOT].entries, "f");
    LookupPut(entries, 2, Entry("f", ip), "d", 0);
    assert fs.inodes[if ip == 2 then 3 else 2].kind == Unused;
  }

  /** And a directory. */
  method TwoNames(n: nat) returns (fs: Directories, ip: nat, d: nat)
    requires n > 3
    ensures fs.Valid() && |fs.inodes| == |fs.refs| == n && ip < n && d < n && ip != d && ip != ROOT && d != ROOT
    ensures fs.inodes[ip].kind == File && fs.inodes[ip].nlink == 1 && fs.refs[ip] > 0 && fresh(fs)
    ensures Linked(fs.inodes, ROOT) && Linked(fs.inodes, d)
    ensures forall k | 0 <= k < |fs.inodes[ROOT].entries| :: |fs.inodes[ROOT].entries[k].name| < 3
    ensures forall k | 0 <= k < |fs.inodes[d].entries| :: |fs.inodes[d].entries[k].name| < 3
    ensures var k := Lookup(fs.inodes[ROOT].entries, "f", 0); k.Some? && fs.inodes[ROOT].entries[k.value].inum == ip
  {
    hide Good, Named, Counts, Right, LinksTo, AllGood, Lookup;
    fs, ip := OneName(n);
    ghost var entries := fs.inodes[ROOT].entries;
    var dir := fs.Create(ROOT, "d", Dir);
    d := dir.inum;
    LookupPut(entries, dir.at, Entry("d", d), "f", 0);
  }

  /** A file with 32767 names, in two directories no larger than a file can be. */
  method Saturate(n: nat) returns (fs: Directories, ip: nat)
    requires n > 3
    ensures fs.Valid() && ip < |fs.inodes| == |fs.refs| && ROOT < |fs.inodes| && fresh(fs)
    ensures fs.inodes[ip].kind == File && fs.inodes[ip].nlink == SHRT_MAX && fs.refs[ip] > 0
    ensures fs.inodes[ROOT].kind == Dir
    ensures var k := Lookup(fs.inodes[ROOT].entries, "f", 0); k.Some? && fs.inodes[ROOT].entries[k.value].inum == ip
  {
    hide Good, Named, Counts, Right, LinksTo, AllGood, Lookup;
    var d;
    fs, ip, d := TwoNames(n);
    forall t: nat | t < 40000
      ensures Lookup(fs.inodes[ROOT].entries, Name(t), 0) == Lookup(fs.inodes[d].entries, Name(t), 0) == None
    {
      ShortNames(fs.inodes[ROOT].entries, Name(t));
      ShortNames(fs.inodes[d].entries, Name(t));
    }
    fs.LinkMany(ip, ROOT, 0, 16383, "f");
    fs.LinkMany(ip, d, 16383, 32766, "f");
  }

  /** One more sys_link, and sys_unlink of its first name panics. */
  method SaturateBreaks(n: nat) returns (fs: Directories)
    requires n > 3
    ensures ROOT < |fs.inodes| && NlinkPanic(fs.inodes, ROOT, "f")
  {
    hide Good, Named, Counts, Right, LinksTo, AllGood;
    var ip;
    fs, ip := Saturate(n);
    var _ := fs.LinkStart(ip);
  }

  /** mkdir, and rmdir of the new directory while a process still has it open: an
      unlinked directory in a valid state. */
  method Orphan(n: nat) returns (fs: Directories, d: nat)
    requires n > 3
    ensures fs.Valid() && |fs.inodes| == n && d < |fs.inodes| && !Linked(fs.inodes, d) && fs.refs[d] > 0
    ensures fs.inodes[d] == Inode(Dir, 0, [Entry(".", d), Entry("..", ROOT)])
    ensures exists j :: 0 < j < n && fs.inodes[j].kind == Unused
    ensures fresh(fs)
  {
    hide Good, Named, Counts, Right, LinksTo;
    fs := new Directories(n);
    FreshName(fs.inodes[ROOT].entries, "d");
    assert fs.inodes[2].kind == Unused;
    var dir := fs.Create(ROOT, "d", Dir);
    d := dir.inum;
    assert dir.at == 2;
    OnlyName(fs.inodes[ROOT].entries, "d");
    var ok, freed, k := fs.Unlink(ROOT, "d");
    assert ok && k == 2;
    assert fs.inodes[if d == 2 then 3 else 2].kind == Unused;
  }

  /** A file made in it then has one link and no entry that counts. */
  method OrphanBreaks(n: nat, kind: Kind) returns (fs: Directories, made: Created)
    requires n > 3 && kind != Unused
    ensures made.Made? && !AllRight(fs.inodes, fs.pending)
  {
    var d;
    fs, d := Orphan(n);
    FreshName(fs.inodes[d].entries, "f");
    made := fs.Create(d, "f", kind);
  }
}
