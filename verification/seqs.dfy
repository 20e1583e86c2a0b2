/** Facts about finite sets and sequences shared by the models. */
module Seqs {
  /** The naturals below n. */
  function Below(n: nat): (s: set<nat>)
    ensures |s| == n
    ensures forall i: nat :: i in s <==> i < n
  {
    if n == 0 then {} else Below(n - 1) + {n - 1}
  }

  ghost predicate NoDup<T>(s: seq<T>) {
    forall j, k | 0 <= j < k < |s| :: s[j] != s[k]
  }

  lemma {:induction false} NoDupSize<T>(s: seq<T>)
    requires NoDup(s)
    ensures |set x | x in s| == |s|
  {
    if s == [] {
      assert (set x | x in s) == {};
    } else {
      var t := s[..|s| - 1];
      NoDupSize(t);
      assert s == t + [s[|s| - 1]];
      assert (set x | x in s) == (set x | x in t) + {s[|s| - 1]};
    }
  }

  lemma {:induction false} SubsetSize<T>(a: set<T>, b: set<T>)
    requires a <= b
    ensures |a| <= |b|
  {
    if a != {} {
      var x :| x in a;
      SubsetSize(a - {x}, b - {x});
    }
  }

  lemma NoDupIn<T>(s: seq<T>, b: set<T>)
    requires NoDup(s) && forall k | 0 <= k < |s| :: s[k] in b
    ensures |s| <= |b|
  {
    NoDupSize(s);
    SubsetSize((set x | x in s), b);
  }

  /** n different naturals below n leave none out. */
  lemma Onto(s: seq<nat>, n: nat, b: nat)
    requires NoDup(s) && |s| == n && (forall k | 0 <= k < n :: s[k] < n) && b < n
    ensures b in s
  {
    if b !in s {
      NoDupSize(s);
      SubsetSize((set x | x in s), Below(n) - {b});
    }
  }

  lemma Overwrite<T>(s: seq<T>, i: nat, x: T, y: T)
    requires i < |s|
    ensures s[i := x][i := y] == s[i := y]
  {
  }
}
