/**
 Index-list operations on sequences, as numpy performs them: `np.where` on a
 boolean mask, fancy indexing `a[idx]`, and `np.delete(a, idx, axis=0)`.
 */
module Sequences {

  /** `ks` is strictly increasing. */
  predicate Increasing(ks: seq<nat>) {
    forall a, b :: 0 <= a < b < |ks| ==> ks[a] < ks[b]
  }

  /** `ks` lists, in increasing order, exactly the indices below `n` that satisfy `keep`. */
  ghost predicate Enumerates(ks: seq<nat>, n: nat, keep: nat -> bool) {
    && Increasing(ks)
    && (forall k :: 0 <= k < |ks| ==> ks[k] < n && keep(ks[k]))
    && (forall i :: 0 <= i < n && keep(i) ==> i in ks)
  }

  /** Fancy indexing `s[ks]`: the elements of `s` at the listed indices, in list order. */
  function Gather<T>(s: seq<T>, ks: seq<nat>): (r: seq<T>)
    requires forall k :: 0 <= k < |ks| ==> ks[k] < |s|
    ensures |r| == |ks|
    ensures forall k :: 0 <= k < |ks| ==> r[k] == s[ks[k]]
  {
    seq(|ks|, k requires 0 <= k < |ks| => s[ks[k]])
  }

  /** `r` consists, in order, of exactly those elements of `s` whose index satisfies `keep`. */
  ghost predicate ExactlyWhere<T>(r: seq<T>, s: seq<T>, keep: nat -> bool) {
    exists ks :: Enumerates(ks, |s|, keep) && r == Gather(s, ks)
  }

  /** `np.where(mask)` over the mask `keep(0) .. keep(n-1)`. */
  function Where(n: nat, keep: nat -> bool): (ks: seq<nat>)
    ensures Enumerates(ks, n, keep)
  {
    if n == 0 then []
    else
      var ks := Where(n - 1, keep);
      ks + (if keep(n - 1) then [n - 1] else [])
  }

  /** The mask `keep` restricted to indices below `a`. */
  function Below(a: nat, keep: nat -> bool): nat -> bool {
    (i: nat) => i < a && keep(i)
  }

  /** The last entry of a non-empty enumeration is its largest, and the rest enumerate the indices below it. */
  lemma {:induction false} DropLast(ks: seq<nat>, n: nat, keep: nat -> bool)
    requires Enumerates(ks, n, keep) && |ks| > 0
    ensures forall k :: 0 <= k < |ks| ==> ks[k] <= ks[|ks| - 1]
    ensures Enumerates(ks[..|ks| - 1], ks[|ks| - 1], Below(ks[|ks| - 1], keep))
  {
    var a := ks[|ks| - 1];
    var front := ks[..|ks| - 1];
    forall i | 0 <= i < a && Below(a, keep)(i)
      ensures i in front
    {
      assert i in ks;
      var j :| 0 <= j < |ks| && ks[j] == i;
      assert front[j] == i;
    }
  }

  /** There is only one enumeration of the indices satisfying a mask. */
  lemma {:induction false} EnumeratesUnique(ks1: seq<nat>, ks2: seq<nat>, n: nat, keep: nat -> bool)
    requires Enumerates(ks1, n, keep) && Enumerates(ks2, n, keep)
    ensures ks1 == ks2
    decreases |ks1| + |ks2|
  {
    if |ks1| > 0 {
      assert ks1[0] in ks2;
    }
    if |ks2| > 0 {
      assert ks2[0] in ks1;
    }
    if |ks1| > 0 && |ks2| > 0 {
      var a, b := ks1[|ks1| - 1], ks2[|ks2| - 1];
      DropLast(ks1, n, keep);
      DropLast(ks2, n, keep);
      assert a in ks2;
      assert b in ks1;
      assert a == b;
      EnumeratesUnique(ks1[..|ks1| - 1], ks2[..|ks2| - 1], a, Below(a, keep));
      assert ks1 == ks1[..|ks1| - 1] + [a];
      assert ks2 == ks2[..|ks2| - 1] + [b];
    }
  }

  /** `np.delete(s, del, axis=0)`: drops every index listed in `del`, keeps the rest in order. */
  function DeleteIndices<T>(s: seq<T>, del: seq<nat>): (r: seq<T>)
    ensures ExactlyWhere(r, s, i => i !in del)
  {
    var ks := Where(|s|, i => i !in del);
    Gather(s, ks)
  }

  /** Deleting nothing returns the sequence unchanged. */
  lemma DeleteNothing<T>(s: seq<T>)
    ensures DeleteIndices(s, []) == s
  {
    var ks := Where(|s|, i => i !in []);
    var all := seq(|s|, i requires 0 <= i < |s| => i as nat);
    assert Enumerates(all, |s|, i => i !in []) by {
      forall i | 0 <= i < |s|
        ensures i in all
      {
        assert all[i] == i;
      }
    }
    EnumeratesUnique(ks, all, |s|, i => i !in []);
  }

  /** Masks that agree below `|s|` select the same elements. */
  lemma ExactlyWhereCongruent<T>(r: seq<T>, s: seq<T>, keep1: nat -> bool, keep2: nat -> bool)
    requires ExactlyWhere(r, s, keep1)
    requires forall i: nat :: i < |s| ==> keep1(i) == keep2(i)
    ensures ExactlyWhere(r, s, keep2)
  {
    var ks :| Enumerates(ks, |s|, keep1) && r == Gather(s, ks);
    assert Enumerates(ks, |s|, keep2);
  }

  /** The values kept are exactly those found at an index the mask keeps. */
  lemma ExactlyWhereMembers<T>(r: seq<T>, s: seq<T>, keep: nat -> bool, x: T)
    requires ExactlyWhere(r, s, keep)
    ensures x in r <==> exists i: nat :: i < |s| && keep(i) && s[i] == x
  {
    var ks :| Enumerates(ks, |s|, keep) && r == Gather(s, ks);
    if x in r {
      var k :| 0 <= k < |r| && r[k] == x;
      assert s[ks[k]] == x;
    }
    if exists i: nat :: i < |s| && keep(i) && s[i] == x {
      var i: nat :| i < |s| && keep(i) && s[i] == x;
      var k :| 0 <= k < |ks| && ks[k] == i;
      assert r[k] == x;
    }
  }

  /** When the mask tests a property of the value at each index, the values kept are exactly the values with the property. */
  lemma ExactlyWhereValues<T>(r: seq<T>, s: seq<T>, keep: nat -> bool, p: T -> bool, x: T)
    requires ExactlyWhere(r, s, keep)
    requires forall i: nat :: i < |s| ==> keep(i) == p(s[i])
    ensures x in r <==> x in s && p(x)
  {
    ExactlyWhereMembers(r, s, keep, x);
    if x in s && p(x) {
      var i :| 0 <= i < |s| && s[i] == x;
      assert keep(i);
    }
  }

  /** A mask that holds nowhere below `n` selects no index. */
  lemma {:induction false} WhereEmpty(n: nat, keep: nat -> bool)
    requires forall i: nat :: i < n ==> !keep(i)
    ensures Where(n, keep) == []
  {
    if n > 0 {
      WhereEmpty(n - 1, keep);
    }
  }
}
