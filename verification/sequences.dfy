/** The array operations the storage helpers use: `indexOf` (strict equality,
    -1 when absent) and a one-element `splice`, plus an independent
    recursive definition of first-occurrence removal that they are proved equal to. */
module Sequences {

  /** `a.indexOf(x)`: the least index holding `x`, or -1 when `x` is absent. */
  function IndexOf<T(==)>(a: seq<T>, x: T): (i: int)
    ensures -1 <= i < |a|
    ensures i == -1 <==> x !in a
    ensures 0 <= i ==> a[i] == x && x !in a[..i]
  {
    if a == [] then -1
    else if a[0] == x then 0
    else
      var j := IndexOf(a[1..], x);
      assert a[1..] == a[..|a|][1..];
      if j == -1 then -1
      else
        assert a[..j + 1] == [a[0]] + a[1..][..j];
        j + 1
  }

  /** `a.splice(i, 1)` seen through its effect on `a`: the element at `i` is
      gone, everything before it stays put and everything after it moves
      one place down. */
  function Splice<T>(a: seq<T>, i: nat): (r: seq<T>)
    requires i < |a|
    ensures |r| == |a| - 1
    ensures forall j :: 0 <= j < i ==> r[j] == a[j]
    ensures forall j :: i <= j < |r| ==> r[j] == a[j + 1]
  {
    a[..i] + a[i + 1..]
  }

  /** Splicing out one element removes one copy of it from the multiset. */
  lemma SpliceMultiset<T>(a: seq<T>, i: nat)
    requires i < |a|
    ensures multiset(Splice(a, i)) == multiset(a) - multiset{a[i]}
  {
    assert a == a[..i] + [a[i]] + a[i + 1..];
  }

  /** Reference definition of removing the first occurrence of `x`: walk
      the list and drop the first element equal to `x`, if there is one. */
  function RemoveFirst<T(==)>(a: seq<T>, x: T): (r: seq<T>)
    ensures x in a ==> |r| == |a| - 1
    ensures x !in a ==> r == a
  {
    if a == [] then []
    else if a[0] == x then a[1..]
    else
      assert x in a ==> x in a[1..];
      [a[0]] + RemoveFirst(a[1..], x)
  }

  /** First-occurrence removal of a present element removes one copy of it
      from the multiset. */
  lemma {:induction false} RemoveFirstMultiset<T>(a: seq<T>, x: T)
    requires x in a
    ensures multiset(RemoveFirst(a, x)) == multiset(a) - multiset{x}
  {
    assert a == [a[0]] + a[1..];
    if a[0] != x {
      RemoveFirstMultiset(a[1..], x);
    }
  }

  /** Splicing out the element `indexOf` finds is first-occurrence
      removal. */
  lemma SpliceIndexOfIsRemoveFirst<T>(a: seq<T>, x: T)
    requires x in a
    ensures Splice(a, IndexOf(a, x)) == RemoveFirst(a, x)
  {
    RemoveFirstAtLeastIndex(a, x, IndexOf(a, x));
  }

  /** First-occurrence removal deletes exactly the element at the least
      index holding `x`, keeping the order of everything else. */
  lemma {:induction false} RemoveFirstAtLeastIndex<T>(a: seq<T>, x: T, i: nat)
    requires i < |a| && a[i] == x && x !in a[..i]
    ensures RemoveFirst(a, x) == a[..i] + a[i + 1..]
  {
    if i > 0 {
      assert a[0] == a[..i][0];
      assert a[1..][..i - 1] == a[..i][1..];
      RemoveFirstAtLeastIndex(a[1..], x, i - 1);
      assert a[..i] == [a[0]] + a[1..][..i - 1];
    }
  }

  /** Removing the element at `j` and removing the element at `k >= j`
      give the same list exactly when every element from `j` up to `k` is
      the same. */
  lemma SpliceSameIff<T>(a: seq<T>, j: nat, k: nat)
    requires j <= k < |a|
    ensures Splice(a, j) == Splice(a, k) <==> forall m :: j <= m <= k ==> a[m] == a[k]
  {
    var sj, sk := Splice(a, j), Splice(a, k);
    if forall m :: j <= m <= k ==> a[m] == a[k] {
      forall m | 0 <= m < |sj|
        ensures sj[m] == sk[m]
      {
        if j <= m < k {
          assert a[m] == a[k] && a[m + 1] == a[k];
        }
      }
      assert sj == sk;
    }
    if sj == sk {
      forall m | j <= m < k
        ensures a[m] == a[m + 1]
      {
        assert sj[m] == a[m + 1] && sk[m] == a[m];
      }
      RunOfEquals(a, j, k);
    }
  }

  /** Equal neighbours all the way from `j` to `k` make every element of
      that stretch equal to the last one. */
  lemma {:induction false} RunOfEquals<T>(a: seq<T>, j: nat, k: nat)
    requires j <= k < |a|
    requires forall m :: j <= m < k ==> a[m] == a[m + 1]
    ensures forall m :: j <= m <= k ==> a[m] == a[k]
    decreases k - j
  {
    if j < k {
      RunOfEquals(a, j + 1, k);
      assert a[j] == a[j + 1];
    }
  }

  /** Slicing the first element off a three-part sequence with a non-empty
      first part. */
  lemma DropFirst<T>(p: seq<T>, m: seq<T>, q: seq<T>)
    requires p != []
    ensures (p + m + q)[0] == p[0] && (p + m + q)[1..] == p[1..] + m + q
  {
  }

  /** Slicing the last element off a three-part sequence with a non-empty
      last part. */
  lemma DropLast<T>(p: seq<T>, m: seq<T>, q: seq<T>)
    requires q != []
    ensures var s := p + m + q;
      && s[|s| - 1] == q[|q| - 1]
      && (m != [] ==> s[|p|] == m[0])
      && s[..|s| - 1] == p + m + q[..|q| - 1]
  {
  }
}
