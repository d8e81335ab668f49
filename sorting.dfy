/** In-place insertion sort of a list of entries (CLRS, 0-indexed). The
    same code appears in both versions of the program; docdist1 sorts its
    frequency list with it. Also: an ascending permutation is unique, so
    every correct sort of the same entries gives the same list. */
module Sorting {
  import opened Order

  /** Putting `key` between the entries not above it and those above it
      keeps a sorted list sorted. */
  lemma {:induction false} InsertKeepsSorted(s: seq<Pair>, p: nat, key: Pair)
    requires p <= |s| && Sorted(s)
    requires p > 0 ==> PairLe(s[p - 1], key)
    requires forall k :: p <= k < |s| ==> PairLess(key, s[k])
    ensures Sorted(s[..p] + [key] + s[p..])
  {
    var t := s[..p] + [key] + s[p..];
    forall i, j | 0 <= i < j < |t| ensures PairLe(t[i], t[j]) {
      if j < p {
        assert t[i] == s[i] && t[j] == s[j];
      } else if j == p {
        assert t[i] == s[i] && t[j] == key;
        if i < p - 1 {
          PairLeTransitive(s[i], s[p - 1], key);
        }
      } else if i == p {
        assert t[j] == s[j - 1];
        PairLessLe(key, s[j - 1]);
      } else if i < p {
        assert t[i] == s[i] && t[j] == s[j - 1];
      } else {
        assert t[i] == s[i - 1] && t[j] == s[j - 1];
      }
    }
  }

  /** One pass of the outer loop: `key`, taken from position `j`, lands at
      position `p` and the entries of `before[p..j]` move one place right;
      the first `j + 1` entries are then sorted ... */
  lemma InsertStepSorted(before: seq<Pair>, after: seq<Pair>, p: nat, j: nat, key: Pair)
    requires p <= j < |before| == |after|
    requires after[p] == key && Sorted(before[..j])
    requires p > 0 ==> PairLe(before[p - 1], key)
    requires forall k :: 0 <= k < p ==> after[k] == before[k]
    requires forall k :: p < k <= j ==> after[k] == before[k - 1] && PairLess(key, after[k])
    ensures Sorted(after[..j + 1])
  {
    var done := before[..j];
    assert after[..j + 1] == done[..p] + [key] + done[p..];
    forall k | p <= k < |done| ensures PairLess(key, done[k]) {
      assert done[k] == after[k + 1];
    }
    InsertKeepsSorted(done, p, key);
  }

  /** ... and the entries are those of before. */
  lemma InsertStepSameEntries(before: seq<Pair>, after: seq<Pair>, p: nat, j: nat, key: Pair)
    requires p <= j < |before| == |after|
    requires before[j] == key && after[p] == key
    requires forall k :: 0 <= k < p ==> after[k] == before[k]
    requires forall k :: p < k <= j ==> after[k] == before[k - 1]
    requires forall k :: j < k < |after| ==> after[k] == before[k]
    ensures multiset(after) == multiset(before)
  {
    var x, y, z := before[..p], before[p..j], before[j + 1..];
    assert after == x + [key] + y + z;
    assert before == x + y + [key] + z;
    calc {
      multiset(after);
      multiset(x) + multiset([key]) + multiset(y) + multiset(z);
      multiset(x) + multiset(y) + multiset([key]) + multiset(z);
      multiset(before);
    }
  }

  /** The state of the inner loop: the entries of `before[i + 1..j]`
      have moved one place right, each of them above `key`; the rest is
      where it was. */
  ghost predicate Shifted(a: seq<Pair>, before: seq<Pair>, i: int, j: int, key: Pair)
  {
    && |a| == |before| && -1 <= i < j < |a|
    && (forall k :: 0 <= k <= i ==> a[k] == before[k])
    && (forall k :: i + 1 < k <= j ==> a[k] == before[k - 1] && PairLess(key, a[k]))
    && (forall k :: j < k < |a| ==> a[k] == before[k])
  }

  /** One shift of the inner loop keeps that state, one place further left. */
  lemma ShiftStep(a: seq<Pair>, before: seq<Pair>, i: int, j: int, key: Pair)
    requires Shifted(a, before, i, j, key) && i > -1 && PairLess(key, a[i])
    ensures Shifted(a[i + 1 := a[i]], before, i - 1, j, key)
  {
  }

  /** Dropping `key` into the gap finishes the pass. */
  lemma InsertStep(a: seq<Pair>, before: seq<Pair>, i: int, j: int, key: Pair)
    requires Shifted(a, before, i, j, key) && before[j] == key && Sorted(before[..j])
    requires i > -1 ==> !PairLess(key, a[i])
    ensures Sorted(a[i + 1 := key][..j + 1])
    ensures multiset(a[i + 1 := key]) == multiset(before)
  {
    var after := a[i + 1 := key];
    InsertStepSorted(before, after, i + 1, j, key);
    InsertStepSameEntries(before, after, i + 1, j, key);
  }

  /** insertion_sort: sorts `A` in place into an ascending permutation of
      its contents. The outer loop keeps `A[..j]` sorted; the inner loop
      shifts the entries above `key` one place right. */
  method InsertionSort(A: array<Pair>)
    modifies A
    ensures Sorted(A[..])
    ensures multiset(A[..]) == multiset(old(A[..]))
  {
    for j := 0 to A.Length
      invariant Sorted(A[..j])
      invariant multiset(A[..]) == multiset(old(A[..]))
    {
      var key := A[j];
      ghost var before := A[..];
      var i := j - 1;
      while i > -1 && PairLess(key, A[i])
        invariant Shifted(A[..], before, i, j, key)
      {
        ghost var a := A[..];
        ShiftStep(a, before, i, j, key);
        A[i + 1] := A[i];
        assert A[..] == a[i + 1 := a[i]];
        i := i - 1;
      }
      ghost var a := A[..];
      InsertStep(a, before, i, j, key);
      A[i + 1] := key;
      assert A[..] == a[i + 1 := key];
    }
    assert A[..A.Length] == A[..];
  }

  /** The first entry of an ascending list is its least. */
  lemma SortedHeadIsLeast(a: seq<Pair>, x: Pair)
    requires Sorted(a) && x in multiset(a)
    ensures PairLe(a[0], x)
  {
    var k :| 0 <= k < |a| && a[k] == x;
    if k == 0 {
      PairLeTotal(x, x);
    }
  }

  lemma TailsSameEntries(a: seq<Pair>, b: seq<Pair>)
    requires a != [] && b != [] && a[0] == b[0] && multiset(a) == multiset(b)
    ensures multiset(a[1..]) == multiset(b[1..])
  {
    assert a == [a[0]] + a[1..];
    assert b == [b[0]] + b[1..];
    calc {
      multiset(a[1..]);
      multiset(a) - multiset{a[0]};
      multiset(b) - multiset{b[0]};
      multiset(b[1..]);
    }
  }

  /** Two ascending lists holding the same entries are the same list: the
      result of a sort does not depend on the algorithm. */
  lemma {:induction false} SortedPermutationUnique(a: seq<Pair>, b: seq<Pair>)
    requires Sorted(a) && Sorted(b) && multiset(a) == multiset(b)
    ensures a == b
    decreases |a|
  {
    assert |a| == |multiset(a)| == |multiset(b)| == |b|;
    if a != [] {
      assert a[0] in multiset(b) && b[0] in multiset(a);
      SortedHeadIsLeast(b, a[0]);
      SortedHeadIsLeast(a, b[0]);
      PairLeAntisymmetric(a[0], b[0]);
      TailsSameEntries(a, b);
      SortedPermutationUnique(a[1..], b[1..]);
      assert a == [a[0]] + a[1..] && b == [b[0]] + b[1..];
    }
  }
}
