/** The exchange sort of assignments/hw5/ordered.c and assignments/hw6/parkingServer.c, and what
    being sorted means. */
module ExchangeSort {
  import opened Common

  ghost predicate SortedBy<T>(s: seq<T>, key: T -> int)
  {
    forall i, j | 0 <= i < j < |s| :: key(s[i]) <= key(s[j])
  }

  /** if (key(list[j]) < key(list[i])) exchange them. */
  method Exchange<T>(a: array<T>, i: nat, j: nat)
    requires i < j < a.Length
    modifies a
    ensures a[..] == old(a[..])[i := old(a[j])][j := old(a[i])]
    ensures multiset(a[..]) == multiset(old(a[..]))
  {
    var temp := a[i];
    a[i] := a[j];
    a[j] := temp;
  }

  /** No element before position i exceeds one at or behind it, up to count. */
  ghost predicate Split<T>(s: seq<T>, i: nat, count: nat, key: T -> int)
    requires count <= |s|
  {
    forall p, q | 0 <= p < i && p < q < count :: key(s[p]) <= key(s[q])
  }

  /** The inner loop: brings a least element of a[i..count] to position i. */
  method Select<T>(a: array<T>, i: nat, count: nat, key: T -> int)
    requires i < count <= a.Length && Split(a[..], i, count, key)
    modifies a
    ensures Split(a[..], i + 1, count, key)
    ensures multiset(a[..]) == multiset(old(a[..])) && a[count..] == old(a[count..])
  {
    hide Split;
    var j := i + 1;
    while j < count
      invariant i < j <= count
      invariant Split(a[..], i, count, key)
      invariant forall q | i < q < j :: key(a[i]) <= key(a[q])
      invariant multiset(a[..]) == multiset(old(a[..]))
      invariant forall q | count <= q < a.Length :: a[q] == old(a[q])
    {
      if key(a[j]) < key(a[i]) {
        ExchangeSplits(a[..], i, j, count, key);
        Exchange(a, i, j);
      }
      j := j + 1;
    }
    SplitNext(a[..], i, count, key);
  }

  lemma SplitNext<T>(s: seq<T>, i: nat, count: nat, key: T -> int)
    requires i < count <= |s| && Split(s, i, count, key)
    requires forall q | i < q < count :: key(s[i]) <= key(s[q])
    ensures Split(s, i + 1, count, key)
  {
  }

  lemma ExchangeSplits<T>(s: seq<T>, i: nat, j: nat, count: nat, key: T -> int)
    requires i < j < count <= |s| && Split(s, i, count, key)
    ensures Split(s[i := s[j]][j := s[i]], i, count, key)
  {
  }

  /** Sorts the first count elements of a in place. */
  method Sort<T>(a: array<T>, count: nat, key: T -> int)
    requires count <= a.Length
    modifies a
    ensures SortedBy(a[..count], key)
    ensures multiset(a[..count]) == multiset(old(a[..count])) && a[count..] == old(a[count..])
  {
    var i := 0;
    while i < count - 1
      invariant 0 <= i && (i == 0 || i <= count - 1)
      invariant Split(a[..], i, count, key)
      invariant multiset(a[..]) == multiset(old(a[..])) && a[count..] == old(a[count..])
    {
      Select(a, i, count, key);
      i := i + 1;
    }
    TwoParts(a[..], count);
    TwoParts(old(a[..]), count);
    assert a[..count] == a[..][..count] && a[count..] == a[..][count..];
    assert old(a[..count]) == old(a[..])[..count] && old(a[count..]) == old(a[..])[count..];
  }

  lemma TwoParts<T>(s: seq<T>, count: nat)
    requires count <= |s|
    ensures multiset(s[..count]) == multiset(s) - multiset(s[count..])
  {
    assert s == s[..count] + s[count..];
  }

  lemma LeastFirst(a: seq<int>, b: seq<int>)
    requires SortedBy(a, x => x) && multiset(a) == multiset(b) && a != [] && b != []
    ensures a[0] <= b[0]
  {
    assert b[0] in multiset(b);
    assert b[0] in a;
  }

  lemma TailMultiset(a: seq<int>)
    requires a != []
    ensures multiset(a[1..]) == multiset(a) - multiset{a[0]}
  {
    assert a == [a[0]] + a[1..];
  }

  /** Sorted rearrangements of the same numbers are equal. */
  lemma {:induction false} SortedUnique(a: seq<int>, b: seq<int>)
    requires SortedBy(a, x => x) && SortedBy(b, x => x) && multiset(a) == multiset(b)
    ensures a == b
  {
    if a == [] {
      assert |multiset(b)| == 0;
    } else {
      assert |multiset(a)| == |multiset(b)|;
      LeastFirst(a, b);
      LeastFirst(b, a);
      TailMultiset(a);
      TailMultiset(b);
      SortedUnique(a[1..], b[1..]);
    }
  }

  /** A sorted rearrangement of distinct numbers is strictly increasing. */
  lemma SortedDistinct(a: seq<int>, s: seq<int>)
    requires SortedBy(a, x => x) && multiset(a) == multiset(s) && Distinct(s)
    ensures forall i, j | 0 <= i < j < |a| :: a[i] < a[j]
  {
    DistinctOnce(s);
    forall i, j | 0 <= i < j < |a|
      ensures a[i] < a[j]
    {
      if a[i] == a[j] {
        CountTwice(a, i, j);
      }
    }
  }
}
