/** The first-pivot quicksort that exercises/ex15/array.c and exercises/ex15/linked.c share, as a
    function on sequences, and what it computes. */
module Quicksort {
  import opened ExchangeSort

  function Lesser<T>(s: seq<T>, pivot: int, key: T -> int): (r: seq<T>)
    ensures |r| <= |s|
  {
    if s == [] then [] else (if key(s[0]) < pivot then [s[0]] else []) + Lesser(s[1..], pivot, key)
  }

  function Greater<T>(s: seq<T>, pivot: int, key: T -> int): (r: seq<T>)
    ensures |r| <= |s|
  {
    if s == [] then [] else (if key(s[0]) < pivot then [] else [s[0]]) + Greater(s[1..], pivot, key)
  }

  function Quick<T>(s: seq<T>, key: T -> int): seq<T>
    decreases |s|
  {
    if s == [] then [] else
    var pivot := key(s[0]);
    Quick(Lesser(s[1..], pivot, key), key) + [s[0]] + Quick(Greater(s[1..], pivot, key), key)
  }

  /** The elements of s whose key is v, in the order of s. */
  function Having<T>(s: seq<T>, v: int, key: T -> int): seq<T>
  {
    if s == [] then [] else (if key(s[0]) == v then [s[0]] else []) + Having(s[1..], v, key)
  }

  lemma PartsCons<T>(x: T, s: seq<T>, pivot: int, key: T -> int)
    ensures Lesser([x] + s, pivot, key) == (if key(x) < pivot then [x] else []) + Lesser(s, pivot, key)
    ensures Greater([x] + s, pivot, key) == (if key(x) < pivot then [] else [x]) + Greater(s, pivot, key)
    ensures Lesser([], pivot, key) == Greater([], pivot, key) == []
  {
    assert ([x] + s)[1..] == s;
  }

  lemma {:induction false} PartsAppend<T>(s: seq<T>, x: T, pivot: int, key: T -> int)
    ensures Lesser(s + [x], pivot, key) == Lesser(s, pivot, key) + if key(x) < pivot then [x] else []
    ensures Greater(s + [x], pivot, key) == Greater(s, pivot, key) + if key(x) < pivot then [] else [x]
  {
    hide Lesser, Greater;
    if s == [] {
      PartsCons(x, [], pivot, key);
      assert s + [x] == [x] + [] == [x];
    } else {
      PartsAppend(s[1..], x, pivot, key);
      PartsCons(s[0], s[1..], pivot, key);
      PartsCons(s[0], s[1..] + [x], pivot, key);
      assert s == [s[0]] + s[1..];
      assert s + [x] == [s[0]] + (s[1..] + [x]);
    }
  }

  lemma {:induction false} PartsMultiset<T>(s: seq<T>, pivot: int, key: T -> int)
    ensures multiset(Lesser(s, pivot, key)) + multiset(Greater(s, pivot, key)) == multiset(s)
    ensures forall x | x in Lesser(s, pivot, key) :: key(x) < pivot
    ensures forall x | x in Greater(s, pivot, key) :: key(x) >= pivot
  {
    hide Lesser, Greater;
    if s == [] {
      PartsEmpty(pivot, key);
    } else {
      PartsMultiset(s[1..], pivot, key);
      PartsCons(s[0], s[1..], pivot, key);
      assert s == [s[0]] + s[1..];
    }
  }

  lemma {:induction false} QuickMultiset<T>(s: seq<T>, key: T -> int)
    ensures multiset(Quick(s, key)) == multiset(s)
    decreases |s|
  {
    hide Quick, Lesser, Greater;
    if s == [] {
      QuickEmpty(s, key);
    } else {
      var (l, g) := (Lesser(s[1..], key(s[0]), key), Greater(s[1..], key(s[0]), key));
      PartsMultiset(s[1..], key(s[0]), key);
      QuickMultiset(l, key);
      QuickMultiset(g, key);
      QuickSplits(s, key);
      assert s == [s[0]] + s[1..];
    }
  }

  lemma SameElements<T>(a: seq<T>, b: seq<T>)
    requires multiset(a) == multiset(b)
    ensures forall x :: x in a <==> x in b
  {
    forall x
      ensures x in a <==> x in b
    {
      SameElement(a, b, x);
    }
  }

  lemma SameElement<T>(a: seq<T>, b: seq<T>, x: T)
    requires multiset(a) == multiset(b)
    ensures x in a <==> x in b
  {
    assert x in a <==> x in multiset(a);
    assert x in b <==> x in multiset(b);
  }

  lemma SortedJoin<T>(a: seq<T>, x: T, b: seq<T>, key: T -> int)
    requires SortedBy(a, key) && SortedBy(b, key)
    requires (forall y | y in a :: key(y) <= key(x)) && (forall y | y in b :: key(x) <= key(y))
    ensures SortedBy(a + [x] + b, key)
  {
  }

  /** What lies to either side of the first element after sorting. */
  lemma QuickSides<T>(s: seq<T>, key: T -> int)
    requires s != []
    ensures var (l, g) := (Lesser(s[1..], key(s[0]), key), Greater(s[1..], key(s[0]), key));
      && Quick(s, key) == Quick(l, key) + [s[0]] + Quick(g, key)
      && (forall x | x in Quick(l, key) :: key(x) < key(s[0]))
      && (forall x | x in Quick(g, key) :: key(s[0]) <= key(x))
  {
    hide Quick, Lesser, Greater;
    var (l, g) := (Lesser(s[1..], key(s[0]), key), Greater(s[1..], key(s[0]), key));
    QuickSplits(s, key);
    PartsMultiset(s[1..], key(s[0]), key);
    QuickMultiset(l, key);
    QuickMultiset(g, key);
    forall x | x in Quick(l, key)
      ensures key(x) < key(s[0])
    {
      SameElement(Quick(l, key), l, x);
    }
    forall x | x in Quick(g, key)
      ensures key(s[0]) <= key(x)
    {
      SameElement(Quick(g, key), g, x);
    }
  }

  lemma QuickSplits<T>(s: seq<T>, key: T -> int)
    requires s != []
    ensures Quick(s, key) ==
            Quick(Lesser(s[1..], key(s[0]), key), key) + [s[0]] + Quick(Greater(s[1..], key(s[0]), key), key)
  {
  }

  lemma {:induction false} QuickSorted<T>(s: seq<T>, key: T -> int)
    ensures SortedBy(Quick(s, key), key)
    decreases |s|
  {
    hide Quick, Lesser, Greater, SortedBy;
    if s == [] {
      QuickEmpty(s, key);
    } else {
      var (l, g) := (Lesser(s[1..], key(s[0]), key), Greater(s[1..], key(s[0]), key));
      QuickSorted(l, key);
      QuickSorted(g, key);
      QuickSides(s, key);
      SortedJoin(Quick(l, key), s[0], Quick(g, key), key);
    }
  }

  lemma QuickEmpty<T>(s: seq<T>, key: T -> int)
    requires s == []
    ensures Quick(s, key) == [] && SortedBy(Quick(s, key), key)
  {
  }

  lemma HavingCons<T>(x: T, s: seq<T>, v: int, key: T -> int)
    ensures Having([x] + s, v, key) == (if key(x) == v then [x] else []) + Having(s, v, key)
    ensures Having([], v, key) == []
  {
    assert ([x] + s)[1..] == s;
  }

  lemma {:induction false} HavingJoin<T>(a: seq<T>, b: seq<T>, v: int, key: T -> int)
    ensures Having(a + b, v, key) == Having(a, v, key) + Having(b, v, key)
  {
    if a == [] {
      assert a + b == b;
    } else {
      hide Having;
      HavingJoin(a[1..], b, v, key);
      HavingCons(a[0], a[1..], v, key);
      HavingCons(a[0], a[1..] + b, v, key);
      assert a == [a[0]] + a[1..];
      assert a + b == [a[0]] + (a[1..] + b);
    }
  }

  /** Elements of one key stay on one side of the pivot, in their order. */
  lemma {:induction false} HavingParts<T>(s: seq<T>, pivot: int, v: int, key: T -> int)
    ensures Having(Lesser(s, pivot, key), v, key) == if v < pivot then Having(s, v, key) else []
    ensures Having(Greater(s, pivot, key), v, key) == if v < pivot then [] else Having(s, v, key)
  {
    if s != [] {
      HavingParts(s[1..], pivot, v, key);
      HavingJoin(if key(s[0]) < pivot then [s[0]] else [], Lesser(s[1..], pivot, key), v, key);
      HavingJoin(if key(s[0]) < pivot then [] else [s[0]], Greater(s[1..], pivot, key), v, key);
    }
  }

  /** The sort is stable: elements of equal key keep their order. */
  lemma {:induction false} QuickStable<T>(s: seq<T>, v: int, key: T -> int)
    ensures Having(Quick(s, key), v, key) == Having(s, v, key)
    decreases |s|
  {
    if s != [] {
      var pivot := key(s[0]);
      var (l, g) := (Lesser(s[1..], pivot, key), Greater(s[1..], pivot, key));
      HavingParts(s[1..], pivot, v, key);
      QuickStable(l, v, key);
      QuickStable(g, v, key);
      HavingJoin(Quick(l, key), [s[0]], v, key);
      HavingJoin(Quick(l, key) + [s[0]], Quick(g, key), v, key);
    }
  }

  lemma {:induction false} HavingFirst<T>(s: seq<T>, v: int, key: T -> int)
    ensures Having(s, v, key) != [] ==> Having(s, v, key)[0] in s && key(Having(s, v, key)[0]) == v
    ensures forall x | x in s && key(x) == v :: Having(s, v, key) != []
  {
    if s != [] { HavingFirst(s[1..], v, key); }
  }

  /** Order by key and order among equals leave no choice: they determine the sequence. */
  lemma {:induction false} StableUnique<T>(a: seq<T>, b: seq<T>, key: T -> int)
    requires SortedBy(a, key) && SortedBy(b, key)
    requires forall v :: Having(a, v, key) == Having(b, v, key)
    ensures a == b
  {
    if a == [] || b == [] {
      if a != [] { HavingFirst(a, key(a[0]), key); HavingFirst(b, key(a[0]), key); }
      if b != [] { HavingFirst(b, key(b[0]), key); HavingFirst(a, key(b[0]), key); }
    } else {
      HavingFirst(a, key(b[0]), key);
      HavingFirst(b, key(a[0]), key);
      HavingFirst(b, key(b[0]), key);
      HavingFirst(a, key(a[0]), key);
      assert key(a[0]) == key(b[0]);
      assert Having(a, key(a[0]), key)[0] == a[0] && Having(b, key(b[0]), key)[0] == b[0];
      forall v
        ensures Having(a[1..], v, key) == Having(b[1..], v, key)
      {
        HavingRest(a, v, key);
        HavingRest(b, v, key);
      }
      StableUnique(a[1..], b[1..], key);
    }
  }

  lemma HavingRest<T>(s: seq<T>, v: int, key: T -> int)
    requires s != []
    ensures Having(s[1..], v, key) ==
            if key(s[0]) == v then Having(s, v, key)[1..] else Having(s, v, key)
  {
  }

  /** r has the elements of s in order of key, those of equal key in the order of s. */
  ghost predicate StableSortOf<T>(r: seq<T>, s: seq<T>, key: T -> int)
  {
    SortedBy(r, key) && forall v :: Having(r, v, key) == Having(s, v, key)
  }

  /** The quicksort is the stable sort, and nothing else is. */
  lemma QuickIsTheStableSort<T>(s: seq<T>, r: seq<T>, key: T -> int)
    ensures r == Quick(s, key) <==> StableSortOf(r, s, key)
  {
    QuickSorted(s, key);
    forall v
      ensures Having(Quick(s, key), v, key) == Having(s, v, key)
    {
      QuickStable(s, v, key);
    }
    if StableSortOf(r, s, key) {
      StableUnique(r, Quick(s, key), key);
    }
  }

  function Keys<T>(s: seq<T>, key: T -> int): (r: seq<int>)
    ensures |r| == |s| && forall i | 0 <= i < |s| :: r[i] == key(s[i])
  {
    seq(|s|, i requires 0 <= i < |s| => key(s[i]))
  }

  lemma KeysCons<T>(x: T, s: seq<T>, key: T -> int)
    ensures Keys([x] + s, key) == [key(x)] + Keys(s, key)
  {
  }

  lemma KeysJoin<T>(a: seq<T>, b: seq<T>, key: T -> int)
    ensures Keys(a + b, key) == Keys(a, key) + Keys(b, key)
  {
  }

  lemma {:induction false} KeysOfParts<T>(s: seq<T>, pivot: int, key: T -> int)
    ensures Keys(Lesser(s, pivot, key), key) == Lesser(Keys(s, key), pivot, x => x)
    ensures Keys(Greater(s, pivot, key), key) == Greater(Keys(s, key), pivot, x => x)
  {
    hide Lesser, Greater, Keys;
    if s == [] {
      PartsEmpty(pivot, key);
      PartsEmpty(pivot, (x: int) => x);
    } else {
      var (x, rest) := (s[0], s[1..]);
      assert s == [x] + rest;
      KeysOfParts(rest, pivot, key);
      KeysCons(x, rest, key);
      PartsCons(x, rest, pivot, key);
      PartsCons(key(x), Keys(rest, key), pivot, (x: int) => x);
      KeysCons(x, Lesser(rest, pivot, key), key);
      KeysCons(x, Greater(rest, pivot, key), key);
    }
  }

  lemma PartsEmpty<T>(pivot: int, key: T -> int)
    ensures Lesser([], pivot, key) == Greater([], pivot, key) == [] && Keys<T>([], key) == []
  {
  }

  /** Sorting nodes by value and sorting their values come to the same. */
  lemma {:induction false} KeysOfQuick<T>(s: seq<T>, key: T -> int)
    ensures Keys(Quick(s, key), key) == Quick(Keys(s, key), x => x)
    decreases |s|
  {
    if s != [] {
      var (l, g) := (Lesser(s[1..], key(s[0]), key), Greater(s[1..], key(s[0]), key));
      KeysOfQuick(l, key);
      KeysOfQuick(g, key);
      KeysOfParts(s[1..], key(s[0]), key);
      assert Keys(s, key)[1..] == Keys(s[1..], key);
      KeysJoin(Quick(l, key) + [s[0]], Quick(g, key), key);
      KeysJoin(Quick(l, key), [s[0]], key);
    }
  }
}

/** exercises/ex15/array.c */
module ArrayQuicksort {
  import opened ExchangeSort
  import opened Quicksort

  /** The elements of s that lie from position lo on, n of them. */
  function Window(s: seq<int>, lo: nat, n: nat): (r: seq<int>)
    requires lo + n <= |s|
    ensures |r| == n && forall k | 0 <= k < n :: r[k] == s[lo + k]
  {
    s[lo..lo + n]
  }

  /** s and t agree outside a window and hold the same elements. */
  ghost predicate Rearranged(s: seq<int>, t: seq<int>, lo: nat, n: nat)
  {
    && lo + n <= |s| == |t| && s[..lo] == t[..lo] && s[lo + n..] == t[lo + n..]
    && multiset(s) == multiset(t)
  }

  lemma WindowMultiset(s: seq<int>, t: seq<int>, lo: nat, n: nat)
    requires Rearranged(s, t, lo, n)
    ensures multiset(Window(s, lo, n)) == multiset(Window(t, lo, n))
  {
    WindowRest(s, lo, n);
    WindowRest(t, lo, n);
  }

  lemma WindowRest(s: seq<int>, lo: nat, n: nat)
    requires lo + n <= |s|
    ensures multiset(Window(s, lo, n)) == multiset(s) - multiset(s[..lo]) - multiset(s[lo + n..])
  {
    assert s == s[..lo] + Window(s, lo, n) + s[lo + n..];
  }

  lemma SwapRearranges(s: seq<int>, lo: nat, n: nat, i: nat, j: nat)
    requires lo <= i < lo + n <= |s| && lo <= j < lo + n
    ensures Rearranged(s, s[i := s[j]][j := s[i]], lo, n)
  {
  }

  /** Swaps two elements of a window. */
  method Swap(a: array<int>, ghost lo: nat, ghost n: nat, i: nat, j: nat)
    requires lo <= i < lo + n <= a.Length && lo <= j < lo + n
    modifies a
    ensures a[i] == old(a[j]) && a[j] == old(a[i])
    ensures forall k | 0 <= k < a.Length && k != i && k != j :: a[k] == old(a[k])
    ensures Rearranged(old(a[..]), a[..], lo, n)
  {
    hide Rearranged;
    SwapRearranges(a[..], lo, n, i, j);
    ghost var s := a[..];
    a[i], a[j] := a[j], a[i];
    assert a[..] == s[i := s[j]][j := s[i]];
  }

  lemma RearrangedNone(s: seq<int>, lo: nat, n: nat)
    requires lo + n <= |s|
    ensures Rearranged(s, s, lo, n)
  {
  }

  /** The partition: the first value goes to position lower, what is less before it, the rest behind. */
  method Partition(a: array<int>, lo: nat, n: nat) returns (lower: nat)
    requires n > 0 && lo + n <= a.Length
    modifies a
    ensures lower < n && a[lo + lower] == old(a[lo]) && Rearranged(old(a[..]), a[..], lo, n)
    ensures forall k | lo <= k < lo + lower :: a[k] < a[lo + lower]
    ensures forall k | lo + lower < k < lo + n :: a[k] >= a[lo + lower]
  {
    hide Rearranged;
    RearrangedNone(a[..], lo, n);
    var pivot := a[lo];
    lower := 0;
    var i := 1;
    while i < n
      invariant 0 <= lower < i <= n && a[lo] == pivot
      invariant forall k | lo < k <= lo + lower :: a[k] < pivot
      invariant forall k | lo + lower < k < lo + i :: a[k] >= pivot
      invariant Rearranged(old(a[..]), a[..], lo, n)
    {
      if a[lo + i] < pivot {
        lower := lower + 1;
        ghost var t := a[..];
        Swap(a, lo, n, lo + lower, lo + i);
        RearrangedTwice(old(a[..]), t, a[..], lo, n, lo, n);
      }
      i := i + 1;
    }
    ghost var t := a[..];
    Swap(a, lo, n, lo, lo + lower);
    RearrangedTwice(old(a[..]), t, a[..], lo, n, lo, n);
  }

  lemma RearrangedTwice(s: seq<int>, t: seq<int>, u: seq<int>, lo: nat, n: nat, from: nat, m: nat)
    requires Rearranged(s, t, lo, n) && Rearranged(t, u, from, m) && lo <= from && from + m <= lo + n
    ensures Rearranged(s, u, lo, n)
  {
    assert u[..lo] == u[..from][..lo] == t[..from][..lo] == t[..lo];
    assert u[lo + n..] == u[from + m..][lo + n - from - m..] == t[from + m..][lo + n - from - m..] == t[lo + n..];
  }

  lemma WindowKept(s: seq<int>, t: seq<int>, lo: nat, n: nat, from: nat, m: nat)
    requires Rearranged(s, t, lo, n) && from + m <= |s| && (from + m <= lo || lo + n <= from)
    ensures Window(s, from, m) == Window(t, from, m)
  {
    forall k | 0 <= k < m
      ensures Window(s, from, m)[k] == Window(t, from, m)[k]
    {
      if from + m <= lo {
        assert s[from + k] == s[..lo][from + k] == t[..lo][from + k];
      } else {
        assert s[from + k] == s[lo + n..][from + k - lo - n] == t[lo + n..][from + k - lo - n];
      }
    }
  }

  /** Sorting both sides of a partition sorts the window. */
  lemma SidesSorted(t: seq<int>, u: seq<int>, v: seq<int>, lo: nat, n: nat, lower: nat)
    requires lower < n && lo + n <= |t|
    requires forall k | lo <= k < lo + lower :: t[k] < t[lo + lower]
    requires forall k | lo + lower < k < lo + n :: t[k] >= t[lo + lower]
    requires Rearranged(t, u, lo, lower) && SortedBy(Window(u, lo, lower), x => x)
    requires Rearranged(u, v, lo + lower + 1, n - lower - 1)
    requires SortedBy(Window(v, lo + lower + 1, n - lower - 1), x => x)
    ensures SortedBy(Window(v, lo, n), x => x)
  {
    hide SortedBy, Rearranged;
    var (mid, m) := (lo + lower, n - lower - 1);
    Lengths(t, u, lo, lower);
    Lengths(u, v, mid + 1, m);
    var (l, g) := (Window(v, lo, lower), Window(v, mid + 1, m));
    WindowKept(u, v, mid + 1, m, lo, lower);
    WindowKept(t, u, lo, lower, mid + 1, m);
    WindowKept(t, u, lo, lower, mid, 1);
    WindowKept(u, v, mid + 1, m, mid, 1);
    WindowMultiset(t, u, lo, lower);
    WindowMultiset(u, v, mid + 1, m);
    SameElements(l, Window(t, lo, lower));
    SameElements(g, Window(t, mid + 1, m));
    assert Window(v, mid, 1)[0] == Window(t, mid, 1)[0];
    SortedJoin(l, v[mid], g, x => x);
    WindowSplits(v, lo, n, lower);
  }

  lemma WindowSplits(s: seq<int>, lo: nat, n: nat, lower: nat)
    requires lower < n && lo + n <= |s|
    ensures Window(s, lo, n) == Window(s, lo, lower) + [s[lo + lower]] + Window(s, lo + lower + 1, n - lower - 1)
  {
  }

  lemma Lengths(s: seq<int>, t: seq<int>, lo: nat, n: nat)
    requires Rearranged(s, t, lo, n)
    ensures |s| == |t| && lo + n <= |s|
  {
  }

  /** sort(seq + lo, n) */
  method SortWindow(a: array<int>, lo: nat, n: nat)
    requires lo + n <= a.Length
    modifies a
    ensures Rearranged(old(a[..]), a[..], lo, n) && SortedBy(Window(a[..], lo, n), x => x)
    decreases n
  {
    if n <= 1 {
      return;
    }
    ghost var s := a[..];
    var lower := Partition(a, lo, n);
    ghost var t := a[..];
    SortWindow(a, lo, lower);
    ghost var u := a[..];
    SortWindow(a, lo + lower + 1, n - lower - 1);
    SidesSorted(t, u, a[..], lo, n, lower);
    RearrangedTwice(s, t, u, lo, n, lo, lower);
    RearrangedTwice(s, u, a[..], lo, n, lo + lower + 1, n - lower - 1);
  }

  /** The in-place sort computes the shared quicksort. */
  method Sort(a: array<int>)
    modifies a
    ensures a[..] == Quick(old(a[..]), x => x)
  {
    SortWindow(a, 0, a.Length);
    assert Window(a[..], 0, a.Length) == a[..];
    QuickSorted(old(a[..]), x => x);
    QuickMultiset(old(a[..]), x => x);
    SortedUnique(a[..], Quick(old(a[..]), x => x));
  }
}

/** exercises/ex15/linked.c */
module LinkedQuicksort {
  import opened Common
  import opened Quicksort

  class Node {
    const val: int
    var next: Node?

    constructor (val: int)
      ensures this.val == val && next == null
    {
      this.val := val;
      next := null;
    }
  }

  class List {
    var head: Node?
    var tail: Node?

    constructor ()
      ensures head == null && tail == null
    {
      head, tail := null, null;
    }
  }

  ghost function Val(): Node -> int { (n: Node) => n.val }

  ghost function All(s: seq<Node>): set<Node> { set n | n in s }

  /** list consists of these nodes: head is the first, tail the last, and null ends the chain. */
  ghost predicate Linked(list: List, nodes: seq<Node>)
    reads list, All(nodes)
  {
    && list.head == (if nodes == [] then null else nodes[0])
    && list.tail == (if nodes == [] then null else nodes[|nodes| - 1])
    && ChainFrom(nodes)
  }

  ghost predicate ChainFrom(nodes: seq<Node>)
    reads All(nodes)
  {
    forall k {:trigger nodes[k].next} | 0 <= k < |nodes| ::
      nodes[k].next == if k + 1 < |nodes| then nodes[k + 1] else null
  }

  /** Links node in at the tail end. */
  method Append(list: List, node: Node, ghost nodes: seq<Node>)
    requires Linked(list, nodes) && Distinct(nodes) && node !in nodes && node.next == null
    modifies list, All(nodes)
    ensures Linked(list, nodes + [node])
  {
    if list.tail != null {
      list.tail.next := node;
    } else {
      list.head := node;
    }
    list.tail := node;
  }

  lemma DistinctParts(s: seq<Node>, pivot: int)
    requires Distinct(s)
    ensures Distinct(Lesser(s, pivot, Val())) && Distinct(Greater(s, pivot, Val()))
    ensures forall x | x in Lesser(s, pivot, Val()) :: x in s && x !in Greater(s, pivot, Val())
    ensures forall x | x in Greater(s, pivot, Val()) :: x in s
  {
    PartsMultiset(s, pivot, Val());
    DistinctOnce(s);
    var (l, g) := (Lesser(s, pivot, Val()), Greater(s, pivot, Val()));
    forall x
      ensures x in l ==> x in s && multiset(l)[x] <= 1
      ensures x in g ==> x in s && multiset(g)[x] <= 1
    {
      assert multiset(l)[x] + multiset(g)[x] == multiset(s)[x];
      assert x in s <==> x in multiset(s);
    }
    OnceDistinct(l);
    OnceDistinct(g);
  }

  lemma OnceDistinct(s: seq<Node>)
    requires forall x :: multiset(s)[x] <= 1
    ensures Distinct(s)
  {
    forall i, j | 0 <= i < j < |s|
      ensures s[i] != s[j]
    {
      if s[i] == s[j] { CountTwice(s, i, j); }
    }
  }

  /** The sort keeps the nodes it is given. */
  lemma QuickNodes(s: seq<Node>)
    ensures forall x | x in Quick(s, Val()) :: x in s
    ensures Distinct(s) ==> Distinct(Quick(s, Val()))
  {
    QuickMultiset(s, Val());
    forall x | x in Quick(s, Val())
      ensures x in s
    {
      SameElement(Quick(s, Val()), s, x);
    }
    if Distinct(s) {
      DistinctOnce(s);
      OnceDistinct(Quick(s, Val()));
    }
  }

  /** Links node in at the tail end of one of the lists. */
  method Place(lesser: List, greater: List, node: Node, pivot: int, ghost l: seq<Node>, ghost g: seq<Node>)
    returns (ghost l': seq<Node>, ghost g': seq<Node>)
    requires lesser != greater && Linked(lesser, l) && Linked(greater, g) && Distinct(l) && Distinct(g)
    requires (forall x | x in l :: x !in g) && node !in l && node !in g && node.next == null
    modifies lesser, greater, All(l), All(g)
    ensures l' == l + (if node.val < pivot then [node] else []) && Linked(lesser, l')
    ensures g' == g + (if node.val < pivot then [] else [node]) && Linked(greater, g')
  {
    if node.val < pivot {
      Append(lesser, node, l);
      l', g' := l + [node], g;
    } else {
      Append(greater, node, g);
      l', g' := l, g + [node];
    }
  }

  /** The loop: cuts the chain behind the pivot into a lesser and a greater list. */
  method Partition(pivot: Node, first: Node?, ghost rest: seq<Node>) returns (lesser: List, greater: List)
    requires Distinct(rest) && pivot !in rest && ChainFrom(rest) && first == if rest == [] then null else rest[0]
    modifies All(rest)
    ensures fresh(lesser) && fresh(greater) && lesser != greater
    ensures Linked(lesser, Lesser(rest, pivot.val, Val()))
    ensures Linked(greater, Greater(rest, pivot.val, Val()))
  {
    hide Lesser, Greater, Distinct;
    lesser := new List();
    greater := new List();
    var curr := first;
    ghost var (k, l: seq<Node>, g: seq<Node>) := (0, [], []);
    PartsEmpty(pivot.val, Val());
    assert rest[..0] == [];
    while curr != null
      invariant 0 <= k <= |rest| && curr == (if k < |rest| then rest[k] else null)
      invariant forall j {:trigger rest[j].next} | k <= j < |rest| ::
                  rest[j].next == if j + 1 < |rest| then rest[j + 1] else null
      invariant fresh(lesser) && fresh(greater) && lesser != greater
      invariant l == Lesser(rest[..k], pivot.val, Val()) && g == Greater(rest[..k], pivot.val, Val())
      invariant Linked(lesser, l) && Linked(greater, g)
      decreases |rest| - k
    {
      var next := curr.next;
      PartsNext(rest, k, pivot.val, l, g);
      curr.next := null;
      l, g := Place(lesser, greater, curr, pivot.val, l, g);
      curr, k := next, k + 1;
    }
    assert rest[..k] == rest;
  }

  lemma PartsNext(rest: seq<Node>, k: nat, pivot: int, l: seq<Node>, g: seq<Node>)
    requires Distinct(rest) && k < |rest|
    requires l == Lesser(rest[..k], pivot, Val()) && g == Greater(rest[..k], pivot, Val())
    ensures Distinct(l) && Distinct(g) && rest[k] !in l && rest[k] !in g
    ensures forall x | x in l :: x in rest && x !in rest[k..] && x !in g
    ensures forall x | x in g :: x in rest && x !in rest[k..]
    ensures forall j | k < j < |rest| :: rest[j] != rest[k]
    ensures Lesser(rest[..k + 1], pivot, Val()) == l + if rest[k].val < pivot then [rest[k]] else []
    ensures Greater(rest[..k + 1], pivot, Val()) == g + if rest[k].val < pivot then [] else [rest[k]]
  {
    hide Lesser, Greater;
    assert rest[..k + 1] == rest[..k] + [rest[k]];
    PartsAppend(rest[..k], rest[k], pivot, Val());
    DistinctParts(rest[..k], pivot);
    forall x | x in rest[..k]
      ensures x in rest && x !in rest[k..]
    {
    }
  }

  /** Lesser + pivot + greater. */
  method Join(list: List, lesser: List, pivot: Node, greater: List, ghost l: seq<Node>, ghost g: seq<Node>)
    requires Linked(lesser, l) && Linked(greater, g) && Distinct(l) && Distinct(g)
    requires pivot !in l && pivot !in g && (forall x | x in l :: x !in g)
    requires list != lesser && list != greater
    modifies list, pivot, All(l)
    ensures Linked(list, l + [pivot] + g)
  {
    if lesser.head != null {
      list.head := lesser.head;
      lesser.tail.next := pivot;
    } else {
      list.head := pivot;
    }
    pivot.next := greater.head;
    list.tail := if greater.tail != null then greater.tail else pivot;
    ghost var all := l + [pivot] + g;
    forall k | 0 <= k < |all|
      ensures all[k].next == if k + 1 < |all| then all[k + 1] else null
    {
      if k < |l| {
        assert all[k] == l[k];
      } else if k > |l| {
        assert all[k] == g[k - |l| - 1];
      }
    }
  }

  /** sort(list): the same nodes, relinked in the order of the shared quicksort. */
  method Sort(list: List, ghost nodes: seq<Node>)
    requires Linked(list, nodes) && Distinct(nodes)
    modifies list, All(nodes)
    ensures Linked(list, Quick(nodes, Val()))
    decreases |nodes|
  {
    hide Lesser, Greater, Quick;
    if list.head == null || list.head.next == null {
      QuickTrivial(nodes);
      return;
    }
    var pivot := list.head;
    RestParts(nodes);
    var lesser, greater := Partition(pivot, pivot.next, nodes[1..]);
    ghost var (l, g) := (Lesser(nodes[1..], pivot.val, Val()), Greater(nodes[1..], pivot.val, Val()));
    Sort(lesser, l);
    Sort(greater, g);
    Join(list, lesser, pivot, greater, Quick(l, Val()), Quick(g, Val()));
    QuickSplits(nodes, Val());
  }

  lemma QuickTrivial(nodes: seq<Node>)
    ensures |nodes| <= 1 ==> Quick(nodes, Val()) == nodes
  {
  }

  /** The parts that are sorted apart share no node, nor do their sorted forms. */
  lemma RestParts(nodes: seq<Node>)
    requires Distinct(nodes) && nodes != []
    ensures var (l, g) := (Lesser(nodes[1..], nodes[0].val, Val()), Greater(nodes[1..], nodes[0].val, Val()));
      && Distinct(l) && Distinct(g) && Distinct(Quick(l, Val())) && Distinct(Quick(g, Val()))
      && (forall x | x in l :: x in nodes && x != nodes[0] && x !in g)
      && (forall x | x in g :: x in nodes && x != nodes[0])
      && (forall x | x in Quick(l, Val()) :: x in nodes && x != nodes[0] && x !in g && x !in Quick(g, Val()))
      && (forall x | x in Quick(g, Val()) :: x in nodes && x != nodes[0])
  {
    hide Lesser, Greater, Quick;
    var rest := nodes[1..];
    var (l, g) := (Lesser(rest, nodes[0].val, Val()), Greater(rest, nodes[0].val, Val()));
    DistinctParts(rest, nodes[0].val);
    QuickNodes(l);
    QuickNodes(g);
    assert forall x | x in rest :: x in nodes && x != nodes[0];
    forall x | x in Quick(g, Val())
      ensures x in g
    {
    }
  }
}

/** The two programs on the same values. */
module TwoQuicksorts {
  import opened Common
  import opened Quicksort
  import opened LinkedQuicksort
  import ArrayQuicksort

  /** An array and a list that hold the same values in the same order do so after both are sorted. */
  method SortBoth(a: array<int>, list: List, ghost nodes: seq<Node>)
    requires Linked(list, nodes) && Distinct(nodes) && a[..] == Keys(nodes, Val())
    modifies a, list, All(nodes)
    ensures Linked(list, Quick(nodes, Val())) && a[..] == Keys(Quick(nodes, Val()), Val())
  {
    hide Quick, Keys, ChainFrom, Distinct;
    KeysOfQuick(nodes, Val());
    ArrayQuicksort.Sort(a);
    Sort(list, nodes);
  }
}
