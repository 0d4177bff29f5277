/** Counting the triangles of a list: assignments/hw2/triangles.c, assignments/hw3/triangles-thread.c
    and assignments/hw6/triangles.cu divide the same set of index triples in different ways. */
module Triangles {
  import opened Common


  type Triple = (nat, nat, nat)

  predicate IsTriangle(a: int, b: int, c: int)
  {
    a + b > c && a + c > b && b + c > a
  }

  function Longest(a: int, b: int, c: int): (m: int)
    ensures m >= a && m >= b && m >= c && (m == a || m == b || m == c)
  {
    if a >= b && a >= c then a else if b >= c then b else c
  }

  /** Three sides make a triangle exactly if the longest is shorter than the other two together, in whatever
      order they are given; then all are positive. */
  lemma TriangleIs(a: int, b: int, c: int)
    ensures IsTriangle(a, b, c) <==> 2 * Longest(a, b, c) < a + b + c
    ensures IsTriangle(a, b, c) ==> a > 0 && b > 0 && c > 0
    ensures IsTriangle(a, b, c) == IsTriangle(b, a, c) == IsTriangle(a, c, b)
  {
  }

  /** The index triples i < j < k < n whose values form a triangle. */
  ghost function Triples(v: seq<int>, n: nat): set<Triple>
    requires n <= |v|
  {
    set i: nat, j: nat, k: nat | i < j < k < n && IsTriangle(v[i], v[j], v[k]) :: (i, j, k)
  }

  /** The part of s with key w. */
  ghost function Part(s: set<Triple>, key: Triple -> nat, w: nat): set<Triple>
  {
    set t | t in s && key(t) == w
  }

  /** The sizes of the parts 0 .. n - 1, added up. */
  ghost function SumParts(s: set<Triple>, key: Triple -> nat, n: nat): nat
  {
    if n == 0 then 0 else SumParts(s, key, n - 1) + |Part(s, key, n - 1)|
  }

  lemma {:induction false} SumPartsIsBelow(s: set<Triple>, key: Triple -> nat, n: nat)
    ensures SumParts(s, key, n) == |set t | t in s && key(t) < n|
  {
    var below := set t | t in s && key(t) < n;
    if n == 0 {
      assert below == {};
    } else {
      SumPartsIsBelow(s, key, n - 1);
      var before := set t | t in s && key(t) < n - 1;
      assert below == before + Part(s, key, n - 1);
      assert before !! Part(s, key, n - 1);
    }
  }

  /** However the triples are keyed, the parts together count each triple once. */
  lemma SumPartsIsAll(s: set<Triple>, key: Triple -> nat, n: nat)
    requires forall t | t in s :: key(t) < n
    ensures SumParts(s, key, n) == |s|
  {
    SumPartsIsBelow(s, key, n);
    assert s == set t | t in s && key(t) < n;
  }

  // ----- by first index, every workers-th index to a worker (hw2, hw3) -----

  function Stride(workers: nat): Triple -> nat
    requires workers > 0
  {
    (t: Triple) => t.0 % workers
  }

  /** The triples of worker wid that its loops have passed when they stand at (i, j, k). */
  ghost function Passed(v: seq<int>, workers: nat, wid: nat, i: nat, j: nat, k: nat): set<Triple>
    requires workers > 0
  {
    set t | t in Triples(v, |v|) && t.0 % workers == wid
            && (t.0 < i || (t.0 == i && (t.1 < j || (t.1 == j && t.2 < k))))
  }

  lemma PassedOne(v: seq<int>, workers: nat, wid: nat, i: nat, j: nat, k: nat)
    requires workers > 0 && i < j < k < |v| && i % workers == wid
    ensures |Passed(v, workers, wid, i, j, k + 1)| ==
            |Passed(v, workers, wid, i, j, k)| + if IsTriangle(v[i], v[j], v[k]) then 1 else 0
  {
    var before, after, t := Passed(v, workers, wid, i, j, k), Passed(v, workers, wid, i, j, k + 1), (i, j, k);
    assert IsTriangle(v[i], v[j], v[k]) <==> t in Triples(v, |v|);
    hide Triples, IsTriangle;
    assert after == before + if t in Triples(v, |v|) then {t} else {};
    assert t !in before;
  }

  /** Between one index of a stride and the next there is none with the same remainder. */
  lemma BetweenStrides(i: nat, x: nat, workers: nat)
    requires workers > 0 && i < x < i + workers
    ensures x % workers != i % workers
  {
    var q, r := i / workers, i % workers;
    assert i == q * workers + r;
    if r + (x - i) < workers {
      RemainderIs(x, workers, q, r + (x - i));
    } else {
      assert (q + 1) * workers == q * workers + workers;
      RemainderIs(x, workers, q + 1, r + (x - i) - workers);
    }
  }

  lemma NextStride(i: nat, workers: nat)
    requires workers > 0
    ensures (i + workers) % workers == i % workers
  {
    var q := i / workers;
    assert (q + 1) * workers == q * workers + workers;
    RemainderIs(i + workers, workers, q + 1, i % workers);
  }

  lemma PassedNone(v: seq<int>, workers: nat, wid: nat)
    requires wid < workers
    ensures Passed(v, workers, wid, wid, 0, 0) == {}
  {
    forall t | t in Triples(v, |v|) && t.0 < wid
      ensures t.0 % workers != wid
    {
      RemainderIs(t.0, workers, 0, t.0);
    }
  }

  lemma PassedRow(v: seq<int>, workers: nat, wid: nat, i: nat)
    requires workers > 0
    ensures Passed(v, workers, wid, i, i + 1, i + 2) == Passed(v, workers, wid, i, 0, 0)
  {
  }

  lemma PassedPair(v: seq<int>, workers: nat, wid: nat, i: nat, j: nat)
    requires workers > 0
    ensures Passed(v, workers, wid, i, j, |v|) == Passed(v, workers, wid, i, j + 1, j + 2)
  {
  }

  lemma PassedStride(v: seq<int>, workers: nat, wid: nat, i: nat)
    requires workers > 0 && i % workers == wid && |v| >= 1
    ensures Passed(v, workers, wid, i, |v| - 1, |v|) == Passed(v, workers, wid, i + workers, 0, 0)
  {
    forall t | t in Triples(v, |v|) && i < t.0 < i + workers
      ensures t.0 % workers != wid
    {
      BetweenStrides(i, t.0, workers);
    }
  }

  lemma PassedEverything(v: seq<int>, workers: nat, wid: nat, i: nat)
    requires workers > 0 && i >= |v| - 2
    ensures Passed(v, workers, wid, i, 0, 0) == Part(Triples(v, |v|), Stride(workers), wid)
  {
  }

  /** findTriangles: worker wid counts exactly the triples whose first index is of its stride. */
  method FindTriangles(v: seq<int>, wid: nat, workers: nat) returns (count: nat)
    requires wid < workers
    ensures count == |Part(Triples(v, |v|), Stride(workers), wid)|
  {
    hide Passed, Part, Triples, Stride;
    count := 0;
    var i := wid;
    PassedNone(v, workers, wid);
    RemainderIs(wid, workers, 0, wid);
    while i < |v| - 2
      invariant i % workers == wid && i >= wid
      invariant count == |Passed(v, workers, wid, i, 0, 0)|
    {
      var j := i + 1;
      PassedRow(v, workers, wid, i);
      while j < |v| - 1
        invariant i < j <= |v| - 1
        invariant count == |Passed(v, workers, wid, i, j, j + 1)|
      {
        var k := j + 1;
        while k < |v|
          invariant j < k <= |v|
          invariant count == |Passed(v, workers, wid, i, j, k)|
        {
          PassedOne(v, workers, wid, i, j, k);
          if IsTriangle(v[i], v[j], v[k]) {
            count := count + 1;
          }
          k := k + 1;
        }
        PassedPair(v, workers, wid, i, j);
        j := j + 1;
      }
      PassedStride(v, workers, wid, i);
      NextStride(i, workers);
      i := i + workers;
    }
    PassedEverything(v, workers, wid, i);
  }

  function Sum(counts: seq<int>): int
  {
    if counts == [] then 0 else counts[0] + Sum(counts[1..])
  }

  lemma {:induction false} SumSplit(a: seq<int>, b: seq<int>)
    ensures Sum(a + b) == Sum(a) + Sum(b)
  {
    if a == [] {
      assert a + b == b;
    } else {
      SumSplit(a[1..], b);
      assert (a + b)[1..] == a[1..] + b;
    }
  }

  lemma MultisetWithout<T>(b: seq<T>, i: nat)
    requires i < |b|
    ensures multiset(b[..i] + b[i + 1..]) == multiset(b) - multiset{b[i]}
  {
    assert b == b[..i] + [b[i]] + b[i + 1..];
  }

  lemma SumWithout(b: seq<int>, i: nat)
    requires i < |b|
    ensures Sum(b) == b[i] + Sum(b[..i] + b[i + 1..])
  {
    var front, back := b[..i], b[i + 1..];
    assert b == front + b[i..] && b[i..][1..] == back;
    SumSplit(front, b[i..]);
    SumSplit(front, back);
  }

  function Range(n: nat): seq<nat>
  {
    seq<nat>(n, i requires 0 <= i < n => i)
  }

  /** The counts of these workers, in this order. */
  ghost function CountsOf(v: seq<int>, workers: nat, order: seq<nat>): (counts: seq<int>)
    requires workers > 0
    ensures |counts| == |order|
  {
    seq(|order|, i requires 0 <= i < |order| => |Part(Triples(v, |v|), Stride(workers), order[i])|)
  }

  /** The order in which the workers finish makes no difference to the sum. */
  lemma {:induction false} CountsOfPermutation(v: seq<int>, workers: nat, a: seq<nat>, b: seq<nat>)
    requires workers > 0 && multiset(a) == multiset(b)
    ensures Sum(CountsOf(v, workers, a)) == Sum(CountsOf(v, workers, b))
  {
    hide Part, Triples;
    if a == [] {
      assert |multiset(b)| == 0;
      assert b == [];
    } else {
      assert a[0] in multiset(a);
      assert a[0] in b;
      var i :| 0 <= i < |b| && b[i] == a[0];
      MultisetWithout(b, i);
      assert a == [a[0]] + a[1..];
      CountsOfPermutation(v, workers, a[1..], b[..i] + b[i + 1..]);
      CountsWithout(v, workers, a, 0);
      assert a[..0] + a[1..] == a[1..];
      CountsWithout(v, workers, b, i);
    }
  }

  lemma CountsWithout(v: seq<int>, workers: nat, b: seq<nat>, i: nat)
    requires workers > 0 && i < |b|
    ensures Sum(CountsOf(v, workers, b)) ==
            |Part(Triples(v, |v|), Stride(workers), b[i])| + Sum(CountsOf(v, workers, b[..i] + b[i + 1..]))
  {
    hide Part, Triples;
    var counts := CountsOf(v, workers, b);
    SumWithout(counts, i);
    assert CountsOf(v, workers, b[..i] + b[i + 1..]) == counts[..i] + counts[i + 1..];
  }

  lemma {:induction false} StrideCountsSum(v: seq<int>, workers: nat, n: nat)
    requires workers > 0
    ensures Sum(CountsOf(v, workers, Range(n))) == SumParts(Triples(v, |v|), Stride(workers), n)
  {
    hide Part, Triples;
    if n > 0 {
      StrideCountsSum(v, workers, n - 1);
      var last := |Part(Triples(v, |v|), Stride(workers), n - 1)|;
      assert CountsOf(v, workers, Range(n)) == CountsOf(v, workers, Range(n - 1)) + [last];
      SumSplit(CountsOf(v, workers, Range(n - 1)), [last]);
    }
  }

  lemma RangeIs(workers: nat, order: seq<nat>)
    requires multiset(order) == multiset(Range(workers))
    ensures |order| == workers && forall i | 0 <= i < |order| :: order[i] < workers
  {
    assert |multiset(order)| == |multiset(Range(workers))|;
    forall i | 0 <= i < |order|
      ensures order[i] < workers
    {
      assert order[i] in multiset(order);
      assert order[i] in Range(workers);
    }
  }

  /** hw2: the workers finish in any order, each writing its count to the pipe; the parent reads as
      many counts as there are workers and adds them. */
  method TotalFromPipe(v: seq<int>, workers: nat, order: seq<nat>) returns (total: int)
    requires workers > 0 && multiset(order) == multiset(Range(workers))
    ensures total == |Triples(v, |v|)|
  {
    hide Part, Triples;
    RangeIs(workers, order);
    var pipe: seq<int> := [];
    for i := 0 to |order|
      invariant pipe == CountsOf(v, workers, order)[..i]
    {
      var count := FindTriangles(v, order[i], workers);
      pipe := pipe + [count];
    }
    assert CountsOf(v, workers, order)[..|order|] == CountsOf(v, workers, order);
    total := 0;
    for i := 0 to workers
      invariant total == Sum(pipe[..i])
    {
      SumSplit(pipe[..i], [pipe[i]]);
      assert pipe[..i + 1] == pipe[..i] + [pipe[i]];
      total := total + pipe[i];
    }
    assert pipe[..workers] == pipe;
    CountsOfPermutation(v, workers, order, Range(workers));
    StrideCountsSum(v, workers, workers);
    SumPartsIsAll(Triples(v, |v|), Stride(workers), workers);
  }

  /** hw3: every worker counts into its own slot, main joins them in order and adds. */
  method TotalFromThreads(v: seq<int>, workers: nat) returns (total: nat)
    requires workers > 0
    ensures total == |Triples(v, |v|)|
  {
    total := 0;
    for i := 0 to workers
      invariant total == SumParts(Triples(v, |v|), Stride(workers), i)
    {
      var localCount := FindTriangles(v, i, workers);
      total := total + localCount;
    }
    SumPartsIsAll(Triples(v, |v|), Stride(workers), workers);
  }

  // ----- by last index, one CUDA thread to an index (hw6) -----

  function Last(): Triple -> nat
  {
    (t: Triple) => t.2
  }

  ghost function PassedLast(v: seq<int>, idx: nat, i: nat, j: nat): set<Triple>
    requires idx < |v|
  {
    set t | t in Triples(v, |v|) && t.2 == idx && (t.0 < i || (t.0 == i && t.1 < j))
  }

  lemma PassedLastOne(v: seq<int>, idx: nat, i: nat, j: nat)
    requires i < j < idx < |v|
    ensures |PassedLast(v, idx, i, j + 1)| ==
            |PassedLast(v, idx, i, j)| + if IsTriangle(v[i], v[j], v[idx]) then 1 else 0
  {
    var before, after, t := PassedLast(v, idx, i, j), PassedLast(v, idx, i, j + 1), (i, j, idx);
    assert IsTriangle(v[i], v[j], v[idx]) <==> t in Triples(v, |v|);
    hide Triples, IsTriangle;
    assert after == before + if t in Triples(v, |v|) then {t} else {};
    assert t !in before;
  }

  lemma PassedLastRow(v: seq<int>, idx: nat, i: nat)
    requires idx < |v|
    ensures PassedLast(v, idx, 0, 0) == {}
    ensures PassedLast(v, idx, i, i + 1) == PassedLast(v, idx, i, 0)
    ensures PassedLast(v, idx, i, idx) == PassedLast(v, idx, i + 1, 0)
    ensures i >= idx - 1 ==> PassedLast(v, idx, i, 0) == Part(Triples(v, |v|), Last(), idx)
  {
  }

  /** checkValid: thread idx leaves the number of triples that end at idx in its slot. */
  method CheckValid(v: seq<int>, results: array<int>, idx: nat)
    requires results.Length == |v|
    modifies results
    ensures forall x | 0 <= x < results.Length && x != idx :: results[x] == old(results[x])
    ensures idx < |v| ==> results[idx] == |Part(Triples(v, |v|), Last(), idx)|
  {
    hide PassedLast, Triples, Part, Last;
    if idx >= |v| {
      return;
    }
    var localCount := 0;
    var i := 0;
    PassedLastRow(v, idx, 0);
    while i < idx - 1
      invariant 0 <= i && (i == 0 || i <= idx - 1)
      invariant localCount == |PassedLast(v, idx, i, 0)| && unchanged(results)
    {
      var j := i + 1;
      PassedLastRow(v, idx, i);
      while j < idx
        invariant i < j <= idx
        invariant localCount == |PassedLast(v, idx, i, j)| && unchanged(results)
      {
        PassedLastOne(v, idx, i, j);
        if IsTriangle(v[i], v[j], v[idx]) {
          localCount := localCount + 1;
        }
        j := j + 1;
      }
      i := i + 1;
    }
    PassedLastRow(v, idx, i);
    results[idx] := localCount;
  }

  /** The launch of all threads, rounded up to whole blocks of 100, and the host's sum. A launch of no
      blocks at all fails. */
  method TotalFromKernel(v: seq<int>) returns (total: Option<int>)
    ensures total == if v == [] then None else Some(|Triples(v, |v|)|)
  {
    var threadsPerBlock := 100;
    var blocksPerGrid := (|v| + threadsPerBlock - 1) / threadsPerBlock;
    if blocksPerGrid == 0 {
      return None;
    }
    var results := new int[|v|](_ => 0);
    var idx := 0;
    while idx < blocksPerGrid * threadsPerBlock
      invariant 0 <= idx
      invariant forall x | 0 <= x < |v| && x < idx :: results[x] == |Part(Triples(v, |v|), Last(), x)|
    {
      CheckValid(v, results, idx);
      idx := idx + 1;
    }
    var sum := 0;
    for i := 0 to |v|
      invariant sum == SumParts(Triples(v, |v|), Last(), i)
    {
      sum := sum + results[i];
    }
    SumPartsIsAll(Triples(v, |v|), Last(), |v|);
    return Some(sum);
  }

  /** The decompositions of the three programs count the same thing. */
  lemma DecompositionsAgree(v: seq<int>, workers: nat)
    requires workers > 0
    ensures SumParts(Triples(v, |v|), Stride(workers), workers)
            == SumParts(Triples(v, |v|), Last(), |v|) == |Triples(v, |v|)|
  {
    SumPartsIsAll(Triples(v, |v|), Stride(workers), workers);
    SumPartsIsAll(Triples(v, |v|), Last(), |v|);
  }
}
