/** assignments/hw4/triangles-sem.c as a step system: main and any number of workers, interleaved at
    every access to shared data, two semaphores and a mutex, and the unlocked test at line 77. */
module TrianglesSem {
  import opened Common
  import opened Totals
  import opened Triangles

  const MAX_VALUES: nat := 10000

  /** Where a worker stands. The names follow getWork and workerRoutine; a worker that has claimed
      an index carries it, and one that is counting carries its loop variables. */
  datatype Worker =
    | Unborn
    | AtWait                                             // sem_wait(&workAvailable)
    | AtTest                                             // nextWorkIndex >= vCount, unlocked
    | AtLock                                             // sem_wait(&workMutex)
    | AtRead                                             // unread nextWorkIndex
    | AtWrite(index: nat)                                // writes nextWorkIndex + 1
    | AtUnlock(index: nat)                               // sem_post(&workMutex)
    | AtScan(index: nat, j: nat, k: nat)                 // the two counting loops
    | AtCountLock(index: nat, j: nat, k: nat)            // pthread_mutex_lock(&countMutex)
    | AtCountRead(index: nat, j: nat, k: nat)            // unread globalCount
    | AtCountWrite(index: nat, j: nat, k: nat, tmp: int) // writes globalCount
    | AtCountUnlock(index: nat, j: nat, k: nat)          // pthread_mutex_unlock(&countMutex)
    | AtPost                                             // sem_post(&workAvailable)
    | Exited

  datatype Main =
    | Creating(i: nat)
    | Reading
    | Posting(i: nat)
    | Joining(i: nat)
    | Printed(total: int)

  /** The shared data; claims is a ghost record of the indices handed out, in order. */
  datatype State = State(
    vList: seq<int>, vCount: nat, nextWorkIndex: nat,
    workAvailable: nat, workMutex: nat, countMutex: nat, globalCount: int,
    claims: seq<nat>, main: Main, workers: seq<Worker>)

  /** What the source takes for granted: at least one worker, and room for every index that may be read. */
  ghost predicate Config(input: seq<int>, w: nat)
  {
    w >= 1 && |input| + w - 1 <= MAX_VALUES
  }

  function Init(w: nat): State
  {
    State(seq(MAX_VALUES, _ => 0), 0, 0, 0, 1, 1, 0, [], Creating(0), seq(w, _ => Unborn))
  }

  /** main's next step; None if it has to wait or is done. */
  function MainStep(input: seq<int>, w: nat, s: State): Option<State>
  {
    match s.main
    case Creating(i) =>
      if i < w && i < |s.workers| then Some(s.(workers := s.workers[i := AtWait], main := Creating(i + 1)))
      else Some(s.(main := Reading))
    case Reading =>
      if s.vCount < |input| && s.vCount < |s.vList| then
        Some(s.(vList := s.vList[s.vCount := input[s.vCount]], vCount := s.vCount + 1))
      else Some(s.(main := Posting(0)))
    case Posting(i) =>
      if i < w then Some(s.(workAvailable := s.workAvailable + 1, main := Posting(i + 1)))
      else Some(s.(main := Joining(0)))
    case Joining(i) =>
      if i < w && i < |s.workers| then
        if s.workers[i] == Exited then Some(s.(main := Joining(i + 1))) else None
      else Some(s.(main := Printed(s.globalCount)))
    case Printed(_) => None
  }

  /** The next step of worker x; None if it has to wait or is done. */
  function WorkerStep(s: State, x: nat): Option<State>
    requires x < |s.workers|
  {
    match s.workers[x]
    case Unborn => None
    case AtWait =>
      if s.workAvailable == 0 then None
      else Some(s.(workAvailable := s.workAvailable - 1, workers := s.workers[x := AtTest]))
    case AtTest =>
      Some(s.(workers := s.workers[x := if s.nextWorkIndex >= s.vCount then Exited else AtLock]))
    case AtLock =>
      if s.workMutex == 0 then None
      else Some(s.(workMutex := s.workMutex - 1, workers := s.workers[x := AtRead]))
    case AtRead =>
      Some(s.(workers := s.workers[x := AtWrite(s.nextWorkIndex)]))
    case AtWrite(index) =>
      Some(s.(nextWorkIndex := index + 1, claims := s.claims + [index], workers := s.workers[x := AtUnlock(index)]))
    case AtUnlock(index) =>
      Some(s.(workMutex := s.workMutex + 1, workers := s.workers[x := AtScan(index, 0, 1)]))
    case AtScan(index, j, k) =>
      if j >= index then Some(s.(workers := s.workers[x := AtPost]))
      else if k >= index then Some(s.(workers := s.workers[x := AtScan(index, j + 1, j + 2)]))
      else if index >= |s.vList| then None
      else if IsTriangle(s.vList[j], s.vList[k], s.vList[index]) then
        Some(s.(workers := s.workers[x := AtCountLock(index, j, k)]))
      else Some(s.(workers := s.workers[x := AtScan(index, j, k + 1)]))
    case AtCountLock(index, j, k) =>
      if s.countMutex == 0 then None
      else Some(s.(countMutex := s.countMutex - 1, workers := s.workers[x := AtCountRead(index, j, k)]))
    case AtCountRead(index, j, k) =>
      Some(s.(workers := s.workers[x := AtCountWrite(index, j, k, s.globalCount)]))
    case AtCountWrite(index, j, k, tmp) =>
      Some(s.(globalCount := tmp + 1, workers := s.workers[x := AtCountUnlock(index, j, k)]))
    case AtCountUnlock(index, j, k) =>
      Some(s.(countMutex := s.countMutex + 1, workers := s.workers[x := AtScan(index, j, k + 1)]))
    case AtPost =>
      Some(s.(workAvailable := s.workAvailable + 1, workers := s.workers[x := AtWait]))
    case Exited => None
  }

  ghost predicate Next(input: seq<int>, w: nat, s: State, s': State)
  {
    MainStep(input, w, s) == Some(s') || exists x: nat :: x < |s.workers| && WorkerStep(s, x) == Some(s')
  }

  ghost predicate CanStep(input: seq<int>, w: nat, s: State)
  {
    exists s' :: Next(input, w, s, s')
  }

  // ----- sums over the workers -----

  datatype Quantity = Holding | Gone | Claiming | InWork | InCount | Pending | Fuel

  /** The triples that end at index and are still to be met by the loops at (j, k). */
  ghost function Ahead(v: seq<int>, index: nat, j: nat, k: nat): set<Triple>
  {
    set t | t in Triples(v, |v|) && t.2 == index && (t.0 > j || (t.0 == j && t.1 >= k))
  }

  ghost function Weight(q: Quantity, v: seq<int>, p: Worker): nat
  {
    match q
    case Holding => if p.Unborn? || p.AtWait? || p.Exited? then 0 else 1    // holds a token of workAvailable
    case Gone => if p.Exited? then 1 else 0
    case Claiming => if p.AtLock? || p.AtRead? || p.AtWrite? then 1 else 0  // passed the test, not yet claimed
    case InWork => if p.AtRead? || p.AtWrite? || p.AtUnlock? then 1 else 0
    case InCount => if p.AtCountRead? || p.AtCountWrite? || p.AtCountUnlock? then 1 else 0
    case Pending =>
      (match p                                                             // claimed, not yet in globalCount
       case AtUnlock(index) => |Ahead(v, index, 0, 1)|
       case AtScan(index, j, k) => |Ahead(v, index, j, k)|
       case AtCountLock(index, j, k) => |Ahead(v, index, j, k)|
       case AtCountRead(index, j, k) => |Ahead(v, index, j, k)|
       case AtCountWrite(index, j, k, _) => |Ahead(v, index, j, k)|
       case AtCountUnlock(index, j, k) => |Ahead(v, index, j, k + 1)|
       case _ => 0)
    case Fuel => Rank(p)
  }

  /** Steps left for a worker until it next claims an index or exits, as an upper bound. */
  ghost function Rank(p: Worker): nat
  {
    match p
    case Exited => 0
    case AtWrite(_) => 1
    case AtRead => 2
    case AtLock => 3
    case AtTest => 4
    case AtWait => 5
    case Unborn => 6
    case AtPost => 6
    case AtScan(index, j, k) => 7 + 5 * PairsLeft(index, j, k)
    case AtCountLock(index, j, k) => 6 + 5 * PairsLeft(index, j, k)
    case AtCountRead(index, j, k) => 5 + 5 * PairsLeft(index, j, k)
    case AtCountWrite(index, j, k, _) => 4 + 5 * PairsLeft(index, j, k)
    case AtCountUnlock(index, j, k) => 3 + 5 * PairsLeft(index, j, k)
    case AtUnlock(index) => 8 + 5 * PairsLeft(index, 0, 1)
  }

  ghost function PairsLeft(index: nat, j: nat, k: nat): nat
  {
    (if j < index then (index - j) * (index + 2) else 0) + (if k < index + 1 then index + 1 - k else 0)
  }

  ghost function Weigh(q: Quantity, v: seq<int>): (nat, Worker) -> nat
  {
    (t: nat, p: Worker) => Weight(q, v, p)
  }

  ghost function Total(q: Quantity, v: seq<int>, ws: seq<Worker>): nat
  {
    Totals.Sum(ws, Weigh(q, v))
  }

  // ----- the invariant -----

  function Posts(w: nat, m: Main): nat
  {
    match m
    case Creating(_) => 0
    case Reading => 0
    case Posting(i) => i
    case _ => w
  }

  ghost predicate MainInv(input: seq<int>, w: nat, s: State)
  {
    && |s.workers| == w && |s.vList| == MAX_VALUES && s.vCount <= |input| && s.vCount <= MAX_VALUES
    && (forall i | 0 <= i < s.vCount :: s.vList[i] == input[i])
    && (forall i | s.vCount <= i < MAX_VALUES :: s.vList[i] == 0)
    && (match s.main
        case Creating(i) => i <= w && s.vCount == 0 &&
            forall x | 0 <= x < w :: s.workers[x] == if x < i then AtWait else Unborn
        case Reading => forall x | 0 <= x < w :: s.workers[x] == AtWait
        case Posting(i) => i <= w && s.vCount == |input|
        case Joining(i) => i <= w && s.vCount == |input| && forall x | 0 <= x < i :: s.workers[x] == Exited
        case Printed(total) =>
          && s.vCount == |input| && total == s.globalCount
          && forall x | 0 <= x < w :: s.workers[x] == Exited)
    && (s.main.Creating? || s.main.Reading? ==> s.nextWorkIndex == 0 && s.globalCount == 0)
    && (!s.main.Creating? ==> forall x | 0 <= x < w :: s.workers[x] != Unborn)
  }

  /** What the data say about one worker. */
  ghost predicate WorkerInv(s: State, p: Worker)
  {
    match p
    case AtWrite(index) => index == s.nextWorkIndex
    case AtUnlock(index) => index < s.nextWorkIndex
    case AtScan(index, j, k) => index < s.nextWorkIndex && j < k <= index + 1
    case AtCountLock(index, j, k) => Found(s, index, j, k)
    case AtCountRead(index, j, k) => Found(s, index, j, k)
    case AtCountWrite(index, j, k, tmp) => Found(s, index, j, k) && tmp == s.globalCount
    case AtCountUnlock(index, j, k) => Found(s, index, j, k)
    case Exited => s.nextWorkIndex >= s.vCount
    case _ => true
  }

  ghost predicate Found(s: State, index: nat, j: nat, k: nat)
  {
    j < k < index < s.nextWorkIndex && index < |s.vList| && IsTriangle(s.vList[j], s.vList[k], s.vList[index])
  }

  /** Tokens, mutexes and claims are conserved; no claim runs further ahead than the workers reach. */
  ghost predicate Counters(w: nat, s: State)
  {
    && s.workAvailable + Total(Holding, s.vList, s.workers) + Total(Gone, s.vList, s.workers) == Posts(w, s.main)
    && s.workMutex + Total(InWork, s.vList, s.workers) == 1
    && s.countMutex + Total(InCount, s.vList, s.workers) == 1
    && s.nextWorkIndex + Total(Claiming, s.vList, s.workers) <= s.vCount + w - 1
    && |s.claims| == s.nextWorkIndex && (forall i | 0 <= i < |s.claims| :: s.claims[i] == i)
  }

  /** What is counted and what is still to be counted add up to the triples of the claimed indices. */
  ghost predicate Conserved(s: State)
  {
    s.globalCount + Total(Pending, s.vList, s.workers) == SumParts(Triples(s.vList, |s.vList|), Last(), s.nextWorkIndex)
  }

  ghost predicate Inv(input: seq<int>, w: nat, s: State)
  {
    && MainInv(input, w, s) && Counters(w, s) && Conserved(s)
    && (forall x | 0 <= x < |s.workers| :: WorkerInv(s, s.workers[x]))
  }

  // ----- the invariant is kept -----

  lemma InitInv(input: seq<int>, w: nat)
    requires Config(input, w)
    ensures Inv(input, w, Init(w))
  {
    var s := Init(w);
    SumZero(s.workers, Weigh(Holding, s.vList));
    SumZero(s.workers, Weigh(Gone, s.vList));
    SumZero(s.workers, Weigh(InWork, s.vList));
    SumZero(s.workers, Weigh(InCount, s.vList));
    SumZero(s.workers, Weigh(Claiming, s.vList));
    SumZero(s.workers, Weigh(Pending, s.vList));
  }

  /** Only the mutexes stand between a worker and the values it relies on. */
  lemma OthersKept(s: State, s': State, x: nat)
    requires x < |s.workers| && forall y | 0 <= y < |s.workers| :: WorkerInv(s, s.workers[y])
    requires s'.vList == s.vList && s'.vCount == s.vCount && |s'.workers| == |s.workers|
    requires forall y | 0 <= y < |s.workers| && y != x :: s'.workers[y] == s.workers[y]
    requires s'.nextWorkIndex >= s.nextWorkIndex
    requires s'.nextWorkIndex == s.nextWorkIndex || (Total(InWork, s.vList, s.workers) <= 1
                && Weight(InWork, s.vList, s.workers[x]) == 1)
    requires s'.globalCount == s.globalCount || (Total(InCount, s.vList, s.workers) <= 1
                && Weight(InCount, s.vList, s.workers[x]) == 1)
    ensures forall y | 0 <= y < |s.workers| && y != x :: WorkerInv(s', s'.workers[y])
  {
    forall y | 0 <= y < |s.workers| && y != x
      ensures WorkerInv(s', s'.workers[y])
    {
      if s.workers[y].AtWrite? && s'.nextWorkIndex != s.nextWorkIndex {
        SumOfTwo(s.workers, Weigh(InWork, s.vList), if x < y then x else y, if x < y then y else x);
        assert false;
      }
      if s.workers[y].AtCountWrite? && s'.globalCount != s.globalCount {
        SumOfTwo(s.workers, Weigh(InCount, s.vList), if x < y then x else y, if x < y then y else x);
        assert false;
      }
    }
  }

  lemma TotalsUpdate(v: seq<int>, ws: seq<Worker>, x: nat, p: Worker)
    requires x < |ws|
    ensures forall q: Quantity {:trigger Total(q, v, ws[x := p])} ::
              Total(q, v, ws[x := p]) + Weight(q, v, ws[x]) == Total(q, v, ws) + Weight(q, v, p)
    ensures forall q: Quantity {:trigger Total(q, v, ws)} :: Total(q, v, ws) >= Weight(q, v, ws[x])
  {
    forall q: Quantity
      ensures Total(q, v, ws[x := p]) + Weight(q, v, ws[x]) == Total(q, v, ws) + Weight(q, v, p)
      ensures Total(q, v, ws) >= Weight(q, v, ws[x])
    {
      SumUpdate(ws, Weigh(q, v), x, p);
      SumAtLeast(ws, Weigh(q, v), x);
    }
  }

  lemma AheadNone(v: seq<int>, index: nat, j: nat, k: nat)
    requires j >= index
    ensures Ahead(v, index, j, k) == {}
  {
  }

  lemma AheadRow(v: seq<int>, index: nat, j: nat, k: nat)
    requires k >= index
    ensures Ahead(v, index, j, k) == Ahead(v, index, j + 1, j + 2)
  {
  }

  lemma AheadOne(v: seq<int>, index: nat, j: nat, k: nat)
    requires j < k < index < |v|
    ensures |Ahead(v, index, j, k)| == |Ahead(v, index, j, k + 1)| + if IsTriangle(v[j], v[k], v[index]) then 1 else 0
  {
    var t := (j, k, index);
    assert IsTriangle(v[j], v[k], v[index]) <==> t in Triples(v, |v|);
    hide Triples, IsTriangle;
    assert Ahead(v, index, j, k) == Ahead(v, index, j, k + 1) + if t in Triples(v, |v|) then {t} else {};
    assert t !in Ahead(v, index, j, k + 1);
  }

  lemma AheadAll(v: seq<int>, index: nat)
    ensures Ahead(v, index, 0, 1) == Part(Triples(v, |v|), Last(), index)
  {
  }

  lemma WorkerKeepsCounters(w: nat, s: State, x: nat, s': State)
    requires x < w && |s.workers| == w && Counters(w, s) && WorkerInv(s, s.workers[x]) && WorkerStep(s, x) == Some(s')
    ensures Counters(w, s')
  {
    hide Totals.Sum, Triples, IsTriangle, Ahead, Rank;
    assert s'.workers == s.workers[x := s'.workers[x]];
    TotalsUpdate(s.vList, s.workers, x, s'.workers[x]);
    if s.workers[x].AtTest? && s'.workers[x].AtLock? {
      ClaimingOthers(s, x);
    }
  }

  /** Fewer than all workers are between the test and the claim while one is not. */
  lemma ClaimingOthers(s: State, x: nat)
    requires x < |s.workers| && Weight(Claiming, s.vList, s.workers[x]) == 0
    ensures Total(Claiming, s.vList, s.workers) <= |s.workers| - 1
  {
    var one := Weigh(Claiming, s.vList);
    SumUpdate(s.workers, one, x, AtLock);
    SumAtMost(s.workers[x := AtLock], one, 1);
  }

  lemma WorkerConserves(s: State, x: nat, s': State)
    requires x < |s.workers| && Conserved(s) && WorkerInv(s, s.workers[x]) && WorkerStep(s, x) == Some(s')
    ensures Conserved(s')
  {
    hide Totals.Sum, Ahead, Triples, IsTriangle;
    var p, p' := s.workers[x], s'.workers[x];
    assert s'.workers == s.workers[x := p'];
    SumUpdate(s.workers, Weigh(Pending, s.vList), x, p');
    match p
    case AtScan(index, j, k) =>
      if j >= index {
        AheadNone(s.vList, index, j, k);
      } else if k >= index {
        AheadRow(s.vList, index, j, k);
      } else {
        AheadOne(s.vList, index, j, k);
      }
    case AtWrite(index) =>
      AheadAll(s.vList, index);
    case AtCountWrite(index, j, k, tmp) =>
      AheadOne(s.vList, index, j, k);
    case _ =>
  }

  lemma WorkerKeepsMain(input: seq<int>, w: nat, s: State, x: nat, s': State)
    requires Inv(input, w, s) && x < w && WorkerStep(s, x) == Some(s')
    ensures MainInv(input, w, s')
  {
    hide Totals.Sum, Triples, IsTriangle, Conserved, Ahead;
    if s.main.Creating? || s.main.Reading? {
      SumAtLeast(s.workers, Weigh(Holding, s.vList), x);
    }
  }

  /** A step of worker x keeps the invariant. */
  lemma WorkerKeeps(input: seq<int>, w: nat, s: State, x: nat, s': State)
    requires Config(input, w) && Inv(input, w, s) && x < w && WorkerStep(s, x) == Some(s')
    ensures Inv(input, w, s')
  {
    hide Totals.Sum, Ahead, Triples, IsTriangle, Conserved, MainInv;
    MainShape(input, w, s);
    assert WorkerInv(s, s.workers[x]);
    OwnKept(s, x, s');
    hide WorkerInv, WorkerStep;
    StepShape(s, x, s');
    WorkerKeepsMain(input, w, s, x, s');
    WorkerKeepsCounters(w, s, x, s');
    WorkerConserves(s, x, s');
    OthersKept(s, s', x);
  }

  lemma OwnKept(s: State, x: nat, s': State)
    requires x < |s.workers| && WorkerInv(s, s.workers[x]) && WorkerStep(s, x) == Some(s')
    ensures WorkerInv(s', s'.workers[x])
  {
  }

  /** A worker step changes one worker, and the guarded data only inside their sections. */
  lemma StepShape(s: State, x: nat, s': State)
    requires x < |s.workers| && WorkerInv(s, s.workers[x]) && WorkerStep(s, x) == Some(s')
    ensures s'.vList == s.vList && s'.vCount == s.vCount && s'.main == s.main && |s'.workers| == |s.workers|
    ensures forall y | 0 <= y < |s.workers| && y != x :: s'.workers[y] == s.workers[y]
    ensures s'.nextWorkIndex >= s.nextWorkIndex
    ensures s'.nextWorkIndex == s.nextWorkIndex || Weight(InWork, s.vList, s.workers[x]) == 1
    ensures s'.globalCount == s.globalCount || Weight(InCount, s.vList, s.workers[x]) == 1
  {
    hide IsTriangle;
  }

  lemma MainShape(input: seq<int>, w: nat, s: State)
    requires MainInv(input, w, s)
    ensures |s.workers| == w && |s.vList| == MAX_VALUES && s.vCount <= |input|
  {
  }

  lemma AllWaiting(v: seq<int>, ws: seq<Worker>)
    requires forall x | 0 <= x < |ws| :: ws[x] == AtWait
    ensures forall q: Quantity {:trigger Total(q, v, ws)} :: !q.Fuel? ==> Total(q, v, ws) == 0
  {
    forall q: Quantity | !q.Fuel?
      ensures Total(q, v, ws) == 0
    {
      SumZero(ws, Weigh(q, v));
    }
  }

  lemma CreateKeeps(input: seq<int>, w: nat, s: State, s': State)
    requires Config(input, w) && Inv(input, w, s) && s.main.Creating? && MainStep(input, w, s) == Some(s')
    ensures Inv(input, w, s')
  {
    hide Totals.Sum, Triples, IsTriangle, Ahead, Rank, SumParts;
    if s.main.i < w {
      TotalsUpdate(s.vList, s.workers, s.main.i, AtWait);
    }
  }

  lemma ReadKeeps(input: seq<int>, w: nat, s: State, s': State)
    requires Config(input, w) && Inv(input, w, s) && s.main.Reading? && MainStep(input, w, s) == Some(s')
    ensures Inv(input, w, s')
  {
    hide Totals.Sum, Triples, IsTriangle, Ahead, Rank;
    AllWaiting(s.vList, s.workers);
    AllWaiting(s'.vList, s.workers);
    assert SumParts(Triples(s'.vList, |s'.vList|), Last(), 0) == 0;
  }

  /** A step of main keeps the invariant. */
  lemma MainKeeps(input: seq<int>, w: nat, s: State, s': State)
    requires Config(input, w) && Inv(input, w, s) && MainStep(input, w, s) == Some(s')
    ensures Inv(input, w, s')
  {
    hide Totals.Sum, Triples, IsTriangle, SumParts;
    if s.main.Creating? {
      CreateKeeps(input, w, s, s');
    } else if s.main.Reading? {
      ReadKeeps(input, w, s, s');
    }
  }

  lemma NextKeeps(input: seq<int>, w: nat, s: State, s': State)
    requires Config(input, w) && Inv(input, w, s) && Next(input, w, s, s')
    ensures Inv(input, w, s')
  {
    MainShape(input, w, s);
    if MainStep(input, w, s) == Some(s') {
      MainKeeps(input, w, s, s');
    } else {
      var x: nat :| x < |s.workers| && WorkerStep(s, x) == Some(s');
      WorkerKeeps(input, w, s, x, s');
    }
  }

  // ----- what the invariant gives -----

  /** A slot of vList that was never read in holds 0, and a side of 0 makes no triangle. */
  lemma OverclaimsAreEmpty(input: seq<int>, w: nat, s: State, index: nat)
    requires Inv(input, w, s) && index >= s.vCount
    ensures Part(Triples(s.vList, |s.vList|), Last(), index) == {}
  {
  }

  lemma PaddingAddsNothing(input: seq<int>, w: nat, s: State)
    requires Inv(input, w, s) && s.vCount == |input|
    ensures Triples(s.vList, |s.vList|) == Triples(input, |input|)
  {
    hide Counters, Conserved;
    assert forall i | 0 <= i < |input| :: s.vList[i] == input[i];
    forall t | t in Triples(s.vList, |s.vList|)
      ensures t in Triples(input, |input|)
    {
      assert t.2 < |input|;
    }
  }

  /** The number printed is the number of index triples i < j < k of the input that form a triangle. */
  lemma PrintedIsRight(input: seq<int>, w: nat, s: State)
    requires Config(input, w) && Inv(input, w, s) && s.main.Printed?
    ensures s.main.total == |Triples(input, |input|)|
  {
    PaddingAddsNothing(input, w, s);
    assert WorkerInv(s, s.workers[0]);
    hide Triples;
    SumZero(s.workers, Weigh(Pending, s.vList));
    var all := Triples(s.vList, |s.vList|);
    SumPartsIsBelow(all, Last(), s.nextWorkIndex);
    assert all == set t | t in all && Last()(t) < s.nextWorkIndex by {
      LastBelow(input);
    }
  }

  lemma LastBelow(input: seq<int>)
    ensures forall t | t in Triples(input, |input|) :: t.2 < |input|
  {
  }

  /** Each index is claimed once, in order, none past the room in vList, and at the end none is left. */
  lemma ClaimedOnce(input: seq<int>, w: nat, s: State)
    requires Config(input, w) && Inv(input, w, s)
    ensures forall i, j | 0 <= i < j < |s.claims| :: s.claims[i] != s.claims[j]
    ensures forall i | 0 <= i < |s.claims| :: s.claims[i] <= s.vCount + w - 2 && s.claims[i] < MAX_VALUES
    ensures s.main.Printed? ==> forall index: nat | index < |input| :: index in s.claims
  {
    hide Triples, Total;
    if s.main.Printed? {
      assert WorkerInv(s, s.workers[0]);
      forall index: nat | index < |input|
        ensures index in s.claims
      {
        assert s.claims[index] == index;
      }
    }
  }

  // ----- nobody gets stuck -----

  lemma WaitingHasToken(input: seq<int>, w: nat, s: State, x: nat)
    requires Inv(input, w, s) && s.main.Joining? && x < w && s.workers[x] == AtWait
    ensures s.workAvailable > 0
  {
    hide Totals.Sum, Conserved;
    HoldingAndGone(s.vList, s.workers, x);
  }

  lemma HoldingAndGone(v: seq<int>, ws: seq<Worker>, x: nat)
    requires x < |ws| && ws[x].AtWait?
    ensures Total(Holding, v, ws) + Total(Gone, v, ws) <= |ws| - 1
  {
    var both := (t: nat, p: Worker) => Weight(Holding, v, p) + Weight(Gone, v, p);
    SumPlus(ws, Weigh(Holding, v), Weigh(Gone, v), both);
    SumUpdate(ws, both, x, Exited);
    SumAtMost(ws[x := Exited], both, 1);
  }

  /** Somebody can step in every reachable state until the total is printed. */
  lemma Progress(input: seq<int>, w: nat, s: State)
    requires Config(input, w) && Inv(input, w, s) && !s.main.Printed?
    ensures CanStep(input, w, s)
  {
    hide Totals.Sum, Conserved, IsTriangle;
    if MainStep(input, w, s).Some? {
      assert Next(input, w, s, MainStep(input, w, s).value);
    } else {
      var x := s.main.i;
      assert WorkerInv(s, s.workers[x]);
      if s.workers[x].AtWait? {
        WaitingHasToken(input, w, s, x);
      } else if s.workers[x].AtLock? && s.workMutex == 0 {
        x := Someone(s.workers, Weigh(InWork, s.vList));
      } else if s.workers[x].AtCountLock? && s.countMutex == 0 {
        x := Someone(s.workers, Weigh(InCount, s.vList));
      } else if s.workers[x].AtScan? {
        ScanInRange(input, w, s, x);
      }
      assert WorkerStep(s, x).Some?;
      assert Next(input, w, s, WorkerStep(s, x).value);
    }
  }

  lemma ScanInRange(input: seq<int>, w: nat, s: State, x: nat)
    requires Config(input, w) && Inv(input, w, s) && x < w && s.workers[x].AtScan?
    ensures s.workers[x].index < |s.vList|
  {
    hide Totals.Sum, Conserved;
    assert WorkerInv(s, s.workers[x]);
  }

  // ----- every schedule is finite -----

  /** No index at or past this is ever claimed. */
  function Bound(input: seq<int>, w: nat): nat { |input| + w }

  /** More than any worker can use up between two claims. */
  function Refill(bound: nat): nat { 20 + 5 * (bound + 3) * (bound + 3) }

  function MainFuel(input: seq<int>, w: nat, s: State): nat
  {
    var unread := if s.vCount < |input| then |input| - s.vCount else 0;
    match s.main
    case Creating(i) => 3 * w + unread + 4 - (if i < w then i else w)
    case Reading => 2 * w + unread + 3
    case Posting(i) => 2 * w + 2 - (if i < w then i else w)
    case Joining(i) => w + 1 - (if i < w then i else w)
    case Printed(_) => 0
  }

  ghost function Steps(input: seq<int>, w: nat, s: State): int
  {
    MainFuel(input, w, s) + Refill(Bound(input, w)) * (Bound(input, w) - s.nextWorkIndex)
    + Total(Fuel, s.vList, s.workers)
  }

  lemma FuelIgnoresValues(v: seq<int>, v': seq<int>, ws: seq<Worker>)
    ensures Total(Fuel, v, ws) == Total(Fuel, v', ws)
  {
    SumSame(ws, ws, Weigh(Fuel, v), Weigh(Fuel, v'));
  }

  lemma NextRow(index: nat, j: nat, k: nat)
    requires j < index && index <= k
    ensures PairsLeft(index, j + 1, j + 2) < PairsLeft(index, j, k)
  {
    assert (index - j) * (index + 2) == (index - j - 1) * (index + 2) + (index + 2);
  }

  lemma ClaimFuel(bound: nat, index: nat)
    requires index < bound
    ensures 8 + 5 * PairsLeft(index, 0, 1) < Refill(bound)
  {
    assert index * (index + 2) <= bound * (bound + 2) by {
      assert index * (index + 2) <= bound * (index + 2) <= bound * (bound + 2);
    }
    assert (bound + 3) * (bound + 3) == bound * (bound + 2) + 4 * bound + 9;
    assert 5 * (bound + 3) * (bound + 3) == 5 * ((bound + 3) * (bound + 3));
  }

  /** A worker's step uses up fuel, unless it claims an index. */
  lemma RankDrops(s: State, x: nat, s': State)
    requires x < |s.workers| && WorkerInv(s, s.workers[x]) && WorkerStep(s, x) == Some(s')
    ensures if s.workers[x].AtWrite? then s'.nextWorkIndex == s.nextWorkIndex + 1
                 && s'.workers[x] == AtUnlock(s.nextWorkIndex)
            else s'.nextWorkIndex == s.nextWorkIndex && Rank(s'.workers[x]) < Rank(s.workers[x])
  {
    hide IsTriangle, PairsLeft;
    match s.workers[x]
    case AtScan(index, j, k) =>
      if j < index <= k {
        NextRow(index, j, k);
      } else if j < index {
        NextPair(index, j, k);
      }
    case AtCountUnlock(index, j, k) =>
      NextPair(index, j, k);
    case _ =>
  }

  lemma NextPair(index: nat, j: nat, k: nat)
    requires k < index
    ensures PairsLeft(index, j, k + 1) + 1 == PairsLeft(index, j, k)
  {
  }

  /** The number of steps left goes down with every step of anybody, and never below 0. */
  lemma StepsDrop(input: seq<int>, w: nat, s: State, s': State)
    requires Config(input, w) && Inv(input, w, s) && Next(input, w, s, s')
    ensures 0 <= Steps(input, w, s') < Steps(input, w, s)
  {
    NextKeeps(input, w, s, s');
    StepsNonNegative(input, w, s');
    hide Totals.Sum, Conserved, IsTriangle, PairsLeft, Refill, MainInv, Steps;
    MainShape(input, w, s);
    if MainStep(input, w, s) == Some(s') {
      MainDrops(input, w, s, s');
    } else {
      var x: nat :| x < |s.workers| && WorkerStep(s, x) == Some(s');
      WorkerDrops(input, w, s, x, s');
    }
  }

  lemma MainDrops(input: seq<int>, w: nat, s: State, s': State)
    requires MainInv(input, w, s) && MainStep(input, w, s) == Some(s') && |input| <= MAX_VALUES
    ensures Steps(input, w, s') < Steps(input, w, s)
  {
    hide Totals.Sum, Refill;
    FuelIgnoresValues(s.vList, s'.vList, s.workers);
    if s.main.Creating? && s.main.i < w {
      SumUpdate(s.workers, Weigh(Fuel, s.vList), s.main.i, AtWait);
    }
  }

  lemma StepsNonNegative(input: seq<int>, w: nat, s: State)
    requires Inv(input, w, s) && Config(input, w)
    ensures Steps(input, w, s) >= 0
  {
    hide Totals.Sum, Conserved, Refill;
    assert Refill(Bound(input, w)) * (Bound(input, w) - s.nextWorkIndex) >= 0;
  }

  lemma WorkerDrops(input: seq<int>, w: nat, s: State, x: nat, s': State)
    requires Config(input, w) && Inv(input, w, s) && x < |s.workers| && WorkerStep(s, x) == Some(s')
    ensures Steps(input, w, s') < Steps(input, w, s)
  {
    hide Totals.Sum, Conserved, IsTriangle, PairsLeft, Refill, MainInv;
    var bound := Bound(input, w);
    assert WorkerInv(s, s.workers[x]);
    StepShape(s, x, s');
    RankDrops(s, x, s');
    MainShape(input, w, s);
    hide WorkerStep, WorkerInv;
    assert s'.workers == s.workers[x := s'.workers[x]];
    SumUpdate(s.workers, Weigh(Fuel, s.vList), x, s'.workers[x]);
    if s.workers[x].AtWrite? {
      ClaimFuel(bound, s.nextWorkIndex);
      assert Refill(bound) * (bound - s.nextWorkIndex) == Refill(bound) * (bound - s'.nextWorkIndex) + Refill(bound);
    }
  }

  // ----- whole runs -----

  /** A run: any interleaving of main and the workers, from the start. */
  ghost predicate IsRun(input: seq<int>, w: nat, run: seq<State>)
  {
    |run| > 0 && run[0] == Init(w) && forall i, j | 0 <= i < j < |run| && j <= i + 1 :: Next(input, w, run[i], run[j])
  }

  lemma {:induction false} RunKeeps(input: seq<int>, w: nat, run: seq<State>, n: nat)
    requires Config(input, w) && IsRun(input, w, run) && n < |run|
    ensures Inv(input, w, run[n]) && Steps(input, w, run[n]) + n <= Steps(input, w, Init(w))
  {
    hide Inv, Next, Steps;
    if n == 0 {
      InitInv(input, w);
    } else {
      RunKeeps(input, w, run, n - 1);
      NextKeeps(input, w, run[n - 1], run[n]);
      StepsDrop(input, w, run[n - 1], run[n]);
    }
  }

  /** Every run is finite, can go on until main has printed, and what main prints is right. */
  lemma RunIsRight(input: seq<int>, w: nat, run: seq<State>)
    requires Config(input, w) && IsRun(input, w, run)
    ensures |run| <= Steps(input, w, Init(w)) + 1
    ensures run[|run| - 1].main.Printed? <==> !CanStep(input, w, run[|run| - 1])
    ensures run[|run| - 1].main.Printed? ==> run[|run| - 1].main.total == |Triples(input, |input|)|
  {
    var s := run[|run| - 1];
    RunKeeps(input, w, run, |run| - 1);
    StepsNonNegative(input, w, s);
    if s.main.Printed? {
      PrintedIsRight(input, w, s);
      forall s'
        ensures !Next(input, w, s, s')
      {
        PrintedIsLast(input, w, s, s');
      }
    } else {
      Progress(input, w, s);
    }
  }

  lemma PrintedIsLast(input: seq<int>, w: nat, s: State, s': State)
    requires MainInv(input, w, s) && s.main.Printed?
    ensures !Next(input, w, s, s')
  {
  }
}
