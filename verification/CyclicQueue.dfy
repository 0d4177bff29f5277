/** exercises/ex08/critical.c: threads that take nodes off the head of a linked list and put them back
    at its tail under a spinlock, without ever asking whether the list is empty. */
module CyclicQueue {
  import opened Common
  import opened Totals

  const LIST_LEN: nat := 100

  /** Nodes are numbered as they are allocated; an address is a number. */
  datatype Node = Node(counter: nat, next: Option<nat>)

  /** Where a thread stands in cycleList; node is the one it took. */
  datatype Thread =
    | Testing                          // while (running)
    | DeqSpin                          // lockTestAndSet in dequeueNode
    | DeqRead                          // node = head
    | DeqMove(node: nat)               // head = head->next
    | DeqUnlock(node: nat)
    | CountRead(node: nat)             // reads node->counter
    | CountWrite(node: nat, tmp: nat)  // writes node->counter
    | EnqSpin(node: nat)               // lockTestAndSet in enqueueNode
    | EnqLink(node: nat)               // tail->next = node
    | EnqTail(node: nat)               // tail = node
    | EnqEnd(node: nat)                // node->next = NULL
    | EnqUnlock(node: nat)
    | Done

  /** The shared data. list and cycles are a record for the proofs that no step looks at: the nodes on
      the list, head first, and the number of cycles completed. */
  datatype State = State(
    running: bool, lock: bool, head: Option<nat>, tail: Option<nat>, heap: seq<Node>, threads: seq<Thread>,
    list: seq<nat>, cycles: nat)

  /** Fault: a null or wild pointer is followed. */
  datatype Outcome = Blocked | Fault | To(state: State)

  function Before(i: nat): Option<nat> { if i == 0 then None else Some(i - 1) }

  /** The list that main builds: every new node becomes the head. */
  function Init(len: nat, threads: nat): State
  {
    State(true, false, Before(len), if len == 0 then None else Some(0),
          seq(len, i requires 0 <= i < len => Node(0, Before(i))), seq(threads, _ => Testing),
          seq<nat>(len, k requires 0 <= k < len => len - 1 - k), 0)
  }

  /** main's first loop. */
  method BuildList(len: nat) returns (heap: seq<Node>, head: Option<nat>, tail: Option<nat>)
    ensures forall threads: nat {:trigger Init(len, threads)} ::
              var s := Init(len, threads); heap == s.heap && head == s.head && tail == s.tail
  {
    heap, head, tail := [], None, None;
    for i := 0 to len
      invariant |heap| == i && head == Before(i) && tail == (if i == 0 then None else Some(0))
      invariant forall j | 0 <= j < i :: heap[j] == Node(0, Before(j))
    {
      var node := i;
      if tail == None { tail := Some(node); }
      heap := heap + [Node(0, head)];
      head := Some(node);
    }
  }

  function Move(s: State, t: nat, p: Thread): State
    requires t < |s.threads|
  {
    s.(threads := s.threads[t := p])
  }

  function ThreadStep(s: State, t: nat): Outcome
    requires t < |s.threads|
  {
    match s.threads[t]
    case Testing => To(Move(s, t, if s.running then DeqSpin else Done))
    case DeqSpin => if s.lock then Blocked else To(Move(s, t, DeqRead).(lock := true))
    case DeqRead =>
      if s.head.None? then Fault  // the next line follows head
      else To(Move(s, t, DeqMove(s.head.value)))
    case DeqMove(node) =>
      if s.head.None? || s.head.value >= |s.heap| then Fault
      else To(Move(s, t, DeqUnlock(node)).(head := s.heap[s.head.value].next,
                                           list := if s.list == [] then [] else s.list[1..]))
    case DeqUnlock(node) => To(Move(s, t, CountRead(node)).(lock := false))
    case CountRead(node) =>
      if node >= |s.heap| then Fault else To(Move(s, t, CountWrite(node, s.heap[node].counter)))
    case CountWrite(node, tmp) =>
      if node >= |s.heap| then Fault
      else To(Move(s, t, EnqSpin(node)).(heap := s.heap[node := s.heap[node].(counter := tmp + 1)]))
    case EnqSpin(node) => if s.lock then Blocked else To(Move(s, t, EnqLink(node)).(lock := true))
    case EnqLink(node) =>
      if s.tail.None? || s.tail.value >= |s.heap| then Fault
      else To(Move(s, t, EnqTail(node)).(heap := s.heap[s.tail.value := s.heap[s.tail.value].(next := Some(node))],
                                         list := s.list + [node]))
    case EnqTail(node) => To(Move(s, t, EnqEnd(node)).(tail := Some(node)))
    case EnqEnd(node) =>
      if node >= |s.heap| then Fault
      else To(Move(s, t, EnqUnlock(node)).(heap := s.heap[node := s.heap[node].(next := None)]))
    case EnqUnlock(node) => To(Move(s, t, Testing).(lock := false, cycles := s.cycles + 1))
    case Done => Blocked
  }

  ghost predicate Steps(s: State, t: nat, s': State)
  {
    t < |s.threads| && ThreadStep(s, t) == To(s')
  }

  ghost predicate Faults(s: State, t: nat)
  {
    t < |s.threads| && ThreadStep(s, t) == Fault
  }

  ghost predicate Next(s: State, s': State)
  {
    s' == s.(running := false) || exists t: nat :: Steps(s, t, s')
  }

  // ----- the invariant -----

  predicate Inside(p: Thread)
  {
    p.DeqRead? || p.DeqMove? || p.DeqUnlock? || p.EnqLink? || p.EnqTail? || p.EnqEnd? || p.EnqUnlock?
  }

  /** A thread that has a node of its own, off the list. */
  predicate Carries(p: Thread)
  {
    p.DeqUnlock? || p.CountRead? || p.CountWrite? || p.EnqSpin? || p.EnqLink?
  }

  /** A thread that has counted and not yet completed its cycle. */
  predicate Counted(p: Thread)
  {
    p.EnqSpin? || p.EnqLink? || p.EnqTail? || p.EnqEnd? || p.EnqUnlock?
  }

  datatype Quantity = InsideOne | CarryingAny | Carrying(node: nat) | CountedOne

  ghost function Weight(q: Quantity, p: Thread): nat
  {
    match q
    case InsideOne => if Inside(p) then 1 else 0
    case CarryingAny => if Carries(p) then 1 else 0
    case Carrying(a) => if Carries(p) && p.node == a then 1 else 0
    case CountedOne => if Counted(p) then 1 else 0
  }

  ghost function Weigh(q: Quantity): (nat, Thread) -> nat
  {
    (t: nat, p: Thread) => Weight(q, p)
  }

  ghost function Total(q: Quantity, ts: seq<Thread>): nat
  {
    Sum(ts, Weigh(q))
  }

  ghost function Counters(heap: seq<Node>): nat
  {
    Sum(heap, (a: nat, node: Node) => node.counter)
  }

  /** Listed nodes and nodes in flight are all the nodes, each once. */
  ghost predicate Partition(s: State)
  {
    && |s.list| + Total(CarryingAny, s.threads) == |s.heap|
    && (forall a | 0 <= a < |s.heap| :: multiset(s.list)[a] + Total(Carrying(a), s.threads) == 1)
    && (forall k | 0 <= k < |s.list| :: s.list[k] < |s.heap|)
  }

  ghost predicate Locked(s: State)
  {
    (if s.lock then 1 else 0) == Total(InsideOne, s.threads)
  }

  /** The links follow the list from a head that is not null. */
  ghost predicate Chained(list: seq<nat>, heap: seq<Node>, head: Option<nat>)
  {
    && list != [] && head == Some(list[0])
    && (forall k | 0 <= k < |list| :: list[k] < |heap|)
    && (forall i, j | 0 <= i < j < |list| && j <= i + 1 :: heap[list[i]].next == Some(list[j]))
  }

  ghost function Last(list: seq<nat>): nat
    requires list != []
  {
    list[|list| - 1]
  }

  /** tail is the last listed node and ends the chain. */
  ghost predicate Ended(list: seq<nat>, heap: seq<Node>, tail: Option<nat>)
  {
    list != [] && Last(list) < |heap| && tail == Some(Last(list)) && heap[Last(list)].next == None
  }

  ghost predicate Tidy(s: State)
  {
    Ended(s.list, s.heap, s.tail)
  }

  /** What a thread relies on. */
  ghost predicate ThreadInv(s: State, p: Thread)
  {
    match p
    case Testing => true
    case DeqSpin => true
    case DeqRead => Tidy(s)
    case DeqMove(node) => Tidy(s) && s.list[0] == node && node < |s.heap|
    case DeqUnlock(node) => Tidy(s) && node < |s.heap|
    case CountRead(node) => node < |s.heap|
    case CountWrite(node, tmp) => node < |s.heap| && tmp == s.heap[node].counter
    case EnqSpin(node) => node < |s.heap|
    case EnqLink(node) => Tidy(s) && node < |s.heap|
    case EnqTail(node) => |s.list| >= 2 && Last(s.list) == node && s.tail == Some(s.list[|s.list| - 2])
    case EnqEnd(node) => s.list != [] && Last(s.list) == node && s.tail == Some(node)
    case EnqUnlock(node) => Tidy(s)
    case Done => true
  }

  ghost predicate Inv(len: nat, threads: nat, s: State)
  {
    && |s.heap| == len && |s.threads| == threads
    && Partition(s) && Locked(s) && Chained(s.list, s.heap, s.head) && (s.lock || Tidy(s))
    && (forall t | 0 <= t < |s.threads| :: ThreadInv(s, s.threads[t]))
    && Counters(s.heap) == s.cycles + Total(CountedOne, s.threads)
  }

  lemma NobodyActive(q: Quantity, ts: seq<Thread>)
    requires forall t | 0 <= t < |ts| :: ts[t].Testing? || ts[t].Done?
    ensures Total(q, ts) == 0
  {
    SumZero(ts, Weigh(q));
  }

  lemma CountBelow(len: nat, list: seq<nat>, a: nat)
    requires list == seq<nat>(len, k requires 0 <= k < len => len - 1 - k) && a < len
    ensures multiset(list)[a] == 1
  {
    var k := len - 1 - a;
    assert list == list[..k] + [list[k]] + list[k + 1..];
    assert a !in list[..k] && a !in list[k + 1..];
  }

  lemma InitInv(len: nat, threads: nat)
    requires threads < len
    ensures Inv(len, threads, Init(len, threads))
  {
    var s := Init(len, threads);
    forall q: Quantity
      ensures Total(q, s.threads) == 0
    {
      NobodyActive(q, s.threads);
    }
    forall a | 0 <= a < len
      ensures multiset(s.list)[a] == 1
    {
      CountBelow(len, s.list, a);
    }
    SumZero(s.heap, (a: nat, node: Node) => node.counter);
  }

  // ----- the invariant is kept -----

  lemma TotalsUpdate(ts: seq<Thread>, t: nat, p: Thread)
    requires t < |ts|
    ensures forall q: Quantity {:trigger Total(q, ts[t := p])} ::
              Total(q, ts[t := p]) + Weight(q, ts[t]) == Total(q, ts) + Weight(q, p)
    ensures forall q: Quantity {:trigger Total(q, ts)} :: Total(q, ts) >= Weight(q, ts[t])
  {
    forall q: Quantity
      ensures Total(q, ts[t := p]) + Weight(q, ts[t]) == Total(q, ts) + Weight(q, p)
      ensures Total(q, ts) >= Weight(q, ts[t])
    {
      SumUpdate(ts, Weigh(q), t, p);
      SumAtLeast(ts, Weigh(q), t);
    }
  }

  lemma ListedOnce(s: State)
    requires Partition(s)
    ensures forall i, j | 0 <= i < j < |s.list| :: s.list[i] != s.list[j]
  {
    forall i, j | 0 <= i < j < |s.list|
      ensures s.list[i] != s.list[j]
    {
      assert multiset(s.list)[s.list[i]] + Total(Carrying(s.list[i]), s.threads) == 1;
      if s.list[i] == s.list[j] { CountTwice(s.list, i, j); }
    }
  }

  /** A thread about to dequeue carries nothing, so two nodes are left at least. */
  lemma TwoListed(len: nat, threads: nat, s: State, t: nat)
    requires threads < len && Inv(len, threads, s) && t < threads && !Carries(s.threads[t])
    ensures |s.list| >= 2
  {
    var one := s.threads[t := CountRead(0)];
    SumUpdate(s.threads, Weigh(CarryingAny), t, CountRead(0));
    SumAtMost(one, Weigh(CarryingAny), 1);
  }

  /** No step of a reachable state follows a null or wild pointer. */
  lemma NoFault(len: nat, threads: nat, s: State, t: nat)
    requires Inv(len, threads, s) && t < threads
    ensures ThreadStep(s, t) != Fault
  {
    hide Partition, Locked, Total, Counters;
    assert ThreadInv(s, s.threads[t]);
  }

  /** A step moves at most one node, between the list and the thread's hands. */
  ghost predicate MovedList(s: State, p: Thread, s': State, p': Thread)
  {
    if p.DeqMove? then p' == DeqUnlock(p.node) && s.list != [] && s'.list == s.list[1..]
    else if p.EnqLink? then p' == EnqTail(p.node) && s'.list == s.list + [p.node]
    else s'.list == s.list && Carries(p) == Carries(p') && (Carries(p) ==> p.node == p'.node)
  }

  ghost predicate MovedLock(s: State, p: Thread, s': State, p': Thread)
  {
    if Inside(p) == Inside(p') then s'.lock == s.lock
    else if Inside(p') then !s.lock && s'.lock
    else !s'.lock
  }

  lemma StepMovesList(s: State, t: nat, s': State)
    requires Steps(s, t, s') && (s.threads[t].DeqMove? ==> s.list != [])
    ensures t < |s'.threads| && MovedList(s, s.threads[t], s', s'.threads[t])
  {
  }

  lemma StepShape(s: State, t: nat, s': State)
    requires Steps(s, t, s')
    ensures t < |s.threads| == |s'.threads| && s'.threads == s.threads[t := s'.threads[t]] && |s'.heap| == |s.heap|
  {
  }

  lemma StepMovesLock(s: State, t: nat, s': State)
    requires Steps(s, t, s')
    ensures t < |s'.threads| && MovedLock(s, s.threads[t], s', s'.threads[t])
  {
  }

  lemma NodesMove(s: State, p: Thread, s': State, p': Thread, a: nat)
    requires MovedList(s, p, s', p') && (p.DeqMove? ==> p.node == s.list[0])
    ensures |s'.list| + Weight(CarryingAny, p') == |s.list| + Weight(CarryingAny, p)
    ensures multiset(s'.list)[a] + Weight(Carrying(a), p') == multiset(s.list)[a] + Weight(Carrying(a), p)
  {
    if p.DeqMove? {
      assert s.list == [s.list[0]] + s.list[1..];
    }
  }

  lemma LockMoves(s: State, p: Thread, s': State, p': Thread)
    requires MovedLock(s, p, s', p') && (Inside(p) ==> s.lock)
    ensures (if s'.lock then 1 else 0) + Weight(InsideOne, p) == (if s.lock then 1 else 0) + Weight(InsideOne, p')
  {
  }

  lemma HasLock(s: State, t: nat)
    requires Locked(s) && t < |s.threads| && Inside(s.threads[t])
    ensures s.lock && forall u | 0 <= u < |s.threads| && u != t :: !Inside(s.threads[u])
  {
    SumAtLeast(s.threads, Weigh(InsideOne), t);
    forall u | 0 <= u < |s.threads| && u != t
      ensures !Inside(s.threads[u])
    {
      SumOfTwo(s.threads, Weigh(InsideOne), if t < u then t else u, if t < u then u else t);
    }
  }

  lemma StepKeepsPartition(s: State, t: nat, s': State)
    requires t < |s.threads| && Partition(s) && Locked(s) && s.list != []
             && Steps(s, t, s') && ThreadInv(s, s.threads[t])
    ensures |s'.heap| == |s.heap| && |s'.threads| == |s.threads| && Partition(s') && Locked(s')
  {
    hide Total, Steps, MovedList, MovedLock, Weight;
    StepShape(s, t, s');
    StepMovesList(s, t, s');
    StepMovesLock(s, t, s');
    var (p, p') := (s.threads[t], s'.threads[t]);
    if Inside(p) { HasLock(s, t); }
    LockMoves(s, p, s', p');
    NodesMove(s, p, s', p', 0);
    TotalsUpdate(s.threads, t, p');
    forall a | 0 <= a < |s.heap|
      ensures multiset(s'.list)[a] + Total(Carrying(a), s'.threads) == 1
    {
      NodesMove(s, p, s', p', a);
    }
    ListInRange(s, p, s', p');
  }

  lemma ListInRange(s: State, p: Thread, s': State, p': Thread)
    requires MovedList(s, p, s', p') && ThreadInv(s, p)
    requires forall k | 0 <= k < |s.list| :: s.list[k] < |s.heap|
    ensures forall k | 0 <= k < |s'.list| :: s'.list[k] < |s.heap|
  {
  }

  // The four writes to the heap and what becomes of the chain.

  lemma ChainDequeued(list: seq<nat>, heap: seq<Node>, head: Option<nat>)
    requires Chained(list, heap, head) && |list| >= 2
    ensures Chained(list[1..], heap, heap[list[0]].next)
    ensures forall tail :: Ended(list, heap, tail) ==> Ended(list[1..], heap, tail)
  {
    assert heap[list[0]].next == Some(list[1]);
  }

  lemma ChainCounted(list: seq<nat>, heap: seq<Node>, head: Option<nat>, node: nat, tmp: nat)
    requires Chained(list, heap, head) && node < |heap|
    ensures var heap' := heap[node := heap[node].(counter := tmp)];
      Chained(list, heap', head) && forall tail :: Ended(list, heap, tail) ==> Ended(list, heap', tail)
  {
  }

  lemma ChainLinked(list: seq<nat>, heap: seq<Node>, head: Option<nat>, node: nat)
    requires Chained(list, heap, head) && node < |heap|
    requires forall i, j | 0 <= i < j < |list| :: list[i] != list[j]
    ensures var last := Last(list);
      last < |heap| && Chained(list + [node], heap[last := heap[last].(next := Some(node))], head)
  {
    var last := Last(list);
    var (list', heap') := (list + [node], heap[last := heap[last].(next := Some(node))]);
    forall i, j | 0 <= i < j < |list'| && j <= i + 1
      ensures heap'[list'[i]].next == Some(list'[j])
    {
      if j < |list| { assert list[i] != last; }
    }
  }

  lemma ChainEnded(list: seq<nat>, heap: seq<Node>, head: Option<nat>)
    requires Chained(list, heap, head)
    requires forall i, j | 0 <= i < j < |list| :: list[i] != list[j]
    ensures var last := Last(list);
      last < |heap| && Chained(list, heap[last := heap[last].(next := None)], head)
  {
    var last := Last(list);
    forall i, j | 0 <= i < j < |list| && j <= i + 1
      ensures list[i] != last && heap[list[i]].next == Some(list[j])
    {
    }
  }

  lemma StepKeepsChain(s: State, t: nat, s': State)
    requires Partition(s) && Chained(s.list, s.heap, s.head) && Steps(s, t, s') && ThreadInv(s, s.threads[t])
    requires s.threads[t].DeqMove? ==> |s.list| >= 2
    ensures Chained(s'.list, s'.heap, s'.head)
  {
    hide Partition, Chained;
    ChainHead(s);
    match s.threads[t]
    case DeqMove(node) => ChainDequeued(s.list, s.heap, s.head);
    case CountWrite(node, tmp) => ChainCounted(s.list, s.heap, s.head, node, tmp + 1);
    case EnqLink(node) => ChainLinked(s.list, s.heap, s.head, node);
    case EnqEnd(node) => ChainEnded(s.list, s.heap, s.head);
    case _ =>
  }

  lemma ChainHead(s: State)
    requires Partition(s) && Chained(s.list, s.heap, s.head)
    ensures s.list != [] && s.head == Some(s.list[0]) && s.list[0] < |s.heap| && Last(s.list) < |s.heap|
    ensures forall i, j | 0 <= i < j < |s.list| :: s.list[i] != s.list[j]
  {
    ListedOnce(s);
  }

  lemma OwnInvDequeue(s: State, t: nat, s': State)
    requires Partition(s) && Chained(s.list, s.heap, s.head) && Steps(s, t, s') && ThreadInv(s, s.threads[t])
    requires s.threads[t].DeqRead? || s.threads[t].DeqMove? || s.threads[t].DeqUnlock? || s.threads[t].CountRead?
    requires (s.threads[t].DeqMove? ==> |s.list| >= 2) && (s.lock || Tidy(s))
    ensures t < |s'.threads| && ThreadInv(s', s'.threads[t]) && (s'.lock || Tidy(s'))
  {
    hide Partition, Chained;
    ChainHead(s);
    if s.threads[t].DeqMove? {
      ChainDequeued(s.list, s.heap, s.head);
    }
  }

  lemma OwnInvEnqueue(s: State, t: nat, s': State)
    requires Partition(s) && Chained(s.list, s.heap, s.head) && Steps(s, t, s') && ThreadInv(s, s.threads[t])
    requires Counted(s.threads[t]) && (Inside(s.threads[t]) ==> s.lock) && (s.lock || Tidy(s))
    ensures t < |s'.threads| && ThreadInv(s', s'.threads[t]) && (s'.lock || Tidy(s'))
  {
    hide Partition, Chained;
    ChainHead(s);
  }

  lemma OwnInv(s: State, t: nat, s': State)
    requires Partition(s) && Chained(s.list, s.heap, s.head) && Steps(s, t, s') && ThreadInv(s, s.threads[t])
    requires s.threads[t].DeqMove? ==> |s.list| >= 2
    requires Inside(s.threads[t]) ==> s.lock
    requires s.lock || Tidy(s)
    ensures t < |s'.threads| && ThreadInv(s', s'.threads[t]) && (s'.lock || Tidy(s'))
  {
    hide Partition, Chained;
    var p := s.threads[t];
    if p.DeqRead? || p.DeqMove? || p.DeqUnlock? || p.CountRead? {
      OwnInvDequeue(s, t, s');
    } else if Counted(p) {
      OwnInvEnqueue(s, t, s');
    } else if p.CountWrite? {
      ChainCounted(s.list, s.heap, s.head, p.node, p.tmp + 1);
    }
  }

  /** How a step can touch what other threads rely on: the list only inside, a counter only of its own node. */
  lemma StepSpares(s: State, t: nat, s': State)
    requires Steps(s, t, s') && ThreadInv(s, s.threads[t])
    ensures |s'.heap| == |s.heap|
    ensures !Inside(s.threads[t]) ==> s'.list == s.list && s'.head == s.head && s'.tail == s.tail
    ensures !Inside(s.threads[t]) ==> forall a | 0 <= a < |s.heap| :: s'.heap[a].next == s.heap[a].next
    ensures forall a | 0 <= a < |s.heap| && s'.heap[a].counter != s.heap[a].counter ::
              s.threads[t].CountWrite? && s.threads[t].node == a
  {
  }

  lemma OthersInv(s: State, t: nat, s': State, u: nat)
    requires t < |s.threads| && Partition(s) && Locked(s) && Steps(s, t, s') && ThreadInv(s, s.threads[t])
    requires u < |s.threads| && u != t && ThreadInv(s, s.threads[u])
    ensures u < |s'.threads| && ThreadInv(s', s'.threads[u])
  {
    hide Partition, Locked, Steps;
    StepShape(s, t, s');
    StepSpares(s, t, s');
    if Inside(s.threads[t]) {
      HasLock(s, t);
    }
    if s.threads[u].CountWrite? && s.threads[t].CountWrite? {
      OneCarrier(s, t, u);
    }
  }

  lemma OneCarrier(s: State, t: nat, u: nat)
    requires Partition(s) && t < |s.threads| && u < |s.threads| && u != t
    requires Carries(s.threads[t]) && Carries(s.threads[u]) && s.threads[t].node < |s.heap|
    ensures s.threads[t].node != s.threads[u].node
  {
    var a := s.threads[t].node;
    SumOfTwo(s.threads, Weigh(Carrying(a)), if t < u then t else u, if t < u then u else t);
    assert multiset(s.list)[a] + Total(Carrying(a), s.threads) == 1;
  }

  lemma CountersMove(s: State, t: nat, s': State)
    requires Steps(s, t, s') && ThreadInv(s, s.threads[t])
    ensures Counters(s'.heap) == Counters(s.heap) + if s.threads[t].CountWrite? then 1 else 0
  {
    hide Sum, Tidy;
    var count := (a: nat, node: Node) => node.counter;
    var p := s.threads[t];
    if p.CountWrite? {
      SumUpdate(s.heap, count, p.node, s'.heap[p.node]);
    } else if p.EnqLink? {
      SumUpdate(s.heap, count, s.tail.value, s'.heap[s.tail.value]);
    } else if p.EnqEnd? {
      SumUpdate(s.heap, count, p.node, s'.heap[p.node]);
    }
  }

  lemma CyclesMove(s: State, t: nat, s': State)
    requires Steps(s, t, s')
    ensures t < |s'.threads|
    ensures s'.cycles + Weight(CountedOne, s'.threads[t]) ==
            s.cycles + Weight(CountedOne, s.threads[t]) + if s.threads[t].CountWrite? then 1 else 0
  {
  }

  /** What a step adds to a counter it owes a cycle for, until the cycle is complete. */
  lemma StepKeepsTally(s: State, t: nat, s': State)
    requires Steps(s, t, s') && ThreadInv(s, s.threads[t])
    requires Counters(s.heap) == s.cycles + Total(CountedOne, s.threads)
    ensures Counters(s'.heap) == s'.cycles + Total(CountedOne, s'.threads)
  {
    hide Total, Counters, ThreadInv, Weight;
    StepShape(s, t, s');
    TotalsUpdate(s.threads, t, s'.threads[t]);
    CyclesMove(s, t, s');
    CountersMove(s, t, s');
  }

  lemma NextKeeps(len: nat, threads: nat, s: State, s': State)
    requires threads < len && Inv(len, threads, s) && Next(s, s')
    ensures Inv(len, threads, s')
  {
    hide Partition, Locked, Chained, Total, Ended, Counters;
    if s' == s.(running := false) {
      RunningAside(s);
    } else {
      var t: nat :| Steps(s, t, s');
      StepKeeps(len, threads, s, t, s');
    }
  }

  lemma RunningAside(s: State)
    ensures var s' := s.(running := false);
      (Partition(s) ==> Partition(s')) && (Locked(s) ==> Locked(s')) &&
      forall p: Thread {:trigger ThreadInv(s', p)} :: ThreadInv(s, p) ==> ThreadInv(s', p)
  {
  }

  lemma StepKeeps(len: nat, threads: nat, s: State, t: nat, s': State)
    requires threads < len && Inv(len, threads, s) && Steps(s, t, s')
    ensures Inv(len, threads, s')
  {
    hide Partition, Locked, Chained, Total, Ended, Counters, Steps, ThreadInv;
    StepShape(s, t, s');
    assert ThreadInv(s, s.threads[t]);
    if s.threads[t].DeqMove? { TwoListed(len, threads, s, t); }
    if Inside(s.threads[t]) { HasLock(s, t); }
    assert s.list != [] by { ChainHead(s); }
    StepKeepsPartition(s, t, s');
    StepKeepsChain(s, t, s');
    OwnInv(s, t, s');
    StepKeepsTally(s, t, s');
    forall u | 0 <= u < |s'.threads|
      ensures ThreadInv(s', s'.threads[u])
    {
      if u != t { OthersInv(s, t, s', u); }
    }
  }

  // ----- whole runs -----

  ghost predicate IsRun(len: nat, threads: nat, run: seq<State>)
  {
    |run| > 0 && run[0] == Init(len, threads) && forall i, j | 0 <= i < j < |run| && j <= i + 1 :: Next(run[i], run[j])
  }

  lemma {:induction false} Reachable(len: nat, threads: nat, run: seq<State>, n: nat)
    requires threads < len && IsRun(len, threads, run) && n < |run|
    ensures Inv(len, threads, run[n])
  {
    hide Inv, Next;
    if n == 0 {
      InitInv(len, threads);
    } else {
      Reachable(len, threads, run, n - 1);
      NextKeeps(len, threads, run[n - 1], run[n]);
    }
  }

  /** Every node is either listed, once, or in the hands of one thread. */
  lemma EachNodeOnce(s: State)
    requires Partition(s) && forall t | 0 <= t < |s.threads| :: ThreadInv(s, s.threads[t])
    ensures forall i, j | 0 <= i < j < |s.list| :: s.list[i] != s.list[j]
    ensures forall a | 0 <= a < |s.heap| :: a !in s.list <==> InHand(s, a)
    ensures forall t, u | 0 <= t < u < |s.threads| && Carries(s.threads[t]) && Carries(s.threads[u]) ::
              s.threads[t].node != s.threads[u].node
  {
    hide Ended;
    ListedOnce(s);
    forall a | 0 <= a < |s.heap|
      ensures a !in s.list <==> InHand(s, a)
    {
      assert multiset(s.list)[a] + Total(Carrying(a), s.threads) == 1;
      if a !in s.list {
        var t := Someone(s.threads, Weigh(Carrying(a)));
      } else if InHand(s, a) {
        var t :| 0 <= t < |s.threads| && Carries(s.threads[t]) && s.threads[t].node == a;
        SumAtLeast(s.threads, Weigh(Carrying(a)), t);
      }
    }
    forall t, u | 0 <= t < u < |s.threads| && Carries(s.threads[t]) && Carries(s.threads[u])
      ensures s.threads[t].node != s.threads[u].node
    {
      assert ThreadInv(s, s.threads[t]);
      OneCarrier(s, t, u);
    }
  }

  ghost predicate InHand(s: State, a: nat)
  {
    exists t :: 0 <= t < |s.threads| && Carries(s.threads[t]) && s.threads[t].node == a
  }

  /** Nobody stops before running is false. */
  lemma {:induction false} NotDoneWhileRunning(len: nat, threads: nat, run: seq<State>, n: nat, t: nat)
    requires IsRun(len, threads, run) && n < |run| && run[n].running && t < |run[n].threads|
    ensures run[n].threads[t] != Done
  {
    hide Next;
    if n > 0 {
      assert Next(run[n - 1], run[n]);
      NotDoneStep(run[n - 1], run[n], t);
      NotDoneWhileRunning(len, threads, run, n - 1, t);
    }
  }

  lemma NotDoneStep(s: State, s': State, t: nat)
    requires Next(s, s') && s'.running && t < |s'.threads|
    ensures s.running && t < |s.threads| && (s'.threads[t] == Done ==> s.threads[t] == Done)
  {
    if s' != s.(running := false) {
      var u: nat :| Steps(s, u, s');
      StepShape(s, u, s');
      RunningStep(s, u, s');
    }
  }

  lemma RunningStep(s: State, t: nat, s': State)
    requires Steps(s, t, s')
    ensures s'.running == s.running && t < |s'.threads| && (s.running ==> s'.threads[t] != Done)
  {
  }

  // ----- first come, first served -----

  /** From s to s' thread t takes its node off the list, or puts it back. */
  predicate TakesAt(s: State, s': State, t: nat)
  {
    t < |s.threads| && t < |s'.threads| && s.threads[t].DeqMove? && s'.threads[t].DeqUnlock?
  }

  predicate PutsAt(s: State, s': State, t: nat)
  {
    t < |s.threads| && t < |s'.threads| && s.threads[t].EnqLink? && s'.threads[t].EnqTail?
  }

  /** The node that is taken, or put back, from s to s'. */
  ghost function TakenBy(s: State, s': State): seq<nat>
  {
    if t: nat :| TakesAt(s, s', t) then [s.threads[t].node] else []
  }

  ghost function PutBy(s: State, s': State): seq<nat>
  {
    if t: nat :| PutsAt(s, s', t) then [s.threads[t].node] else []
  }

  /** The nodes that were taken in a run, and the nodes that were put back, in order. */
  ghost function Taken(run: seq<State>): seq<nat>
  {
    if |run| <= 1 then []
    else
      Taken(run[..|run| - 1]) + TakenBy(run[|run| - 2], run[|run| - 1])
  }

  ghost function PutBack(run: seq<State>): seq<nat>
  {
    if |run| <= 1 then []
    else
      PutBack(run[..|run| - 1]) + PutBy(run[|run| - 2], run[|run| - 1])
  }

  /** Only the thread that steps takes or puts. */
  lemma OneMoves(s: State, t: nat, s': State)
    requires Steps(s, t, s')
    ensures t < |s.threads|
    ensures TakenBy(s, s') == if s.threads[t].DeqMove? then [s.threads[t].node] else []
    ensures PutBy(s, s') == if s.threads[t].EnqLink? then [s.threads[t].node] else []
  {
    StepShape(s, t, s');
    StepKind(s, t, s');
    hide Steps;
    if s.threads[t].DeqMove? { assert TakesAt(s, s', t); }
    if s.threads[t].EnqLink? { assert PutsAt(s, s', t); }
  }

  lemma StepKind(s: State, t: nat, s': State)
    requires Steps(s, t, s')
    ensures t < |s'.threads|
    ensures (s.threads[t].DeqMove? ==> s'.threads[t].DeqUnlock?) && (s.threads[t].EnqLink? ==> s'.threads[t].EnqTail?)
  {
  }

  lemma StepQueue(len: nat, threads: nat, s: State, s': State)
    requires Inv(len, threads, s) && Next(s, s')
    ensures s.list + PutBy(s, s') == TakenBy(s, s') + s'.list
  {
    hide Partition, Locked, Total, Ended, Counters, TakenBy, PutBy;
    if s' == s.(running := false) {
      NobodyMoves(s);
    } else {
      var t: nat :| Steps(s, t, s');
      OneMoves(s, t, s');
      assert ThreadInv(s, s.threads[t]);
      StepMovesList(s, t, s');
      hide ThreadInv, Steps, Chained;
      if s.threads[t].DeqMove? {
        assert s.list == [s.list[0]] + s.list[1..];
      }
    }
  }

  lemma NobodyMoves(s: State)
    ensures TakenBy(s, s.(running := false)) == PutBy(s, s.(running := false)) == []
  {
  }

  /** The nodes are taken in the order in which they were listed and put back: what was on the list at
      first and what was put back since, in order, is what was taken, in order, and what is on the list. */
  lemma {:induction false} FirstComeFirstServed(len: nat, threads: nat, run: seq<State>)
    requires threads < len && IsRun(len, threads, run)
    ensures Init(len, threads).list + PutBack(run) == Taken(run) + run[|run| - 1].list
    decreases |run|
  {
    hide Inv, Next, TakenBy, PutBy;
    var n := |run| - 1;
    if n > 0 {
      var (s, s', before, first) := (run[n - 1], run[n], run[..n], Init(len, threads).list);
      FirstComeFirstServed(len, threads, before);
      Reachable(len, threads, run, n - 1);
      StepQueue(len, threads, s, s');
      hide Init;
      assert first + (PutBack(before) + PutBy(s, s')) == (first + PutBack(before)) + PutBy(s, s');
      assert Taken(before) + s.list + PutBy(s, s') == Taken(before) + (s.list + PutBy(s, s'));
      assert Taken(before) + (TakenBy(s, s') + s'.list) == Taken(before) + TakenBy(s, s') + s'.list;
    }
  }

  /** Whenever the lock is free, head is not null, the links run from head through the listed nodes to
      tail, and listed nodes and nodes in hand are together all the nodes. */
  lemma FreeLockMeansWhole(len: nat, threads: nat, run: seq<State>, n: nat)
    requires threads < len && IsRun(len, threads, run) && n < |run| && !run[n].lock
    ensures var s := run[n];
      && |s.heap| == len && s.list != [] && s.head == Some(s.list[0]) && s.tail == Some(Last(s.list))
      && (forall k | 0 <= k < |s.list| ::
            && s.list[k] < len
            && s.heap[s.list[k]].next == if k == |s.list| - 1 then None else Some(s.list[k + 1]))
      && (forall i, j | 0 <= i < j < |s.list| :: s.list[i] != s.list[j])
      && (forall a | 0 <= a < len :: a !in s.list <==> InHand(s, a))
      && (forall t, u | 0 <= t < u < |s.threads| && Carries(s.threads[t]) && Carries(s.threads[u]) ::
            s.threads[t].node != s.threads[u].node)
  {
    hide Partition, InHand, Locked, ThreadInv;
    Reachable(len, threads, run, n);
    EachNodeOnce(run[n]);
  }

  // ----- the end -----

  ghost predicate AllDone(s: State)
  {
    forall t | 0 <= t < |s.threads| :: s.threads[t] == Done
  }

  /** The counters met along the list. */
  ghost function Along(list: seq<nat>, heap: seq<Node>): nat
    requires forall k | 0 <= k < |list| :: list[k] < |heap|
  {
    if list == [] then 0 else heap[list[0]].counter + Along(list[1..], heap)
  }

  ghost function Times(list: seq<nat>): (nat, Node) -> nat
  {
    (a: nat, node: Node) => node.counter * multiset(list)[a]
  }

  lemma {:induction false} AlongIsSum(list: seq<nat>, heap: seq<Node>)
    requires forall k | 0 <= k < |list| :: list[k] < |heap|
    ensures Along(list, heap) == Sum(heap, Times(list))
  {
    if list == [] {
      SumZero(heap, Times(list));
    } else {
      AlongIsSum(list[1..], heap);
      assert list == [list[0]] + list[1..];
      var a := list[0];
      assert multiset(list)[a] == multiset(list[1..])[a] + 1;
      assert heap[a].counter * (multiset(list[1..])[a] + 1)
             == heap[a].counter * multiset(list[1..])[a] + heap[a].counter;
      SumDiffer(heap, Times(list), Times(list[1..]), a);
    }
  }

  lemma AllListed(len: nat, threads: nat, s: State)
    requires Inv(len, threads, s) && AllDone(s)
    ensures |s.list| == len && Tidy(s) && Counters(s.heap) == s.cycles
    ensures |s.heap| == len && (forall a | 0 <= a < len :: multiset(s.list)[a] == 1)
    ensures forall k | 0 <= k < |s.list| :: s.list[k] < |s.heap|
  {
    hide Total, Counters, Chained, Ended;
    forall q: Quantity
      ensures Total(q, s.threads) == 0
    {
      NobodyActive(q, s.threads);
    }
    LockedByNobody(s);
  }

  lemma LockedByNobody(s: State)
    requires Locked(s) && AllDone(s)
    ensures !s.lock
  {
    NobodyActive(InsideOne, s.threads);
  }

  /** When all threads are done every node is back on the list. */
  lemma AllBack(len: nat, threads: nat, s: State)
    requires Inv(len, threads, s) && AllDone(s)
    ensures |s.list| == len && Tidy(s) && Along(s.list, s.heap) == s.cycles
  {
    AllListed(len, threads, s);
    hide Inv, Sum, AllDone;
    AlongIsSum(s.list, s.heap);
    SumSame(s.heap, s.heap, Times(s.list), (a: nat, node: Node) => node.counter);
  }

  /** main's last loop: after the joins it meets every node and counts the completed cycles. */
  method Report(ghost len: nat, ghost threads: nat, s: State) returns (nodes: nat, total: nat)
    requires Inv(len, threads, s) && AllDone(s)
    ensures nodes == len && total == s.cycles
  {
    AllBack(len, threads, s);
    nodes, total := 0, 0;
    var p := s.head;
    while p.Some?
      invariant nodes <= |s.list| && p == if nodes < |s.list| then Some(s.list[nodes]) else None
      invariant total + Along(s.list[nodes..], s.heap) == s.cycles
      decreases |s.list| - nodes
    {
      assert s.list[nodes..][1..] == s.list[nodes + 1..];
      if nodes + 1 < |s.list| {
        assert s.heap[s.list[nodes]].next == Some(s.list[nodes + 1]);
      }
      nodes := nodes + 1;
      total := total + s.heap[p.value].counter;
      p := s.heap[p.value].next;
    }
  }

  /** Steps left to a thread once running is false. */
  ghost function Rank(p: Thread): nat
  {
    match p
    case Done => 0
    case Testing => 1
    case EnqUnlock(_) => 2
    case EnqEnd(_) => 3
    case EnqTail(_) => 4
    case EnqLink(_) => 5
    case EnqSpin(_) => 6
    case CountWrite(_, _) => 7
    case CountRead(_) => 8
    case DeqUnlock(_) => 9
    case DeqMove(_) => 10
    case DeqRead => 11
    case DeqSpin => 12
  }

  ghost function StepsLeft(s: State): nat
  {
    Sum(s.threads, (t: nat, p: Thread) => Rank(p))
  }

  /** Whoever holds the lock can go on, so an unfinished thread never leaves everybody blocked; once
      running is false every step brings the end nearer. */
  lemma Progress(len: nat, threads: nat, s: State, t: nat) returns (u: nat, s': State)
    requires threads < len && Inv(len, threads, s) && t < threads && s.threads[t] != Done
    ensures Steps(s, u, s')
  {
    hide Partition, Chained, Ended, Counters, ThreadInv;
    u := t;
    if s.lock {
      u := Someone(s.threads, Weigh(InsideOne));
    }
    NoFault(len, threads, s, u);
    s' := ThreadStep(s, u).state;
  }

  lemma ShutdownStep(s: State, t: nat, s': State)
    requires Steps(s, t, s') && !s.running
    ensures !s'.running && StepsLeft(s') < StepsLeft(s)
  {
    RankDrops(s, t, s');
    StepShape(s, t, s');
    hide Steps, Sum, Rank;
    SumUpdate(s.threads, (t: nat, p: Thread) => Rank(p), t, s'.threads[t]);
  }

  lemma RankDrops(s: State, t: nat, s': State)
    requires Steps(s, t, s') && !s.running
    ensures !s'.running && t < |s'.threads| && Rank(s'.threads[t]) < Rank(s.threads[t])
  {
  }

  /** A run of threads' steps alone. */
  ghost predicate ThreadRun(run: seq<State>)
  {
    |run| > 0 && forall i, j | 0 <= i < j < |run| && j <= i + 1 :: exists t: nat :: Steps(run[i], t, run[j])
  }

  lemma {:induction false} ShutdownRun(len: nat, threads: nat, run: seq<State>, n: nat)
    requires threads < len && ThreadRun(run) && Inv(len, threads, run[0]) && !run[0].running && n < |run|
    ensures Inv(len, threads, run[n]) && !run[n].running && n + StepsLeft(run[n]) <= StepsLeft(run[0])
  {
    hide Inv, Steps, StepsLeft;
    if n > 0 {
      ShutdownRun(len, threads, run, n - 1);
      var t: nat :| Steps(run[n - 1], t, run[n]);
      StepKeeps(len, threads, run[n - 1], t, run[n]);
      ShutdownStep(run[n - 1], t, run[n]);
    }
  }

  /** Once running is false every run ends, and it ends with all threads done, every node back on the
      list and the counters making up the completed cycles. */
  lemma Shutdown(len: nat, threads: nat, run: seq<State>)
    requires threads < len && ThreadRun(run) && Inv(len, threads, run[0]) && !run[0].running
    ensures |run| <= StepsLeft(run[0]) + 1
    ensures var last := run[|run| - 1];
      (forall t: nat, s' :: !Steps(last, t, s')) ==>
        AllDone(last) && |last.list| == len && Counters(last.heap) == last.cycles
  {
    var last := run[|run| - 1];
    ShutdownRun(len, threads, run, |run| - 1);
    hide Steps, ThreadRun;
    if forall t: nat, s' :: !Steps(last, t, s') {
      forall t | 0 <= t < |last.threads|
        ensures last.threads[t] == Done
      {
        if last.threads[t] != Done { var u, s' := Progress(len, threads, last, t); }
      }
      AllBack(len, threads, last);
      NobodyActive(CountedOne, last.threads);
    }
  }

  // ----- the bound on the threads is exact -----

  ghost predicate CanFault(len: nat, threads: nat)
  {
    exists run: seq<State>, t: nat :: FaultingRun(len, threads, run, t)
  }

  ghost predicate FaultingRun(len: nat, threads: nat, run: seq<State>, t: nat)
  {
    IsRun(len, threads, run) && Faults(run[|run| - 1], t)
  }

  lemma Advance(len: nat, threads: nat, run: seq<State>, t: nat) returns (more: seq<State>)
    requires IsRun(len, threads, run) && t < |run[|run| - 1].threads| && ThreadStep(run[|run| - 1], t).To?
    ensures IsRun(len, threads, more) && |more| > 0 && more[|more| - 1] == ThreadStep(run[|run| - 1], t).state
  {
    hide ThreadStep;
    var s' := ThreadStep(run[|run| - 1], t).state;
    assert Steps(run[|run| - 1], t, s');
    more := run + [s'];
  }

  /** The first k threads have taken a node each; all wait to count. */
  ghost function Drained(len: nat, threads: nat, k: nat): State
    requires k <= len
  {
    Init(len, threads).(
      head := Before(len - k),
      list := seq<nat>(len - k, i requires 0 <= i < len - k => len - k - 1 - i),
      threads := seq(threads, t requires 0 <= t < threads => if t < k then CountRead(len - 1 - t) else Testing))
  }

  lemma {:induction false} Drain(len: nat, threads: nat, k: nat) returns (run: seq<State>)
    requires k <= len && k <= threads
    ensures IsRun(len, threads, run) && run[|run| - 1] == Drained(len, threads, k)
  {
    if k == 0 {
      run := [Init(len, threads)];
    } else {
      run := Drain(len, threads, k - 1);
      run := TakeOne(len, threads, k, run);
    }
  }

  lemma TakeOne(len: nat, threads: nat, k: nat, start: seq<State>) returns (run: seq<State>)
    requires 1 <= k <= len && k <= threads
    requires IsRun(len, threads, start) && start[|start| - 1] == Drained(len, threads, k - 1)
    ensures IsRun(len, threads, run) && run[|run| - 1] == Drained(len, threads, k)
  {
    hide IsRun;
    run := Advance(len, threads, start, k - 1);
    run := Advance(len, threads, run, k - 1);
    run := Advance(len, threads, run, k - 1);
    run := Advance(len, threads, run, k - 1);
    run := Advance(len, threads, run, k - 1);
    assert run[|run| - 1].threads == Drained(len, threads, k).threads;
    assert run[|run| - 1].list == Drained(len, threads, k).list;
  }

  /** Some interleaving follows a null pointer if and only if there are as many threads as nodes. */
  lemma FaultsIffCrowded(len: nat, threads: nat)
    requires len >= 1
    ensures CanFault(len, threads) <==> threads >= len
  {
    if threads >= len {
      var run := Drain(len, threads, len);
      run := OnceRound(len, threads, run);
      assert FaultingRun(len, threads, run, 0);
    } else if CanFault(len, threads) {
      var run: seq<State>, t: nat :| FaultingRun(len, threads, run, t);
      Reachable(len, threads, run, |run| - 1);
      NoFault(len, threads, run[|run| - 1], t);
    }
  }

  /** With every node taken the first thread puts its own back behind a head that stays null, and
      comes round to take another. */
  lemma OnceRound(len: nat, threads: nat, start: seq<State>) returns (run: seq<State>)
    requires 1 <= len <= threads && IsRun(len, threads, start) && start[|start| - 1] == Drained(len, threads, len)
    ensures IsRun(len, threads, run) && |run[|run| - 1].threads| == threads
    ensures run[|run| - 1].threads[0] == DeqRead && run[|run| - 1].head == None
  {
    hide IsRun;
    run := Advance(len, threads, start, 0);
    run := Advance(len, threads, run, 0);
    run := Advance(len, threads, run, 0);
    run := Advance(len, threads, run, 0);
    run := Advance(len, threads, run, 0);
    run := Advance(len, threads, run, 0);
    run := Advance(len, threads, run, 0);
    run := Advance(len, threads, run, 0);
    run := Advance(len, threads, run, 0);
  }

  /** The program as it is: up to 99 threads share the 100 nodes safely. */
  lemma CriticalIsSafe(threads: nat, run: seq<State>, n: nat, t: nat)
    requires threads < LIST_LEN && IsRun(LIST_LEN, threads, run) && n < |run| && t < threads
    ensures !Faults(run[n], t) && run[n].head.Some?
    ensures AllDone(run[n]) ==> |run[n].list| == LIST_LEN && Counters(run[n].heap) == run[n].cycles
  {
    Reachable(LIST_LEN, threads, run, n);
    NoFault(LIST_LEN, threads, run[n], t);
    if AllDone(run[n]) {
      AllBack(LIST_LEN, threads, run[n]);
      NobodyActive(CountedOne, run[n].threads);
    }
  }
}
