/** Threads that take locks in one global order and give them back in any order: the protocol of
    assignments/hw5/ordered.c and of exercises/ex09/deadlock.c, for any number of threads and locks. */
module OrderedLocks {
  import opened Common
  import opened Totals

  /** For each thread the locks it takes, in order, and the same locks in the order it gives them back. */
  datatype Config = Config(locks: nat, take: seq<seq<int>>, give: seq<seq<int>>)

  ghost predicate Increasing(s: seq<int>)
  {
    forall i, j | 0 <= i < j < |s| :: s[i] < s[j]
  }

  /** What the programs have to get right: every thread takes its locks in increasing order. */
  ghost predicate Legal(c: Config)
  {
    && |c.take| == |c.give|
    && (forall t | 0 <= t < |c.take| :: Increasing(c.take[t]) && multiset(c.give[t]) == multiset(c.take[t]))
    && (forall t, k | 0 <= t < |c.take| && 0 <= k < |c.take[t]| :: 0 <= c.take[t][k] < c.locks)
  }

  datatype Thread =
    | Testing             // while (running)
    | Taking(k: nat)      // about to wait for lock number k of its list, or to work if there is none left
    | Giving(k: nat)      // about to give back lock number k of its list, or to go round again
    | Done

  /** value[l] is 1 if lock l is free (a semaphore starts at 1, a mutex unlocked). */
  datatype State = State(running: bool, value: seq<nat>, threads: seq<Thread>)

  function Init(c: Config): State
  {
    State(true, seq(c.locks, _ => 1), seq(|c.take|, _ => Testing))
  }

  /** The next step of thread t; None if it is blocked or done. */
  function ThreadStep(c: Config, s: State, t: nat): Option<State>
    requires t < |s.threads| && t < |c.take| && t < |c.give|
  {
    match s.threads[t]
    case Testing => Some(s.(threads := s.threads[t := if s.running then Taking(0) else Done]))
    case Taking(k) =>
      if k >= |c.take[t]| then Some(s.(threads := s.threads[t := Giving(0)]))
      else
        var l := c.take[t][k];
        if !(0 <= l < |s.value|) || s.value[l] == 0 then None
        else Some(s.(value := s.value[l := s.value[l] - 1], threads := s.threads[t := Taking(k + 1)]))
    case Giving(k) =>
      if k >= |c.give[t]| then Some(s.(threads := s.threads[t := Testing]))
      else
        var l := c.give[t][k];
        if !(0 <= l < |s.value|) then None
        else Some(s.(value := s.value[l := s.value[l] + 1], threads := s.threads[t := Giving(k + 1)]))
    case Done => None
  }

  ghost predicate Enabled(c: Config, s: State, t: nat)
  {
    t < |s.threads| && t < |c.take| && t < |c.give| && ThreadStep(c, s, t).Some?
  }

  /** A thread steps, or main clears running. */
  ghost predicate Next(c: Config, s: State, s': State)
  {
    || s' == s.(running := false)
    || exists t: nat :: Enabled(c, s, t) && ThreadStep(c, s, t) == Some(s')
  }

  // ----- who holds what -----

  /** What thread t holds when it stands at p. */
  ghost function HeldBy(c: Config, t: nat, p: Thread): multiset<int>
    requires t < |c.take| && t < |c.give|
  {
    match p
    case Testing => multiset{}
    case Taking(k) => if k <= |c.take[t]| then multiset(c.take[t][..k]) else multiset{}
    case Giving(k) => if k <= |c.give[t]| then multiset(c.give[t][k..]) else multiset{}
    case Done => multiset{}
  }

  ghost function Holding(c: Config, l: int): (nat, Thread) -> nat
  {
    (t: nat, p: Thread) => if t < |c.take| && t < |c.give| then HeldBy(c, t, p)[l] else 0
  }

  /** How many of the threads hold lock l. */
  ghost function Holders(c: Config, ts: seq<Thread>, l: int): nat
  {
    Sum(ts, Holding(c, l))
  }

  ghost predicate InRange(c: Config, t: nat, p: Thread)
    requires t < |c.take| && t < |c.give|
  {
    match p
    case Taking(k) => k <= |c.take[t]|
    case Giving(k) => k <= |c.give[t]|
    case _ => true
  }

  ghost predicate Inv(c: Config, s: State)
  {
    && |s.threads| == |c.take| == |c.give| && |s.value| == c.locks
    && (forall t | 0 <= t < |s.threads| :: InRange(c, t, s.threads[t]))
    && (forall l | 0 <= l < c.locks :: s.value[l] + Holders(c, s.threads, l) == 1)
  }

  lemma NoHolders(c: Config, ts: seq<Thread>, l: int)
    requires forall t | 0 <= t < |ts| :: ts[t].Testing? || ts[t].Done?
    ensures Holders(c, ts, l) == 0
  {
    SumZero(ts, Holding(c, l));
  }

  lemma InitInv(c: Config)
    requires Legal(c)
    ensures Inv(c, Init(c))
  {
    forall l | 0 <= l < c.locks
      ensures Holders(c, Init(c).threads, l) == 0
    {
      NoHolders(c, Init(c).threads, l);
    }
  }

  lemma HeldWhenTaking(c: Config, t: nat, k: nat, l: int)
    requires t < |c.take| && t < |c.give| && multiset(c.give[t]) == multiset(c.take[t])
    ensures k < |c.take[t]| ==>
              HeldBy(c, t, Taking(k + 1))[l] == HeldBy(c, t, Taking(k))[l] + if c.take[t][k] == l then 1 else 0
    ensures HeldBy(c, t, Giving(0)) == HeldBy(c, t, Taking(|c.take[t]|)) && HeldBy(c, t, Taking(0)) == multiset{}
  {
    if k < |c.take[t]| {
      assert c.take[t][..k + 1] == c.take[t][..k] + [c.take[t][k]];
    }
    assert c.take[t][..|c.take[t]|] == c.take[t] && c.give[t][0..] == c.give[t];
  }

  lemma HeldWhenGiving(c: Config, t: nat, k: nat, l: int)
    requires t < |c.take| && t < |c.give|
    ensures k < |c.give[t]| ==>
              HeldBy(c, t, Giving(k))[l] == HeldBy(c, t, Giving(k + 1))[l] + if c.give[t][k] == l then 1 else 0
    ensures HeldBy(c, t, Giving(|c.give[t]|)) == multiset{}
  {
    if k < |c.give[t]| {
      assert c.give[t][k..] == [c.give[t][k]] + c.give[t][k + 1..];
    }
  }

  /** What a step of t takes from a lock's value it adds to what t holds. */
  lemma HeldAfter(c: Config, s: State, t: nat, s': State, l: int)
    requires Legal(c) && Inv(c, s) && Enabled(c, s, t) && ThreadStep(c, s, t) == Some(s') && 0 <= l < c.locks
    ensures HeldBy(c, t, s'.threads[t])[l] + s'.value[l] == HeldBy(c, t, s.threads[t])[l] + s.value[l]
  {
    hide HeldBy, Holders, Increasing;
    assert InRange(c, t, s.threads[t]);
    HeldNothing(c, t);
    match s.threads[t]
    case Testing =>
      HeldWhenTaking(c, t, 0, l);
    case Taking(k) =>
      HeldWhenTaking(c, t, k, l);
    case Giving(k) =>
      HeldWhenGiving(c, t, k, l);
  }

  lemma HeldNothing(c: Config, t: nat)
    requires t < |c.take| && t < |c.give|
    ensures HeldBy(c, t, Testing) == HeldBy(c, t, Done) == multiset{}
  {
  }

  lemma NextKeeps(c: Config, s: State, s': State)
    requires Legal(c) && Inv(c, s) && Next(c, s, s')
    ensures Inv(c, s')
  {
    hide HeldBy, Legal, Sum;
    if s' != s.(running := false) {
      var t: nat :| Enabled(c, s, t) && ThreadStep(c, s, t) == Some(s');
      assert s'.threads == s.threads[t := s'.threads[t]];
      forall l | 0 <= l < c.locks
        ensures s'.value[l] + Holders(c, s'.threads, l) == 1
      {
        SumUpdate(s.threads, Holding(c, l), t, s'.threads[t]);
        HeldAfter(c, s, t, s', l);
      }
    }
  }

  // ----- safety -----

  /** No lock has two holders, and no thread holds a lock twice. */
  lemma MutualExclusion(c: Config, s: State, l: int, t: nat)
    requires Legal(c) && Inv(c, s) && 0 <= l < c.locks && t < |s.threads|
    ensures HeldBy(c, t, s.threads[t])[l] <= 1
    ensures forall u | 0 <= u < |s.threads| && u != t
              :: HeldBy(c, t, s.threads[t])[l] + HeldBy(c, u, s.threads[u])[l] <= 1
  {
    assert s.value[l] + Holders(c, s.threads, l) == 1;
    SumAtLeast(s.threads, Holding(c, l), t);
    forall u | 0 <= u < |s.threads| && u != t
      ensures HeldBy(c, t, s.threads[t])[l] + HeldBy(c, u, s.threads[u])[l] <= 1
    {
      SumOfTwo(s.threads, Holding(c, l), if t < u then t else u, if t < u then u else t);
    }
  }

  // ----- no deadlock -----

  /** The lock a thread that is taking locks waits for lies above all it holds. */
  lemma WaitsAbove(c: Config, s: State, t: nat, l: int)
    requires Legal(c) && Inv(c, s) && t < |s.threads| && s.threads[t].Taking? && s.threads[t].k < |c.take[t]|
    requires HeldBy(c, t, s.threads[t])[l] > 0
    ensures l < c.take[t][s.threads[t].k]
  {
    var k := s.threads[t].k;
    assert l in c.take[t][..k];
  }

  /** From any unfinished thread the chain of waiting leads up the lock order to one that can step. */
  lemma FindEnabled(c: Config, s: State, t: nat) returns (u: nat)
    requires Legal(c) && Inv(c, s) && t < |s.threads| && s.threads[t] != Done
    ensures u < |s.threads| && Enabled(c, s, u)
    decreases if s.threads[t].Taking? && s.threads[t].k < |c.take[t]| then c.locks - c.take[t][s.threads[t].k]
              else c.locks + 1
  {
    if Enabled(c, s, t) {
      u := t;
    } else {
      GiveInRange(c, s, t);
      var l := c.take[t][s.threads[t].k];
      assert s.value[l] == 0;
      var h := Someone(s.threads, Holding(c, l));
      if s.threads[h].Taking? && s.threads[h].k < |c.take[h]| {
        WaitsAbove(c, s, h, l);
        u := FindEnabled(c, s, h);
      } else {
        GiveInRange(c, s, h);
        u := h;
      }
    }
  }

  lemma GiveInRange(c: Config, s: State, t: nat)
    requires Legal(c) && Inv(c, s) && t < |s.threads|
    ensures s.threads[t].Giving? ==> Enabled(c, s, t)
  {
    if s.threads[t].Giving? && s.threads[t].k < |c.give[t]| {
      var l := c.give[t][s.threads[t].k];
      assert l in multiset(c.give[t]);
      assert l in multiset(c.take[t]);
    }
  }

  /** Every reachable state with an unfinished thread lets some thread step. */
  lemma NoDeadlock(c: Config, s: State)
    requires Legal(c) && Inv(c, s) && exists t :: 0 <= t < |s.threads| && s.threads[t] != Done
    ensures exists u: nat :: Enabled(c, s, u)
  {
    var t :| 0 <= t < |s.threads| && s.threads[t] != Done;
    var u := FindEnabled(c, s, t);
  }

  // ----- shutdown -----

  /** Steps left to thread t, standing at p, once running is false. */
  ghost function Left(c: Config, t: nat, p: Thread): nat
    requires t < |c.take| && t < |c.give|
  {
    match p
    case Testing => 1
    case Taking(k) => 3 + |c.give[t]| + (if k <= |c.take[t]| then |c.take[t]| - k else 0)
    case Giving(k) => 2 + (if k <= |c.give[t]| then |c.give[t]| - k else 0)
    case Done => 0
  }

  ghost function LeftTotal(c: Config, ts: seq<Thread>): nat
  {
    Sum(ts, (t: nat, p: Thread) => if t < |c.take| && t < |c.give| then Left(c, t, p) else 0)
  }

  lemma LeftUpdate(c: Config, ts: seq<Thread>, t: nat, p: Thread)
    requires t < |ts| <= |c.take| && |ts| <= |c.give|
    ensures LeftTotal(c, ts[t := p]) + Left(c, t, ts[t]) == LeftTotal(c, ts) + Left(c, t, p)
  {
    SumUpdate(ts, (t: nat, p: Thread) => if t < |c.take| && t < |c.give| then Left(c, t, p) else 0, t, p);
  }

  /** After running is cleared every thread step brings the end nearer. */
  lemma ShutdownStep(c: Config, s: State, t: nat, s': State)
    requires Legal(c) && Inv(c, s) && !s.running && Enabled(c, s, t) && ThreadStep(c, s, t) == Some(s')
    ensures Inv(c, s') && !s'.running && LeftTotal(c, s'.threads) < LeftTotal(c, s.threads)
  {
    NextKeeps(c, s, s');
    assert InRange(c, t, s.threads[t]) && s'.threads == s.threads[t := s'.threads[t]];
    LeftUpdate(c, s.threads, t, s'.threads[t]);
  }

  /** A run of threads' steps alone. */
  ghost predicate ThreadRun(c: Config, run: seq<State>)
  {
    |run| > 0 && forall i, j | 0 <= i < j < |run| && j <= i + 1 ::
                   exists t: nat :: Enabled(c, run[i], t) && ThreadStep(c, run[i], t) == Some(run[j])
  }

  lemma {:induction false} ShutdownRun(c: Config, run: seq<State>, n: nat)
    requires Legal(c) && ThreadRun(c, run) && Inv(c, run[0]) && !run[0].running && n < |run|
    ensures Inv(c, run[n]) && !run[n].running
    ensures n + LeftTotal(c, run[n].threads) <= LeftTotal(c, run[0].threads)
  {
    hide Inv, Legal;
    if n > 0 {
      ShutdownRun(c, run, n - 1);
      var t: nat :| Enabled(c, run[n - 1], t) && ThreadStep(c, run[n - 1], t) == Some(run[n]);
      ShutdownStep(c, run[n - 1], t, run[n]);
    }
  }

  /** Once running is false all runs end, and they end with every thread done and every lock free. */
  lemma Shutdown(c: Config, run: seq<State>)
    requires Legal(c) && ThreadRun(c, run) && Inv(c, run[0]) && !run[0].running
    ensures |run| <= LeftTotal(c, run[0].threads) + 1
    ensures var last := run[|run| - 1];
      (forall t: nat :: !Enabled(c, last, t)) ==>
        && |last.value| == c.locks
        && (forall t | 0 <= t < |last.threads| :: last.threads[t] == Done)
        && (forall l | 0 <= l < c.locks :: last.value[l] == 1)
  {
    var last := run[|run| - 1];
    ShutdownRun(c, run, |run| - 1);
    if forall t: nat :: !Enabled(c, last, t) {
      forall t | 0 <= t < |last.threads|
        ensures last.threads[t] == Done
      {
        if last.threads[t] != Done { var u := FindEnabled(c, last, t); }
      }
      forall l | 0 <= l < c.locks
        ensures last.value[l] == 1
      {
        NoHolders(c, last.threads, l);
      }
    }
  }

  // ----- all interleavings from the start -----

  ghost predicate IsRun(c: Config, run: seq<State>)
  {
    |run| > 0 && run[0] == Init(c) && forall i, j | 0 <= i < j < |run| && j <= i + 1 :: Next(c, run[i], run[j])
  }

  lemma {:induction false} Reachable(c: Config, run: seq<State>, n: nat)
    requires Legal(c) && IsRun(c, run) && n < |run|
    ensures Inv(c, run[n])
  {
    hide Inv, Legal, Next;
    if n == 0 {
      InitInv(c);
    } else {
      Reachable(c, run, n - 1);
      NextKeeps(c, run[n - 1], run[n]);
    }
  }

  // ----- what every thread does in every run -----

  /** Nobody stops before running is false. */
  lemma {:induction false} NotDoneWhileRunning(c: Config, run: seq<State>, n: nat, t: nat)
    requires Legal(c) && IsRun(c, run) && n < |run| && run[n].running && t < |run[n].threads|
    ensures run[n].threads[t] != Done
  {
    if n > 0 {
      var (s, s') := (run[n - 1], run[n]);
      assert Next(c, s, s');
      if s' != s.(running := false) {
        var u: nat :| Enabled(c, s, u) && ThreadStep(c, s, u) == Some(s');
      }
      NotDoneWhileRunning(c, run, n - 1, t);
    }
  }

  /** Thread t stands where the program works: it has taken all its locks, and given none back. */
  ghost predicate AtWork(c: Config, s: State, t: nat)
    requires t < |c.take| && t < |c.give|
  {
    && t < |s.threads| && s.threads[t] == Taking(|c.take[t]|)
    && HeldBy(c, t, s.threads[t]) == multiset(c.take[t])
  }

  /** How far a thread has come on its way round. */
  ghost function Place(c: Config, t: nat, p: Thread): nat
    requires t < |c.take| && t < |c.give|
  {
    match p
    case Testing => 0
    case Taking(k) => 1 + k
    case Giving(k) => 2 + |c.take[t]| + k
    case Done => 0
  }

  /** A step of anybody leaves thread t where it is, or takes it to the next place, by way of work. */
  lemma StepForward(c: Config, s: State, s': State, t: nat)
    requires Legal(c) && Inv(c, s) && Next(c, s, s') && t < |c.take|
    ensures t < |s.threads| == |s'.threads| && |c.give| == |c.take|
    ensures var (p, p') := (s.threads[t], s'.threads[t]);
      || p' == p
      || (p.Testing? && p' == if s.running then Taking(0) else Done)
      || (p.Taking? && (p' == Taking(p.k + 1) || (AtWork(c, s, t) && p' == Giving(0))))
      || (p.Giving? && (p' == Giving(p.k + 1) || p' == Testing))
  {
    hide Increasing, Holders;
    if s' != s.(running := false) {
      var u: nat :| Enabled(c, s, u) && ThreadStep(c, s, u) == Some(s');
      assert InRange(c, t, s.threads[t]);
      assert c.take[t][..|c.take[t]|] == c.take[t];
    }
  }

  lemma Threads(c: Config, run: seq<State>, n: nat)
    requires Legal(c) && IsRun(c, run) && n < |run|
    ensures |run[n].threads| == |c.take| == |c.give|
  {
    Reachable(c, run, n);
  }

  /** From i to n thread t never stands between two rounds. */
  ghost predicate SameRound(c: Config, run: seq<State>, t: nat, i: nat, n: nat)
  {
    && n < |run|
    && forall j | i <= j <= n :: t < |run[j].threads| && run[j].threads[t] != Testing && run[j].threads[t] != Done
  }

  lemma RunStep(c: Config, run: seq<State>, n: nat)
    requires Legal(c) && IsRun(c, run) && n + 1 < |run|
    ensures Inv(c, run[n]) && Next(c, run[n], run[n + 1])
  {
    Reachable(c, run, n);
  }

  lemma FirstTest(c: Config, run: seq<State>)
    requires IsRun(c, run)
    ensures run != [] && forall t | 0 <= t < |run[0].threads| :: run[0].threads[t] == Testing
  {
  }

  /** Whoever gives back has been at work before, in the same round. */
  lemma {:induction false} GivingCame(c: Config, run: seq<State>, n: nat, t: nat) returns (i: nat)
    requires Legal(c) && IsRun(c, run) && n < |run| && t < |run[n].threads| && run[n].threads[t].Giving?
    ensures |c.take| == |c.give| && t < |c.take| && i < n < |run| && AtWork(c, run[i], t) && SameRound(c, run, t, i, n)
  {
    hide AtWork, Legal, IsRun, Next, Inv;
    Threads(c, run, n);
    FirstTest(c, run);
    if n > 0 {
      Threads(c, run, n - 1);
      RunStep(c, run, n - 1);
      StepForward(c, run[n - 1], run[n], t);
      if run[n - 1].threads[t].Giving? {
        i := GivingCame(c, run, n - 1, t);
      } else {
        i := n - 1;
      }
    }
  }

  /** Every round leads by work: between leaving the test with running true and being back there, every
      thread has held exactly the locks of its list. */
  lemma {:induction false} RoundWorks(c: Config, run: seq<State>, m: nat, n: nat, t: nat) returns (i: nat)
    requires Legal(c) && IsRun(c, run) && m + 1 < n < |run| && t < |c.take| && |c.take| == |c.give|
    requires t < |run[m].threads| && t < |run[m + 1].threads| && t < |run[n].threads|
    requires run[m].threads[t] == Testing && run[m + 1].threads[t] != Testing && run[n].threads[t] == Testing
    ensures m < i < n && AtWork(c, run[i], t)
  {
    hide AtWork, Legal, IsRun, Next, Inv;
    Threads(c, run, n - 1);
    RunStep(c, run, n - 1);
    StepForward(c, run[n - 1], run[n], t);
    if run[n - 1].threads[t] == Testing {
      i := RoundWorks(c, run, m, n - 1, t);
    } else {
      i := GivingCame(c, run, n - 1, t);
      assert forall j | i <= j <= n - 1 :: run[j].threads[t] != Testing;
    }
  }

  /** In one round a thread only goes forward. */
  lemma {:induction false} OnlyForward(c: Config, run: seq<State>, i: nat, n: nat, t: nat)
    requires Legal(c) && IsRun(c, run) && i <= n && SameRound(c, run, t, i, n) && t < |c.take| && |c.take| == |c.give|
    ensures Place(c, t, run[i].threads[t]) <= Place(c, t, run[n].threads[t])
  {
    hide Legal, IsRun, Next, Inv;
    if i < n {
      OnlyForward(c, run, i, n - 1, t);
      RunStep(c, run, n - 1);
      StepForward(c, run[n - 1], run[n], t);
    }
  }

  /** And so it is at work once in a round. */
  lemma WorksOnce(c: Config, run: seq<State>, i: nat, j: nat, n: nat, t: nat)
    requires Legal(c) && IsRun(c, run) && t < |c.take| && |c.take| == |c.give|
    requires i <= j <= n && SameRound(c, run, t, i, n)
    requires AtWork(c, run[i], t) && AtWork(c, run[n], t)
    ensures AtWork(c, run[j], t)
  {
    OnlyForward(c, run, i, j, t);
    OnlyForward(c, run, j, n, t);
    Reachable(c, run, j);
    assert InRange(c, t, run[j].threads[t]);
  }

  /** All this of every thread of a run. */
  ghost predicate RoundsWork(c: Config, run: seq<State>)
    requires |c.take| == |c.give|
  {
    && (forall n, t | 0 <= n < |run| && run[n].running && 0 <= t < |run[n].threads| :: run[n].threads[t] != Done)
    && (forall n, t | 0 <= n < |run| && 0 <= t < |c.take| && t < |run[n].threads| && run[n].threads[t].Giving? ::
          exists i | 0 <= i < n :: AtWork(c, run[i], t) && SameRound(c, run, t, i, n))
    && (forall m, n, t | 0 <= m && m + 1 < n < |run| && 0 <= t < |c.take| && Back(run, m, n, t) ::
          exists i | m < i < n :: AtWork(c, run[i], t))
  }

  /** Thread t leaves the test at m and is back there at n. */
  ghost predicate Back(run: seq<State>, m: nat, n: nat, t: nat)
    requires m + 1 < n < |run|
  {
    && t < |run[m].threads| && t < |run[m + 1].threads| && t < |run[n].threads|
    && run[m].threads[t] == Testing && run[m + 1].threads[t] != Testing && run[n].threads[t] == Testing
  }

  lemma AllRoundsWork(c: Config, run: seq<State>)
    requires Legal(c) && IsRun(c, run)
    ensures |c.take| == |c.give| && RoundsWork(c, run)
  {
    hide Legal, IsRun, AtWork, SameRound;
    Counts(c);
    forall n, t | 0 <= n < |run| && run[n].running && 0 <= t < |run[n].threads|
      ensures run[n].threads[t] != Done
    {
      NotDoneWhileRunning(c, run, n, t);
    }
    forall n, t | 0 <= n < |run| && 0 <= t < |c.take| && t < |run[n].threads| && run[n].threads[t].Giving?
      ensures exists i | 0 <= i < n :: AtWork(c, run[i], t) && SameRound(c, run, t, i, n)
    {
      var i := GivingCame(c, run, n, t);
    }
    forall m, n, t | 0 <= m && m + 1 < n < |run| && 0 <= t < |c.take| && Back(run, m, n, t)
      ensures exists i | m < i < n :: AtWork(c, run[i], t)
    {
      var i := RoundWorks(c, run, m, n, t);
    }
  }

  lemma Counts(c: Config)
    requires Legal(c)
    ensures |c.take| == |c.give|
  {
  }
}
