/** assignments/hw5/takeAll.c: chefs that take all their appliances at once or sleep on a condition
    variable, interleaved at every access to the shared table, for any number of chefs. */
module TakeAll {
  import opened Common
  import opened Totals

  /** For each chef the appliances it needs, in the order of its array. */
  datatype Config = Config(appliances: nat, needed: seq<seq<nat>>)

  ghost predicate Legal(c: Config)
  {
    && (forall t | 0 <= t < |c.needed| :: Distinct(c.needed[t]))
    && (forall t, k | 0 <= t < |c.needed| && 0 <= k < |c.needed[t]| :: c.needed[t][k] < c.appliances)
  }

  datatype Chef =
    | Testing           // while (running)
    | Entering          // pthread_mutex_lock in wait_and_acquire_appliances
    | Scanning(i: nat)  // applianceInUse[list[i]]?
    | Taking(i: nat)    // applianceInUse[list[i]] = true
    | Leaving           // pthread_mutex_unlock
    | Asleep            // in pthread_cond_wait, mutex given up
    | Woken             // in pthread_cond_wait, waiting for the mutex
    | Cooking
    | Returning         // pthread_mutex_lock in release_appliances
    | Clearing(i: nat)  // applianceInUse[list[i]] = false
    | Calling           // pthread_cond_broadcast
    | Left              // pthread_mutex_unlock, then rest
    | Done

  /** mutex is 1 when applianceLock is free. */
  datatype State = State(running: bool, mutex: nat, inUse: seq<bool>, chefs: seq<Chef>)

  function Init(c: Config): State
  {
    State(true, 1, seq(c.appliances, _ => false), seq(|c.needed|, _ => Testing))
  }

  /** What pthread_cond_broadcast does to the sleepers. */
  function Wake(chefs: seq<Chef>): (r: seq<Chef>)
    ensures |r| == |chefs| && forall t | 0 <= t < |chefs| :: r[t] == if chefs[t] == Asleep then Woken else chefs[t]
  {
    seq(|chefs|, t requires 0 <= t < |chefs| => if chefs[t] == Asleep then Woken else chefs[t])
  }

  function Move(s: State, t: nat, p: Chef): State
    requires t < |s.chefs|
  {
    s.(chefs := s.chefs[t := p])
  }

  /** The next step of chef t; None if it waits or is done. */
  function ChefStep(c: Config, s: State, t: nat): Option<State>
    requires t < |s.chefs| && t < |c.needed|
  {
    var list := c.needed[t];
    match s.chefs[t]
    case Testing => Some(Move(s, t, if s.running then Entering else Done))
    case Entering => if s.mutex == 0 then None else Some(Move(s, t, Scanning(0)).(mutex := s.mutex - 1))
    case Scanning(i) =>
      if i >= |list| then Some(Move(s, t, Taking(0)))
      else if list[i] >= |s.inUse| then None
      else if s.inUse[list[i]] then Some(Move(s, t, Asleep).(mutex := s.mutex + 1))
      else Some(Move(s, t, Scanning(i + 1)))
    case Taking(i) =>
      if i >= |list| then Some(Move(s, t, Leaving))
      else if list[i] >= |s.inUse| then None
      else Some(Move(s, t, Taking(i + 1)).(inUse := s.inUse[list[i] := true]))
    case Leaving => Some(Move(s, t, Cooking).(mutex := s.mutex + 1))
    case Asleep => None
    case Woken => if s.mutex == 0 then None else Some(Move(s, t, Scanning(0)).(mutex := s.mutex - 1))
    case Cooking => Some(Move(s, t, Returning))
    case Returning => if s.mutex == 0 then None else Some(Move(s, t, Clearing(0)).(mutex := s.mutex - 1))
    case Clearing(i) =>
      if i >= |list| then Some(Move(s, t, Calling))
      else if list[i] >= |s.inUse| then None
      else Some(Move(s, t, Clearing(i + 1)).(inUse := s.inUse[list[i] := false]))
    case Calling => Some(s.(chefs := Wake(s.chefs)[t := Left]))
    case Left => Some(Move(s, t, Testing).(mutex := s.mutex + 1))
    case Done => None
  }

  ghost predicate Steps(c: Config, s: State, t: nat, s': State)
  {
    t < |s.chefs| && t < |c.needed| && ChefStep(c, s, t) == Some(s')
  }

  ghost predicate Enabled(c: Config, s: State, t: nat)
  {
    t < |s.chefs| && t < |c.needed| && ChefStep(c, s, t).Some?
  }

  /** A wait may also end for no reason. */
  ghost predicate Spurious(s: State, s': State)
  {
    exists t: nat :: t < |s.chefs| && s.chefs[t] == Asleep && s' == Move(s, t, Woken)
  }

  ghost predicate Next(c: Config, s: State, s': State)
  {
    || s' == s.(running := false)
    || Spurious(s, s')
    || exists t: nat :: Steps(c, s, t, s')
  }

  // ----- the invariant -----

  /** The appliances marked by chef t when it stands at p. */
  ghost function Owned(c: Config, t: nat, p: Chef): multiset<nat>
  {
    if t >= |c.needed| then multiset{} else
    var list := c.needed[t];
    match p
    case Taking(i) => if i <= |list| then multiset(list[..i]) else multiset{}
    case Leaving => multiset(list)
    case Cooking => multiset(list)
    case Returning => multiset(list)
    case Clearing(i) => if i <= |list| then multiset(list[i..]) else multiset{}
    case _ => multiset{}
  }

  ghost function Owning(c: Config, a: nat): (nat, Chef) -> nat
  {
    (t: nat, p: Chef) => Owned(c, t, p)[a]
  }

  predicate Inside(p: Chef)
  {
    p.Scanning? || p.Taking? || p.Leaving? || p.Clearing? || p.Calling? || p.Left?
  }

  ghost function InsideOne(): (nat, Chef) -> nat
  {
    (t: nat, p: Chef) => if Inside(p) then 1 else 0
  }

  /** Which of its appliances a chef inside the monitor knows to be free. */
  ghost predicate ChefInv(list: seq<nat>, inUse: seq<bool>, p: Chef)
  {
    match p
    case Scanning(i) => i <= |list| && forall k | 0 <= k < i :: Free(inUse, list[k])
    case Taking(i) => i <= |list| && forall k | i <= k < |list| :: Free(inUse, list[k])
    case Clearing(i) => i <= |list|
    case _ => true
  }

  ghost predicate Free(inUse: seq<bool>, a: nat) { a < |inUse| && !inUse[a] }

  ghost predicate Blocked(list: seq<nat>, inUse: seq<bool>)
  {
    exists k :: 0 <= k < |list| && list[k] < |inUse| && inUse[list[k]]
  }

  ghost predicate Releasing(chefs: seq<Chef>)
  {
    exists u :: 0 <= u < |chefs| && (chefs[u].Clearing? || chefs[u].Calling?)
  }

  ghost predicate Shape(c: Config, s: State)
  {
    |s.chefs| == |c.needed| && |s.inUse| == c.appliances
  }

  ghost predicate Counts(c: Config, s: State)
  {
    && s.mutex + Sum(s.chefs, InsideOne()) == 1
    && (forall a | 0 <= a < |s.inUse| :: Sum(s.chefs, Owning(c, a)) == if s.inUse[a] then 1 else 0)
  }

  /** Whoever sleeps still has a reason to, or a broadcast is on its way. */
  ghost predicate SleepersHaveReason(c: Config, s: State)
    requires Shape(c, s)
  {
    forall t | 0 <= t < |s.chefs| && s.chefs[t] == Asleep :: Blocked(c.needed[t], s.inUse) || Releasing(s.chefs)
  }

  ghost predicate Inv(c: Config, s: State)
  {
    && Shape(c, s) && Counts(c, s) && SleepersHaveReason(c, s)
    && (forall t | 0 <= t < |s.chefs| :: ChefInv(c.needed[t], s.inUse, s.chefs[t]))
  }

  lemma InitInv(c: Config)
    ensures Inv(c, Init(c))
  {
    var s := Init(c);
    SumZero(s.chefs, InsideOne());
    forall a | 0 <= a < |s.inUse|
      ensures Sum(s.chefs, Owning(c, a)) == 0
    {
      SumZero(s.chefs, Owning(c, a));
    }
  }

  /** Marking its appliances one by one a chef comes to own its list, clearing them it gives it up. */
  lemma OwnedTaking(c: Config, t: nat, i: nat, a: nat)
    requires t < |c.needed|
    ensures Owned(c, t, Taking(0))[a] == Owned(c, t, Clearing(|c.needed[t]|))[a] == 0
    ensures Owned(c, t, Taking(|c.needed[t]|))[a] == Owned(c, t, Leaving)[a] == Owned(c, t, Clearing(0))[a]
    ensures i < |c.needed[t]| ==>
              Owned(c, t, Taking(i + 1))[a] == Owned(c, t, Taking(i))[a] + if c.needed[t][i] == a then 1 else 0
  {
    var list := c.needed[t];
    assert list[..|list|] == list && list[0..] == list;
    if i < |list| {
      assert list[..i + 1] == list[..i] + [list[i]];
    }
  }

  lemma OwnedClearing(c: Config, t: nat, i: nat, a: nat)
    requires t < |c.needed| && i < |c.needed[t]|
    ensures Owned(c, t, Clearing(i))[a] == Owned(c, t, Clearing(i + 1))[a] + if c.needed[t][i] == a then 1 else 0
  {
    var list := c.needed[t];
    assert list[i..] == [list[i]] + list[i + 1..];
  }

  lemma OwnedElsewhere(c: Config, t: nat, p: Chef, a: nat)
    requires t < |c.needed|
    ensures p.Leaving? || p.Cooking? || p.Returning? ==> Owned(c, t, p)[a] == Owned(c, t, Leaving)[a]
    ensures !p.Leaving? && !p.Cooking? && !p.Returning? && !p.Taking? && !p.Clearing? ==> Owned(c, t, p)[a] == 0
  {
  }

  lemma NextEntry(list: seq<nat>, inUse: seq<bool>, p: Chef)
    requires ChefInv(list, inUse, p)
    ensures p.Taking? ==> p.i <= |list| && (p.i < |list| ==> list[p.i] < |inUse| && !inUse[list[p.i]])
    ensures p.Clearing? ==> p.i <= |list|
  {
  }

  /** Where a step leads, as far as owning goes. */
  ghost predicate Moved(list: seq<nat>, p: Chef, p': Chef, inUse: seq<bool>, inUse': seq<bool>)
  {
    && |inUse'| == |inUse|
    && (p.Taking? ==> p' == if p.i < |list| then Taking(p.i + 1) else Leaving)
    && (p.Clearing? ==> p' == if p.i < |list| then Clearing(p.i + 1) else Calling)
    && (p.Leaving? ==> p'.Cooking?) && (p.Cooking? ==> p'.Returning?) && (p.Returning? ==> p' == Clearing(0))
    && (p.Scanning? ==> p'.Scanning? || p'.Asleep? || p' == Taking(0))
    && (p.Testing? || p.Entering? || p.Woken? || p.Calling? || p.Left? ==>
          p'.Entering? || p'.Done? || p'.Scanning? || p'.Left? || p'.Testing?)
    && !p.Asleep? && !p.Done?
    && (if p.Taking? && p.i < |list| then list[p.i] < |inUse| && inUse' == inUse[list[p.i] := true]
        else if p.Clearing? && p.i < |list| then list[p.i] < |inUse| && inUse' == inUse[list[p.i] := false]
        else inUse' == inUse)
  }

  lemma StepMoves(c: Config, s: State, t: nat, s': State)
    requires Shape(c, s) && Steps(c, s, t, s')
    ensures t < |s'.chefs| && Moved(c.needed[t], s.chefs[t], s'.chefs[t], s.inUse, s'.inUse)
  {
  }

  /** What a step marks it owns, and what it owned and owns no more it has unmarked. */
  lemma OwnedAfter(c: Config, t: nat, p: Chef, p': Chef, inUse: seq<bool>, inUse': seq<bool>, a: nat)
    requires t < |c.needed| && Moved(c.needed[t], p, p', inUse, inUse') && ChefInv(c.needed[t], inUse, p) && a < |inUse|
    requires Owned(c, t, p)[a] <= if inUse[a] then 1 else 0
    ensures Owned(c, t, p')[a] + (if inUse[a] then 1 else 0) == Owned(c, t, p)[a] + (if inUse'[a] then 1 else 0)
  {
    hide Free, ChefInv, Owned;
    NextEntry(c.needed[t], inUse, p);
    OwnedElsewhere(c, t, p, a);
    OwnedElsewhere(c, t, p', a);
    OwnedTaking(c, t, if p.Taking? then p.i else 0, a);
    if p.Clearing? && p.i < |c.needed[t]| {
      OwnedClearing(c, t, p.i, a);
    }
  }

  /** A step of t leaves the others where they are, but for the sleepers it wakes. */
  lemma OthersMove(c: Config, s: State, t: nat, s': State)
    requires Shape(c, s) && Steps(c, s, t, s')
    ensures Shape(c, s')
    ensures s'.chefs == (if s.chefs[t] == Calling then Wake(s.chefs) else s.chefs)[t := s'.chefs[t]]
    ensures Inside(s'.chefs[t]) && !Inside(s.chefs[t]) ==> s.mutex > 0
    ensures s'.mutex + (if Inside(s'.chefs[t]) then 1 else 0) == s.mutex + (if Inside(s.chefs[t]) then 1 else 0)
    ensures s'.running == s.running && (s'.inUse != s.inUse ==> Inside(s.chefs[t]))
  {
  }

  lemma WakeKeepsSums(c: Config, chefs: seq<Chef>, a: nat)
    ensures Sum(Wake(chefs), InsideOne()) == Sum(chefs, InsideOne())
    ensures Sum(Wake(chefs), Owning(c, a)) == Sum(chefs, Owning(c, a))
  {
    SumSame(Wake(chefs), chefs, InsideOne(), InsideOne());
    SumSame(Wake(chefs), chefs, Owning(c, a), Owning(c, a));
  }

  lemma StepKeepsSums(c: Config, s: State, t: nat, s': State, a: nat)
    requires Shape(c, s) && Steps(c, s, t, s')
    ensures t < |s'.chefs|
    ensures Sum(s'.chefs, InsideOne()) + (if Inside(s.chefs[t]) then 1 else 0) ==
            Sum(s.chefs, InsideOne()) + (if Inside(s'.chefs[t]) then 1 else 0)
    ensures Sum(s'.chefs, Owning(c, a)) + Owned(c, t, s.chefs[t])[a] ==
            Sum(s.chefs, Owning(c, a)) + Owned(c, t, s'.chefs[t])[a]
    ensures Owned(c, t, s.chefs[t])[a] <= Sum(s.chefs, Owning(c, a))
  {
    hide Owned, Sum;
    OthersMove(c, s, t, s');
    WakeKeepsSums(c, s.chefs, a);
    SumAtLeast(s.chefs, Owning(c, a), t);
    if s.chefs[t] == Calling {
      assert Wake(s.chefs)[t] == s.chefs[t];
      SumUpdate(Wake(s.chefs), InsideOne(), t, s'.chefs[t]);
      SumUpdate(Wake(s.chefs), Owning(c, a), t, s'.chefs[t]);
    } else {
      SumUpdate(s.chefs, InsideOne(), t, s'.chefs[t]);
      SumUpdate(s.chefs, Owning(c, a), t, s'.chefs[t]);
    }
  }

  lemma StepKeepsCounts(c: Config, s: State, t: nat, s': State)
    requires Legal(c) && Inv(c, s) && Steps(c, s, t, s')
    ensures Counts(c, s')
  {
    hide Owned, Sum, Legal;
    OthersMove(c, s, t, s');
    StepKeepsSums(c, s, t, s', 0);
    forall a | 0 <= a < |s'.inUse|
      ensures Sum(s'.chefs, Owning(c, a)) == if s'.inUse[a] then 1 else 0
    {
      StepKeepsSums(c, s, t, s', a);
      StepMoves(c, s, t, s');
      OwnedAfter(c, t, s.chefs[t], s'.chefs[t], s.inUse, s'.inUse, a);
    }
  }

  /** Inside the monitor a chef is alone, so what it knows of the table stays true. */
  lemma AloneInside(c: Config, s: State, t: nat, u: nat)
    requires Counts(c, s) && t < |s.chefs| && u < |s.chefs| && t != u && Inside(s.chefs[t])
    ensures !Inside(s.chefs[u]) && s.mutex == 0
  {
    SumAtLeast(s.chefs, InsideOne(), t);
    if Inside(s.chefs[u]) {
      SumOfTwo(s.chefs, InsideOne(), if t < u then t else u, if t < u then u else t);
    }
  }

  lemma OwnChefInv(c: Config, s: State, t: nat, s': State)
    requires Legal(c) && Inv(c, s) && Steps(c, s, t, s')
    ensures t < |s'.chefs| && ChefInv(c.needed[t], s'.inUse, s'.chefs[t])
  {
    hide Counts, SleepersHaveReason;
    assert ChefInv(c.needed[t], s.inUse, s.chefs[t]);
    assert Distinct(c.needed[t]);
  }

  lemma StepKeepsChefs(c: Config, s: State, t: nat, s': State)
    requires Legal(c) && Inv(c, s) && Steps(c, s, t, s')
    ensures Shape(c, s') && forall u | 0 <= u < |s'.chefs| :: ChefInv(c.needed[u], s'.inUse, s'.chefs[u])
  {
    OwnChefInv(c, s, t, s');
    OthersMove(c, s, t, s');
    hide Counts, SleepersHaveReason, Steps, Legal;
    forall u | 0 <= u < |s'.chefs|
      ensures ChefInv(c.needed[u], s'.inUse, s'.chefs[u])
    {
      if u != t {
        assert ChefInv(c.needed[u], s.inUse, s.chefs[u]);
        assert s'.chefs[u] == s.chefs[u] || s'.chefs[u] == Woken;
        if s'.inUse != s.inUse {
          AloneInside(c, s, t, u);
        }
      }
    }
  }

  lemma StepKeepsSleepers(c: Config, s: State, t: nat, s': State)
    requires Legal(c) && Inv(c, s) && Steps(c, s, t, s') && Shape(c, s')
    ensures SleepersHaveReason(c, s')
  {
    hide Counts, ChefInv, Legal, Steps, Blocked;
    OthersMove(c, s, t, s');
    FallsAsleep(c, s, t, s');
    forall u | 0 <= u < |s'.chefs| && s'.chefs[u] == Asleep
      ensures Blocked(c.needed[u], s'.inUse) || Releasing(s'.chefs)
    {
      if u != t {
        assert s.chefs[u] == Asleep && s.chefs[t] != Calling;
        if !s.chefs[t].Clearing? && Releasing(s.chefs) {
          var v :| 0 <= v < |s.chefs| && (s.chefs[v].Clearing? || s.chefs[v].Calling?);
          assert s'.chefs[v] == s.chefs[v];
        } else if !s.chefs[t].Clearing? {
          StillBlocked(c, s, t, s', u);
        }
      }
    }
  }

  /** A chef goes to sleep over an appliance in use; one that clears goes on to the broadcast. */
  lemma FallsAsleep(c: Config, s: State, t: nat, s': State)
    requires Shape(c, s) && Steps(c, s, t, s')
    ensures t < |s'.chefs|
    ensures s'.chefs[t] == Asleep ==> Blocked(c.needed[t], s'.inUse)
    ensures s.chefs[t].Clearing? ==> s'.chefs[t].Clearing? || s'.chefs[t].Calling?
  {
  }

  lemma StillBlocked(c: Config, s: State, t: nat, s': State, u: nat)
    requires Legal(c) && Shape(c, s) && Steps(c, s, t, s') && !s.chefs[t].Clearing? && u < |c.needed|
    requires Blocked(c.needed[u], s.inUse)
    ensures Blocked(c.needed[u], s'.inUse)
  {
    var list := c.needed[u];
    var k :| 0 <= k < |list| && list[k] < |s.inUse| && s.inUse[list[k]];
    assert s'.inUse[list[k]];
  }

  lemma SpuriousKeeps(c: Config, s: State, s': State)
    requires Inv(c, s) && Spurious(s, s')
    ensures Inv(c, s')
  {
    hide Sum;
    var t: nat :| t < |s.chefs| && s.chefs[t] == Asleep && s' == Move(s, t, Woken);
    SumUpdate(s.chefs, InsideOne(), t, Woken);
    forall a | 0 <= a < |s.inUse|
      ensures Sum(s'.chefs, Owning(c, a)) == Sum(s.chefs, Owning(c, a))
    {
      SumUpdate(s.chefs, Owning(c, a), t, Woken);
    }
    if Releasing(s.chefs) {
      var v :| 0 <= v < |s.chefs| && (s.chefs[v].Clearing? || s.chefs[v].Calling?);
      assert s'.chefs[v] == s.chefs[v];
    }
  }

  /** Every step of everybody keeps the invariant. */
  lemma NextKeeps(c: Config, s: State, s': State)
    requires Legal(c) && Inv(c, s) && Next(c, s, s')
    ensures Inv(c, s')
  {
    hide Legal, Counts, Blocked, Releasing, ChefInv;
    if Spurious(s, s') {
      SpuriousKeeps(c, s, s');
    } else if s' == s.(running := false) {
      hide Spurious, Steps;
      assert Counts(c, s) <==> Counts(c, s') by { CountsIgnoreRunning(c, s); }
    } else {
      var t: nat :| Steps(c, s, t, s');
      StepKeepsCounts(c, s, t, s');
      StepKeepsChefs(c, s, t, s');
      StepKeepsSleepers(c, s, t, s');
    }
  }

  lemma CountsIgnoreRunning(c: Config, s: State)
    ensures Counts(c, s) <==> Counts(c, s.(running := false))
  {
  }

  // ----- safety -----

  /** No lost wakeup: while the mutex is free, whoever sleeps needs an appliance that is in use. */
  lemma NoLostWakeup(c: Config, s: State, t: nat)
    requires Inv(c, s) && s.mutex > 0 && t < |s.chefs| && s.chefs[t] == Asleep
    ensures exists k :: 0 <= k < |c.needed[t]| && c.needed[t][k] < |s.inUse| && s.inUse[c.needed[t][k]]
  {
    if Releasing(s.chefs) {
      var v :| 0 <= v < |s.chefs| && (s.chefs[v].Clearing? || s.chefs[v].Calling?);
      SumAtLeast(s.chefs, InsideOne(), v);
    }
    assert Blocked(c.needed[t], s.inUse);
  }

  /** An appliance is marked exactly if somebody owns it, and then one chef owns it, once. */
  lemma MarkedIsOwned(c: Config, s: State, a: nat)
    requires Inv(c, s) && a < c.appliances
    ensures s.inUse[a] <==> exists t :: 0 <= t < |s.chefs| && Owned(c, t, s.chefs[t])[a] > 0
    ensures forall t, u | 0 <= t < u < |s.chefs| :: Owned(c, t, s.chefs[t])[a] + Owned(c, u, s.chefs[u])[a] <= 1
  {
    if s.inUse[a] {
      var t := Someone(s.chefs, Owning(c, a));
    } else {
      forall t | 0 <= t < |s.chefs|
        ensures Owned(c, t, s.chefs[t])[a] == 0
      {
        SumAtLeast(s.chefs, Owning(c, a), t);
      }
    }
    forall t, u | 0 <= t < u < |s.chefs|
      ensures Owned(c, t, s.chefs[t])[a] + Owned(c, u, s.chefs[u])[a] <= 1
    {
      SumOfTwo(s.chefs, Owning(c, a), t, u);
    }
  }

  /** A chef between wait_and_acquire_appliances and release_appliances. */
  predicate HasAll(p: Chef) { p.Cooking? || p.Returning? }

  /** Outside the monitor the table says exactly which appliances the chefs at work need. */
  lemma TableIsRight(c: Config, s: State, a: nat)
    requires Inv(c, s) && s.mutex > 0 && a < c.appliances
    ensures s.inUse[a] <==> exists t :: 0 <= t < |s.chefs| && HasAll(s.chefs[t]) && a in c.needed[t]
    ensures forall t, u | 0 <= t < u < |s.chefs| && HasAll(s.chefs[t]) && HasAll(s.chefs[u]) ::
              !(a in c.needed[t] && a in c.needed[u])
  {
    MarkedIsOwned(c, s, a);
    forall t | 0 <= t < |s.chefs|
      ensures Owned(c, t, s.chefs[t])[a] > 0 <==> HasAll(s.chefs[t]) && a in c.needed[t]
    {
      SumAtLeast(s.chefs, InsideOne(), t);
    }
  }

  // ----- progress -----

  lemma OthersGoOn(c: Config, s: State, t: nat)
    requires Legal(c) && Inv(c, s) && t < |s.chefs| && s.chefs[t] != Asleep && s.chefs[t] != Done
    requires s.mutex > 0 || Inside(s.chefs[t])
    ensures Enabled(c, s, t)
  {
    hide Counts, SleepersHaveReason;
  }

  /** As long as a chef is not done somebody can step, without any spurious wakeup. */
  lemma Progress(c: Config, s: State, t: nat) returns (u: nat)
    requires Legal(c) && Inv(c, s) && t < |s.chefs| && s.chefs[t] != Done
    ensures Enabled(c, s, u)
  {
    hide Legal, ChefInv;
    u := t;
    if s.mutex == 0 {
      u := Someone(s.chefs, InsideOne());
    } else if s.chefs[t] == Asleep {
      NoLostWakeup(c, s, t);
      var k :| 0 <= k < |c.needed[t]| && c.needed[t][k] < |s.inUse| && s.inUse[c.needed[t][k]];
      u := Someone(s.chefs, Owning(c, c.needed[t][k]));
    }
    OthersGoOn(c, s, u);
  }

  /** No reachable state has all unfinished chefs asleep. */
  lemma NotAllAsleep(c: Config, s: State)
    requires Legal(c) && Inv(c, s) && exists t :: 0 <= t < |s.chefs| && s.chefs[t] != Done
    ensures exists u :: 0 <= u < |s.chefs| && s.chefs[u] != Done && s.chefs[u] != Asleep && Enabled(c, s, u)
  {
    var t :| 0 <= t < |s.chefs| && s.chefs[t] != Done;
    var u := Progress(c, s, t);
  }

  // ----- shutdown -----

  /** Steps left to chef t at p once running is false, up to the next time it sleeps. */
  ghost function Rank(c: Config, t: nat, p: Chef): nat
  {
    if t >= |c.needed| then 0 else
    var n := |c.needed[t]|;
    match p
    case Done => 0
    case Testing => 1
    case Left => 2
    case Calling => 3
    case Clearing(i) => 4 + if i <= n then n - i else 0
    case Returning => 5 + n
    case Cooking => 6 + n
    case Leaving => 7 + n
    case Taking(i) => 8 + n + if i <= n then n - i else 0
    case Asleep => 9 + 2 * n
    case Scanning(i) => 10 + 2 * n + if i <= n then n - i else 0
    case Woken => 11 + 3 * n
    case Entering => 11 + 3 * n
  }

  ghost function Ranking(c: Config): (nat, Chef) -> nat
  {
    (t: nat, p: Chef) => Rank(c, t, p)
  }

  /** 1 if the chef will broadcast once more. */
  ghost function Calls(p: Chef): nat
  {
    if p.Testing? || p.Left? || p.Done? then 0 else 1
  }

  ghost function CallsLeft(): (nat, Chef) -> nat
  {
    (t: nat, p: Chef) => Calls(p)
  }

  /** What waking can add to a chef's rank. */
  ghost function Waking(c: Config): (nat, Chef) -> nat
  {
    (t: nat, p: Chef) => if t < |c.needed| then |c.needed[t]| + 2 else 0
  }

  ghost function StepsLeft(c: Config, s: State): nat
  {
    (Sum(s.chefs, Waking(c)) + 1) * Sum(s.chefs, CallsLeft()) + Sum(s.chefs, Ranking(c))
  }

  lemma OwnRank(c: Config, s: State, t: nat, s': State)
    requires Inv(c, s) && !s.running && Steps(c, s, t, s')
    ensures Rank(c, t, s'.chefs[t]) < Rank(c, t, s.chefs[t])
    ensures Calls(s'.chefs[t]) == Calls(s.chefs[t]) - if s.chefs[t] == Calling then 1 else 0
  {
    hide Counts, SleepersHaveReason;
    assert ChefInv(c.needed[t], s.inUse, s.chefs[t]);
  }

  /** Once running is false every step of a chef brings the end nearer. */
  lemma ShutdownStep(c: Config, s: State, t: nat, s': State)
    requires Legal(c) && Inv(c, s) && !s.running && Steps(c, s, t, s')
    ensures Inv(c, s') && !s'.running && StepsLeft(c, s') < StepsLeft(c, s)
  {
    NextKeeps(c, s, s');
    OwnRank(c, s, t, s');
    OthersMove(c, s, t, s');
    ShutdownDrops(c, s, t, s');
  }

  lemma ShutdownDrops(c: Config, s: State, t: nat, s': State)
    requires t < |s.chefs| == |s'.chefs| && Rank(c, t, s'.chefs[t]) < Rank(c, t, s.chefs[t])
    requires Calls(s'.chefs[t]) == Calls(s.chefs[t]) - if s.chefs[t] == Calling then 1 else 0
    requires s'.chefs == s.chefs[t := s'.chefs[t]]
             || (s.chefs[t] == Calling && s'.chefs == Wake(s.chefs)[t := s'.chefs[t]])
    ensures StepsLeft(c, s') < StepsLeft(c, s)
  {
    hide Sum, Calls, Rank;
    RanksAfter(c, s.chefs, t, s'.chefs);
    Scaled(Sum(s.chefs, Waking(c)) + 1, Sum(s.chefs, CallsLeft()), Sum(s'.chefs, CallsLeft()));
  }

  lemma Scaled(more: nat, x: nat, y: nat)
    ensures x == y + 1 ==> more * x == more * y + more
  {
  }

  lemma RanksAfter(c: Config, chefs: seq<Chef>, t: nat, after: seq<Chef>)
    requires t < |chefs| == |after| && Rank(c, t, after[t]) < Rank(c, t, chefs[t])
    requires Calls(after[t]) == Calls(chefs[t]) - if chefs[t] == Calling then 1 else 0
    requires after == chefs[t := after[t]] || (chefs[t] == Calling && after == Wake(chefs)[t := after[t]])
    ensures Sum(after, Waking(c)) == Sum(chefs, Waking(c))
    ensures Sum(after, CallsLeft()) + (if chefs[t] == Calling then 1 else 0) == Sum(chefs, CallsLeft())
    ensures Sum(after, Ranking(c)) < Sum(chefs, Ranking(c)) + if chefs[t] == Calling then Sum(chefs, Waking(c)) else 0
  {
    hide Sum, Calls, Rank;
    SumSame(after, chefs, Waking(c), Waking(c));
    var before := if after == chefs[t := after[t]] then chefs else Wake(chefs);
    WakeRanks(c, chefs);
    SumUpdate(before, CallsLeft(), t, after[t]);
    SumUpdate(before, Ranking(c), t, after[t]);
  }

  lemma WakeRanks(c: Config, chefs: seq<Chef>)
    ensures Sum(Wake(chefs), CallsLeft()) == Sum(chefs, CallsLeft())
    ensures Sum(Wake(chefs), Ranking(c)) <= Sum(chefs, Ranking(c)) + Sum(chefs, Waking(c))
  {
    SumSame(Wake(chefs), chefs, CallsLeft(), CallsLeft());
    SumGrows(chefs, Wake(chefs), Ranking(c), Waking(c));
  }

  /** A wait that ends for no reason costs the sleeper another look at its list. */
  lemma SpuriousCosts(c: Config, s: State, s': State)
    requires Spurious(s, s')
    ensures s'.running == s.running && Sum(s'.chefs, Waking(c)) == Sum(s.chefs, Waking(c))
    ensures StepsLeft(c, s') <= StepsLeft(c, s) + Sum(s.chefs, Waking(c))
  {
    hide Sum;
    var t: nat :| t < |s.chefs| && s.chefs[t] == Asleep && s' == Move(s, t, Woken);
    SumUpdate(s.chefs, Waking(c), t, Woken);
    SumUpdate(s.chefs, CallsLeft(), t, Woken);
    SumUpdate(s.chefs, Ranking(c), t, Woken);
    SumAtLeast(s.chefs, Waking(c), t);
  }

  /** A run of steps of chefs, and of waits that end for no reason where woken says so. */
  ghost predicate ChefRun(c: Config, run: seq<State>, woken: seq<bool>)
  {
    && |run| == |woken| + 1
    && forall i, j | 0 <= i < j < |run| && j <= i + 1 ::
         if woken[i] then Spurious(run[i], run[j]) else exists t: nat :: Steps(c, run[i], t, run[j])
  }

  function Count(woken: seq<bool>): nat
  {
    if woken == [] then 0 else Count(woken[..|woken| - 1]) + if woken[|woken| - 1] then 1 else 0
  }

  lemma {:induction false} ShutdownRun(c: Config, run: seq<State>, woken: seq<bool>, n: nat)
    requires Legal(c) && ChefRun(c, run, woken) && Inv(c, run[0]) && !run[0].running && n < |run|
    ensures Inv(c, run[n]) && !run[n].running && Sum(run[n].chefs, Waking(c)) == Sum(run[0].chefs, Waking(c))
    ensures n + StepsLeft(c, run[n]) <= StepsLeft(c, run[0]) + (Sum(run[0].chefs, Waking(c)) + 1) * Count(woken[..n])
  {
    hide Inv, Legal, Steps, StepsLeft, Spurious, Sum;
    var more := Sum(run[0].chefs, Waking(c)) + 1;
    if n > 0 {
      ShutdownRun(c, run, woken, n - 1);
      assert woken[..n][..n - 1] == woken[..n - 1];
      if woken[n - 1] {
        SpuriousKeeps(c, run[n - 1], run[n]);
        SpuriousCosts(c, run[n - 1], run[n]);
        assert more * Count(woken[..n]) == more * Count(woken[..n - 1]) + more;
      } else {
        var t: nat :| Steps(c, run[n - 1], t, run[n]);
        ShutdownStep(c, run[n - 1], t, run[n]);
        WakingSame(c, run[n - 1], run[n]);
      }
    }
  }

  lemma WakingSame(c: Config, s: State, s': State)
    requires Inv(c, s) && Inv(c, s')
    ensures Sum(s'.chefs, Waking(c)) == Sum(s.chefs, Waking(c))
  {
    SumSame(s'.chefs, s.chefs, Waking(c), Waking(c));
  }

  /** Once running is false every run with finitely many spurious wakeups ends, after a bounded number of
      steps, and it ends with all chefs done and nothing in use. */
  lemma Shutdown(c: Config, run: seq<State>, woken: seq<bool>)
    requires Legal(c) && ChefRun(c, run, woken) && Inv(c, run[0]) && !run[0].running
    ensures |run| <= StepsLeft(c, run[0]) + (Sum(run[0].chefs, Waking(c)) + 1) * Count(woken) + 1
    ensures var last := run[|run| - 1];
      (forall t: nat :: !Enabled(c, last, t)) ==>
        && (forall t | 0 <= t < |last.chefs| :: last.chefs[t] == Done)
        && last.mutex == 1 && (forall a | 0 <= a < |last.inUse| :: !last.inUse[a])
  {
    hide Legal, Steps, Enabled;
    var last := run[|run| - 1];
    ShutdownRun(c, run, woken, |run| - 1);
    assert woken[..|run| - 1] == woken;
    if forall t: nat :: !Enabled(c, last, t) {
      NobodyLeft(c, last);
    }
  }

  lemma NobodyLeft(c: Config, s: State)
    requires Legal(c) && Inv(c, s) && forall t: nat :: !Enabled(c, s, t)
    ensures (forall t | 0 <= t < |s.chefs| :: s.chefs[t] == Done)
    ensures s.mutex == 1 && (forall a | 0 <= a < |s.inUse| :: !s.inUse[a])
  {
    hide Legal, Enabled;
    forall t | 0 <= t < |s.chefs|
      ensures s.chefs[t] == Done
    {
      if s.chefs[t] != Done { var u := Progress(c, s, t); }
    }
    SumZero(s.chefs, InsideOne());
    forall a | 0 <= a < |s.inUse|
      ensures !s.inUse[a]
    {
      SumZero(s.chefs, Owning(c, a));
    }
  }

  // ----- all interleavings from the start -----

  ghost predicate IsRun(c: Config, run: seq<State>)
  {
    |run| > 0 && run[0] == Init(c) && forall i, j | 0 <= i < j < |run| && j <= i + 1 :: Next(c, run[i], run[j])
  }

  lemma {:induction false} Reachable(c: Config, run: seq<State>, n: nat)
    requires Legal(c) && IsRun(c, run) && n < |run|
    ensures Inv(c, run[n])
  {
    hide Inv, Legal, Next;
    if n == 0 {
      InitInv(c);
    } else {
      Reachable(c, run, n - 1);
      NextKeeps(c, run[n - 1], run[n]);
    }
  }

  /** In every interleaving of any chefs: whenever the mutex is free the table is right and nobody sleeps
      without reason; and as long as a chef is not done one that is awake can step. */
  lemma RunGoesOn(c: Config, run: seq<State>, n: nat)
    requires Legal(c) && IsRun(c, run) && n < |run|
    ensures |run[n].chefs| == |c.needed| && |run[n].inUse| == c.appliances
    ensures run[n].mutex > 0 ==> forall a | 0 <= a < c.appliances ::
              run[n].inUse[a] <==> exists t :: 0 <= t < |c.needed| && HasAll(run[n].chefs[t]) && a in c.needed[t]
    ensures run[n].mutex > 0 ==> forall t | 0 <= t < |c.needed| && run[n].chefs[t] == Asleep ::
              Blocked(c.needed[t], run[n].inUse)
    ensures (exists t :: 0 <= t < |c.needed| && run[n].chefs[t] != Done) ==>
              exists u :: 0 <= u < |c.needed| && run[n].chefs[u] != Done && run[n].chefs[u] != Asleep
                && Enabled(c, run[n], u)
  {
    hide Legal, Enabled;
    Reachable(c, run, n);
    var s := run[n];
    if s.mutex > 0 {
      forall a | 0 <= a < c.appliances
        ensures s.inUse[a] <==> exists t :: 0 <= t < |c.needed| && HasAll(s.chefs[t]) && a in c.needed[t]
      {
        TableIsRight(c, s, a);
      }
      forall t | 0 <= t < |c.needed| && s.chefs[t] == Asleep
        ensures Blocked(c.needed[t], s.inUse)
      {
        NoLostWakeup(c, s, t);
      }
    }
    if exists t :: 0 <= t < |c.needed| && s.chefs[t] != Done {
      NotAllAsleep(c, s);
    }
  }

  // ----- what every chef does in every run -----

  /** Nobody stops before running is false. */
  lemma {:induction false} NotDoneWhileRunning(c: Config, run: seq<State>, n: nat, t: nat)
    requires IsRun(c, run) && n < |run| && run[n].running && t < |run[n].chefs|
    ensures run[n].chefs[t] != Done
  {
    if n > 0 {
      assert Next(c, run[n - 1], run[n]);
      ChefMoves(c, run[n - 1], run[n], t);
      NotDoneWhileRunning(c, run, n - 1, t);
    }
  }

  /** What a step of anybody does to chef t. */
  lemma ChefMoves(c: Config, s: State, s': State, t: nat)
    requires Next(c, s, s') && t < |s'.chefs|
    ensures |s.chefs| == |s'.chefs| && (s'.running ==> s.running)
    ensures var (p, p') := (s.chefs[t], s'.chefs[t]);
      || p' == p
      || (p.Asleep? && p'.Woken?)
      || (t < |c.needed| && Onward(|c.needed[t]|, s.running, p, p'))
  {
    hide Onward, Steps, Spurious;
    if Spurious(s, s') {
      WokenMoves(s, s', t);
    } else if s' != s.(running := false) {
      var u: nat :| Steps(c, s, u, s');
      OwnMoves(c, s, u, s');
      OtherMoves(c, s, u, s', t);
    }
  }

  lemma WokenMoves(s: State, s': State, t: nat)
    requires Spurious(s, s') && t < |s'.chefs|
    ensures |s.chefs| == |s'.chefs| && s'.running == s.running
    ensures s'.chefs[t] == s.chefs[t] || (s.chefs[t].Asleep? && s'.chefs[t].Woken?)
  {
  }

  lemma OwnMoves(c: Config, s: State, t: nat, s': State)
    requires Steps(c, s, t, s')
    ensures t < |c.needed| && t < |s.chefs| && t < |s'.chefs|
    ensures Onward(|c.needed[t]|, s.running, s.chefs[t], s'.chefs[t])
  {
  }

  lemma OtherMoves(c: Config, s: State, t: nat, s': State, u: nat)
    requires Steps(c, s, t, s') && u < |s'.chefs|
    ensures |s.chefs| == |s'.chefs| && s'.running == s.running
    ensures u != t ==> s'.chefs[u] == s.chefs[u] || (s.chefs[u].Asleep? && s'.chefs[u].Woken?)
  {
  }

  /** The way of a chef: to its appliances, to work with them, and back. */
  predicate Onward(count: nat, running: bool, p: Chef, p': Chef)
  {
    match p
    case Testing => p' == if running then Entering else Done
    case Entering => p' == Scanning(0)
    case Scanning(i) => if i < count then p' == Scanning(i + 1) || p' == Asleep else p' == Taking(0)
    case Taking(i) => p' == if i < count then Taking(i + 1) else Leaving
    case Leaving => p' == Cooking
    case Asleep => false
    case Woken => p' == Scanning(0)
    case Cooking => p' == Returning
    case Returning => p' == Clearing(0)
    case Clearing(i) => p' == if i < count then Clearing(i + 1) else Calling
    case Calling => p' == Left
    case Left => p' == Testing
    case Done => false
  }

  /** Chef t cooks, and every appliance it needs is marked and its own. */
  ghost predicate AtWork(c: Config, s: State, t: nat)
  {
    && t < |s.chefs| && t < |c.needed| && s.chefs[t] == Cooking && Owned(c, t, s.chefs[t]) == multiset(c.needed[t])
    && forall k | 0 <= k < |c.needed[t]| :: c.needed[t][k] < |s.inUse| && s.inUse[c.needed[t][k]]
  }

  lemma CookingIsWork(c: Config, s: State, t: nat)
    requires Legal(c) && Inv(c, s) && t < |s.chefs| && s.chefs[t] == Cooking
    ensures AtWork(c, s, t)
  {
    forall k | 0 <= k < |c.needed[t]|
      ensures s.inUse[c.needed[t][k]]
    {
      var a := c.needed[t][k];
      assert a in multiset(c.needed[t]);
      SumAtLeast(s.chefs, Owning(c, a), t);
    }
  }

  /** A chef that is through with cooking and not yet round again. */
  predicate GivingBack(p: Chef) { p.Returning? || p.Clearing? || p.Calling? || p.Left? }

  /** From i to n chef t is never between two rounds. */
  ghost predicate SameRound(run: seq<State>, t: nat, i: nat, n: nat)
  {
    n < |run| && forall j | i <= j <= n :: t < |run[j].chefs| && run[j].chefs[t] != Testing && run[j].chefs[t] != Done
  }

  lemma FirstTest(c: Config, run: seq<State>)
    requires IsRun(c, run)
    ensures run != [] && forall t | 0 <= t < |run[0].chefs| :: run[0].chefs[t] == Testing
  {
  }

  lemma RunStep(c: Config, run: seq<State>, n: nat)
    requires IsRun(c, run) && n + 1 < |run|
    ensures Next(c, run[n], run[n + 1])
  {
  }

  lemma GivingFrom(c: Config, s: State, s': State, t: nat)
    requires Next(c, s, s') && t < |s'.chefs| && GivingBack(s'.chefs[t])
    ensures t < |s.chefs| && (GivingBack(s.chefs[t]) || s.chefs[t] == Cooking)
  {
    hide Next;
    ChefMoves(c, s, s', t);
  }

  /** Whoever gives back has cooked before, in the same round. */
  lemma {:induction false} GivingCame(c: Config, run: seq<State>, n: nat, t: nat) returns (i: nat)
    requires Legal(c) && IsRun(c, run) && n < |run| && t < |run[n].chefs| && GivingBack(run[n].chefs[t])
    ensures i < n && AtWork(c, run[i], t) && SameRound(run, t, i, n)
  {
    hide AtWork, Legal, Inv, IsRun, Next;
    FirstTest(c, run);
    if n > 0 {
      Reachable(c, run, n - 1);
      RunStep(c, run, n - 1);
      GivingFrom(c, run[n - 1], run[n], t);
      if GivingBack(run[n - 1].chefs[t]) {
        i := GivingCame(c, run, n - 1, t);
      } else {
        i := n - 1;
        CookingIsWork(c, run[i], t);
      }
    }
  }

  /** Chef t leaves the test at m and is back there at n. */
  ghost predicate Back(run: seq<State>, m: nat, n: nat, t: nat)
    requires m + 1 < n < |run|
  {
    && t < |run[m].chefs| && t < |run[m + 1].chefs| && t < |run[n].chefs|
    && run[m].chefs[t] == Testing && run[m + 1].chefs[t] != Testing && run[n].chefs[t] == Testing
  }

  /** Every round leads by work with all that the chef needs. */
  lemma {:induction false} RoundWorks(c: Config, run: seq<State>, m: nat, n: nat, t: nat) returns (i: nat)
    requires Legal(c) && IsRun(c, run) && m + 1 < n < |run| && Back(run, m, n, t)
    ensures m < i < n && AtWork(c, run[i], t)
  {
    hide AtWork, Legal, IsRun, Next;
    RunStep(c, run, n - 1);
    ChefMoves(c, run[n - 1], run[n], t);
    if run[n - 1].chefs[t] == Testing {
      i := RoundWorks(c, run, m, n - 1, t);
    } else {
      i := GivingCame(c, run, n - 1, t);
      assert forall j | i <= j <= n - 1 :: run[j].chefs[t] != Testing;
    }
  }

  /** All this of every chef of a run. */
  ghost predicate RoundsWork(c: Config, run: seq<State>)
  {
    && (forall n, t | 0 <= n < |run| && run[n].running && 0 <= t < |run[n].chefs| :: run[n].chefs[t] != Done)
    && (forall n, t | 0 <= n < |run| && 0 <= t < |run[n].chefs| && GivingBack(run[n].chefs[t]) ::
          exists i | 0 <= i < n :: AtWork(c, run[i], t) && SameRound(run, t, i, n))
    && (forall m, n, t | 0 <= m && m + 1 < n < |run| && 0 <= t && Back(run, m, n, t) ::
          exists i | m < i < n :: AtWork(c, run[i], t))
  }

  lemma AllRoundsWork(c: Config, run: seq<State>)
    requires Legal(c) && IsRun(c, run)
    ensures RoundsWork(c, run)
  {
    hide Legal, IsRun, AtWork, SameRound;
    forall n, t | 0 <= n < |run| && run[n].running && 0 <= t < |run[n].chefs|
      ensures run[n].chefs[t] != Done
    {
      NotDoneWhileRunning(c, run, n, t);
    }
    forall n, t | 0 <= n < |run| && 0 <= t < |run[n].chefs| && GivingBack(run[n].chefs[t])
      ensures exists i | 0 <= i < n :: AtWork(c, run[i], t) && SameRound(run, t, i, n)
    {
      var i := GivingCame(c, run, n, t);
    }
    forall m, n, t | 0 <= m && m + 1 < n < |run| && 0 <= t && Back(run, m, n, t)
      ensures exists i | m < i < n :: AtWork(c, run[i], t)
    {
      var i := RoundWorks(c, run, m, n, t);
    }
  }

  // ----- the ten chefs -----

  const BLENDER := 0
  const COFFEEMAKER := 1
  const FRYER := 2
  const GRIDDLE := 3
  const GRILL := 4
  const MICROWAVE := 5
  const MIXER := 6
  const OVEN := 7

  function Chefs(): Config
  {
    Config(8,
      [ [GRIDDLE, GRILL, MICROWAVE],         // Tad
        [MIXER, OVEN, BLENDER],              // Merry
        [COFFEEMAKER, GRIDDLE],              // Charles
        [BLENDER, MIXER],                    // Merlin
        [GRIDDLE, FRYER],                    // Lyn
        [COFFEEMAKER, MICROWAVE, OVEN],      // Marian
        [FRYER, BLENDER, COFFEEMAKER],       // Summer
        [GRILL, FRYER],                      // Sammy
        [MICROWAVE, MIXER],                  // Lura
        [GRILL, OVEN] ])                     // Ginny
  }

  lemma ChefsAreLegal()
    ensures Legal(Chefs())
  {
  }

  /** All this holds of the ten chefs. */
  lemma ChefsGoOn(run: seq<State>, n: nat)
    requires IsRun(Chefs(), run) && n < |run|
    ensures var s := run[n];
      && |s.chefs| == 10 && |s.inUse| == 8
      && (s.mutex > 0 ==> forall a | 0 <= a < 8 ::
            s.inUse[a] <==> exists t :: 0 <= t < 10 && HasAll(s.chefs[t]) && a in Chefs().needed[t])
      && (s.mutex > 0 ==> forall t | 0 <= t < 10 && s.chefs[t] == Asleep :: Blocked(Chefs().needed[t], s.inUse))
      && ((exists t :: 0 <= t < 10 && s.chefs[t] != Done) ==>
            exists u :: 0 <= u < 10 && s.chefs[u] != Done && s.chefs[u] != Asleep && Enabled(Chefs(), s, u))
      && RoundsWork(Chefs(), run)
  {
    ChefsAreLegal();
    assert |Chefs().needed| == 10 && Chefs().appliances == 8;
    hide Chefs, Legal, Enabled, RoundsWork;
    RunGoesOn(Chefs(), run, n);
    AllRoundsWork(Chefs(), run);
  }
}
