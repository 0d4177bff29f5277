/** assignments/hw5/matchmaker.c: players waiting on a linked list to be paired by skill. The monitor's
    atomic sections are methods on the linked players; what they do is stated on a hall of seats, one
    seat for each player in order of arrival, and runs are runs of the hall. */
module Matchmaker {
  import opened Common

  /** Where a player's thread stands: blocked in pthread_cond_wait, signalled but not yet back in the
      monitor, or returned from findMatch. */
  datatype Phase = Waiting | Woken | Returned(result: bool)

  datatype Seat = Seat(skill: int, opponent: Option<nat>, matched: bool, phase: Phase)

  /** list holds the numbers of the seats on waiting_list, head first. */
  datatype Hall = Hall(gap: int, stopped: bool, list: seq<nat>, seats: seq<Seat>)

  predicate Compatible(gap: int, a: int, b: int)
  {
    var diff := if a < b then b - a else a - b;
    a != b && diff <= gap
  }

  /** Two players suit each other if their skills differ, in either direction, by 1 to gap. */
  lemma CompatibleIs(gap: int, a: int, b: int)
    ensures Compatible(gap, a, b) <==> 1 <= b - a <= gap || 1 <= a - b <= gap
    ensures Compatible(gap, a, b) == Compatible(gap, b, a)
  {
  }

  function Signal(p: Phase): Phase
  {
    if p.Waiting? then Woken else p
  }

  // ----- the monitor's sections -----

  ghost predicate Fits(h: Hall, i: nat, skill: int)
  {
    i < |h.seats| && !h.seats[i].matched && Compatible(h.gap, skill, h.seats[i].skill)
  }

  /** The search stops at position k of the list: the first player that fits, or the end. */
  ghost predicate SearchStops(h: Hall, skill: int, k: nat)
  {
    && k <= |h.list|
    && (forall j | 0 <= j < k :: !Fits(h, h.list[j], skill))
    && (k < |h.list| ==> Fits(h, h.list[k], skill))
  }

  /** findMatch up to its return or its wait, if the search stops at k. */
  ghost function Seated(h: Hall, skill: int, k: nat): Hall
  {
    var self := |h.seats|;
    if k < |h.list| && h.list[k] < self then
      var other := h.list[k];
      var seat := h.seats[other];
      h.(list := h.list[..k] + h.list[k + 1..],
         seats := h.seats[other := seat.(opponent := Some(self), matched := true, phase := Signal(seat.phase))]
                  + [Seat(skill, Some(other), true, Returned(true))])
    else
      h.(list := [self] + h.list, seats := h.seats + [Seat(skill, None, false, Waiting)])
  }

  ghost function Stopped(h: Hall): Hall
  {
    h.(stopped := true,
       seats := seq(|h.seats|, i requires 0 <= i < |h.seats| =>
                  if i in h.list then h.seats[i].(phase := Signal(h.seats[i].phase)) else h.seats[i]))
  }

  datatype Event = Enter(skill: int) | Resume(i: nat) | Stop

  ghost predicate Step(h: Hall, e: Event, h': Hall)
  {
    match e
    case Enter(skill) => if h.stopped then h' == h
                         else exists k: nat :: SearchStops(h, skill, k) && h' == Seated(h, skill, k)
    case Resume(i) =>
      && i < |h.seats| && h.seats[i].phase.Woken? && (h.seats[i].matched || h.stopped)
      && h' == h.(seats := h.seats[i := h.seats[i].(phase := Returned(h.seats[i].matched))])
    case Stop => h' == Stopped(h)
  }

  // ----- what every state satisfies -----

  /** The opponent relation is a symmetric, irreflexive partial matching of compatible players. */
  ghost predicate Matching(h: Hall)
  {
    forall i | 0 <= i < |h.seats| && h.seats[i].opponent.Some? ::
      var o := h.seats[i].opponent.value;
      o < |h.seats| && o != i && h.seats[o].opponent == Some(i) && Compatible(h.gap, h.seats[i].skill, h.seats[o].skill)
  }

  ghost predicate SeatInv(h: Hall, i: nat)
    requires i < |h.seats|
  {
    var seat := h.seats[i];
    && (seat.matched <==> seat.opponent.Some?)
    && (seat.matched <==> i !in h.list)
    && (seat.phase.Waiting? <==> !seat.matched && !h.stopped)
    && (seat.phase.Returned? ==> seat.phase.result == seat.matched)
  }

  /** The list runs from the newest arrival to the oldest, so it repeats nobody. */
  ghost predicate NewestFirst(list: seq<nat>)
  {
    forall i, j | 0 <= i < j < |list| :: list[i] > list[j]
  }

  ghost predicate Incompatible(h: Hall)
  {
    forall i, j | 0 <= i < j < |h.seats| && !h.seats[i].matched && !h.seats[j].matched ::
      !Compatible(h.gap, h.seats[i].skill, h.seats[j].skill)
  }

  ghost predicate Inv(h: Hall)
  {
    && Matching(h) && NewestFirst(h.list) && Incompatible(h)
    && (forall k | 0 <= k < |h.list| :: h.list[k] < |h.seats|)
    && (forall i | 0 <= i < |h.seats| :: SeatInv(h, i))
  }

  lemma PairKeeps(h: Hall, skill: int, k: nat)
    requires Inv(h) && !h.stopped && SearchStops(h, skill, k) && k < |h.list|
    ensures Inv(Seated(h, skill, k))
  {
    var h' := Seated(h, skill, k);
    var (self, other) := (|h.seats|, h.list[k]);
    forall i | 0 <= i < |h'.seats|
      ensures SeatInv(h', i)
    {
      if i < self {
        assert SeatInv(h, i);
        if i in h.list && i != other {
          var j :| 0 <= j < |h.list| && h.list[j] == i;
          assert h'.list[if j < k then j else j - 1] == i;
        }
      }
    }
    hide NewestFirst, SearchStops, Compatible;
    assert SeatInv(h, other);
  }

  lemma WaitKeeps(h: Hall, skill: int)
    requires Inv(h) && !h.stopped && SearchStops(h, skill, |h.list|)
    ensures Inv(Seated(h, skill, |h.list|))
  {
    var h' := Seated(h, skill, |h.list|);
    var self := |h.seats|;
    forall i | 0 <= i < |h'.seats|
      ensures SeatInv(h', i)
    {
      if i < self { assert SeatInv(h, i); }
    }
    forall i, j | 0 <= i < j < |h'.seats| && !h'.seats[i].matched && !h'.seats[j].matched
      ensures !Compatible(h.gap, h'.seats[i].skill, h'.seats[j].skill)
    {
      if j == self {
        assert SeatInv(h, i);
        var p :| 0 <= p < |h.list| && h.list[p] == i;
        assert !Fits(h, h.list[p], skill);
      }
    }
  }

  lemma StopKeeps(h: Hall)
    requires Inv(h)
    ensures Inv(Stopped(h))
  {
    var h' := Stopped(h);
    forall i | 0 <= i < |h'.seats|
      ensures SeatInv(h', i)
    {
      assert SeatInv(h, i);
    }
  }

  lemma IsStopped(h: Hall, h': Hall)
    requires h'.gap == h.gap && h'.stopped && h'.list == h.list && |h'.seats| == |h.seats|
    requires forall i | 0 <= i < |h.seats| ::
               h'.seats[i] == if i in h.list then h.seats[i].(phase := Signal(h.seats[i].phase)) else h.seats[i]
    ensures h' == Stopped(h)
  {
  }

  lemma ResumeKeeps(h: Hall, i: nat, h': Hall)
    requires Inv(h) && Step(h, Resume(i), h')
    ensures Inv(h')
  {
    forall j | 0 <= j < |h'.seats|
      ensures SeatInv(h', j)
    {
      assert SeatInv(h, j);
    }
  }

  /** Every section keeps the invariant. */
  lemma StepKeeps(h: Hall, e: Event, h': Hall)
    requires Inv(h) && Step(h, e, h')
    ensures Inv(h')
  {
    hide Inv;
    match e
    case Enter(skill) =>
      if !h.stopped {
        var k: nat :| SearchStops(h, skill, k) && h' == Seated(h, skill, k);
        if k < |h.list| { PairKeeps(h, skill, k); } else { WaitKeeps(h, skill); }
      }
    case Resume(i) => ResumeKeeps(h, i, h');
    case Stop => StopKeeps(h);
  }

  /** What later sections leave alone: seats stay, their skills and opponents stay, a result stays, a
      stopped monitor stays stopped and pairs nobody. */
  ghost predicate Extends(h: Hall, h': Hall)
  {
    && h'.gap == h.gap && (h.stopped ==> h'.stopped) && |h.seats| <= |h'.seats|
    && (forall i | 0 <= i < |h.seats| ::
          && h'.seats[i].skill == h.seats[i].skill
          && (h.seats[i].opponent.Some? ==> h'.seats[i].opponent == h.seats[i].opponent)
          && (h.seats[i].phase.Returned? ==> h'.seats[i].phase == h.seats[i].phase))
    && (h.stopped ==>
          && |h'.seats| == |h.seats| && h'.list == h.list
          && forall i | 0 <= i < |h.seats| :: h'.seats[i].opponent == h.seats[i].opponent)
  }

  lemma StepExtends(h: Hall, e: Event, h': Hall)
    requires Inv(h) && Step(h, e, h')
    ensures Extends(h, h')
  {
    hide NewestFirst, Incompatible, Matching, Compatible;
    match e
    case Enter(skill) =>
      if !h.stopped {
        var k: nat :| SearchStops(h, skill, k) && h' == Seated(h, skill, k);
        if k < |h.list| { assert SeatInv(h, h.list[k]); }
      }
    case Resume(i) =>
    case Stop =>
  }

  // ----- whole runs -----

  function Empty(gap: int): Hall
  {
    Hall(gap, false, [], [])
  }

  ghost predicate IsRun(gap: int, es: seq<Event>, hs: seq<Hall>)
  {
    && |hs| == |es| + 1 && hs[0] == Empty(gap)
    && forall i, j | 0 <= i < j < |hs| && j <= i + 1 :: Step(hs[i], es[i], hs[j])
  }

  lemma {:induction false} RunKeeps(gap: int, es: seq<Event>, hs: seq<Hall>, n: nat)
    requires IsRun(gap, es, hs) && n < |hs|
    ensures Inv(hs[n])
  {
    hide Inv, Step;
    if n == 0 {
      EmptyInv(gap);
    } else {
      RunKeeps(gap, es, hs, n - 1);
      StepKeeps(hs[n - 1], es[n - 1], hs[n]);
    }
  }

  lemma EmptyInv(gap: int)
    ensures Inv(Empty(gap))
  {
  }

  lemma {:induction false} RunExtends(gap: int, es: seq<Event>, hs: seq<Hall>, m: nat, n: nat)
    requires IsRun(gap, es, hs) && m <= n < |hs|
    ensures Extends(hs[m], hs[n])
  {
    hide Inv, Step;
    if m < n {
      RunExtends(gap, es, hs, m, n - 1);
      RunKeeps(gap, es, hs, n - 1);
      StepExtends(hs[n - 1], es[n - 1], hs[n]);
    }
  }

  /** Before the stop the list holds, once each, exactly the waiting players, all unmatched, and no two
      of them are compatible. */
  lemma ListIsWaiting(gap: int, es: seq<Event>, hs: seq<Hall>, n: nat)
    requires IsRun(gap, es, hs) && n < |hs| && !hs[n].stopped
    ensures var h := hs[n];
      && (forall i, j | 0 <= i < j < |h.list| :: h.list[i] != h.list[j])
      && (forall i: nat :: i in h.list <==> i < |h.seats| && h.seats[i].phase.Waiting?)
      && (forall i: nat :: i in h.list ==> i < |h.seats| && !h.seats[i].matched && h.seats[i].opponent.None?)
      && (forall i, j | 0 <= i < j < |h.list| ::
            h.list[j] < h.list[i] < |h.seats| && !Compatible(h.gap, h.seats[h.list[i]].skill, h.seats[h.list[j]].skill))
  {
    RunKeeps(gap, es, hs, n);
    var h := hs[n];
    forall i: nat
      ensures i in h.list <==> i < |h.seats| && h.seats[i].phase.Waiting?
      ensures i in h.list ==> i < |h.seats| && !h.seats[i].matched && h.seats[i].opponent.None?
    {
      if i < |h.seats| { assert SeatInv(h, i); }
    }
    forall i, j | 0 <= i < j < |h.list|
      ensures h.list[j] < h.list[i] < |h.seats|
              && !Compatible(h.gap, h.seats[h.list[i]].skill, h.seats[h.list[j]].skill)
    {
      assert SeatInv(h, h.list[i]) && SeatInv(h, h.list[j]);
      assert h.list[j] < h.list[i];
    }
  }

  /** Opponents are mutual, compatible and for ever; who has one gets true and so does the opponent. */
  lemma OpponentsForEver(gap: int, es: seq<Event>, hs: seq<Hall>, m: nat, n: nat, i: nat)
    requires IsRun(gap, es, hs) && m <= n < |hs| && i < |hs[m].seats| && hs[m].seats[i].opponent.Some?
    ensures i < |hs[n].seats| && hs[n].seats[i].opponent == hs[m].seats[i].opponent
    ensures var o := hs[m].seats[i].opponent.value;
      && o != i && o < |hs[n].seats| && hs[n].seats[o].opponent == Some(i)
      && Compatible(gap, hs[n].seats[i].skill, hs[n].seats[o].skill)
      && (hs[n].seats[i].phase.Returned? ==> hs[n].seats[i].phase.result)
      && (hs[n].seats[o].phase.Returned? ==> hs[n].seats[o].phase.result)
  {
    RunExtends(gap, es, hs, m, n);
    RunExtends(gap, es, hs, 0, n);
    RunKeeps(gap, es, hs, n);
    hide NewestFirst, Incompatible, Step, Compatible;
    assert SeatInv(hs[n], i) && SeatInv(hs[n], hs[n].seats[i].opponent.value);
  }

  /** findMatch returns false only after the stop, to a player nobody was ever paired with. */
  lemma FalseOnlyStopped(gap: int, es: seq<Event>, hs: seq<Hall>, n: nat, i: nat)
    requires IsRun(gap, es, hs) && n < |hs| && i < |hs[n].seats| && hs[n].seats[i].phase == Returned(false)
    ensures hs[n].stopped && hs[n].seats[i].opponent.None?
    ensures forall j | 0 <= j < |hs[n].seats| :: hs[n].seats[j].opponent != Some(i)
  {
    RunKeeps(gap, es, hs, n);
    hide NewestFirst, Incompatible, Step, Compatible;
    assert SeatInv(hs[n], i);
  }

  /** After stopMatchmaking no pair is formed and nobody joins; whoever was waiting has been signalled,
      can return, and returns false. */
  lemma StopReleasesAll(gap: int, es: seq<Event>, hs: seq<Hall>, m: nat, n: nat, i: nat)
    requires IsRun(gap, es, hs) && m < n < |hs| && es[m] == Stop && i < |hs[m].seats|
    ensures |hs[n].seats| == |hs[m].seats| && hs[n].seats[i].opponent == hs[m].seats[i].opponent
    ensures hs[m].seats[i].phase.Waiting? ==> hs[n].seats[i].phase.Woken? || hs[n].seats[i].phase == Returned(false)
    ensures hs[n].seats[i].phase.Woken? <==> exists h' :: Step(hs[n], Resume(i), h')
  {
    RunKeeps(gap, es, hs, m);
    RunKeeps(gap, es, hs, n);
    assert Step(hs[m], Stop, hs[m + 1]);
    RunExtends(gap, es, hs, m + 1, n);
    assert SeatInv(hs[m], i) && SeatInv(hs[n], i);
    if hs[n].seats[i].phase.Woken? {
      var seat := hs[n].seats[i];
      assert Step(hs[n], Resume(i), hs[n].(seats := hs[n].seats[i := seat.(phase := Returned(seat.matched))]));
    }
  }

  /** A signalled player never has to search again: its loop ends at once. */
  lemma WokenReturns(h: Hall, i: nat)
    requires Inv(h) && i < |h.seats| && h.seats[i].phase.Woken?
    ensures h.seats[i].matched || h.stopped
    ensures Step(h, Resume(i), h.(seats := h.seats[i := h.seats[i].(phase := Returned(h.seats[i].matched))]))
  {
    assert SeatInv(h, i);
  }

  /** Why no wait may end unsignalled: the player would find nobody, itself included, and put itself on
      the list a second time. */
  lemma SpuriousWakeupRepeats(h: Hall, i: nat)
    requires Inv(h) && i < |h.seats| && h.seats[i].phase.Waiting?
    ensures SearchStops(h, h.seats[i].skill, |h.list|) && !Distinct([i] + h.list)
  {
    assert SeatInv(h, i);
    forall j | 0 <= j < |h.list|
      ensures !Fits(h, h.list[j], h.seats[i].skill)
    {
      assert SeatInv(h, h.list[j]);
      assert !Compatible(h.gap, h.seats[i].skill, h.seats[h.list[j]].skill) by {
        ApartOrSame(h, i, h.list[j]);
      }
    }
    var k :| 0 <= k < |h.list| && h.list[k] == i;
    assert ([i] + h.list)[0] == ([i] + h.list)[k + 1];
  }

  lemma ApartOrSame(h: Hall, i: nat, j: nat)
    requires Incompatible(h) && i < |h.seats| && j < |h.seats| && !h.seats[i].matched && !h.seats[j].matched
    ensures !Compatible(h.gap, h.seats[i].skill, h.seats[j].skill)
  {
    if j < i { assert !Compatible(h.gap, h.seats[j].skill, h.seats[i].skill); }
  }

  /** A newcomer is paired with the latest arrival among the waiting players that suit it, and waits
      only if none of them does. */
  lemma PairsWithLatest(h: Hall, skill: int, h': Hall)
    requires Inv(h) && !h.stopped && Step(h, Enter(skill), h')
    ensures |h'.seats| == |h.seats| + 1
    ensures h'.seats[|h.seats|].opponent.None? <==>
              forall i | 0 <= i < |h.seats| && h.seats[i].phase.Waiting? :: !Compatible(h.gap, skill, h.seats[i].skill)
    ensures h'.seats[|h.seats|].opponent.Some? ==>
      var o := h'.seats[|h.seats|].opponent.value;
      && o < |h.seats| && h.seats[o].phase.Waiting? && Compatible(h.gap, skill, h.seats[o].skill)
      && (forall i | o < i < |h.seats| && h.seats[i].phase.Waiting? :: !Compatible(h.gap, skill, h.seats[i].skill))
  {
    var k: nat :| SearchStops(h, skill, k) && h' == Seated(h, skill, k);
    hide Compatible, Matching, Incompatible;
    forall i | 0 <= i < |h.seats| && h.seats[i].phase.Waiting? && (k < |h.list| ==> i > h.list[k])
      ensures !Compatible(h.gap, skill, h.seats[i].skill)
    {
      assert SeatInv(h, i);
      var p :| 0 <= p < |h.list| && h.list[p] == i;
      assert p < k;
      assert !Fits(h, h.list[p], skill);
    }
    if k < |h.list| {
      assert SeatInv(h, h.list[k]);
      assert Fits(h, h.list[k], skill);
    }
  }
}

/** The monitor on linked players. */
module MatchmakerMonitor {
  import opened Common
  import opened Matchmaker

  class Player {
    ghost const number: nat
    const skill: int
    var opponent: Player?
    var matched: bool
    var phase: Phase
    var next: Player?

    constructor (ghost number: nat, skill: int)
      ensures this.number == number && this.skill == skill
      ensures opponent == null && !matched && next == null && phase == Waiting
    {
      this.number := number;
      this.skill := skill;
      opponent, matched, next, phase := null, false, null, Waiting;
    }

    ghost function View(): Seat
      reads this
    {
      Seat(skill, if opponent == null then None else Some(opponent.number), matched, phase)
    }
  }

  ghost function Numbers(ps: seq<Player>): seq<nat>
  {
    seq<nat>(|ps|, k requires 0 <= k < |ps| => ps[k].number)
  }

  ghost function Seats(ps: seq<Player>): seq<Seat>
    reads ps
  {
    seq(|ps|, i requires 0 <= i < |ps| reads ps => ps[i].View())
  }

  class Monitor {
    const skillGap: int
    var matchmakingStopped: bool
    var waitingList: Player?
    ghost var players: seq<Player>  // in order of arrival
    ghost var listed: seq<Player>   // the players reached from waitingList

    ghost predicate Linked()
      reads this, players, listed
    {
      && (forall i | 0 <= i < |players| :: players[i].number == i)
      && (forall k | 0 <= k < |listed| :: listed[k].number < |players| && players[listed[k].number] == listed[k])
      && waitingList == (if listed == [] then null else listed[0])
      && (forall k {:trigger listed[k].next} | 0 <= k < |listed| ::
            listed[k].next == if k + 1 < |listed| then listed[k + 1] else null)
    }

    ghost function View(): Hall
      reads this, players
    {
      Hall(skillGap, matchmakingStopped, Numbers(listed), Seats(players))
    }

    ghost predicate Valid()
      reads this, players, listed
    {
      Linked() && Inv(View())
    }

    constructor (gap: int)
      ensures Valid() && View() == Empty(gap)
    {
      skillGap := gap;
      matchmakingStopped, waitingList := false, null;
      players, listed := [], [];
    }

    lemma ListedOnce()
      requires Valid()
      ensures forall i, j | 0 <= i < j < |listed| :: listed[i] != listed[j] && listed[i].number > listed[j].number
      ensures forall k | 0 <= k < |listed| :: listed[k] in players
    {
      var list := View().list;
      forall i, j | 0 <= i < j < |listed|
        ensures listed[i] != listed[j] && listed[i].number > listed[j].number
      {
        assert list[i] > list[j];
      }
    }

    /** Walks the waiting list to the first player that fits, keeping the one before it. */
    method Search(skill: int) returns (prev: Player?, curr: Player?, ghost k: nat)
      requires Valid()
      ensures k <= |listed| && SearchStops(View(), skill, k)
      ensures curr == if k < |listed| then listed[k] else null
      ensures prev == if k == 0 then null else listed[k - 1]
    {
      prev, curr, k := null, waitingList, 0;
      while curr != null
        invariant k <= |listed| && curr == (if k < |listed| then listed[k] else null)
        invariant prev == (if k == 0 then null else listed[k - 1])
        invariant forall j | 0 <= j < k :: !Fits(View(), View().list[j], skill)
        decreases |listed| - k
      {
        assert View().list[k] == curr.number && View().seats[curr.number] == curr.View();
        if !curr.matched && Compatible(skillGap, skill, curr.skill) {
          return;
        }
        prev := curr;
        curr := curr.next;
        k := k + 1;
      }
    }

    /** Takes curr, at position k, off the list. */
    method Unlink(prev: Player?, curr: Player, ghost k: nat)
      requires Valid() && k < |listed| && curr == listed[k] && prev == if k == 0 then null else listed[k - 1]
      modifies this`waitingList, this`listed, listed`next
      ensures Linked() && View() == old(View()).(list := old(View()).list[..k] + old(View()).list[k + 1..])
    {
      hide Inv;
      ghost var was := View();
      ListedOnce();
      Relink(prev, curr, k);
      assert View().list == was.list[..k] + was.list[k + 1..];
      assert View().seats == was.seats;
    }

    method Relink(prev: Player?, curr: Player, ghost k: nat)
      requires Linked() && (forall i, j | 0 <= i < j < |listed| :: listed[i] != listed[j])
      requires k < |listed| && curr == listed[k] && prev == if k == 0 then null else listed[k - 1]
      modifies this`waitingList, this`listed, listed`next
      ensures Linked() && listed == old(listed[..k] + listed[k + 1..])
    {
      ghost var was := listed;
      if prev == null {
        waitingList := curr.next;
      } else {
        prev.next := curr.next;
      }
      listed := listed[..k] + listed[k + 1..];
      forall i | 0 <= i < |listed|
        ensures listed[i].number < |players| && players[listed[i].number] == listed[i]
        ensures listed[i].next == if i + 1 < |listed| then listed[i + 1] else null
      {
        assert listed[i] == was[if i < k then i else i + 1];
      }
    }

    /** Pairs a newcomer with curr, at position k of the list, and signals curr. */
    method Pair(self: Player, prev: Player?, curr: Player, ghost k: nat)
      requires Valid() && k < |listed| && curr == listed[k] && prev == if k == 0 then null else listed[k - 1]
      requires self !in players && self.number == |players| && self.opponent == null
      modifies this, listed, self
      ensures Linked() && players == old(players) + [self]
      ensures matchmakingStopped == old(matchmakingStopped)
      ensures View() == Seated(old(View()), self.skill, k)
    {
      hide Inv;
      ghost var was := View();
      ListedOnce();
      assert was.list[k] == curr.number && was.seats[curr.number] == curr.View();
      Unlink(prev, curr, k);
      Meet(self, curr);
      SeatsPlus(players, self);
      players := players + [self];
    }

    method Meet(self: Player, curr: Player)
      requires Linked() && curr in players && self !in players
      modifies self`matched, self`opponent, self`phase, curr`matched, curr`opponent, curr`phase
      ensures Linked() && curr.number < |players|
      ensures self.View() == Seat(self.skill, Some(curr.number), true, Returned(true))
      ensures Seats(players) ==
              old(Seats(players))[curr.number := Seat(curr.skill, Some(self.number), true, Signal(old(curr.phase)))]
    {
      self.matched, curr.matched := true, true;
      self.opponent, curr.opponent := curr, self;
      curr.phase := Signal(curr.phase);
      self.phase := Returned(self.matched);
      assert players[curr.number] == curr;
    }

    /** findMatch from its lock to its return or its wait. No player is made once matchmaking is stopped. */
    method FindMatch(skill: int) returns (self: Player?, ghost k: nat)
      requires Valid()
      modifies this, players
      ensures Valid()
      ensures old(matchmakingStopped) ==> self == null && players == old(players) && View() == old(View())
      ensures !old(matchmakingStopped) ==>
        && self != null && fresh(self) && players == old(players) + [self]
        && SearchStops(old(View()), skill, k) && View() == Seated(old(View()), skill, k)
    {
      hide Inv, Seated;
      if matchmakingStopped {
        return null, 0;
      }
      ghost var was := View();
      self := new Player(|players|, skill);
      assert was == View();
      var prev, curr;
      prev, curr, k := Search(skill);
      if curr != null {
        ListedOnce();
        Pair(self, prev, curr, k);
        PairKeeps(was, skill, k);
      } else {
        Push(self);
        WaitKeeps(was, skill);
      }
    }

    /** Puts a newcomer at the head of the list, to wait. */
    method Push(self: Player)
      requires Valid() && self !in players && self.number == |players|
      requires self.opponent == null && !self.matched && self.phase == Waiting
      modifies this, self
      ensures Linked() && players == old(players) + [self]
      ensures matchmakingStopped == old(matchmakingStopped)
      ensures View() == Seated(old(View()), self.skill, |old(View()).list|)
    {
      ghost var was := View();
      ListedOnce();
      hide Inv;
      self.next := waitingList;
      waitingList := self;
      listed := [self] + listed;
      players := players + [self];
      assert View().list == [self.number] + was.list;
      assert View().seats == was.seats + [self.View()];
    }

    /** From listed[k] the links lead back to the head of the list and round again to listed[k]. */
    ghost predicate Loops(k: nat)
      reads this, listed
    {
      && k < |listed| && waitingList == listed[k] && listed[k].next == listed[0]
      && (forall i {:trigger listed[i].next} | 0 <= i < k :: listed[i].next == listed[i + 1])
      && Distinct(listed)
    }

    /** findMatch from a wake-up without a signal to its next wait: the search finds nobody, and relinking
        the player makes a loop of it and of those before it. */
    method WakeUnsignalled(self: Player) returns (ghost k: nat)
      requires Valid() && !matchmakingStopped && self in players && self.phase.Waiting?
      modifies this`waitingList, self`next
      ensures k < |listed| && listed[k] == self && Loops(k)
    {
      hide Inv;
      k := WaitsAlone(self);
      ListedOnce();
      var prev, curr;
      ghost var end;
      prev, curr, end := Search(self.skill);
      self.next := waitingList;
      waitingList := self;
    }

    /** A waiting player is on the list and suits nobody there. */
    lemma WaitsAlone(self: Player) returns (k: nat)
      requires Valid() && !matchmakingStopped && self in players && self.phase.Waiting?
      ensures k < |listed| && listed[k] == self
      ensures forall j | 0 <= j < |listed| :: !Fits(View(), View().list[j], self.skill)
    {
      var h := View();
      assert players[self.number] == self && h.seats[self.number] == self.View();
      assert SeatInv(h, self.number);
      k :| 0 <= k < |h.list| && h.list[k] == self.number;
      SpuriousWakeupRepeats(h, self.number);
    }

    /** A walk along the links, as a search takes it as long as nobody fits. */
    ghost predicate IsWalk(ps: seq<Player?>)
      reads this, set p | p in ps && p != null
    {
      && ps != [] && ps[0] == waitingList
      && (forall i, j | 0 <= i < j < |ps| && j <= i + 1 :: ps[i] != null && ps[j] == ps[i].next)
    }

    /** In a list that loops no walk, however long, comes to the end. */
    lemma {:induction false} WalkNeverEnds(k: nat, ps: seq<Player?>)
      requires Loops(k) && IsWalk(ps)
      ensures forall p | p in ps :: p != null && p in listed[..k + 1]
    {
      var n := |ps| - 1;
      if n == 0 {
        assert ps == [listed[k]];
        assert listed[..k + 1][k] == listed[k];
      } else {
        assert IsWalk(ps[..n]);
        WalkNeverEnds(k, ps[..n]);
        assert ps[n - 1] in ps[..n];
        var i :| 0 <= i < |listed[..k + 1]| && listed[..k + 1][i] == ps[n - 1];
        assert listed[i].next == ps[n];
        var j := if i == k then 0 else i + 1;
        assert listed[..k + 1][j] == ps[n];
        assert ps == ps[..n] + [ps[n]];
      }
    }

    /** Whoever stands behind the loop is lost to every search. */
    lemma LoopCutsOff(k: nat, ps: seq<Player?>, j: nat)
      requires Loops(k) && IsWalk(ps) && k < j < |listed|
      ensures listed[j] !in ps
    {
      WalkNeverEnds(k, ps);
      assert listed[j] !in listed[..k + 1];
    }

    /** findMatch from its wake-up to its return: a signalled player's loop ends. */
    method ReturnFromWait(self: Player) returns (result: bool)
      requires Valid() && self in players && self.phase.Woken?
      modifies self
      ensures Valid() && players == old(players)
      ensures Step(old(View()), Resume(self.number), View())
      ensures self.phase == Returned(result) && (result <==> self.opponent != null)
    {
      ghost var was := View();
      assert was.seats[self.number] == self.View();
      WokenReturns(was, self.number);
      assert SeatInv(was, self.number);
      result := self.matched;
      self.phase := Returned(result);
      assert View().seats == was.seats[self.number := was.seats[self.number].(phase := Returned(result))];
      ResumeKeeps(was, self.number, View());
    }

    lemma ListedNumber(i: nat, h: Hall)
      requires Linked() && i < |players| && h.list == Numbers(listed)
      ensures players[i] in listed <==> i in h.list
    {
      if players[i] in listed {
        var k :| 0 <= k < |listed| && listed[k] == players[i];
        assert h.list[k] == i;
      }
    }

    /** stopMatchmaking: signals every listed player. */
    method StopMatchmaking()
      requires Valid()
      modifies this, players
      ensures Valid() && players == old(players)
      ensures View() == Stopped(old(View()))
    {
      hide Inv, Stopped;
      ghost var was := View();
      ListedOnce();
      matchmakingStopped := true;
      SignalAll();
      forall i | 0 <= i < |players|
        ensures View().seats[i] == if i in was.list then was.seats[i].(phase := Signal(was.seats[i].phase))
                                   else was.seats[i]
      {
        ListedNumber(i, was);
        assert was.seats[i] == old(players[i].View());
      }
      IsStopped(was, View());
      StopKeeps(was);
    }

    method SignalAll()
      requires Linked() && (forall i, j | 0 <= i < j < |listed| :: listed[i] != listed[j])
      modifies listed`phase
      ensures forall p | p in players :: p.phase == if p in listed then Signal(old(p.phase)) else old(p.phase)
    {
      var curr := waitingList;
      ghost var k := 0;
      while curr != null
        invariant 0 <= k <= |listed| && curr == (if k < |listed| then listed[k] else null)
        invariant forall j | 0 <= j < |listed| ::
                    listed[j].phase == if j < k then Signal(old(listed[j].phase)) else old(listed[j].phase)
        invariant forall p | p in players && p !in listed :: p.phase == old(p.phase)
        decreases |listed| - k
      {
        curr.phase := Signal(curr.phase);
        curr, k := curr.next, k + 1;
      }
    }
  }

  lemma SeatsPlus(ps: seq<Player>, p: Player)
    ensures Seats(ps + [p]) == Seats(ps) + [p.View()]
  {
  }
}
