/** assignments/hw5/ordered.c and exercises/ex09/deadlock.c as instances of ordered acquisition. */
module Kitchen {
  import opened Common
  import opened ExchangeSort
  import opened OrderedLocks

  // ----- ordered.c -----

  const NUM_APPLIANCES: nat := 8
  const BLENDER := 0
  const GRIDDLE := 1
  const FRYER := 2
  const GRILL := 3
  const MIXER := 4
  const COFFEEMAKER := 5
  const OVEN := 6
  const MICROWAVE := 7

  /** The `needed` arrays of the ten chefs, as they are written. */
  function Needed(): seq<seq<int>>
  {
    [ [GRIDDLE, GRILL, MICROWAVE],         // Tad
      [MIXER, OVEN, BLENDER],              // Merry
      [COFFEEMAKER, GRIDDLE],              // Charles
      [BLENDER, MIXER],                    // Merlin
      [GRIDDLE, FRYER],                    // Lyn
      [COFFEEMAKER, MICROWAVE, OVEN],      // Marian
      [FRYER, BLENDER, COFFEEMAKER],       // Summer
      [GRILL, FRYER],                      // Sammy
      [MICROWAVE, MIXER],                  // Lura
      [GRILL, OVEN] ]                      // Ginny
  }

  /** The sort loop of lock_appliances: any list of distinct appliances ends up in lock order, and
      one that is in lock order already is left as it is. */
  method SortAppliances(list: array<int>)
    requires Distinct(list[..])
    modifies list
    ensures Increasing(list[..]) && multiset(list[..]) == multiset(old(list[..]))
    ensures old(Increasing(list[..])) ==> list[..] == old(list[..])
  {
    ghost var was := list[..];
    assert list[..list.Length] == list[..];
    Sort(list, list.Length, x => x);
    assert list[..list.Length] == list[..];
    SortedDistinct(list[..], was);
    if Increasing(was) {
      SortedUnique(list[..], was);
    }
  }

  function Reversed(s: seq<int>): (r: seq<int>)
    ensures multiset(r) == multiset(s) && |r| == |s|
  {
    if s == [] then []
    else
      assert s == [s[0]] + s[1..];
      Reversed(s[1..]) + [s[0]]
  }

  function ReverseAll(lists: seq<seq<int>>): (r: seq<seq<int>>)
    ensures |r| == |lists| && forall t | 0 <= t < |lists| :: r[t] == Reversed(lists[t])
  {
    seq(|lists|, t requires 0 <= t < |lists| => Reversed(lists[t]))
  }

  /** These are the lists the chefs lock by: `needed`, put in order by the sort. */
  ghost predicate SortedLists(needed: seq<seq<int>>, take: seq<seq<int>>)
  {
    |take| == |needed| && forall t | 0 <= t < |take| :: Increasing(take[t]) && multiset(take[t]) == multiset(needed[t])
  }

  /** Any number of chefs with any needs run a legal protocol: lock in order, unlock in reverse. */
  lemma SortedIsLegal(locks: nat, needed: seq<seq<int>>, take: seq<seq<int>>)
    requires SortedLists(needed, take)
    requires forall t, k | 0 <= t < |needed| && 0 <= k < |needed[t]| :: 0 <= needed[t][k] < locks
    ensures Legal(Config(locks, take, ReverseAll(take)))
  {
    forall t, k | 0 <= t < |take| && 0 <= k < |take[t]|
      ensures 0 <= take[t][k] < locks
    {
      assert take[t][k] in multiset(take[t]);
      assert take[t][k] in multiset(needed[t]);
      assert take[t][k] in needed[t];
    }
  }

  lemma NeededInRange()
    ensures |Needed()| == 10
    ensures forall t, k | 0 <= t < |Needed()| && 0 <= k < |Needed()[t]| :: 0 <= Needed()[t][k] < NUM_APPLIANCES
    ensures forall t | 0 <= t < |Needed()| :: Distinct(Needed()[t])
  {
  }

  /** In every interleaving of the ten chefs no appliance has two users, somebody can go on, nobody stops
      before running is false, and in every round a chef works with all it needs. */
  lemma ChefsGoOn(take: seq<seq<int>>, run: seq<State>, n: nat)
    requires SortedLists(Needed(), take)
    requires IsRun(Config(NUM_APPLIANCES, take, ReverseAll(take)), run) && n < |run|
    ensures var c := Config(NUM_APPLIANCES, take, ReverseAll(take));
      && |run[n].threads| == |c.take| == |c.give|
      && (forall l, t, u | 0 <= l < NUM_APPLIANCES && 0 <= t < u < |run[n].threads| ::
            HeldBy(c, t, run[n].threads[t])[l] + HeldBy(c, u, run[n].threads[u])[l] <= 1)
      && ((exists t :: 0 <= t < |run[n].threads| && run[n].threads[t] != Done) ==>
            exists u: nat :: Enabled(c, run[n], u))
      && RoundsWork(c, run)
  {
    hide RoundsWork;
    var c := Config(NUM_APPLIANCES, take, ReverseAll(take));
    NeededInRange();
    SortedIsLegal(NUM_APPLIANCES, Needed(), take);
    RunGoesOn(c, run, n);
  }

  lemma RunGoesOn(c: Config, run: seq<State>, n: nat)
    requires Legal(c) && IsRun(c, run) && n < |run|
    ensures |run[n].threads| == |c.take| == |c.give|
    ensures forall l, t, u | 0 <= l < c.locks && 0 <= t < u < |run[n].threads| ::
              HeldBy(c, t, run[n].threads[t])[l] + HeldBy(c, u, run[n].threads[u])[l] <= 1
    ensures (exists t :: 0 <= t < |run[n].threads| && run[n].threads[t] != Done) ==>
              exists u: nat :: Enabled(c, run[n], u)
    ensures RoundsWork(c, run)
  {
    hide RoundsWork;
    AllRoundsWork(c, run);
    Reachable(c, run, n);
    var s := run[n];
    forall l, t, u | 0 <= l < c.locks && 0 <= t < u < |s.threads|
      ensures HeldBy(c, t, s.threads[t])[l] + HeldBy(c, u, s.threads[u])[l] <= 1
    {
      MutualExclusion(c, s, l, t);
    }
    if exists t :: 0 <= t < |s.threads| && s.threads[t] != Done {
      NoDeadlock(c, s);
    }
  }

  // ----- deadlock.c -----

  const HAMMER := 0
  const RUBBER_STAMP := 1
  const BOOKMARK := 2
  const SHOVEL := 3
  const BOWTIE := 4
  const CAMERA := 5
  const SPATULA := 6
  const TRICORDER := 7
  const USB_CABLE := 8

  /** The waits of the ten routines, numbered as the semaphores are declared. */
  function Waits(): seq<seq<int>>
  {
    [ [BOOKMARK, SHOVEL, TRICORDER],               // Tamara
      [HAMMER, BOWTIE, CAMERA, USB_CABLE],         // Adolfo
      [HAMMER, RUBBER_STAMP, BOOKMARK, BOWTIE],    // Terrie
      [HAMMER, SHOVEL],                            // Dollie
      [SHOVEL, CAMERA, USB_CABLE],                 // Alesha
      [HAMMER, SPATULA],                           // Benita
      [CAMERA, TRICORDER, USB_CABLE],              // Laverne
      [HAMMER, USB_CABLE],                         // Grady
      [RUBBER_STAMP, CAMERA, SPATULA],             // Arnold
      [CAMERA, SPATULA] ]                          // Gladys
  }

  /** The routines post in the order in which they wait. */
  function Routines(): Config { Config(9, Waits(), Waits()) }

  lemma RoutinesAreLegal()
    ensures Legal(Routines())
  {
    forall t | 0 <= t < |Waits()|
      ensures Increasing(Waits()[t]) && forall k | 0 <= k < |Waits()[t]| :: 0 <= Waits()[t][k] < 9
    {
      if t < 5 { FirstFive(t); } else { LastFive(t); }
    }
    hide Waits, Increasing;
  }

  lemma FirstFive(t: nat)
    requires t < 5
    ensures Increasing(Waits()[t]) && forall k | 0 <= k < |Waits()[t]| :: 0 <= Waits()[t][k] < 9
  {
  }

  lemma LastFive(t: nat)
    requires 5 <= t < 10
    ensures |Waits()| == 10 && Increasing(Waits()[t]) && forall k | 0 <= k < |Waits()[t]| :: 0 <= Waits()[t][k] < 9
  {
  }

  lemma RoutinesGoOn(run: seq<State>, n: nat)
    requires IsRun(Routines(), run) && n < |run|
    ensures |run[n].threads| == 10
    ensures forall l, t, u | 0 <= l < 9 && 0 <= t < u < 10 ::
              HeldBy(Routines(), t, run[n].threads[t])[l] + HeldBy(Routines(), u, run[n].threads[u])[l] <= 1
    ensures (exists t :: 0 <= t < 10 && run[n].threads[t] != Done) ==> exists u: nat :: Enabled(Routines(), run[n], u)
    ensures RoundsWork(Routines(), run)
  {
    hide RoundsWork;
    RoutinesAreLegal();
    RunGoesOn(Routines(), run, n);
  }
}
