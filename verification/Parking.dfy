/** assignments/hw6/parkingServer.c: the parking table under its lock. A fixed array of slots refines a
    finite map from plates to arrival times. */
module Parking {
  import opened ExchangeSort

  const MAX_PLATE_LEN: nat := 9
  const DAY: int := 86400

  datatype Record = Record(plate: string, arrivalTime: int, occupied: bool)

  datatype Reply =
    | Invalid
    | Full
    | Parked
    | Fee(amount: real)
    | NotFound
    | Listing(records: seq<Record>)

  // ----- plates -----

  predicate PlateChar(c: char) { '0' <= c <= '9' || 'A' <= c <= 'Z' || c == '-' }

  /** Seven or eight digits, capitals and dashes, of dashes at most one. */
  ghost predicate ValidPlate(plate: string)
  {
    && 7 <= |plate| <= 8 && (forall i | 0 <= i < |plate| :: PlateChar(plate[i]))
    && (forall i, j | 0 <= i < j < |plate| :: !(plate[i] == '-' && plate[j] == '-'))
  }

  method IsValidPlate(plate: string) returns (valid: bool)
    ensures valid <==> ValidPlate(plate)
  {
    var len := |plate|;
    if len < 7 || len > 8 {
      return false;
    }
    var dashCount := 0;
    for i := 0 to len
      invariant 0 <= dashCount <= 1
      invariant forall k | 0 <= k < i :: PlateChar(plate[k])
      invariant dashCount == 0 ==> forall k | 0 <= k < i :: plate[k] != '-'
      invariant dashCount == 1 ==> exists d | 0 <= d < i :: plate[d] == '-'
      invariant forall j, k | 0 <= j < k < i :: !(plate[j] == '-' && plate[k] == '-')
    {
      if plate[i] == '-' {
        dashCount := dashCount + 1;
        if dashCount > 1 {
          return false;
        }
      } else if !('0' <= plate[i] <= '9') && !('A' <= plate[i] <= 'Z') {
        return false;
      }
    }
    return true;
  }

  /** strncpy into the plate field and the terminator after it. */
  function Copied(plate: string): string
  {
    if |plate| < MAX_PLATE_LEN then plate else plate[..MAX_PLATE_LEN - 1]
  }

  // ----- what the table means -----

  /** Each occupied slot is an entry of m, and each entry of m is in one slot. */
  ghost predicate Represents(s: seq<Record>, m: map<string, int>)
  {
    && (forall k | 0 <= k < |s| && s[k].occupied :: s[k].plate in m && m[s[k].plate] == s[k].arrivalTime)
    && (forall j, k | 0 <= j < k < |s| && s[j].occupied && s[k].occupied :: s[j].plate != s[k].plate)
    && (forall p | p in m :: InSlot(s, p))
  }

  ghost predicate InSlot(s: seq<Record>, p: string)
  {
    exists k :: 0 <= k < |s| && s[k].occupied && s[k].plate == p
  }

  /** The occupied slots, in order. */
  function Occupants(s: seq<Record>): (r: seq<Record>)
    ensures |r| <= |s|
  {
    if s == [] then [] else
    var n := |s| - 1;
    if s[n].occupied then Occupants(s[..n]) + [s[n]] else Occupants(s[..n])
  }

  lemma OccupantsNone()
    ensures Occupants([]) == []
  {
  }

  lemma OccupantsNext(s: seq<Record>, n: nat)
    requires |s| == n + 1
    ensures Occupants(s) == Occupants(s[..n]) + if s[n].occupied then [s[n]] else []
  {
  }

  lemma {:induction false} OccupantsAre(s: seq<Record>, r: Record)
    ensures r in Occupants(s) <==> r in s && r.occupied
  {
    if s != [] {
      OccupantsAre(s[..|s| - 1], r);
      assert s == s[..|s| - 1] + [s[|s| - 1]];
    }
  }

  /** Without its last slot the table represents the map without that slot's entry. */
  lemma LastSlot(s: seq<Record>, m: map<string, int>)
    requires Represents(s, m) && s != []
    ensures var last := s[|s| - 1];
      && Represents(s[..|s| - 1], if last.occupied then m - {last.plate} else m)
      && (last.occupied ==> last.plate in m)
  {
    var (n, last) := (|s| - 1, s[|s| - 1]);
    var m' := if last.occupied then m - {last.plate} else m;
    forall p | p in m'
      ensures InSlot(s[..n], p)
    {
      assert InSlot(s, p);
      var k :| 0 <= k < |s| && s[k].occupied && s[k].plate == p;
      assert s[..n][k] == s[k];
    }
  }

  lemma Empty(m: map<string, int>)
    requires Represents([], m)
    ensures m == map[]
  {
    assert forall p | p in m :: InSlot([], p);
    assert m.Keys == {};
  }

  /** The map has as many entries as slots are occupied. */
  lemma {:induction false} SizeIsOccupancy(s: seq<Record>, m: map<string, int>)
    requires Represents(s, m)
    ensures |m| == |Occupants(s)|
  {
    hide Represents;
    if s == [] {
      Empty(m);
    } else {
      var last := s[|s| - 1];
      LastSlot(s, m);
      SizeIsOccupancy(s[..|s| - 1], if last.occupied then m - {last.plate} else m);
      if last.occupied {
        assert (m - {last.plate}).Keys == m.Keys - {last.plate};
        assert |m.Keys| == |(m - {last.plate}).Keys| + 1;
      }
    }
  }

  lemma {:induction false} FullTable(s: seq<Record>)
    ensures |Occupants(s)| == |s| <==> forall k | 0 <= k < |s| :: s[k].occupied
  {
    if s != [] { FullTable(s[..|s| - 1]); }
  }

  // ----- what the commands promise -----

  ghost predicate Asked(plate: string, time: int)
  {
    ValidPlate(plate) && 0 < time <= DAY
  }

  /** Insert if absent and if there is room. */
  ghost function ParkReply(m: map<string, int>, capacity: nat, plate: string, arrival: int): Reply
  {
    if !Asked(plate, arrival) || plate in m then Invalid else if |m| >= capacity then Full else Parked
  }

  ghost function ParkEntries(m: map<string, int>, capacity: nat, plate: string, arrival: int): map<string, int>
  {
    if ParkReply(m, capacity, plate, arrival) == Parked then m[plate := arrival] else m
  }

  /** The hours begun. */
  function HoursBegun(duration: nat): (hours: nat)
    ensures 3600 * (hours - 1) < duration <= 3600 * hours
  {
    duration / 3600 + if duration % 3600 == 0 then 0 else 1
  }

  /** Ten hours are paid for at most. */
  function FeeFor(rate: real, duration: nat): real
  {
    var hours := HoursBegun(duration);
    rate * (if hours < 10 then hours else 10) as real
  }

  ghost function LeaveReply(m: map<string, int>, rate: real, plate: string, time: int): Reply
  {
    if !Asked(plate, time) then Invalid
    else if plate !in m then NotFound
    else if time < m[plate] then Invalid
    else Fee(FeeFor(rate, time - m[plate]))
  }

  ghost function LeaveEntries(m: map<string, int>, plate: string, time: int): map<string, int>
  {
    if Asked(plate, time) && plate in m && time >= m[plate] then m - {plate} else m
  }

  /** The records shown are the entries, each once, by time of arrival. */
  ghost predicate IsShown(m: map<string, int>, records: seq<Record>)
  {
    && |records| == |m|
    && (forall k | 0 <= k < |records| :: records[k].plate in m && m[records[k].plate] == records[k].arrivalTime)
    && (forall p | p in m :: InSlot(records, p))
    && (forall j, k | 0 <= j < k < |records| :: records[j].arrivalTime <= records[k].arrivalTime)
  }

  /** Leaving: a fee is asked exactly of a parked car that came no later than it leaves; only then is a record
      removed, and only that one. An unknown plate is said to be unknown, and anything else is invalid. */
  lemma LeaveIs(m: map<string, int>, rate: real, plate: string, time: int)
    ensures var reply := LeaveReply(m, rate, plate, time);
      var m' := LeaveEntries(m, plate, time);
      var asked := ValidPlate(plate) && 1 <= time <= 86400;
      && (reply.Fee? <==> asked && plate in m && m[plate] <= time)
      && (reply.Fee? ==> reply.amount == FeeFor(rate, time - m[plate]))
      && (reply == NotFound <==> asked && plate !in m)
      && (reply == Invalid <==> !asked || (plate in m && time < m[plate]))
      && (!reply.Fee? ==> m' == m)
      && (reply.Fee? ==> plate !in m' && forall p :: p != plate ==> (p in m <==> p in m') && (p in m ==> m'[p] == m[p]))
  {
  }

  /** Parking: a car is taken in exactly if it may be asked for, is not there yet and there is room; only then
      is a record made, and only that one. It is told that the lot is full only if it is not there yet. */
  lemma ParkIs(m: map<string, int>, capacity: nat, plate: string, arrival: int)
    ensures var reply := ParkReply(m, capacity, plate, arrival);
      var m' := ParkEntries(m, capacity, plate, arrival);
      var asked := ValidPlate(plate) && 1 <= arrival <= 86400;
      && (reply == Parked <==> asked && plate !in m && |m| < capacity)
      && (reply == Full <==> asked && plate !in m && |m| >= capacity)
      && (reply == Invalid <==> !asked || plate in m)
      && (reply != Parked ==> m' == m)
      && (reply == Parked ==>
            && plate in m' && m'[plate] == arrival
            && forall p :: p != plate ==> (p in m <==> p in m') && (p in m ==> m'[p] == m[p]))
  {
  }

  /** Up to ten hours the fee is the rate for every hour begun, and from then on the rate for ten. */
  lemma FeeIsHours(rate: real, duration: nat, hours: nat)
    requires 3600 * (hours - 1) < duration <= 3600 * hours
    ensures FeeFor(rate, duration) == if duration <= 36000 then rate * hours as real else rate * 10.0
  {
    assert HoursBegun(duration) == hours;
  }

  /** A car that parks and leaves pays for its stay, and the lot is as it was. */
  lemma ParkThenLeave(m: map<string, int>, capacity: nat, rate: real, plate: string, arrival: int, time: int)
    requires ParkReply(m, capacity, plate, arrival) == Parked && arrival <= time <= DAY
    ensures var parked := ParkEntries(m, capacity, plate, arrival);
      && LeaveReply(parked, rate, plate, time) == Fee(FeeFor(rate, time - arrival))
      && LeaveEntries(parked, plate, time) == m
  {
  }

  /** A longer stay never costs less, and none more than ten hours. */
  lemma FeeGrows(rate: real, d: nat, e: nat)
    requires rate > 0.0 && d <= e
    ensures FeeFor(rate, d) <= FeeFor(rate, e) <= rate * 10.0
  {
    var (h, k) := (HoursBegun(d), HoursBegun(e));
    var (x, y) := (if h < 10 then h else 10, if k < 10 then k else 10);
    assert rate * (y - x) as real >= 0.0 && rate * (10 - y) as real >= 0.0;
  }

  // ----- the table -----

  class Lot {
    const table: array<Record>
    const hourlyRate: real
    ghost var entries: map<string, int>

    ghost predicate Valid()
      reads this, table
    {
      && hourlyRate > 0.0 && Represents(table[..], entries) && |entries| <= table.Length
      && (forall p | p in entries :: Asked(p, entries[p]))
    }

    constructor (capacity: nat, rate: real)
      requires capacity > 0 && rate > 0.0
      ensures Valid() && fresh(table) && table.Length == capacity && hourlyRate == rate && entries == map[]
    {
      table := new Record[capacity](_ => Record("", 0, false));
      hourlyRate := rate;
      entries := map[];
    }

    /** The first slot that holds plate, or the capacity. */
    method Find(plate: string) returns (i: nat)
      requires Valid()
      ensures i <= table.Length
      ensures i < table.Length ==> table[i].occupied && table[i].plate == plate
      ensures i < table.Length <==> plate in entries
      ensures i < table.Length ==> entries[plate] == table[i].arrivalTime
    {
      i := 0;
      while i < table.Length && !(table[i].occupied && table[i].plate == plate)
        invariant i <= table.Length
        invariant forall k | 0 <= k < i :: !(table[k].occupied && table[k].plate == plate)
      {
        i := i + 1;
      }
      if plate in entries { assert InSlot(table[..], plate); }
    }

    method Park(plate: string, arrival: int) returns (reply: Reply)
      requires Valid()
      modifies this`entries, table
      ensures Valid()
      ensures reply == ParkReply(old(entries), table.Length, plate, arrival)
      ensures entries == ParkEntries(old(entries), table.Length, plate, arrival)
    {
      hide Represents, PlateChar;
      var valid := IsValidPlate(plate);
      if !valid || arrival <= 0 || arrival > DAY {
        return Invalid;
      }
      var duplicate := Find(plate);
      if duplicate < table.Length {
        return Invalid;
      }
      SizeIsOccupancy(table[..], entries);
      FullTable(table[..]);
      var i := 0;
      while i < table.Length
        invariant 0 <= i <= table.Length && forall k | 0 <= k < i :: table[k].occupied
      {
        if !table[i].occupied {
          assert !table[..][i].occupied;
          ghost var s := table[..];
          table[i] := Record(Copied(plate), arrival, true);
          SlotTaken(s, entries, i, plate, arrival);
          entries := entries[plate := arrival];
          return Parked;
        }
        i := i + 1;
      }
      return Full;
    }

    method Leave(plate: string, leaveTime: int) returns (reply: Reply)
      requires Valid()
      modifies this`entries, table
      ensures Valid()
      ensures reply == LeaveReply(old(entries), hourlyRate, plate, leaveTime)
      ensures entries == LeaveEntries(old(entries), plate, leaveTime)
    {
      hide Represents, FeeFor, PlateChar;
      var valid := IsValidPlate(plate);
      if !valid || leaveTime <= 0 || leaveTime > DAY {
        return Invalid;
      }
      var i := Find(plate);
      if i == table.Length {
        return NotFound;
      }
      if leaveTime < table[i].arrivalTime {
        return Invalid;
      }
      var duration := leaveTime - table[i].arrivalTime;
      var hours := (duration + 3599) / 3600;
      var fee := hours as real * hourlyRate;
      var maxFee := hourlyRate * 10.0;
      if fee > maxFee {
        fee := maxFee;
      }
      FeeIs(hours, duration, hourlyRate, fee);
      SlotFreed(table[..], entries, i);
      table[i] := Record("", 0, false);
      entries := entries - {plate};
      return Fee(fee);
    }

    method Show() returns (reply: Reply)
      requires Valid()
      ensures reply.Listing? && IsShown(entries, reply.records)
    {
      hide Represents, IsShown, Occupants, Asked;
      OccupantsNone();
      var copy := new Record[table.Length](_ => Record("", 0, false));
      var count := 0;
      for i := 0 to table.Length
        invariant count <= i && copy[..count] == Occupants(table[..i])
      {
        OccupantsNext(table[..i + 1], i);
        assert table[..i + 1][..i] == table[..i];
        if table[i].occupied {
          copy[count] := table[i];
          count := count + 1;
        }
      }
      assert table[..table.Length] == table[..];
      Sort(copy, count, (r: Record) => r.arrivalTime);
      ShownIs(table[..], entries, copy[..count]);
      return Listing(copy[..count]);
    }
  }

  lemma SlotTaken(s: seq<Record>, m: map<string, int>, i: nat, plate: string, arrival: int)
    requires Represents(s, m) && i < |s| && !s[i].occupied && plate !in m
    ensures Represents(s[i := Record(plate, arrival, true)], m[plate := arrival])
  {
    var s' := s[i := Record(plate, arrival, true)];
    forall p | p in m[plate := arrival]
      ensures InSlot(s', p)
    {
      if p == plate {
        assert s'[i].plate == p;
      } else {
        assert InSlot(s, p);
        var k :| 0 <= k < |s| && s[k].occupied && s[k].plate == p;
        assert s'[k] == s[k];
      }
    }
  }

  lemma SlotFreed(s: seq<Record>, m: map<string, int>, i: nat)
    requires Represents(s, m) && i < |s| && s[i].occupied
    ensures Represents(s[i := Record("", 0, false)], m - {s[i].plate})
  {
    var s' := s[i := Record("", 0, false)];
    forall p | p in m - {s[i].plate}
      ensures InSlot(s', p)
    {
      assert InSlot(s, p);
      var k :| 0 <= k < |s| && s[k].occupied && s[k].plate == p;
      assert s'[k] == s[k];
    }
  }

  /** Rounding up and capping the fee at ten hours' worth is charging for the hours begun, ten at most. */
  lemma FeeIs(hours: int, duration: nat, rate: real, fee: real)
    requires rate > 0.0 && hours == (duration + 3599) / 3600
    requires fee == if hours as real * rate > rate * 10.0 then rate * 10.0 else hours as real * rate
    ensures fee == FeeFor(rate, duration)
  {
    assert hours == HoursBegun(duration);
    if hours < 10 {
      assert (10.0 - hours as real) * rate > 0.0;
    } else {
      assert (hours as real - 10.0) * rate >= 0.0;
    }
  }

  lemma ShownIs(s: seq<Record>, m: map<string, int>, records: seq<Record>)
    requires Represents(s, m) && multiset(records) == multiset(Occupants(s))
             && SortedBy(records, (r: Record) => r.arrivalTime)
    ensures IsShown(m, records)
  {
    var all := Occupants(s);
    SizeIsOccupancy(s, m);
    assert |multiset(records)| == |multiset(all)|;
    forall k | 0 <= k < |records|
      ensures records[k].plate in m && m[records[k].plate] == records[k].arrivalTime
    {
      assert records[k] in multiset(records);
      assert records[k] in all;
      OccupantsAre(s, records[k]);
    }
    forall p | p in m
      ensures InSlot(records, p)
    {
      assert InSlot(s, p);
      var k :| 0 <= k < |s| && s[k].occupied && s[k].plate == p;
      OccupantsAre(s, s[k]);
      assert s[k] in multiset(all);
      assert s[k] in records;
    }
  }
}
