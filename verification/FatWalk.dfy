/** The walk of exercises/ex18/floppyDir.c on any image, cut off after a number of clusters: it ends
    without failing if and only if the image encodes a finite tree. */
module FatWalk {
  import opened Common
  import opened Fat12

  /** What is printed for one entry and all below it; None if the walk fails or takes more than fuel
      clusters in a row, one below the other. */
  function EntryLines(data: seq<byte>, e: Raw, depth: nat, fuel: nat): Option<seq<Line>>
    decreases fuel, 1
  {
    if Skipped(e) then Some([])
    else if !IsDirectory(e) then Some([FileLine(depth, FullName(e), Size(e))])
    else if StartCluster(e) < 2 then Some([DirLine(depth, FullName(e))])
    else
      var below := ChainLines(data, StartCluster(e), depth + 1, fuel);
      if below.None? then None else Some([DirLine(depth, FullName(e))] + below.value)
  }

  /** What is printed for the entries from number i of the sector at pos, and whether the directory ends there. */
  function SectorLines(data: seq<byte>, pos: nat, i: nat, depth: nat, fuel: nat): Option<(seq<Line>, bool)>
    requires i <= PER_SECTOR
    decreases fuel, 2, PER_SECTOR - i
  {
    if i == PER_SECTOR then Some(([], false))
    else if !EntryPresent(data, pos + i * DSIZE) then Some(([], true))
    else
      var first := EntryLines(data, EntryAt(data, pos + i * DSIZE), depth, fuel);
      var rest := SectorLines(data, pos, i + 1, depth, fuel);
      if first.None? || rest.None? then None else Some((first.value + rest.value.0, rest.value.1))
  }

  /** What is printed for a directory from a cluster on. */
  function ChainLines(data: seq<byte>, cluster: nat, depth: nat, fuel: nat): Option<seq<Line>>
    decreases fuel, 0
  {
    if Ends(cluster) then Some([])
    else if fuel == 0 then None
    else
      var sector := SectorLines(data, ClusterOffset(cluster), 0, depth, fuel - 1);
      if sector.None? then None
      else if sector.value.1 then Some(sector.value.0)
      else
        var next := FatEntry(data, cluster);
        if next.None? then None
        else
          var rest := ChainLines(data, next.value, depth, fuel - 1);
          if rest.None? then None else Some(sector.value.0 + rest.value)
  }

  /** What is printed for the root directory from sector number i on. */
  function RootLines(data: seq<byte>, i: nat, fuel: nat): Option<seq<Line>>
    requires i <= SECTORS
    decreases SECTORS - i
  {
    if i == SECTORS then Some([])
    else
      var sector := SectorLines(data, BYTE_OFFSET + i * SSIZE, 0, 0, fuel);
      if sector.None? then None
      else if sector.value.1 then Some(sector.value.0)
      else
        var rest := RootLines(data, i + 1, fuel);
        if rest.None? then None else Some(sector.value.0 + rest.value)
  }

  lemma {:induction false} ListingJoin(a: seq<Item>, b: seq<Item>, depth: nat)
    ensures Listing(a + b, depth) == Listing(a, depth) + Listing(b, depth)
    decreases |b|
  {
    hide Listing;
    if b == [] {
      assert a + b == a && b == b[..0];
      ListingNone(b, depth);
    } else {
      var n := |b| - 1;
      ListingJoin(a, b[..n], depth);
      ListingStep(b, n, depth);
      ListingStep(a + b, |a| + n, depth);
      assert (a + b)[..|a| + n + 1] == a + b && (a + b)[..|a| + n] == a + b[..n] && b[..n + 1] == b;
    }
  }

  lemma ListingOne(item: Item, depth: nat)
    ensures Listing([item], depth) == ItemListing(item, depth)
  {
    assert Listing([item][..0], depth) == [];
  }

  // ----- a walk that ends has met a tree -----

  /** These items lie in the sector at pos from entry i on, and end says whether they are the last. */
  ghost predicate InSector(data: seq<byte>, pos: nat, i: nat, items: seq<Item>, end: bool)
  {
    && i + |items| <= PER_SECTOR
    && (forall n | 0 <= n < |items| :: Matches(data, pos + (i + n) * DSIZE, items[n]) && StoredBelow(data, items[n]))
    && (if end then i + |items| < PER_SECTOR && !EntryPresent(data, pos + (i + |items|) * DSIZE)
        else i + |items| == PER_SECTOR)
  }

  lemma {:induction false} EntryFound(data: seq<byte>, e: Raw, depth: nat, fuel: nat) returns (item: Item)
    requires EntryLines(data, e, depth, fuel).Some?
    ensures Describes(e, item) && StoredBelow(data, item)
    ensures EntryLines(data, e, depth, fuel).value == ItemListing(item, depth)
    decreases fuel, 1
  {
    hide Skipped, IsDirectory, FullName, Size, StartCluster, Chained;
    if Skipped(e) {
      item := Hidden;
    } else if !IsDirectory(e) {
      item := File(FullName(e), Size(e));
    } else if StartCluster(e) < 2 {
      item := Folder(FullName(e), StartCluster(e), Directory([], []));
    } else {
      var dir := ChainFound(data, StartCluster(e), depth + 1, fuel);
      item := Folder(FullName(e), StartCluster(e), dir);
    }
  }

  lemma {:induction false} SectorFound(data: seq<byte>, pos: nat, i: nat, depth: nat, fuel: nat)
    returns (items: seq<Item>)
    requires i <= PER_SECTOR && SectorLines(data, pos, i, depth, fuel).Some?
    ensures var (lines, end) := SectorLines(data, pos, i, depth, fuel).value;
      InSector(data, pos, i, items, end) && lines == Listing(items, depth)
    decreases fuel, 2, PER_SECTOR - i
  {
    hide Describes, StoredBelow, EntryLines;
    items := [];
    if i < PER_SECTOR && EntryPresent(data, pos + i * DSIZE) {
      var first := EntryFound(data, EntryAt(data, pos + i * DSIZE), depth, fuel);
      var rest := SectorFound(data, pos, i + 1, depth, fuel);
      items := [first] + rest;
      SectorGrows(data, pos, i, first, rest, SectorLines(data, pos, i, depth, fuel).value.1);
      ListingOne(first, depth);
      ListingJoin([first], rest, depth);
    }
  }

  lemma SectorGrows(data: seq<byte>, pos: nat, i: nat, first: Item, rest: seq<Item>, end: bool)
    requires InSector(data, pos, i + 1, rest, end)
    requires Matches(data, pos + i * DSIZE, first) && StoredBelow(data, first)
    ensures InSector(data, pos, i, [first] + rest, end)
  {
    hide Matches, StoredBelow, EntryPresent;
    var items := [first] + rest;
    forall n | 0 <= n < |items|
      ensures Matches(data, pos + (i + n) * DSIZE, items[n]) && StoredBelow(data, items[n])
    {
      if n > 0 { assert items[n] == rest[n - 1] && (i + n) == (i + 1) + (n - 1); }
    }
    assert i + |items| == (i + 1) + |rest|;
  }

  /** A directory that ends in its first cluster. */
  lemma OneCluster(data: seq<byte>, cluster: nat, items: seq<Item>)
    requires !Ends(cluster) && InSector(data, ClusterOffset(cluster), 0, items, true)
    ensures Stored(data, cluster, Directory([cluster], items))
  {
    hide Matches, StoredBelow, EntryPresent;
    var chain := [cluster];
    forall n: nat | n < PER_SECTOR
      ensures ItemPos(chain, n) == ClusterOffset(cluster) + (0 + n) * DSIZE
    {
      ItemPosInSector(chain, 0, n);
    }
  }

  /** A full cluster before a directory. */
  lemma MoreClusters(data: seq<byte>, cluster: nat, items: seq<Item>, next: nat, dir: Directory)
    requires !Ends(cluster) && InSector(data, ClusterOffset(cluster), 0, items, false)
    requires FatEntry(data, cluster) == Some(next) && Stored(data, next, dir)
    ensures Stored(data, cluster, Directory([cluster] + dir.chain, items + dir.items))
  {
    hide Matches, StoredBelow, EntryPresent;
    var (chain, all) := ([cluster] + dir.chain, items + dir.items);
    MoreChained(data, cluster, next, dir.chain);
    forall n: nat | n < PER_SECTOR * |chain|
      ensures ItemPos(chain, n) == if n < PER_SECTOR then ClusterOffset(cluster) + (0 + n) * DSIZE
                                   else ItemPos(dir.chain, n - PER_SECTOR)
    {
      ShiftedPos(cluster, dir.chain, n);
    }
    forall n | 0 <= n < |all|
      ensures Matches(data, ItemPos(chain, n), all[n]) && StoredBelow(data, all[n])
    {
      if n >= PER_SECTOR { assert all[n] == dir.items[n - PER_SECTOR]; }
    }
  }

  lemma MoreChained(data: seq<byte>, cluster: nat, next: nat, chain: seq<nat>)
    requires !Ends(cluster) && FatEntry(data, cluster) == Some(next) && Chained(data, next, chain)
    ensures Chained(data, cluster, [cluster] + chain)
  {
    var all := [cluster] + chain;
    forall i, j | 0 <= i < j < |all| && j <= i + 1
      ensures FatEntry(data, all[i]) == Some(all[j])
    {
      if i > 0 { assert FatEntry(data, chain[i - 1]) == Some(chain[j - 1]); }
    }
  }

  lemma ShiftedPos(cluster: nat, chain: seq<nat>, n: nat)
    requires cluster >= 2 && (forall c | c in chain :: c >= 2) && n < PER_SECTOR * (|chain| + 1)
    ensures var all := [cluster] + chain;
      && (forall c | c in all :: c >= 2)
      && ItemPos(all, n) == if n < PER_SECTOR then ClusterOffset(cluster) + (0 + n) * DSIZE
                            else ItemPos(chain, n - PER_SECTOR)
  {
    var all := [cluster] + chain;
    if n < PER_SECTOR {
      ItemPosInSector(all, 0, n);
    } else {
      var c := n / PER_SECTOR - 1;
      assert all[c + 1] == chain[c];
      ItemPosInSector(all, c + 1, n);
      ItemPosInSector(chain, c, n - PER_SECTOR);
    }
  }

  lemma {:induction false} ChainFound(data: seq<byte>, cluster: nat, depth: nat, fuel: nat) returns (dir: Directory)
    requires ChainLines(data, cluster, depth, fuel).Some?
    ensures Stored(data, cluster, dir) && ChainLines(data, cluster, depth, fuel).value == Listing(dir.items, depth)
    decreases fuel, 0
  {
    hide SectorLines, Stored, InSector;
    if Ends(cluster) {
      dir := Directory([], []);
      NoCluster(data, cluster);
    } else {
      var items := SectorFound(data, ClusterOffset(cluster), 0, depth, fuel - 1);
      var (lines, end) := SectorLines(data, ClusterOffset(cluster), 0, depth, fuel - 1).value;
      if end {
        dir := Directory([cluster], items);
        OneCluster(data, cluster, items);
      } else {
        var next := FatEntry(data, cluster).value;
        var rest := ChainFound(data, next, depth, fuel - 1);
        dir := Directory([cluster] + rest.chain, items + rest.items);
        MoreClusters(data, cluster, items, next, rest);
        ListingJoin(items, rest.items, depth);
      }
    }
  }

  lemma NoCluster(data: seq<byte>, cluster: nat)
    requires Ends(cluster)
    ensures Stored(data, cluster, Directory([], []))
  {
  }

  /** These items lie in the root directory from sector number i on. */
  ghost predicate InRoot(data: seq<byte>, i: nat, items: seq<Item>)
  {
    && i * PER_SECTOR + |items| <= SECTORS * PER_SECTOR
    && (i * PER_SECTOR + |items| < SECTORS * PER_SECTOR ==>
          !EntryPresent(data, BYTE_OFFSET + (i * PER_SECTOR + |items|) * DSIZE))
    && forall n | 0 <= n < |items| ::
         Matches(data, BYTE_OFFSET + (i * PER_SECTOR + n) * DSIZE, items[n]) && StoredBelow(data, items[n])
  }

  lemma RootEnds(data: seq<byte>, i: nat, items: seq<Item>)
    requires i < SECTORS && InSector(data, BYTE_OFFSET + i * SSIZE, 0, items, true)
    ensures InRoot(data, i, items)
  {
    hide Matches, StoredBelow, EntryPresent;
    forall n | 0 <= n < |items|
      ensures Matches(data, BYTE_OFFSET + (i * PER_SECTOR + n) * DSIZE, items[n])
    {
      assert BYTE_OFFSET + i * SSIZE + (0 + n) * DSIZE == BYTE_OFFSET + (i * PER_SECTOR + n) * DSIZE;
    }
  }

  lemma RootGoesOn(data: seq<byte>, i: nat, items: seq<Item>, rest: seq<Item>)
    requires i < SECTORS && InSector(data, BYTE_OFFSET + i * SSIZE, 0, items, false) && InRoot(data, i + 1, rest)
    ensures InRoot(data, i, items + rest)
  {
    hide Matches, StoredBelow, EntryPresent;
    var all := items + rest;
    forall n | 0 <= n < |all|
      ensures Matches(data, BYTE_OFFSET + (i * PER_SECTOR + n) * DSIZE, all[n]) && StoredBelow(data, all[n])
    {
      if n < PER_SECTOR {
        assert BYTE_OFFSET + i * SSIZE + (0 + n) * DSIZE == BYTE_OFFSET + (i * PER_SECTOR + n) * DSIZE;
      } else {
        assert all[n] == rest[n - PER_SECTOR];
        assert i * PER_SECTOR + n == (i + 1) * PER_SECTOR + (n - PER_SECTOR);
      }
    }
    assert i * PER_SECTOR + |all| == (i + 1) * PER_SECTOR + |rest|;
  }

  lemma {:induction false} RootFound(data: seq<byte>, i: nat, fuel: nat) returns (items: seq<Item>)
    requires i <= SECTORS && RootLines(data, i, fuel).Some?
    ensures InRoot(data, i, items) && RootLines(data, i, fuel).value == Listing(items, 0)
    decreases SECTORS - i
  {
    hide SectorLines, InSector, Matches, StoredBelow, EntryPresent;
    items := [];
    if i < SECTORS {
      items := SectorFound(data, BYTE_OFFSET + i * SSIZE, 0, 0, fuel);
      if SectorLines(data, BYTE_OFFSET + i * SSIZE, 0, 0, fuel).value.1 {
        RootEnds(data, i, items);
      } else {
        var rest := RootFound(data, i + 1, fuel);
        RootGoesOn(data, i, items, rest);
        ListingJoin(items, rest, 0);
        items := items + rest;
      }
    }
  }

  // ----- a walk of a tree ends -----

  lemma {:induction false} EntryMore(data: seq<byte>, e: Raw, depth: nat, fuel: nat, more: nat)
    requires fuel <= more && EntryLines(data, e, depth, fuel).Some?
    ensures EntryLines(data, e, depth, more) == EntryLines(data, e, depth, fuel)
    decreases fuel, 1
  {
    if !Skipped(e) && IsDirectory(e) && StartCluster(e) >= 2 {
      ChainMore(data, StartCluster(e), depth + 1, fuel, more);
    }
  }

  lemma {:induction false} SectorMore(data: seq<byte>, pos: nat, i: nat, depth: nat, fuel: nat, more: nat)
    requires i <= PER_SECTOR && fuel <= more && SectorLines(data, pos, i, depth, fuel).Some?
    ensures SectorLines(data, pos, i, depth, more) == SectorLines(data, pos, i, depth, fuel)
    decreases fuel, 2, PER_SECTOR - i
  {
    if i < PER_SECTOR && EntryPresent(data, pos + i * DSIZE) {
      EntryMore(data, EntryAt(data, pos + i * DSIZE), depth, fuel, more);
      SectorMore(data, pos, i + 1, depth, fuel, more);
    }
  }

  /** More fuel changes nothing about a walk that ends. */
  lemma {:induction false} ChainMore(data: seq<byte>, cluster: nat, depth: nat, fuel: nat, more: nat)
    requires fuel <= more && ChainLines(data, cluster, depth, fuel).Some?
    ensures ChainLines(data, cluster, depth, more) == ChainLines(data, cluster, depth, fuel)
    decreases fuel, 0
  {
    if !Ends(cluster) {
      SectorMore(data, ClusterOffset(cluster), 0, depth, fuel - 1, more - 1);
      var next := FatEntry(data, cluster);
      if !SectorLines(data, ClusterOffset(cluster), 0, depth, fuel - 1).value.1 {
        ChainMore(data, next.value, depth, fuel - 1, more - 1);
      }
    }
  }

  function Max(a: nat, b: nat): nat { if a < b then b else a }

  lemma {:induction false} EntryEnds(data: seq<byte>, e: Raw, item: Item, depth: nat) returns (fuel: nat)
    requires Describes(e, item) && StoredBelow(data, item)
    ensures EntryLines(data, e, depth, fuel) == Some(ItemListing(item, depth))
    decreases item, 0
  {
    hide Skipped, IsDirectory, FullName, Size, StartCluster, Stored, ChainLines;
    fuel := 0;
    if item.Folder? {
      if item.start >= 2 {
        StoredStart(data, item.start, item.dir);
        fuel := ChainEnds(data, item.start, item.dir, 0, item.start, depth + 1);
        assert item.dir.items[0 * PER_SECTOR..] == item.dir.items;
      } else {
        assert [DirLine(depth, item.name)] + Listing([], depth + 1) == [DirLine(depth, item.name)];
      }
    }
  }

  lemma StoredStart(data: seq<byte>, start: nat, dir: Directory)
    requires Stored(data, start, dir)
    ensures if dir.chain != [] then start == dir.chain[0] else Ends(start)
  {
  }

  /** Up to where the sector that holds item number from and following reaches. */
  function Upto(items: seq<Item>, from: nat): nat
  {
    if |items| < from + PER_SECTOR then |items| else from + PER_SECTOR
  }

  lemma {:induction false} SectorEnds(data: seq<byte>, pos: nat, i: nat, items: seq<Item>, from: nat, depth: nat)
    returns (fuel: nat)
    requires i <= PER_SECTOR && from + i <= |items|
    requires forall n | from <= n < |items| && n < from + PER_SECTOR ::
               Matches(data, pos + (n - from) * DSIZE, items[n]) && StoredBelow(data, items[n])
    requires |items| < from + PER_SECTOR ==> !EntryPresent(data, pos + (|items| - from) * DSIZE)
    ensures SectorLines(data, pos, i, depth, fuel) ==
            Some((Listing(items[from + i..Upto(items, from)], depth), |items| < from + PER_SECTOR))
    decreases items, 0, PER_SECTOR - i
  {
    hide Describes, StoredBelow, Listing, ItemListing, EntryLines;
    ghost var upto := Upto(items, from);
    if from + i == upto {
      fuel := 0;
      assert items[from + i..upto] == [][..0];
      ListingNone([], depth);
    } else {
      var n := from + i;
      assert Matches(data, pos + (n - from) * DSIZE, items[n]);
      var e := EntryAt(data, pos + i * DSIZE);
      var first := EntryEnds(data, e, items[n], depth);
      var rest := SectorEnds(data, pos, i + 1, items, from, depth);
      fuel := Max(first, rest);
      EntryMore(data, e, depth, first, fuel);
      SectorMore(data, pos, i + 1, depth, rest, fuel);
      ListingOne(items[n], depth);
      ListingJoin([items[n]], items[n + 1..upto], depth);
      assert items[n..upto] == [items[n]] + items[n + 1..upto];
    }
  }

  lemma {:induction false} ChainEnds(data: seq<byte>, start: nat, dir: Directory, c: nat, cluster: nat, depth: nat)
    returns (fuel: nat)
    requires Stored(data, start, dir) && c <= |dir.chain| && c * PER_SECTOR <= |dir.items|
    requires if c < |dir.chain| then cluster == dir.chain[c] else Ends(cluster)
    ensures ChainLines(data, cluster, depth, fuel) == Some(Listing(dir.items[c * PER_SECTOR..], depth))
    decreases dir, 1, |dir.chain| - c
  {
    hide Matches, StoredBelow, EntryPresent, Listing, SectorLines, FatEntry;
    var (items, from) := (dir.items, c * PER_SECTOR);
    if c == |dir.chain| {
      fuel := 0;
      assert items[from..] == [][..0];
      ListingNone([], depth);
    } else {
      SectorStored(data, start, dir, c);
      assert dir.chain[c] in dir.chain;
      var upto := Upto(items, from);
      var sector := SectorEnds(data, ClusterOffset(cluster), 0, items, from, depth);
      if |items| < from + PER_SECTOR {
        fuel := sector + 1;
        assert items[from..upto] == items[from..];
      } else {
        var next := FatEntry(data, cluster).value;
        var rest := ChainEnds(data, start, dir, c + 1, next, depth);
        fuel := Max(sector, rest) + 1;
        SectorMore(data, ClusterOffset(cluster), 0, depth, sector, fuel - 1);
        ChainMore(data, next, depth, rest, fuel - 1);
        ListingJoin(items[from..upto], items[upto..], depth);
        assert items[from..] == items[from..upto] + items[upto..];
      }
    }
  }

  lemma {:induction false} RootWalkEnds(data: seq<byte>, items: seq<Item>, i: nat) returns (fuel: nat)
    requires StoredRoot(data, items) && i <= SECTORS && i * PER_SECTOR <= |items|
    ensures RootLines(data, i, fuel) == Some(Listing(items[i * PER_SECTOR..], 0))
    decreases SECTORS - i
  {
    hide Matches, StoredBelow, EntryPresent, Listing, SectorLines;
    var from := i * PER_SECTOR;
    if i == SECTORS {
      fuel := 0;
      assert items[from..] == [][..0];
      ListingNone([], 0);
    } else {
      RootSector(data, items, i);
      var (pos, upto) := (BYTE_OFFSET + i * SSIZE, Upto(items, from));
      var sector := SectorEnds(data, pos, 0, items, from, 0);
      if |items| < from + PER_SECTOR {
        fuel := sector;
        assert items[from..upto] == items[from..];
      } else {
        var rest := RootWalkEnds(data, items, i + 1);
        fuel := Max(sector, rest);
        SectorMore(data, pos, 0, 0, sector, fuel);
        RootMore(data, i + 1, rest, fuel);
        ListingJoin(items[from..upto], items[upto..], 0);
        assert items[from..] == items[from..upto] + items[upto..];
      }
    }
  }

  lemma {:induction false} RootMore(data: seq<byte>, i: nat, fuel: nat, more: nat)
    requires i <= SECTORS && fuel <= more && RootLines(data, i, fuel).Some?
    ensures RootLines(data, i, more) == RootLines(data, i, fuel)
    decreases SECTORS - i
  {
    hide SectorLines;
    if i < SECTORS {
      SectorMore(data, BYTE_OFFSET + i * SSIZE, 0, 0, fuel, more);
      if !SectorLines(data, BYTE_OFFSET + i * SSIZE, 0, 0, fuel).value.1 {
        RootMore(data, i + 1, fuel, more);
      }
    }
  }

  // ----- both directions -----

  /** The walk of the whole image ends after a finite number of clusters, without failing. */
  ghost predicate WalkEnds(data: seq<byte>)
  {
    exists fuel: nat :: RootLines(data, 0, fuel).Some?
  }

  ghost predicate HoldsTree(data: seq<byte>)
  {
    exists items :: StoredRoot(data, items)
  }

  /** The walk of an image ends without failing if and only if the image encodes a finite tree. */
  lemma EndsIffTree(data: seq<byte>)
    ensures WalkEnds(data) <==> HoldsTree(data)
  {
    hide StoredRoot;
    if WalkEnds(data) {
      var fuel: nat :| RootLines(data, 0, fuel).Some?;
      var items := PrintsTree(data, fuel);
    }
    if HoldsTree(data) {
      var items :| StoredRoot(data, items);
      var fuel := TreePrinted(data, items);
    }
  }

  /** Whatever a walk that ends has printed is the listing of the tree that the image encodes. */
  lemma PrintsTree(data: seq<byte>, fuel: nat) returns (items: seq<Item>)
    requires RootLines(data, 0, fuel).Some?
    ensures StoredRoot(data, items) && RootLines(data, 0, fuel).value == Listing(items, 0)
  {
    items := RootFound(data, 0, fuel);
  }

  lemma TreePrinted(data: seq<byte>, items: seq<Item>) returns (fuel: nat)
    requires StoredRoot(data, items)
    ensures RootLines(data, 0, fuel) == Some(Listing(items, 0))
  {
    fuel := RootWalkEnds(data, items, 0);
    assert items[0 * PER_SECTOR..] == items;
  }
}
