/** The on-disk layout that exercises/ex18/floppyDir.c reads: 12-bit FAT entries packed two to
    three bytes, 32-byte directory entries, and directories stored along chains of clusters. */
module Fat12 {
  import opened Common

  const SSIZE: nat := 512
  const FAT_START: nat := 512
  const DSIZE: nat := 32
  const SECTORS: nat := 14
  const PER_SECTOR: nat := 16            // SSIZE / DSIZE
  const BYTE_OFFSET: nat := 9728         // (1 + NUM_FATS * SECTORS_PER_FAT) * SSIZE, the root directory
  const DATA_START: nat := 16896         // BYTE_OFFSET + SECTORS * SSIZE
  const BAD_SECTOR: nat := 0xFF7
  const EOC_MARKER_START: nat := 0xFF8

  // ----- the FAT -----

  /** Entry idx of the FAT, None if its three bytes are not in the file. */
  function FatEntry(data: seq<byte>, idx: nat): Option<nat>
  {
    var at := FAT_START + idx / 2 * 3;
    if at + 3 > |data| then None
    else
      var b0: int, b1: int, b2: int := data[at], data[at + 1], data[at + 2];
      var pair := b0 + 256 * b1 + 65536 * b2;
      Some(if idx % 2 == 1 then pair / 4096 else pair % 4096)
  }

  type Entry12 = n: nat | n < 4096

  /** FAT12 packing: two entries to three bytes, low nibbles first; a lone last entry is paired with 0. */
  function Pack(entries: seq<Entry12>): (bytes: seq<byte>)
    ensures |bytes| == (|entries| + 1) / 2 * 3
    decreases |entries|
  {
    if entries == [] then []
    else
      var a := entries[0];
      var b := if |entries| > 1 then entries[1] else 0;
      [a % 256, a / 256 + 16 * (b % 16), b / 16] + Pack(if |entries| > 1 then entries[2..] else [])
  }

  lemma PackTail(entries: seq<Entry12>)
    requires |entries| >= 2
    ensures |Pack(entries)| == 3 + |Pack(entries[2..])|
    ensures forall k | 0 <= k < |Pack(entries[2..])| :: Pack(entries)[3 + k] == Pack(entries[2..])[k]
  {
  }

  lemma PackHead(entries: seq<Entry12>)
    requires entries != []
    ensures |Pack(entries)| >= 3 && Pack(entries)[0] == entries[0] % 256
    ensures var b: nat := if |entries| > 1 then entries[1] else 0;
      Pack(entries)[1] == entries[0] / 256 + 16 * (b % 16) && Pack(entries)[2] == b / 16
  {
  }

  /** The three bytes of pair number p. */
  lemma {:induction false} PackedPair(entries: seq<Entry12>, p: nat)
    requires 2 * p < |entries|
    ensures 3 * p + 2 < |Pack(entries)| && Pack(entries)[3 * p] == entries[2 * p] % 256
    ensures var b: nat := if 2 * p + 1 < |entries| then entries[2 * p + 1] else 0;
      Pack(entries)[3 * p + 1] == entries[2 * p] / 256 + 16 * (b % 16) && Pack(entries)[3 * p + 2] == b / 16
  {
    hide Pack;
    if p == 0 {
      PackHead(entries);
    } else {
      PackTail(entries);
      PackedPair(entries[2..], p - 1);
      assert Pack(entries)[3 + (3 * p - 3)] == Pack(entries[2..])[3 * p - 3];
      assert Pack(entries)[3 + (3 * p - 2)] == Pack(entries[2..])[3 * p - 2];
      assert Pack(entries)[3 + (3 * p - 1)] == Pack(entries[2..])[3 * p - 1];
    }
  }

  lemma Unpack(a: Entry12, b: Entry12)
    ensures var pair := a % 256 + 256 * (a / 256 + 16 * (b % 16)) + 65536 * (b / 16);
      pair % 4096 == a && pair / 4096 == b
  {
    var pair := a % 256 + 256 * (a / 256 + 16 * (b % 16)) + 65536 * (b / 16);
    assert a == 256 * (a / 256) + a % 256 && b == 16 * (b / 16) + b % 16;
    assert pair == 4096 * b + a;
  }

  /** getFat12 undoes the packing, for entries of either parity. */
  lemma FatRoundTrip(data: seq<byte>, entries: seq<Entry12>, idx: nat)
    requires idx < |entries|
    requires FAT_START + |Pack(entries)| <= |data| && data[FAT_START..FAT_START + |Pack(entries)|] == Pack(entries)
    ensures FatEntry(data, idx) == Some(entries[idx])
  {
    hide Pack;
    var p := idx / 2;
    PackedPair(entries, p);
    var fat := data[FAT_START..FAT_START + |Pack(entries)|];
    assert forall k | 0 <= k < |fat| :: fat[k] == data[FAT_START + k];
    Unpack(entries[2 * p], if 2 * p + 1 < |entries| then entries[2 * p + 1] else 0);
  }

  // ----- one directory entry -----

  type Raw = e: seq<byte> | |e| == DSIZE witness seq(DSIZE, _ => 0)

  predicate HasBit(b: byte, bit: nat)
    requires bit > 0
  {
    b / bit % 2 == 1
  }

  /** Deleted entries, volume labels, parts of long names, and the dot entries. */
  predicate Skipped(e: Raw)
  {
    e[0] == 0xE5 || HasBit(e[11], 0x08) || e[11] == 0x0F || e[0] == '.' as int
  }

  predicate IsDirectory(e: Raw) { HasBit(e[11], 0x10) }

  function StartCluster(e: Raw): nat
  {
    var low: int, high: int := e[26], e[27];
    low + 256 * high
  }

  /** The file size as a signed 32-bit int. */
  function Size(e: Raw): int
  {
    var b0: int, b1: int, b2: int, b3: int := e[28], e[29], e[30], e[31];
    var size := b0 + 0x100 * b1 + 0x10000 * b2 + 0x1000000 * b3;
    if size < 0x80000000 then size else size - 0x100000000
  }

  const SPACE: byte := 32
  const NUL: byte := 0

  function Trimmed(b: seq<byte>): (s: seq<byte>)
    ensures |s| <= |b| && s == b[..|s|] && (s != [] ==> s[|s| - 1] != SPACE)
    ensures forall i | |s| <= i < |b| :: b[i] == SPACE
  {
    if b == [] || b[|b| - 1] != SPACE then b else Trimmed(b[..|b| - 1])
  }

  lemma TrimOne(raw: seq<byte>, j: nat)
    requires j < |raw|
    ensures Trimmed(raw[..j + 1]) == if raw[j] == SPACE then Trimmed(raw[..j]) else raw[..j + 1]
  {
    assert raw[..j + 1][..j] == raw[..j];
  }

  /** A name or extension field as it is printed: a field with a NUL inside is never trimmed. */
  function Field(raw: seq<byte>): seq<byte>
  {
    if 0 in raw then CString(raw, NUL) else Trimmed(raw)
  }

  /** Any name without NUL that does not end in a space comes back from its padded field. */
  lemma FieldRoundTrip(name: seq<byte>, width: nat)
    requires |name| <= width && 0 !in name && (name != [] ==> name[|name| - 1] != SPACE)
    ensures Field(name + seq(width - |name|, _ => SPACE)) == name
  {
    var raw := name + seq(width - |name|, _ => SPACE);
    var s := Trimmed(raw);
    assert 0 !in raw;
    assert s != [] ==> raw[|s| - 1] != SPACE;
    assert name != [] ==> raw[|name| - 1] != SPACE;
    assert |s| == |name|;
  }

  /** A field ends at a NUL, whatever follows, and is then not trimmed. */
  lemma FieldStopsAtNul(name: seq<byte>, tail: seq<byte>)
    requires 0 !in name
    ensures Field(name + [NUL] + tail) == name
  {
    var raw := name + [NUL] + tail;
    assert raw[|name|] == 0 && raw[..|name|] == name;
    CStringIs(raw, NUL, |name|);
  }

  function FullName(e: Raw): seq<byte>
  {
    var name, ext := Field(e[..8]), Field(e[8..11]);
    if ext == [] then name else name + ['.' as int] + ext
  }

  // ----- entries laid out byte by byte -----

  /** The attributes of an entry, one to a bit. */
  datatype Attributes = Attributes(
    readOnly: bool, hidden: bool, system: bool, volume: bool,
    directory: bool, archive: bool, device: bool, unused: bool)

  function Bit(b: bool): nat { if b then 1 else 0 }

  function AttributeByte(a: Attributes): byte
  {
    Bit(a.readOnly) + 2 * Bit(a.hidden) + 4 * Bit(a.system) + 8 * Bit(a.volume)
    + 16 * Bit(a.directory) + 32 * Bit(a.archive) + 64 * Bit(a.device) + 128 * Bit(a.unused)
  }

  /** A name or extension field, filled up with blanks. */
  function Blanks(text: seq<byte>, width: nat): (field: seq<byte>)
    requires |text| <= width
    ensures |field| == width
  {
    text + seq(width - |text|, _ => SPACE)
  }

  /** 2 bytes, low byte first. */
  function TwoBytes(v: nat): seq<byte>
    requires v < 0x10000
  {
    [v % 0x100, v / 0x100]
  }

  /** 4 bytes, low byte first. */
  function FourBytes(v: nat): seq<byte>
    requires v < 0x1_0000_0000
  {
    TwoBytes(v % 0x10000) + TwoBytes(v / 0x10000)
  }

  /** What an entry is to say; times are the 14 bytes that the walk does not read. */
  datatype Fields = Fields(
    name: seq<byte>, ext: seq<byte>, attributes: Attributes, times: seq<byte>, start: nat, size: int)

  predicate Text(t: seq<byte>, width: nat)
  {
    |t| <= width && 0 !in t && (t != [] ==> t[|t| - 1] != SPACE)
  }

  predicate Proper(f: Fields)
  {
    && Text(f.name, 8) && Text(f.ext, 3) && |f.times| == 14
    && f.start < 0x10000 && -0x80000000 <= f.size < 0x80000000
  }

  /** The entry as the standard lays it out: name, extension, attributes, times, start cluster, size. */
  function Entry(f: Fields): (e: seq<byte>)
    requires Proper(f)
    ensures |e| == DSIZE
  {
    Blanks(f.name, 8) + Blanks(f.ext, 3) + [AttributeByte(f.attributes)] + f.times
    + TwoBytes(f.start) + FourBytes(if f.size < 0 then f.size + 0x1_0000_0000 else f.size)
  }

  /** Where the parts of an entry lie. */
  lemma EntryParts(f: Fields)
    requires Proper(f)
    ensures var e := Entry(f);
      && e[..8] == Blanks(f.name, 8) && e[8..11] == Blanks(f.ext, 3) && e[11] == AttributeByte(f.attributes)
      && e[26] == f.start % 0x100 && e[27] == f.start / 0x100
      && (var u := if f.size < 0 then f.size + 0x1_0000_0000 else f.size;
          && e[28] == u % 0x10000 % 0x100 && e[29] == u % 0x10000 / 0x100
          && e[30] == u / 0x10000 % 0x100 && e[31] == u / 0x10000 / 0x100)
  {
    hide Blanks, AttributeByte;
  }

  lemma NumbersReadBack(f: Fields)
    requires Proper(f)
    ensures StartCluster(Entry(f)) == f.start && Size(Entry(f)) == f.size
  {
    hide Entry;
    EntryParts(f);
  }

  lemma AttributesReadBack(a: Attributes)
    ensures HasBit(AttributeByte(a), 0x08) <==> a.volume
    ensures HasBit(AttributeByte(a), 0x10) <==> a.directory
    ensures AttributeByte(a) == 0x0F ==> a.volume
  {
  }

  /** An entry laid out in this way reads back: where it starts, how long it is, what it is called, whether
      it is a directory, and whether it is passed over. */
  lemma EntryRoundTrip(f: Fields)
    requires Proper(f)
    ensures var e := Entry(f);
      && StartCluster(e) == f.start && Size(e) == f.size
      && FullName(e) == f.name + (if f.ext == [] then [] else ['.' as int] + f.ext)
      && (IsDirectory(e) <==> f.attributes.directory)
      && (Skipped(e) <==> f.attributes.volume || (f.name != [] && (f.name[0] == 0xE5 || f.name[0] == '.' as int)))
  {
    hide Entry, Size, StartCluster, AttributeByte, Field, Blanks;
    EntryParts(f);
    NumbersReadBack(f);
    AttributesReadBack(f.attributes);
    BlanksReadBack(f.name, 8);
    BlanksReadBack(f.ext, 3);
    assert Entry(f)[0] == Entry(f)[..8][0];
  }

  lemma BlanksReadBack(text: seq<byte>, width: nat)
    requires Text(text, width) && width > 0
    ensures Field(Blanks(text, width)) == text
    ensures Blanks(text, width)[0] == if text == [] then SPACE else text[0]
  {
    FieldRoundTrip(text, width);
  }

  /** An image that holds the entry of a file, of a folder or of neither, at pos, has that item there. */
  lemma EntryMatches(data: seq<byte>, pos: nat, f: Fields, dir: Directory)
    requires Proper(f) && pos + DSIZE <= |data| && data[pos..pos + DSIZE] == Entry(f)
    requires f.name != [] && f.name[0] != 0xE5 && f.name[0] != '.' as int
    ensures var shown := f.name + (if f.ext == [] then [] else ['.' as int] + f.ext);
      Matches(data, pos, if f.attributes.volume then Hidden
                         else if f.attributes.directory then Folder(shown, f.start, dir)
                         else File(shown, f.size))
  {
    hide Entry, Skipped, IsDirectory, FullName, Size, StartCluster;
    EntryRoundTrip(f);
    EntryFirst(f);
    assert data[pos] == data[pos..pos + DSIZE][0];
  }

  /** A deleted entry is there and passed over; a zero in its place, or the end of the file, is no entry. */
  lemma MarkedEntries(data: seq<byte>, pos: nat, item: Item)
    ensures pos + DSIZE <= |data| && data[pos] == 0xE5 ==> Matches(data, pos, Hidden)
    ensures pos + DSIZE > |data| || data[pos] == 0 ==> !EntryPresent(data, pos) && !Matches(data, pos, item)
  {
  }

  lemma EntryFirst(f: Fields)
    requires Proper(f) && f.name != []
    ensures Entry(f)[0] == f.name[0] != 0
  {
  }

  // ----- directory trees -----

  /** An entry that is not listed, a file, or a subdirectory with where it starts and what it holds. */
  datatype Item =
    | Hidden
    | File(name: seq<byte>, size: int)
    | Folder(name: seq<byte>, start: nat, dir: Directory)

  /** The clusters a directory is read from, in order, and the entries in them. */
  datatype Directory = Directory(chain: seq<nat>, items: seq<Item>)

  /** A FAT value or start cluster that leads nowhere. */
  predicate Ends(cluster: nat)
  {
    cluster >= EOC_MARKER_START || cluster < 2 || cluster == BAD_SECTOR
  }

  function ClusterOffset(cluster: nat): nat
    requires cluster >= 2
  {
    DATA_START + (cluster - 2) * SSIZE
  }

  predicate EntryPresent(data: seq<byte>, pos: nat)
  {
    pos + DSIZE <= |data| && data[pos] != 0x00
  }

  function EntryAt(data: seq<byte>, pos: nat): Raw
    requires pos + DSIZE <= |data|
  {
    data[pos..pos + DSIZE]
  }

  /** These 32 bytes are an entry for item. */
  predicate Describes(e: Raw, item: Item)
  {
    match item
    case Hidden => Skipped(e)
    case File(name, size) => !Skipped(e) && !IsDirectory(e) && FullName(e) == name && Size(e) == size
    case Folder(name, start, _) => !Skipped(e) && IsDirectory(e) && FullName(e) == name && StartCluster(e) == start
  }

  /** The bytes at pos are an entry for item. */
  predicate Matches(data: seq<byte>, pos: nat, item: Item)
  {
    EntryPresent(data, pos) && Describes(EntryAt(data, pos), item)
  }

  /** Where entry number n of a directory along this chain lies. */
  function ItemPos(chain: seq<nat>, n: nat): nat
    requires n < PER_SECTOR * |chain| && forall c | c in chain :: c >= 2
  {
    assert chain[n / PER_SECTOR] in chain;
    ClusterOffset(chain[n / PER_SECTOR]) + n % PER_SECTOR * DSIZE
  }

  /** The FAT leads from start along exactly these clusters, all of them real. */
  ghost predicate Chained(data: seq<byte>, start: nat, chain: seq<nat>)
  {
    && (chain == [] ==> Ends(start)) && (chain != [] ==> chain[0] == start)
    && (forall c | c in chain :: !Ends(c))
    && (forall i, j | 0 <= i < j < |chain| && j <= i + 1 :: FatEntry(data, chain[i]) == Some(chain[j]))
  }

  /** The clusters hold exactly n entries: they are all full and the chain ends, or a 0x00 entry or
      the end of the file comes right behind the last one. */
  ghost predicate EndsAfter(data: seq<byte>, chain: seq<nat>, n: nat)
    requires forall c | c in chain :: c >= 2
  {
    if n < PER_SECTOR * |chain| then PER_SECTOR * (|chain| - 1) <= n && !EntryPresent(data, ItemPos(chain, n))
    else n == PER_SECTOR * |chain| &&
         (chain != [] ==> var next := FatEntry(data, chain[|chain| - 1]); next.Some? && Ends(next.value))
  }

  /** The image holds this directory, and everything below it, from cluster start on. */
  ghost predicate Stored(data: seq<byte>, start: nat, dir: Directory)
    decreases dir
  {
    && Chained(data, start, dir.chain)
    && |dir.items| <= PER_SECTOR * |dir.chain|
    && EndsAfter(data, dir.chain, |dir.items|)
    && forall n | 0 <= n < |dir.items| ::
         Matches(data, ItemPos(dir.chain, n), dir.items[n]) && StoredBelow(data, dir.items[n])
  }

  ghost predicate StoredBelow(data: seq<byte>, item: Item)
    decreases item
  {
    item.Folder? ==>
      if item.start >= 2 then Stored(data, item.start, item.dir) else item.dir == Directory([], [])
  }

  /** What lies below a folder is what is stored from its start cluster on, nothing if that leads nowhere. */
  lemma BelowIsStored(data: seq<byte>, name: seq<byte>, start: nat, dir: Directory)
    ensures StoredBelow(data, Folder(name, start, dir)) <==> Stored(data, start, dir)
    ensures Ends(start) ==> (Stored(data, start, dir) <==> dir == Directory([], []))
  {
    hide Matches, FatEntry;
    if Ends(start) && dir.chain != [] { assert dir.chain[0] in dir.chain; }
  }

  /** The image holds these items in its root directory, 14 sectors in a row. */
  ghost predicate StoredRoot(data: seq<byte>, items: seq<Item>)
  {
    && |items| <= PER_SECTOR * SECTORS
    && (|items| < PER_SECTOR * SECTORS ==> !EntryPresent(data, BYTE_OFFSET + |items| * DSIZE))
    && forall n | 0 <= n < |items| :: Matches(data, BYTE_OFFSET + n * DSIZE, items[n]) && StoredBelow(data, items[n])
  }

  lemma ItemPosInSector(chain: seq<nat>, c: nat, n: nat)
    requires c < |chain| && (forall x | x in chain :: x >= 2) && c * PER_SECTOR <= n < (c + 1) * PER_SECTOR
    ensures chain[c] >= 2 && ItemPos(chain, n) == ClusterOffset(chain[c]) + (n - c * PER_SECTOR) * DSIZE
  {
    assert chain[c] in chain;
    assert n / PER_SECTOR == c && n % PER_SECTOR == n - c * PER_SECTOR;
  }

  /** What the sector of cluster number c holds, and where the walk goes after it. */
  lemma SectorStored(data: seq<byte>, start: nat, dir: Directory, c: nat)
    requires Stored(data, start, dir) && c < |dir.chain| && c * PER_SECTOR <= |dir.items|
    ensures dir.chain[c] >= 2
    ensures forall n | c * PER_SECTOR <= n < |dir.items| && n < c * PER_SECTOR + PER_SECTOR ::
              Matches(data, ClusterOffset(dir.chain[c]) + (n - c * PER_SECTOR) * DSIZE, dir.items[n])
              && StoredBelow(data, dir.items[n])
    ensures |dir.items| < c * PER_SECTOR + PER_SECTOR ==>
              !EntryPresent(data, ClusterOffset(dir.chain[c]) + (|dir.items| - c * PER_SECTOR) * DSIZE)
    ensures |dir.items| >= c * PER_SECTOR + PER_SECTOR ==>
              var next := FatEntry(data, dir.chain[c]);
              next.Some? && if c + 1 < |dir.chain| then next.value == dir.chain[c + 1] else Ends(next.value)
  {
    hide Matches, StoredBelow, EntryPresent, ItemPos;
    var chain := dir.chain;
    assert chain[c] in chain && forall x | x in chain :: x >= 2;
    forall n | c * PER_SECTOR <= n < |dir.items| && n < c * PER_SECTOR + PER_SECTOR
      ensures Matches(data, ClusterOffset(chain[c]) + (n - c * PER_SECTOR) * DSIZE, dir.items[n])
              && StoredBelow(data, dir.items[n])
    {
      ItemPosInSector(chain, c, n);
    }
    if |dir.items| < c * PER_SECTOR + PER_SECTOR {
      ItemPosInSector(chain, c, |dir.items|);
    } else if c + 1 < |chain| {
      assert FatEntry(data, chain[c]) == Some(chain[c + 1]);
    } else {
      assert |dir.items| == PER_SECTOR * |chain| && chain != [];
    }
  }

  // ----- the listing -----

  datatype Line = DirLine(depth: nat, name: seq<byte>) | FileLine(depth: nat, name: seq<byte>, size: int)

  /** The preorder listing of a directory's items. */
  function Listing(items: seq<Item>, depth: nat): seq<Line>
    decreases items
  {
    if items == [] then [] else Listing(items[..|items| - 1], depth) + ItemListing(items[|items| - 1], depth)
  }

  function ItemListing(item: Item, depth: nat): seq<Line>
    decreases item
  {
    match item
    case Hidden => []
    case File(name, size) => [FileLine(depth, name, size)]
    case Folder(name, _, dir) => [DirLine(depth, name)] + Listing(dir.items, depth + 1)
  }

  lemma ListingStep(items: seq<Item>, n: nat, depth: nat)
    requires n < |items|
    ensures Listing(items[..n + 1], depth) == Listing(items[..n], depth) + ItemListing(items[n], depth)
  {
    assert items[..n + 1][..n] == items[..n];
  }

  lemma ListingNone(items: seq<Item>, depth: nat)
    ensures Listing(items[..0], depth) == []
  {
  }

  /** What sector number i of the root directory holds. */
  lemma RootSector(data: seq<byte>, items: seq<Item>, i: nat)
    requires StoredRoot(data, items) && i < SECTORS && i * PER_SECTOR <= |items|
    ensures forall n | i * PER_SECTOR <= n < |items| && n < i * PER_SECTOR + PER_SECTOR ::
              Matches(data, BYTE_OFFSET + i * SSIZE + (n - i * PER_SECTOR) * DSIZE, items[n])
              && StoredBelow(data, items[n])
    ensures |items| < i * PER_SECTOR + PER_SECTOR ==>
              !EntryPresent(data, BYTE_OFFSET + i * SSIZE + (|items| - i * PER_SECTOR) * DSIZE)
  {
    hide Matches, StoredBelow, EntryPresent;
    forall n | i * PER_SECTOR <= n < |items| && n < i * PER_SECTOR + PER_SECTOR
      ensures Matches(data, BYTE_OFFSET + i * SSIZE + (n - i * PER_SECTOR) * DSIZE, items[n])
              && StoredBelow(data, items[n])
    {
      assert BYTE_OFFSET + i * SSIZE + (n - i * PER_SECTOR) * DSIZE == BYTE_OFFSET + n * DSIZE;
    }
    assert BYTE_OFFSET + i * SSIZE + (|items| - i * PER_SECTOR) * DSIZE == BYTE_OFFSET + |items| * DSIZE;
  }

  // ----- an image holds at most one directory at a place, and its chains have no loops -----

  lemma {:induction false} ChainsAgree(data: seq<byte>, start: nat, a: seq<nat>, b: seq<nat>, i: nat)
    requires Chained(data, start, a) && Chained(data, start, b) && i < |a| && i < |b|
    ensures a[i] == b[i]
  {
    if i > 0 {
      ChainsAgree(data, start, a, b, i - 1);
      assert FatEntry(data, a[i - 1]) == Some(a[i]) && FatEntry(data, b[i - 1]) == Some(b[i]);
    }
  }

  lemma StoredChain(data: seq<byte>, start: nat, dir: Directory)
    requires Stored(data, start, dir)
    ensures Chained(data, start, dir.chain) && (forall c | c in dir.chain :: c >= 2)
    ensures |dir.items| <= PER_SECTOR * |dir.chain| && EndsAfter(data, dir.chain, |dir.items|)
    ensures forall n | 0 <= n < |dir.items| :: EntryPresent(data, ItemPos(dir.chain, n))
  {
  }

  /** A stored directory is not a shorter reading of another one from the same start. */
  lemma NotShorter(data: seq<byte>, start: nat, a: Directory, b: Directory)
    requires Stored(data, start, a) && Stored(data, start, b)
    ensures |a.chain| >= |b.chain|
  {
    StoredChain(data, start, a);
    StoredChain(data, start, b);
    hide Stored, EntryPresent, ItemPos, ClusterOffset;
    var n := |a.chain|;
    if n < |b.chain| && n > 0 {
      ChainsAgree(data, start, a.chain, b.chain, n - 1);
      assert FatEntry(data, b.chain[n - 1]) == Some(b.chain[n]) && b.chain[n] in b.chain;
      SamePlaces(data, start, a, b, |a.items|);
    }
  }

  /** Entries of the same number lie at the same place. */
  lemma SamePlaces(data: seq<byte>, start: nat, a: Directory, b: Directory, n: nat)
    requires Stored(data, start, a) && Stored(data, start, b)
    ensures n < PER_SECTOR * |a.chain| && n < PER_SECTOR * |b.chain| ==>
              (forall c | c in a.chain :: c >= 2) && (forall c | c in b.chain :: c >= 2)
              && ItemPos(a.chain, n) == ItemPos(b.chain, n)
  {
    StoredChain(data, start, a);
    StoredChain(data, start, b);
    hide Stored, EntryPresent;
    if n < PER_SECTOR * |a.chain| && n < PER_SECTOR * |b.chain| {
      ChainsAgree(data, start, a.chain, b.chain, n / PER_SECTOR);
    }
  }

  lemma SameCount(data: seq<byte>, start: nat, a: Directory, b: Directory)
    requires Stored(data, start, a) && Stored(data, start, b) && |a.chain| == |b.chain|
    ensures |a.items| == |b.items|
  {
    StoredChain(data, start, a);
    StoredChain(data, start, b);
    SamePlaces(data, start, a, b, |a.items|);
    SamePlaces(data, start, a, b, |b.items|);
    hide Stored, EntryPresent, ItemPos, Chained;
  }

  /** What the image holds from a cluster on is one directory only. */
  lemma {:induction false} StoredUnique(data: seq<byte>, start: nat, a: Directory, b: Directory)
    requires Stored(data, start, a) && Stored(data, start, b)
    ensures a == b
    decreases a
  {
    NotShorter(data, start, a, b);
    NotShorter(data, start, b, a);
    SameCount(data, start, a, b);
    forall i | 0 <= i < |a.chain|
      ensures a.chain[i] == b.chain[i]
    {
      ChainsAgree(data, start, a.chain, b.chain, i);
    }
    forall n | 0 <= n < |a.items|
      ensures a.items[n] == b.items[n]
    {
      SamePlaces(data, start, a, b, n);
      ItemUnique(data, ItemPos(a.chain, n), a.items[n], b.items[n]);
    }
  }

  lemma ItemUnique(data: seq<byte>, pos: nat, a: Item, b: Item)
    requires Matches(data, pos, a) && Matches(data, pos, b) && StoredBelow(data, a) && StoredBelow(data, b)
    ensures a == b
    decreases a
  {
    if a.Folder? && a.start >= 2 {
      StoredUnique(data, a.start, a.dir, b.dir);
    }
  }

  /** Two equal clusters of a chain would be followed by equal clusters for ever. */
  lemma {:induction false} LoopReachesEnd(data: seq<byte>, start: nat, chain: seq<nat>, i: nat, j: nat)
    requires Chained(data, start, chain) && i < j < |chain| && chain[i] == chain[j]
    ensures chain[i + (|chain| - 1 - j)] == chain[|chain| - 1]
    decreases |chain| - j
  {
    if j + 1 < |chain| {
      assert FatEntry(data, chain[i]) == Some(chain[i + 1]) && FatEntry(data, chain[j]) == Some(chain[j + 1]);
      LoopReachesEnd(data, start, chain, i + 1, j + 1);
    }
  }

  /** The chain of a stored directory visits no cluster twice. */
  lemma ChainHasNoLoop(data: seq<byte>, start: nat, dir: Directory, i: nat, j: nat)
    requires Stored(data, start, dir) && i < j < |dir.chain|
    ensures dir.chain[i] != dir.chain[j]
  {
    StoredChain(data, start, dir);
    hide Stored, EntryPresent;
    var chain := dir.chain;
    if chain[i] == chain[j] {
      LoopReachesEnd(data, start, chain, i, j);
      LastIsNew(data, start, dir, i + (|chain| - 1 - j));
    }
  }

  lemma LastIsNew(data: seq<byte>, start: nat, dir: Directory, i: nat)
    requires Stored(data, start, dir) && i < |dir.chain| - 1
    ensures dir.chain[i] != dir.chain[|dir.chain| - 1]
  {
    StoredChain(data, start, dir);
    hide Stored, EntryPresent;
    var chain, n := dir.chain, |dir.items|;
    assert FatEntry(data, chain[i]) == Some(chain[i + 1]) && chain[i + 1] in chain;
    if n < PER_SECTOR * |chain| {
      assert n / PER_SECTOR == |chain| - 1;
      var n' := PER_SECTOR * i + n % PER_SECTOR;
      assert n' / PER_SECTOR == i && n' % PER_SECTOR == n % PER_SECTOR;
      assert EntryPresent(data, ItemPos(chain, n')) && !EntryPresent(data, ItemPos(chain, n));
    }
  }

  /** The root directory, and with it the listing, is determined by the image. */
  lemma RootUnique(data: seq<byte>, a: seq<Item>, b: seq<Item>)
    requires StoredRoot(data, a) && StoredRoot(data, b)
    ensures a == b
  {
    hide EntryPresent, StoredBelow, Describes;
    assert |a| < |b| ==> Matches(data, BYTE_OFFSET + |a| * DSIZE, b[|a|]);
    assert |b| < |a| ==> Matches(data, BYTE_OFFSET + |b| * DSIZE, a[|b|]);
    forall n | 0 <= n < |a|
      ensures a[n] == b[n]
    {
      ItemUnique(data, BYTE_OFFSET + n * DSIZE, a[n], b[n]);
    }
  }

  // ----- where things lie on the disk -----

  const NUM_FATS: nat := 2
  const SECTORS_PER_FAT: nat := 9
  const RESERVED: nat := 1

  /** The number of sectors before the root directory, and before the first cluster, which is number 2. */
  function RootSectorNumber(): nat { RESERVED + NUM_FATS * SECTORS_PER_FAT }

  function FirstClusterSector(): nat { RootSectorNumber() + SECTORS }

  /** The root directory follows the boot sector and the FATs, the clusters follow the root directory, one
      sector each, and a sector holds 16 entries. */
  lemma Places(i: nat, c: nat)
    requires c >= 2
    ensures FAT_START == SSIZE * RESERVED
    ensures BYTE_OFFSET + i * SSIZE == SSIZE * (RootSectorNumber() + i)
    ensures ClusterOffset(c) == SSIZE * (FirstClusterSector() + (c - 2))
    ensures PER_SECTOR * DSIZE == SSIZE
  {
  }

  /** Of the values a FAT can hold exactly 2 to 0xFF6 lead on. */
  lemma LeadsOn(v: Entry12)
    ensures !Ends(v) <==> 2 <= v <= 0xFF6
  {
  }

  // ----- the listing by depth -----

  /** The line of an item itself. */
  function OwnLine(item: Item, depth: nat): seq<Line>
  {
    match item
    case Hidden => []
    case File(name, size) => [FileLine(depth, name, size)]
    case Folder(name, _, _) => [DirLine(depth, name)]
  }

  function OwnLines(items: seq<Item>, depth: nat): seq<Line>
  {
    if items == [] then [] else OwnLines(items[..|items| - 1], depth) + OwnLine(items[|items| - 1], depth)
  }

  function AtDepth(lines: seq<Line>, depth: nat): seq<Line>
  {
    if lines == [] then []
    else AtDepth(lines[..|lines| - 1], depth) + if lines[|lines| - 1].depth == depth then [lines[|lines| - 1]] else []
  }

  /** A line is at most one deeper than the one before it, and that only behind a directory. */
  predicate MayFollow(x: Line, y: Line)
  {
    y.depth <= x.depth || (x.DirLine? && y.depth == x.depth + 1)
  }

  /** The lines start at this depth, and go down one step at a time. */
  ghost predicate Nested(lines: seq<Line>, depth: nat)
  {
    && (forall i | 0 <= i < |lines| :: lines[i].depth >= depth)
    && (lines != [] ==> lines[0].depth == depth)
    && (forall i, j | 0 <= i < j < |lines| && j <= i + 1 :: MayFollow(lines[i], lines[j]))
  }

  lemma {:induction false} AtDepthJoin(a: seq<Line>, b: seq<Line>, depth: nat)
    ensures AtDepth(a + b, depth) == AtDepth(a, depth) + AtDepth(b, depth)
  {
    if b == [] {
      assert a + b == a;
    } else {
      var n := |b| - 1;
      AtDepthJoin(a, b[..n], depth);
      assert (a + b)[..|a + b| - 1] == a + b[..n];
    }
  }

  lemma {:induction false} NoneAtDepth(lines: seq<Line>, depth: nat)
    requires forall i | 0 <= i < |lines| :: lines[i].depth > depth
    ensures AtDepth(lines, depth) == []
  {
    if lines != [] { NoneAtDepth(lines[..|lines| - 1], depth); }
  }

  lemma NestedJoin(a: seq<Line>, b: seq<Line>, depth: nat)
    requires Nested(a, depth) && Nested(b, depth)
    ensures Nested(a + b, depth)
  {
    hide MayFollow;
    var all := a + b;
    forall i, j | 0 <= i < j < |all| && j <= i + 1
      ensures MayFollow(all[i], all[j])
    {
      if j < |a| {
        assert MayFollow(a[i], a[j]);
      } else if i >= |a| {
        assert MayFollow(b[i - |a|], b[j - |a|]);
      } else {
        NotDeeper(a[i], b[0]);
      }
    }
  }

  lemma NotDeeper(x: Line, y: Line)
    requires y.depth <= x.depth
    ensures MayFollow(x, y)
  {
  }

  lemma NestedBelow(name: seq<byte>, lines: seq<Line>, depth: nat)
    requires Nested(lines, depth + 1)
    ensures Nested([DirLine(depth, name)] + lines, depth)
  {
    var all := [DirLine(depth, name)] + lines;
    forall i, j | 0 <= i < j < |all| && j <= i + 1
      ensures MayFollow(all[i], all[j])
    {
      if i > 0 { assert MayFollow(lines[i - 1], lines[j - 1]); }
    }
  }

  /** A listing at a depth has at that depth exactly the lines of the items themselves, in their order;
      everything else is deeper, one step below a directory at a time. */
  lemma {:induction false} ListingNests(items: seq<Item>, depth: nat)
    ensures Nested(Listing(items, depth), depth) && AtDepth(Listing(items, depth), depth) == OwnLines(items, depth)
    decreases items
  {
    hide Nested;
    if items == [] {
      assert Nested([], depth) by { NestedNone(depth); }
    } else {
      var n := |items| - 1;
      ListingNests(items[..n], depth);
      ItemNests(items[n], depth);
      NestedJoin(Listing(items[..n], depth), ItemListing(items[n], depth), depth);
      AtDepthJoin(Listing(items[..n], depth), ItemListing(items[n], depth), depth);
    }
  }

  lemma NestedNone(depth: nat)
    ensures Nested([], depth)
  {
  }

  lemma {:induction false} ItemNests(item: Item, depth: nat)
    ensures Nested(ItemListing(item, depth), depth) && AtDepth(ItemListing(item, depth), depth) == OwnLine(item, depth)
    decreases item
  {
    match item
    case Hidden =>
    case File(name, size) =>
      assert [FileLine(depth, name, size)][..0] == [];
    case Folder(name, _, dir) =>
      var below := Listing(dir.items, depth + 1);
      ListingNests(dir.items, depth + 1);
      NestedBelow(name, below, depth);
      NoneAtDepth(below, depth);
      AtDepthJoin([DirLine(depth, name)], below, depth);
      assert [DirLine(depth, name)][..0] == [];
  }
}
