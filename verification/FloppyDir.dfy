/** exercises/ex18/floppyDir.c: the recursive walk over a disk image with one shared file position. */
module FloppyDir {
  import opened Common
  import opened Fat12

  class Image {
    /** The image file. */
    const data: seq<byte>
    /** The file position all calls share. */
    var pos: nat
    /** The lines printed so far. */
    var output: seq<Line>

    constructor (image: seq<byte>)
      ensures data == image && pos == 0 && output == []
    {
      data, pos, output := image, 0, [];
    }

    method Seek(offset: nat)
      modifies this`pos
      ensures pos == offset
    {
      pos := offset;
    }

    /** fread: up to n bytes from the position on, which moves behind them. */
    method Read(n: nat) returns (bytes: seq<byte>)
      requires n > 0
      modifies this`pos
      ensures if old(pos) + n <= |data| then bytes == data[old(pos)..old(pos) + n] && pos == old(pos) + n
              else |bytes| < n
    {
      if pos >= |data| {
        return [];
      }
      var end := if pos + n <= |data| then pos + n else |data|;
      bytes := data[pos..end];
      pos := end;
    }

    /** None stands for the call of fail. */
    method GetFat12(idx: nat) returns (entry: Option<nat>)
      modifies this`pos
      ensures entry == FatEntry(data, idx)
    {
      var offset := idx / 2 * 3;
      Seek(FAT_START + offset);
      var bytes := Read(3);
      if |bytes| != 3 {
        return None;
      }
      var b0: int, b1: int, b2: int := bytes[0], bytes[1], bytes[2];
      var pair := b0 + 256 * b1 + 65536 * b2;
      if idx % 2 == 1 {
        return Some(pair / 4096);
      } else {
        return Some(pair % 4096);
      }
    }

    /** Blanks out trailing spaces with NULs. */
    method BlankOut(field: seq<byte>) returns (name: seq<byte>)
      requires 0 !in field
      ensures |name| == |field| && CString(name, NUL) == Trimmed(field)
    {
      hide CString, Trimmed;
      name := field;
      var j := |name| - 1;
      assert field[..|field|] == field;
      while j >= 0 && name[j] == SPACE
        invariant -1 <= j < |field| && |name| == |field|
        invariant forall k | 0 <= k < |field| :: name[k] == if k <= j then field[k] else 0
        invariant Trimmed(field) == Trimmed(field[..j + 1])
      {
        TrimOne(field, j);
        name := name[j := 0];
        j := j - 1;
      }
      assert name[..j + 1] == field[..j + 1];
      CStringIs(name, NUL, j + 1);
      if j >= 0 {
        TrimOne(field, j);
      } else {
        TrimNone(field[..0]);
      }
    }

    lemma TrimNone(b: seq<byte>)
      requires b == []
      ensures Trimmed(b) == b
    {
    }

    /** Copies a field the way strncpy does, then blanks out its trailing spaces. */
    method CopyField(raw: seq<byte>) returns (name: seq<byte>)
      ensures name == Field(raw)
    {
      var text := CString(raw, NUL);
      assert |text| == |raw| ==> text == raw;
      hide CString, Trimmed;
      if |text| == |raw| {
        var buffer := BlankOut(text);
        name := CString(buffer, NUL);
      } else {
        var buffer := text + seq(|raw| - |text|, _ => NUL);   // the last byte is a NUL, so no space is blanked out
        assert buffer[..|text|] == text;
        CStringIs(buffer, NUL, |text|);
        name := CString(buffer, NUL);
      }
    }

    method NameOf(entry: Raw) returns (fullName: seq<byte>)
      ensures fullName == FullName(entry)
    {
      var name := CopyField(entry[..8]);
      var ext := CopyField(entry[8..11]);
      if ext != [] {
        fullName := name + ['.' as int] + ext;
      } else {
        fullName := name;
      }
    }

    /** Prints one entry and what lies below it; the position comes back to where it was. */
    method ReportEntry(depth: nat, entry: Raw, ghost item: Item)
      requires Describes(entry, item) && StoredBelow(data, item)
      modifies this`pos, this`output
      ensures pos == old(pos) && output == old(output) + ItemListing(item, depth)
      decreases item, 0
    {
      hide FullName, Size, StartCluster, Skipped, IsDirectory;
      if Skipped(entry) {
        return;
      }
      var fullName := NameOf(entry);
      var startCluster := StartCluster(entry);
      var size := Size(entry);
      if IsDirectory(entry) {
        output := output + [DirLine(depth, fullName)];
        var nextEntryPos := pos;
        if startCluster >= 2 {
          ReportDirectory(depth + 1, startCluster, item.dir);
          Seek(nextEntryPos);
        }
      } else {
        output := output + [FileLine(depth, fullName, size)];
      }
    }

    /** The inner loop of both branches: up to 16 entries from the position on, items number `from`
        and following. True if the directory ended here. */
    method ReportSector(depth: nat, ghost items: seq<Item>, ghost from: nat, ghost printed: seq<Line>)
      returns (end: bool)
      requires from <= |items| && output == printed + Listing(items[..from], depth)
      requires forall n | from <= n < |items| && n < from + PER_SECTOR ::
                 Matches(data, pos + (n - from) * DSIZE, items[n]) && StoredBelow(data, items[n])
      requires |items| < from + PER_SECTOR ==> !EntryPresent(data, pos + (|items| - from) * DSIZE)
      modifies this`pos, this`output
      ensures end <==> |items| < from + PER_SECTOR
      ensures output == printed + Listing(items[..if end then |items| else from + PER_SECTOR], depth)
      decreases items, 0
    {
      hide Describes, StoredBelow, Listing, ItemListing;
      ghost var at := pos;
      var i := 0;
      while i < PER_SECTOR
        invariant 0 <= i <= PER_SECTOR && from + i <= |items| && pos == at + i * DSIZE
        invariant output == printed + Listing(items[..from + i], depth)
      {
        ghost var n := from + i;
        if n < |items| {
          assert Matches(data, at + (n - from) * DSIZE, items[n]);
        }
        var entry := Read(DSIZE);
        if |entry| != DSIZE {
          return true;
        }
        if entry[0] == 0x00 {
          return true;
        }
        ListingStep(items, n, depth);
        ReportEntry(depth, entry, items[n]);
        i := i + 1;
      }
      end := false;
    }

    /** Lists the directory that starts at cluster sec, or the root directory if sec is negative. */
    method ReportDirectory(depth: nat, sec: int, ghost dir: Directory)
      requires if sec < 0 then StoredRoot(data, dir.items)
               else if sec < 2 then dir.items == [] else Stored(data, sec, dir)
      modifies this`pos, this`output
      ensures output == old(output) + Listing(dir.items, depth)
      decreases dir, 2
    {
      if sec < 0 {
        ReportRoot(depth, dir);
      } else if sec >= 2 {
        ReportChain(depth, sec, dir);
      }
    }

    method ReportRoot(depth: nat, ghost dir: Directory)
      requires StoredRoot(data, dir.items)
      modifies this`pos, this`output
      ensures output == old(output) + Listing(dir.items, depth)
      decreases dir, 1
    {
      hide Listing, Matches, StoredBelow, EntryPresent;
      ghost var items := dir.items;
      ghost var printed := output;
      assert items[..|items|] == items;
      ListingNone(items, depth);
      var sector_index := 0;
      while sector_index < SECTORS
        invariant 0 <= sector_index <= SECTORS && sector_index * PER_SECTOR <= |items|
        invariant output == printed + Listing(items[..sector_index * PER_SECTOR], depth)
      {
        Seek(BYTE_OFFSET + sector_index * SSIZE);
        RootSector(data, items, sector_index);
        var end := ReportSector(depth, items, sector_index * PER_SECTOR, printed);
        if end {
          break;
        }
        sector_index := sector_index + 1;
      }
    }

    method ReportChain(depth: nat, sec: nat, ghost dir: Directory)
      requires Stored(data, sec, dir) && sec >= 2
      modifies this`pos, this`output
      ensures output == old(output) + Listing(dir.items, depth)
      decreases dir, 1
    {
      hide Listing, Matches, StoredBelow, EntryPresent;
      ghost var items := dir.items;
      ghost var printed := output;
      assert items[..|items|] == items;
      ListingNone(items, depth);
      var currentCluster := sec;
      ghost var c := 0;
      while !Ends(currentCluster)
        invariant 0 <= c <= |dir.chain| && c * PER_SECTOR <= |items|
        invariant if c < |dir.chain| then currentCluster == dir.chain[c] else Ends(currentCluster)
        invariant output == printed + Listing(items[..c * PER_SECTOR], depth)
        decreases |dir.chain| - c
      {
        Seek(ClusterOffset(currentCluster));
        SectorStored(data, sec, dir, c);
        var end := ReportSector(depth, items, c * PER_SECTOR, printed);
        if end {
          return;
        }
        var next := GetFat12(currentCluster);
        assert next.Some?;   // fail is not reached
        currentCluster := next.value;
        c := c + 1;
      }
    }
  }

  const ROOT_DIR_START: int := -12

  /** main: whatever tree the image holds below its root directory is listed, and nothing else. */
  method ReportImage(image: seq<byte>, ghost items: seq<Item>) returns (lines: seq<Line>)
    requires StoredRoot(image, items)
    ensures lines == Listing(items, 0)
  {
    var file := new Image(image);
    file.ReportDirectory(0, ROOT_DIR_START, Directory([], items));
    lines := file.output;
  }
}
