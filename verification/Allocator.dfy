/** exercises/ex11/myMalloc.c on the bytes of the heap: malloc, free, calloc and realloc, with the
    sizes and the free list kept inside the memory that is handed out. */
module Allocator {
  import opened Common
  import opened Memory
  import opened Blocks
  import opened Layout
  import opened ArenaRuns
  import opened WordSizes

  class Heap {
    /** The bytes mapped so far, from BASE up. */
    var mem: seq<byte>
    /** Address of the first hole, or NULL. */
    var freeList: nat
    /** The address the next mmap is asked for. */
    var nextBlock: nat
    /** sysconf(_SC_PAGESIZE). */
    const page: nat

    /** What the bytes mean. */
    ghost var blocks: seq<Block>

    ghost predicate Valid()
      reads this
    {
      && PageSize(page)
      && Repr(mem, freeList, blocks) && NoAdjacentHoles(blocks)
      && nextBlock == BASE + |mem|
    }

    ghost function View(): Arena
      reads this
    {
      Arena(blocks, nextBlock)
    }

    constructor (pageSize: nat)
      requires PageSize(pageSize)
      ensures Valid() && View() == Arena([], BASE) && page == pageSize
    {
      mem, freeList, nextBlock, page := [], NULL, BASE, pageSize;
      blocks := [];
    }

    /** Unlinks and returns the first hole of at least size bytes; NULL if there is none. */
    method GetBlock(size: nat) returns (h: nat, ghost c: nat)
      requires Valid()
      modifies this`mem, this`freeList, this`blocks
      ensures Valid() && c == FirstFit(old(blocks), size, 0)
      ensures if c == |old(blocks)| then h == NULL && blocks == old(blocks)
              else h == old(blocks)[c].addr >= BASE && blocks == old(blocks)[c := old(blocks)[c].(free := false)]
      ensures Kept(old(mem), mem, Live(old(blocks))) && |mem| == |old(mem)|
    {
      hide Repr, Load, Store, NextHole, Kept, Live, Mapped;
      KeptRefl(mem, freeList, blocks);
      var pred := NULL;
      var curr := freeList;
      ghost var p: int := -1;
      c := HoleIndex(blocks, 0);
      FirstHole(mem, freeList, blocks);
      while curr != NULL
        invariant mem == old(mem) && freeList == old(freeList) && blocks == old(blocks)
        invariant 0 <= c <= |blocks| && LastHoleBefore(blocks, c, p)
        invariant curr == if c < |blocks| then blocks[c].addr else NULL
        invariant c < |blocks| ==> blocks[c].free
        invariant pred == if p < 0 then NULL else blocks[p].addr
        invariant forall j | 0 <= j < c :: !Fits(blocks[j], size)
        decreases |blocks| - c
      {
        ReadBlock(mem, freeList, blocks, c);
        if Load(mem, curr) >= size {
          if p >= 0 { ReadBlock(mem, freeList, blocks, p); }
          Unlinked(mem, freeList, blocks, c, p);
          if pred == NULL {
            freeList := Load(mem, curr + WORD);
          } else {
            mem := Store(mem, pred + WORD, Load(mem, curr + WORD));
          }
          blocks := blocks[c := blocks[c].(free := false)];
          FirstFitIs(old(blocks), size, 0, c);
          return curr, c;
        }
        pred := curr;
        curr := Load(mem, curr + WORD);
        p := c;
        c := HoleIndex(blocks, c + 1);
      }
      h := NULL;
      FirstFitIs(blocks, size, 0, c);
    }
  
    /** a->size += b->size + sizeof(size_t); a->next = b->next; where b is the hole behind a. */
    method Absorb(a: nat, b: nat, ghost i: nat)
      requires Repr(mem, freeList, blocks) && i + 1 < |blocks| && blocks[i].free && blocks[i + 1].free
      requires a == blocks[i].addr && b == blocks[i + 1].addr
      modifies this`mem, this`blocks
      ensures Repr(mem, freeList, blocks) && blocks == AbsorbNext(old(blocks), i)
      ensures Kept(old(mem), mem, Live(old(blocks))) && |mem| == |old(mem)|
    {
      hide Repr, Load, Store, NextHole, Kept, Live, AbsorbNext;
      ReadBlock(mem, freeList, blocks, i);
      ReadBlock(mem, freeList, blocks, i + 1);
      Absorbed(mem, freeList, blocks, i);
      AbsorbRead(mem, freeList, blocks, i);
      mem := Store(mem, a, Load(mem, a) + Load(mem, b) + WORD);
      mem := Store(mem, a + WORD, Load(mem, b + WORD));
      blocks := AbsorbNext(blocks, i);
    }

    /** The hole before address h, or NULL. */
    method Predecessor(h: nat, ghost i: nat) returns (pred: nat, ghost p: int)
      requires Valid() && i < |blocks| && !blocks[i].free && h == blocks[i].addr
      ensures LastHoleBefore(blocks, i, p) && pred == if p < 0 then NULL else blocks[p].addr
    {
      hide Repr, Tiles, Load, NextHole, Mapped;
      pred, p := NULL, -1;
      var node := freeList;
      ghost var c := HoleIndex(blocks, 0);
      FirstHole(mem, freeList, blocks);
      ReprTiles(mem, freeList, blocks);
      while node != NULL && node < h
        invariant 0 <= c <= |blocks| && LastHoleBefore(blocks, c, p) && p < i
        invariant node == if c < |blocks| then blocks[c].addr else NULL
        invariant c < |blocks| ==> blocks[c].free
        invariant pred == if p < 0 then NULL else blocks[p].addr
        decreases |blocks| - c
      {
        ReadBlock(mem, freeList, blocks, c);
        StopsBehind(blocks, i, c, BASE, BASE + |mem|);
        pred, p := node, c;
        node := Load(mem, node + WORD);
        c := HoleIndex(blocks, c + 1);
      }
      if c < |blocks| { StopsBehind(blocks, i, c, BASE, BASE + |mem|); }
    }

    /** Links block i, at h, into the free list behind pred. */
    method Link(h: nat, pred: nat, ghost i: nat, ghost p: int)
      requires Repr(mem, freeList, blocks) && i < |blocks| && !blocks[i].free && h == blocks[i].addr
      requires LastHoleBefore(blocks, i, p) && pred == if p < 0 then NULL else blocks[p].addr
      modifies this`mem, this`freeList, this`blocks
      ensures Repr(mem, freeList, blocks) && blocks == old(blocks)[i := old(blocks)[i].(free := true)]
      ensures Kept(old(mem), mem, Live(old(blocks)) - {old(blocks)[i]}) && |mem| == |old(mem)|
    {
      hide Repr, Load, Store, NextHole, Kept, Live;
      FirstHole(mem, freeList, blocks);
      PredecessorLink(mem, freeList, blocks, i, p);
      LinkedIn(mem, freeList, blocks, i, p);
      if pred != NULL {
        mem := Store(mem, h + WORD, Load(mem, pred + WORD));
        mem := Store(mem, pred + WORD, h);
      } else {
        mem := Store(mem, h + WORD, freeList);
        freeList := h;
      }
      blocks := blocks[i := blocks[i].(free := true)];
    }

    /** Hole i, at h, absorbs its successor if that is a hole too. */
    method MergeNext(h: nat, ghost i: nat)
      requires Repr(mem, freeList, blocks) && i < |blocks| && blocks[i].free && h == blocks[i].addr
      modifies this`mem, this`blocks
      ensures Repr(mem, freeList, blocks) && |mem| == |old(mem)|
      ensures blocks == if i + 1 < |old(blocks)| && old(blocks)[i + 1].free
                        then AbsorbNext(old(blocks), i) else old(blocks)
      ensures i < |blocks| && forall j | 0 <= j <= i ::
                blocks[j].free == old(blocks)[j].free && blocks[j].addr == old(blocks)[j].addr
      ensures Kept(old(mem), mem, Live(old(blocks))) && Live(blocks) == Live(old(blocks))
    {
      hide Repr, Tiles, Load, Store, NextHole, Kept, Live, Mapped, AbsorbNext;
      ReprTiles(mem, freeList, blocks);
      ReadBlock(mem, freeList, blocks, i);
      TouchesNextHole(blocks, i, BASE, BASE + |mem|);
      KeptRefl(mem, freeList, blocks);
      if Load(mem, h + WORD) != NULL && h + WORD + Load(mem, h) == Load(mem, h + WORD) {
        AbsorbNextKeeps(blocks, i, BASE, BASE + |mem|);
        AbsorbedBlock(blocks, i);
        Absorb(h, Load(mem, h + WORD), i);
      }
    }

    /** Hole i, at h, is absorbed by the hole p, at pred, if they touch. */
    method MergePrevious(h: nat, pred: nat, ghost i: nat, ghost p: int)
      requires Repr(mem, freeList, blocks) && i < |blocks| && blocks[i].free && h == blocks[i].addr
      requires LastHoleBefore(blocks, i, p) && pred == if p < 0 then NULL else blocks[p].addr
      modifies this`mem, this`blocks
      ensures Repr(mem, freeList, blocks) && |mem| == |old(mem)|
      ensures blocks == if i > 0 && old(blocks)[i - 1].free then AbsorbNext(old(blocks), i - 1) else old(blocks)
      ensures Kept(old(mem), mem, Live(old(blocks)))
    {
      hide Repr, Tiles, Load, Store, NextHole, Kept, Live, Mapped, AbsorbNext;
      FirstHole(mem, freeList, blocks);
      ReprTiles(mem, freeList, blocks);
      KeptRefl(mem, freeList, blocks);
      if pred != NULL {
        TouchesPredecessor(blocks, i, p, BASE, BASE + |mem|);
        ReadBlock(mem, freeList, blocks, p);
        if pred + WORD + Load(mem, pred) == h {
          Absorb(pred, h, p);
        }
      }
    }

    /** Puts block i, at h, back on the free list and merges it with the holes it touches. */
    method ReturnBlock(h: nat, ghost i: nat)
      requires Valid() && i < |blocks| && !blocks[i].free && h == blocks[i].addr
      modifies this`mem, this`freeList, this`blocks
      ensures Valid() && blocks == Release(old(blocks), i)
      ensures Kept(old(mem), mem, Live(old(blocks)) - {old(blocks)[i]}) && |mem| == |old(mem)|
    {
      hide Repr, Tiles, Load, Store, NextHole, Kept, Live, Mapped, AbsorbNext, NoAdjacentHoles;
      ReleaseSeparates(blocks, i);
      ghost var rest := Live(blocks) - {blocks[i]};
      ReprTiles(mem, freeList, blocks);
      FreeLive(blocks, i, BASE, BASE + |mem|);
      var pred, p := Predecessor(h, i);
      Link(h, pred, i, p);
      label linked:
      MergeNext(h, i);
      KeptTrans(old(mem), old@linked(mem), mem, rest, rest, rest);
      label merged:
      MergePrevious(h, pred, i, p);
      KeptTrans(old(mem), old@merged(mem), mem, rest, rest, rest);
    }
  
    /** mmap: req fresh bytes at nextBlock become one live block, if the system grants them. It never
        maps no bytes. */
    method MapPages(req: nat, granted: bool) returns (h: nat)
      requires Valid() && (req == 0 || req >= HOLE) && req % 8 == 0
      modifies this`mem, this`nextBlock, this`blocks
      ensures Valid() && Kept(old(mem), mem, Live(old(blocks)))
      ensures if req > 0 && CanGrow(old(View()), req, granted)
              then h == old(nextBlock) && View() == Arena(old(blocks) + [Block(h, req - WORD, false)], h + req)
              else h == NULL && View() == old(View()) && mem == old(mem)
    {
      hide Repr, Tiles, Load, Store, NextHole, Kept, Live;
      KeptRefl(mem, freeList, blocks);
      if req == 0 || !granted || nextBlock + req >= WORDS {
        return NULL;
      }
      ghost var pages: seq<byte> := seq(req, _ => 0);
      Grown(mem, freeList, blocks, pages);
      mem := mem + seq(req, _ => 0);
      h := nextBlock;
      mem := Store(mem, h, req - WORD);
      nextBlock := nextBlock + req;
      blocks := blocks + [Block(h, req - WORD, false)];
    }

    /** Inside the address space the test of a cut does not wrap. */
    lemma RoomForHole(c: nat, size: nat)
      requires Valid() && c < |blocks| && size <= blocks[c].size
      ensures size + HOLE < WORDS
    {
      ReprTiles(mem, freeList, blocks);
      AllOrdered(blocks, BASE, BASE + |mem|);
    }

    /** Cuts the live block c, at h, after size bytes and gives back the rest if it can be a hole. */
    method SplitOff(h: nat, size: nat, ghost c: nat)
      requires Valid() && c < |blocks| && !blocks[c].free && h == blocks[c].addr
      requires WORD <= size <= blocks[c].size && size % 4 == 0
      modifies this`mem, this`freeList, this`blocks
      ensures Valid() && blocks == Carve(old(blocks), c, size) && |mem| == |old(mem)|
      ensures Kept(old(mem), mem, Live(old(blocks)) - {old(blocks)[c]})
    {
      hide Repr, Tiles, Load, Store, NextHole, Kept, Live, Split, NoAdjacentHoles, Release;
      ReadBlock(mem, freeList, blocks, c);
      KeptRefl(mem, freeList, blocks);
      ReprTiles(mem, freeList, blocks);
      ghost var rest := Live(blocks) - {blocks[c]};
      RoomForHole(c, size);
      if (size + HOLE) % WORDS <= Load(mem, h) {
        SplitUp(mem, freeList, blocks, c, size);
        SplitFresh(blocks, c, size, BASE, BASE + |mem|);
        SplitLive(blocks, c, size, BASE, BASE + |mem|);
        SplitSeparates(blocks, c, size);
        CutRead(mem, blocks, c, size);
        ghost var cut := Split(blocks, c, size);
        var h2 := h + WORD + size;
        mem := Store(mem, h2, Load(mem, h) - size - WORD);
        mem := Store(mem, h, size);
        blocks := cut;
        label split:
        ReturnBlock(h2, c + 1);
        KeptTrans(old(mem), old@split(mem), mem, rest, Live(cut) - {cut[c + 1]}, rest);
      } else {
        KeptTrans(old(mem), mem, mem, Live(blocks), Live(blocks), rest);
      }
    }

    /** The size malloc looks for; all sums are words. */
    method RoundUp(request: nat) returns (size: nat)
      requires request <= MAX_REQUEST && PageSize(page)
      ensures size == Rounded64(request) == Rounded(request) <= MAX_REQUEST
    {
      RoundsRight(request, page);
      size := if request < WORD then WORD else request;
      size := (size + 3) % WORDS / 4 * 4;
    }

    /** The bytes malloc asks of mmap, which come to none if they would not fit the address space. */
    method RoundToPages(size: nat) returns (req: nat)
      requires size <= MAX_REQUEST && PageSize(page) && size == Rounded(size)
      ensures req == Pages64(size, page)
      ensures req == Pages(size, page) || (req == 0 && BASE + Pages(size, page) >= WORDS)
    {
      RoundsRight(size, page);
      req := (size + WORD) % WORDS;
      req := (req + page - 1) % WORDS / page * page;
    }

    lemma RoundedTwice(size: nat)
      ensures Rounded(Rounded(size)) == Rounded(size)
    {
    }

    /** granted says whether the system would answer an mmap call. */
    method Malloc(request: nat, granted: bool) returns (ptr: nat)
      requires Valid() && request <= MAX_REQUEST
      modifies this
      ensures Valid() && (View(), ptr) == Allocate(old(View()), request, page, granted)
      ensures Answers(old(View()), request, page, granted, ptr) && FindsRoom(View(), ptr, request)
      ensures Kept(old(mem), mem, Live(old(blocks)))
    {
      hide Repr, Tiles, Kept, Live, Carve, NoAdjacentHoles, Rounded, Pages, Pages64, Rounded64, Answers, FindsRoom;
      ReprTiles(mem, freeList, blocks);
      AllocateRoom(View(), request, page, granted);
      var size := RoundUp(request);
      RoundedTwice(request);
      ghost var bs, top := blocks, BASE + |mem|;
      ReprTiles(mem, freeList, bs);
      var h, c := GetBlock(size);
      if h == NULL {
        assert c == |blocks|;
        var req := RoundToPages(size);
        label searched:
        h := MapPages(req, granted);
        if h == NULL {
          return NULL;
        }
        AppendLive(bs, blocks[c], BASE, top);
        KeptTrans(old(mem), old@searched(mem), mem, Live(bs), Live(bs), Live(bs));
      } else {
        TakeLive(bs, c, BASE, top);
      }
      label obtained:
      ghost var obtained := Live(blocks) - {blocks[c]};
      SplitOff(h, size, c);
      KeptTrans(old(mem), old@obtained(mem), mem, Live(bs), obtained, Live(bs));
      ptr := h + WORD;
    }
  
    method Free(ptr: nat)
      requires Valid() && (ptr == NULL || LivePtr(blocks, ptr))
      modifies this`mem, this`freeList, this`blocks
      ensures Valid() && View() == Deallocate(old(View()), ptr)
      ensures Live(blocks) <= Live(old(blocks)) && Kept(old(mem), mem, Live(blocks)) && |mem| == |old(mem)|
    {
      hide Repr, Tiles, Kept, Live, NoAdjacentHoles, Release;
      KeptRefl(mem, freeList, blocks);
      if ptr == NULL {
        return;
      }
      ReprTiles(mem, freeList, blocks);
      ReleaseKeeps(blocks, IndexOf(blocks, ptr), BASE, BASE + |mem|);
      var h := ptr - WORD;
      ReturnBlock(h, IndexOf(blocks, ptr));
    }

    /** The caller's own store into byte k of the live block at ptr. */
    method Write(ptr: nat, k: nat, v: byte)
      requires Valid() && LivePtr(blocks, ptr) && k < blocks[IndexOf(blocks, ptr)].size
      modifies this`mem
      ensures Valid() && 0 <= ptr + k - BASE < |old(mem)| && mem == old(mem)[ptr + k - BASE := v]
      ensures Kept(old(mem), mem, Live(blocks) - {blocks[IndexOf(blocks, ptr)]})
    {
      hide Repr, Tiles, Kept, Live, NoAdjacentHoles;
      ReadBlock(mem, freeList, blocks, IndexOf(blocks, ptr));
      PayloadWritten(mem, freeList, blocks, IndexOf(blocks, ptr), ptr + k, v);
      mem := mem[ptr + k - BASE := v];
    }

    /** The block malloc just handed out, as the caller may use it. */
    lemma NewBlock(ar: Arena, size: nat, granted: bool, ptr: nat)
      requires Valid() && WellFormed(ar) && (View(), ptr) == Allocate(ar, size, page, granted) && ptr != NULL
      ensures LivePtr(blocks, ptr) && blocks[IndexOf(blocks, ptr)].size >= size
      ensures Live(ar.blocks) <= Live(blocks) - {blocks[IndexOf(blocks, ptr)]}
      ensures BASE <= ptr && ptr + size <= BASE + |mem|
    {
      hide Repr, Tiles, NoAdjacentHoles, Allocate;
      var b := AllocateKeeps(ar, size, page, granted);
      assert b in Live(blocks);
      var i :| 0 <= i < |blocks| && blocks[i] == b;
      ReprTiles(mem, freeList, blocks);
      assert LivePtr(blocks, ptr);
      SamePayload(View(), b, blocks[IndexOf(blocks, ptr)]);
      BlockMapped(mem, blocks);
    }

    /** A payload byte of a kept block, and where live payloads lie. */
    lemma PayloadInRange(ptr: nat)
      requires Valid() && LivePtr(blocks, ptr)
      ensures InRange(mem, ptr, BlockAt(blocks, ptr).size) && ptr != NULL && ptr >= WORD
      ensures BlockAt(blocks, ptr) in Live(blocks)
    {
      ReprTiles(mem, freeList, blocks);
      BlockMapped(mem, blocks);
    }

    method Calloc(count: nat, size: nat, granted: bool) returns (p: nat)
      requires Valid() && Product64(count, size) <= MAX_REQUEST
      modifies this
      ensures var n := Product64(count, size);
        && Valid() && (View(), p) == Allocate(old(View()), n, page, granted)
        && Answers(old(View()), n, page, granted, p) && FindsRoom(View(), p, n)
        && (p != NULL ==> InRange(mem, p, n) && Bytes(mem, p, n) == seq(n, _ => 0))
      ensures Kept(old(mem), mem, Live(old(blocks)))
    {
      hide Repr, Tiles, Live, NoAdjacentHoles, Allocate, Bytes, Kept, Answers, FindsRoom;
      var n := count * size % WORDS;
      assert n == Product64(count, size);
      ghost var ar, rest := View(), Live(blocks);
      ReprTiles(mem, freeList, blocks);
      p := Malloc(n, granted);
      if p != NULL {
        NewBlock(ar, n, granted, p);
        ghost var made := View();
        var i := 0;
        while i < n
          invariant 0 <= i <= n && Valid() && View() == made && InRange(mem, p, n)
          invariant Kept(old(mem), mem, rest)
          invariant Bytes(mem, p, i) == seq(i, _ => 0)
        {
          label before:
          BytesStep(mem, p, i, 0);
          Write(p, i, 0);
          KeptTrans(old(mem), old@before(mem), mem, rest, Live(blocks) - {BlockAt(blocks, p)}, rest);
          i := i + 1;
          assert seq(i, _ => 0) == seq(i - 1, _ => 0) + [0];
        }
      }
    }

    /** The live block at ptr survives a malloc, at its place, clear of the new block. */
    lemma OldBlock(ar: Arena, size: nat, granted: bool, ptr: nat, ptr': nat)
      requires Valid() && WellFormed(ar) && (View(), ptr') == Allocate(ar, size, page, granted) && ptr' != NULL
      requires LivePtr(ar.blocks, ptr)
      ensures LivePtr(blocks, ptr) && LivePtr(blocks, ptr') && BlockAt(blocks, ptr) != BlockAt(blocks, ptr')
      ensures BlockAt(blocks, ptr) == BlockAt(ar.blocks, ptr)
    {
      hide Repr, Tiles, NoAdjacentHoles, Allocate;
      NewBlock(ar, size, granted, ptr');
      var b := BlockAt(ar.blocks, ptr);
      assert b in Live(ar.blocks);
      assert b in Live(blocks) && b != BlockAt(blocks, ptr');
      var i :| 0 <= i < |blocks| && blocks[i] == b;
      assert LivePtr(blocks, ptr);
      ReprTiles(mem, freeList, blocks);
      SamePayload(View(), b, BlockAt(blocks, ptr));
    }

    /** The copying loop of realloc: the first sz bytes of the block at p1 into the one at p2. */
    method CopyOver(p1: nat, p2: nat, sz: nat)
      requires Valid() && LivePtr(blocks, p1) && LivePtr(blocks, p2) && BlockAt(blocks, p1) != BlockAt(blocks, p2)
      requires sz <= BlockAt(blocks, p1).size && sz <= BlockAt(blocks, p2).size
      modifies this`mem
      ensures Valid() && InRange(old(mem), p1, sz) && InRange(mem, p2, sz)
      ensures Bytes(mem, p2, sz) == Bytes(old(mem), p1, sz)
      ensures Kept(old(mem), mem, Live(blocks) - {BlockAt(blocks, p2)})
    {
      hide Repr, Tiles, Kept, Live, NoAdjacentHoles, Bytes;
      PayloadInRange(p1);
      PayloadInRange(p2);
      KeptRefl(mem, freeList, blocks);
      ghost var rest := Live(blocks) - {BlockAt(blocks, p2)};
      KeptTrans(mem, mem, mem, Live(blocks), Live(blocks), rest);
      BytesNone(mem, p2, mem, p1);
      var i := 0;
      while i < sz
        invariant 0 <= i <= sz && Valid() && |mem| == |old(mem)|
        invariant Kept(old(mem), mem, rest)
        invariant Bytes(mem, p2, i) == Bytes(old(mem), p1, i)
      {
        label before:
        KeptByte(old(mem), mem, rest, BlockAt(blocks, p1), p1 + i);
        BytesStep(mem, p2, i, mem[p1 + i - BASE]);
        BytesStep(old(mem), p1, i, 0);
        Write(p2, i, mem[p1 + i - BASE]);
        KeptTrans(old(mem), old@before(mem), mem, rest, rest, rest);
        i := i + 1;
      }
    }

    lemma BytesNone(m: seq<byte>, p: nat, m': seq<byte>, p': nat)
      requires InRange(m, p, 0) && InRange(m', p', 0)
      ensures Bytes(m, p, 0) == Bytes(m', p', 0)
    {
    }

    lemma KeptByte(m: seq<byte>, m': seq<byte>, s: set<Block>, b: Block, a: nat)
      requires Kept(m, m', s) && b in s && b.Payload() <= a < b.End()
      ensures BASE <= a && a - BASE < |m| && a - BASE < |m'| && m'[a - BASE] == m[a - BASE]
    {
      assert Same(m, m', b.addr, b.End());
    }

    /** The block the caller names, if it names one. */
    ghost function Named(ptr: nat): set<Block>
      requires ptr == NULL || LivePtr(blocks, ptr)
      reads this
    {
      if ptr == NULL then {} else {BlockAt(blocks, ptr)}
    }

    /** The end of realloc: copies what fits into the new block at p2 and frees the old one at ptr. */
    method Replace(ptr: nat, p2: nat, size: nat)
      requires Valid() && LivePtr(blocks, ptr) && LivePtr(blocks, p2) && BlockAt(blocks, ptr) != BlockAt(blocks, p2)
      requires size <= BlockAt(blocks, p2).size
      modifies this`mem, this`freeList, this`blocks
      ensures Valid() && View() == Deallocate(old(View()), ptr)
      ensures Kept(old(mem), mem, Live(old(blocks)) - {old(BlockAt(blocks, ptr)), old(BlockAt(blocks, p2))})
      ensures var was := old(BlockAt(blocks, ptr)).size;
        var sz := if was < size then was else size;
        InRange(old(mem), ptr, sz) && InRange(mem, p2, sz) && Bytes(mem, p2, sz) == Bytes(old(mem), ptr, sz)
    {
      hide Repr, Tiles, Kept, Live, NoAdjacentHoles, Deallocate, Bytes, Same, LivePtr, Load, Mapped;
      ghost var live, from, to := Live(blocks), BlockAt(blocks, ptr), BlockAt(blocks, p2);
      PayloadInRange(ptr);
      PayloadInRange(p2);
      ReprTiles(mem, freeList, blocks);
      ReadBlock(mem, freeList, blocks, IndexOf(blocks, ptr));
      var h := ptr - WORD;
      var sz := if Load(mem, h) < size then Load(mem, h) else size;
      CopyOver(ptr, p2, sz);
      label copied:
      PayloadInRange(p2);
      FreedOne(View(), ptr);
      Free(ptr);
      ghost var rest := Live(blocks);
      KeptTrans(old(mem), old@copied(mem), mem, live - {to}, rest, live - {from, to});
      KeptBlock(old@copied(mem), mem, rest, to);
      SameBytes(old@copied(mem), mem, to.addr, to.End(), p2, sz);
    }

    /** realloc proper: malloc a block of size bytes, copy what fits, free the old block. */
    method Move(ptr: nat, size: nat, granted: bool) returns (p2: nat)
      requires Valid() && LivePtr(blocks, ptr) && 0 < size <= MAX_REQUEST
      modifies this
      ensures Valid() && (View(), p2) == Reallocate(old(View()), ptr, size, page, granted)
      ensures Kept(old(mem), mem, Live(old(blocks)) - {old(BlockAt(blocks, ptr))})
      ensures p2 == NULL ==> View() == old(View()) && Kept(old(mem), mem, Live(old(blocks)))
      ensures p2 != NULL ==>
        var was := old(BlockAt(blocks, ptr)).size;
        var sz := if was < size then was else size;
        InRange(old(mem), ptr, sz) && InRange(mem, p2, sz) && Bytes(mem, p2, sz) == Bytes(old(mem), ptr, sz)
    {
      hide Repr, Tiles, Kept, Live, NoAdjacentHoles, Allocate, Release, Bytes, Same;
      ghost var ar, live, from := View(), Live(blocks), BlockAt(blocks, ptr);
      PayloadInRange(ptr);
      ReprTiles(mem, freeList, blocks);
      p2 := Malloc(size, granted);
      if p2 == NULL {
        AllocateNull(ar, size, granted);
        KeptRefl(mem, freeList, blocks);
        KeptTrans(old(mem), mem, mem, live, live, live - {from});
        return NULL;
      }
      OldBlock(ar, size, granted, ptr, p2);
      NewBlock(ar, size, granted, p2);
      label obtained:
      ghost var to := BlockAt(blocks, p2);
      Replace(ptr, p2, size);
      KeptTrans(old(mem), old@obtained(mem), mem, live, old@obtained(Live(blocks)) - {from, to}, live - {from});
      ghost var sz := if from.size < size then from.size else size;
      KeptBlock(old(mem), old@obtained(mem), live, from);
      SameBytes(old(mem), old@obtained(mem), from.addr, from.End(), ptr, sz);
    }

    lemma KeptBlock(m: seq<byte>, m': seq<byte>, s: set<Block>, b: Block)
      requires Kept(m, m', s) && b in s
      ensures Same(m, m', b.addr, b.End())
    {
    }

    lemma FreedOne(ar: Arena, ptr: nat)
      requires WellFormed(ar) && LivePtr(ar.blocks, ptr) && ptr != NULL
      ensures Live(Deallocate(ar, ptr).blocks) == Live(ar.blocks) - {BlockAt(ar.blocks, ptr)}
    {
      DeallocateKeeps(ar, BlockAt(ar.blocks, ptr));
    }

    /** A new block has room for size bytes; null means that there was no room for it anywhere. */
    method Realloc(ptr: nat, size: nat, granted: bool) returns (p2: nat)
      requires Valid() && (ptr == NULL || LivePtr(blocks, ptr)) && size <= MAX_REQUEST
      modifies this
      ensures Valid() && (View(), p2) == Reallocate(old(View()), ptr, size, page, granted)
      ensures ptr == NULL || size > 0 ==> Answers(old(View()), size, page, granted, p2) && FindsRoom(View(), p2, size)
      ensures Kept(old(mem), mem, Live(old(blocks)) - old(Named(ptr)))
      ensures p2 == NULL && size > 0 ==> View() == old(View()) && Kept(old(mem), mem, Live(old(blocks)))
      ensures ptr != NULL && p2 != NULL ==>
        var was := old(BlockAt(blocks, ptr)).size;
        var sz := if was < size then was else size;
        InRange(old(mem), ptr, sz) && InRange(mem, p2, sz) && Bytes(mem, p2, sz) == Bytes(old(mem), ptr, sz)
    {
      hide Repr, Tiles, Kept, Live, NoAdjacentHoles, Allocate, Release, Bytes, Same, Answers, FindsRoom;
      ReprTiles(mem, freeList, blocks);
      if ptr == NULL || size > 0 { ReallocateRoom(View(), ptr, size, page, granted); }
      if ptr == NULL {
        assert Live(blocks) - {} == Live(blocks);
        p2 := Malloc(size, granted);
        if p2 == NULL { AllocateNull(old(View()), size, granted); }
      } else if size == 0 {
        ReprTiles(mem, freeList, blocks);
        PayloadInRange(ptr);
        FreedOne(View(), ptr);
        Free(ptr);
        p2 := NULL;
      } else {
        p2 := Move(ptr, size, granted);
      }
    }

    lemma AllocateNull(ar: Arena, size: nat, granted: bool)
      requires page > 0 && page % 8 == 0 && Allocate(ar, size, page, granted).1 == NULL
      ensures Allocate(ar, size, page, granted).0 == ar
    {
    }
  }
}
