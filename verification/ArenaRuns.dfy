/** What malloc, free and realloc of exercises/ex11/myMalloc.c guarantee over whole runs of
    legal calls, stated on the blocks of the arena. */
module ArenaRuns {
  import opened Common
  import opened Memory
  import opened Blocks

  lemma SamePayload(ar: Arena, b: Block, c: Block)
    requires Tiles(ar.blocks, BASE, ar.top) && b in ar.blocks && c in ar.blocks && b.Payload() == c.Payload()
    ensures b == c
  {
    AllOrdered(ar.blocks, BASE, ar.top);
  }

  /** From ar to ar' one block, b, joined the live ones and nothing else changed among them. */
  ghost predicate Adds(ar: Arena, ar': Arena, b: Block)
  {
    WellFormed(ar') && !b.free && b !in Live(ar.blocks) && Live(ar'.blocks) == Live(ar.blocks) + {b}
  }

  /** Cutting n bytes from block k, live in bs but not counted in `live`, adds a block there. */
  lemma CarveAdds(bs: seq<Block>, k: nat, n: nat, ar: Arena, top: nat) returns (b: Block)
    requires Tiles(bs, BASE, top) && NoAdjacentHoles(bs) && k < |bs| && !bs[k].free
    requires n >= WORD && n % 4 == 0 && n <= bs[k].size
    requires Live(bs) == Live(ar.blocks) + {bs[k]} && bs[k] !in Live(ar.blocks)
    requires forall c | c in Live(ar.blocks) :: c.addr != bs[k].addr
    ensures Adds(ar, Arena(Carve(bs, k, n), top), b)
    ensures b.addr == bs[k].addr && n <= b.size < n + HOLE
  {
    CarveKeeps(bs, k, n, BASE, top);
    var size :| n <= size < n + HOLE && Live(Carve(bs, k, n)) == Live(bs) - {bs[k]} + {Block(bs[k].addr, size, false)};
    b := Block(bs[k].addr, size, false);
  }

  lemma AllocateFromHole(ar: Arena, n: nat, k: nat) returns (b: Block)
    requires WellFormed(ar) && k < |ar.blocks| && Fits(ar.blocks[k], n) && n >= WORD && n % 4 == 0
    ensures Adds(ar, ar.(blocks := Carve(ar.blocks[k := ar.blocks[k].(free := false)], k, n)), b)
    ensures b.addr == ar.blocks[k].addr && n <= b.size < n + HOLE
  {
    var bs := ar.blocks[k := ar.blocks[k].(free := false)];
    MarkTiles(ar.blocks, k, false, BASE, ar.top);
    TakeLive(ar.blocks, k, BASE, ar.top);
    hide Tiles;
    b := CarveAdds(bs, k, n, ar, ar.top);
  }

  lemma AppendTiles(ar: Arena, req: nat) returns (bs: seq<Block>)
    requires WellFormed(ar) && req >= HOLE && req % 8 == 0
    ensures bs == ar.blocks + [Block(ar.top, req - WORD, false)]
    ensures Tiles(bs, BASE, ar.top + req) && NoAdjacentHoles(bs)
    ensures Live(bs) == Live(ar.blocks) + {bs[|ar.blocks|]} && bs[|ar.blocks|] !in Live(ar.blocks)
    ensures forall c | c in Live(ar.blocks) :: c.addr != ar.top
  {
    var last := Block(ar.top, req - WORD, false);
    bs := ar.blocks + [last];
    assert last.size % 4 == 0;
    assert forall j | 0 <= j < |ar.blocks| :: bs[j] == ar.blocks[j];
    AllOrdered(ar.blocks, BASE, ar.top);
  }

  lemma AllocateFromPages(ar: Arena, n: nat, req: nat) returns (b: Block)
    requires WellFormed(ar) && n >= WORD && n % 4 == 0 && n + WORD <= req && req % 8 == 0
    ensures Adds(ar, Arena(Carve(ar.blocks + [Block(ar.top, req - WORD, false)], |ar.blocks|, n), ar.top + req), b)
    ensures b.addr == ar.top && n <= b.size < n + HOLE
  {
    var bs := AppendTiles(ar, req);
    hide Tiles, NoAdjacentHoles;
    b := CarveAdds(bs, |ar.blocks|, n, ar, ar.top + req);
  }

  /** malloc: a block with enough room joins the live ones and all others stay as they are. */
  lemma AllocateKeeps(ar: Arena, size: nat, page: nat, granted: bool) returns (b: Block)
    requires WellFormed(ar) && page > 0 && page % 8 == 0
    ensures var (ar', ptr) := Allocate(ar, size, page, granted);
      if ptr == NULL then ar' == ar
      else Adds(ar, ar', b) && ptr == b.Payload() && Rounded(size) <= b.size < Rounded(size) + HOLE
  {
    hide WellFormed, Adds, Carve, Pages;
    var n := Rounded(size);
    var k := FirstFit(ar.blocks, n, 0);
    b := Block(0, 0, false);
    if k < |ar.blocks| {
      b := AllocateFromHole(ar, n, k);
    } else if CanGrow(ar, Pages(n, page), granted) {
      b := AllocateFromPages(ar, n, Pages(n, page));
    }
  }

  /** The block malloc hands out lies clear of every block that was already live. */
  lemma AllocateDisjoint(ar: Arena, ar': Arena, b: Block, c: Block)
    requires Adds(ar, ar', b) && c in Live(ar.blocks)
    ensures c in Live(ar'.blocks) && (c.End() <= b.addr || b.End() <= c.addr)
  {
    assert b in Live(ar'.blocks) && c in Live(ar'.blocks);
    AllOrdered(ar'.blocks, BASE, ar'.top);
  }

  /** A hole of these has room for n bytes. */
  ghost predicate SomeHole(bs: seq<Block>, n: nat)
  {
    exists h | h in bs :: h.free && h.size >= n
  }

  /** What a caller asking for size bytes gets: null only if no hole has room for them and pages are
      refused, otherwise the hole of lowest address that has, or the start of fresh pages if none has. */
  ghost predicate Answers(ar: Arena, size: nat, page: nat, granted: bool, ret: nat)
    requires page > 0 && page % 8 == 0
  {
    var n := Rounded(size);
    && (ret == NULL <==> !SomeHole(ar.blocks, n) && !(granted && ar.top + Pages(n, page) < WORDS))
    && (SomeHole(ar.blocks, n) ==> exists h | h in ar.blocks :: h.free && h.size >= n && ret == h.addr + WORD)
    && (forall h | h in ar.blocks && h.free && h.size >= n :: ret <= h.addr + WORD)
    && (ret != NULL && !SomeHole(ar.blocks, n) ==> ret == ar.top + WORD)
  }

  /** malloc takes the hole of lowest address that fits, asks for pages only if there is none, and
      fails only if those are refused. */
  lemma AllocateLowest(ar: Arena, size: nat, page: nat, granted: bool)
    requires WellFormed(ar) && page > 0 && page % 8 == 0
    ensures var (ar', ptr) := Allocate(ar, size, page, granted);
      && Answers(ar, size, page, granted, ptr)
      && (ar'.top != ar.top ==> !SomeHole(ar.blocks, Rounded(size)))
  {
    AllOrdered(ar.blocks, BASE, ar.top);
    var k := FirstFit(ar.blocks, Rounded(size), 0);
    if k < |ar.blocks| {
      assert ar.blocks[k] in ar.blocks;
    }
  }

  /** free: exactly the named block stops being live. */
  lemma DeallocateKeeps(ar: Arena, b: Block)
    requires WellFormed(ar) && b in Live(ar.blocks)
    ensures LivePtr(ar.blocks, b.Payload()) && b.Payload() != NULL
    ensures var ar' := Deallocate(ar, b.Payload());
      WellFormed(ar') && ar'.top == ar.top && Live(ar'.blocks) == Live(ar.blocks) - {b}
  {
    var k :| 0 <= k < |ar.blocks| && ar.blocks[k] == b;
    var i := IndexOf(ar.blocks, b.Payload());
    SamePayload(ar, ar.blocks[i], b);
    ReleaseKeeps(ar.blocks, i, BASE, ar.top);
    ReleaseSeparates(ar.blocks, i);
  }

  // ----- the holes follow from the live blocks -----

  /** If c ends the arena that b is the last block of, and both are blocks of bs, they agree. */
  lemma LastBlock(bs: seq<Block>, lo: nat, hi: nat, b: Block)
    requires Tiles(bs, lo, hi) && b in bs && b.End() == hi
    ensures bs != [] && bs[|bs| - 1] == b
  {
    AllOrdered(bs, lo, hi);
  }

  /** Where the last hole of bs starts no later than the last hole of bs', given equal live blocks. */
  lemma LastHoleStart(bs: seq<Block>, bs': seq<Block>, lo: nat, hi: nat)
    requires Tiles(bs, lo, hi) && Tiles(bs', lo, hi) && NoAdjacentHoles(bs) && Live(bs) == Live(bs')
    requires bs != [] && bs[|bs| - 1].free && bs' != [] && bs'[|bs'| - 1].free
    ensures bs[|bs| - 1].addr <= bs'[|bs'| - 1].addr
  {
    AllOrdered(bs', lo, hi);
    if |bs| > 1 {
      var p := bs[|bs| - 2];
      assert !p.free && p in Live(bs');
      var i :| 0 <= i < |bs'| && bs'[i] == p;
      assert i < |bs'| - 1;
    }
  }

  lemma LastBlocksAgree(bs: seq<Block>, bs': seq<Block>, lo: nat, hi: nat)
    requires Tiles(bs, lo, hi) && Tiles(bs', lo, hi) && NoAdjacentHoles(bs) && NoAdjacentHoles(bs')
    requires Live(bs) == Live(bs') && bs != [] && bs' != []
    ensures bs[|bs| - 1] == bs'[|bs'| - 1]
  {
    var b, b' := bs[|bs| - 1], bs'[|bs'| - 1];
    if !b.free {
      assert b in Live(bs');
      LastBlock(bs', lo, hi, b);
    } else if !b'.free {
      assert b' in Live(bs);
      LastBlock(bs, lo, hi, b');
    } else {
      LastHoleStart(bs, bs', lo, hi);
      LastHoleStart(bs', bs, lo, hi);
    }
  }

  lemma WithoutLast(bs: seq<Block>, lo: nat, hi: nat)
    requires Tiles(bs, lo, hi) && NoAdjacentHoles(bs) && bs != []
    ensures Tiles(bs[..|bs| - 1], lo, bs[|bs| - 1].addr) && NoAdjacentHoles(bs[..|bs| - 1])
    ensures Live(bs[..|bs| - 1]) == Live(bs) - {bs[|bs| - 1]}
  {
    var rest := bs[..|bs| - 1];
    assert bs == rest + [bs[|bs| - 1]];
    assert Live(rest) == Live(bs) - {bs[|bs| - 1]} by {
      AllOrdered(bs, lo, hi);
    }
    assert Tiles(rest, lo, bs[|bs| - 1].addr) by {
      assert forall j | 0 <= j < |rest| :: rest[j] == bs[j];
    }
  }

  /** Two well-formed arenas of one extent with the same live blocks are the same, holes included. */
  lemma {:induction false} HolesFollow(bs: seq<Block>, bs': seq<Block>, lo: nat, hi: nat)
    requires Tiles(bs, lo, hi) && Tiles(bs', lo, hi) && NoAdjacentHoles(bs) && NoAdjacentHoles(bs')
    requires Live(bs) == Live(bs')
    ensures bs == bs'
    decreases |bs|
  {
    if bs != [] && bs' != [] {
      LastBlocksAgree(bs, bs', lo, hi);
      WithoutLast(bs, lo, hi);
      WithoutLast(bs', lo, hi);
      HolesFollow(bs[..|bs| - 1], bs'[..|bs'| - 1], lo, bs[|bs| - 1].addr);
      assert bs == bs[..|bs| - 1] + [bs[|bs| - 1]] && bs' == bs'[..|bs'| - 1] + [bs'[|bs'| - 1]];
    } else {
      AllOrdered(bs, lo, hi);
      AllOrdered(bs', lo, hi);
    }
  }

  // ----- runs -----

  datatype Call =
    | Malloc(size: nat, granted: bool)
    | Free(ptr: nat)
    | Realloc(ptr: nat, size: nat, granted: bool)

  ghost function Payloads(bs: seq<Block>): set<nat>
  {
    set b | b in Live(bs) :: b.Payload()
  }

  /** The caller passes NULL or a pointer it holds. */
  ghost predicate Legal(held: set<nat>, call: Call)
  {
    match call
    case Malloc(_, _) => true
    case Free(ptr) => ptr == NULL || ptr in held
    case Realloc(ptr, _, _) => ptr == NULL || ptr in held
  }

  ghost function Reallocate(ar: Arena, ptr: nat, size: nat, page: nat, granted: bool): (Arena, nat)
    requires page > 0 && page % 8 == 0
  {
    if ptr == NULL then Allocate(ar, size, page, granted)
    else if size == 0 then (Deallocate(ar, ptr), NULL)
    else
      var (ar', ptr') := Allocate(ar, size, page, granted);
      if ptr' == NULL then (ar', NULL) else (Deallocate(ar', ptr), ptr')
  }

  lemma AllocateKeepsPtr(ar: Arena, size: nat, page: nat, granted: bool, ptr: nat)
    requires WellFormed(ar) && page > 0 && page % 8 == 0 && LivePtr(ar.blocks, ptr)
    ensures LivePtr(Allocate(ar, size, page, granted).0.blocks, ptr)
  {
    var b := AllocateKeeps(ar, size, page, granted);
    var old' := ar.blocks[IndexOf(ar.blocks, ptr)];
    assert old' in Live(Allocate(ar, size, page, granted).0.blocks);
  }

  ghost function Perform(ar: Arena, page: nat, call: Call): (Arena, nat)
    requires page > 0 && page % 8 == 0
  {
    match call
    case Malloc(size, granted) => Allocate(ar, size, page, granted)
    case Free(ptr) => (Deallocate(ar, ptr), NULL)
    case Realloc(ptr, size, granted) => Reallocate(ar, ptr, size, page, granted)
  }

  lemma PayloadIsLive(bs: seq<Block>, ptr: nat)
    ensures ptr in Payloads(bs) <==> LivePtr(bs, ptr)
  {
    if LivePtr(bs, ptr) {
      var i := IndexOf(bs, ptr);
      assert bs[i] in Live(bs);
    }
  }

  /** What the caller holds after a call that returned ret. */
  ghost function Held(held: set<nat>, call: Call, ret: nat): set<nat>
  {
    var got := if ret == NULL then {} else {ret};
    match call
    case Malloc(_, _) => held + got
    case Free(ptr) => held - {ptr}
    case Realloc(ptr, size, _) => if size > 0 && ret == NULL then held else held - {ptr} + got
  }

  lemma AllocatePayloads(ar: Arena, size: nat, page: nat, granted: bool)
    requires WellFormed(ar) && page > 0 && page % 8 == 0
    ensures var (ar', ptr) := Allocate(ar, size, page, granted);
      && WellFormed(ar')
      && Payloads(ar'.blocks) == Payloads(ar.blocks) + (if ptr == NULL then {} else {ptr})
      && (ptr != NULL ==> ptr !in Payloads(ar.blocks))
  {
    hide WellFormed, Allocate;
    var b := AllocateKeeps(ar, size, page, granted);
    var (ar', ptr) := Allocate(ar, size, page, granted);
    if ptr != NULL {
      forall c | c in Live(ar.blocks)
        ensures c.Payload() != ptr
      {
        AllocateDisjoint(ar, ar', b, c);
      }
    }
  }

  lemma FreePayloads(ar: Arena, ptr: nat)
    requires WellFormed(ar) && LivePtr(ar.blocks, ptr)
    ensures WellFormed(Deallocate(ar, ptr)) && Payloads(Deallocate(ar, ptr).blocks) == Payloads(ar.blocks) - {ptr}
    ensures ptr != NULL
  {
    hide WellFormed, Deallocate;
    var b := ar.blocks[IndexOf(ar.blocks, ptr)];
    assert b in Live(ar.blocks);
    DeallocateKeeps(ar, b);
    forall c | c in Live(ar.blocks) && c != b
      ensures c.Payload() != ptr
    {
      NamesBlock(ar, c);
      NamesBlock(ar, b);
    }
  }

  lemma ReallocatePayloads(ar: Arena, ptr: nat, size: nat, page: nat, granted: bool)
    requires WellFormed(ar) && page > 0 && page % 8 == 0 && size > 0 && LivePtr(ar.blocks, ptr)
    ensures var (ar', ret) := Reallocate(ar, ptr, size, page, granted);
      WellFormed(ar') && Payloads(ar'.blocks) ==
        if ret == NULL then Payloads(ar.blocks) else Payloads(ar.blocks) - {ptr} + {ret}
    ensures ptr != NULL
  {
    FreePayloads(ar, ptr);
    AllocatePayloads(ar, size, page, granted);
    PayloadIsLive(ar.blocks, ptr);
    AllocateKeepsPtr(ar, size, page, granted, ptr);
    hide WellFormed, Payloads, Allocate, LivePtr, Deallocate;
    var (ar', ptr') := Allocate(ar, size, page, granted);
    if ptr' != NULL {
      FreePayloads(ar', ptr);
    }
  }

  /** The block at ret has room for size bytes, and hardly more. */
  ghost predicate RoomFor(b: Block, size: nat)
  {
    Rounded(size) <= b.size < Rounded(size) + HOLE
  }

  /** From ar to ar' one new block, b, joined the live ones and these left them. */
  ghost predicate TakesPlace(ar: Arena, ar': Arena, gone: set<Block>, b: Block)
  {
    !b.free && b !in Live(ar.blocks) && Live(ar'.blocks) == Live(ar.blocks) - gone + {b}
  }

  /** realloc of nothing is a malloc, of nothing but null a free; otherwise a new block of the size asked
      for takes the place of the old one, or nothing changes, under the conditions of a malloc. */
  lemma ReallocateIs(ar: Arena, ptr: nat, size: nat, page: nat, granted: bool)
    requires WellFormed(ar) && page > 0 && page % 8 == 0 && (ptr == NULL || LivePtr(ar.blocks, ptr))
    ensures var (ar', ret) := Reallocate(ar, ptr, size, page, granted);
      var old' := if ptr == NULL then {} else {BlockAt(ar.blocks, ptr)};
      && WellFormed(ar')
      && (ptr != NULL && size == 0 ==> ret == NULL && Live(ar'.blocks) == Live(ar.blocks) - old')
      && (ptr == NULL || size > 0 ==>
            && Answers(ar, size, page, granted, ret)
            && (ret == NULL ==> ar' == ar)
            && (ret != NULL ==>
                  exists b :: TakesPlace(ar, ar', old', b) && b.addr + WORD == ret && RoomFor(b, size)))
  {
    hide Allocate, Deallocate, Answers;
    if ptr == NULL || size > 0 {
      AllocateLowest(ar, size, page, granted);
      var b := AllocateKeeps(ar, size, page, granted);
      var (ar1, ret) := Allocate(ar, size, page, granted);
      if ptr != NULL && ret != NULL {
        assert BlockAt(ar.blocks, ptr) in Live(ar.blocks);
        DeallocateKeeps(ar1, BlockAt(ar.blocks, ptr));
      }
      if ret != NULL {
        var (ar', _) := Reallocate(ar, ptr, size, page, granted);
        var old' := if ptr == NULL then {} else {BlockAt(ar.blocks, ptr)};
        assert TakesPlace(ar, ar', old', b) && b.addr + WORD == ret && RoomFor(b, size);
      }
    } else {
      assert BlockAt(ar.blocks, ptr) in Live(ar.blocks);
      DeallocateKeeps(ar, BlockAt(ar.blocks, ptr));
    }
  }

  /** A live block is the one its payload names. */
  lemma NamesBlock(ar: Arena, b: Block)
    requires WellFormed(ar) && b in Live(ar.blocks)
    ensures LivePtr(ar.blocks, b.Payload()) && BlockAt(ar.blocks, b.Payload()) == b
  {
    assert LivePtr(ar.blocks, b.Payload());
    SamePayload(ar, b, BlockAt(ar.blocks, b.Payload()));
  }

  /** What the caller of malloc finds at the address returned. */
  ghost predicate FindsRoom(ar: Arena, ret: nat, size: nat)
  {
    ret == NULL || (LivePtr(ar.blocks, ret) && RoomFor(BlockAt(ar.blocks, ret), size))
  }

  lemma AllocateRoom(ar: Arena, size: nat, page: nat, granted: bool)
    requires WellFormed(ar) && page > 0 && page % 8 == 0
    ensures var (ar', ret) := Allocate(ar, size, page, granted);
      Answers(ar, size, page, granted, ret) && FindsRoom(ar', ret, size)
  {
    hide Allocate, Answers, LivePtr;
    AllocateLowest(ar, size, page, granted);
    var b := AllocateKeeps(ar, size, page, granted);
    var (ar', ret) := Allocate(ar, size, page, granted);
    if ret != NULL { NamesBlock(ar', b); }
  }

  lemma ReallocateRoom(ar: Arena, ptr: nat, size: nat, page: nat, granted: bool)
    requires WellFormed(ar) && page > 0 && page % 8 == 0 && (ptr == NULL || LivePtr(ar.blocks, ptr))
    requires ptr == NULL || size > 0
    ensures var (ar', ret) := Reallocate(ar, ptr, size, page, granted);
      Answers(ar, size, page, granted, ret) && FindsRoom(ar', ret, size)
  {
    hide Reallocate, Answers, LivePtr;
    ReallocateIs(ar, ptr, size, page, granted);
    var (ar', ret) := Reallocate(ar, ptr, size, page, granted);
    if ret != NULL {
      var old' := if ptr == NULL then {} else {BlockAt(ar.blocks, ptr)};
      var b :| TakesPlace(ar, ar', old', b) && b.addr + WORD == ret && RoomFor(b, size);
      NamesBlock(ar', b);
    }
  }

  /** One legal call: the arena stays well formed and the live blocks are what the caller holds. */
  lemma PerformKeeps(ar: Arena, page: nat, call: Call)
    requires WellFormed(ar) && page > 0 && page % 8 == 0 && Legal(Payloads(ar.blocks), call)
    ensures var (ar', ret) := Perform(ar, page, call);
      WellFormed(ar') && Payloads(ar'.blocks) == Held(Payloads(ar.blocks), call, ret)
  {
    NullNotHeld(ar);
    hide WellFormed, Payloads, Allocate, LivePtr;
    match call
    case Malloc(size, granted) =>
      AllocatePayloads(ar, size, page, granted);
    case Free(ptr) =>
      PayloadIsLive(ar.blocks, ptr);
      if ptr != NULL { FreePayloads(ar, ptr); }
    case Realloc(ptr, size, granted) =>
      PayloadIsLive(ar.blocks, ptr);
      if ptr == NULL {
        AllocatePayloads(ar, size, page, granted);
      } else if size == 0 {
        FreePayloads(ar, ptr);
      } else {
        ReallocatePayloads(ar, ptr, size, page, granted);
      }
  }

  lemma NullNotHeld(ar: Arena)
    requires WellFormed(ar)
    ensures NULL !in Payloads(ar.blocks)
  {
    AllOrdered(ar.blocks, BASE, ar.top);
  }

  /** Every call of the run is legal when its turn comes. */
  ghost predicate LegalRun(ar: Arena, page: nat, calls: seq<Call>)
    requires page > 0 && page % 8 == 0
    decreases |calls|
  {
    calls == [] ||
    (Legal(Payloads(ar.blocks), calls[0]) && LegalRun(Perform(ar, page, calls[0]).0, page, calls[1..]))
  }

  /** The arena, and the pointers the caller holds, after a run. */
  ghost function Run(ar: Arena, held: set<nat>, page: nat, calls: seq<Call>): (Arena, set<nat>)
    requires page > 0 && page % 8 == 0
    decreases |calls|
  {
    if calls == [] then (ar, held)
    else
      var (ar', ret) := Perform(ar, page, calls[0]);
      Run(ar', Held(held, calls[0], ret), page, calls[1..])
  }

  function Frees(order: seq<nat>): seq<Call>
  {
    if order == [] then [] else [Free(order[0])] + Frees(order[1..])
  }

  /** After any legal run the blocks tile the arena with no two holes side by side, and the live
      ones are exactly those the caller holds: none lost, none handed out twice. */
  lemma {:induction false} RunKeeps(ar: Arena, page: nat, calls: seq<Call>)
    requires WellFormed(ar) && page > 0 && page % 8 == 0 && LegalRun(ar, page, calls)
    ensures var (ar', held) := Run(ar, Payloads(ar.blocks), page, calls);
      WellFormed(ar') && held == Payloads(ar'.blocks)
    decreases |calls|
  {
    if calls != [] {
      PerformKeeps(ar, page, calls[0]);
      RunKeeps(Perform(ar, page, calls[0]).0, page, calls[1..]);
    }
  }

  /** Freeing everything that is held, in any order, leaves one hole over the whole arena. */
  lemma {:induction false} FreeAll(ar: Arena, page: nat, order: seq<nat>)
    requires WellFormed(ar) && page > 0 && page % 8 == 0
    requires Distinct(order)
    requires forall p :: p in order <==> p in Payloads(ar.blocks)
    ensures LegalRun(ar, page, Frees(order))
    ensures Run(ar, Payloads(ar.blocks), page, Frees(order)).0 ==
            ar.(blocks := if ar.top <= BASE + WORD then [] else [Block(BASE, ar.top - BASE - WORD, true)])
    decreases |order|
  {
    hide WellFormed, Payloads, Perform, Legal, Held;
    if order == [] {
      assert Payloads(ar.blocks) == {};
      AllFree(ar);
    } else {
      var ar' := FreeFirst(ar, page, order);
      FreeAll(ar', page, order[1..]);
      assert Frees(order)[0] == Free(order[0]) && Frees(order)[1..] == Frees(order[1..]);
      assert LegalRun(ar, page, Frees(order));
    }
  }

  lemma FreeFirst(ar: Arena, page: nat, order: seq<nat>) returns (ar': Arena)
    requires WellFormed(ar) && page > 0 && page % 8 == 0 && order != []
    requires Distinct(order)
    requires forall p :: p in order <==> p in Payloads(ar.blocks)
    ensures (ar', NULL) == Perform(ar, page, Free(order[0])) && WellFormed(ar') && ar'.top == ar.top
    ensures Legal(Payloads(ar.blocks), Free(order[0]))
    ensures Payloads(ar'.blocks) == Held(Payloads(ar.blocks), Free(order[0]), NULL)
    ensures forall p :: p in order[1..] <==> p in Payloads(ar'.blocks)
  {
    ar' := Perform(ar, page, Free(order[0])).0;
    assert order[0] in order && order == [order[0]] + order[1..];
    assert Legal(Payloads(ar.blocks), Free(order[0]));
    PerformKeeps(ar, page, Free(order[0]));
    hide WellFormed, Payloads, LivePtr;
    assert Payloads(ar'.blocks) == Payloads(ar.blocks) - {order[0]};
  }

  lemma AllFree(ar: Arena)
    requires WellFormed(ar) && Payloads(ar.blocks) == {}
    ensures ar.blocks == if ar.top <= BASE + WORD then [] else [Block(BASE, ar.top - BASE - WORD, true)]
  {
    forall b | b in ar.blocks
      ensures b.free
    {
      assert !b.free ==> b.Payload() in Payloads(ar.blocks);
      assert b.free || b in Live(ar.blocks);
    }
    assert |ar.blocks| > 1 ==> ar.blocks[0].free && ar.blocks[1].free;
  }
}
