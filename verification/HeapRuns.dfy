/** Whole runs of the allocator of exercises/ex11/myMalloc.c on its bytes: what the callers find in their
    blocks is what was last written there, by themselves, by calloc or by realloc. */
module HeapRuns {
  import opened Common
  import opened Memory
  import opened Blocks
  import opened Layout
  import opened ArenaRuns
  import opened WordSizes
  import opened Allocator

  /** What a caller does: a call, a calloc, or a store into byte k of a block it holds. */
  datatype Event =
    | Do(call: Call)
    | Calloc(count: nat, size: nat, granted: bool)
    | Write(ptr: nat, k: nat, v: byte)

  /** For each pointer held, the bytes of its block; None where nothing was written yet. */
  type Contents = map<nat, seq<Option<byte>>>

  datatype Model = Model(arena: Arena, contents: Contents)

  /** The sizes that the call computes with do not wrap. */
  predicate Fitting(call: Call)
  {
    match call
    case Malloc(size, _) => size <= MAX_REQUEST
    case Free(_) => true
    case Realloc(_, size, _) => size <= MAX_REQUEST
  }

  /** The caller names only what it holds, and no size wraps. */
  ghost predicate Allowed(m: Model, e: Event)
  {
    match e
    case Do(call) => Legal(Payloads(m.arena.blocks), call) && Fitting(call)
    case Calloc(count, size, _) => Product64(count, size) <= MAX_REQUEST
    case Write(ptr, k, _) => ptr in m.contents && k < |m.contents[ptr]|
  }

  /** The bytes of the block at ptr. */
  ghost function Room(ar: Arena, ptr: nat): nat
  {
    if LivePtr(ar.blocks, ptr) then BlockAt(ar.blocks, ptr).size else 0
  }

  /** A block of room bytes of which the first n are zero. */
  function Zeroed(room: nat, n: nat): (bytes: seq<Option<byte>>)
    ensures |bytes| == room
  {
    seq(room, i requires 0 <= i < room => if i < n then Some(0) else None)
  }

  /** A block of room bytes that starts with the first size of these. */
  function Copied(bytes: seq<Option<byte>>, size: nat, room: nat): (copy: seq<Option<byte>>)
    ensures |copy| == room
  {
    seq(room, i requires 0 <= i < room => if i < size && i < |bytes| then bytes[i] else None)
  }

  /** The arena after an event, and what the call returned. */
  ghost function NextArena(ar: Arena, page: nat, e: Event): (Arena, nat)
    requires PageSize(page)
  {
    match e
    case Do(call) => Perform(ar, page, call)
    case Calloc(count, size, granted) => Allocate(ar, Product64(count, size), page, granted)
    case Write(_, _, _) => (ar, NULL)
  }

  /** The contents after an event that returned ret and left arena ar. */
  ghost function NextContents(c: Contents, ar: Arena, e: Event, ret: nat): Contents
  {
    match e
    case Do(Malloc(_, _)) => if ret == NULL then c else c[ret := Zeroed(Room(ar, ret), 0)]
    case Do(Free(ptr)) => c - {ptr}
    case Do(Realloc(ptr, size, _)) =>
      if size > 0 && ret == NULL then c
      else if ret == NULL then c - {ptr}
      else (c - {ptr})[ret := Copied(if ptr in c then c[ptr] else [], size, Room(ar, ret))]
    case Calloc(count, size, _) => if ret == NULL then c else c[ret := Zeroed(Room(ar, ret), Product64(count, size))]
    case Write(ptr, k, v) => if ptr in c && k < |c[ptr]| then c[ptr := c[ptr][k := Some(v)]] else c
  }

  ghost function Step(m: Model, page: nat, e: Event): (Model, nat)
    requires PageSize(page)
  {
    var (ar, ret) := NextArena(m.arena, page, e);
    (Model(ar, NextContents(m.contents, ar, e, ret)), ret)
  }

  // ----- contents and bytes -----

  /** The payload of b has these bytes, as far as they are known. */
  ghost predicate Holds(mem: seq<byte>, b: Block, bytes: seq<Option<byte>>)
  {
    && |bytes| == b.size && InRange(mem, b.Payload(), b.size)
    && forall k | 0 <= k < b.size && bytes[k].Some? :: mem[b.Payload() - BASE + k] == bytes[k].value
  }

  /** Every live block has its contents, and there are no others. */
  ghost predicate Represents(mem: seq<byte>, bs: seq<Block>, c: Contents)
  {
    && c.Keys == Payloads(bs)
    && forall b | b in Live(bs) :: b.Payload() in c && Holds(mem, b, c[b.Payload()])
  }

  lemma HoldsKept(m: seq<byte>, m': seq<byte>, s: set<Block>, b: Block, bytes: seq<Option<byte>>)
    requires Kept(m, m', s) && b in s && Holds(m, b, bytes)
    ensures Holds(m', b, bytes)
  {
    assert Same(m, m', b.addr, b.End());
  }

  /** A block joins the live ones. */
  lemma JoinsContents(m: seq<byte>, m': seq<byte>, ar: Arena, ar': Arena, b: Block, c: Contents,
                      bytes: seq<Option<byte>>)
    requires Adds(ar, ar', b) && Represents(m, ar.blocks, c) && Kept(m, m', Live(ar.blocks)) && Holds(m', b, bytes)
    ensures Represents(m', ar'.blocks, c[b.Payload() := bytes])
  {
    hide Holds, Kept;
    var c' := c[b.Payload() := bytes];
    forall x | x in Live(ar'.blocks)
      ensures x.Payload() in c' && Holds(m', x, c'[x.Payload()])
    {
      if x != b {
        if x.Payload() == b.Payload() { SamePayload(ar', x, b); }
        HoldsKept(m, m', Live(ar.blocks), x, c[x.Payload()]);
      }
    }
  }

  /** A block leaves them. */
  lemma LeavesContents(m: seq<byte>, m': seq<byte>, ar: Arena, ar': Arena, b: Block, c: Contents)
    requires WellFormed(ar) && b in Live(ar.blocks) && Live(ar'.blocks) == Live(ar.blocks) - {b}
    requires Represents(m, ar.blocks, c) && Kept(m, m', Live(ar'.blocks))
    ensures Represents(m', ar'.blocks, c - {b.Payload()})
  {
    hide Holds, Kept;
    forall x | x in Live(ar'.blocks)
      ensures x.Payload() != b.Payload() && x.Payload() in c && Holds(m', x, c[x.Payload()])
    {
      if x.Payload() == b.Payload() { SamePayload(ar, x, b); }
      HoldsKept(m, m', Live(ar'.blocks), x, c[x.Payload()]);
    }
  }

  /** One block takes the place of another. */
  lemma ReplacesContents(m: seq<byte>, m': seq<byte>, ar: Arena, ar': Arena, from: Block, to: Block, c: Contents,
                         bytes: seq<Option<byte>>)
    requires WellFormed(ar) && WellFormed(ar') && from in Live(ar.blocks) && to !in Live(ar.blocks)
    requires Live(ar'.blocks) == Live(ar.blocks) - {from} + {to}
    requires Represents(m, ar.blocks, c) && Kept(m, m', Live(ar.blocks) - {from}) && Holds(m', to, bytes)
    ensures Represents(m', ar'.blocks, (c - {from.Payload()})[to.Payload() := bytes])
  {
    hide Holds, Kept;
    var c' := (c - {from.Payload()})[to.Payload() := bytes];
    forall x | x in Live(ar'.blocks)
      ensures x.Payload() in c' && Holds(m', x, c'[x.Payload()])
    {
      if x != to {
        if x.Payload() == to.Payload() { SamePayload(ar', x, to); }
        if x.Payload() == from.Payload() { SamePayload(ar, x, from); }
        HoldsKept(m, m', Live(ar.blocks) - {from}, x, c[x.Payload()]);
      }
    }
  }

  /** The block that a pointer just returned names. */
  lemma NamesRoom(ar: Arena, b: Block)
    requires WellFormed(ar) && b in Live(ar.blocks)
    ensures LivePtr(ar.blocks, b.Payload()) && BlockAt(ar.blocks, b.Payload()) == b && Room(ar, b.Payload()) == b.size
  {
    NamesBlock(ar, b);
  }

  lemma BlankHolds(m: seq<byte>, ar: Arena, b: Block)
    requires Tiles(ar.blocks, BASE, BASE + |m|) && b in Live(ar.blocks)
    ensures Holds(m, b, Zeroed(b.size, 0))
  {
    BlockMapped(m, ar.blocks);
  }

  lemma ZerosHold(m: seq<byte>, ar: Arena, b: Block, n: nat)
    requires Tiles(ar.blocks, BASE, BASE + |m|) && b in Live(ar.blocks) && n <= b.size
    requires InRange(m, b.Payload(), n) && Bytes(m, b.Payload(), n) == seq(n, _ => 0)
    ensures Holds(m, b, Zeroed(b.size, n))
  {
    BlockMapped(m, ar.blocks);
    forall k | 0 <= k < n
      ensures m[b.Payload() - BASE + k] == Bytes(m, b.Payload(), n)[k] == 0
    {
    }
  }

  lemma CopyHolds(m: seq<byte>, m': seq<byte>, ar: Arena, from: Block, to: Block, bytes: seq<Option<byte>>, size: nat)
    requires Holds(m, from, bytes) && Tiles(ar.blocks, BASE, BASE + |m'|) && to in Live(ar.blocks)
    requires var sz := if from.size < size then from.size else size;
      && InRange(m, from.Payload(), sz) && InRange(m', to.Payload(), sz)
      && Bytes(m', to.Payload(), sz) == Bytes(m, from.Payload(), sz)
    ensures Holds(m', to, Copied(bytes, size, to.size))
  {
    BlockMapped(m', ar.blocks);
    var sz := if from.size < size then from.size else size;
    forall k | 0 <= k < sz
      ensures Bytes(m', to.Payload(), sz)[k] == m'[to.Payload() - BASE + k] == m[from.Payload() - BASE + k]
    {
      assert Bytes(m', to.Payload(), sz)[k] == Bytes(m, from.Payload(), sz)[k];
    }
  }

  /** What a successful realloc does to the live blocks. */
  lemma ReallocateBlocks(ar: Arena, ptr: nat, size: nat, page: nat, granted: bool) returns (from: Block, to: Block)
    requires WellFormed(ar) && PageSize(page) && ptr != NULL && LivePtr(ar.blocks, ptr) && size > 0
    requires Reallocate(ar, ptr, size, page, granted).1 != NULL
    ensures var (ar', ret) := Reallocate(ar, ptr, size, page, granted);
      && from == BlockAt(ar.blocks, ptr) && from in Live(ar.blocks) && to !in Live(ar.blocks)
      && WellFormed(ar') && Live(ar'.blocks) == Live(ar.blocks) - {from} + {to} && ret == to.Payload()
  {
    hide Allocate, WellFormed, Deallocate;
    from := BlockAt(ar.blocks, ptr);
    assert from in Live(ar.blocks);
    to := AllocateKeeps(ar, size, page, granted);
    DeallocateKeeps(Allocate(ar, size, page, granted).0, from) by {
      AddsWellFormed(ar, Allocate(ar, size, page, granted).0, to);
    }
  }

  lemma AddsWellFormed(ar: Arena, ar': Arena, b: Block)
    requires Adds(ar, ar', b)
    ensures WellFormed(ar') && b in Live(ar'.blocks) && b !in Live(ar.blocks)
  {
  }

  // ----- the calls on the heap -----

  method DoMalloc(heap: Heap, size: nat, granted: bool, ghost c: Contents) returns (ret: nat)
    requires heap.Valid() && Represents(heap.mem, heap.blocks, c) && size <= MAX_REQUEST
    modifies heap
    ensures heap.Valid() && (heap.View(), ret) == Allocate(old(heap.View()), size, heap.page, granted)
    ensures Represents(heap.mem, heap.blocks, if ret == NULL then c else c[ret := Zeroed(Room(heap.View(), ret), 0)])
  {
    hide Represents, Repr, Kept, Holds, Allocate, Adds, Zeroed, Tiles, NoAdjacentHoles, Room;
    ghost var (m, ar) := (heap.mem, heap.View());
    ReprTiles(heap.mem, heap.freeList, heap.blocks);
    ret := heap.Malloc(size, granted);
    ghost var b := AllocateKeeps(ar, size, heap.page, granted);
    ReprTiles(heap.mem, heap.freeList, heap.blocks);
    if ret == NULL {
      SameContents(m, heap.mem, ar.blocks, c);
    } else {
      AddsWellFormed(ar, heap.View(), b);
      NamesRoom(heap.View(), b);
      BlankHolds(heap.mem, heap.View(), b);
      JoinsContents(m, heap.mem, ar, heap.View(), b, c, Zeroed(b.size, 0));
    }
  }

  lemma SameContents(m: seq<byte>, m': seq<byte>, bs: seq<Block>, c: Contents)
    requires Represents(m, bs, c) && Kept(m, m', Live(bs))
    ensures Represents(m', bs, c)
  {
    hide Holds, Kept;
    forall b | b in Live(bs)
      ensures Holds(m', b, c[b.Payload()])
    {
      HoldsKept(m, m', Live(bs), b, c[b.Payload()]);
    }
  }

  method DoCalloc(heap: Heap, count: nat, size: nat, granted: bool, ghost c: Contents) returns (ret: nat)
    requires heap.Valid() && Represents(heap.mem, heap.blocks, c) && Product64(count, size) <= MAX_REQUEST
    modifies heap
    ensures var n := Product64(count, size);
      && heap.Valid() && (heap.View(), ret) == Allocate(old(heap.View()), n, heap.page, granted)
      && Represents(heap.mem, heap.blocks, if ret == NULL then c else c[ret := Zeroed(Room(heap.View(), ret), n)])
  {
    hide Represents, Repr, Kept, Holds, Allocate, Adds, Zeroed, Tiles, NoAdjacentHoles, Room, Product64, Bytes;
    ghost var (m, ar, n) := (heap.mem, heap.View(), Product64(count, size));
    ReprTiles(heap.mem, heap.freeList, heap.blocks);
    ret := heap.Calloc(count, size, granted);
    ghost var b := AllocateKeeps(ar, n, heap.page, granted);
    ReprTiles(heap.mem, heap.freeList, heap.blocks);
    if ret == NULL {
      SameContents(m, heap.mem, ar.blocks, c);
    } else {
      AddsWellFormed(ar, heap.View(), b);
      NamesRoom(heap.View(), b);
      ZerosHold(heap.mem, heap.View(), b, n);
      JoinsContents(m, heap.mem, ar, heap.View(), b, c, Zeroed(b.size, n));
    }
  }

  method DoFree(heap: Heap, ptr: nat, ghost c: Contents)
    requires heap.Valid() && Represents(heap.mem, heap.blocks, c) && (ptr == NULL || ptr in Payloads(heap.blocks))
    modifies heap
    ensures heap.Valid() && heap.View() == Deallocate(old(heap.View()), ptr)
    ensures Represents(heap.mem, heap.blocks, c - {ptr})
  {
    hide Represents, Repr, Kept, Holds, Deallocate, Tiles, NoAdjacentHoles, Payloads;
    ghost var (m, ar) := (heap.mem, heap.View());
    ReprTiles(heap.mem, heap.freeList, heap.blocks);
    PayloadIsLive(heap.blocks, ptr);
    heap.Free(ptr);
    if ptr == NULL {
      NullFreed(ar, c, m);
      SameContents(m, heap.mem, ar.blocks, c);
    } else {
      ghost var b := BlockAt(ar.blocks, ptr);
      assert b in Live(ar.blocks);
      DeallocateKeeps(ar, b);
      LeavesContents(m, heap.mem, ar, heap.View(), b, c);
    }
  }

  lemma NullFreed(ar: Arena, c: Contents, m: seq<byte>)
    requires WellFormed(ar) && Represents(m, ar.blocks, c)
    ensures Deallocate(ar, NULL) == ar && c - {NULL} == c
  {
    NullNotHeld(ar);
  }

  method DoRealloc(heap: Heap, ptr: nat, size: nat, granted: bool, ghost c: Contents) returns (ret: nat)
    requires heap.Valid() && Represents(heap.mem, heap.blocks, c) && size <= MAX_REQUEST
    requires ptr != NULL && size > 0 && ptr in Payloads(heap.blocks)
    modifies heap
    ensures heap.Valid() && (heap.View(), ret) == Reallocate(old(heap.View()), ptr, size, heap.page, granted)
    ensures ptr in c && Represents(heap.mem, heap.blocks,
              if ret == NULL then c else (c - {ptr})[ret := Copied(c[ptr], size, Room(heap.View(), ret))])
  {
    hide Represents, Repr, Kept, Holds, Reallocate, Tiles, NoAdjacentHoles, Payloads, Copied, Room, Bytes;
    ghost var (m, ar) := (heap.mem, heap.View());
    ReprTiles(heap.mem, heap.freeList, heap.blocks);
    PayloadIsLive(heap.blocks, ptr);
    ContentsAt(m, ar.blocks, c, ptr);
    ret := heap.Realloc(ptr, size, granted);
    ReprTiles(heap.mem, heap.freeList, heap.blocks);
    if ret == NULL {
      SameContents(m, heap.mem, ar.blocks, c);
    } else {
      ghost var from, to := ReallocateBlocks(ar, ptr, size, heap.page, granted);
      NamesRoom(heap.View(), to);
      CopyHolds(m, heap.mem, heap.View(), from, to, c[ptr], size);
      ReplacesContents(m, heap.mem, ar, heap.View(), from, to, c, Copied(c[ptr], size, to.size));
    }
  }

  lemma ContentsAt(m: seq<byte>, bs: seq<Block>, c: Contents, ptr: nat)
    requires Represents(m, bs, c) && LivePtr(bs, ptr)
    ensures ptr in c && Holds(m, BlockAt(bs, ptr), c[ptr]) && BlockAt(bs, ptr) in Live(bs)
  {
    assert BlockAt(bs, ptr) in Live(bs);
  }

  method DoWrite(heap: Heap, ptr: nat, k: nat, v: byte, ghost c: Contents)
    requires heap.Valid() && Represents(heap.mem, heap.blocks, c) && ptr in c && k < |c[ptr]|
    modifies heap
    ensures heap.Valid() && heap.View() == old(heap.View())
    ensures Represents(heap.mem, heap.blocks, c[ptr := c[ptr][k := Some(v)]])
  {
    hide Repr, Tiles, NoAdjacentHoles, Payloads, Represents, Kept, Holds;
    ghost var (m, ar) := (heap.mem, heap.View());
    ReprTiles(heap.mem, heap.freeList, heap.blocks);
    HeldIsLive(m, ar.blocks, c, ptr);
    ContentsAt(m, ar.blocks, c, ptr);
    BlockHolds(m, BlockAt(ar.blocks, ptr), c[ptr]);
    heap.Write(ptr, k, v);
    WrittenContents(m, heap.mem, ar, BlockAt(ar.blocks, ptr), c, k, v);
  }

  lemma HeldIsLive(m: seq<byte>, bs: seq<Block>, c: Contents, ptr: nat)
    requires Represents(m, bs, c) && ptr in c
    ensures LivePtr(bs, ptr)
  {
    PayloadIsLive(bs, ptr);
  }

  lemma BlockHolds(m: seq<byte>, b: Block, bytes: seq<Option<byte>>)
    requires Holds(m, b, bytes)
    ensures |bytes| == b.size
  {
  }

  lemma WrittenContents(m: seq<byte>, m': seq<byte>, ar: Arena, b: Block, c: Contents, k: nat, v: byte)
    requires WellFormed(ar) && Represents(m, ar.blocks, c) && b in Live(ar.blocks) && k < b.size
    requires Kept(m, m', Live(ar.blocks) - {b})
    requires 0 <= b.Payload() + k - BASE < |m| && m' == m[b.Payload() + k - BASE := v]
    ensures b.Payload() in c && k < |c[b.Payload()]|
    ensures Represents(m', ar.blocks, c[b.Payload() := c[b.Payload()][k := Some(v)]])
  {
    hide Kept;
    var c' := c[b.Payload() := c[b.Payload()][k := Some(v)]];
    forall x | x in Live(ar.blocks)
      ensures x.Payload() in c' && Holds(m', x, c'[x.Payload()])
    {
      if x != b {
        if x.Payload() == b.Payload() { SamePayload(ar, x, b); }
        HoldsKept(m, m', Live(ar.blocks) - {b}, x, c[x.Payload()]);
      }
    }
  }

  lemma NullHasNone(m: seq<byte>, ar: Arena, c: Contents)
    requires WellFormed(ar) && Represents(m, ar.blocks, c)
    ensures NULL !in c && c - {NULL} == c
  {
    NullNotHeld(ar);
  }

  lemma NothingCopied(size: nat, room: nat)
    ensures Copied([], size, room) == Zeroed(room, 0)
  {
  }

  /** One event of a run. */
  method Answer(heap: Heap, e: Event, ghost c: Contents) returns (ret: nat)
    requires heap.Valid() && Represents(heap.mem, heap.blocks, c) && Allowed(Model(heap.View(), c), e)
    modifies heap
    ensures heap.Valid()
    ensures var (m, r) := Step(Model(old(heap.View()), c), heap.page, e);
      heap.View() == m.arena && ret == r && Represents(heap.mem, heap.blocks, m.contents)
  {
    hide Represents, Repr, Holds, Allocate, Deallocate, Tiles, NoAdjacentHoles, Payloads, Copied, Room, Zeroed;
    match e {
      case Do(Malloc(size, granted)) => ret := DoMalloc(heap, size, granted, c);
      case Do(Free(ptr)) =>
        DoFree(heap, ptr, c);
        ret := NULL;
      case Do(Realloc(ptr, size, granted)) =>
        if ptr == NULL {
          ReprTiles(heap.mem, heap.freeList, heap.blocks);
          NullHasNone(heap.mem, heap.View(), c);
          ret := DoMalloc(heap, size, granted, c);
          NothingCopied(size, Room(heap.View(), ret));
        } else if size == 0 {
          DoFree(heap, ptr, c);
          ret := NULL;
        } else {
          ret := DoRealloc(heap, ptr, size, granted, c);
        }
      case Calloc(count, size, granted) => ret := DoCalloc(heap, count, size, granted, c);
      case Write(ptr, k, v) =>
        DoWrite(heap, ptr, k, v, c);
        ret := NULL;
    }
  }

  // ----- runs -----

  ghost predicate AllowedRun(m: Model, page: nat, es: seq<Event>)
    requires PageSize(page)
    decreases |es|
  {
    es == [] || (Allowed(m, es[0]) && AllowedRun(Step(m, page, es[0]).0, page, es[1..]))
  }

  ghost function After(m: Model, page: nat, es: seq<Event>): Model
    requires PageSize(page)
    decreases |es|
  {
    if es == [] then m else After(Step(m, page, es[0]).0, page, es[1..])
  }

  /** What the calls of a run return. */
  ghost function Replies(m: Model, page: nat, es: seq<Event>): seq<nat>
    requires PageSize(page)
    decreases |es|
  {
    if es == [] then [] else [Step(m, page, es[0]).1] + Replies(Step(m, page, es[0]).0, page, es[1..])
  }

  /** Any run of a caller that keeps to its pointers: arena and replies are those specified, and the bytes
      of every live block are the contents specified. */
  method Serve(heap: Heap, es: seq<Event>, ghost c: Contents) returns (replies: seq<nat>)
    requires heap.Valid() && Represents(heap.mem, heap.blocks, c)
    requires AllowedRun(Model(heap.View(), c), heap.page, es)
    modifies heap
    ensures var start := Model(old(heap.View()), c);
      var end := After(start, heap.page, es);
      && heap.Valid() && heap.View() == end.arena && Represents(heap.mem, heap.blocks, end.contents)
      && replies == Replies(start, heap.page, es)
  {
    hide Represents, Repr, NoAdjacentHoles, Step, Allowed;
    ghost var start := Model(heap.View(), c);
    ghost var m := start;
    replies := [];
    var n := 0;
    while n < |es|
      invariant 0 <= n <= |es| && heap.Valid() && m.arena == heap.View()
      invariant Represents(heap.mem, heap.blocks, m.contents)
      invariant AllowedRun(m, heap.page, es[n..])
      invariant After(m, heap.page, es[n..]) == After(start, heap.page, es)
      invariant replies + Replies(m, heap.page, es[n..]) == Replies(start, heap.page, es)
    {
      assert es[n..][0] == es[n] && es[n..][1..] == es[n + 1..];
      assert m == Model(heap.View(), m.contents);
      var reply := Answer(heap, es[n], m.contents);
      m := Step(m, heap.page, es[n]).0;
      replies := replies + [reply];
      n := n + 1;
    }
  }

  // ----- what is written stays -----

  /** The event ends the life of the block at ptr, or writes its byte k. */
  predicate Touches(e: Event, ptr: nat, k: nat)
  {
    match e
    case Do(Malloc(_, _)) => false
    case Do(Free(p)) => p == ptr
    case Do(Realloc(p, _, _)) => p == ptr
    case Calloc(_, _, _) => false
    case Write(p, i, _) => p == ptr && i == k
  }

  /** The contents are those of the live blocks. */
  ghost predicate Sound(m: Model)
  {
    WellFormed(m.arena) && m.contents.Keys == Payloads(m.arena.blocks)
  }

  /** A call hands out nothing that is held. */
  lemma NotHeld(ar: Arena, page: nat, e: Event)
    requires WellFormed(ar) && PageSize(page) && (e.Do? ==> Legal(Payloads(ar.blocks), e.call))
    ensures var (ar', ret) := NextArena(ar, page, e);
      && WellFormed(ar') && (ret != NULL ==> ret !in Payloads(ar.blocks))
      && Payloads(ar'.blocks) == match e
           case Do(call) => Held(Payloads(ar.blocks), call, ret)
           case Calloc(_, _, _) => Payloads(ar.blocks) + (if ret == NULL then {} else {ret})
           case Write(_, _, _) => Payloads(ar.blocks)
  {
    hide WellFormed, Payloads, Allocate, Deallocate;
    match e
    case Do(call) =>
      PerformKeeps(ar, page, call);
      if call.Malloc? || (call.Realloc? && (call.ptr == NULL || call.size > 0)) {
        AllocatePayloads(ar, call.size, page, call.granted);
      }
    case Calloc(count, size, granted) =>
      AllocatePayloads(ar, Product64(count, size), page, granted);
    case Write(_, _, _) =>
  }

  lemma StepSound(m: Model, page: nat, e: Event)
    requires Sound(m) && PageSize(page) && Allowed(m, e)
    ensures Sound(Step(m, page, e).0)
  {
    hide WellFormed, Payloads, NextArena;
    NotHeld(m.arena, page, e);
  }

  /** One event leaves a byte alone that it does not touch. */
  lemma StepLeaves(m: Model, page: nat, e: Event, ptr: nat, k: nat)
    requires Sound(m) && PageSize(page) && Allowed(m, e) && !Touches(e, ptr, k)
    requires ptr in m.contents && k < |m.contents[ptr]|
    ensures var c := Step(m, page, e).0.contents;
      ptr in c && k < |c[ptr]| && c[ptr][k] == m.contents[ptr][k]
  {
    hide WellFormed, Payloads, NextArena;
    NotHeld(m.arena, page, e);
  }

  /** What is written into a block, by its holder, by calloc or by realloc, stays there in every run until
      somebody writes there again or gives the block back. */
  lemma {:induction false} WrittenStays(m: Model, page: nat, es: seq<Event>, ptr: nat, k: nat)
    requires Sound(m) && PageSize(page) && AllowedRun(m, page, es) && forall e | e in es :: !Touches(e, ptr, k)
    requires ptr in m.contents && k < |m.contents[ptr]|
    ensures var c := After(m, page, es).contents;
      ptr in c && k < |c[ptr]| && c[ptr][k] == m.contents[ptr][k]
    decreases |es|
  {
    hide Sound, Step, Allowed, Touches;
    if es != [] {
      StepSound(m, page, es[0]);
      StepLeaves(m, page, es[0], ptr, k);
      WrittenStays(Step(m, page, es[0]).0, page, es[1..], ptr, k);
    }
  }

  // ----- what one event does to the contents -----

  /** Outside of these pointers the contents are what they were. */
  ghost predicate SameBut(c: Contents, c': Contents, ptrs: set<nat>)
  {
    forall p :: p !in ptrs ==> (p in c <==> p in c') && (p in c && p in c' ==> c'[p] == c[p])
  }

  /** At ret there is a new block, with room for n bytes and hardly more. */
  ghost predicate HasRoom(c: Contents, ret: nat, n: nat)
  {
    ret in c && Rounded(n) <= |c[ret]| < Rounded(n) + HOLE
  }

  lemma NewRoom(ar: Arena, ret: nat, n: nat)
    requires FindsRoom(ar, ret, n) && ret != NULL
    ensures Rounded(n) <= Room(ar, ret) < Rounded(n) + HOLE
  {
  }

  /** malloc: a block with nothing in it yet. */
  lemma AfterMalloc(m: Model, page: nat, size: nat, granted: bool)
    requires Sound(m) && PageSize(page)
    ensures var (m', ret) := Step(m, page, Do(Malloc(size, granted)));
      && Answers(m.arena, size, page, granted, ret)
      && SameBut(m.contents, m'.contents, if ret == NULL then {} else {ret})
      && (ret != NULL ==> ret !in m.contents && HasRoom(m'.contents, ret, size)
                          && forall k | 0 <= k < |m'.contents[ret]| :: m'.contents[ret][k] == None)
  {
    hide Allocate, Payloads, WellFormed, Rounded, Room, Answers;
    NotHeld(m.arena, page, Do(Malloc(size, granted)));
    AllocateRoom(m.arena, size, page, granted);
    var (m', ret) := Step(m, page, Do(Malloc(size, granted)));
    if ret != NULL { NewRoom(m'.arena, ret, size); }
  }

  /** calloc: the product as a word holds it, in zeros. */
  lemma AfterCalloc(m: Model, page: nat, count: nat, size: nat, granted: bool)
    requires Sound(m) && PageSize(page)
    ensures var n := count * size % WORDS;
      var (m', ret) := Step(m, page, Calloc(count, size, granted));
      && Answers(m.arena, n, page, granted, ret)
      && SameBut(m.contents, m'.contents, if ret == NULL then {} else {ret})
      && (ret != NULL ==> ret !in m.contents && HasRoom(m'.contents, ret, n)
                          && forall k | 0 <= k < n && k < |m'.contents[ret]| :: m'.contents[ret][k] == Some(0))
  {
    hide Allocate, Payloads, WellFormed, Rounded, Room, Answers;
    var n := Product64(count, size);
    assert n == count * size % WORDS;
    NotHeld(m.arena, page, Calloc(count, size, granted));
    AllocateRoom(m.arena, n, page, granted);
    var (m', ret) := Step(m, page, Calloc(count, size, granted));
    if ret != NULL { NewRoom(m'.arena, ret, n); }
  }

  /** free: the block is gone. */
  lemma AfterFree(m: Model, page: nat, ptr: nat)
    requires Sound(m) && PageSize(page) && Allowed(m, Do(Free(ptr)))
    ensures var (m', ret) := Step(m, page, Do(Free(ptr)));
      && SameBut(m.contents, m'.contents, {ptr}) && ptr !in m'.contents && ret == NULL
      && (ptr == NULL ==> m'.arena == m.arena)
  {
  }

  /** realloc of a block: null and everything as it was, or a block with room for the new size that starts
      with the old bytes, as far as both sizes go, in place of the old one. */
  lemma AfterRealloc(m: Model, page: nat, ptr: nat, size: nat, granted: bool)
    requires Sound(m) && PageSize(page) && Allowed(m, Do(Realloc(ptr, size, granted))) && ptr != NULL && size > 0
    ensures ptr in m.contents
    ensures var (m', ret) := Step(m, page, Do(Realloc(ptr, size, granted)));
      && Answers(m.arena, size, page, granted, ret)
      && (ret == NULL ==> m' == m)
      && (ret != NULL ==>
            && ret !in m.contents && ptr !in m'.contents && SameBut(m.contents, m'.contents, {ptr, ret})
            && HasRoom(m'.contents, ret, size)
            && (forall k | 0 <= k < size && k < |m.contents[ptr]| ::
                  k < |m'.contents[ret]| && m'.contents[ret][k] == m.contents[ptr][k]))
  {
    hide Reallocate, Payloads, WellFormed, Rounded, Room, Allocate, Answers;
    var e := Do(Realloc(ptr, size, granted));
    PayloadIsLive(m.arena.blocks, ptr);
    ReallocateIs(m.arena, ptr, size, page, granted);
    ReallocateRoom(m.arena, ptr, size, page, granted);
    NotHeld(m.arena, page, e);
    var (m', ret) := Step(m, page, e);
    if ret != NULL { NewRoom(m'.arena, ret, size); }
  }

  /** A store: the byte is there, and no other has changed. */
  lemma AfterWrite(m: Model, page: nat, ptr: nat, k: nat, v: byte)
    requires PageSize(page) && Allowed(m, Write(ptr, k, v))
    ensures var m' := Step(m, page, Write(ptr, k, v)).0;
      && m'.arena == m.arena && SameBut(m.contents, m'.contents, {ptr})
      && ptr in m'.contents && |m'.contents[ptr]| == |m.contents[ptr]| && m'.contents[ptr][k] == Some(v)
      && forall i | 0 <= i < |m.contents[ptr]| && i != k :: m'.contents[ptr][i] == m.contents[ptr][i]
  {
  }
}
