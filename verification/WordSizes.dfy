/** The sizes of exercises/ex11/myMalloc.c as 64-bit words, which wrap around: when malloc and calloc do
    what they do on unbounded sizes. */
module WordSizes {
  import opened Common
  import opened Memory
  import opened Blocks
  import opened ArenaRuns

  /** The largest request that malloc answers as it should. */
  const MAX_REQUEST: nat := WORDS - WORD

  /** Whole words; no page is anywhere near as large as the first address is high. */
  predicate PageSize(page: nat)
  {
    0 < page <= BASE && page % 8 == 0
  }

  /** A sum as a 64-bit word holds it. */
  function Word64(x: nat): (w: nat)
    ensures w < WORDS && (x < WORDS ==> w == x) && (WORDS <= x < 2 * WORDS ==> w == x - WORDS)
  {
    x % WORDS
  }

  /** x / unit * unit */
  function Down(x: nat, unit: nat): (r: nat)
    requires unit > 0
    ensures r <= x < r + unit
  {
    x / unit * unit
  }

  lemma DownSteps(x: nat, unit: nat)
    requires unit > 0
    ensures x < unit ==> Down(x, unit) == 0
    ensures x >= unit ==> Down(x, unit) >= unit
    ensures unit <= x < 2 * unit ==> Down(x, unit) == unit
  {
    var q := x / unit;
    assert q == 0 ==> q * unit == 0;
    if x >= unit {
      assert q >= 1;
      assert q * unit == unit + (q - 1) * unit;
      if q >= 2 { assert (q - 1) * unit >= unit; }
    }
  }

  /** What malloc looks for, and what it asks of mmap. */
  function Rounded64(size: nat): nat
  {
    Down(Word64((if size < WORD then WORD else size) + 3), 4)
  }

  function Pages64(n: nat, page: nat): nat
    requires page > 0
  {
    Down(Word64(Word64(n + WORD) + page - 1), page)
  }

  lemma RoundedIsDown(size: nat, page: nat)
    requires page > 0 && page % 8 == 0
    ensures Rounded(size) == Down((if size < WORD then WORD else size) + 3, 4)
    ensures Pages(Rounded(size), page) == Down(Rounded(size) + WORD + page - 1, page)
  {
  }

  /** Up to MAX_REQUEST the sizes are the unbounded ones, except that pages beyond the address space
      become a request for none. */
  lemma RoundsRight(size: nat, page: nat)
    requires size <= MAX_REQUEST && PageSize(page)
    ensures Rounded64(size) == Rounded(size) <= MAX_REQUEST
    ensures var n := Rounded(size);
      Pages64(n, page) == Pages(n, page) || (Pages64(n, page) == 0 && BASE + Pages(n, page) >= WORDS)
  {
    hide Pages, Down, Word64, Rounded;
    RoundedIsDown(size, page);
    var sum := Word64(Rounded(size) + WORD) + page - 1;
    DownSteps(Word64(sum), page);
    DownSteps(sum, page);
  }

  /** Beyond it a request turns into one for a single page. */
  lemma RoundsWrong(size: nat, page: nat)
    requires MAX_REQUEST < size < WORDS && PageSize(page)
    ensures Rounded64(size) == 0 || Rounded64(size) == WORDS - 4
    ensures Pages64(Rounded64(size), page) == page
  {
    hide Word64;
    assert Rounded64(size) == if size + 3 < WORDS then WORDS - 4 else 0;
    DownSteps(Word64(Rounded64(size) + WORD) + page - 1, page);
  }

  /** The end of malloc on words. None: the cut passes its test and writes a header outside the block. */
  function Carve64(bs: seq<Block>, k: nat, n: nat, top: nat): Option<Arena>
    requires k < |bs|
  {
    if Word64(n + HOLE) > bs[k].size then Some(Arena(bs, top))
    else if n + HOLE > bs[k].size then None
    else Some(Arena(Carve(bs, k, n), top))
  }

  /** malloc on words; mmap refuses to map no bytes. */
  function Allocate64(ar: Arena, size: nat, page: nat, granted: bool): (Option<Arena>, nat)
    requires PageSize(page)
  {
    var n := Rounded64(size);
    var k := FirstFit(ar.blocks, n, 0);
    if k < |ar.blocks| then
      (Carve64(ar.blocks[k := ar.blocks[k].(free := false)], k, n, ar.top), ar.blocks[k].Payload())
    else
      var req := Pages64(n, page);
      if req > 0 && CanGrow(ar, req, granted) then
        DownSteps(Word64(Word64(n + WORD) + page - 1), page);
        (Carve64(ar.blocks + [Block(ar.top, req - WORD, false)], k, n, ar.top + req), ar.top + WORD)
      else
        (Some(ar), NULL)
  }

  /** An arena as malloc can find it: it ends inside the address space, after whole pages. */
  ghost predicate Reachable(ar: Arena, page: nat)
  {
    WellFormed(ar) && ar.top < WORDS && WholePages(ar.top - BASE, page)
  }

  predicate WholePages(extent: int, page: nat)
  {
    page > 0 && extent % page == 0
  }

  lemma EmptyReachable(page: nat)
    requires page > 0
    ensures Reachable(Arena([], BASE), page)
  {
  }

  /** What is asked of mmap is the least number of whole pages that suffices. */
  lemma PagesLeast(n: nat, page: nat, extent: nat)
    requires page > 0 && page % 8 == 0 && WholePages(extent, page) && extent >= n + WORD
    ensures Pages(n, page) <= extent
  {
    var (pages, q) := ((n + WORD + page - 1) / page, extent / page);
    PagesTimes(n, page);
    assert extent == q * page;
    if pages <= q {
      TimesKeepsOrder(pages, q, page);
    } else {
      TimesKeepsOrder(q + 1, pages, page);
      assert false;
    }
  }

  lemma PagesTimes(n: nat, page: nat)
    requires page > 0 && page % 8 == 0
    ensures Pages(n, page) == (n + WORD + page - 1) / page * page
    ensures WholePages(Pages(n, page), page)
  {
    RemainderIs(Pages(n, page), page, (n + WORD + page - 1) / page, 0);
  }

  lemma WholePagesAdd(x: int, y: int, page: nat)
    requires WholePages(x, page) && WholePages(y, page)
    ensures WholePages(x + y, page)
  {
    var (p, q) := (x / page, y / page);
    assert (p + q) * page == p * page + q * page;
    RemainderIs(x + y, page, p + q, 0);
  }

  /** No call leads out of these arenas. */
  lemma StaysReachable(ar: Arena, page: nat, call: Call)
    requires Reachable(ar, page) && PageSize(page) && Legal(Payloads(ar.blocks), call)
    ensures Reachable(Perform(ar, page, call).0, page)
  {
    hide Payloads, WellFormed, Held, Pages, WholePages, LivePtr;
    PerformKeeps(ar, page, call);
    match call
    case Malloc(size, granted) => TopAfter(ar, size, page, granted);
    case Free(ptr) =>
    case Realloc(ptr, size, granted) => TopAfter(ar, size, page, granted);
  }

  lemma TopAfter(ar: Arena, size: nat, page: nat, granted: bool)
    requires Reachable(ar, page) && PageSize(page)
    ensures var top := Allocate(ar, size, page, granted).0.top;
      top < WORDS && WholePages(top - BASE, page)
  {
    var n := Rounded(size);
    hide WholePages, Pages, Rounded, Carve;
    PagesTimes(n, page);
    WholePagesAdd(ar.top - BASE, Pages(n, page), page);
  }

  lemma TopAboveBase(ar: Arena)
    requires WellFormed(ar)
    ensures ar.top >= BASE && forall b | b in ar.blocks :: BASE <= b.addr && b.End() <= ar.top
  {
    AllOrdered(ar.blocks, BASE, ar.top);
  }

  /** The reply on words is the reply on unbounded sizes. */
  ghost predicate SameReply(ar: Arena, size: nat, page: nat, granted: bool)
    requires PageSize(page)
  {
    Allocate64(ar, size, page, granted).1 == Allocate(ar, size, page, granted).1
  }

  lemma AllocateAgrees(ar: Arena, size: nat, page: nat, granted: bool)
    requires Reachable(ar, page) && size <= MAX_REQUEST && PageSize(page)
    ensures var (after, ptr) := Allocate(ar, size, page, granted);
      Allocate64(ar, size, page, granted) == (Some(after), ptr)
  {
    hide Rounded64, Rounded, Pages64, Pages, Word64, Carve, FirstFit, WellFormed;
    RoundsRight(size, page);
    TopAboveBase(ar);
    var n := Rounded(size);
    var k := FirstFit(ar.blocks, n, 0);
    if k < |ar.blocks| {
      assert ar.blocks[k] in ar.blocks;
      CarveAgrees(ar.blocks[k := ar.blocks[k].(free := false)], k, n, ar.top);
    } else if CanGrow(ar, Pages(n, page), granted) {
      CarveAgrees(ar.blocks + [Block(ar.top, Pages(n, page) - WORD, false)], k, n, ar.top + Pages(n, page));
    }
  }

  lemma CarveAgrees(bs: seq<Block>, k: nat, n: nat, top: nat)
    requires k < |bs| && n + HOLE < WORDS
    ensures Carve64(bs, k, n, top) == Some(Arena(Carve(bs, k, n), top))
  {
    hide Split, Release;
  }

  /** malloc on words replies as malloc on unbounded sizes does, in every arena and whatever the system
      answers, if and only if the request is at most MAX_REQUEST; then the arenas agree as well. */
  lemma MallocOnWords(size: nat, page: nat)
    requires size < WORDS && PageSize(page)
    ensures size <= MAX_REQUEST <==> forall ar, granted :: Reachable(ar, page) ==> SameReply(ar, size, page, granted)
    ensures size <= MAX_REQUEST ==> forall ar, granted :: Reachable(ar, page) ==>
              Allocate64(ar, size, page, granted) ==
                (Some(Allocate(ar, size, page, granted).0), Allocate(ar, size, page, granted).1)
  {
    if size <= MAX_REQUEST {
      forall ar, granted | Reachable(ar, page)
        ensures Allocate64(ar, size, page, granted) ==
                  (Some(Allocate(ar, size, page, granted).0), Allocate(ar, size, page, granted).1)
        ensures SameReply(ar, size, page, granted)
      {
        AllocateAgrees(ar, size, page, granted);
      }
    } else {
      var none := Arena([], BASE);
      RoundsWrong(size, page);
      EmptyReachable(page);
      assert !SameReply(none, size, page, true);
    }
  }

  // ----- calloc -----

  /** malloc of n bytes on words fails, or hands out a block with room for need bytes. */
  ghost predicate Serves(ar: Arena, n: nat, page: nat, granted: bool, need: nat)
    requires PageSize(page)
  {
    var (after, ptr) := Allocate64(ar, n, page, granted);
    ptr == NULL || (after.Some? && exists b | b in Live(after.value.blocks) :: b.Payload() == ptr && b.size >= need)
  }

  /** What calloc asks malloc for. */
  function Product64(count: nat, size: nat): nat
  {
    Word64(count * size)
  }

  /** The product is right, or no pages can be mapped even for what is left of it. */
  predicate ProductServes(count: nat, size: nat, page: nat)
    requires PageSize(page)
  {
    var n := Product64(count, size);
    n <= MAX_REQUEST && (count * size < WORDS || BASE + Pages(Rounded(n), page) >= WORDS)
  }

  lemma RightProduct(ar: Arena, n: nat, page: nat, granted: bool)
    requires Reachable(ar, page) && n <= MAX_REQUEST && PageSize(page)
    ensures Serves(ar, n, page, granted, n)
  {
    hide Allocate64, Allocate, Live;
    AllocateAgrees(ar, n, page, granted);
    var b := AllocateKeeps(ar, n, page, granted);
  }

  lemma NoRoom(ar: Arena, n: nat, page: nat, granted: bool, need: nat)
    requires Reachable(ar, page) && n <= MAX_REQUEST && PageSize(page) && BASE + Pages(Rounded(n), page) >= WORDS
    ensures Serves(ar, n, page, granted, need)
  {
    hide Allocate64, Carve, WholePages, Pages, WellFormed;
    AllocateAgrees(ar, n, page, granted);
    TopAboveBase(ar);
    forall k | 0 <= k < |ar.blocks|
      ensures !Fits(ar.blocks[k], Rounded(n))
    {
      assert ar.blocks[k] in ar.blocks;
      if ar.blocks[k].size >= Rounded(n) {
        PagesLeast(Rounded(n), page, ar.top - BASE);
      }
    }
  }

  /** A request that wraps in malloc gets a page or less, even in a fresh arena. */
  lemma WrappedRequest(n: nat, page: nat, need: nat)
    requires MAX_REQUEST < n < WORDS && PageSize(page) && need >= n
    ensures !Serves(Arena([], BASE), n, page, true, need)
  {
    RoundsWrong(n, page);
    hide Rounded64, Pages64;
    var (n64, one) := (Rounded64(n), [Block(BASE, page - WORD, false)]);
    assert [] + one == one;
    SmallBlocks(one, n64, page);
  }

  lemma SmallBlocks(one: seq<Block>, n: nat, page: nat)
    requires page >= WORD && one == [Block(BASE, page - WORD, false)]
    ensures var after := Carve64(one, 0, n, BASE + page);
      after.Some? ==> forall b | b in Live(after.value.blocks) :: b.size <= page
  {
  }

  /** A product that wraps can get a block, and no block has room for the true product. */
  lemma WrappedProduct(n: nat, page: nat, need: nat)
    requires n <= MAX_REQUEST && PageSize(page) && need >= WORDS && BASE + Pages(Rounded(n), page) < WORDS
    ensures !Serves(Arena([], BASE), n, page, true, need)
  {
    hide Allocate64, Carve, Rounded, Pages;
    var none := Arena([], BASE);
    EmptyReachable(page);
    AllocateAgrees(none, n, page, true);
    var b := AllocateKeeps(none, n, page, true);
    TopAboveBase(Allocate(none, n, page, true).0);
  }

  /** calloc returns null or a block of at least count * size bytes, in every arena that malloc can find
      and whatever the system answers, if and only if the product serves. */
  lemma CallocOnWords(count: nat, size: nat, page: nat)
    requires PageSize(page)
    ensures ProductServes(count, size, page) <==>
            forall ar, granted :: Reachable(ar, page) ==>
              Serves(ar, Product64(count, size), page, granted, count * size)
  {
    var (n, need) := (Product64(count, size), count * size);
    hide Serves, Reachable, Rounded, Pages;
    if ProductServes(count, size, page) {
      forall ar, granted | Reachable(ar, page)
        ensures Serves(ar, n, page, granted, need)
      {
        if need < WORDS { RightProduct(ar, n, page, granted); } else { NoRoom(ar, n, page, granted, need); }
      }
    } else {
      EmptyReachable(page);
      if n > MAX_REQUEST { WrappedRequest(n, page, need); } else { WrappedProduct(n, page, need); }
    }
  }
}
