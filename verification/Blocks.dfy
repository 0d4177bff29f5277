/** The allocator of exercises/ex11/myMalloc.c one level up: the arena as a row of blocks, each a
    size word followed by `size` bytes, either free (a hole) or handed out. */
module Blocks {
  import opened Memory

  datatype Block = Block(addr: nat, size: nat, free: bool) {
    /** The address just past the block: h->mem + h->size. */
    function End(): nat { addr + WORD + size }

    /** The address given to the caller: h->mem. */
    function Payload(): nat { addr + WORD }
  }

  /** The blocks lie end to end from lo to hi, each large enough to hold a link. */
  ghost predicate Tiles(bs: seq<Block>, lo: nat, hi: nat)
  {
    && (forall i | 0 <= i < |bs| :: bs[i].size >= WORD && bs[i].size % 4 == 0)
    && (forall i, j | 0 <= i < j < |bs| && j <= i + 1 :: bs[i].End() == bs[j].addr)
    && if bs == [] then lo == hi else bs[0].addr == lo && bs[|bs| - 1].End() == hi
  }

  ghost predicate NoAdjacentHoles(bs: seq<Block>)
  {
    forall i, j | 0 <= i < j < |bs| && j <= i + 1 :: !(bs[i].free && bs[j].free)
  }

  lemma {:induction false} Ordered(bs: seq<Block>, lo: nat, hi: nat, i: nat, j: nat)
    requires Tiles(bs, lo, hi) && i < j < |bs|
    ensures bs[i].End() <= bs[j].addr
  {
    if i + 1 < j {
      Ordered(bs, lo, hi, i, j - 1);
    }
  }

  lemma AllOrdered(bs: seq<Block>, lo: nat, hi: nat)
    requires Tiles(bs, lo, hi)
    ensures forall i, j | 0 <= i < j < |bs| :: bs[i].End() <= bs[j].addr
    ensures forall i | 0 <= i < |bs| :: lo <= bs[i].addr && bs[i].End() <= hi
  {
    forall i, j | 0 <= i < j < |bs|
      ensures bs[i].End() <= bs[j].addr
    {
      Ordered(bs, lo, hi, i, j);
    }
    forall i | 0 <= i < |bs|
      ensures lo <= bs[i].addr && bs[i].End() <= hi
    {
      if i > 0 { Ordered(bs, lo, hi, 0, i); }
      if i < |bs| - 1 { Ordered(bs, lo, hi, i, |bs| - 1); }
    }
  }

  // ----- the free list, as it follows from the blocks -----

  /** The link a node before index k must hold: the first hole at index k or later, or NULL. */
  ghost function NextHole(bs: seq<Block>, k: nat): nat
    decreases |bs| - k
  {
    if k >= |bs| then NULL else if bs[k].free then bs[k].addr else NextHole(bs, k + 1)
  }

  /** The index NextHole stops at. */
  ghost function HoleIndex(bs: seq<Block>, k: nat): (c: nat)
    requires k <= |bs|
    ensures k <= c <= |bs|
    ensures forall j | k <= j < c :: !bs[j].free
    ensures c < |bs| ==> bs[c].free
    ensures NextHole(bs, k) == if c < |bs| then bs[c].addr else NULL
    decreases |bs| - k
  {
    if k == |bs| || bs[k].free then k else HoleIndex(bs, k + 1)
  }

  /** NextHole looks at nothing but the holes from k on. */
  lemma {:induction false} NextHoleShift(bs: seq<Block>, k: nat, bs': seq<Block>, k': nat)
    requires k <= |bs| && k' <= |bs'| && |bs| - k == |bs'| - k'
    requires forall i, j | k <= i < |bs| && k' <= j < |bs'| && i - k == j - k' ::
               bs[i].free == bs'[j].free && bs[i].addr == bs'[j].addr
    ensures NextHole(bs, k) == NextHole(bs', k')
    decreases |bs| - k
  {
    if k < |bs| {
      assert bs[k].free == bs'[k'].free && bs[k].addr == bs'[k'].addr;
      if !bs[k].free {
        NextHoleShift(bs, k + 1, bs', k' + 1);
      }
    }
  }

  // ----- what the operations do to the blocks -----

  /** Block i swallows block i + 1. */
  function AbsorbNext(bs: seq<Block>, i: nat): seq<Block>
    requires i + 1 < |bs|
  {
    bs[..i] + [Block(bs[i].addr, bs[i].size + bs[i + 1].size + WORD, true)] + bs[i + 2..]
  }

  /** returnBlock: block i becomes a hole, merged with a hole right behind or right before it. */
  function Release(bs: seq<Block>, i: nat): seq<Block>
    requires i < |bs|
  {
    var freed := bs[i := bs[i].(free := true)];
    var right := if i + 1 < |freed| && freed[i + 1].free then AbsorbNext(freed, i) else freed;
    if i > 0 && right[i - 1].free then AbsorbNext(right, i - 1) else right
  }

  /** Block k is cut after n bytes; the rest becomes a block of its own. */
  function Split(bs: seq<Block>, k: nat, n: nat): seq<Block>
    requires k < |bs| && n + HOLE <= bs[k].size
  {
    bs[..k] + [Block(bs[k].addr, n, false), Block(bs[k].addr + WORD + n, bs[k].size - n - WORD, false)] + bs[k + 1..]
  }

  /** The end of malloc: keep n bytes of block k and give back the rest if it can hold a hole. */
  function Carve(bs: seq<Block>, k: nat, n: nat): seq<Block>
    requires k < |bs|
  {
    if n + HOLE <= bs[k].size then Release(Split(bs, k, n), k + 1) else bs
  }

  predicate Fits(b: Block, n: nat) { b.free && b.size >= n }

  /** The lowest index from k on of a hole of at least n bytes, |bs| if there is none. */
  function FirstFit(bs: seq<Block>, n: nat, k: nat): (c: nat)
    requires k <= |bs|
    ensures k <= c <= |bs|
    ensures forall j | k <= j < c :: !Fits(bs[j], n)
    ensures c < |bs| ==> Fits(bs[c], n)
    decreases |bs| - k
  {
    if k == |bs| || Fits(bs[k], n) then k else FirstFit(bs, n, k + 1)
  }

  lemma {:induction false} FirstFitIs(bs: seq<Block>, n: nat, k: nat, c: nat)
    requires k <= c <= |bs| && (forall j | k <= j < c :: !Fits(bs[j], n)) && (c < |bs| ==> Fits(bs[c], n))
    ensures FirstFit(bs, n, k) == c
    decreases c - k
  {
    if k < c { FirstFitIs(bs, n, k + 1, c); }
  }

  /** The size malloc looks for: at least a link, rounded up to a multiple of 4. */
  function Rounded(size: nat): (n: nat)
    ensures n >= size && n >= WORD && n % 4 == 0
    ensures n < size + 4 || n == WORD
  {
    ((if size < WORD then WORD else size) + 3) / 4 * 4
  }

  /** The bytes asked of mmap for a block of n bytes: whole pages. */
  function Pages(n: nat, page: nat): (req: nat)
    requires page > 0 && page % 8 == 0
    ensures n + WORD <= req < n + WORD + page && req % 8 == 0
  {
    var pages := (n + WORD + page - 1) / page;
    var req := pages * page;
    assert req == 8 * (pages * (page / 8));
    req
  }

  /** The arena: the blocks, and the first address not yet mapped (nextBlock). */
  datatype Arena = Arena(blocks: seq<Block>, top: nat)

  ghost predicate WellFormed(ar: Arena)
  {
    Tiles(ar.blocks, BASE, ar.top) && NoAdjacentHoles(ar.blocks)
  }

  /** mmap hands over req more bytes at top if the system is willing and the addresses exist. */
  predicate CanGrow(ar: Arena, req: nat, granted: bool)
  {
    granted && ar.top + req < WORDS
  }

  /** malloc on the blocks: the new arena and the address returned. */
  function Allocate(ar: Arena, size: nat, page: nat, granted: bool): (Arena, nat)
    requires page > 0 && page % 8 == 0
  {
    var n := Rounded(size);
    var k := FirstFit(ar.blocks, n, 0);
    if k < |ar.blocks| then
      (ar.(blocks := Carve(ar.blocks[k := ar.blocks[k].(free := false)], k, n)), ar.blocks[k].Payload())
    else
      var req := Pages(n, page);
      if CanGrow(ar, req, granted) then
        (Arena(Carve(ar.blocks + [Block(ar.top, req - WORD, false)], k, n), ar.top + req), ar.top + WORD)
      else
        (ar, NULL)
  }

  /** ptr was handed out and not given back. */
  ghost predicate LivePtr(bs: seq<Block>, ptr: nat)
  {
    exists i :: 0 <= i < |bs| && !bs[i].free && bs[i].Payload() == ptr
  }

  ghost function IndexOf(bs: seq<Block>, ptr: nat): (i: nat)
    requires LivePtr(bs, ptr)
    ensures i < |bs| && !bs[i].free && bs[i].Payload() == ptr
  {
    var i :| 0 <= i < |bs| && !bs[i].free && bs[i].Payload() == ptr;
    i
  }

  ghost function BlockAt(bs: seq<Block>, ptr: nat): (b: Block)
    requires LivePtr(bs, ptr)
    ensures b in bs && !b.free && b.Payload() == ptr
  {
    bs[IndexOf(bs, ptr)]
  }

  /** free on the blocks; the caller owes NULL or a live pointer. */
  ghost function Deallocate(ar: Arena, ptr: nat): Arena
  {
    if ptr != NULL && LivePtr(ar.blocks, ptr) then ar.(blocks := Release(ar.blocks, IndexOf(ar.blocks, ptr))) else ar
  }

  // ----- what the operations keep -----

  /** The blocks handed out. */
  ghost function Live(bs: seq<Block>): set<Block>
  {
    set b | b in bs && !b.free
  }

  lemma AbsorbNextTiles(bs: seq<Block>, i: nat, lo: nat, hi: nat)
    requires Tiles(bs, lo, hi) && i + 1 < |bs|
    ensures Tiles(AbsorbNext(bs, i), lo, hi)
  {
    var bs' := AbsorbNext(bs, i);
    assert forall j | 0 <= j < i :: bs'[j] == bs[j];
    assert forall j | i < j < |bs'| :: bs'[j] == bs[j + 1];
    assert bs'[i].size % 4 == 0;
    assert forall j | 0 <= j < |bs'| :: bs'[j].size >= WORD && bs'[j].size % 4 == 0;
  }

  lemma AbsorbNextLive(bs: seq<Block>, i: nat)
    requires i + 1 < |bs| && bs[i].free && bs[i + 1].free
    ensures Live(AbsorbNext(bs, i)) == Live(bs)
  {
    assert bs == bs[..i] + [bs[i], bs[i + 1]] + bs[i + 2..];
  }

  lemma AbsorbNextKeeps(bs: seq<Block>, i: nat, lo: nat, hi: nat)
    requires Tiles(bs, lo, hi) && i + 1 < |bs| && bs[i].free && bs[i + 1].free
    ensures Tiles(AbsorbNext(bs, i), lo, hi)
    ensures Live(AbsorbNext(bs, i)) == Live(bs)
  {
    hide Tiles, Live, AbsorbNext;
    AbsorbNextTiles(bs, i, lo, hi);
    AbsorbNextLive(bs, i);
  }

  /** Marking a block as free or not moves nothing. */
  lemma MarkTiles(bs: seq<Block>, i: nat, free: bool, lo: nat, hi: nat)
    requires Tiles(bs, lo, hi) && i < |bs|
    ensures Tiles(bs[i := bs[i].(free := free)], lo, hi)
  {
  }

  lemma FreeLive(bs: seq<Block>, i: nat, lo: nat, hi: nat)
    requires Tiles(bs, lo, hi) && i < |bs| && !bs[i].free
    ensures Live(bs[i := bs[i].(free := true)]) == Live(bs) - {bs[i]}
  {
    AllOrdered(bs, lo, hi);
    hide Tiles;
    var bs' := bs[i := bs[i].(free := true)];
    assert forall j | 0 <= j < |bs| && j != i :: bs'[j] == bs[j] && bs[j] != bs[i];
  }

  lemma TakeLive(bs: seq<Block>, i: nat, lo: nat, hi: nat)
    requires Tiles(bs, lo, hi) && i < |bs| && bs[i].free
    ensures Live(bs[i := bs[i].(free := false)]) == Live(bs) + {bs[i].(free := false)}
    ensures forall b | b in Live(bs) :: b.addr != bs[i].addr
    ensures Live(bs) <= Live(bs[i := bs[i].(free := false)]) - {bs[i].(free := false)}
  {
    AllOrdered(bs, lo, hi);
    hide Tiles;
    var bs' := bs[i := bs[i].(free := false)];
    assert forall j | 0 <= j < |bs| && j != i :: bs'[j] == bs[j] && bs[j].addr != bs[i].addr;
    assert bs'[i] in bs';
    assert forall b | b in bs :: b == bs[i] || b in bs';
  }

  lemma AppendLive(bs: seq<Block>, b: Block, lo: nat, hi: nat)
    requires Tiles(bs, lo, hi) && b.addr == hi && !b.free
    ensures Live(bs) <= Live(bs + [b]) - {b}
  {
    AllOrdered(bs, lo, hi);
  }

  /** Swallowing the next block leaves the blocks up to i where they are. */
  lemma AbsorbedBlock(bs: seq<Block>, i: nat)
    requires i + 1 < |bs|
    ensures |AbsorbNext(bs, i)| == |bs| - 1
    ensures forall j | 0 <= j < i :: AbsorbNext(bs, i)[j] == bs[j]
    ensures AbsorbNext(bs, i)[i].addr == bs[i].addr && AbsorbNext(bs, i)[i].free
  {
  }

  lemma ReleaseKeeps(bs: seq<Block>, i: nat, lo: nat, hi: nat)
    requires Tiles(bs, lo, hi) && i < |bs| && !bs[i].free
    ensures Tiles(Release(bs, i), lo, hi)
    ensures Live(Release(bs, i)) == Live(bs) - {bs[i]}
  {
    var freed := bs[i := bs[i].(free := true)];
    MarkTiles(bs, i, true, lo, hi);
    FreeLive(bs, i, lo, hi);
    hide Tiles, Live;
    if i + 1 < |freed| && freed[i + 1].free { AbsorbNextKeeps(freed, i, lo, hi); }
    var right := if i + 1 < |freed| && freed[i + 1].free then AbsorbNext(freed, i) else freed;
    if i > 0 && right[i - 1].free { AbsorbNextKeeps(right, i - 1, lo, hi); }
  }

  /** Holes touch, if at all, at block i. */
  ghost predicate HolesTouchOnlyAt(bs: seq<Block>, i: nat)
  {
    forall p, q | 0 <= p < q < |bs| && q <= p + 1 :: bs[p].free && bs[q].free ==> p == i || q == i
  }

  lemma AbsorbNextSeparates(bs: seq<Block>, i: nat, at: nat)
    requires i + 1 < |bs| && bs[i].free && bs[i + 1].free && HolesTouchOnlyAt(bs, at) && i <= at <= i + 1
    ensures HolesTouchOnlyAt(AbsorbNext(bs, i), i)
    ensures at == i + 1 && (at + 1 < |bs| ==> !bs[at + 1].free) ==> NoAdjacentHoles(AbsorbNext(bs, i))
    ensures i == 0 && at == 0 && (2 < |bs| ==> !bs[2].free)  ==> NoAdjacentHoles(AbsorbNext(bs, i))
  {
    var bs' := AbsorbNext(bs, i);
    assert forall j | 0 <= j < i :: bs'[j] == bs[j];
    assert forall j | i < j < |bs'| :: bs'[j] == bs[j + 1];
  }

  lemma ReleaseSeparates(bs: seq<Block>, i: nat)
    requires i < |bs| && !bs[i].free && NoAdjacentHoles(bs)
    ensures NoAdjacentHoles(Release(bs, i))
  {
    var freed := bs[i := bs[i].(free := true)];
    assert HolesTouchOnlyAt(freed, i);
    var right := freed;
    if i + 1 < |freed| && freed[i + 1].free {
      AbsorbNextSeparates(freed, i, i);
      right := AbsorbNext(freed, i);
      assert i + 1 < |right| ==> right[i + 1] == bs[i + 2];
    }
    if i > 0 && right[i - 1].free {
      AbsorbNextSeparates(right, i - 1, i);
    }
  }

  lemma FourLeft(size: nat, n: nat)
    requires size % 4 == 0 && n % 4 == 0 && n + HOLE <= size
    ensures (size - n - WORD) % 4 == 0
  {
  }

  lemma SplitTiles(bs: seq<Block>, k: nat, n: nat, lo: nat, hi: nat)
    requires Tiles(bs, lo, hi) && k < |bs|
    requires n >= WORD && n % 4 == 0 && n + HOLE <= bs[k].size
    ensures Tiles(Split(bs, k, n), lo, hi)
  {
    var bs' := Split(bs, k, n);
    assert forall j | 0 <= j < k :: bs'[j] == bs[j];
    assert forall j | k + 1 < j < |bs'| :: bs'[j] == bs[j - 1];
    FourLeft(bs[k].size, n);
    assert forall i | 0 <= i < |bs'| :: bs'[i].size >= WORD && bs'[i].size % 4 == 0;
    assert bs'[k].addr == bs[k].addr && bs'[k].End() == bs'[k + 1].addr && bs'[k + 1].End() == bs[k].End();
  }

  lemma SplitLive(bs: seq<Block>, k: nat, n: nat, lo: nat, hi: nat)
    requires Tiles(bs, lo, hi) && k < |bs| && !bs[k].free && n + HOLE <= bs[k].size
    ensures Live(Split(bs, k, n)) == Live(bs) - {bs[k]} + {Split(bs, k, n)[k], Split(bs, k, n)[k + 1]}
    ensures Split(bs, k, n)[k + 1] !in Live(bs)
  {
    AllOrdered(bs, lo, hi);
    assert bs == bs[..k] + [bs[k]] + bs[k + 1..];
  }

  lemma SplitSeparates(bs: seq<Block>, k: nat, n: nat)
    requires NoAdjacentHoles(bs) && k < |bs| && !bs[k].free && n + HOLE <= bs[k].size
    ensures NoAdjacentHoles(Split(bs, k, n))
  {
    var bs' := Split(bs, k, n);
    assert forall j | 0 <= j < k :: bs'[j] == bs[j];
    assert forall j | k + 1 < j < |bs'| :: bs'[j] == bs[j - 1];
  }

  lemma CarveKeeps(bs: seq<Block>, k: nat, n: nat, lo: nat, hi: nat)
    requires Tiles(bs, lo, hi) && NoAdjacentHoles(bs) && k < |bs| && !bs[k].free
    requires n >= WORD && n % 4 == 0 && n <= bs[k].size
    ensures Tiles(Carve(bs, k, n), lo, hi) && NoAdjacentHoles(Carve(bs, k, n))
    ensures exists size | n <= size < n + HOLE ::
              Live(Carve(bs, k, n)) == Live(bs) - {bs[k]} + {Block(bs[k].addr, size, false)}
  {
    if n + HOLE <= bs[k].size {
      hide Tiles, NoAdjacentHoles, Live, Split, Release;
      var cut := Split(bs, k, n);
      SplitTiles(bs, k, n, lo, hi);
      SplitLive(bs, k, n, lo, hi);
      SplitSeparates(bs, k, n);
      SplitPieces(bs, k, n);
      ReleaseKeeps(cut, k + 1, lo, hi);
      ReleaseSeparates(cut, k + 1);
      assert Live(Carve(bs, k, n)) == Live(bs) - {bs[k]} + {Block(bs[k].addr, n, false)};
    } else {
      assert Live(bs) == Live(bs) - {bs[k]} + {Block(bs[k].addr, bs[k].size, false)};
    }
  }

  lemma SplitPieces(bs: seq<Block>, k: nat, n: nat)
    requires k < |bs| && n + HOLE <= bs[k].size
    ensures |Split(bs, k, n)| == |bs| + 1 && !Split(bs, k, n)[k + 1].free
    ensures Split(bs, k, n)[k] == Block(bs[k].addr, n, false)
  {
  }
}
