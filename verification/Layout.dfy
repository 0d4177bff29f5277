/** How the blocks of the arena and the free list lie in the bytes: every block starts with its
    size word, and a hole keeps the link to the next hole in the first word of its payload. */
module Layout {
  import opened Common
  import opened Memory
  import opened Blocks

  /** The address of a block's link word; it overlaps the payload handed to callers. */
  function LinkOf(b: Block): nat { b.addr + WORD }

  ghost predicate Words(m: seq<byte>, bs: seq<Block>)
  {
    && (forall i | 0 <= i < |bs| :: Mapped(m, bs[i].addr) && Load(m, bs[i].addr) == bs[i].size)
    && (forall i | 0 <= i < |bs| && bs[i].free ::
          Mapped(m, LinkOf(bs[i])) && Load(m, LinkOf(bs[i])) == NextHole(bs, i + 1))
  }

  ghost predicate Repr(m: seq<byte>, freeList: nat, bs: seq<Block>)
  {
    && Tiles(bs, BASE, BASE + |m|) && BASE + |m| < WORDS
    && freeList == NextHole(bs, 0)
    && Words(m, bs)
  }

  /** The size and payload of each of these blocks is the same in both memories. */
  ghost predicate Kept(m: seq<byte>, m': seq<byte>, blocks: set<Block>)
  {
    forall b | b in blocks :: Same(m, m', b.addr, b.End())
  }

  lemma SameTrans(m: seq<byte>, m1: seq<byte>, m2: seq<byte>, from: nat, to: nat)
    requires Same(m, m1, from, to) && Same(m1, m2, from, to)
    ensures Same(m, m2, from, to)
  {
  }

  // ----- links -----

  lemma {:induction false} NextHoleIs(bs: seq<Block>, j: nat, c: nat)
    requires j <= c < |bs| && bs[c].free && forall x | j <= x < c :: !bs[x].free
    ensures NextHole(bs, j) == bs[c].addr
    decreases c - j
  {
    if j < c { NextHoleIs(bs, j + 1, c); }
  }

  lemma {:induction false} NextHoleSkips(bs: seq<Block>, j: nat, k: nat)
    requires j <= k <= |bs| && forall x | j <= x < k :: !bs[x].free
    ensures NextHole(bs, j) == NextHole(bs, k)
    decreases k - j
  {
    if j < k { NextHoleSkips(bs, j + 1, k); }
  }

  /** p is the last hole before block i, or -1 if there is none. */
  ghost predicate LastHoleBefore(bs: seq<Block>, i: nat, p: int)
  {
    -1 <= p < i <= |bs| && (p >= 0 ==> bs[p].free) && forall x | p < x < i :: !bs[x].free
  }

  lemma NearLink(bs: seq<Block>, i: nat, p: int, j: nat)
    requires i < |bs| && LastHoleBefore(bs, i, p) && p < j <= i
    ensures NextHole(bs, j) == if bs[i].free then bs[i].addr else NextHole(bs, i + 1)
  {
    NextHoleSkips(bs, j, i);
  }

  lemma FarLink(bs: seq<Block>, bs': seq<Block>, i: nat, p: int, j: nat)
    requires i < |bs| && LastHoleBefore(bs, i, p) && bs' == bs[i := bs[i].(free := !bs[i].free)]
    requires j <= p || i < j <= |bs|
    ensures NextHole(bs', j) == NextHole(bs, j)
  {
    if i < j {
      NextHoleShift(bs, j, bs', j);
    } else {
      var c := HoleIndex(bs, j);
      NextHoleIs(bs', j, c);
    }
  }

  /** Freeing or taking block i redirects only the links between the last hole before it and it. */
  lemma MarkLinks(bs: seq<Block>, bs': seq<Block>, i: nat, p: int)
    requires i < |bs| && LastHoleBefore(bs, i, p) && bs' == bs[i := bs[i].(free := !bs[i].free)]
    ensures forall j: nat {:trigger NextHole(bs', j)} | j <= p || i < j <= |bs| :: NextHole(bs', j) == NextHole(bs, j)
    ensures forall j: nat {:trigger NextHole(bs', j)} | p < j <= i ::
              NextHole(bs', j) == if bs'[i].free then bs[i].addr else NextHole(bs, i + 1)
  {
    forall j: nat | j <= p || i < j <= |bs|
      ensures NextHole(bs', j) == NextHole(bs, j)
    {
      FarLink(bs, bs', i, p, j);
    }
    assert LastHoleBefore(bs', i, p);
    forall j: nat | p < j <= i
      ensures NextHole(bs', j) == if bs'[i].free then bs[i].addr else NextHole(bs, i + 1)
    {
      NearLink(bs', i, p, j);
      FarLink(bs, bs', i, p, i + 1);
    }
  }

  lemma AbsorbLinks(bs: seq<Block>, i: nat)
    requires i + 1 < |bs| && bs[i].free
    ensures forall j: nat {:trigger NextHole(AbsorbNext(bs, i), j)} | j <= |bs| - 1 ::
              NextHole(AbsorbNext(bs, i), j) == NextHole(bs, if j <= i then j else j + 1)
  {
    var bs' := AbsorbNext(bs, i);
    assert forall j | 0 <= j < i :: bs'[j] == bs[j];
    assert forall j | i < j < |bs'| :: bs'[j] == bs[j + 1];
    forall j: nat | j <= |bs| - 1
      ensures NextHole(bs', j) == NextHole(bs, if j <= i then j else j + 1)
    {
      if j <= i {
        var c := HoleIndex(bs, j);
        NextHoleIs(bs', j, c);
      } else {
        NextHoleShift(bs, j + 1, bs', j);
      }
    }
  }

  lemma SplitLinks(bs: seq<Block>, k: nat, n: nat)
    requires k < |bs| && !bs[k].free && n + HOLE <= bs[k].size
    ensures forall j: nat {:trigger NextHole(Split(bs, k, n), j)} | j <= |bs| + 1 ::
              NextHole(Split(bs, k, n), j) == NextHole(bs, if j <= k + 1 then j else j - 1)
  {
    var bs' := Split(bs, k, n);
    assert forall j | 0 <= j < k :: bs'[j] == bs[j];
    assert forall j | k + 1 < j < |bs'| :: bs'[j] == bs[j - 1];
    NextHoleShift(bs, k + 1, bs', k + 2);
    NextHoleSkips(bs', k, k + 2);
    NextHoleSkips(bs, k, k + 1);
    forall j: nat | j <= |bs| + 1
      ensures NextHole(bs', j) == NextHole(bs, if j <= k + 1 then j else j - 1)
    {
      if j <= k {
        var c := HoleIndex(bs, j);
        if c <= k {
          NextHoleIs(bs', j, c);
        } else {
          NextHoleSkips(bs, j, k);
          NextHoleSkips(bs', j, k);
        }
      } else if j > k + 1 {
        NextHoleShift(bs, j - 1, bs', j);
      }
    }
  }

  lemma AppendLinks(bs: seq<Block>, b: Block)
    requires !b.free
    ensures forall j: nat {:trigger NextHole(bs + [b], j)} | j <= |bs| + 1 :: NextHole(bs + [b], j) == NextHole(bs, j)
  {
    var bs' := bs + [b];
    forall j: nat | j <= |bs| + 1
      ensures NextHole(bs', j) == NextHole(bs, j)
    {
      if j <= |bs| {
        var c := HoleIndex(bs, j);
        if c < |bs| {
          NextHoleIs(bs', j, c);
        } else {
          NextHoleSkips(bs', j, |bs| + 1);
        }
      }
    }
  }

  // ----- words -----

  lemma BlockMapped(m: seq<byte>, bs: seq<Block>)
    requires Tiles(bs, BASE, BASE + |m|)
    ensures forall i | 0 <= i < |bs| :: Mapped(m, bs[i].addr) && Mapped(m, LinkOf(bs[i])) && bs[i].End() <= BASE + |m|
    ensures forall i | 0 <= i < |bs| :: bs[i].size >= WORD
  {
    AllOrdered(bs, BASE, BASE + |m|);
  }

  /** What the allocator reads at a block. */
  lemma ReadBlock(m: seq<byte>, freeList: nat, bs: seq<Block>, c: nat)
    requires Repr(m, freeList, bs) && c < |bs|
    ensures Mapped(m, bs[c].addr) && Load(m, bs[c].addr) == bs[c].size && BASE <= bs[c].addr
    ensures Mapped(m, LinkOf(bs[c]))
    ensures bs[c].free ==> Load(m, LinkOf(bs[c])) == NextHole(bs, c + 1)
  {
    BlockMapped(m, bs);
  }

  lemma FirstHole(m: seq<byte>, freeList: nat, bs: seq<Block>)
    requires Repr(m, freeList, bs)
    ensures freeList == NextHole(bs, 0)
    ensures forall i | 0 <= i < |bs| :: bs[i].addr >= BASE
  {
    BlockMapped(m, bs);
  }

  lemma KeptRefl(m: seq<byte>, freeList: nat, bs: seq<Block>)
    requires Repr(m, freeList, bs)
    ensures Kept(m, m, Live(bs))
  {
    BlockMapped(m, bs);
  }

  lemma KeptTrans(m: seq<byte>, m1: seq<byte>, m2: seq<byte>, s1: set<Block>, s2: set<Block>, s: set<Block>)
    requires Kept(m, m1, s1) && Kept(m1, m2, s2) && s <= s1 && s <= s2
    ensures Kept(m, m2, s)
  {
    hide Same;
    forall b | b in s
      ensures Same(m, m2, b.addr, b.End())
    {
      assert Same(m, m1, b.addr, b.End()) && Same(m1, m2, b.addr, b.End());
      SameTrans(m, m1, m2, b.addr, b.End());
    }
  }

  /** Writing a size word leaves every other word of the layout alone. */
  lemma StoreSize(m: seq<byte>, bs: seq<Block>, p: nat, v: nat)
    requires Tiles(bs, BASE, BASE + |m|) && p < |bs| && v < WORDS
    ensures Mapped(m, bs[p].addr)
    ensures var m' := Store(m, bs[p].addr, v);
      && (forall i | 0 <= i < |bs| :: Mapped(m, bs[i].addr) && Mapped(m, LinkOf(bs[i])))
      && (forall i | 0 <= i < |bs| :: Load(m', bs[i].addr) == if i == p then v else Load(m, bs[i].addr))
      && (forall i | 0 <= i < |bs| :: Load(m', LinkOf(bs[i])) == Load(m, LinkOf(bs[i])))
      && Kept(m, m', (set b | b in bs) - {bs[p]})
  {
    AllOrdered(bs, BASE, BASE + |m|);
    BlockMapped(m, bs);
    hide Load, Store, Tiles;
    StoreLoad(m, bs[p].addr, v);
  }

  /** Writing a link word leaves every other word of the layout alone. */
  lemma StoreLink(m: seq<byte>, bs: seq<Block>, p: nat, v: nat)
    requires Tiles(bs, BASE, BASE + |m|) && p < |bs| && v < WORDS
    ensures Mapped(m, LinkOf(bs[p]))
    ensures var m' := Store(m, LinkOf(bs[p]), v);
      && (forall i | 0 <= i < |bs| :: Mapped(m, bs[i].addr) && Mapped(m, LinkOf(bs[i])))
      && (forall i | 0 <= i < |bs| :: Load(m', bs[i].addr) == Load(m, bs[i].addr))
      && (forall i | 0 <= i < |bs| :: Load(m', LinkOf(bs[i])) == if i == p then v else Load(m, LinkOf(bs[i])))
      && Kept(m, m', (set b | b in bs) - {bs[p]})
  {
    AllOrdered(bs, BASE, BASE + |m|);
    BlockMapped(m, bs);
    hide Load, Store, Tiles;
    StoreLoad(m, LinkOf(bs[p]), v);
  }

  lemma LinkInRange(m: seq<byte>, bs: seq<Block>, k: nat)
    requires Tiles(bs, BASE, BASE + |m|) && k <= |bs|
    ensures NextHole(bs, k) < BASE + |m|
  {
    BlockMapped(m, bs);
    var c := HoleIndex(bs, k);
  }

  // ----- the four ways the allocator rewrites the layout -----

  /** getBlock takes hole c out of the list. */
  lemma Unlinked(m: seq<byte>, freeList: nat, bs: seq<Block>, c: nat, p: int)
    requires Repr(m, freeList, bs) && c < |bs| && bs[c].free && LastHoleBefore(bs, c, p)
    ensures p >= 0 ==> Mapped(m, LinkOf(bs[p]))
    ensures var next := NextHole(bs, c + 1);
      var m' := if p < 0 then m else Store(m, LinkOf(bs[p]), next);
      && Repr(m', if p < 0 then next else freeList, bs[c := bs[c].(free := false)])
      && Kept(m, m', Live(bs))
  {
    hide Tiles, Load, Store, NextHole, HoleIndex;
    var bs' := bs[c := bs[c].(free := false)];
    MarkTiles(bs, c, false, BASE, BASE + |m|);
    MarkLinks(bs, bs', c, p);
    LinkInRange(m, bs, c + 1);
    if p >= 0 {
      StoreLink(m, bs, p, NextHole(bs, c + 1));
    }
    BlockMapped(m, bs);
  }

  /** returnBlock puts block i into the list. */
  lemma LinkedIn(m: seq<byte>, freeList: nat, bs: seq<Block>, i: nat, p: int)
    requires Repr(m, freeList, bs) && i < |bs| && !bs[i].free && LastHoleBefore(bs, i, p)
    ensures Mapped(m, LinkOf(bs[i])) && (p >= 0 ==> Mapped(m, LinkOf(bs[p])))
    ensures var m1 := Store(m, LinkOf(bs[i]), NextHole(bs, i + 1));
      var m' := if p < 0 then m1 else Store(m1, LinkOf(bs[p]), bs[i].addr);
      && Repr(m', if p < 0 then bs[i].addr else freeList, bs[i := bs[i].(free := true)])
      && Kept(m, m', Live(bs) - {bs[i]})
  {
    hide Tiles, Load, Store, NextHole, HoleIndex, Same;
    var bs' := bs[i := bs[i].(free := true)];
    MarkTiles(bs, i, true, BASE, BASE + |m|);
    MarkLinks(bs, bs', i, p);
    LinkInRange(m, bs, i + 1);
    StoreLink(m, bs, i, NextHole(bs, i + 1));
    var m1 := Store(m, LinkOf(bs[i]), NextHole(bs, i + 1));
    BlockMapped(m, bs);
    if p >= 0 {
      StoreLink(m1, bs, p, bs[i].addr);
      var m' := Store(m1, LinkOf(bs[p]), bs[i].addr);
      KeptTrans(m, m1, m', (set b | b in bs) - {bs[i]}, (set b | b in bs) - {bs[p]}, Live(bs) - {bs[i]});
      hide Kept;
    }
  }

  lemma Neighbours(bs: seq<Block>, i: nat, lo: nat, hi: nat)
    requires Tiles(bs, lo, hi) && i + 1 < |bs|
    ensures bs[i].End() == bs[i + 1].addr
    ensures var bs' := AbsorbNext(bs, i);
      && |bs'| == |bs| - 1 && (forall j | 0 <= j < i :: bs'[j] == bs[j])
      && (forall j | i < j < |bs'| :: bs'[j] == bs[j + 1])
      && bs'[i] == Block(bs[i].addr, bs[i].size + bs[i + 1].size + WORD, true)
  {
  }

  /** returnBlock lets hole i swallow hole i + 1. */
  lemma Absorbed(m: seq<byte>, freeList: nat, bs: seq<Block>, i: nat)
    requires Repr(m, freeList, bs) && i + 1 < |bs| && bs[i].free && bs[i + 1].free
    ensures Mapped(m, bs[i].addr) && Mapped(m, LinkOf(bs[i]))
    ensures var m1 := Store(m, bs[i].addr, bs[i].size + bs[i + 1].size + WORD);
      var m' := Store(m1, LinkOf(bs[i]), NextHole(bs, i + 2));
      && Repr(m', freeList, AbsorbNext(bs, i))
      && Kept(m, m', Live(bs))
  {
    hide Tiles, Load, Store, NextHole, HoleIndex, AbsorbNext;
    Neighbours(bs, i, BASE, BASE + |m|);
    var bs' := AbsorbNext(bs, i);
    var size, next := bs[i].size + bs[i + 1].size + WORD, NextHole(bs, i + 2);
    AbsorbNextKeeps(bs, i, BASE, BASE + |m|);
    AbsorbLinks(bs, i);
    LinkInRange(m, bs, i + 2);
    BlockMapped(m, bs);
    StoreSize(m, bs, i, size);
    var m1 := Store(m, bs[i].addr, size);
    StoreLink(m1, bs, i, next);
    var m' := Store(m1, LinkOf(bs[i]), next);
    assert Words(m', bs') by {
      forall j | 0 <= j < |bs'|
        ensures Mapped(m', bs'[j].addr) && Load(m', bs'[j].addr) == bs'[j].size
        ensures bs'[j].free ==> Mapped(m', LinkOf(bs'[j])) && Load(m', LinkOf(bs'[j])) == NextHole(bs', j + 1)
      {
        var j' := if j <= i then j else j + 1;
        assert bs'[j].addr == bs[j'].addr && bs'[j].free == bs[j'].free && (j != i ==> bs'[j].size == bs[j'].size);
        assert NextHole(bs', j + 1) == NextHole(bs, if j + 1 <= i then j + 1 else j + 2);
      }
    }
  }

  lemma SplitFresh(bs: seq<Block>, k: nat, n: nat, lo: nat, hi: nat)
    requires Tiles(bs, lo, hi) && k < |bs| && n + HOLE <= bs[k].size
    ensures var bs' := Split(bs, k, n);
      && |bs'| == |bs| + 1 && (forall j | 0 <= j < k :: bs'[j] == bs[j])
      && (forall j | k + 1 < j < |bs'| :: bs'[j] == bs[j - 1])
      && bs'[k] == Block(bs[k].addr, n, false)
      && bs'[k + 1] == Block(bs[k].addr + WORD + n, bs[k].size - n - WORD, false)
      && forall b | b in bs && b != bs[k] :: b in bs' && b != bs'[k] && b != bs'[k + 1]
  {
    AllOrdered(bs, lo, hi);
    assert bs == bs[..k] + [bs[k]] + bs[k + 1..];
  }

  /** The two size words of malloc's cut, and what they leave alone. */
  lemma SplitStores(m: seq<byte>, bs: seq<Block>, k: nat, n: nat)
    requires Tiles(bs, BASE, BASE + |m|) && BASE + |m| < WORDS
    requires k < |bs| && !bs[k].free && n + HOLE <= bs[k].size && n >= WORD && n % 4 == 0
    ensures Mapped(m, bs[k].addr) && Mapped(m, bs[k].addr + WORD + n)
    ensures var m1 := Store(m, bs[k].addr + WORD + n, bs[k].size - n - WORD);
      var m' := Store(m1, bs[k].addr, n);
      && Load(m', bs[k].addr) == n && Load(m', bs[k].addr + WORD + n) == bs[k].size - n - WORD
      && (forall i | 0 <= i < |bs| && i != k ::
            && Mapped(m, bs[i].addr) && Load(m', bs[i].addr) == Load(m, bs[i].addr)
            && Mapped(m, LinkOf(bs[i])) && Load(m', LinkOf(bs[i])) == Load(m, LinkOf(bs[i])))
      && (forall b | b in bs && b != bs[k] :: Same(m, m', b.addr, b.End()))
  {
    hide Load, Store, Tiles, Same;
    BlockMapped(m, bs);
    AllOrdered(bs, BASE, BASE + |m|);
    StoreLoad(m, bs[k].addr + WORD + n, bs[k].size - n - WORD);
    var m1 := Store(m, bs[k].addr + WORD + n, bs[k].size - n - WORD);
    StoreLoad(m1, bs[k].addr, n);
    var m' := Store(m1, bs[k].addr, n);
    assert Load(m', bs[k].addr + WORD + n) == bs[k].size - n - WORD;
    forall i | 0 <= i < |bs| && i != k
      ensures Mapped(m, bs[i].addr) && Load(m', bs[i].addr) == Load(m, bs[i].addr)
      ensures Mapped(m, LinkOf(bs[i])) && Load(m', LinkOf(bs[i])) == Load(m, LinkOf(bs[i]))
    {
      assert bs[i].End() <= bs[k].addr || bs[k].End() <= bs[i].addr;
      assert Load(m1, bs[i].addr) == Load(m, bs[i].addr) && Load(m1, LinkOf(bs[i])) == Load(m, LinkOf(bs[i]));
    }
    forall b | b in bs && b != bs[k]
      ensures Same(m, m', b.addr, b.End())
    {
      var i :| 0 <= i < |bs| && bs[i] == b;
      assert Same(m, m1, b.addr, b.End()) && Same(m1, m', b.addr, b.End());
      SameTrans(m, m1, m', b.addr, b.End());
    }
  }

  function SplitMemory(m: seq<byte>, bs: seq<Block>, k: nat, n: nat): (m': seq<byte>)
    requires k < |bs| && n + HOLE <= bs[k].size
    requires Mapped(m, bs[k].addr) && Mapped(m, bs[k].addr + WORD + n)
    ensures |m'| == |m|
  {
    Store(Store(m, bs[k].addr + WORD + n, bs[k].size - n - WORD), bs[k].addr, n)
  }

  lemma SplitWord(m: seq<byte>, bs: seq<Block>, k: nat, n: nat, j: nat)
    requires Tiles(bs, BASE, BASE + |m|) && BASE + |m| < WORDS && Words(m, bs)
    requires k < |bs| && !bs[k].free && n + HOLE <= bs[k].size && n >= WORD && n % 4 == 0 && j < |bs| + 1
    ensures Mapped(m, bs[k].addr) && Mapped(m, bs[k].addr + WORD + n)
    ensures var m', b := SplitMemory(m, bs, k, n), Split(bs, k, n)[j];
      && Mapped(m', b.addr) && Load(m', b.addr) == b.size
      && (b.free ==> Mapped(m', LinkOf(b)) && Load(m', LinkOf(b)) == NextHole(Split(bs, k, n), j + 1))
  {
    hide Tiles, Load, Store, NextHole, Split, Same;
    SplitStores(m, bs, k, n);
    SplitFresh(bs, k, n, BASE, BASE + |m|);
    if j != k && j != k + 1 {
      SplitLinks(bs, k, n);
      var j' := if j <= k then j else j - 1;
      assert Split(bs, k, n)[j] == bs[j'];
      assert NextHole(Split(bs, k, n), j + 1) == NextHole(bs, j' + 1);
    }
  }

  /** malloc cuts block k after n bytes. */
  lemma SplitUp(m: seq<byte>, freeList: nat, bs: seq<Block>, k: nat, n: nat)
    requires Repr(m, freeList, bs) && k < |bs| && !bs[k].free && n + HOLE <= bs[k].size && n >= WORD && n % 4 == 0
    ensures Mapped(m, bs[k].addr) && Mapped(m, bs[k].addr + WORD + n)
    ensures Repr(SplitMemory(m, bs, k, n), freeList, Split(bs, k, n))
    ensures Kept(m, SplitMemory(m, bs, k, n), Live(bs) - {bs[k]})
  {
    hide Tiles, Load, Store, NextHole, Split, Same;
    SplitTiles(bs, k, n, BASE, BASE + |m|);
    SplitStores(m, bs, k, n);
    SplitLinks(bs, k, n);
    assert NextHole(Split(bs, k, n), 0) == NextHole(bs, 0);
    forall j | 0 <= j < |Split(bs, k, n)|
      ensures var m', b := SplitMemory(m, bs, k, n), Split(bs, k, n)[j];
        && Mapped(m', b.addr) && Load(m', b.addr) == b.size
        && (b.free ==> Mapped(m', LinkOf(b)) && Load(m', LinkOf(b)) == NextHole(Split(bs, k, n), j + 1))
    {
      SplitFresh(bs, k, n, BASE, BASE + |m|);
      SplitWord(m, bs, k, n, j);
    }
  }

  /** malloc gets req fresh bytes behind the arena and makes one live block of them. */
  lemma Grown(m: seq<byte>, freeList: nat, bs: seq<Block>, pages: seq<byte>)
    requires Repr(m, freeList, bs) && |pages| >= HOLE && |pages| % 8 == 0 && BASE + |m| + |pages| < WORDS
    ensures var top := BASE + |m|;
      && Mapped(m + pages, top)
      && Repr(Store(m + pages, top, |pages| - WORD), freeList, bs + [Block(top, |pages| - WORD, false)])
      && Kept(m, Store(m + pages, top, |pages| - WORD), Live(bs))
  {
    hide Load, Store, Tiles, NextHole, HoleIndex;
    var top, b := BASE + |m|, Block(BASE + |m|, |pages| - WORD, false);
    var bs' := bs + [b];
    AppendedTiles(bs, b, BASE, top);
    AppendLinks(bs, b);
    BlockMapped(m, bs);
    BlockMapped(m + pages, bs');
    StoreLoad(m + pages, top, |pages| - WORD);
    var m' := Store(m + pages, top, |pages| - WORD);
    forall x: nat | Mapped(m, x)
      ensures Load(m', x) == Load(m, x)
    {
      AppendLoad(m, pages, x);
    }
    forall c | c in Live(bs)
      ensures Same(m, m', c.addr, c.End())
    {
      var i :| 0 <= i < |bs| && bs[i] == c;
      assert Same(m + pages, m', c.addr, c.End());
    }
  }

  lemma AppendLoad(m: seq<byte>, pages: seq<byte>, x: nat)
    requires Mapped(m, x)
    ensures Load(m + pages, x) == Load(m, x)
  {
    assert (m + pages)[x - BASE..x - BASE + WORD] == m[x - BASE..x - BASE + WORD];
  }

  lemma AppendedTiles(bs: seq<Block>, b: Block, lo: nat, hi: nat)
    requires Tiles(bs, lo, hi) && b.addr == hi && b.size >= WORD && (b.size + WORD) % 8 == 0
    ensures Tiles(bs + [b], lo, b.End())
  {
    assert b.size % 4 == 0;
    assert forall j | 0 <= j < |bs| :: (bs + [b])[j] == bs[j];
  }

  /** A byte stored into the payload of a live block disturbs neither the layout nor other blocks. */
  lemma PayloadWritten(m: seq<byte>, freeList: nat, bs: seq<Block>, k: nat, a: nat, v: byte)
    requires Repr(m, freeList, bs) && k < |bs| && !bs[k].free && bs[k].Payload() <= a < bs[k].End()
    ensures a - BASE < |m|
    ensures Repr(m[a - BASE := v], freeList, bs) && Kept(m, m[a - BASE := v], Live(bs) - {bs[k]})
  {
    hide Load, Tiles, NextHole, HoleIndex;
    BlockMapped(m, bs);
    AllOrdered(bs, BASE, BASE + |m|);
    var m' := m[a - BASE := v];
    forall x: nat | Mapped(m, x) && (x + WORD <= a || a < x)
      ensures Load(m', x) == Load(m, x)
    {
      SameLoad(m, m', x, x + WORD, x);
    }
  }

  /** The address test of returnBlock says exactly whether the next block is a hole. */
  lemma TouchesNextHole(bs: seq<Block>, i: nat, lo: nat, hi: nat)
    requires Tiles(bs, lo, hi) && i < |bs|
    ensures NextHole(bs, i + 1) == bs[i].End() <==> i + 1 < |bs| && bs[i + 1].free
  {
    AllOrdered(bs, lo, hi);
    var c := HoleIndex(bs, i + 1);
    if c < |bs| && c > i + 1 {
      assert bs[i].End() <= bs[i + 1].addr && bs[i + 1].End() <= bs[c].addr;
    }
  }

  /** The address test for the hole before: it ends at block i only if it is block i - 1. */
  lemma TouchesPredecessor(bs: seq<Block>, i: nat, p: int, lo: nat, hi: nat)
    requires Tiles(bs, lo, hi) && i < |bs| && LastHoleBefore(bs, i, p) && p >= 0
    ensures bs[p].End() == bs[i].addr <==> p == i - 1
    ensures bs[i - 1].free <==> p == i - 1
  {
    AllOrdered(bs, lo, hi);
    if p < i - 1 {
      assert bs[p].End() <= bs[i - 1].addr && bs[i - 1].End() <= bs[i].addr;
    }
  }

  /** The hole the search of returnBlock stops at lies behind block i exactly when its address does. */
  lemma StopsBehind(bs: seq<Block>, i: nat, c: nat, lo: nat, hi: nat)
    requires Tiles(bs, lo, hi) && i < |bs| && c < |bs| && !bs[i].free && bs[c].free
    ensures bs[c].addr < bs[i].addr <==> c < i
  {
    AllOrdered(bs, lo, hi);
  }

  lemma ReprTiles(m: seq<byte>, freeList: nat, bs: seq<Block>)
    requires Repr(m, freeList, bs)
    ensures Tiles(bs, BASE, BASE + |m|) && BASE + |m| < WORDS
  {
  }

  /** Growing block i first does not disturb the link it then takes over. */
  lemma AbsorbRead(m: seq<byte>, freeList: nat, bs: seq<Block>, i: nat)
    requires Repr(m, freeList, bs) && i + 1 < |bs| && bs[i + 1].free
    ensures Mapped(m, bs[i].addr) && Mapped(m, LinkOf(bs[i + 1]))
    ensures Load(Store(m, bs[i].addr, bs[i].size + bs[i + 1].size + WORD), LinkOf(bs[i + 1])) == NextHole(bs, i + 2)
  {
    hide Tiles, Load, Store, NextHole, Same;
    Neighbours(bs, i, BASE, BASE + |m|);
    BlockMapped(m, bs);
    StoreSize(m, bs, i, bs[i].size + bs[i + 1].size + WORD);
  }

  /** The hole before block i holds the link that block i is to take over. */
  lemma PredecessorLink(m: seq<byte>, freeList: nat, bs: seq<Block>, i: nat, p: int)
    requires Repr(m, freeList, bs) && i < |bs| && !bs[i].free && LastHoleBefore(bs, i, p)
    ensures if p < 0 then freeList == NextHole(bs, i + 1)
            else Mapped(m, LinkOf(bs[p])) && Load(m, LinkOf(bs[p])) == NextHole(bs, i + 1)
  {
    hide Repr, Mapped, Load, NextHole;
    NextHoleSkips(bs, p + 1, i + 1);
    if p < 0 {
      FirstHole(m, freeList, bs);
    } else {
      ReadBlock(m, freeList, bs, p);
    }
  }

  /** The size malloc reads before the cut, spelled as the cut needs it. */
  lemma CutRead(m: seq<byte>, bs: seq<Block>, k: nat, n: nat)
    requires k < |bs| && n + HOLE <= bs[k].size
    requires Mapped(m, bs[k].addr) && Mapped(m, bs[k].addr + WORD + n) && Load(m, bs[k].addr) == bs[k].size
    ensures SplitMemory(m, bs, k, n) ==
            Store(Store(m, bs[k].addr + WORD + n, Load(m, bs[k].addr) - n - WORD), bs[k].addr, n)
  {
  }
}
