/** The heap of exercises/ex11/myMalloc.c as the bytes mmap has handed over so far, with the
    8-byte little-endian words (sizes and links) that the allocator keeps among them. */
module Memory {

  import opened Common

  /** sizeof(size_t) and sizeof(Hole *) on LP64. */
  const WORD: nat := 8

  /** sizeof(Hole): a size word followed by a link word. */
  const HOLE: nat := 16

  /** The first address the allocator asks mmap for. */
  const BASE: nat := 0x600000000000

  const NULL: nat := 0

  /** 2 to the power 64: one more than the largest value a word can hold. */
  const WORDS: nat := 0x1_0000_0000_0000_0000

  function Decode(bytes: seq<byte>): nat
  {
    if bytes == [] then 0 else bytes[0] + 256 * Decode(bytes[1..])
  }

  function Encode(v: nat, n: nat): (bytes: seq<byte>)
    ensures |bytes| == n
  {
    if n == 0 then [] else [v % 256] + Encode(v / 256, n - 1)
  }

  function Power256(n: nat): nat
  {
    if n == 0 then 1 else 256 * Power256(n - 1)
  }

  lemma {:induction false} DecodeEncode(v: nat, n: nat)
    requires v < Power256(n)
    ensures Decode(Encode(v, n)) == v
  {
    if n > 0 {
      DecodeEncode(v / 256, n - 1);
      assert Encode(v, n)[1..] == Encode(v / 256, n - 1);
    }
  }

  lemma WordsIsPower()
    ensures Power256(WORD) == WORDS
  {
    assert Power256(2) == 0x1_0000;
    assert Power256(4) == 0x1_0000_0000;
    assert Power256(6) == 0x1_0000_0000_0000;
  }

  /** Address a starts a word that lies inside the mapped bytes m. */
  predicate Mapped(m: seq<byte>, a: nat)
  {
    BASE <= a && a + WORD <= BASE + |m|
  }

  function Load(m: seq<byte>, a: nat): nat
    requires Mapped(m, a)
  {
    Decode(m[a - BASE..a - BASE + WORD])
  }

  function Store(m: seq<byte>, a: nat, v: nat): (m': seq<byte>)
    requires Mapped(m, a)
    ensures |m'| == |m|
  {
    m[..a - BASE] + Encode(v, WORD) + m[a - BASE + WORD..]
  }

  /** The bytes in [from, to) are the same in both memories. */
  ghost predicate Same(m: seq<byte>, m': seq<byte>, from: nat, to: nat)
  {
    && BASE <= from <= to <= BASE + |m| && to <= BASE + |m'|
    && forall k | from - BASE <= k < to - BASE :: m'[k] == m[k]
  }

  /** A stored word reads back, and every word and range beside it keeps its value. */
  lemma StoreLoad(m: seq<byte>, a: nat, v: nat)
    requires Mapped(m, a) && v < WORDS
    ensures Load(Store(m, a, v), a) == v
    ensures forall x: nat {:trigger Load(Store(m, a, v), x)} | Mapped(m, x) && (x + WORD <= a || a + WORD <= x) ::
              Load(Store(m, a, v), x) == Load(m, x)
    ensures forall from: nat, to: nat {:trigger Same(m, Store(m, a, v), from, to)} |
              BASE <= from <= to <= BASE + |m| && (to <= a || a + WORD <= from) ::
              Same(m, Store(m, a, v), from, to)
  {
    var m' := Store(m, a, v);
    assert m'[a - BASE..a - BASE + WORD] == Encode(v, WORD);
    WordsIsPower();
    DecodeEncode(v, WORD);
    forall x: nat | Mapped(m, x) && (x + WORD <= a || a + WORD <= x)
      ensures Load(m', x) == Load(m, x)
    {
      assert m'[x - BASE..x - BASE + WORD] == m[x - BASE..x - BASE + WORD];
    }
  }

  lemma SameLoad(m: seq<byte>, m': seq<byte>, from: nat, to: nat, x: nat)
    requires Same(m, m', from, to) && from <= x && x + WORD <= to
    ensures Load(m', x) == Load(m, x)
  {
    assert m'[x - BASE..x - BASE + WORD] == m[x - BASE..x - BASE + WORD];
  }

  predicate InRange(m: seq<byte>, p: nat, n: nat)
  {
    BASE <= p && p + n <= BASE + |m|
  }

  /** The n bytes at address p. */
  function Bytes(m: seq<byte>, p: nat, n: nat): (bytes: seq<byte>)
    requires InRange(m, p, n)
    ensures |bytes| == n
  {
    m[p - BASE..p - BASE + n]
  }

  lemma SameBytes(m: seq<byte>, m': seq<byte>, from: nat, to: nat, p: nat, n: nat)
    requires Same(m, m', from, to) && from <= p && p + n <= to
    ensures Bytes(m', p, n) == Bytes(m, p, n)
  {
  }

  /** Storing byte number n behind n bytes makes them n + 1. */
  lemma BytesStep(m: seq<byte>, p: nat, n: nat, v: byte)
    requires InRange(m, p, n + 1)
    ensures Bytes(m[p + n - BASE := v], p, n + 1) == Bytes(m, p, n) + [v]
    ensures Bytes(m, p, n + 1) == Bytes(m, p, n) + [m[p + n - BASE]]
  {
  }
}
