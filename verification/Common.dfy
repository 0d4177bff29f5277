/** Small things that several models share. */
module Common {

  /** An unsigned char. */
  type byte = n: int | 0 <= n < 256

  datatype Option<T> = None | Some(value: T)

  ghost predicate Distinct<T>(s: seq<T>)
  {
    forall i, j | 0 <= i < j < |s| :: s[i] != s[j]
  }

  lemma CountTwice<T>(s: seq<T>, i: nat, j: nat)
    requires i < j < |s| && s[i] == s[j]
    ensures multiset(s)[s[i]] >= 2
  {
    assert s == s[..i] + [s[i]] + s[i + 1..j] + [s[j]] + s[j + 1..];
  }

  lemma {:induction false} DistinctOnce<T>(s: seq<T>)
    requires Distinct(s)
    ensures forall x :: multiset(s)[x] <= 1
  {
    if s != [] {
      DistinctOnce(s[1..]);
      assert s == [s[0]] + s[1..];
      assert s[0] !in multiset(s[1..]);
    }
  }

  /** A C string: what a buffer holds before its first NUL. */
  function CString<T(==)>(s: seq<T>, nul: T): (t: seq<T>)
    ensures |t| <= |s| && nul !in t && t == s[..|t|] && (|t| < |s| ==> s[|t|] == nul)
    ensures nul in s ==> |t| < |s|
  {
    if s == [] || s[0] == nul then [] else [s[0]] + CString(s[1..], nul)
  }

  lemma CStringIs<T>(s: seq<T>, nul: T, n: nat)
    requires n <= |s| && nul !in s[..n] && (n < |s| ==> s[n] == nul)
    ensures CString(s, nul) == s[..n]
  {
    var t := CString(s, nul);
    forall i | 0 <= i < n
      ensures s[i] != nul
    {
      assert s[..n][i] == s[i];
    }
    forall i | 0 <= i < |t|
      ensures s[i] != nul
    {
      assert t[i] == s[i];
    }
  }

  lemma MultipleIsFar(d: int, w: int)
    requires w > 0 && d != 0
    ensures d * w >= w || d * w <= -w
  {
    if d > 0 {
      assert (d - 1) * w >= 0;
    } else {
      assert (-d - 1) * w >= 0;
    }
  }

  lemma RemainderIs(x: int, w: nat, q: int, r: nat)
    requires w > 0 && x == q * w + r && r < w
    ensures x % w == r
  {
    var d := x / w - q;
    assert x == (x / w) * w + x % w;
    assert d * w == r - x % w;
    if d != 0 { MultipleIsFar(d, w); }
  }

  lemma TimesKeepsOrder(a: int, b: int, w: nat)
    requires a <= b
    ensures a * w <= b * w
  {
    assert (b - a) * w >= 0;
  }
}
