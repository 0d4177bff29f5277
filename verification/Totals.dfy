/** Adding up a weight over all threads of a system: what a step of one thread does to the total. */
module Totals {

  /** The sum of w(t, ts[t]) over all threads t. */
  ghost function Sum<P>(ts: seq<P>, w: (nat, P) -> nat): nat
  {
    if ts == [] then 0 else Sum(ts[..|ts| - 1], w) + w(|ts| - 1, ts[|ts| - 1])
  }

  lemma {:induction false} SumUpdate<P>(ts: seq<P>, w: (nat, P) -> nat, t: nat, p: P)
    requires t < |ts|
    ensures Sum(ts[t := p], w) + w(t, ts[t]) == Sum(ts, w) + w(t, p)
  {
    var n := |ts| - 1;
    if t == n {
      assert ts[t := p][..n] == ts[..n];
    } else {
      SumUpdate(ts[..n], w, t, p);
      assert ts[t := p][..n] == ts[..n][t := p];
    }
  }

  lemma {:induction false} SumAtLeast<P>(ts: seq<P>, w: (nat, P) -> nat, t: nat)
    requires t < |ts|
    ensures Sum(ts, w) >= w(t, ts[t])
  {
    if t < |ts| - 1 { SumAtLeast(ts[..|ts| - 1], w, t); }
  }

  lemma {:induction false} SumOfTwo<P>(ts: seq<P>, w: (nat, P) -> nat, t: nat, u: nat)
    requires t < u < |ts|
    ensures Sum(ts, w) >= w(t, ts[t]) + w(u, ts[u])
  {
    var n := |ts| - 1;
    if u < n {
      SumOfTwo(ts[..n], w, t, u);
    } else {
      SumAtLeast(ts[..n], w, t);
    }
  }

  lemma {:induction false} Someone<P>(ts: seq<P>, w: (nat, P) -> nat) returns (t: nat)
    requires Sum(ts, w) > 0
    ensures t < |ts| && w(t, ts[t]) > 0
  {
    var n := |ts| - 1;
    if w(n, ts[n]) > 0 {
      t := n;
    } else {
      t := Someone(ts[..n], w);
    }
  }

  /** If two sums agree thread by thread they agree. */
  lemma {:induction false} SumSame<P>(ts: seq<P>, us: seq<P>, w: (nat, P) -> nat, v: (nat, P) -> nat)
    requires |ts| == |us| && forall t | 0 <= t < |ts| :: w(t, ts[t]) == v(t, us[t])
    ensures Sum(ts, w) == Sum(us, v)
  {
    if ts != [] { SumSame(ts[..|ts| - 1], us[..|us| - 1], w, v); }
  }

  lemma {:induction false} SumZero<P>(ts: seq<P>, w: (nat, P) -> nat)
    requires forall t | 0 <= t < |ts| :: w(t, ts[t]) == 0
    ensures Sum(ts, w) == 0
  {
    if ts != [] { SumZero(ts[..|ts| - 1], w); }
  }

  lemma {:induction false} SumAtMost<P>(ts: seq<P>, w: (nat, P) -> nat, bound: nat)
    requires forall t | 0 <= t < |ts| :: w(t, ts[t]) <= bound
    ensures Sum(ts, w) <= bound * |ts|
  {
    if ts != [] { SumAtMost(ts[..|ts| - 1], w, bound); }
  }

  lemma {:induction false} SumPlus<P>(ts: seq<P>, w: (nat, P) -> nat, v: (nat, P) -> nat, both: (nat, P) -> nat)
    requires forall t | 0 <= t < |ts| :: both(t, ts[t]) == w(t, ts[t]) + v(t, ts[t])
    ensures Sum(ts, both) == Sum(ts, w) + Sum(ts, v)
  {
    if ts != [] { SumPlus(ts[..|ts| - 1], w, v, both); }
  }

  /** A sum grows by no more than its parts do. */
  lemma {:induction false} SumGrows<P>(ts: seq<P>, us: seq<P>, w: (nat, P) -> nat, v: (nat, P) -> nat)
    requires |ts| == |us| && forall t | 0 <= t < |ts| :: w(t, us[t]) <= w(t, ts[t]) + v(t, ts[t])
    ensures Sum(us, w) <= Sum(ts, w) + Sum(ts, v)
  {
    if ts != [] { SumGrows(ts[..|ts| - 1], us[..|us| - 1], w, v); }
  }

  /** Two weights that differ at one place only. */
  lemma {:induction false} SumDiffer<P>(ts: seq<P>, w: (nat, P) -> nat, v: (nat, P) -> nat, t: nat)
    requires t < |ts| && forall u | 0 <= u < |ts| && u != t :: w(u, ts[u]) == v(u, ts[u])
    ensures Sum(ts, w) + v(t, ts[t]) == Sum(ts, v) + w(t, ts[t])
  {
    var n := |ts| - 1;
    if t == n {
      SumSame(ts[..n], ts[..n], w, v);
    } else {
      SumDiffer(ts[..n], w, v, t);
    }
  }
}
