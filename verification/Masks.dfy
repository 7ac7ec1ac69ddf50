/** Masks with ranks: a set of positions sent as one bit each, and the numbering of the set bits that
    the rest of a message refers to. */
module Masks {

  /** The number of set positions below n. */
  function Count(m: seq<bool>, n: nat): (r: nat)
    requires n <= |m|
    ensures r <= n
  {
    if n == 0 then 0 else Count(m, n - 1) + (if m[n - 1] then 1 else 0)
  }

  /** The set positions below n, in order. */
  function Select(m: seq<bool>, n: nat): (r: seq<nat>)
    requires n <= |m|
    ensures |r| == Count(m, n)
  {
    if n == 0 then [] else Select(m, n - 1) + (if m[n - 1] then [n - 1] else [])
  }

  /** The number given to a position: its 1-based rank when set, 0 when clear. */
  function Rank(m: seq<bool>, i: nat): (r: nat)
    requires i < |m|
  {
    if m[i] then Count(m, i) + 1 else 0
  }

  function Ranks(m: seq<bool>): (r: seq<nat>)
    ensures |r| == |m|
  {
    seq(|m|, i requires 0 <= i < |m| => Rank(m, i))
  }

  lemma {:induction false} CountMonotone(m: seq<bool>, a: nat, b: nat)
    requires a <= b <= |m|
    ensures Count(m, a) <= Count(m, b) <= Count(m, a) + (b - a)
  {
    if a < b {
      CountMonotone(m, a, b - 1);
    }
  }

  lemma {:induction false} CountNone(m: seq<bool>, a: nat, b: nat)
    requires a <= b <= |m| && forall i | a <= i < b :: !m[i]
    ensures Count(m, b) == Count(m, a)
  {
    if a < b {
      CountNone(m, a, b - 1);
    }
  }

  lemma {:induction false} CountAll(m: seq<bool>, n: nat)
    requires n <= |m| && forall i | 0 <= i < n :: m[i]
    ensures Count(m, n) == n
  {
    if n > 0 {
      CountAll(m, n - 1);
    }
  }

  lemma CountBelowSet(m: seq<bool>, i: nat, n: nat)
    requires i < n <= |m| && m[i]
    ensures Count(m, i) < Count(m, n)
  {
    CountMonotone(m, i + 1, n);
  }

  /** Selecting inverts ranking: the set position of rank k is the k-th selected one. */
  lemma {:induction false} SelectRank(m: seq<bool>, i: nat, n: nat)
    requires i < n <= |m| && m[i]
    ensures Count(m, i) < Count(m, n) && Select(m, n)[Count(m, i)] == i
  {
    CountBelowSet(m, i, n);
    if i < n - 1 {
      SelectRank(m, i, n - 1);
    }
  }

  /** Every selected position is set and has its index as rank. */
  lemma {:induction false} SelectedIsSet(m: seq<bool>, k: nat, n: nat)
    requires n <= |m| && k < Count(m, n)
    ensures var i := Select(m, n)[k]; i < n && m[i] && Count(m, i) == k
  {
    if k < Count(m, n - 1) {
      SelectedIsSet(m, k, n - 1);
    }
  }

  /** Ranking is a bijection from the set positions onto 1..Count, increasing with the position. */
  lemma RanksBijective(m: seq<bool>)
    ensures forall i | 0 <= i < |m| && m[i] :: 1 <= Rank(m, i) <= Count(m, |m|)
    ensures forall i, j | 0 <= i < j < |m| && m[i] && m[j] :: Rank(m, i) < Rank(m, j)
    ensures forall k | 0 <= k < Count(m, |m|) ::
              var i := Select(m, |m|)[k]; i < |m| && m[i] && Rank(m, i) == k + 1
  {
    forall i | 0 <= i < |m| && m[i]
      ensures 1 <= Rank(m, i) <= Count(m, |m|)
    {
      CountBelowSet(m, i, |m|);
    }
    forall i, j | 0 <= i < j < |m| && m[i] && m[j]
      ensures Rank(m, i) < Rank(m, j)
    {
      CountBelowSet(m, i, j);
    }
    forall k | 0 <= k < Count(m, |m|)
      ensures var i := Select(m, |m|)[k]; i < |m| && m[i] && Rank(m, i) == k + 1
    {
      SelectedIsSet(m, k, |m|);
    }
  }

  /** The in-place loop that replaces flags by ranks: if (a[i]) a[i] = ++n, no further than the limit.
      Flags past the limit keep their 1. */
  method NumberFlags(a: array<nat>, size: nat, limit: nat) returns (n: nat)
    requires size <= a.Length
    modifies a
    ensures var m := Flags(old(a[..]), size);
            && n == (if Count(m, size) <= limit then Count(m, size) else limit)
            && (forall i | 0 <= i < size :: a[i] == Number(old(a[i]), m, i, limit))
            && (forall i | size <= i < a.Length :: a[i] == old(a[i]))
  {
    ghost var m := Flags(a[..], size);
    n := 0;
    var i := 0;
    while i < size
      invariant 0 <= i <= size
      invariant n == if Count(m, i) <= limit then Count(m, i) else limit
      invariant forall k | 0 <= k < i :: a[k] == Number(old(a[k]), m, k, limit)
      invariant forall k | i <= k < a.Length :: a[k] == old(a[k])
    {
      if a[i] != 0 && n < limit {
        n := n + 1;
        a[i] := n;
      }
      i := i + 1;
    }
  }

  function Flags(a: seq<nat>, size: nat): (m: seq<bool>)
    requires size <= |a|
    ensures |m| == size
  {
    seq(size, i requires 0 <= i < size => a[i] != 0)
  }

  function Number(was: nat, m: seq<bool>, i: nat, limit: nat): nat
    requires i < |m|
  {
    if m[i] && Count(m, i) < limit then Count(m, i) + 1 else was
  }
}
