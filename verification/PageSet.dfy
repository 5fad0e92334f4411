/**
 * The flat bitmaps of fb.h, seen as finite sets of page numbers below a bound n.
 * Every search returns the nearest position, as the bitmap scans do.
 */
module PageSet {

  ghost predicate Within(s: set<nat>, n: nat) {
    forall p :: p in s ==> p < n
  }

  predicate AtLeast(p: nat, b: nat) { b <= p }

  function Range(b: nat, len: nat): (r: set<nat>)
    ensures forall p: nat :: p in r <==> b <= p < b + len
  {
    set p: nat | p < b + len && AtLeast(p, b)
  }

  lemma RangeCard(b: nat, len: nat)
    ensures |Range(b, len)| == len
  {
    if len != 0 {
      RangeCard(b, len - 1);
      assert Range(b, len) == Range(b, len - 1) + {b + len - 1};
    }
  }

  lemma SubsetCard(a: set<nat>, b: set<nat>)
    requires a <= b
    ensures |a| <= |b|
  {
    assert b == a + (b - a);
  }

  /** fb_ffs: the first member at or after start, or n. */
  function NextIn(s: set<nat>, n: nat, start: nat): (r: nat)
    requires start <= n
    ensures start <= r <= n
    ensures r < n ==> r in s
    ensures forall p :: start <= p < r ==> p !in s
    decreases n - start
  {
    if start == n || start in s then start else NextIn(s, n, start + 1)
  }

  /** fb_ffu: the first non-member at or after start, or n. */
  function NextOut(s: set<nat>, n: nat, start: nat): (r: nat)
    requires start <= n
    ensures start <= r <= n
    ensures r < n ==> r !in s
    ensures forall p :: start <= p < r ==> p in s
    decreases n - start
  {
    if start == n || start !in s then start else NextOut(s, n, start + 1)
  }

  /** fb_fls: the last member at or before start, or -1. */
  function LastIn(s: set<nat>, start: int): (r: int)
    requires -1 <= start
    ensures -1 <= r <= start
    ensures 0 <= r ==> r in s
    ensures forall p: nat :: r < p <= start ==> p !in s
    decreases start + 1
  {
    if start == -1 || start in s then start else LastIn(s, start - 1)
  }

  // ----- free ranges -----

  /** The pages [b, b + len) lie below n and none of them is active. */
  ghost predicate Free(active: set<nat>, n: nat, b: nat, len: nat) {
    b + len <= n && forall p :: b <= p < b + len ==> p !in active
  }

  /** The length of the free range that ends at n. */
  function TrailingFree(active: set<nat>, n: nat): nat {
    if n == 0 || n - 1 in active then 0 else TrailingFree(active, n - 1) + 1
  }

  /** The length of the longest free range below n: what fb_urange_longest computes. */
  function Longest(active: set<nat>, n: nat): nat {
    if n == 0 then 0
    else
      var shorter, trailing := Longest(active, n - 1), TrailingFree(active, n);
      if shorter < trailing then trailing else shorter
  }

  lemma TrailingFreeSpec(active: set<nat>, n: nat)
    ensures var r := TrailingFree(active, n);
      && r <= n && Free(active, n, n - r, r)
      && forall b: nat, len: nat :: Free(active, n, b, len) && b + len == n ==> len <= r
  {
    if n != 0 && n - 1 !in active {
      TrailingFreeSpec(active, n - 1);
      assert forall b: nat, len: nat :: Free(active, n, b, len) && b + len == n && 0 < len ==>
                                   Free(active, n - 1, b, len - 1);
    }
  }

  lemma LongestSpec(active: set<nat>, n: nat)
    ensures exists b: nat :: Free(active, n, b, Longest(active, n))
    ensures forall b: nat, len: nat :: Free(active, n, b, len) ==> len <= Longest(active, n)
  {
    if n == 0 {
      assert Free(active, n, 0, Longest(active, n));
    } else {
      LongestSpec(active, n - 1);
      TrailingFreeSpec(active, n);
      var m, t := Longest(active, n - 1), TrailingFree(active, n);
      var w: nat :| Free(active, n - 1, w, m);
      assert Free(active, n, w, m) && Free(active, n, n - t, t);
      assert Free(active, n, if m < t then n - t else w, Longest(active, n));
      assert forall b: nat, len: nat :: Free(active, n, b, len) && b + len < n ==> Free(active, n - 1, b, len);
    }
  }

  lemma LongestIs(active: set<nat>, n: nat, b: nat, len: nat)
    requires Free(active, n, b, len)
    requires forall b': nat, len': nat :: Free(active, n, b', len') ==> len' <= len
    ensures Longest(active, n) == len
  {
    LongestSpec(active, n);
  }

  lemma LongestAntitone(active: set<nat>, more: set<nat>, n: nat)
    requires active <= more
    ensures Longest(more, n) <= Longest(active, n)
  {
    LongestSpec(active, n);
    LongestSpec(more, n);
    var b: nat :| Free(more, n, b, Longest(more, n));
    assert Free(active, n, b, Longest(more, n));
  }
}
