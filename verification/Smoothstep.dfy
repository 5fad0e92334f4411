/**
 * The decay clock with the table and the threshold in use: the smoother step, whose values smoothstep.h
 * lists, and ARENA_DEFERRED_PURGE_NPAGES_THRESHOLD. It shows for every size of a single batch of unused pages
 * whether the wait is as long as decay.h says.
 */
module Smoothstep {
  import opened Basics
  import opened Decay

  const THRESHOLD: nat := 1024

  /** (6x^5 - 15x^4 + 10x^3) * 200^5 for x = s / 200. */
  function Scaled(s: nat): int { s * s * s * (6 * s * s - 3000 * s + 400000) }

  lemma ScaledStep(s: nat)
    requires s < 200
    ensures Scaled(s) <= Scaled(s + 1)
  {
    var w := s * (199 - s);
    assert 0 <= w && 0 <= w * w;
    assert Scaled(s + 1) - Scaled(s) == 30 * (w * w) + 5970 * w + 397006;
  }

  lemma {:induction false} ScaledRange(s: nat)
    requires s <= NSTEPS
    ensures 0 <= Scaled(s) <= 320_000_000_000
    decreases NSTEPS - s
  {
    ScaledPositive(s);
    if s < NSTEPS {
      ScaledStep(s);
      ScaledRange(s + 1);
    }
  }

  lemma {:induction false} ScaledPositive(s: nat)
    requires s <= NSTEPS
    ensures 0 <= Scaled(s)
  {
    if s != 0 {
      ScaledPositive(s - 1);
      ScaledStep(s - 1);
    }
  }

  /** The s-th factor, rounded down to 24 bits. */
  function Factor(s: nat): (r: nat)
    requires s <= NSTEPS
    ensures r <= ONE
  {
    ScaledRange(s);
    ONE * Scaled(s) / 320_000_000_000
  }

  function Table(): seq<nat> { seq(NSTEPS, i requires 0 <= i < NSTEPS => Factor(i + 1)) }

  lemma {:induction false} TableRising(n: nat)
    requires n <= NSTEPS
    ensures Rising(Table(), n)
  {
    if n != 0 {
      TableRising(n - 1);
      ScaledStep(n - 1);
    }
  }

  lemma TableSteps()
    ensures Steps(Table()) && Table()[NSTEPS - 1] == ONE
  {
    TableRising(NSTEPS);
  }

  // ----- one batch of pages -----

  /** The backlog of n pages that have just become unused. */
  function Batch(n: nat): seq<nat> { seq(NSTEPS, i => if i == NSTEPS - 1 then n else 0) }

  ghost function Pages(n: nat): (p: seq<int>)
    ensures |p| == NSTEPS + 1
  {
    Dues(Batch(n), Table())
  }

  /** What of ONE is due after k intervals. */
  function Share(k: nat): nat
    requires k <= NSTEPS
  {
    ONE - Factor(NSTEPS - k)
  }

  lemma PagesAt(n: nat, k: nat)
    requires k <= NSTEPS
    ensures Pages(n)[k] == n * Share(k) / ONE
  {
    TableSteps();
    PurgeInIsPurge(Batch(n), Table(), k, n);
  }

  lemma DueIs(n: nat, k: nat, share: nat)
    requires k <= NSTEPS && Share(k) == share
    ensures Pages(n)[k] * ONE <= n * share < Pages(n)[k] * ONE + ONE
  {
    PagesAt(n, k);
  }

  /** Half to one and a half times the threshold is due after the middle of the bounds that the search from
      s on ends with. */
  ghost predicate KeptIn(n: nat, s: Span) {
    && s.lb < s.ub <= NSTEPS
    && THRESHOLD <= 2 * Pages(n)[Bisect(Pages(n), THRESHOLD, s).Middle()] <= 3 * THRESHOLD
  }

  /** k says of every span whether the search from there on keeps the promise. */
  ghost predicate Verdicts(n: nat, k: Span -> bool) {
    forall s {:trigger KeptIn(n, s)} :: k(s) <==> KeptIn(n, s)
  }

  /** The promise if the search ends with bounds in whose middle a share of the pages is due. */
  predicate Hit(n: nat, share: nat) { 512 * ONE <= n * share < 1537 * ONE }

  lemma HitIs(n: nat, mid: nat, share: nat)
    requires mid <= NSTEPS && Share(mid) == share
    ensures THRESHOLD <= 2 * Pages(n)[mid] <= 3 * THRESHOLD <==> Hit(n, share)
    ensures THRESHOLD < Pages(n)[mid] <==> 1025 * ONE <= n * share
  {
    DueIs(n, mid, share);
  }

  /** One probe. */
  lemma ProbedExactly(n: nat, k: Span -> bool, lb: nat, mid: nat, ub: nat, share: nat)
    requires Verdicts(n, k) && lb + 2 < ub <= NSTEPS && mid == (ub + lb) / 2 && Share(mid) == share
    ensures k(Span(lb, ub)) ==
      if Pages(n)[ub] <= Pages(n)[lb] + THRESHOLD then Hit(n, share)
      else if 1025 * ONE <= n * share then k(Span(lb, mid)) else k(Span(mid, ub))
  {
    HitIs(n, mid, share);
    var p, s := Pages(n), Span(lb, ub);
    assert KeptIn(n, s) <==>
      if p[lb] + THRESHOLD < p[ub] then KeptIn(n, if THRESHOLD < p[mid] then Span(lb, mid) else Span(mid, ub))
      else THRESHOLD <= 2 * p[mid] <= 3 * THRESHOLD;
  }

  /** It is decided by the shares due after lb, mid and ub intervals, except near the end of the search, where
      the rounding to whole pages decides. */
  lemma Probed(n: nat, k: Span -> bool, lb: nat, mid: nat, ub: nat, low: nat, share: nat, high: nat)
    requires Verdicts(n, k) && lb + 2 < ub <= NSTEPS && mid == (ub + lb) / 2 && low <= high
    ensures Share(lb) == low && Share(mid) == share && Share(ub) == high ==>
      var next := if 1025 * ONE <= n * share then Span(lb, mid) else Span(mid, ub);
      && (n * (high - low) <= 1024 * ONE ==> k(Span(lb, ub)) == Hit(n, share))
      && (1025 * ONE <= n * (high - low) ==> k(Span(lb, ub)) == k(next))
      && (k(Span(lb, ub)) == Hit(n, share) || k(Span(lb, ub)) == k(next))
  {
    if Share(lb) == low && Share(mid) == share && Share(ub) == high {
      DueIs(n, lb, low);
      DueIs(n, ub, high);
      Difference(n, low, high);
      ProbedExactly(n, k, lb, mid, ub, share);
    }
  }

  lemma Difference(n: nat, x: nat, y: nat)
    requires x <= y
    ensures n * (y - x) == n * y - n * x
  {
  }

  /** The end of the search. */
  lemma Ended(n: nat, k: Span -> bool, lb: nat, mid: nat, ub: nat, share: nat)
    requires Verdicts(n, k) && lb < ub <= lb + 2 && ub <= NSTEPS && mid == (ub + lb) / 2 && Share(mid) == share
    ensures k(Span(lb, ub)) == Hit(n, share)
  {
    HitIs(n, mid, share);
    assert KeptIn(n, Span(lb, ub)) <==> THRESHOLD <= 2 * Pages(n)[mid] <= 3 * THRESHOLD;
  }

  lemma Within101To200(n: nat, k: Span -> bool)
    requires Verdicts(n, k) && 1025 <= n <= 2012
    ensures k(Span(101, 200)) <==> n <= 1714
  {
    Probed(n, k, 101, 150, 200, 8545884, 15040512, 16777216);
  }

  lemma Within51To101(n: nat, k: Span -> bool)
    requires Verdicts(n, k) && 2013 <= n <= 9415
    ensures k(Span(51, 101))
  {
    Probed(n, k, 51, 76, 101, 1826355, 4756185, 8545884);
    Probed(n, k, 76, 88, 101, 4756185, 6519213, 8545884);
    Probed(n, k, 51, 63, 76, 1826355, 3078333, 4756185);
    Probed(n, k, 51, 57, 63, 1826355, 2412740, 3078333);
  }

  lemma Within26To51(n: nat, k: Span -> bool)
    requires Verdicts(n, k) && 9416 <= n <= 57234
    ensures k(Span(26, 51)) <==> 10134 <= n
  {
    Probed(n, k, 26, 38, 51, 300457, 847711, 1826355);
    if n < 20286 {
      Probed(n, k, 38, 44, 51, 847711, 1248792, 1826355);
      Probed(n, k, 38, 41, 44, 847711, 1037370, 1248792);
    } else {
      Probed(n, k, 26, 32, 38, 300457, 532824, 847711);
      Probed(n, k, 32, 35, 38, 532824, 679648, 847711);
      Probed(n, k, 26, 29, 32, 300457, 406681, 532824);
    }
  }

  lemma Within14To26(n: nat, k: Span -> bool)
    requires Verdicts(n, k) && 57235 <= n <= 332797
    ensures k(Span(14, 26)) <==> 59814 <= n
  {
    Probed(n, k, 14, 20, 26, 51673, 143613, 300457);
    if n < 119743 {
      Probed(n, k, 20, 23, 26, 143613, 213170, 300457);
      Probed(n, k, 20, 21, 23, 143613, 164913, 213170);
    } else {
      Probed(n, k, 14, 17, 20, 51673, 90344, 143613);
      Probed(n, k, 17, 18, 20, 90344, 106390, 143613);
      Probed(n, k, 14, 15, 17, 51673, 63056, 90344);
    }
  }

  lemma Within2To14(n: nat, k: Span -> bool)
    requires Verdicts(n, k) && 332798 <= n <= 1701964
    ensures k(Span(2, 14)) <==> 334747 <= n
  {
    Probed(n, k, 2, 8, 14, 166, 10104, 51673);
    Probed(n, k, 8, 11, 14, 10104, 25661, 51673);
    Probed(n, k, 11, 12, 14, 25661, 33056, 51673);
    Ended(n, k, 11, 11, 12, 25661);
    Probed(n, k, 8, 9, 11, 10104, 14275, 25661);
    Ended(n, k, 9, 10, 11, 19431);
    Ended(n, k, 8, 8, 9, 10104);
  }

  lemma Within2To8(n: nat, k: Span -> bool)
    requires Verdicts(n, k) && 1701965 <= n <= 6810553
    ensures k(Span(2, 8)) <==> 1984277 <= n <= 3780469 || 3972430 <= n
  {
    Probed(n, k, 2, 5, 8, 166, 2525, 10104);
    Probed(n, k, 5, 6, 8, 2525, 4329, 10104);
    Ended(n, k, 6, 7, 8, 6821);
    Ended(n, k, 5, 5, 6, 2525);
  }

  lemma Within2To5(n: nat, k: Span -> bool)
    requires Verdicts(n, k) && 6810554 <= n <= 103594255
    ensures k(Span(2, 5)) <==> 7288953 <= n <= 19790161 || 51746594 <= n
  {
    DueIs(n, 2, 166);
    DueIs(n, 5, 2525);
    ProbedExactly(n, k, 2, 3, 5, 554);
    Ended(n, k, 3, 4, 5, 1303);
    Ended(n, k, 2, 2, 3, 166);
  }

  /** The sizes of a batch for which half to one and a half times the threshold is due after the wait. */
  predicate OnTime(n: nat) {
    || 512 <= n <= 1714
    || 2013 <= n <= 9415
    || 10134 <= n <= 57234
    || 59814 <= n <= 332797
    || 334747 <= n <= 1701964
    || 1984277 <= n <= 3780469
    || 3972430 <= n <= 6810553
    || 7288953 <= n <= 19790161
    || 51746594 <= n <= 155340849
  }

  /** For every other size the wait is not as decay.h says; above the threshold, 1715 pages are the first. */
  lemma BatchExactly(n: nat)
    ensures Kept(Pages(n), n, THRESHOLD) <==> OnTime(n)
  {
    DueIs(n, 2, 166);
    DueIs(n, NSTEPS, ONE);
    if THRESHOLD < n <= 103594255 {
      var k := (s: Span) => KeptIn(n, s);
      SearchExactly(n, k);
    }
  }

  lemma SearchExactly(n: nat, k: Span -> bool)
    requires Verdicts(n, k) && THRESHOLD < n <= 103594255
    ensures k(Span(2, NSTEPS)) <==> OnTime(n)
  {
    Probed(n, k, 2, 101, NSTEPS, 166, 8545884, 16777216);
    if n <= 2012 {
      Within101To200(n, k);
    } else {
      LeftSide(n, k);
    }
  }

  /** From 2013 pages on the search goes to the shorter waits, as far as the size of the batch takes it. */
  lemma LeftSide(n: nat, k: Span -> bool)
    requires Verdicts(n, k) && 2013 <= n <= 103594255
    ensures k(Span(2, 101)) <==> OnTime(n)
  {
    Probed(n, k, 2, 51, 101, 166, 1826355, 8545884);
    if n <= 9415 {
      Within51To101(n, k);
    } else {
      Probed(n, k, 2, 26, 51, 166, 300457, 1826355);
      if n <= 57234 {
        Within26To51(n, k);
      } else {
        FarLeft(n, k);
      }
    }
  }

  lemma FarLeft(n: nat, k: Span -> bool)
    requires Verdicts(n, k) && 57235 <= n <= 103594255
    ensures k(Span(2, 26)) <==> OnTime(n)
  {
    Probed(n, k, 2, 14, 26, 166, 51673, 300457);
    if n <= 332797 {
      Within14To26(n, k);
    } else if n <= 1701964 {
      Within2To14(n, k);
    } else {
      Probed(n, k, 2, 8, 14, 166, 10104, 51673);
      if n <= 6810553 {
        Within2To8(n, k);
      } else {
        Probed(n, k, 2, 5, 8, 166, 2525, 10104);
        Within2To5(n, k);
      }
    }
  }

  lemma BatchIs(b: seq<nat>, n: nat)
    requires |b| == NSTEPS && forall i :: 0 <= i < NSTEPS ==> b[i] == 0
    ensures forall k: nat :: 1 <= k ==> Advanced(b, k, n) == Batch(n)
  {
  }

  /** A clock that is told of n unused pages at its first deadline, and asked how long to wait. */
  method BatchWait(n: nat, ms: nat) returns (d: Decay, ns: Option<nat>)
    requires 1 <= n && 1 <= ms
    ensures d.Valid() && d.backlog[..] == Batch(n) && d.h == Table() && 0 < d.interval && ns.Some?
    ensures var due := Purge(d.backlog[..], d.h, ns.value / d.interval);
      THRESHOLD <= 2 * due <= 3 * THRESHOLD <==> OnTime(n)
  {
    TableSteps();
    d := new Decay(Table(), 0, ms, 0);
    BatchIs(d.backlog[..], n);
    var advanced := d.MaybeAdvanceEpoch(d.deadline, n, 0, true);
    ns := d.NsUntilPurge(n, THRESHOLD);
    BatchExactly(n);
  }
}
