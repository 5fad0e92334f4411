/**
 * The decay clock (decay.c): pages that became unused in each past interval are weighted by a
 * smooth step, here any nondecreasing sequence of fixed-point factors up to one, to limit how many
 * unused pages may remain. Times are in nanoseconds and do not overflow.
 */
module Decay {
  import opened Basics

  const NSTEPS: nat := 200
  const ONE: nat := 0x100_0000 // 2^SMOOTHSTEP_BFP

  predicate Rising(h: seq<nat>, n: nat)
    requires n <= |h|
  {
    n == 0 || (h[n - 1] <= ONE && (n == 1 || h[n - 2] <= h[n - 1]) && Rising(h, n - 1))
  }

  /** A table of decay factors. */
  predicate Steps(h: seq<nat>) { |h| == NSTEPS && Rising(h, |h|) }

  lemma {:induction false} RisingAt(h: seq<nat>, n: nat, i: nat, j: nat)
    requires n <= |h| && Rising(h, n) && i <= j < n
    ensures h[i] <= h[j] <= ONE
  {
    if j < n - 1 {
      RisingAt(h, n - 1, i, j);
    } else if i < j {
      RisingAt(h, n - 1, i, n - 2);
    }
  }

  lemma MulLe(b: nat, x: nat, y: nat)
    requires x <= y
    ensures b * x <= b * y
  {
    assert b * y == b * x + b * (y - x);
  }

  /** The sum of b[i] * h[i - k] for k <= i < n: what is left of the first n records after k intervals. */
  function Left(b: seq<nat>, h: seq<nat>, n: nat, k: nat): nat
    requires n <= |b| && n <= |h|
  {
    if n <= k then 0 else Left(b, h, n - 1, k) + b[n - 1] * h[n - 1 - k]
  }

  lemma {:induction false} LeftAntitone(b: seq<nat>, h: seq<nat>, n: nat, k: nat, k': nat)
    requires n <= |b| && n <= |h| && Rising(h, |h|) && k <= k'
    ensures Left(b, h, n, k') <= Left(b, h, n, k)
  {
    if k < n {
      LeftAntitone(b, h, n - 1, k, k');
      if k' < n {
        RisingAt(h, |h|, n - 1 - k', n - 1 - k);
        MulLe(b[n - 1], h[n - 1 - k'], h[n - 1 - k]);
      }
    }
  }

  /** The backlog k intervals later, with d new pages in the last record. */
  function Advanced(b: seq<nat>, k: nat, d: nat): (r: seq<nat>)
    requires 1 <= |b|
    ensures |r| == |b|
  {
    seq(|b|, i requires 0 <= i < |b| => if i == |b| - 1 then d else if i + k < |b| then b[i + k] else 0)
  }

  lemma {:induction false} AdvancedPrefix(b: seq<nat>, h: seq<nat>, k: nat, d: nat, n: nat)
    requires 1 <= |b| <= |h| && 1 <= k && n < |b|
    ensures Left(Advanced(b, k, d), h, n, 0) == Left(b, h, if n + k < |b| then n + k else |b|, k)
  {
    if n != 0 {
      AdvancedPrefix(b, h, k, d, n - 1);
    }
  }

  /** The weighted sum after an advance: what is left of the old records, and the new one in full. */
  lemma AdvancedSum(b: seq<nat>, h: seq<nat>, k: nat, d: nat)
    requires 1 <= |b| <= |h| && 1 <= k
    ensures Left(Advanced(b, k, d), h, |b|, 0) == Left(b, h, |b|, k) + d * h[|b| - 1]
  {
    AdvancedPrefix(b, h, k, d, |b| - 1);
  }

  /** decay_backlog_npages_limit as a function. */
  function Limit(b: seq<nat>, h: seq<nat>): nat
    requires |b| <= |h|
  {
    Left(b, h, |b|, 0) / ONE
  }

  /** An advance raises the limit by at most the new pages. */
  lemma LimitAfter(b: seq<nat>, h: seq<nat>, k: nat, d: nat)
    requires |b| == NSTEPS && Steps(h) && 1 <= k
    ensures Limit(Advanced(b, k, d), h) <= Limit(b, h) + d
  {
    AdvancedSum(b, h, k, d);
    LeftAntitone(b, h, |b|, 0, k);
    RisingAt(h, |h|, |h| - 1, |h| - 1);
    MulLe(d, h[|h| - 1], ONE);
    assert Left(Advanced(b, k, d), h, |b|, 0) <= Left(b, h, |b|, 0) + d * ONE;
  }

  /** What decay_npurge_after_interval returns, without the rounding: the limit now minus the limit then. */
  ghost function Purge(b: seq<nat>, h: seq<nat>, k: nat): int
    requires |b| <= |h|
  {
    (Left(b, h, |b|, 0) - Left(b, h, |b|, k)) / ONE
  }

  /** Purging grows with the interval. */
  lemma PurgeMonotone(b: seq<nat>, h: seq<nat>, k: nat, k': nat)
    requires |b| <= |h| && Rising(h, |h|) && k <= k'
    ensures 0 <= Purge(b, h, k) <= Purge(b, h, k')
  {
    LeftAntitone(b, h, |b|, 0, k);
    LeftAntitone(b, h, |b|, k, k');
  }

  /** In whole pages, the amount to purge is the fall of the limit, or one page less. */
  lemma PurgeIsFall(b: seq<nat>, h: seq<nat>, k: nat)
    requires 1 <= |b| <= |h| && Rising(h, |h|) && 1 <= k
    ensures 0 <= Limit(b, h) - Limit(Advanced(b, k, 0), h) - Purge(b, h, k) <= 1
  {
    AdvancedSum(b, h, k, 0);
    LeftAntitone(b, h, |b|, 0, k);
  }

  // ----- a single batch of pages -----

  /** decay_npages_purge_in: how many of the new pages to purge within n epochs. */
  function PurgeIn(h: seq<nat>, n: nat, npages: nat): int
    requires |h| == NSTEPS
  {
    if NSTEPS <= n then npages else npages * (h[NSTEPS - 1] as int - h[NSTEPS - 1 - n]) / ONE
  }

  lemma {:induction false} LeftZero(b: seq<nat>, h: seq<nat>, n: nat, k: nat)
    requires n <= |b| && n <= |h| && forall i :: 0 <= i < n ==> b[i] == 0
    ensures Left(b, h, n, k) == 0
  {
    if k < n {
      LeftZero(b, h, n - 1, k);
    }
  }

  /** It is what the backlog predicts when these pages are its only record. */
  lemma PurgeInIsPurge(b: seq<nat>, h: seq<nat>, n: nat, npages: nat)
    requires Steps(h) && h[NSTEPS - 1] == ONE && |b| == NSTEPS
    requires b[NSTEPS - 1] == npages && forall i :: 0 <= i < NSTEPS - 1 ==> b[i] == 0
    ensures PurgeIn(h, n, npages) == Purge(b, h, n)
  {
    LeftZero(b, h, NSTEPS - 1, 0);
    LeftZero(b, h, NSTEPS - 1, n);
    if n < NSTEPS {
      var x, y := h[NSTEPS - 1] as int, h[NSTEPS - 1 - n];
      assert npages * (x - y) == npages * x - npages * y;
    }
  }

  /** What may remain of a batch after k intervals in which nothing else happens: its share by the table, and nothing
      once the table is used up. */
  lemma BatchLimit(b: seq<nat>, h: seq<nat>, k: nat, npages: nat)
    requires Steps(h) && |b| == NSTEPS && b[NSTEPS - 1] == npages && forall i :: 0 <= i < NSTEPS - 1 ==> b[i] == 0
    ensures Limit(b, h) == npages * h[NSTEPS - 1] / ONE
    ensures 1 <= k ==> Limit(Advanced(b, k, 0), h) == if k < NSTEPS then npages * h[NSTEPS - 1 - k] / ONE else 0
  {
    LeftZero(b, h, NSTEPS - 1, 0);
    if 1 <= k {
      AdvancedSum(b, h, k, 0);
      LeftZero(b, h, NSTEPS - 1, k);
    }
  }

  ghost function Sum(b: seq<nat>, n: nat): nat
    requires n <= |b|
  {
    if n == 0 then 0 else Sum(b, n - 1) + b[n - 1]
  }

  lemma {:induction false} LeftWithin(b: seq<nat>, h: seq<nat>, n: nat)
    requires n <= |b| <= |h| && Rising(h, |h|)
    ensures Left(b, h, n, 0) <= Sum(b, n) * ONE
  {
    if n != 0 {
      LeftWithin(b, h, n - 1);
      RisingAt(h, |h|, n - 1, n - 1);
      MulLe(b[n - 1], h[n - 1], ONE);
    }
  }

  /** The limit never exceeds the pages recorded. */
  lemma LimitWithin(b: seq<nat>, h: seq<nat>)
    requires |b| <= |h| && Rising(h, |h|)
    ensures Limit(b, h) <= Sum(b, |b|)
  {
    LeftWithin(b, h, |b|);
  }

  // ----- the wait for the next purge -----

  /** What is due for purging after each number of intervals. */
  ghost function Dues(b: seq<nat>, h: seq<nat>): (p: seq<int>)
    requires |b| <= |h|
    ensures |p| == NSTEPS + 1 && forall k :: 0 <= k <= NSTEPS ==> p[k] == Purge(b, h, k)
  {
    seq(NSTEPS + 1, k requires 0 <= k => Purge(b, h, k))
  }

  ghost predicate Grows(p: seq<int>) {
    |p| == NSTEPS + 1 && forall i, j {:trigger p[i], p[j]} :: 0 <= i <= j <= NSTEPS ==> 0 <= p[i] <= p[j]
  }

  lemma DuesGrow(b: seq<nat>, h: seq<nat>)
    requires |b| <= |h| && Rising(h, |h|)
    ensures Grows(Dues(b, h))
  {
    forall i, j | 0 <= i <= j <= NSTEPS ensures 0 <= Dues(b, h)[i] <= Dues(b, h)[j] {
      PurgeMonotone(b, h, i, j);
    }
  }

  lemma Weighted(pages: nat, x: int, y: int)
    ensures pages * (x - y) == pages * x - pages * y
  {
  }

  /** A range of numbers of intervals. */
  datatype Span = Span(lb: nat, ub: nat) {
    function Middle(): nat { (ub + lb) / 2 }
  }

  /** The bisection of decay_ns_until_purge. */
  function Bisect(p: seq<int>, threshold: nat, s: Span): (r: Span)
    requires |p| == NSTEPS + 1 && s.lb < s.ub <= NSTEPS
    ensures s.lb <= r.lb < r.ub <= s.ub
    decreases |p|, s.ub - s.lb
  {
    if p[s.lb] + threshold < p[s.ub] && s.lb + 2 < s.ub then
      Bisect(p, threshold, if threshold < p[s.Middle()] then Span(s.lb, s.Middle()) else Span(s.Middle(), s.ub))
    else s
  }

  /** The bounds that decay_ns_until_purge takes the middle of, unless it waits without limit. */
  function Bounds(p: seq<int>, current: nat, threshold: nat): (r: Span)
    requires |p| == NSTEPS + 1
    ensures 2 <= r.lb <= r.ub <= NSTEPS
  {
    if current <= threshold then Span(NSTEPS, NSTEPS)
    else if threshold < p[2] then Span(2, 2)
    else if p[NSTEPS] < threshold then Span(NSTEPS, NSTEPS)
    else Bisect(p, threshold, Span(2, NSTEPS))
  }

  /** The pages due after the wait. */
  function Due(p: seq<int>, current: nat, threshold: nat): int
    requires |p| == NSTEPS + 1
  {
    p[Bounds(p, current, threshold).Middle()]
  }

  /** The search is entered: the threshold is between what is due after the shortest and the longest wait. */
  predicate Searches(p: seq<int>, current: nat, threshold: nat)
    requires |p| == NSTEPS + 1
  {
    threshold < current && p[2] <= threshold <= p[NSTEPS]
  }

  /** The threshold lies between what is due after lb and after ub intervals, and either these are at
      most the threshold apart, or ub and lb are at most two apart. */
  ghost predicate Bracket(p: seq<int>, s: Span, threshold: nat)
    requires |p| == NSTEPS + 1
  {
    && 2 <= s.lb < s.ub <= NSTEPS && p[s.lb] <= threshold <= p[s.ub]
    && (p[s.ub] <= p[s.lb] + threshold || s.ub <= s.lb + 2)
  }

  lemma {:induction false} BisectBracket(p: seq<int>, threshold: nat, s: Span)
    requires |p| == NSTEPS + 1 && 2 <= s.lb < s.ub <= NSTEPS && p[s.lb] <= threshold <= p[s.ub]
    ensures Bracket(p, Bisect(p, threshold, s), threshold)
    decreases s.ub - s.lb
  {
    if p[s.lb] + threshold < p[s.ub] && s.lb + 2 < s.ub {
      BisectBracket(p, threshold, if threshold < p[s.Middle()] then Span(s.lb, s.Middle()) else Span(s.Middle(), s.ub));
    }
  }

  /** What the search says about the pages due after the wait: they are between those of the bounds, and
      at most twice the threshold unless the bounds are at most two intervals apart. */
  lemma WaitPurge(p: seq<int>, current: nat, threshold: nat)
    requires Grows(p) && Searches(p, current, threshold)
    ensures var s := Bounds(p, current, threshold);
      && p[s.lb] <= Due(p, current, threshold) <= p[s.ub] && p[s.lb] <= threshold <= p[s.ub]
      && (s.ub <= s.lb + 2 || Due(p, current, threshold) <= 2 * threshold)
  {
    BisectBracket(p, threshold, Span(2, NSTEPS));
  }

  /** The promise of decay.h: between half and one and a half times the threshold is due after the wait. */
  predicate Kept(p: seq<int>, current: nat, threshold: nat)
    requires |p| == NSTEPS + 1
  {
    threshold <= 2 * Due(p, current, threshold) <= 3 * threshold
  }

  /** The first number of intervals from k on after which at least half of v is due, or one beyond the last. */
  function FirstHalf(p: seq<int>, v: int, k: nat): (r: nat)
    requires |p| == NSTEPS + 1 && k <= NSTEPS + 1
    ensures k <= r <= NSTEPS + 1
    decreases |p|, NSTEPS + 1 - k
  {
    if k == NSTEPS + 1 || v <= 2 * p[k] then k else FirstHalf(p, v, k + 1)
  }

  lemma {:induction false} FirstHalfAt(p: seq<int>, v: int, k: nat, m: nat)
    requires Grows(p) && k <= m <= NSTEPS
    ensures FirstHalf(p, v, k) <= m <==> v <= 2 * p[m]
    decreases m - k
  {
    if v <= 2 * p[k] {
      assert p[k] <= p[m];
    } else if k < m {
      FirstHalfAt(p, v, k + 1, m);
    }
  }

  /** The promise, exactly. Without a search it depends on the shortest or the longest wait alone; with
      one, the middle of the bounds must not come before half the threshold is due, and must come before
      more than one and a half times the threshold is. */
  lemma KeptExactly(p: seq<int>, current: nat, threshold: nat)
    requires Grows(p)
    ensures Kept(p, current, threshold) <==>
      if current <= threshold then threshold <= 2 * p[NSTEPS] <= 3 * threshold
      else if threshold < p[2] then 2 * p[2] <= 3 * threshold
      else if p[NSTEPS] < threshold then threshold <= 2 * p[NSTEPS]
      else FirstHalf(p, threshold, 2) <= Bisect(p, threshold, Span(2, NSTEPS)).Middle()
           < FirstHalf(p, 3 * threshold + 1, 2)
  {
    if Searches(p, current, threshold) {
      var m := Bisect(p, threshold, Span(2, NSTEPS)).Middle();
      FirstHalfAt(p, threshold, 2, m);
      FirstHalfAt(p, 3 * threshold + 1, 2, m);
    }
  }

  /** It is kept if both bounds keep it, in particular if the shortest and the longest wait do. */
  lemma KeptBetween(p: seq<int>, current: nat, threshold: nat)
    requires Grows(p) && Searches(p, current, threshold)
    ensures var s := Bounds(p, current, threshold);
      threshold <= 2 * p[s.lb] && 2 * p[s.ub] <= 3 * threshold ==> Kept(p, current, threshold)
    ensures threshold <= 2 * p[2] && 2 * p[NSTEPS] <= 3 * threshold ==> Kept(p, current, threshold)
  {
  }

  /** All this holds of a clock's backlog: what is due after the wait lies between what is due after the bounds, is
      at most twice the threshold unless these are at most two intervals apart, and is as decay.h says if
      the shortest and the longest wait are. */
  lemma BacklogPurge(b: seq<nat>, h: seq<nat>, current: nat, threshold: nat)
    requires Steps(h) && |b| == NSTEPS
    ensures Grows(Dues(b, h))
    ensures Searches(Dues(b, h), current, threshold) ==>
      var s := Bounds(Dues(b, h), current, threshold);
      var due := Purge(b, h, s.Middle());
      && Purge(b, h, s.lb) <= due <= Purge(b, h, s.ub) && Purge(b, h, s.lb) <= threshold <= Purge(b, h, s.ub)
      && (s.ub <= s.lb + 2 || due <= 2 * threshold)
      && (threshold <= 2 * Purge(b, h, 2) && 2 * Purge(b, h, NSTEPS) <= 3 * threshold ==>
            threshold <= 2 * due <= 3 * threshold)
  {
    var p := Dues(b, h);
    DuesGrow(b, h);
    if Searches(p, current, threshold) {
      WaitPurge(p, current, threshold);
      KeptBetween(p, current, threshold);
    }
  }

  /** No wait could keep it when the pages due jump from below half the threshold to above one and a half. */
  lemma JumpMissed(p: seq<int>, current: nat, threshold: nat, k: nat)
    requires Grows(p) && 2 <= k < NSTEPS && 2 * p[k] < threshold && 3 * threshold < 2 * p[k + 1]
    ensures !Kept(p, current, threshold)
  {
    var m := Bounds(p, current, threshold).Middle();
    assert m <= k ==> p[m] <= p[k];
    assert k < m ==> p[k + 1] <= p[m];
  }

  /** For every table of positive factors that ends in one it is missed for a single page: nothing is due
      before the last interval, and the wait is shorter. */
  lemma OnePageMissed(b: seq<nat>, h: seq<nat>)
    requires Steps(h) && 0 < h[0] && h[NSTEPS - 1] == ONE && |b| == NSTEPS
    requires b[NSTEPS - 1] == 1 && forall i :: 0 <= i < NSTEPS - 1 ==> b[i] == 0
    ensures Searches(Dues(b, h), 2, 1) && Due(Dues(b, h), 2, 1) == 0 && !Kept(Dues(b, h), 2, 1)
  {
    var p := Dues(b, h);
    forall k | 0 <= k <= NSTEPS ensures p[k] == if k < NSTEPS then 0 else 1 {
      PurgeInIsPurge(b, h, k, 1);
      if k < NSTEPS {
        RisingAt(h, NSTEPS, 0, NSTEPS - 1 - k);
      }
    }
  }

  lemma HalfSteps(interval: nat, s: nat)
    requires 0 < interval
    ensures 0 <= interval * s / 2 && interval * s / 2 / interval == s / 2
  {
    var q := s / 2;
    var x := q * interval;
    assert interval * (2 * q) == 2 * x;
    if s == 2 * q {
      ModUnique(x, q, interval, 0);
    } else {
      assert interval * (2 * q + 1) == interval * (2 * q) + interval;
      ModUnique(x + interval / 2, q, interval, interval / 2);
    }
  }

  // ----- the clock -----

  class Decay {
    const h: seq<nat>
    const backlog: array<nat>
    var timeMs: int
    var interval: nat
    var epoch: nat
    var deadline: nat
    var npagesLimit: nat
    var nunpurged: nat
    var ceilNpages: nat

    ghost predicate Valid()
      reads this, backlog
    {
      && Steps(h) && backlog.Length == NSTEPS
      && Limit(backlog[..], h) <= ceilNpages && Limit(backlog[..], h) <= nunpurged
      && epoch + interval <= deadline && (0 < timeMs ==> 0 < interval)
    }

    constructor (steps: seq<nat>, time: nat, ms: int, jitter: nat)
      requires Steps(steps) && -1 <= ms && (0 < ms ==> jitter < ms * 5000)
      ensures Valid() && fresh(backlog) && h == steps && timeMs == ms && epoch == time
      ensures nunpurged == 0 && npagesLimit == 0 && ceilNpages == 0
      ensures interval == (if 0 < ms then ms * 5000 else 0)
      ensures deadline == time + interval + if 0 < ms then jitter else 0
      ensures forall i :: 0 <= i < NSTEPS ==> backlog[i] == 0
    {
      h := steps;
      backlog := new nat[NSTEPS];
      interval, npagesLimit, ceilNpages := 0, 0, 0;
      new;
      Reinit(time, ms, jitter);
    }

    method DeadlineInit(jitter: nat)
      modifies this`deadline
      ensures deadline == epoch + interval + if 0 < timeMs then jitter else 0
    {
      deadline := epoch + interval;
      if 0 < timeMs {
        deadline := deadline + jitter;
      }
    }

    method Reinit(time: nat, ms: int, jitter: nat)
      requires Steps(h) && backlog.Length == NSTEPS && -1 <= ms && (0 < ms ==> jitter < ms * 5000)
      modifies this, backlog
      ensures Valid() && timeMs == ms && epoch == time && nunpurged == 0
      ensures npagesLimit == old(npagesLimit) && ceilNpages == old(ceilNpages)
      ensures interval == (if 0 < ms then ms * 5000 else old(interval))
      ensures deadline == time + interval + if 0 < ms then jitter else 0
      ensures forall i :: 0 <= i < NSTEPS ==> backlog[i] == 0
    {
      timeMs := ms;
      if 0 < ms {
        interval := ms * 1_000_000 / NSTEPS;
      }
      epoch := time;
      DeadlineInit(jitter);
      nunpurged := 0;
      forall i | 0 <= i < NSTEPS {
        backlog[i] := 0;
      }
      LeftZero(backlog[..], h, NSTEPS, 0);
    }

    method BacklogLimit() returns (limit: nat)
      requires Steps(h) && backlog.Length == NSTEPS
      ensures limit == Limit(backlog[..], h)
    {
      var sum := 0;
      for i := 0 to NSTEPS
        invariant sum == Left(backlog[..], h, i, 0)
      {
        sum := sum + backlog[i] * h[i];
      }
      limit := sum / ONE;
    }

    /** The records but the newest move nadvance places down, and zeros take the places they leave. */
    method MoveDown(nadvance: nat)
      requires backlog.Length == NSTEPS && 1 <= nadvance
      modifies backlog
      ensures forall i :: 0 <= i < NSTEPS - 1 ==>
        backlog[i] == if i + nadvance < NSTEPS then old(backlog[i + nadvance]) else 0
    {
      if NSTEPS <= nadvance {
        forall i | 0 <= i < NSTEPS - 1 {
          backlog[i] := 0;
        }
      } else {
        forall i | 0 <= i < NSTEPS - nadvance {
          backlog[i] := backlog[i + nadvance];
        }
        if 1 < nadvance {
          forall i | NSTEPS - nadvance <= i < NSTEPS - 1 {
            backlog[i] := 0;
          }
        }
      }
    }

    /** The shift of the records. */
    method Shift(nadvance: nat, delta: nat)
      requires backlog.Length == NSTEPS && 1 <= nadvance
      modifies backlog
      ensures backlog[..] == Advanced(old(backlog[..]), nadvance, delta)
    {
      MoveDown(nadvance);
      backlog[NSTEPS - 1] := delta;
    }

    /** decay_backlog_update: the new limit is at most the larger of the old one and the current pages, so
        the assertion on the ceiling holds. */
    method BacklogUpdate(nadvance: nat, current: nat)
      requires Valid() && 1 <= nadvance
      modifies backlog, this`ceilNpages
      ensures var delta := if nunpurged < current then current - nunpurged else 0;
        backlog[..] == Advanced(old(backlog[..]), nadvance, delta)
      ensures Limit(backlog[..], h) <= old(Limit(backlog[..], h)) || Limit(backlog[..], h) <= current
      ensures ceilNpages == Limit(backlog[..], h)
    {
      var delta := if nunpurged < current then current - nunpurged else 0;
      LimitAfter(backlog[..], h, nadvance, delta);
      Shift(nadvance, delta);
      if ceilNpages < current {
        ceilNpages := current;
      }
      var limit := BacklogLimit();
      assert limit <= ceilNpages;
      if limit < ceilNpages {
        ceilNpages := limit;
      }
    }

    method MaybeUpdateTime(newTime: nat, jitter: nat, monotonic: bool)
      requires Valid() && jitter < interval && (monotonic ==> epoch <= newTime)
      modifies this`epoch, this`deadline
      ensures Valid()
      ensures if old(epoch) <= newTime then epoch == old(epoch) && deadline == old(deadline)
              else epoch == newTime && deadline == newTime + interval + if 0 < timeMs then jitter else 0
    {
      if !monotonic && newTime < epoch {
        epoch := newTime;
        DeadlineInit(jitter);
      }
    }

    /** decay_maybe_advance_epoch. A deadline that is reached is at least one interval after the
        epoch; the new epoch is less than an interval behind the time. */
    method MaybeAdvanceEpoch(newTime: nat, current: nat, jitter: nat, monotonic: bool) returns (advanced: bool)
      requires Valid() && 0 < timeMs && jitter < interval && (monotonic ==> epoch <= newTime)
      modifies this, backlog
      ensures Valid() && interval == old(interval) && timeMs == old(timeMs)
      ensures advanced <==> old(epoch) <= newTime && old(deadline) <= newTime
      ensures !advanced ==>
        && backlog[..] == old(backlog[..]) && nunpurged == old(nunpurged)
        && npagesLimit == old(npagesLimit) && ceilNpages == old(ceilNpages)
      ensures !advanced ==>
        if old(epoch) <= newTime then epoch == old(epoch) && deadline == old(deadline)
        else epoch == newTime && deadline == newTime + interval + jitter
      ensures advanced ==>
        var k := (newTime - old(epoch)) / interval;
        var delta := if old(nunpurged) < current then current - old(nunpurged) else 0;
        && 1 <= k && epoch == old(epoch) + k * interval && epoch <= newTime < epoch + interval
        && backlog[..] == Advanced(old(backlog[..]), k, delta) && deadline == epoch + interval + jitter
      ensures advanced ==>
        && npagesLimit == Limit(backlog[..], h) && nunpurged == (if npagesLimit < current then current else npagesLimit)
        && (npagesLimit <= old(Limit(backlog[..], h)) || npagesLimit <= current)
    {
      MaybeUpdateTime(newTime, jitter, monotonic);
      if newTime < deadline {
        return false;
      }
      var delta := newTime - epoch;
      var nadvance := delta / interval;
      DivPositive(delta, interval);
      epoch := epoch + interval * nadvance;
      DeadlineInit(jitter);
      BacklogUpdate(nadvance, current);
      npagesLimit := BacklogLimit();
      nunpurged := if current < npagesLimit then npagesLimit else current;
      advanced := true;
    }

    /** The single pass computes the fall of the weighted sum over the interval. */
    method NpurgeAfterInterval(k: nat) returns (npurge: nat)
      requires Steps(h) && backlog.Length == NSTEPS && k <= NSTEPS
      ensures npurge == Purge(backlog[..], h, k)
    {
      ghost var b := backlog[..];
      var sum := 0;
      for i := 0 to k
        invariant sum == Left(b, h, i, 0)
      {
        sum := sum + backlog[i] * h[i];
      }
      for i := k to NSTEPS
        invariant sum == Left(b, h, i, 0) - Left(b, h, i, k)
      {
        RisingAt(h, NSTEPS, i - k, i);
        Weighted(b[i], h[i], h[i - k]);
        sum := sum + backlog[i] * (h[i] - h[i - k]);
      }
      LeftAntitone(b, h, NSTEPS, 0, k);
      npurge := sum / ONE;
    }

    /** One probe of the search. */
    method Probe(s: Span, threshold: nat) returns (r: Span, npurge: nat)
      requires Steps(h) && backlog.Length == NSTEPS && s.ub <= NSTEPS && s.lb + 2 < s.ub
      ensures npurge == Purge(backlog[..], h, s.Middle())
      ensures r == if threshold < npurge then Span(s.lb, s.Middle()) else Span(s.Middle(), s.ub)
    {
      npurge := NpurgeAfterInterval(s.Middle());
      r := if threshold < npurge then Span(s.lb, s.Middle()) else Span(s.Middle(), s.ub);
    }

    /** The search, which makes no more probes than asserted. */
    method Search(threshold: nat) returns (s: Span)
      requires Steps(h) && backlog.Length == NSTEPS
      requires Purge(backlog[..], h, 2) <= threshold <= Purge(backlog[..], h, NSTEPS)
      ensures s == Bisect(Dues(backlog[..], h), threshold, Span(2, NSTEPS))
      ensures Bracket(Dues(backlog[..], h), s, threshold)
    {
      ghost var p := Dues(backlog[..], h);
      BisectBracket(p, threshold, Span(2, NSTEPS));
      s := Span(2, NSTEPS);
      ghost var all := s;
      var npurgeLb := NpurgeAfterInterval(s.lb);
      var npurgeUb := NpurgeAfterInterval(s.ub);
      var probes := 0;
      while npurgeLb + threshold < npurgeUb && s.lb + 2 < s.ub
        invariant s.lb < s.ub <= NSTEPS && npurgeLb == p[s.lb] && npurgeUb == p[s.ub]
        invariant Bisect(p, threshold, s) == Bisect(p, threshold, all)
        invariant FewProbes(probes, s)
        decreases s.ub - s.lb
      {
        ProbesLeft(probes, s);
        var npurge;
        s, npurge := Probe(s, threshold);
        if threshold < npurge {
          npurgeUb := npurge;
        } else {
          npurgeLb := npurge;
        }
        assert probes < 8; // lg_floor(NSTEPS) + 1
        probes := probes + 1;
      }
    }

    /** decay_ns_until_purge; none stands for DECAY_UNBOUNDED_TIME_TO_PURGE. How many pages are due after
        the wait, and when that is what decay.h promises, is for WaitPurge and KeptExactly to say. */
    method NsUntilPurge(current: nat, threshold: nat) returns (ns: Option<nat>)
      requires Valid()
      ensures ns.None? <==> timeMs <= 0 || (current == 0 && forall i :: 0 <= i < NSTEPS ==> backlog[i] == 0)
      ensures ns.Some? ==>
        var s := Bounds(Dues(backlog[..], h), current, threshold);
        ns.value == interval * (s.ub + s.lb) / 2 && ns.value / interval == s.Middle()
    {
      if timeMs <= 0 {
        return None;
      }
      var nothing := NothingRecorded(current);
      if nothing {
        return None;
      }
      var s := FindBounds(current, threshold);
      HalfSteps(interval, s.ub + s.lb);
      ns := Some(interval * (s.ub + s.lb) / 2);
    }

    method NothingRecorded(current: nat) returns (nothing: bool)
      requires backlog.Length == NSTEPS
      ensures nothing <==> current == 0 && forall i :: 0 <= i < NSTEPS ==> backlog[i] == 0
    {
      if current != 0 {
        return false;
      }
      var i := 0;
      while i < NSTEPS && backlog[i] == 0
        invariant i <= NSTEPS && forall j :: 0 <= j < i ==> backlog[j] == 0
      {
        i := i + 1;
      }
      nothing := i == NSTEPS;
    }

    method FindBounds(current: nat, threshold: nat) returns (s: Span)
      requires Steps(h) && backlog.Length == NSTEPS
      ensures s == Bounds(Dues(backlog[..], h), current, threshold)
    {
      if current <= threshold {
        return Span(NSTEPS, NSTEPS);
      }
      var npurgeLb := NpurgeAfterInterval(2);
      if threshold < npurgeLb {
        return Span(2, 2);
      }
      var npurgeUb := NpurgeAfterInterval(NSTEPS);
      if npurgeUb < threshold {
        return Span(NSTEPS, NSTEPS);
      }
      s := Search(threshold);
    }
  }

  lemma DivPositive(x: nat, d: nat)
    requires 1 <= d <= x
    ensures 1 <= x / d && d * (x / d) <= x < d * (x / d) + d
  {
    assert x == d * (x / d) + x % d;
  }

  /** So many probes are possible before the bounds are s. */
  ghost predicate FewProbes(probes: nat, s: Span) {
    Pow2(probes) * (s.ub - s.lb - 1) <= 197
  }

  /** Each probe halves what is between the bounds. */
  lemma ProbesLeft(probes: nat, s: Span)
    requires s.lb + 2 < s.ub && FewProbes(probes, s)
    ensures probes < 8
    ensures FewProbes(probes + 1, Span(s.lb, s.Middle())) && FewProbes(probes + 1, Span(s.Middle(), s.ub))
  {
    var p := Pow2(probes);
    Halved(p, s.ub - s.lb - 1, s.Middle() - s.lb - 1);
    Halved(p, s.ub - s.lb - 1, s.ub - s.Middle() - 1);
    MulLe(p, 1, s.ub - s.lb - 1);
    if 8 <= probes {
      Pow2Mono(8, probes);
    }
  }

  lemma Halved(p: nat, x: nat, y: nat)
    requires 2 * y <= x
    ensures 2 * p * y <= p * x
  {
    MulLe(p, 2 * y, x);
  }

  lemma {:induction false} Pow2Mono(a: nat, b: nat)
    requires a <= b
    ensures Pow2(a) <= Pow2(b)
  {
    if a < b {
      Pow2Mono(a, b - 1);
    }
  }
}
