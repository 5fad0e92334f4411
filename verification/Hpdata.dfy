/**
 * One hugepage-sized slab (hpdata.c): a first-fit page allocator that caches its longest
 * free range and two counters, and the purge protocol on its dirty pages.
 * Offsets are page numbers relative to the slab's address.
 */
module Hpdata {
  import opened Basics
  import opened PageSet

  datatype Slab = Slab(
    pages: nat,
    active: set<nat>, nactive: nat,
    touched: set<nat>, ntouched: nat,
    longest: nat,
    huge: bool,
    allocAllowed: bool, purgeAllowed: bool, hugifyAllowed: bool,
    midPurge: bool, midHugify: bool)
  {
    predicate ChangingState() { midPurge || midHugify }

    ghost function Dirty(): set<nat> { touched - active }
  }

  /** The purge state that a purging thread keeps while the shard lock is dropped. */
  datatype PurgeState = PurgeState(npurged: nat, ndirtyToPurge: nat, toPurge: set<nat>, nextSearchBegin: nat)

  datatype Span = Span(begin: nat, len: nat) {
    function Pages(): set<nat> { Range(begin, len) }
  }

  /** hpdata_consistent, plus the fact behind its counter test that active pages are touched. */
  ghost predicate Consistent(s: Slab) {
    && 1 <= s.pages
    && Within(s.active, s.pages) && Within(s.touched, s.pages)
    && s.active <= s.touched
    && s.nactive == |s.active|
    && s.ntouched == |s.touched|
    && s.longest == Longest(s.active, s.pages)
    && (s.huge ==> s.ntouched == s.pages)
    && (s.ChangingState() ==> !s.purgeAllowed && !s.hugifyAllowed)
  }

  lemma DirtyCount(s: Slab)
    requires Consistent(s)
    ensures s.nactive <= s.ntouched <= s.pages
    ensures |s.Dirty()| == s.ntouched - s.nactive
  {
    assert s.touched == s.active + s.Dirty();
    assert s.touched <= Range(0, s.pages);
    SubsetCard(s.touched, Range(0, s.pages));
    RangeCard(0, s.pages);
  }

  // ----- what the operations promise -----

  ghost predicate FirstFit(active: set<nat>, n: nat, b: nat, len: nat) {
    Free(active, n, b, len) && forall b': nat :: b' < b ==> !Free(active, n, b', len)
  }

  ghost function Reserved(s: Slab, b: nat, npages: nat): Slab {
    var active := s.active + Range(b, npages);
    var touched := s.touched + Range(b, npages);
    s.(active := active, nactive := |active|, touched := touched, ntouched := |touched|,
       longest := Longest(active, s.pages))
  }

  ghost function Unreserved(s: Slab, b: nat, npages: nat): Slab {
    var active := s.active - Range(b, npages);
    s.(active := active, nactive := |active|, longest := Longest(active, s.pages))
  }

  lemma UnreservedConsistent(s: Slab, b: nat, npages: nat)
    requires Consistent(s) && Range(b, npages) <= s.active
    ensures Consistent(Unreserved(s, b, npages))
    ensures |s.active - Range(b, npages)| == s.nactive - npages
  {
    RangeCard(b, npages);
    assert s.active == (s.active - Range(b, npages)) + Range(b, npages);
  }

  lemma ReservedConsistent(s: Slab, b: nat, npages: nat)
    requires Consistent(s) && Free(s.active, s.pages, b, npages)
    ensures Consistent(Reserved(s, b, npages))
    ensures |s.active + Range(b, npages)| == s.nactive + npages
    ensures |s.touched + Range(b, npages)| == s.ntouched + |Range(b, npages) - s.touched|
  {
    RangeCard(b, npages);
    assert s.active !! Range(b, npages);
    assert s.touched + Range(b, npages) == s.touched + (Range(b, npages) - s.touched);
    if s.huge {
      FullIfCount(s.touched, s.pages);
      assert s.touched + Range(b, npages) == s.touched;
    }
  }

  /** The dirty pages after pages have become active, or no longer are. */
  lemma DirtyMoves(active: set<nat>, touched: set<nat>, r: set<nat>)
    ensures (touched + r) - (active + r) == (touched - active) - r
    ensures r <= active <= touched ==> touched - (active - r) == (touched - active) + r
  {
  }

  lemma FullIfCount(t: set<nat>, n: nat)
    requires Within(t, n) && |t| == n
    ensures t == Range(0, n)
  {
    RangeCard(0, n);
    assert Range(0, n) == t + (Range(0, n) - t);
    assert |Range(0, n) - t| == 0;
  }

  /** Page p lies between two dirty pages with no active page between them. */
  ghost predicate Bridged(active: set<nat>, touched: set<nat>, p: nat) {
    exists lo: nat, hi: nat :: Bridge(active, touched, lo, hi) && lo <= p <= hi
  }

  ghost predicate Bridge(active: set<nat>, touched: set<nat>, lo: nat, hi: nat) {
    && lo <= hi && lo in touched && hi in touched
    && forall q :: lo <= q <= hi ==> q !in active
  }

  /** The pages a purge of s covers: its dirty pages and the retained gaps between them. */
  ghost function ToPurge(s: Slab): set<nat> {
    BridgedBelow(s.active, s.touched, s.pages)
  }

  ghost function BridgedBelow(active: set<nat>, touched: set<nat>, n: nat): set<nat> {
    set p: nat | p < n && Bridged(active, touched, p)
  }

  ghost function Purged(s: Slab, toPurge: set<nat>): Slab {
    s.(touched := s.touched - toPurge, ntouched := |s.touched - toPurge|)
  }

  lemma PurgedCard(touched: set<nat>, toPurge: set<nat>)
    ensures |touched - toPurge| == |touched| - |toPurge * touched|
  {
    assert touched == (touched - toPurge) + toPurge * touched;
  }

  ghost function Hugified(s: Slab): Slab {
    s.(huge := true, touched := Range(0, s.pages), ntouched := s.pages)
  }

  /** The next maximal run of pages to purge at or after from. */
  function NextSpan(toPurge: set<nat>, n: nat, from: nat): (r: Option<Span>)
    requires from <= n
    ensures r.None? ==> forall p :: from <= p < n ==> p !in toPurge
    ensures r.Some? ==>
      && from <= r.value.begin && 0 < r.value.len && r.value.begin + r.value.len <= n
      && (forall p :: from <= p < r.value.begin ==> p !in toPurge)
      && r.value.Pages() <= toPurge
      && (r.value.begin + r.value.len < n ==> r.value.begin + r.value.len !in toPurge)
  {
    var b := NextIn(toPurge, n, from);
    if b == n then None else Some(Span(b, NextOut(toPurge, n, b) - b))
  }

  // ----- longest free range bookkeeping -----

  /** What the search of hpdata_reserve_alloc knows when it stops at the run [begin, begin + len). */
  ghost predicate RunFound(active: set<nat>, n: nat, start: nat, begin: nat, len: nat, largestUnchosen: nat) {
    && start <= begin && Free(active, n, begin, len) && len <= Longest(active, n)
    && (begin == 0 || begin - 1 in active)
    && (begin + len == n || begin + len in active)
    && (forall p :: start <= p < begin ==> p in active)
    && Scanned(active, n, start, largestUnchosen)
  }

  /** Every nonempty free range that starts below start ends by start and has at most best pages. */
  ghost predicate Scanned(active: set<nat>, n: nat, start: nat, best: nat) {
    && (forall b: nat, len: nat :: Free(active, n, b, len) && 0 < len && b < start ==> b + len <= start && len <= best)
    && exists b: nat :: Free(active, n, b, best) && b + best <= start
  }

  lemma ScanStep(active: set<nat>, n: nat, start: nat, best: nat, begin: nat, end: nat)
    requires Scanned(active, n, start, best)
    requires start <= begin <= end <= n
    requires forall p :: start <= p < begin ==> p in active
    requires Free(active, n, begin, end - begin)
    requires end < n ==> end in active
    ensures Scanned(active, n, end, if best < end - begin then end - begin else best)
  {
    forall b: nat, len: nat | Free(active, n, b, len) && 0 < len && start <= b < end
      ensures b + len <= end && len <= end - begin
    {
      assert b !in active;
    }
  }

  /** Reserving the front of the run [b, b + len) leaves a scan of everything below its new end. */
  lemma ScanAfterReserve(active: set<nat>, n: nat, start: nat, best: nat, b: nat, npages: nat)
    requires Scanned(active, n, start, best)
    requires start <= b && b + npages <= n && 0 < npages
    requires forall p :: start <= p < b ==> p in active
    ensures Scanned(active + Range(b, npages), n, b + npages, best)
  {
    var now := active + Range(b, npages);
    forall c: nat, len: nat | Free(now, n, c, len) && 0 < len && c < b + npages
      ensures c + len <= b + npages && len <= best
    {
      assert c !in now;
      assert Free(active, n, c, len);
    }
    var w: nat :| Free(active, n, w, best) && w + best <= start;
    assert Free(now, n, w, best);
  }

  /** A run shorter than the maximum is not the only longest one: using it changes nothing. */
  lemma LongestUnchanged(active: set<nat>, n: nat, b: nat, len: nat, npages: nat)
    requires Free(active, n, b, len) && npages <= len
    requires b == 0 || b - 1 in active
    requires b + len == n || b + len in active
    requires len < Longest(active, n)
    ensures Longest(active + Range(b, npages), n) == Longest(active, n)
  {
    LongestSpec(active, n);
    var best := Longest(active, n);
    var now := active + Range(b, npages);
    var w: nat :| Free(active, n, w, best);
    assert w <= b - 1 < w + best ==> b - 1 !in active;
    assert w <= b + len < w + best ==> b + len !in active;
    assert b + len <= w || w + best <= b;
    assert Free(now, n, w, best);
    forall c: nat, k: nat | Free(now, n, c, k)
      ensures k <= best
    {
      assert Free(active, n, c, k);
    }
    LongestIs(now, n, w, best);
  }

  lemma LongestFromScan(active: set<nat>, n: nat, best: nat)
    requires Scanned(active, n, n, best)
    ensures Longest(active, n) == best
  {
    var w: nat :| Free(active, n, w, best) && w + best <= n;
    LongestIs(active, n, w, best);
  }

  /** Freeing a range can only create the free run around it. */
  lemma LongestAfterFree(active: set<nat>, n: nat, b: nat, npages: nat, nb: nat, ne: nat)
    requires b + npages <= n && nb <= b && b + npages <= ne <= n
    requires Free(active - Range(b, npages), n, nb, ne - nb)
    requires nb == 0 || nb - 1 in active - Range(b, npages)
    requires ne == n || ne in active - Range(b, npages)
    ensures Longest(active - Range(b, npages), n)
         == if Longest(active, n) < ne - nb then ne - nb else Longest(active, n)
  {
    var now := active - Range(b, npages);
    LongestSpec(active, n);
    var before := Longest(active, n);
    forall c: nat, k: nat | Free(now, n, c, k)
      ensures k <= before || k <= ne - nb
    {
      assert c <= nb - 1 < c + k ==> nb - 1 !in now;
      assert c <= ne < c + k ==> ne !in now;
      if c + k <= nb || ne <= c {
        forall p: nat | c <= p < c + k ensures p !in active { assert p !in now; }
        assert Free(active, n, c, k);
      }
    }
    var w: nat :| Free(active, n, w, before);
    assert Free(now, n, w, before);
    LongestIs(now, n, if before < ne - nb then nb else w, if before < ne - nb then ne - nb else before);
  }

  /** The run that hpdata_unreserve inspects is all it needs to inspect. */
  lemma LongestAfterUnreserve(active: set<nat>, n: nat, b: nat, npages: nat)
    requires 1 <= npages && b + npages <= n
    ensures
      var now := active - Range(b, npages);
      var nb, ne := LastIn(now, b) + 1, NextIn(now, n, b + npages - 1);
      nb <= ne && Longest(now, n) == if Longest(active, n) < ne - nb then ne - nb else Longest(active, n)
  {
    var now := active - Range(b, npages);
    var nb, ne := LastIn(now, b) + 1, NextIn(now, n, b + npages - 1);
    assert b !in now && b + npages - 1 !in now;
    assert Free(now, n, nb, ne - nb);
    LongestAfterFree(active, n, b, npages, nb, ne);
  }

  // ----- purging -----

  /** From a run's start, the bridged pages up to its end go from its first dirty page to its last. */
  lemma BridgedRun(active: set<nat>, touched: set<nat>, n: nat, start: nat)
    requires Within(touched, n) && start <= n
    requires start == 0 || start - 1 in active
    ensures
      var dirty := touched - active;
      var lo := NextIn(dirty, n, start);
      if lo == n then forall p: nat :: start <= p ==> !Bridged(active, touched, p)
      else
        var end := NextIn(active, n, lo);
        var hi := LastIn(dirty, end - 1);
        lo <= hi && forall p: nat :: start <= p <= end ==> (Bridged(active, touched, p) <==> lo <= p <= hi)
  {
    var dirty := touched - active;
    var lo := NextIn(dirty, n, start);
    var end := NextIn(active, n, lo);
    var hi := LastIn(dirty, end - 1);
    forall a: nat, b: nat | Bridge(active, touched, a, b) && start <= b
      ensures start <= a && a in dirty && b in dirty && lo < n && lo <= a
      ensures a < end ==> b <= hi
    {
      assert a <= start - 1 <= b ==> start - 1 !in active;
      assert a !in active && b !in active;
      assert a <= end <= b ==> end !in active;
    }
    if lo < n {
      assert lo in dirty;
      assert Bridge(active, touched, lo, hi);
    }
  }

  lemma BridgedBelowStep(active: set<nat>, touched: set<nat>, n: nat, start: nat, lo: nat, end: nat, hi: int)
    requires Within(touched, n) && start <= n
    requires start == 0 || start - 1 in active
    requires lo == NextIn(touched - active, n, start) && lo < n
    requires end == NextIn(active, n, lo) && hi == LastIn(touched - active, end - 1)
    ensures lo <= hi
    ensures BridgedBelow(active, touched, end + 1) == BridgedBelow(active, touched, start) + Range(lo, hi - lo + 1)
  {
    BridgedRun(active, touched, n, start);
  }

  lemma BridgedBelowDone(active: set<nat>, touched: set<nat>, n: nat, start: nat)
    requires Within(touched, n) && start <= n
    requires start == 0 || start - 1 in active
    requires NextIn(touched - active, n, start) == n
    ensures BridgedBelow(active, touched, n) == BridgedBelow(active, touched, start)
  {
    BridgedRun(active, touched, n, start);
  }

  lemma BridgedBelowEnd(active: set<nat>, touched: set<nat>, n: nat)
    requires Within(touched, n)
    ensures BridgedBelow(active, touched, n + 1) == BridgedBelow(active, touched, n)
  {
    assert !Bridged(active, touched, n) by {
      forall a: nat, b: nat | a <= n <= b ensures !Bridge(active, touched, a, b) {
        assert b in touched ==> b < n;
      }
    }
  }

  /** The loop of hpdata_purge_begin: from each dirty page to the last one before the next active page. */
  method CollectToPurge(active: set<nat>, touched: set<nat>, pages: nat) returns (toPurge: set<nat>)
    requires Within(touched, pages)
    ensures toPurge == BridgedBelow(active, touched, pages)
  {
    var dirty := touched - active;
    toPurge := {};
    var nextBit := 0;
    while nextBit < pages
      invariant nextBit <= pages + 1
      invariant nextBit == 0 || nextBit == pages + 1 || nextBit - 1 in active
      invariant toPurge == BridgedBelow(active, touched, nextBit)
    {
      var nextDirty := NextIn(dirty, pages, nextBit);
      if nextDirty == pages {
        BridgedBelowDone(active, touched, pages, nextBit);
        return;
      }
      var nextActive := NextIn(active, pages, nextDirty);
      var lastDirty := LastIn(dirty, nextActive - 1);
      BridgedBelowStep(active, touched, pages, nextBit, nextDirty, nextActive, lastDirty);
      toPurge := toPurge + Range(nextDirty, lastDirty - nextDirty + 1);
      nextBit := nextActive + 1;
    }
    BridgedBelowEnd(active, touched, pages);
  }

  class Hpdata {
    const pages: nat
    var active: set<nat>
    var nactive: nat
    var touched: set<nat>
    var ntouched: nat
    var longest: nat
    var huge: bool
    var allocAllowed: bool
    var purgeAllowed: bool
    var hugifyAllowed: bool
    var midPurge: bool
    var midHugify: bool

    ghost function View(): Slab
      reads this
    {
      Slab(pages, active, nactive, touched, ntouched, longest, huge,
           allocAllowed, purgeAllowed, hugifyAllowed, midPurge, midHugify)
    }

    constructor (hugepagePages: nat)
      requires 1 <= hugepagePages
      ensures Consistent(View()) && pages == hugepagePages
      ensures active == {} && touched == {} && !huge && allocAllowed && !midPurge && !midHugify
      ensures !purgeAllowed && !hugifyAllowed
    {
      pages := hugepagePages;
      active, nactive, touched, ntouched := {}, 0, {}, 0;
      longest := hugepagePages;
      huge, allocAllowed, purgeAllowed, hugifyAllowed, midPurge, midHugify := false, true, false, false, false, false;
      new;
      LongestIs({}, pages, 0, pages);
    }

    /** The search of hpdata_reserve_alloc: the first run that fits, and the longest run before it. */
    method FindFit(npages: nat) returns (start: nat, begin: nat, len: nat, largestUnchosen: nat)
      requires Consistent(View())
      requires 1 <= npages <= longest
      ensures npages <= len && FirstFit(active, pages, begin, npages)
      ensures RunFound(active, pages, start, begin, len, largestUnchosen)
    {
      start, begin, len, largestUnchosen := 0, 0, 0, 0;
      assert Free(active, pages, 0, 0);
      LongestSpec(active, pages);
      while true
        invariant start < pages
        invariant start == 0 || start in active
        invariant Scanned(active, pages, start, largestUnchosen)
        invariant largestUnchosen < npages
        decreases pages - start
      {
        begin := NextOut(active, pages, start);
        var end := NextIn(active, pages, begin);
        len := end - begin;
        assert Free(active, pages, begin, len);
        if npages <= len {
          forall b: nat | b < begin ensures !Free(active, pages, b, npages) {
            assert start <= b ==> b in active;
          }
          return;
        }
        ScanStep(active, pages, start, largestUnchosen, begin, end);
        if len > largestUnchosen {
          largestUnchosen := len;
        }
        if end == pages {
          LongestFromScan(active, pages, largestUnchosen);
          assert false;
        }
        start := end;
      }
    }

    /** hpdata_reserve_alloc: exactly the pages handed out become active and touched. */
    method ReserveAlloc(npages: nat) returns (result: nat)
      requires Consistent(View()) && allocAllowed
      requires 1 <= npages <= longest
      modifies this
      ensures Consistent(View())
      ensures FirstFit(old(active), pages, result, npages)
      ensures View() == Reserved(old(View()), result, npages)
      ensures active == old(active) + Range(result, npages) && nactive == old(nactive) + npages
      ensures touched == old(touched) + Range(result, npages)
      ensures ntouched == old(ntouched) + |Range(result, npages) - old(touched)|
      ensures View().Dirty() == old(View()).Dirty() - Range(result, npages)
      ensures View() == old(View()).(active := active, nactive := nactive, touched := touched, ntouched := ntouched,
                                     longest := longest)
    {
      ghost var s := View();
      result := TakeRun(npages);
      ReservedConsistent(s, result, npages);
      DirtyMoves(s.active, s.touched, Range(result, npages));
    }

    method TakeRun(npages: nat) returns (result: nat)
      requires Consistent(View()) && allocAllowed
      requires 1 <= npages <= longest
      modifies this
      ensures Consistent(View())
      ensures FirstFit(old(active), pages, result, npages)
      ensures View() == Reserved(old(View()), result, npages)
    {
      ghost var s := View();
      var start, begin, len, largestUnchosen := FindFit(npages);
      result := begin;
      ReservedConsistent(s, begin, npages);
      active := active + Range(begin, npages);
      nactive := nactive + npages;
      var newDirty := |Range(result, npages) - touched|;
      touched := touched + Range(result, npages);
      ntouched := ntouched + newDirty;
      longest := LongestAfterReserve(npages, start, begin, len, largestUnchosen, s.active);
    }

    /** A run shorter than the maximum leaves the maximum alone; otherwise look at the runs behind it. */
    method LongestAfterReserve(npages: nat, start: nat, begin: nat, len: nat, largestUnchosen: nat,
                               ghost before: set<nat>)
      returns (r: nat)
      requires 1 <= npages <= len && RunFound(before, pages, start, begin, len, largestUnchosen)
      requires longest == Longest(before, pages)
      requires active == before + Range(begin, npages)
      ensures r == Longest(active, pages)
    {
      if len == longest {
        ScanAfterReserve(before, pages, start, largestUnchosen, begin, npages);
        LongestAntitone(before, active, pages);
        r := Rescan(begin + npages, largestUnchosen);
      } else {
        LongestUnchanged(before, pages, begin, len, npages);
        r := longest;
      }
    }

    /** The rescan of hpdata_reserve_alloc: everything below from has been seen already. */
    method Rescan(from: nat, seen: nat) returns (best: nat)
      requires from <= pages
      requires Scanned(active, pages, from, seen)
      requires Longest(active, pages) <= longest
      ensures best == Longest(active, pages)
    {
      var start := from;
      best := seen;
      while start < pages
        invariant start <= pages
        invariant Scanned(active, pages, start, best)
      {
        var begin := NextOut(active, pages, start);
        if begin == pages {
          ScanStep(active, pages, start, best, pages, pages);
          LongestFromScan(active, pages, best);
          return;
        }
        var end := NextIn(active, pages, begin);
        var len := end - begin;
        assert Free(active, pages, begin, len);
        ScanStep(active, pages, start, best, begin, end);
        LongestSpec(active, pages);
        if len == longest {
          best := len;
          return;
        }
        if len > best {
          best := len;
        }
        start := end;
      }
      LongestFromScan(active, pages, best);
    }

    /** hpdata_unreserve: exactly these pages are no longer active, and become dirty. */
    method Unreserve(begin: nat, npages: nat)
      requires Consistent(View())
      requires 1 <= npages && Range(begin, npages) <= active
      modifies this
      ensures Consistent(View())
      ensures View() == Unreserved(old(View()), begin, npages)
      ensures active == old(active) - Range(begin, npages) && nactive == old(nactive) - npages
      ensures View().Dirty() == old(View()).Dirty() + Range(begin, npages)
      ensures View() == old(View()).(active := active, nactive := nactive, longest := longest)
    {
      ghost var s := View();
      UnreservedConsistent(s, begin, npages);
      DirtyMoves(s.active, s.touched, Range(begin, npages));
      GiveBack(begin, npages);
    }

    method GiveBack(begin: nat, npages: nat)
      requires Consistent(View())
      requires 1 <= npages && Range(begin, npages) <= active
      modifies this
      ensures View() == Unreserved(old(View()), begin, npages)
    {
      ghost var s := View();
      var oldLongest := longest;
      assert begin + npages - 1 in active;
      UnreservedConsistent(s, begin, npages);
      active := active - Range(begin, npages);
      var newBegin := LastIn(active, begin) + 1;
      var newEnd := NextIn(active, pages, begin + npages - 1);
      var newRangeLen := newEnd - newBegin;
      LongestAfterUnreserve(s.active, pages, begin, npages);
      if newRangeLen > oldLongest {
        longest := newRangeLen;
      }
      nactive := nactive - npages;
    }

    method PurgeBegin() returns (ps: PurgeState, ndirty: nat)
      requires Consistent(View()) && !allocAllowed
      ensures ndirty == |View().Dirty()|
      ensures ps == PurgeState(0, ndirty, ToPurge(View()), 0)
    {
      var toPurge := CollectToPurge(active, touched, pages);
      DirtyCount(View());
      ndirty := ntouched - nactive;
      ps := PurgeState(0, ndirty, toPurge, 0);
    }

    method PurgeNext(ps: PurgeState) returns (ps': PurgeState, found: Option<Span>)
      requires !allocAllowed && ps.nextSearchBegin <= pages
      ensures found == NextSpan(ps.toPurge, pages, ps.nextSearchBegin)
      ensures found.None? ==> ps' == ps
      ensures found.Some? ==>
        ps' == ps.(npurged := ps.npurged + found.value.len, nextSearchBegin := found.value.begin + found.value.len)
    {
      if ps.nextSearchBegin == pages {
        return ps, None;
      }
      var begin := NextIn(ps.toPurge, pages, ps.nextSearchBegin);
      if begin == pages {
        return ps, None;
      }
      var len := NextOut(ps.toPurge, pages, begin) - begin;
      found := Some(Span(begin, len));
      ps' := ps.(npurged := ps.npurged + len, nextSearchBegin := begin + len);
    }

    method PurgeEnd(ps: PurgeState)
      requires Consistent(View()) && !allocAllowed && !huge
      requires ps.toPurge !! active
      requires |ps.toPurge * touched| == ps.ndirtyToPurge
      modifies this
      ensures Consistent(View())
      ensures View() == Purged(old(View()), ps.toPurge)
      ensures touched == old(touched) - ps.toPurge && View().Dirty() == old(View()).Dirty() - ps.toPurge
      ensures ntouched == old(ntouched) - |ps.toPurge * old(touched)|
      ensures View() == old(View()).(touched := touched, ntouched := ntouched)
    {
      PurgedCard(touched, ps.toPurge);
      touched := touched - ps.toPurge;
      ntouched := ntouched - ps.ndirtyToPurge;
    }

    method Hugify()
      requires Consistent(View())
      modifies this
      ensures Consistent(View())
      ensures View() == Hugified(old(View()))
      ensures huge && ntouched == pages && forall p :: p in touched <==> 0 <= p < pages
      ensures View() == old(View()).(huge := true, touched := touched, ntouched := ntouched)
    {
      huge := true;
      touched := Range(0, pages);
      ntouched := pages;
      RangeCard(0, pages);
    }

    method Dehugify()
      requires Consistent(View())
      modifies this
      ensures Consistent(View())
      ensures View() == old(View()).(huge := false)
    {
      huge := false;
    }
  }
}
