/**
 * The huge-page allocator shard (hpa.c) as a transition system. Each action is one section
 * that runs under the shard lock, except PurgeNext, which a purging thread performs with the
 * lock dropped. Any number of threads interleave: a slab being purged keeps its purge state.
 */
module HpaShard {
  import opened Basics
  import opened PageSet
  import opened Hpdata

  /** A purge in progress: whether it must dehugify, its state, and the ranges given to the OS so far. */
  datatype Purge = Purge(dehugify: bool, state: PurgeState, emitted: seq<Span>)

  /** A slab in the psset, the allocations handed out of it, and the purge working on it. */
  datatype Tracked = Tracked(slab: Slab, live: set<Span>, purge: Option<Purge>)

  datatype Shard = Shard(pages: nat, hugificationThreshold: nat, slabs: seq<Tracked>,
                         nactive: int, ndirty: int, npendingPurge: int)

  datatype Action =
    | Grow
    | Alloc(i: nat, begin: nat, npages: nat)
    | AllocUnmapped(i: nat, begin: nat, npages: nat)
    | Dalloc(i: nat, span: Span)
    | BeginPurge(i: nat)
    | NextPurge(i: nat)
    | EndPurge(i: nat)
    | BeginHugify(i: nat)
    | EndHugify(i: nat)

  // ----- the steps -----

  ghost function Init(pages: nat, hugificationThreshold: nat): Shard {
    Shard(pages, hugificationThreshold, [], 0, 0, 0)
  }

  ghost function FreshSlab(pages: nat): Slab {
    Slab(pages, {}, 0, {}, 0, pages, false, true, false, false, false, false)
  }

  function Ndirty(t: Tracked): int { t.slab.ntouched - t.slab.nactive }

  function Nactive(t: Tracked): int { t.slab.nactive }

  function Npending(t: Tracked): int {
    if t.purge.Some? then t.purge.value.state.ndirtyToPurge else 0
  }

  /** hpa_update_purge_hugify_eligibility. */
  function Eligibility(s: Slab, threshold: nat): Slab {
    if s.ChangingState() then s.(purgeAllowed := false, hugifyAllowed := false)
    else
      var candidate := s.nactive * PAGE >= threshold && !s.huge;
      s.(purgeAllowed := s.ntouched - s.nactive > 0,
         hugifyAllowed := (candidate || s.hugifyAllowed) && s.nactive != 0)
  }

  /** psset_update_begin, a change of slab i, psset_update_end: its old share of the statistics
      is taken out and its new share is put in. */
  ghost function Update(s: Shard, i: nat, t: Tracked): Shard
    requires i < |s.slabs|
  {
    s.(slabs := s.slabs[i := t],
       nactive := s.nactive - Nactive(s.slabs[i]) + Nactive(t),
       ndirty := s.ndirty - Ndirty(s.slabs[i]) + Ndirty(t))
  }

  /** Slab i may be picked for npages pages, and begin is where hpdata_reserve_alloc puts them. */
  ghost predicate CanServe(s: Shard, i: nat, begin: nat, npages: nat) {
    && i < |s.slabs| && s.slabs[i].slab.allocAllowed
    && 1 <= npages <= s.slabs[i].slab.longest
    && FirstFit(s.slabs[i].slab.active, s.pages, begin, npages)
  }

  ghost predicate Enabled(s: Shard, a: Action) {
    match a
    case Grow => true
    case Alloc(i, begin, npages) => CanServe(s, i, begin, npages)
    case AllocUnmapped(i, begin, npages) => CanServe(s, i, begin, npages)
    case Dalloc(i, span) => i < |s.slabs| && span in s.slabs[i].live
    case BeginPurge(i) => i < |s.slabs| && s.slabs[i].slab.purgeAllowed
    case NextPurge(i) => Purging(s, i) && PendingSpan(s, i).Some?
    case EndPurge(i) => Purging(s, i) && PendingSpan(s, i).None?
    case BeginHugify(i) => i < |s.slabs| && s.slabs[i].slab.hugifyAllowed
    case EndHugify(i) => i < |s.slabs| && s.slabs[i].slab.midHugify
  }

  /** The purge has handed out one more span. */
  ghost function Emit(pg: Purge, span: Span): Purge {
    pg.(state := pg.state.(npurged := pg.state.npurged + span.len, nextSearchBegin := span.begin + span.len),
        emitted := pg.emitted + [span])
  }

  ghost predicate Purging(s: Shard, i: nat) {
    i < |s.slabs| && s.slabs[i].purge.Some? && s.slabs[i].purge.value.state.nextSearchBegin <= s.pages
  }

  ghost function PendingSpan(s: Shard, i: nat): Option<Span>
    requires Purging(s, i)
  {
    var ps := s.slabs[i].purge.value.state;
    NextSpan(ps.toPurge, s.pages, ps.nextSearchBegin)
  }

  ghost function Apply(s: Shard, a: Action): Shard
    requires Enabled(s, a)
  {
    match a
    case Grow =>
      // psset_insert of a slab extracted from the central allocator
      s.(slabs := s.slabs + [Tracked(FreshSlab(s.pages), {}, None)])
    case Alloc(i, begin, npages) =>
      var t := s.slabs[i];
      var slab := Eligibility(Reserved(t.slab, begin, npages), s.hugificationThreshold);
      Update(s, i, t.(slab := slab, live := t.live + {Span(begin, npages)}))
    case AllocUnmapped(i, begin, npages) =>
      // registering the new extent failed: the reservation is undone, the touched pages stay
      var t := s.slabs[i];
      Update(s, i, t.(slab := Unreserved(Reserved(t.slab, begin, npages), begin, npages)))
    case Dalloc(i, span) =>
      var t := s.slabs[i];
      var slab := Eligibility(Unreserved(t.slab, span.begin, span.len), s.hugificationThreshold);
      Update(s, i, t.(slab := slab, live := t.live - {span}))
    case BeginPurge(i) => StartPurge(s, i)
    case NextPurge(i) =>
      var t := s.slabs[i];
      s.(slabs := s.slabs[i := t.(purge := Some(Emit(t.purge.value, PendingSpan(s, i).value)))])
    case EndPurge(i) => FinishPurge(s, i)
    case BeginHugify(i) =>
      var t := s.slabs[i];
      Update(s, i, t.(slab := t.slab.(midHugify := true, purgeAllowed := false, hugifyAllowed := false)))
    case EndHugify(i) =>
      var t := s.slabs[i];
      var slab := Hugified(t.slab).(midHugify := false);
      Update(s, i, t.(slab := Eligibility(slab, s.hugificationThreshold)))
  }

  /** A slab while it is purged. */
  function Paused(slab: Slab): Slab {
    slab.(midPurge := true, purgeAllowed := false, hugifyAllowed := false, allocAllowed := false)
  }

  ghost function NewPurge(slab: Slab): Purge {
    Purge(slab.huge, PurgeState(0, |slab.Dirty()|, ToPurge(slab), 0), [])
  }

  /** hpa_try_purge up to the unlock. */
  ghost function StartPurge(s: Shard, i: nat): Shard
    requires i < |s.slabs|
  {
    var t := s.slabs[i];
    var pg := NewPurge(Paused(t.slab));
    var s1 := Update(s, i, t.(slab := Paused(t.slab), purge := Some(pg)));
    s1.(npendingPurge := s1.npendingPurge + pg.state.ndirtyToPurge)
  }

  /** hpa_try_purge from the second lock on. */
  ghost function FinishPurge(s: Shard, i: nat): Shard
    requires i < |s.slabs| && s.slabs[i].purge.Some?
  {
    var t := s.slabs[i];
    var pg := t.purge.value;
    var slab := if pg.dehugify then t.slab.(huge := false) else t.slab;
    var done := Purged(slab, pg.state.toPurge).(midPurge := false, allocAllowed := true);
    var s1 := Update(s, i, t.(slab := Eligibility(done, s.hugificationThreshold), purge := None));
    s1.(npendingPurge := s1.npendingPurge - pg.state.ndirtyToPurge)
  }

  // ----- the invariant -----

  /** The live allocations are disjoint and make up exactly the active pages. */
  ghost predicate LiveExact(live: set<Span>, active: set<nat>) {
    && (forall sp :: sp in live ==> 0 < sp.len)
    && (forall a, b :: a in live && b in live && a != b ==> a.Pages() !! b.Pages())
    && UnionOf(live) == active
  }

  ghost function UnionOf(live: set<Span>): set<nat> {
    set sp, p | sp in live && p in sp.Pages() :: p
  }

  /** The ranges emitted so far lie below upTo, each one behind the previous one. */
  ghost predicate InOrder(emitted: seq<Span>, upTo: nat) {
    emitted == [] ||
    (var last := emitted[|emitted| - 1];
     last.begin + last.len <= upTo && InOrder(emitted[..|emitted| - 1], last.begin))
  }

  ghost function PagesOf(emitted: seq<Span>): set<nat> {
    if emitted == [] then {}
    else PagesOf(emitted[..|emitted| - 1]) + emitted[|emitted| - 1].Pages()
  }

  ghost predicate PurgeInv(slab: Slab, pg: Purge) {
    && Within(pg.state.toPurge, slab.pages)
    && pg.state.toPurge !! slab.active
    && |pg.state.toPurge * slab.touched| == pg.state.ndirtyToPurge
    && pg.dehugify == slab.huge
    && pg.state.nextSearchBegin <= slab.pages
    && InOrder(pg.emitted, pg.state.nextSearchBegin)
    && PagesOf(pg.emitted) == pg.state.toPurge * Range(0, pg.state.nextSearchBegin)
    && pg.state.npurged == |pg.state.toPurge * Range(0, pg.state.nextSearchBegin)|
  }

  ghost predicate TrackedInv(pages: nat, t: Tracked) {
    && Consistent(t.slab) && t.slab.pages == pages
    && LiveExact(t.live, t.slab.active)
    && (t.slab.allocAllowed <==> !t.slab.midPurge)
    && (t.slab.midPurge <==> t.purge.Some?)
    && !(t.slab.midPurge && t.slab.midHugify)
    && (t.slab.purgeAllowed ==> t.slab.nactive < t.slab.ntouched)
    && (t.purge.Some? ==> PurgeInv(t.slab, t.purge.value))
  }

  ghost function Sum(ts: seq<Tracked>, f: Tracked -> int): int {
    if ts == [] then 0 else Sum(ts[..|ts| - 1], f) + f(ts[|ts| - 1])
  }

  ghost predicate Inv(s: Shard) {
    && 1 <= s.pages
    && (forall i :: 0 <= i < |s.slabs| ==> TrackedInv(s.pages, s.slabs[i]))
    && s.nactive == Sum(s.slabs, Nactive)
    && s.ndirty == Sum(s.slabs, Ndirty)
    && s.npendingPurge == Sum(s.slabs, Npending)
  }

  lemma SumUpdate(ts: seq<Tracked>, f: Tracked -> int, i: nat, t: Tracked)
    requires i < |ts|
    ensures Sum(ts[i := t], f) == Sum(ts, f) - f(ts[i]) + f(t)
  {
    var last := |ts| - 1;
    if i == last {
      assert ts[i := t][..last] == ts[..last];
    } else {
      assert ts[i := t][..last] == ts[..last][i := t];
      SumUpdate(ts[..last], f, i, t);
    }
  }

  lemma SumAppend(ts: seq<Tracked>, f: Tracked -> int, t: Tracked)
    ensures Sum(ts + [t], f) == Sum(ts, f) + f(t)
  {
    assert (ts + [t])[..|ts|] == ts;
  }

  lemma SumLe(ts: seq<Tracked>, f: Tracked -> int, g: Tracked -> int)
    requires forall i :: 0 <= i < |ts| ==> f(ts[i]) <= g(ts[i])
    ensures Sum(ts, f) <= Sum(ts, g)
  {
  }

  // ----- every step keeps the invariant -----

  lemma UpdateInv(s: Shard, i: nat, t: Tracked, pending: int)
    requires Inv(s) && i < |s.slabs| && TrackedInv(s.pages, t)
    requires pending == s.npendingPurge - Npending(s.slabs[i]) + Npending(t)
    ensures Inv(Update(s, i, t).(npendingPurge := pending))
  {
    SumUpdate(s.slabs, Nactive, i, t);
    SumUpdate(s.slabs, Ndirty, i, t);
    SumUpdate(s.slabs, Npending, i, t);
  }

  /** Whatever the purge flag was before, the eligibility update sets it right. */
  lemma EligibilityInv(pages: nat, t: Tracked, threshold: nat)
    requires TrackedInv(pages, t.(slab := t.slab.(purgeAllowed := false)))
    ensures TrackedInv(pages, t.(slab := Eligibility(t.slab, threshold)))
  {
    var slab := Eligibility(t.slab, threshold);
    assert Consistent(t.slab.(purgeAllowed := false)) ==> Consistent(slab);
    assert t.purge.Some? ==> PurgeInv(slab, t.purge.value);
  }

  lemma AllocInv(pages: nat, t: Tracked, begin: nat, npages: nat)
    requires TrackedInv(pages, t) && t.slab.allocAllowed && 1 <= npages
    requires Free(t.slab.active, pages, begin, npages)
    ensures TrackedInv(pages, t.(slab := Reserved(t.slab, begin, npages).(purgeAllowed := false),
                                 live := t.live + {Span(begin, npages)}))
  {
    var slab := Reserved(t.slab, begin, npages);
    ReservedConsistent(t.slab, begin, npages);
    var span := Span(begin, npages);
    LiveAdd(t.live, t.slab.active, span);
  }

  lemma LiveAdd(live: set<Span>, active: set<nat>, span: Span)
    requires LiveExact(live, active) && 0 < span.len && active !! span.Pages()
    ensures LiveExact(live + {span}, active + span.Pages())
  {
    forall sp | sp in live ensures sp.Pages() !! span.Pages() {
      forall p | p in sp.Pages() ensures p in active { assert p in UnionOf(live); }
    }
    assert UnionOf(live + {span}) == UnionOf(live) + span.Pages();
  }

  lemma LiveRemove(live: set<Span>, active: set<nat>, span: Span)
    requires LiveExact(live, active) && span in live
    ensures span.Pages() <= active
    ensures LiveExact(live - {span}, active - span.Pages())
  {
    assert span.Pages() <= UnionOf(live);
    assert UnionOf(live - {span}) == UnionOf(live) - span.Pages();
  }

  lemma AllocUnmappedInv(pages: nat, t: Tracked, begin: nat, npages: nat)
    requires TrackedInv(pages, t) && t.slab.allocAllowed
    requires Free(t.slab.active, pages, begin, npages)
    ensures TrackedInv(pages, t.(slab := Unreserved(Reserved(t.slab, begin, npages), begin, npages)))
  {
    ReservedConsistent(t.slab, begin, npages);
    UnreservedConsistent(Reserved(t.slab, begin, npages), begin, npages);
    assert t.slab.active + Range(begin, npages) - Range(begin, npages) == t.slab.active;
  }

  /** A free is harmless at any time, also in the middle of a purge. */
  lemma DallocInv(pages: nat, t: Tracked, span: Span)
    requires TrackedInv(pages, t) && span in t.live
    ensures TrackedInv(pages, t.(slab := Unreserved(t.slab, span.begin, span.len).(purgeAllowed := false),
                                 live := t.live - {span}))
  {
    LiveRemove(t.live, t.slab.active, span);
    UnreservedConsistent(t.slab, span.begin, span.len);
  }

  /** Everything dirty is purged, and nothing active is. */
  lemma ToPurgeCovers(s: Slab)
    requires Consistent(s)
    ensures s.Dirty() <= ToPurge(s)
    ensures ToPurge(s) !! s.active
    ensures ToPurge(s) * s.touched == s.Dirty() && Within(ToPurge(s), s.pages)
  {
    forall p | p in s.Dirty()
      ensures p in ToPurge(s)
    {
      assert Bridge(s.active, s.touched, p, p);
    }
    forall p | p in ToPurge(s)
      ensures p !in s.active
    {
      var lo: nat, hi: nat :| Bridge(s.active, s.touched, lo, hi) && lo <= p <= hi;
    }
  }

  /** Pages to purge that no active page separates are purged as one range. */
  lemma ToPurgeTogether(s: Slab, p: nat, q: nat, r: nat)
    requires p in ToPurge(s) && q in ToPurge(s) && p <= r <= q && forall x :: p <= x <= q ==> x !in s.active
    ensures r in ToPurge(s)
  {
    var lo: nat, hi: nat :| Bridge(s.active, s.touched, lo, hi) && lo <= p <= hi;
    var lo': nat, hi': nat :| Bridge(s.active, s.touched, lo', hi') && lo' <= q <= hi';
    assert hi < r ==> Bridge(s.active, s.touched, lo, hi');
  }

  /** A range to purge begins and ends with a dirty page. */
  lemma SpanEndsDirty(s: Slab, from: nat, span: Span)
    requires Consistent(s) && from <= s.pages && (from == 0 || from !in ToPurge(s))
    requires NextSpan(ToPurge(s), s.pages, from) == Some(span)
    ensures 0 < span.len && span.begin in s.Dirty() && span.begin + span.len - 1 in s.Dirty()
  {
    var b, e := span.begin, span.begin + span.len - 1;
    assert b in span.Pages() && e in span.Pages();
    assert b in ToPurge(s) && e in ToPurge(s);
    var lo: nat, hi: nat :| Bridge(s.active, s.touched, lo, hi) && lo <= b <= hi;
    BridgeCovers(s, lo, hi, if 0 < b then b - 1 else 0);
    assert lo == b;
    var lo': nat, hi': nat :| Bridge(s.active, s.touched, lo', hi') && lo' <= e <= hi';
    BridgeCovers(s, lo', hi', e + 1);
    assert hi' == e;
  }

  lemma BridgeCovers(s: Slab, lo: nat, hi: nat, p: nat)
    requires Bridge(s.active, s.touched, lo, hi)
    ensures lo <= p <= hi && p < s.pages ==> p in ToPurge(s)
  {
  }

  lemma FirstPurgeInv(slab: Slab, toPurge: set<nat>)
    requires Within(toPurge, slab.pages) && toPurge !! slab.active && toPurge * slab.touched == slab.Dirty()
    ensures PurgeInv(slab, Purge(slab.huge, PurgeState(0, |slab.Dirty()|, toPurge, 0), []))
  {
    assert toPurge * Range(0, 0) == {};
  }

  lemma NewPurgeInv(slab: Slab)
    requires Consistent(slab)
    ensures PurgeInv(slab, NewPurge(slab))
  {
    ToPurgeCovers(slab);
    FirstPurgeInv(slab, ToPurge(slab));
  }

  lemma StartedInv(pages: nat, t: Tracked)
    requires TrackedInv(pages, t) && t.slab.purgeAllowed
    ensures t.slab.allocAllowed && !t.slab.ChangingState() && t.purge.None?
    ensures TrackedInv(pages, t.(slab := Paused(t.slab), purge := Some(NewPurge(Paused(t.slab)))))
  {
    assert Consistent(t.slab) ==> Consistent(Paused(t.slab));
    NewPurgeInv(Paused(t.slab));
  }

  lemma BeginPurgeInv(s: Shard, i: nat)
    requires Inv(s) && i < |s.slabs| && s.slabs[i].slab.purgeAllowed
    ensures Inv(StartPurge(s, i))
    ensures s.slabs[i].slab.allocAllowed && !s.slabs[i].slab.ChangingState()
  {
    var t := s.slabs[i];
    StartedInv(s.pages, t);
    var pg := NewPurge(Paused(t.slab));
    UpdateInv(s, i, t.(slab := Paused(t.slab), purge := Some(pg)), s.npendingPurge + pg.state.ndirtyToPurge);
  }

  lemma EmittedStep(toPurge: set<nat>, n: nat, from: nat, span: Span)
    requires from <= n && NextSpan(toPurge, n, from) == Some(span)
    ensures toPurge * Range(0, span.begin + span.len) == toPurge * Range(0, from) + span.Pages()
    ensures |toPurge * Range(0, span.begin + span.len)| == |toPurge * Range(0, from)| + span.len
    ensures from <= span.begin && span.begin + span.len <= n
  {
    RangeCard(span.begin, span.len);
    assert toPurge * Range(0, from) !! span.Pages();
  }

  lemma InOrderLater(emitted: seq<Span>, upTo: nat, later: nat)
    requires InOrder(emitted, upTo) && upTo <= later
    ensures InOrder(emitted, later)
  {
  }

  lemma NextPurgeInv(slab: Slab, pg: Purge, span: Span)
    requires PurgeInv(slab, pg)
    requires NextSpan(pg.state.toPurge, slab.pages, pg.state.nextSearchBegin) == Some(span)
    ensures PurgeInv(slab, Emit(pg, span))
  {
    EmittedStep(pg.state.toPurge, slab.pages, pg.state.nextSearchBegin, span);
    InOrderLater(pg.emitted, pg.state.nextSearchBegin, span.begin);
    assert (pg.emitted + [span])[..|pg.emitted|] == pg.emitted;
  }

  lemma PurgedConsistent(slab: Slab, toPurge: set<nat>)
    requires Consistent(slab.(huge := false)) && toPurge !! slab.active
    ensures Consistent(Purged(slab.(huge := false), toPurge))
  {
  }

  lemma EndPurgeInv(s: Shard, i: nat)
    requires Inv(s) && Enabled(s, EndPurge(i))
    ensures Inv(FinishPurge(s, i))
  {
    var t := s.slabs[i];
    var pg := t.purge.value;
    var slab := if pg.dehugify then t.slab.(huge := false) else t.slab;
    assert slab == t.slab.(huge := false);
    PurgedConsistent(t.slab, pg.state.toPurge);
    var done := Purged(slab, pg.state.toPurge).(midPurge := false, allocAllowed := true);
    assert Consistent(done);
    EligibilityInv(s.pages, t.(slab := done, purge := None), s.hugificationThreshold);
    UpdateInv(s, i, t.(slab := Eligibility(done, s.hugificationThreshold), purge := None),
              s.npendingPurge - pg.state.ndirtyToPurge);
  }

  lemma EndHugifyInv(pages: nat, t: Tracked)
    requires TrackedInv(pages, t) && t.slab.midHugify
    ensures TrackedInv(pages, t.(slab := Hugified(t.slab).(midHugify := false, purgeAllowed := false)))
  {
    RangeCard(0, pages);
  }

  lemma GrowInv(s: Shard)
    requires Inv(s)
    ensures Inv(Apply(s, Grow))
  {
    var t := Tracked(FreshSlab(s.pages), {}, None);
    LongestIs({}, s.pages, 0, s.pages);
    SumAppend(s.slabs, Nactive, t);
    SumAppend(s.slabs, Ndirty, t);
    SumAppend(s.slabs, Npending, t);
  }

  lemma AllocStep(s: Shard, i: nat, begin: nat, npages: nat)
    requires Inv(s) && CanServe(s, i, begin, npages)
    ensures Inv(Apply(s, Alloc(i, begin, npages)))
  {
    var t := s.slabs[i];
    AllocInv(s.pages, t, begin, npages);
    var t1 := t.(slab := Reserved(t.slab, begin, npages), live := t.live + {Span(begin, npages)});
    EligibilityInv(s.pages, t1, s.hugificationThreshold);
    UpdateInv(s, i, t1.(slab := Eligibility(t1.slab, s.hugificationThreshold)), s.npendingPurge);
  }

  lemma AllocUnmappedStep(s: Shard, i: nat, begin: nat, npages: nat)
    requires Inv(s) && CanServe(s, i, begin, npages)
    ensures Inv(Apply(s, AllocUnmapped(i, begin, npages)))
  {
    var t := s.slabs[i];
    AllocUnmappedInv(s.pages, t, begin, npages);
    UpdateInv(s, i, t.(slab := Unreserved(Reserved(t.slab, begin, npages), begin, npages)), s.npendingPurge);
  }

  lemma DallocStep(s: Shard, i: nat, span: Span)
    requires Inv(s) && i < |s.slabs| && span in s.slabs[i].live
    ensures Inv(Apply(s, Dalloc(i, span)))
  {
    var t := s.slabs[i];
    DallocInv(s.pages, t, span);
    var t1 := t.(slab := Unreserved(t.slab, span.begin, span.len), live := t.live - {span});
    EligibilityInv(s.pages, t1, s.hugificationThreshold);
    UpdateInv(s, i, t1.(slab := Eligibility(t1.slab, s.hugificationThreshold)), s.npendingPurge);
  }

  lemma EmitInv(pages: nat, t: Tracked, span: Span)
    requires TrackedInv(pages, t) && t.purge.Some? && t.purge.value.state.nextSearchBegin <= pages
    requires NextSpan(t.purge.value.state.toPurge, pages, t.purge.value.state.nextSearchBegin) == Some(span)
    ensures TrackedInv(pages, t.(purge := Some(Emit(t.purge.value, span))))
  {
    NextPurgeInv(t.slab, t.purge.value, span);
  }

  lemma NextPurgeStep(s: Shard, i: nat)
    requires Inv(s) && Enabled(s, NextPurge(i))
    ensures Inv(Apply(s, NextPurge(i)))
  {
    var t := s.slabs[i];
    EmitInv(s.pages, t, PendingSpan(s, i).value);
    var t' := t.(purge := Some(Emit(t.purge.value, PendingSpan(s, i).value)));
    assert Update(s, i, t') == Apply(s, NextPurge(i));
    UpdateInv(s, i, t', s.npendingPurge);
  }

  lemma BeginHugifyStep(s: Shard, i: nat)
    requires Inv(s) && Enabled(s, BeginHugify(i))
    ensures Inv(Apply(s, BeginHugify(i)))
    ensures s.slabs[i].slab.allocAllowed && !s.slabs[i].slab.ChangingState()
  {
    UpdateInv(s, i, Apply(s, BeginHugify(i)).slabs[i], s.npendingPurge);
  }

  lemma EndHugifyStep(s: Shard, i: nat)
    requires Inv(s) && Enabled(s, EndHugify(i))
    ensures Inv(Apply(s, EndHugify(i)))
  {
    var t := s.slabs[i];
    EndHugifyInv(s.pages, t);
    EligibilityInv(s.pages, t.(slab := Hugified(t.slab).(midHugify := false)), s.hugificationThreshold);
    UpdateInv(s, i, Apply(s, EndHugify(i)).slabs[i], s.npendingPurge);
  }

  lemma StepInv(s: Shard, a: Action)
    requires Inv(s) && Enabled(s, a)
    ensures Inv(Apply(s, a))
  {
    match a
    case Grow => GrowInv(s);
    case Alloc(i, begin, npages) => AllocStep(s, i, begin, npages);
    case AllocUnmapped(i, begin, npages) => AllocUnmappedStep(s, i, begin, npages);
    case Dalloc(i, span) => DallocStep(s, i, span);
    case BeginPurge(i) => BeginPurgeInv(s, i);
    case NextPurge(i) => NextPurgeStep(s, i);
    case EndPurge(i) => EndPurgeInv(s, i);
    case BeginHugify(i) => BeginHugifyStep(s, i);
    case EndHugify(i) => EndHugifyStep(s, i);
  }

  // ----- whole runs -----

  /** Every action is enabled when its turn comes. */
  ghost predicate Runs(s: Shard, acts: seq<Action>)
    decreases |acts|
  {
    acts == [] || (Enabled(s, acts[0]) && Runs(Apply(s, acts[0]), acts[1..]))
  }

  ghost function After(s: Shard, acts: seq<Action>): Shard
    requires Runs(s, acts)
    decreases |acts|
  {
    if acts == [] then s else After(Apply(s, acts[0]), acts[1..])
  }

  lemma {:induction false} RunInv(s: Shard, acts: seq<Action>)
    requires Inv(s) && Runs(s, acts)
    ensures Inv(After(s, acts))
    decreases |acts|
  {
    if acts != [] {
      StepInv(s, acts[0]);
      RunInv(Apply(s, acts[0]), acts[1..]);
    }
  }

  /** In every reachable state the pages waiting to be purged are among the dirty pages, so
      hpa_adjusted_ndirty does not wrap around. */
  lemma PendingWithinDirty(pages: nat, threshold: nat, acts: seq<Action>)
    requires 1 <= pages && Runs(Init(pages, threshold), acts)
    ensures var s := After(Init(pages, threshold), acts);
      0 <= s.npendingPurge <= s.ndirty
  {
    RunInv(Init(pages, threshold), acts);
    var s := After(Init(pages, threshold), acts);
    forall i | 0 <= i < |s.slabs|
      ensures 0 <= Npending(s.slabs[i]) <= Ndirty(s.slabs[i])
    {
      PendingIsDirty(s.pages, s.slabs[i]);
    }
    SumLe(s.slabs, Npending, Ndirty);
    SumNonnegative(s.slabs, Npending);
  }

  lemma SumNonnegative(ts: seq<Tracked>, f: Tracked -> int)
    requires forall i :: 0 <= i < |ts| ==> 0 <= f(ts[i])
    ensures 0 <= Sum(ts, f)
  {
  }

  lemma PendingIsDirty(pages: nat, t: Tracked)
    requires TrackedInv(pages, t)
    ensures 0 <= Npending(t) <= Ndirty(t)
  {
    DirtyCount(t.slab);
    if t.purge.Some? {
      SubsetCard(t.purge.value.state.toPurge * t.slab.touched, t.slab.Dirty());
    }
  }

  /** The range a purging thread hands to the OS, at whatever point of whatever run, touches no
      page of any allocation that is live at that moment, and none that it handed out before. */
  lemma PurgeIsSafe(pages: nat, threshold: nat, acts: seq<Action>, i: nat)
    requires 1 <= pages && Runs(Init(pages, threshold), acts)
    requires Enabled(After(Init(pages, threshold), acts), NextPurge(i))
    ensures var s := After(Init(pages, threshold), acts);
      var span := PendingSpan(s, i).value;
      && span.Pages() <= s.slabs[i].purge.value.state.toPurge
      && span.Pages() !! UnionOf(s.slabs[i].live)
      && span.Pages() !! PagesOf(s.slabs[i].purge.value.emitted)
  {
    RunInv(Init(pages, threshold), acts);
    var s := After(Init(pages, threshold), acts);
    assert TrackedInv(s.pages, s.slabs[i]);
  }

  /** The purge of one slab goes on: same pages to purge, same touched pages, no new active page. */
  ghost predicate StillPurging(t: Tracked, t': Tracked) {
    && t.purge.Some? && t'.purge.Some?
    && t'.purge.value.state.toPurge == t.purge.value.state.toPurge
    && t'.slab.touched == t.slab.touched
    && t'.slab.active <= t.slab.active
  }

  /** From the start of a purge of slab i to its end, whatever other threads do, the pages to purge
      and the touched pages stay the same and no page becomes active. */
  lemma {:induction false} PurgeWindow(s: Shard, acts: seq<Action>, i: nat)
    requires Inv(s) && Runs(s, acts) && i < |s.slabs| && s.slabs[i].purge.Some?
    requires EndPurge(i) !in acts
    ensures var s' := After(s, acts);
      && s'.pages == s.pages && i < |s'.slabs| && StillPurging(s.slabs[i], s'.slabs[i])
      && s'.slabs[i].slab.active !! s.slabs[i].purge.value.state.toPurge
    decreases |acts|
  {
    if acts == [] {
      assert TrackedInv(s.pages, s.slabs[i]);
    } else {
      StepInv(s, acts[0]);
      WindowStep(s, acts[0], i);
      PurgeWindow(Apply(s, acts[0]), acts[1..], i);
    }
  }

  /** What can happen to a slab that is being purged. */
  lemma WindowActions(s: Shard, a: Action, i: nat)
    requires Inv(s) && Enabled(s, a) && i < |s.slabs| && s.slabs[i].purge.Some?
    requires !a.Grow? && a.i == i && a != EndPurge(i)
    ensures a.Dalloc? || a.NextPurge?
  {
    assert TrackedInv(s.pages, s.slabs[i]);
  }

  lemma WindowStep(s: Shard, a: Action, i: nat)
    requires Inv(s) && Enabled(s, a) && i < |s.slabs| && s.slabs[i].purge.Some?
    requires a != EndPurge(i)
    ensures var s' := Apply(s, a);
      s'.pages == s.pages && i < |s'.slabs| && StillPurging(s.slabs[i], s'.slabs[i])
  {
    if a.Grow? || a.i != i {
      assert Apply(s, a).slabs[i] == s.slabs[i];
    } else {
      WindowActions(s, a, i);
    }
  }

  lemma PurgedEffect(slab: Slab, before: Slab)
    requires Consistent(before) && slab.touched == before.touched && slab.active <= before.active
    ensures var done := Purged(slab, ToPurge(before));
      && done.touched == before.touched - ToPurge(before)
      && done.Dirty() == before.active - done.active
  {
    ToPurgeCovers(before);
    assert before.touched - ToPurge(before) == before.active;
  }

  lemma FinishEffect(s: Shard, i: nat, before: Slab)
    requires Inv(s) && Enabled(s, EndPurge(i)) && Consistent(before)
    requires s.slabs[i].purge.value.state.toPurge == ToPurge(before)
    requires s.slabs[i].slab.touched == before.touched && s.slabs[i].slab.active <= before.active
    ensures var done := FinishPurge(s, i).slabs[i].slab;
      && done.touched == before.touched - ToPurge(before)
      && done.Dirty() == before.active - done.active
      && done.ntouched == |done.touched| && done.nactive == |done.active|
  {
    PurgedEffect(s.slabs[i].slab, before);
    EndPurgeInv(s, i);
    assert TrackedInv(s.pages, FinishPurge(s, i).slabs[i]);
  }

  /** A whole purge: every range was handed out once, together they are exactly the pages to
      purge, and afterwards the pages dirty at its start are untouched while the pages freed
      meanwhile are the slab's dirty pages. */
  lemma WholePurge(s: Shard, acts: seq<Action>, i: nat)
    requires Inv(s) && Enabled(s, BeginPurge(i))
    requires EndPurge(i) !in acts
    requires Runs(Apply(s, BeginPurge(i)), acts)
    requires Enabled(After(Apply(s, BeginPurge(i)), acts), EndPurge(i))
    ensures
      var before := s.slabs[i].slab;
      var s1 := After(Apply(s, BeginPurge(i)), acts);
      var pg := s1.slabs[i].purge.value;
      var done := Apply(s1, EndPurge(i)).slabs[i].slab;
      && PagesOf(pg.emitted) == ToPurge(before)
      && (forall j, k :: 0 <= j < k < |pg.emitted| ==> pg.emitted[j].Pages() !! pg.emitted[k].Pages())
      && pg.state.npurged == |ToPurge(before)|
      && done.touched == before.touched - ToPurge(before)
      && done.Dirty() == before.active - done.active
      && done.ntouched == |done.touched| && done.nactive == |done.active|
  {
    var start := Apply(s, BeginPurge(i));
    BeginPurgeInv(s, i);
    PurgeWindow(start, acts, i);
    RunInv(start, acts);
    PurgeDone(After(start, acts), i);
    FinishEffect(After(start, acts), i, s.slabs[i].slab);
  }

  /** When purge_next finds nothing more, the emitted ranges are all of to_purge. */
  lemma PurgeDone(s: Shard, i: nat)
    requires Inv(s) && Enabled(s, EndPurge(i))
    ensures var pg := s.slabs[i].purge.value;
      && PagesOf(pg.emitted) == pg.state.toPurge
      && (forall j, k :: 0 <= j < k < |pg.emitted| ==> pg.emitted[j].Pages() !! pg.emitted[k].Pages())
      && pg.state.npurged == |pg.state.toPurge|
      && pg.state.ndirtyToPurge <= pg.state.npurged
  {
    var t := s.slabs[i];
    assert TrackedInv(s.pages, t);
    var ps := t.purge.value.state;
    assert forall p :: p in ps.toPurge ==> p < ps.nextSearchBegin;
    assert ps.toPurge * Range(0, ps.nextSearchBegin) == ps.toPurge;
    SubsetCard(ps.toPurge * t.slab.touched, ps.toPurge);
    InOrderDisjoint(t.purge.value.emitted, ps.nextSearchBegin);
  }

  lemma InOrderDisjoint(emitted: seq<Span>, upTo: nat)
    requires InOrder(emitted, upTo)
    ensures forall k :: 0 <= k < |emitted| ==> emitted[k].begin + emitted[k].len <= upTo
    ensures forall j, k :: 0 <= j < k < |emitted| ==> emitted[j].Pages() !! emitted[k].Pages()
  {
    if emitted != [] {
      var last := emitted[|emitted| - 1];
      InOrderDisjoint(emitted[..|emitted| - 1], last.begin);
    }
  }
}
