/**
 * What every step of a shard does to the pages and flags of its slabs, and what these are after every run, said
 * with the steps of the run alone: which pages are touched, which allocations are live, whether a slab is huge,
 * and when it may be purged or hugified.
 */
module HpaRuns {
  import opened Basics
  import opened PageSet
  import opened Hpdata
  import opened HpaShard

  // ----- one step -----

  /** The step is about slab i. */
  predicate On(a: Action, i: nat) { !a.Grow? && a.i == i }

  /** The step takes pages of slab i, whether or not they can be mapped. */
  predicate Takes(a: Action, i: nat) { (a.Alloc? || a.AllocUnmapped?) && a.i == i }

  /** A new slab is empty, and steps about other slabs do nothing to slab i. */
  lemma OtherStep(s: Shard, a: Action, i: nat)
    requires Enabled(s, a)
    ensures |Apply(s, a).slabs| == |s.slabs| + if a.Grow? then 1 else 0
    ensures i < |s.slabs| && !On(a, i) ==> Apply(s, a).slabs[i] == s.slabs[i]
    ensures a.Grow? ==>
      var t := Apply(s, a).slabs[|s.slabs|];
      && t.live == {} && t.purge.None? && t.slab.active == {} && t.slab.touched == {} && !t.slab.huge
      && t.slab.allocAllowed && !t.slab.purgeAllowed && !t.slab.hugifyAllowed && !t.slab.ChangingState()
  {
  }

  /** A page becomes touched only when it is taken or by hugifying, and untouched only by a purge. */
  lemma TouchedStep(s: Shard, a: Action, i: nat)
    requires Enabled(s, a) && i < |s.slabs| && On(a, i)
    ensures var t, t' := s.slabs[i], Apply(s, a).slabs[i];
      t'.slab.touched ==
        if Takes(a, i) then t.slab.touched + Range(a.begin, a.npages)
        else if a.EndPurge? then t.slab.touched - t.purge.value.state.toPurge
        else if a.EndHugify? then Range(0, t.slab.pages)
        else t.slab.touched
  {
  }

  /** A page becomes active only when it is allocated, and inactive only when it is freed. */
  lemma ActiveStep(s: Shard, a: Action, i: nat)
    requires Enabled(s, a) && i < |s.slabs| && On(a, i)
    ensures var t, t' := s.slabs[i], Apply(s, a).slabs[i];
      && t'.slab.active ==
           (if a.Alloc? then t.slab.active + Range(a.begin, a.npages)
            else if a.Dalloc? then t.slab.active - a.span.Pages()
            else t.slab.active)
      && t'.live ==
           (if a.Alloc? then t.live + {Span(a.begin, a.npages)}
            else if a.Dalloc? then t.live - {a.span}
            else t.live)
  {
    if a.AllocUnmapped? {
      var active := s.slabs[i].slab.active;
      assert active + Range(a.begin, a.npages) - Range(a.begin, a.npages) == active;
    }
  }

  /** A slab becomes huge only by hugifying, and a purge ends that; while either is going on, its flag says so. */
  lemma StateStep(s: Shard, a: Action, i: nat)
    requires Inv(s) && Enabled(s, a) && i < |s.slabs| && On(a, i)
    ensures var t, t' := s.slabs[i].slab, Apply(s, a).slabs[i].slab;
      && (t'.huge <==> a.EndHugify? || (t.huge && !a.EndPurge?))
      && (t'.midHugify <==> a.BeginHugify? || (t.midHugify && !a.EndHugify?))
      && (t'.midPurge <==> a.BeginPurge? || (t.midPurge && !a.EndPurge?))
      && (t'.allocAllowed <==> !t'.midPurge)
  {
    var t := s.slabs[i];
    assert TrackedInv(s.pages, t);
    if a.EndPurge? {
      assert t.purge.value.dehugify == t.slab.huge;
    }
  }

  /** A slab may be purged if and only if it has dirty pages and nothing is going on with it. It may be hugified if
      and only if besides it is not empty, and has become full enough since it last could not be, while it was
      not huge. A reservation that is undone does not look. */
  lemma FlagsStep(s: Shard, a: Action, i: nat)
    requires Inv(s) && Enabled(s, a) && i < |s.slabs| && On(a, i)
    ensures var t, t' := s.slabs[i].slab, Apply(s, a).slabs[i].slab;
      if a.AllocUnmapped? then t'.purgeAllowed == t.purgeAllowed && t'.hugifyAllowed == t.hugifyAllowed
      else
        && (t'.purgeAllowed <==> !t'.ChangingState() && t'.Dirty() != {})
        && (t'.hugifyAllowed <==>
              && !t'.ChangingState() && t'.active != {}
              && (t.hugifyAllowed || (s.hugificationThreshold <= |t'.active| * PAGE && !t'.huge)))
  {
    StepInv(s, a);
    var t' := Apply(s, a).slabs[i].slab;
    assert TrackedInv(s.pages, s.slabs[i]) && TrackedInv(Apply(s, a).pages, Apply(s, a).slabs[i]);
    DirtyCount(t');
  }

  // ----- the counters -----

  ghost function ActivePages(ts: seq<Tracked>): nat {
    if ts == [] then 0 else ActivePages(ts[..|ts| - 1]) + |ts[|ts| - 1].slab.active|
  }

  ghost function DirtyPages(ts: seq<Tracked>): nat {
    if ts == [] then 0 else DirtyPages(ts[..|ts| - 1]) + |ts[|ts| - 1].slab.Dirty()|
  }

  /** The dirty pages that purges in progress cover. */
  ghost function PendingPages(ts: seq<Tracked>): nat {
    if ts == [] then 0 else
      var t := ts[|ts| - 1];
      PendingPages(ts[..|ts| - 1]) +
      if t.purge.Some? then |t.purge.value.state.toPurge * t.slab.touched| else 0
  }

  lemma {:induction false} SumsAre(pages: nat, ts: seq<Tracked>)
    requires forall i :: 0 <= i < |ts| ==> TrackedInv(pages, ts[i])
    ensures Sum(ts, Nactive) == ActivePages(ts) && Sum(ts, Ndirty) == DirtyPages(ts)
    ensures Sum(ts, Npending) == PendingPages(ts)
  {
    if ts != [] {
      SumsAre(pages, ts[..|ts| - 1]);
      var t := ts[|ts| - 1];
      assert TrackedInv(pages, t);
      DirtyCount(t.slab);
    }
  }

  /** The counters of a shard are the numbers of active pages, of dirty pages, and of dirty pages being purged. */
  lemma CountersExactly(s: Shard)
    requires Inv(s)
    ensures s.nactive == ActivePages(s.slabs) && s.ndirty == DirtyPages(s.slabs)
    ensures s.npendingPurge == PendingPages(s.slabs)
  {
    SumsAre(s.pages, s.slabs);
  }

  // ----- whole runs -----

  /** Step k leads from one state to the next. */
  ghost predicate Next(states: seq<Shard>, acts: seq<Action>, k: nat)
    requires k < |acts| && |states| == |acts| + 1
  {
    Enabled(states[k], acts[k]) && states[k + 1] == Apply(states[k], acts[k])
  }

  /** The states of a run from an empty shard. */
  ghost predicate Trace(states: seq<Shard>, acts: seq<Action>) {
    && |states| == |acts| + 1 && 1 <= states[0].pages
    && states[0] == Init(states[0].pages, states[0].hugificationThreshold)
    && forall k: nat {:trigger Next(states, acts, k)} :: k < |acts| ==> Next(states, acts, k)
  }

  lemma {:induction false} TraceInv(states: seq<Shard>, acts: seq<Action>, k: nat)
    requires Trace(states, acts) && k <= |acts|
    ensures Inv(states[k])
    ensures states[k].pages == states[0].pages && states[k].hugificationThreshold == states[0].hugificationThreshold
  {
    if k != 0 {
      TraceInv(states, acts, k - 1);
      assert Next(states, acts, k - 1);
      StepInv(states[k - 1], acts[k - 1]);
    }
  }

  /** A trace shows a run, and every run has a trace. */
  lemma {:induction false} TraceRuns(states: seq<Shard>, acts: seq<Action>, k: nat)
    requires Trace(states, acts) && k <= |acts|
    ensures Runs(states[k], acts[k..]) && After(states[k], acts[k..]) == states[|acts|]
    decreases |acts| - k
  {
    if k < |acts| {
      TraceRuns(states, acts, k + 1);
      assert Next(states, acts, k);
      assert acts[k..][0] == acts[k] && acts[k..][1..] == acts[k + 1..];
    }
  }

  lemma RunTraced(pages: nat, threshold: nat, acts: seq<Action>) returns (states: seq<Shard>)
    requires 1 <= pages && Runs(Init(pages, threshold), acts)
    ensures Trace(states, acts) && states[0] == Init(pages, threshold)
    ensures states[|acts|] == After(Init(pages, threshold), acts)
  {
    states := StatesFrom(Init(pages, threshold), acts);
    forall k: nat | k < |acts| ensures Next(states, acts, k) {
      assert Leads(states, acts, k);
    }
  }

  ghost predicate Leads(states: seq<Shard>, acts: seq<Action>, k: nat)
    requires k < |acts| && |states| == |acts| + 1
  {
    Next(states, acts, k)
  }

  lemma {:induction false} StatesFrom(s: Shard, acts: seq<Action>) returns (states: seq<Shard>)
    requires Runs(s, acts)
    ensures |states| == |acts| + 1 && states[0] == s && states[|acts|] == After(s, acts)
    ensures forall k: nat {:trigger Leads(states, acts, k)} :: k < |acts| ==> Leads(states, acts, k)
    decreases |acts|
  {
    states := [s];
    if acts != [] {
      var rest := StatesFrom(Apply(s, acts[0]), acts[1..]);
      states := states + rest;
      forall k: nat | k < |acts| ensures Leads(states, acts, k) {
        if k != 0 {
          assert Leads(rest, acts[1..], k - 1);
        }
      }
    }
  }

  /** What step k does to slab i. */
  lemma Stepped(states: seq<Shard>, acts: seq<Action>, k: nat, i: nat)
    requires Trace(states, acts) && k < |acts|
    ensures |states[k + 1].slabs| == |states[k].slabs| + if acts[k].Grow? then 1 else 0
    ensures On(acts[k], i) ==> i < |states[k].slabs|
    ensures i < |states[k].slabs| && !On(acts[k], i) ==> states[k + 1].slabs[i] == states[k].slabs[i]
    ensures acts[k].Grow? && i == |states[k].slabs| ==>
      var t := states[k + 1].slabs[i];
      t.live == {} && t.slab.touched == {} && t.slab.active == {} && !t.slab.huge && !t.slab.purgeAllowed
  {
    assert Next(states, acts, k);
    OtherStep(states[k], acts[k], i);
  }

  lemma {:induction false} Existing(states: seq<Shard>, acts: seq<Action>, k: nat, m: nat, i: nat)
    requires Trace(states, acts) && k < m <= |acts| && On(acts[k], i)
    ensures i < |states[m].slabs|
    decreases m
  {
    Stepped(states, acts, m - 1, i);
    if k < m - 1 {
      Existing(states, acts, k, m - 1, i);
    }
  }

  /** The step takes page p of slab i, or hugifies the slab. */
  predicate Touches(a: Action, i: nat, p: nat) {
    (Takes(a, i) && p in Range(a.begin, a.npages)) || a == EndHugify(i)
  }

  /** Step k ends a purge of slab i that covers page p. */
  ghost predicate Untouches(states: seq<Shard>, acts: seq<Action>, k: nat, i: nat, p: nat)
    requires k < |acts| && |states| == |acts| + 1
  {
    && acts[k] == EndPurge(i) && i < |states[k].slabs| && states[k].slabs[i].purge.Some?
    && p in states[k].slabs[i].purge.value.state.toPurge
  }

  lemma TouchedNext(states: seq<Shard>, acts: seq<Action>, k: nat, i: nat, p: nat)
    requires Trace(states, acts) && k < |acts| && i < |states[k].slabs| && p < states[0].pages
    ensures i < |states[k + 1].slabs|
    ensures p in states[k + 1].slabs[i].slab.touched <==>
      Touches(acts[k], i, p) || (p in states[k].slabs[i].slab.touched && !Untouches(states, acts, k, i, p))
  {
    Stepped(states, acts, k, i);
    if On(acts[k], i) {
      TraceInv(states, acts, k);
      assert Next(states, acts, k) && TrackedInv(states[k].pages, states[k].slabs[i]);
      TouchedStep(states[k], acts[k], i);
    }
  }

  /** Page p was touched in the first m steps, and no purge has covered it since. */
  ghost predicate TouchedLast(states: seq<Shard>, acts: seq<Action>, m: nat, i: nat, p: nat)
    requires m <= |acts| && |states| == |acts| + 1
  {
    exists k: nat :: k < m && Touches(acts[k], i, p) && forall j: nat :: k < j < m ==> !Untouches(states, acts, j, i, p)
  }

  lemma TouchedMore(states: seq<Shard>, acts: seq<Action>, m: nat, i: nat, p: nat)
    requires m < |acts| && |states| == |acts| + 1
    ensures TouchedLast(states, acts, m + 1, i, p) <==>
      Touches(acts[m], i, p) || (TouchedLast(states, acts, m, i, p) && !Untouches(states, acts, m, i, p))
  {
  }

  /** After every run, a page is touched if and only if it was taken, or its slab hugified, and no purge has covered
      it since. */
  lemma {:induction false} TouchedExactly(states: seq<Shard>, acts: seq<Action>, m: nat, i: nat, p: nat)
    requires Trace(states, acts) && m <= |acts| && i < |states[m].slabs| && p < states[0].pages
    ensures p in states[m].slabs[i].slab.touched <==> TouchedLast(states, acts, m, i, p)
    decreases m
  {
    if m != 0 {
      Stepped(states, acts, m - 1, i);
      if i < |states[m - 1].slabs| {
        TouchedExactly(states, acts, m - 1, i, p);
        TouchedNext(states, acts, m - 1, i, p);
        TouchedMore(states, acts, m - 1, i, p);
      } else if TouchedLast(states, acts, m, i, p) {
        var k: nat :| k < m && Touches(acts[k], i, p);
        Existing(states, acts, k, m - 1, i);
      }
    }
  }

  /** The allocation was made in the first m steps, and has not been freed since. */
  ghost predicate LiveLast(acts: seq<Action>, m: nat, i: nat, span: Span)
    requires m <= |acts|
  {
    exists k: nat :: k < m && acts[k] == Alloc(i, span.begin, span.len)
                     && forall j: nat :: k < j < m ==> acts[j] != Dalloc(i, span)
  }

  lemma LiveNext(states: seq<Shard>, acts: seq<Action>, k: nat, i: nat, span: Span)
    requires Trace(states, acts) && k < |acts| && i < |states[k].slabs|
    ensures i < |states[k + 1].slabs|
    ensures span in states[k + 1].slabs[i].live <==>
      acts[k] == Alloc(i, span.begin, span.len) || (span in states[k].slabs[i].live && acts[k] != Dalloc(i, span))
  {
    Stepped(states, acts, k, i);
    if On(acts[k], i) {
      assert Next(states, acts, k);
      ActiveStep(states[k], acts[k], i);
    }
  }

  lemma LiveMore(acts: seq<Action>, m: nat, i: nat, span: Span)
    requires m < |acts|
    ensures LiveLast(acts, m + 1, i, span) <==>
      acts[m] == Alloc(i, span.begin, span.len) || (LiveLast(acts, m, i, span) && acts[m] != Dalloc(i, span))
  {
  }

  /** After every run, an allocation is live if and only if it was made and has not been freed since. */
  lemma {:induction false} LiveExactly(states: seq<Shard>, acts: seq<Action>, m: nat, i: nat, span: Span)
    requires Trace(states, acts) && m <= |acts| && i < |states[m].slabs|
    ensures span in states[m].slabs[i].live <==> LiveLast(acts, m, i, span)
    decreases m
  {
    if m != 0 {
      Stepped(states, acts, m - 1, i);
      if i < |states[m - 1].slabs| {
        LiveExactly(states, acts, m - 1, i, span);
        LiveNext(states, acts, m - 1, i, span);
        LiveMore(acts, m - 1, i, span);
      } else if LiveLast(acts, m, i, span) {
        var k: nat :| k < m && acts[k] == Alloc(i, span.begin, span.len);
        Existing(states, acts, k, m - 1, i);
      }
    }
  }

  /** The slab was hugified in the first m steps, and has not been purged since. */
  ghost predicate HugeLast(acts: seq<Action>, m: nat, i: nat)
    requires m <= |acts|
  {
    exists k: nat :: k < m && acts[k] == EndHugify(i) && forall j: nat :: k < j < m ==> acts[j] != EndPurge(i)
  }

  lemma HugeNext(states: seq<Shard>, acts: seq<Action>, k: nat, i: nat)
    requires Trace(states, acts) && k < |acts| && i < |states[k].slabs|
    ensures i < |states[k + 1].slabs|
    ensures states[k + 1].slabs[i].slab.huge <==>
      acts[k] == EndHugify(i) || (states[k].slabs[i].slab.huge && acts[k] != EndPurge(i))
  {
    Stepped(states, acts, k, i);
    if On(acts[k], i) {
      TraceInv(states, acts, k);
      assert Next(states, acts, k);
      StateStep(states[k], acts[k], i);
    }
  }

  lemma HugeMore(acts: seq<Action>, m: nat, i: nat)
    requires m < |acts|
    ensures HugeLast(acts, m + 1, i) <==> acts[m] == EndHugify(i) || (HugeLast(acts, m, i) && acts[m] != EndPurge(i))
  {
  }

  /** After every run, a slab is huge if and only if it was hugified and has not been purged since. */
  lemma {:induction false} HugeExactly(states: seq<Shard>, acts: seq<Action>, m: nat, i: nat)
    requires Trace(states, acts) && m <= |acts| && i < |states[m].slabs|
    ensures states[m].slabs[i].slab.huge <==> HugeLast(acts, m, i)
    decreases m
  {
    if m != 0 {
      Stepped(states, acts, m - 1, i);
      if i < |states[m - 1].slabs| {
        HugeExactly(states, acts, m - 1, i);
        HugeNext(states, acts, m - 1, i);
        HugeMore(acts, m - 1, i);
      } else if HugeLast(acts, m, i) {
        var k: nat :| k < m && acts[k] == EndHugify(i);
        Existing(states, acts, k, m - 1, i);
      }
    }
  }

  /** Of the first m steps the last one about slab i, if any, was not a reservation undone. */
  predicate Looked(acts: seq<Action>, m: nat, i: nat)
    requires m <= |acts|
  {
    m == 0 || if On(acts[m - 1], i) then !acts[m - 1].AllocUnmapped? else Looked(acts, m - 1, i)
  }

  lemma ReadyNext(states: seq<Shard>, acts: seq<Action>, k: nat, i: nat)
    requires Trace(states, acts) && k < |acts| && On(acts[k], i)
    ensures i < |states[k].slabs| && i < |states[k + 1].slabs|
    ensures var t := states[k + 1].slabs[i].slab;
      !acts[k].AllocUnmapped? ==> (t.purgeAllowed <==> !t.ChangingState() && t.Dirty() != {})
  {
    Stepped(states, acts, k, i);
    TraceInv(states, acts, k);
    assert Next(states, acts, k);
    FlagsStep(states[k], acts[k], i);
  }

  lemma ReadyHasDirty(s: Shard, i: nat)
    requires Inv(s) && i < |s.slabs| && s.slabs[i].slab.purgeAllowed
    ensures !s.slabs[i].slab.ChangingState() && s.slabs[i].slab.Dirty() != {}
  {
    assert TrackedInv(s.pages, s.slabs[i]);
    DirtyCount(s.slabs[i].slab);
  }

  /** After every run, a slab may be purged only if it has dirty pages and nothing is going on with it, and then it may,
      except that a reservation that was undone may have left pages that are not seen to be dirty until the next
      step about the slab. */
  lemma {:induction false} PurgeReady(states: seq<Shard>, acts: seq<Action>, m: nat, i: nat)
    requires Trace(states, acts) && m <= |acts| && i < |states[m].slabs|
    ensures var t := states[m].slabs[i].slab;
      && (Enabled(states[m], BeginPurge(i)) ==> !t.ChangingState() && t.Dirty() != {})
      && (Looked(acts, m, i) && !t.ChangingState() && t.Dirty() != {} ==> Enabled(states[m], BeginPurge(i)))
    decreases m
  {
    TraceInv(states, acts, m);
    if states[m].slabs[i].slab.purgeAllowed {
      ReadyHasDirty(states[m], i);
    }
    if m != 0 {
      Stepped(states, acts, m - 1, i);
      if On(acts[m - 1], i) {
        ReadyNext(states, acts, m - 1, i);
      } else if i < |states[m - 1].slabs| {
        PurgeReady(states, acts, m - 1, i);
      }
    }
  }

  // ----- what runs can do -----

  /** A purge can go on until nothing is left, and then ends. */
  lemma PurgeGoesOn(s: Shard, i: nat)
    requires Inv(s) && i < |s.slabs| && s.slabs[i].slab.midPurge
    ensures s.slabs[i].purge.Some?
    ensures Enabled(s, NextPurge(i)) <==> !Enabled(s, EndPurge(i))
  {
    assert TrackedInv(s.pages, s.slabs[i]);
  }

  lemma PurgeAdvances(s: Shard, i: nat)
    requires Inv(s) && Enabled(s, NextPurge(i))
    ensures var s' := Apply(s, NextPurge(i));
      && s'.pages == s.pages && i < |s'.slabs| && s'.slabs[i].slab == s.slabs[i].slab && s'.slabs[i].purge.Some?
      && s.slabs[i].purge.value.state.nextSearchBegin < s'.slabs[i].purge.value.state.nextSearchBegin <= s.pages
  {
    assert TrackedInv(s.pages, s.slabs[i]);
  }

  /** Every purge can be brought to its end. */
  lemma {:induction false} PurgeCompletes(s: Shard, i: nat, done: nat) returns (acts: seq<Action>)
    requires Inv(s) && i < |s.slabs| && s.slabs[i].slab.midPurge
    requires s.slabs[i].purge.Some? && done == s.slabs[i].purge.value.state.nextSearchBegin <= s.pages
    ensures Runs(s, acts) && EndPurge(i) !in acts && Enabled(After(s, acts), EndPurge(i))
    decreases s.pages - done
  {
    PurgeGoesOn(s, i);
    acts := [];
    if Enabled(s, NextPurge(i)) {
      var s' := Apply(s, NextPurge(i));
      StepInv(s, NextPurge(i));
      PurgeAdvances(s, i);
      var rest := PurgeCompletes(s', i, s'.slabs[i].purge.value.state.nextSearchBegin);
      acts := [NextPurge(i)] + rest;
      assert acts[1..] == rest;
    }
  }

  /** A slab that is not being purged serves every request up to its longest free range, and what it hands out can
      be freed. */
  lemma Served(s: Shard, i: nat, npages: nat) returns (begin: nat)
    requires Inv(s) && i < |s.slabs| && !s.slabs[i].slab.midPurge && 1 <= npages <= s.slabs[i].slab.longest
    ensures Enabled(s, Alloc(i, begin, npages))
    ensures Enabled(Apply(s, Alloc(i, begin, npages)), Dalloc(i, Span(begin, npages)))
  {
    var t := s.slabs[i].slab;
    assert TrackedInv(s.pages, s.slabs[i]);
    LongestSpec(t.active, s.pages);
    var b: nat :| Free(t.active, s.pages, b, t.longest);
    begin := FirstOf(t.active, s.pages, b, npages);
    ActiveStep(s, Alloc(i, begin, npages), i);
  }

  lemma {:induction false} FirstOf(active: set<nat>, n: nat, b: nat, len: nat) returns (first: nat)
    requires Free(active, n, b, len)
    ensures FirstFit(active, n, first, len)
    decreases b
  {
    first := b;
    if b': nat :| b' < b && Free(active, n, b', len) {
      first := FirstOf(active, n, b', len);
    }
  }

  lemma TraceMore(states: seq<Shard>, acts: seq<Action>, a: Action) returns (more: seq<Shard>)
    requires Trace(states, acts) && Enabled(states[|acts|], a)
    ensures more == states + [Apply(states[|acts|], a)] && Trace(more, acts + [a])
  {
    more := states + [Apply(states[|acts|], a)];
    forall k: nat | k < |acts + [a]| ensures Next(more, acts + [a], k) {
      if k < |acts| {
        assert Next(states, acts, k);
      }
    }
  }

  /** A slab as it is after its first pages have been handed out. */
  ghost predicate FirstServed(s: Shard, threshold: nat, npages: nat) {
    && |s.slabs| == 1 && s.slabs[0].live == {Span(0, npages)}
    && s.slabs[0].slab.active == Range(0, npages) == s.slabs[0].slab.touched
    && !s.slabs[0].slab.ChangingState() && (threshold <= npages * PAGE ==> s.slabs[0].slab.hugifyAllowed)
  }

  lemma GrowReached(pages: nat, threshold: nat) returns (states: seq<Shard>)
    requires 1 <= pages
    ensures Trace(states, [Grow]) && Inv(states[1]) && states[1].pages == pages
    ensures states[1].hugificationThreshold == threshold && |states[1].slabs| == 1
    ensures forall npages :: 1 <= npages <= pages ==> CanServe(states[1], 0, 0, npages)
    ensures var t := states[1].slabs[0];
      && t.live == {} && t.slab.active == {} && t.slab.touched == {} && !t.slab.huge
      && !t.slab.purgeAllowed && !t.slab.ChangingState()
  {
    var s := Init(pages, threshold);
    states := TraceMore([s], [], Grow);
    assert [] + [Grow] == [Grow];
    TraceInv(states, [Grow], 1);
    OtherStep(s, Grow, 0);
    assert TrackedInv(pages, states[1].slabs[0]);
    LongestIs({}, pages, 0, pages);
    forall npages | 1 <= npages <= pages ensures FirstFit({}, pages, 0, npages) {
      assert Free({}, pages, 0, npages);
    }
  }

  lemma AllocReached(pages: nat, threshold: nat, npages: nat) returns (states: seq<Shard>)
    requires 1 <= npages <= pages
    ensures Trace(states, [Grow, Alloc(0, 0, npages)]) && Inv(states[2]) && FirstServed(states[2], threshold, npages)
  {
    var a := Alloc(0, 0, npages);
    var first := GrowReached(pages, threshold);
    states := TraceMore(first, [Grow], a);
    assert [Grow] + [a] == [Grow, a];
    StepInv(first[1], a);
    FirstStep(first[1], npages);
  }

  lemma FirstStep(s: Shard, npages: nat)
    requires Inv(s) && |s.slabs| == 1 && CanServe(s, 0, 0, npages) && s.slabs[0].live == {} && !s.slabs[0].slab.huge
    requires s.slabs[0].slab.active == {} == s.slabs[0].slab.touched && !s.slabs[0].slab.ChangingState()
    ensures FirstServed(Apply(s, Alloc(0, 0, npages)), s.hugificationThreshold, npages)
  {
    var a := Alloc(0, 0, npages);
    OtherStep(s, a, 0);
    ActiveStep(s, a, 0);
    TouchedStep(s, a, 0);
    StateStep(s, a, 0);
    FlagsStep(s, a, 0);
    RangeCard(0, npages);
    assert 0 in Range(0, npages);
  }

  /** Pages that are allocated and freed can be purged. */
  lemma PurgeReached(pages: nat, threshold: nat, npages: nat) returns (states: seq<Shard>)
    requires 1 <= npages <= pages
    ensures Trace(states, [Grow, Alloc(0, 0, npages), Dalloc(0, Span(0, npages))])
    ensures Enabled(states[3], BeginPurge(0)) && states[3].slabs[0].slab.Dirty() == Range(0, npages)
  {
    var a, d := Alloc(0, 0, npages), Dalloc(0, Span(0, npages));
    var first := AllocReached(pages, threshold, npages);
    states := TraceMore(first, [Grow, a], d);
    assert [Grow, a] + [d] == [Grow, a, d];
    FreedStep(first[2], threshold, npages);
  }

  lemma FreedStep(s: Shard, threshold: nat, npages: nat)
    requires Inv(s) && FirstServed(s, threshold, npages) && 1 <= npages
    ensures var s' := Apply(s, Dalloc(0, Span(0, npages)));
      |s'.slabs| == 1 && s'.slabs[0].slab.purgeAllowed && s'.slabs[0].slab.Dirty() == Range(0, npages)
  {
    var d := Dalloc(0, Span(0, npages));
    OtherStep(s, d, 0);
    ActiveStep(s, d, 0);
    TouchedStep(s, d, 0);
    StateStep(s, d, 0);
    FlagsStep(s, d, 0);
    assert 0 in Range(0, npages);
  }

  /** A slab that is full enough can be hugified. */
  lemma HugifyReached(pages: nat, threshold: nat, npages: nat) returns (states: seq<Shard>)
    requires 1 <= npages <= pages && threshold <= npages * PAGE
    ensures Trace(states, [Grow, Alloc(0, 0, npages), BeginHugify(0), EndHugify(0)])
    ensures |states[4].slabs| == 1 && states[4].slabs[0].slab.huge
  {
    var a, b, e := Alloc(0, 0, npages), BeginHugify(0), EndHugify(0);
    var first := AllocReached(pages, threshold, npages);
    var second := TraceMore(first, [Grow, a], b);
    assert [Grow, a] + [b] == [Grow, a, b];
    OtherStep(first[2], b, 0);
    StateStep(first[2], b, 0);
    states := TraceMore(second, [Grow, a, b], e);
    assert [Grow, a, b] + [e] == [Grow, a, b, e];
    TraceInv(second, [Grow, a, b], 3);
    OtherStep(second[3], e, 0);
    StateStep(second[3], e, 0);
  }

  /** A reservation that is undone leaves a dirty page that may not be purged yet. */
  lemma UndoneUnseen(pages: nat, threshold: nat) returns (states: seq<Shard>)
    requires 1 <= pages
    ensures Trace(states, [Grow, AllocUnmapped(0, 0, 1)]) && |states[2].slabs| == 1
    ensures var t := states[2].slabs[0].slab;
      t.Dirty() == {0} && !t.ChangingState() && !Enabled(states[2], BeginPurge(0))
  {
    var a := AllocUnmapped(0, 0, 1);
    var first := GrowReached(pages, threshold);
    states := TraceMore(first, [Grow], a);
    assert [Grow] + [a] == [Grow, a];
    OtherStep(first[1], a, 0);
    ActiveStep(first[1], a, 0);
    TouchedStep(first[1], a, 0);
    StateStep(first[1], a, 0);
    FlagsStep(first[1], a, 0);
    assert Range(0, 1) == {0};
  }
}
