/**
 * A cache of unused extents without delayed coalescing (extent.c): extents put into it are merged
 * with their neighbours, and extents taken out of it are split. The hook that merges mappings is
 * assumed to succeed; splits may fail for lack of memory. Several caches may share one page map.
 */
module ExtentCache {
  import opened Emap
  import opened CacheValues

  class Ecache {
    const emap: Map
    const state: State
    var eset: set<Edata>

    ghost predicate Valid()
      reads this, emap, emap.live.Keys
    {
      emap.Valid() && Kept(emap.live, eset, state)
    }

    constructor (m: Map, st: State)
      requires m.Valid() && (st == Muzzy || st == Retained)
      requires forall e :: e in m.live ==> 0 < m.live[e].base && m.live[e].state != Merging && m.live[e].state != st
      ensures Valid() && emap == m && state == st && eset == {}
    {
      emap, state, eset := m, st, {};
    }

    /** e is an active extent on its way into the cache, or out of it. */
    ghost predicate Placing(e: Edata)
      reads this, emap, emap.live.Keys
    {
      Valid() && e in emap.live && emap.live[e].state == Active
    }

    lemma PlacingOut(e: Edata)
      requires Placing(e)
      ensures e !in eset && 1 <= emap.live[e].npages && 0 < emap.live[e].base
      ensures forall f :: f in emap.live ==> 0 < emap.live[f].base
      ensures e.Value() == emap.live[e]
    {
      Open(emap.rtree, emap.live, {});
      forall f | f in emap.live ensures InPlace(emap.live, eset, state, f) {
        KeptState(emap.live, eset, state, f);
      }
    }

    /** extent_deactivate_locked: the extent is filed in the cache. */
    method Deactivate(e: Edata)
      requires Placing(e) && Alone(emap.live, eset, emap.live[e])
      modifies this`eset, emap, e`state
      ensures Valid() && eset == old(eset) + {e}
      ensures emap.live == old(emap.live)[e := old(emap.live[e]).(state := state)]
    {
      PlacingOut(e);
      InKept(emap.live, eset, state, e, emap.live[e].(state := state));
      emap.UpdateState(e, state);
      eset := eset + {e};
    }

    /** extent_activate_locked: the extent leaves the cache. */
    method Activate(e: Edata)
      requires Valid() && e in eset
      modifies this`eset, emap, e`state
      ensures Placing(e) && Alone(emap.live, eset, emap.live[e]) && eset == old(eset) - {e}
      ensures emap.live == old(emap.live)[e := old(emap.live[e]).(state := Active)]
    {
      OutKept(emap.live, eset, state, e, emap.live[e].(state := Active));
      eset := eset - {e};
      emap.UpdateState(e, Active);
    }

    /** One forward step of extent_try_coalesce_impl. */
    method CoalesceForward(e: Edata) returns (next: Edata?)
      requires Placing(e)
      modifies this`eset, emap, e`state, e`npages, e`sn, emap.live.Keys`state
      ensures Placing(e)
      ensures next == null ==>
        && emap.live == old(emap.live) && eset == old(eset) && AloneAhead(emap.live, eset, emap.live[e])
      ensures next != null ==>
        && next in old(eset) && next in old(emap.live) && Mergeable(old(emap.live[e]), old(emap.live)[next])
        && eset == old(eset) - {next}
        && emap.live == (old(emap.live) - {next})[e := Merged(old(emap.live[e]), old(emap.live)[next])]
    {
      PlacingOut(e);
      next := emap.AbsorbNext(e, state);
      if next != null {
        KeptState(old(emap.live), eset, state, next);
        AbsorbedKept(old(emap.live), eset, state, next, e, emap.live[e]);
        assert eset - {next} - {e} == eset - {next};
        eset := eset - {next};
      } else {
        AheadRefused(emap.live, eset, state, e);
      }
    }

    /** One backward step; the previous extent takes over. */
    method CoalesceBackward(e: Edata) returns (prev: Edata?)
      requires Placing(e)
      modifies this`eset, emap, emap.live.Keys`state, emap.live.Keys`npages, emap.live.Keys`sn
      ensures prev == null ==>
        && Placing(e) && emap.live == old(emap.live) && eset == old(eset)
        && AloneBehind(emap.live, eset, emap.live[e])
      ensures prev != null ==>
        && Placing(prev) && prev in old(eset) && prev in old(emap.live)
        && Mergeable(old(emap.live)[prev], old(emap.live[e])) && eset == old(eset) - {prev}
        && emap.live == (old(emap.live) - {e})[prev := Merged(old(emap.live)[prev], old(emap.live[e]))]
    {
      PlacingOut(e);
      prev := emap.AbsorbPrev(e, state);
      if prev != null {
        KeptState(old(emap.live), eset, state, prev);
        AbsorbedKept(old(emap.live), eset, state, e, prev, emap.live[prev]);
        assert eset - {e} - {prev} == eset - {prev};
        eset := eset - {prev};
      } else {
        BehindRefused(emap.live, eset, state, e);
      }
    }

    /** Both steps of one turn of the loop; again says that something was merged. */
    method CoalesceOnce(edata: Edata) returns (e: Edata, again: bool)
      requires Placing(edata)
      modifies this`eset, emap, emap.live.Keys`state, emap.live.Keys`npages, emap.live.Keys`sn
      ensures Placing(e) && Grown(old(emap.live), old(eset), edata, emap.live, eset, e, state)
      ensures Became(old(emap.live), edata, emap.live, e)
      ensures if again then emap.live.Keys < old(emap.live.Keys) else Alone(emap.live, eset, emap.live[e])
    {
      PlacingOut(edata);
      GrownRefl(emap.live, eset, edata, state);
      BecameRefl(emap.rtree, emap.live, edata);
      ghost var rt := emap.rtree;
      var next := CoalesceForward(edata);
      if next != null {
        KeptState(old(emap.live), old(eset), state, next);
        GrownForward(old(emap.live), old(eset), edata, next, state);
        BecameMerge(rt, old(emap.live), edata, next);
      }
      ghost var v, s := emap.live, eset;
      rt := emap.rtree;
      PlacingOut(edata);
      var prev := CoalesceBackward(edata);
      e := edata;
      if prev != null {
        e := prev;
        KeptState(v, s, state, prev);
        GrownBackward(v, s, edata, prev, state);
        BecameMerge(rt, v, prev, edata);
        BecameTrans(old(emap.live), edata, v, edata, emap.live, prev);
        GrownTrans(old(emap.live), old(eset), edata, v, s, edata, emap.live, eset, e, state);
      }
      again := next != null || prev != null;
    }

    /** extent_try_coalesce_impl: repeats until neither neighbour can be merged; each repeat has
        lowered the number of extents. */
    method TryCoalesce(edata: Edata) returns (e: Edata)
      requires Placing(edata)
      modifies this`eset, emap, emap.live.Keys`state, emap.live.Keys`npages, emap.live.Keys`sn
      ensures Placing(e) && Alone(emap.live, eset, emap.live[e])
      ensures Grown(old(emap.live), old(eset), edata, emap.live, eset, e, state)
      ensures Became(old(emap.live), edata, emap.live, e)
    {
      e := edata;
      var again := true;
      PlacingOut(e);
      GrownRefl(emap.live, eset, e, state);
      BecameRefl(emap.rtree, emap.live, e);
      while again
        invariant emap.live.Keys <= old(emap.live.Keys)
        invariant Placing(e) && Grown(old(emap.live), old(eset), edata, emap.live, eset, e, state)
        invariant Became(old(emap.live), edata, emap.live, e)
        invariant !again ==> Alone(emap.live, eset, emap.live[e])
        decreases emap.live.Keys, again
      {
        ghost var v, s, e0 := emap.live, eset, e;
        e, again := CoalesceOnce(e);
        GrownTrans(old(emap.live), old(eset), edata, v, s, e0, emap.live, eset, e, state);
        BecameTrans(old(emap.live), edata, v, e0, emap.live, e);
      }
    }

    /** extent_record: an active extent goes into the cache, merged with all it touches. */
    method Record(edata: Edata) returns (e: Edata)
      requires Placing(edata)
      modifies this`eset, emap, emap.live.Keys`state, emap.live.Keys`npages, emap.live.Keys`sn
      ensures Valid() && e in eset && Frame(old(emap.live), emap.live, state, {edata})
      ensures forall p: int ::
        Cached(emap.live, eset, p) <==> old(Cached(emap.live, eset, p)) || old(emap.live[edata]).Has(p)
      ensures forall p: int :: Covered(emap.live, p) <==> old(Covered(emap.live, p))
      ensures Became(old(emap.live), edata, emap.live, e)
    {
      e := TryCoalesce(edata);
      ghost var v, s := emap.live, eset;
      PlacingOut(e);
      Deactivate(e);
      RecordPages(old(emap.live), old(eset), edata, v, s, e, state);
      BecameFiled(old(emap.live), edata, v, e, state);
      FrameTrans(old(emap.live), v, emap.live, state, {edata}, {e});
    }

    /** Splits an active extent in two; on failure it is forgotten, its pages leaked. */
    method SplitActive(e: Edata, size: nat, oom: bool) returns (trail: Edata?)
      requires Placing(e) && 1 <= size < e.npages
      modifies emap, e`npages
      ensures Valid() && (trail == null <==> oom)
      ensures oom ==> emap.live == old(emap.live) - {e}
      ensures !oom ==>
        var x := old(emap.live[e]);
        && fresh(trail) && trail !in eset && Placing(e) && Placing(trail)
        && emap.live == old(emap.live)[e := x.(npages := size)]
                        [trail := x.(base := x.base + size, npages := x.npages - size, head := false)]
        && (old(AloneBehind(emap.live, eset, emap.live[e])) ==> Alone(emap.live, eset, emap.live[e]))
        && (old(AloneAhead(emap.live, eset, emap.live[e])) ==> Alone(emap.live, eset, emap.live[trail]))
    {
      PlacingOut(e);
      ghost var v, rt, x := emap.live, emap.rtree, emap.live[e];
      trail := emap.Split(e, size, e.npages - size, oom);
      if trail == null {
        ActiveKept(v, v - {e}, eset, state);
        emap.DeregisterBoundary(e);
      } else {
        SplitKept(rt, v, eset, state, e, trail, emap.live[e], emap.live[trail]);
      }
    }

    /** The second half of extent_recycle_split: the pages behind the request are cut off and filed. */
    method CutTrail(e: Edata, size: nat, oom: bool) returns (ok: bool)
      requires Placing(e) && AloneAhead(emap.live, eset, emap.live[e]) && 1 <= size <= e.npages
      modifies this`eset, emap, e`npages
      ensures Valid() && (ok <==> !oom || size == old(e.npages))
      ensures !ok ==> emap.live == old(emap.live) - {e} && eset == old(eset)
      ensures ok ==>
        && Placing(e) && emap.live[e] == old(emap.live[e]).(npages := size)
        && PutBack(old(emap.live), old(eset), e, emap.live, eset, e)
        && Frame(old(emap.live), emap.live, state, {e})
        && Trailed(old(emap.live), old(eset), e, emap.live, eset)
        && Pieces(old(emap.live), {e}, emap.live)
    {
      ok := true;
      PlacingOut(e);
      PiecesState(emap.live, e, Active);
      if size < e.npages {
        ghost var v, s := emap.live, eset;
        var trail := SplitActive(e, size, oom);
        ok := trail != null;
        if ok {
          ghost var y := emap.live[trail];
          Deactivate(trail);
          TrailPages(v, s, e, trail, emap.live[e], y, emap.live[trail]);
          TrailFrame(v, s, e, trail, emap.live[e], y, emap.live[trail]);
          PiecesCut(v, e, trail, emap.live[e], emap.live[trail]);
          Overwritten(v[e := emap.live[e]], trail, y, trail, emap.live[trail]);
        }
      }
    }

    /** The trail of r is cut off and filed, and so is the lead e before r; on failure both e and r are lost. */
    method FileRest(e: Edata, r: Edata, size: nat, oom: bool) returns (ok: bool)
      requires Placing(e) && Placing(r) && e != r && Alone(emap.live, eset, emap.live[e])
      requires AloneAhead(emap.live, eset, emap.live[r]) && 1 <= size <= r.npages && e.base + e.npages == r.base
      modifies this`eset, emap, e`state, r`npages
      ensures Valid() && (ok <==> !oom || size == old(r.npages))
      ensures !ok ==> emap.live == old(emap.live) - {r} - {e} && eset == old(eset)
      ensures ok ==>
        && Placing(r) && emap.live[r] == old(emap.live[r]).(npages := size)
        && BothBack(old(emap.live), old(eset), e, r, emap.live, eset)
        && Frame(old(emap.live), emap.live, state, {e, r}) && Pieces(old(emap.live), {e, r}, emap.live)
    {
      PlacingOut(e);
      PlacingOut(r);
      ghost var v, s := emap.live, eset;
      ok := CutTrail(r, size, oom);
      if ok {
        AloneStill(v, s, r, emap.live, eset, v[e]);
        ghost var v', s' := emap.live, eset;
        PlacingOut(e);
        Deactivate(e);
        LeadFiled(v, s, e, r, v', s', emap.live[e]);
        PiecesMore(v, {r}, {e, r}, v');
        PiecesState(v', e, state);
        PiecesTrans(v, {e, r}, v', {e}, emap.live);
        assert Placing(r);
      } else {
        ActiveKept(emap.live, emap.live - {e}, eset, state);
        emap.DeregisterBoundary(e);
      }
    }

    /** extent_recycle_split: the pages [leadsize, leadsize + size) of an extent just taken out of the
        cache; what is left on both sides is filed again. If a split fails, exactly e is lost. */
    method RecycleSplit(e: Edata, leadsize: nat, size: nat, oomLead: bool, oomTrail: bool) returns (r: Edata?)
      requires Placing(e) && Alone(emap.live, eset, emap.live[e])
      requires 1 <= leadsize && 1 <= size && leadsize + size <= e.npages
      modifies this`eset, emap, e`state, e`npages
      ensures Valid() && (r == null <==> oomLead || (oomTrail && leadsize + size < old(e.npages)))
      ensures r == null ==> emap.live == old(emap.live) - {e} && eset == old(eset)
      ensures r != null ==>
        && Placing(r) && emap.live[r].base == old(e.base) + leadsize && emap.live[r].npages == size
        && PutBack(old(emap.live), old(eset), e, emap.live, eset, r)
        && Frame(old(emap.live), emap.live, state, {e}) && Pieces(old(emap.live), {e}, emap.live)
        && Piece(emap.live[r], old(emap.live[e]))
    {
      PlacingOut(e);
      ghost var v, s := emap.live, eset;
      r := SplitActive(e, leadsize, oomLead);
      if r != null {
        ghost var v1 := emap.live;
        var ok := FileRest(e, r, size, oomTrail);
        if ok {
          SplitBack(v, s, e, r, v1[e], v1[r], emap.live, eset);
          SplitFrame(v, v1, emap.live, state, e, r);
          PiecesCut(v, e, r, v1[e], v1[r]);
          PiecesTrans(v, {e}, v1, {e, r}, emap.live);
        } else {
          SplitLost(v, e, r, v1[e], v1[r]);
          r := null;
        }
      }
    }

    /** extent_recycle: takes a cached extent that is large enough and returns the wanted pages of it as
        an active extent; everything else stays cached. If a split fails, exactly e is lost. */
    method Recycle(e: Edata, leadsize: nat, size: nat, oomLead: bool, oomTrail: bool) returns (r: Edata?)
      requires Valid() && e in eset && 1 <= size && leadsize + size <= emap.live[e].npages
      modifies this`eset, emap, e`state, e`npages
      ensures Valid()
      ensures r == null <==> (0 < leadsize && oomLead) || (oomTrail && leadsize + size < old(emap.live[e]).npages)
      ensures r == null ==> Leaked(old(emap.live), old(eset), emap.live, eset, e)
      ensures r != null ==>
        && Placing(r) && emap.live[r].base == old(emap.live[e]).base + leadsize && emap.live[r].npages == size
        && TakenOut(old(emap.live), old(eset), emap.live, eset, emap.live[r])
        && Frame(old(emap.live), emap.live, state, {e}) && Pieces(old(emap.live), {e}, emap.live)
        && Piece(emap.live[r], old(emap.live[e]))
    {
      ghost var v, s := emap.live, eset;
      Activate(e);
      PlacingOut(e);
      ghost var v1, s1 := emap.live, eset;
      if leadsize == 0 {
        var ok := CutTrail(e, size, oomTrail);
        r := if ok then e else null;
      } else {
        r := RecycleSplit(e, leadsize, size, oomLead, oomTrail);
      }
      if r == null {
        LeakPages(v, s, e);
        Overwritten(v, e, v1[e], e, v1[e]);
      } else {
        RecyclePages(v, s, e, v1[e], emap.live, eset, r);
        FrameTrans(v, v1, emap.live, state, {e}, {e});
        PiecesState(v, e, Active);
        PiecesTrans(v, {e}, v1, {e}, emap.live);
      }
    }

    /** extent_recycle_extract when expanding: the cached extent behind x, if it is large enough. */
    method ExtractNext(x: Edata, size: nat) returns (n: Edata?)
      requires Placing(x)
      modifies this`eset, emap, emap.live.Keys`state
      ensures Placing(x)
      ensures n == null ==>
        && emap.live == old(emap.live) && eset == old(eset)
        && NothingBehind(emap.live, eset, emap.live[x], size)
      ensures n != null ==>
        && n in old(eset) && n in old(emap.live) && CanAcquire(old(emap.live[x]), old(emap.live)[n], state, true, true)
        && size <= old(emap.live)[n].npages && eset == old(eset) - {n}
        && emap.live == old(emap.live)[n := old(emap.live)[n].(state := Active)]
        && Placing(n) && AloneAhead(emap.live, eset, emap.live[n])
    {
      PlacingOut(x);
      n := emap.AcquireToExpand(x, state, size);
      if n != null {
        KeptState(old(emap.live), eset, state, n);
        OutKept(old(emap.live), eset, state, n, emap.live[n]);
        eset := eset - {n};
      } else {
        ExpandRefused(emap.live, eset, state, emap.live[x], size);
      }
    }

    /** The first pages of an extent just taken out of the cache of v and s. */
    method CutFirst(n: Edata, size: nat, oom: bool, ghost v: Extents, ghost s: set<Edata>) returns (ok: bool)
      requires Placing(n) && AloneAhead(emap.live, eset, emap.live[n]) && 1 <= size <= emap.live[n].npages
      requires Disjoint(v) && n in v && n in s && v[n].state == state
      requires emap.live == v[n := v[n].(state := Active)] && eset == s - {n}
      modifies this`eset, emap, n`npages
      ensures Valid() && (ok <==> !oom || size == v[n].npages)
      ensures !ok ==> Leaked(v, s, emap.live, eset, n)
      ensures ok ==>
        && Placing(n) && emap.live[n] == v[n].(state := Active, npages := size)
        && TakenOut(v, s, emap.live, eset, emap.live[n]) && Frame(v, emap.live, state, {})
        && (forall f :: f in v && f != n ==> f in emap.live && emap.live[f] == v[f])
    {
      ghost var x := emap.live[n];
      PlacingOut(n);
      ok := CutTrail(n, size, oom);
      if ok {
        RecyclePages(v, s, n, x, emap.live, eset, n);
      } else {
        LeakPages(v, s, n);
        Overwritten(v, n, x, n, x);
      }
    }

    /** The expanding path: the extent behind x, if it is cached and large enough, gives x its first
        size pages; otherwise nothing happens. If a split fails, exactly that extent is lost. */
    method Expand(x: Edata, size: nat, oomTrail: bool) returns (ok: bool, lost: Edata?)
      requires Placing(x) && 1 <= size
      modifies this`eset, emap, emap.live.Keys`state, emap.live.Keys`npages, emap.live.Keys`sn
      ensures Placing(x) && (lost != null ==> oomTrail && !ok)
      ensures ok ==>
        && Widened(old(emap.live), old(eset), old(emap.live[x]), emap.live[x], size)
        && TakenOut(old(emap.live), old(eset), emap.live, eset,
                    old(emap.live[x]).(base := old(emap.live[x]).Past(), npages := size))
        && Frame(old(emap.live), emap.live, state, {x})
      ensures !ok && lost == null ==>
        && emap.live == old(emap.live) && eset == old(eset)
        && NothingBehind(emap.live, eset, emap.live[x], size)
      ensures lost != null ==>
        && lost in old(eset) && lost in old(emap.live) && size < old(emap.live)[lost].npages
        && CanAcquire(old(emap.live[x]), old(emap.live)[lost], state, true, true)
        && Leaked(old(emap.live), old(eset), emap.live, eset, lost)
    {
      ok, lost := false, null;
      ghost var v, s := emap.live, eset;
      PlacingOut(x);
      var n := ExtractNext(x, size);
      if n == null {
        return;
      }
      ok := CutFirst(n, size, oomTrail, v, s);
      if ok {
        PlacingOut(x);
        PlacingOut(n);
        ExpandPages(v, s, emap.live, eset, x, n, state);
        JoinActive(x, n);
      } else {
        lost := n;
      }
    }

    /** extent_merge_wrapper on two active extents. */
    method JoinActive(a: Edata, b: Edata)
      requires Placing(a) && Placing(b) && a.base + a.npages == b.base
      modifies emap, a`state, a`npages, a`sn
      ensures Placing(a) && emap.live == (old(emap.live) - {b})[a := Merged(old(emap.live[a]), old(emap.live[b]))]
    {
      PlacingOut(a);
      PlacingOut(b);
      ghost var v := emap.live;
      emap.Merge(a, b, false);
      ActiveKept(v, emap.live, eset, state);
    }

    /** ecache_evict of a given extent: muzzy extents become active, retained ones leave the map. */
    method Evict(e: Edata)
      requires Valid() && e in eset
      modifies this`eset, emap, e`state
      ensures Valid() && eset == old(eset) - {e}
      ensures if state == Retained then emap.live == old(emap.live) - {e}
              else Placing(e) && emap.live == old(emap.live)[e := old(emap.live[e]).(state := Active)]
    {
      ghost var v := emap.live;
      Activate(e);
      if state == Retained {
        PlacingOut(e);
        ActiveKept(emap.live, emap.live - {e}, eset, state);
        Overwritten(v, e, emap.live[e], e, emap.live[e]);
        emap.DeregisterBoundary(e);
      }
    }

    /** A fresh mapping enters as an active extent. */
    method AddFresh(e: Edata, oom: bool) returns (err: bool)
      requires Valid() && e !in emap.live && e.state == Active && 1 <= e.npages && 0 < e.base
      requires forall f :: f in emap.live ==> e.Value().Apart(emap.live[f])
      modifies emap
      ensures Valid() && err == oom
      ensures emap.live == if err then old(emap.live) else old(emap.live)[e := e.Value()]
    {
      assert forall f :: f in eset ==> f in emap.live;
      ActiveKept(emap.live, emap.live[e := e.Value()], eset, state);
      err := emap.RegisterBoundary(e, oom);
    }
  }
}
