/**
 * Extents and the page map that finds them (emap.c, and the split and merge of extent.c).
 * Addresses and sizes are in pages. The radix tree is a partial map from pages to contents.
 * What is proved is stated about the values of the live extents, as a map from extents to values.
 */
module Emap {

  datatype State = Active | Dirty | Muzzy | Retained | Merging

  /** The value of an extent: the pages [base, base + npages) and its flags. */
  datatype Ext = Ext(base: nat, npages: nat, state: State, sn: nat, committed: bool, head: bool) {
    function Past(): nat { base + npages }

    function Last(): int { base + npages - 1 }

    predicate Has(p: int) { base <= p < base + npages }

    predicate Apart(f: Ext) { Past() <= f.base || f.Past() <= base }
  }

  class Edata {
    var base: nat
    var npages: nat
    var state: State
    var sn: nat
    var committed: bool
    var head: bool

    constructor (x: Ext)
      ensures Value() == x
    {
      base, npages, state, sn, committed, head := x.base, x.npages, x.state, x.sn, x.committed, x.head;
    }

    function Value(): Ext
      reads this
    {
      Ext(base, npages, state, sn, committed, head)
    }
  }

  /** The live extents and their values. */
  type Extents = map<Edata, Ext>

  datatype Contents = Contents(edata: Edata, isHead: bool, state: State)

  type Rtree = map<int, Contents>

  // ----- the page map of a set of extents -----

  ghost predicate Disjoint(v: Extents) {
    forall e, f {:trigger v[e].Apart(v[f])} :: e in v && f in v && e != f ==> v[e].Apart(v[f])
  }

  /** Extents are disjoint if and only if no page is in two of them. */
  lemma DisjointExactly(v: Extents)
    requires forall e :: e in v ==> 1 <= v[e].npages
    ensures Disjoint(v) <==>
      forall e, f, p: int :: e in v && f in v && v[e].Has(p) && v[f].Has(p) ==> e == f
  {
    forall e, f | e in v && f in v && e != f && !v[e].Apart(v[f])
      ensures exists p: int :: v[e].Has(p) && v[f].Has(p)
    {
      var p: int := if v[e].base < v[f].base then v[f].base else v[e].base;
      assert v[e].Has(p) && v[f].Has(p);
    }
  }

  function EntryOf(e: Edata, x: Ext): Contents { Contents(e, x.head, x.state) }

  /** e has pages, and both its boundary pages lead to it, with its head flag and state. */
  ghost predicate Mapped(rtree: Rtree, e: Edata, x: Ext) {
    && 1 <= x.npages
    && x.base in rtree && rtree[x.base] == EntryOf(e, x)
    && x.Last() in rtree && rtree[x.Last()] == EntryOf(e, x)
  }

  ghost predicate AllMapped(rtree: Rtree, v: Extents) {
    forall e {:trigger Mapped(rtree, e, v[e])} :: e in v ==> Mapped(rtree, e, v[e])
  }

  /** Page p leads to a live extent of which it is a boundary page. */
  ghost predicate Boundary(rtree: Rtree, v: Extents, p: int)
    requires p in rtree
  {
    var e := rtree[p].edata;
    e in v && (p == v[e].base || p == v[e].Last())
  }

  /** The live extents are disjoint and mapped, and apart from pages in stale, which belong to
      none of them, the entries of the page map are their boundary pages. */
  ghost predicate ExactBut(rtree: Rtree, v: Extents, stale: set<int>) {
    && Disjoint(v) && AllMapped(rtree, v)
    && forall p {:trigger Boundary(rtree, v, p)} :: p in rtree && p !in stale ==> Boundary(rtree, v, p)
  }

  /** The entries of the page map are exactly the boundary pages of the live extents. */
  ghost predicate Exact(rtree: Rtree, v: Extents) { ExactBut(rtree, v, {}) }

  /** What exactness says of every live extent and every entry. */
  lemma Open(rtree: Rtree, v: Extents, stale: set<int>)
    requires ExactBut(rtree, v, stale)
    ensures forall e :: e in v ==> Mapped(rtree, e, v[e])
    ensures forall p :: p in rtree && p !in stale ==> Boundary(rtree, v, p)
  {
  }

  lemma ApartFrom(v: Extents, e: Edata)
    requires Disjoint(v) && e in v
    ensures forall f :: f in v && f != e ==> v[e].Apart(v[f])
  {
  }

  /** emap_rtree_write_acquired on the two boundary elements of e. */
  function Written(rtree: Rtree, e: Edata, x: Ext): Rtree {
    rtree[x.base := EntryOf(e, x)][x.Last() := EntryOf(e, x)]
  }

  /** A value that is apart from the other extents may replace e's. */
  lemma DisjointWith(v: Extents, e: Edata, x: Ext)
    requires Disjoint(v) && forall f :: f in v && f != e ==> x.Apart(v[f])
    ensures Disjoint(v[e := x])
  {
    var w := v[e := x];
    forall a, b | a in w && b in w && a != b ensures w[a].Apart(w[b]) {
      if a != e && b != e {
        assert v[a].Apart(v[b]);
      }
    }
  }

  lemma StateExact(rtree: Rtree, v: Extents, e: Edata, x: Ext)
    requires Exact(rtree, v) && e in v && x == v[e].(state := x.state)
    ensures Exact(Written(rtree, e, x), v[e := x])
  {
    ApartFrom(v, e);
    DisjointWith(v, e, x);
    Open(rtree, v, {});
  }

  /** A new extent over free pages; a stale entry at its last page is overwritten. */
  lemma EnterExact(rtree: Rtree, v: Extents, e: Edata, x: Ext)
    requires ExactBut(rtree, v, {x.Last()}) && e !in v && 1 <= x.npages
    requires forall f :: f in v ==> x.Apart(v[f])
    ensures Exact(Written(rtree, e, x), v[e := x])
  {
    DisjointWith(v, e, x);
    Open(rtree, v, {x.Last()});
  }

  lemma RemoveExact(rtree: Rtree, v: Extents, e: Edata)
    requires Exact(rtree, v) && e in v
    ensures Exact(rtree - {v[e].base, v[e].Last()}, v - {e})
  {
    ApartFrom(v, e);
    Open(rtree, v, {});
  }

  /** The lead of a split: e keeps its first pages, and the entry of its old last page is stale. */
  lemma ShortenExact(rtree: Rtree, v: Extents, e: Edata, x: Ext)
    requires Exact(rtree, v) && e in v && x == v[e].(npages := x.npages) && 1 <= x.npages < v[e].npages
    ensures ExactBut(Written(rtree, e, x), v[e := x], {v[e].Last()})
  {
    ApartFrom(v, e);
    DisjointWith(v, e, x);
    Open(rtree, v, {});
  }

  /** The trail of a merge disappears; if it has several pages, the entry of its last one is stale. */
  lemma ForgetExact(rtree: Rtree, v: Extents, b: Edata)
    requires Exact(rtree, v) && b in v
    ensures ExactBut(rtree - {v[b].base}, v - {b}, {v[b].Last()})
  {
    ApartFrom(v, b);
    Open(rtree, v, {});
  }

  /** a grows over free pages behind it. */
  lemma ExtendExact(rtree: Rtree, v: Extents, a: Edata, x: Ext)
    requires a in v && x == v[a].(state := x.state, npages := x.npages, sn := x.sn) && v[a].npages < x.npages
    requires ExactBut(rtree, v, {x.Last()}) && forall f :: f in v && f != a ==> x.Apart(v[f])
    ensures Exact(Written(rtree - {v[a].Last()}, a, x), v[a := x])
  {
    DisjointWith(v, a, x);
    Open(rtree, v, {x.Last()});
  }

  lemma MergeExact(rtree: Rtree, v: Extents, a: Edata, b: Edata)
    requires Exact(rtree, v) && a in v && b in v && v[a].Past() == v[b].base
    ensures a != b
    ensures var x := Merged(v[a], v[b]);
      Exact(Written(rtree - {v[b].base} - {v[a].Last()}, a, x), (v - {b})[a := x])
  {
    ApartFrom(v, a);
    ApartFrom(v, b);
    Open(rtree, v, {});
    ForgetExact(rtree, v, b);
    ExtendExact(rtree - {v[b].base}, v - {b}, a, Merged(v[a], v[b]));
  }

  lemma SplitExact(rtree: Rtree, v: Extents, e: Edata, trail: Edata, x: Ext, y: Ext)
    requires Exact(rtree, v) && e in v && trail !in v && 1 <= x.npages && 1 <= y.npages
    requires x == v[e].(npages := x.npages) && y.base == x.Past() && y.Past() == v[e].Past()
    ensures Exact(Written(Written(rtree, e, x), trail, y), v[e := x][trail := y])
  {
    ApartFrom(v, e);
    Open(rtree, v, {});
    ShortenExact(rtree, v, e, x);
    EnterExact(Written(rtree, e, x), v[e := x], trail, y);
  }

  /** A value that is dropped or replaced anyway does not matter. */
  lemma Overwritten(v: Extents, e: Edata, x: Ext, n: Edata, y: Ext)
    ensures v[e := x] - {e} == v - {e}
    ensures v[e := x][e := y] == v[e := y] && (e in v ==> v[e := v[e]] == v)
    ensures (v[e := x] - {n})[e := y] == (v - {n})[e := y]
  {
  }

  /** f is the extent next to e, in the given direction. */
  predicate Adjacent(e: Ext, f: Ext, forward: bool) {
    if forward then f.base == e.Past() else f.Past() == e.base
  }

  /** The page next to e leads to the adjacent extent if there is one, and to nothing otherwise. */
  lemma NeighborLookup(rtree: Rtree, v: Extents, e: Edata, f: Edata, forward: bool)
    requires Exact(rtree, v) && e in v && f in v
    ensures var p := if forward then v[e].Past() else v[e].base - 1;
      Adjacent(v[e], v[f], forward) <==> p in rtree && rtree[p].edata == f
    ensures Mapped(rtree, f, v[f])
  {
    ApartFrom(v, e);
    Open(rtree, v, {});
  }

  lemma OneNeighbor(rtree: Rtree, v: Extents, e: Edata, f: Edata, n: Edata, forward: bool)
    requires Exact(rtree, v) && e in v && f in v && n in v
    requires Adjacent(v[e], v[f], forward) && Adjacent(v[e], v[n], forward)
    ensures f == n
  {
    NeighborLookup(rtree, v, e, f, forward);
    NeighborLookup(rtree, v, e, n, forward);
  }

  /** extent_can_acquire_neighbor, for extents of the same arena and allocator. */
  predicate CanAcquire(e: Ext, f: Ext, expected: State, forward: bool, expanding: bool) {
    && Adjacent(e, f, forward) && f.state == expected
    && !(if forward then f.head else e.head)
    && (expanding || e.committed == f.committed)
  }

  /** The value of a merge: a with the pages of b behind it. */
  function Merged(a: Ext, b: Ext): Ext {
    a.(state := Active, npages := a.npages + b.npages, sn := if a.sn < b.sn then a.sn else b.sn)
  }

  // ----- pages -----

  /** Page p belongs to a live extent. */
  ghost predicate Covered(v: Extents, p: int) {
    exists e :: e in v && v[e].Has(p)
  }

  class Map {
    var rtree: Rtree
    ghost var live: Extents

    /** live holds the values that the extents have. */
    ghost predicate Tied()
      reads this, live.Keys
    {
      forall e :: e in live ==> e.Value() == live[e]
    }

    ghost predicate Valid()
      reads this, live.Keys
    {
      Tied() && Exact(rtree, live)
    }

    method WriteAcquired(e: Edata)
      modifies this`rtree
      ensures rtree == Written(old(rtree), e, e.Value())
    {
      rtree := rtree[e.base := Contents(e, e.head, e.state)];
      rtree := rtree[e.base + e.npages - 1 := Contents(e, e.head, e.state)];
    }

    method WriteBoth(e: Edata, f: Edata)
      modifies this`rtree
      ensures rtree == Written(Written(old(rtree), e, e.Value()), f, f.Value())
    {
      WriteAcquired(e);
      WriteAcquired(f);
    }

    method UpdateState(e: Edata, state: State)
      requires Valid() && e in live
      modifies this, e`state
      ensures Valid() && live == old(live)[e := old(live[e]).(state := state)]
    {
      StateExact(rtree, live, e, live[e].(state := state));
      e.state := state;
      WriteAcquired(e);
      live := live[e := live[e].(state := state)];
    }

    /** emap_register_boundary; the leaf elements may be impossible to allocate. */
    method RegisterBoundary(e: Edata, oom: bool) returns (err: bool)
      requires Valid() && e !in live && 1 <= e.npages && forall f :: f in live ==> e.Value().Apart(live[f])
      modifies this
      ensures Valid() && err == oom && live == if err then old(live) else old(live)[e := e.Value()]
      ensures err ==> rtree == old(rtree)
    {
      if oom {
        return true;
      }
      EnterExact(rtree, live, e, e.Value());
      WriteAcquired(e);
      live := live[e := e.Value()];
      err := false;
    }

    method DeregisterBoundary(e: Edata)
      requires Valid() && e in live
      modifies this
      ensures Valid() && live == old(live) - {e}
    {
      RemoveExact(rtree, live, e);
      rtree := rtree - {e.base, e.base + e.npages - 1};
      live := live - {e};
    }

    /** extent_split_impl: e becomes the lead and the new extent behind it is returned. */
    method Split(e: Edata, sizeA: nat, sizeB: nat, fail: bool) returns (trail: Edata?)
      requires Valid() && e in live && 1 <= sizeA && 1 <= sizeB && e.npages == sizeA + sizeB
      modifies this, e`npages
      ensures Valid() && (trail == null <==> fail)
      ensures fail ==> live == old(live) && rtree == old(rtree)
      ensures !fail ==>
        var x := old(live[e]);
        && fresh(trail)
        && live == old(live)[e := x.(npages := sizeA)]
                            [trail := x.(base := x.base + sizeA, npages := sizeB, head := false)]
    {
      if fail {
        return null;
      }
      ghost var x := live[e];
      ghost var y := x.(base := x.base + sizeA, npages := sizeB, head := false);
      trail := new Edata(Ext(e.base + sizeA, sizeB, e.state, e.sn, e.committed, false));
      SplitExact(rtree, live, e, trail, x.(npages := sizeA), y);
      e.npages := sizeA;
      WriteBoth(e, trail);
      live := live[e := x.(npages := sizeA)][trail := y];
    }

    method TakeOver(a: Edata, b: Edata)
      requires a != b
      modifies a`state, a`npages, a`sn
      ensures a.Value() == Merged(old(a.Value()), b.Value())
    {
      a.state := Active;
      a.npages := a.npages + b.npages;
      a.sn := if a.sn < b.sn then a.sn else b.sn;
    }

    /** extent_merge_impl: a takes over the pages of its upper neighbour b. */
    method Merge(a: Edata, b: Edata, fail: bool)
      requires Valid() && a in live && b in live && a.base + a.npages == b.base
      modifies this, a`state, a`npages, a`sn
      ensures Valid()
      ensures fail ==> live == old(live) && rtree == old(rtree)
      ensures !fail ==> live == (old(live) - {b})[a := Merged(old(live[a]), old(live[b]))]
      ensures !fail ==>
        var x, y := old(live[a]), old(live[b]);
        && live[a] == x.(state := Active, npages := x.npages + y.npages, sn := live[a].sn)
        && live[a].sn <= x.sn && live[a].sn <= y.sn && (live[a].sn == x.sn || live[a].sn == y.sn)
    {
      if fail {
        return;
      }
      ghost var x := Merged(live[a], live[b]);
      MergeExact(rtree, live, a, b);
      rtree := rtree - {b.base} - {a.base + a.npages - 1};
      TakeOver(a, b);
      WriteAcquired(a);
      live := (live - {b})[a := x];
    }

    /** emap_try_acquire_edata_neighbor: takes the neighbour exactly when it may be taken. */
    method TryAcquireNeighbor(e: Edata, expected: State, forward: bool, expanding: bool) returns (n: Edata?)
      requires Valid() && e in live && e.state != expected && expected != Merging
      requires forall f :: f in live ==> 0 < live[f].base
      modifies this, live.Keys`state
      ensures Valid()
      ensures n == null ==>
        live == old(live) && forall f :: f in live ==> !CanAcquire(live[e], live[f], expected, forward, expanding)
      ensures n != null ==>
        && n in old(live) && CanAcquire(old(live[e]), old(live)[n], expected, forward, expanding)
        && live == old(live)[n := old(live)[n].(state := Merging)]
    {
      var page := if forward then e.base + e.npages else e.base - 1;
      forall f | f in live
        ensures Mapped(rtree, f, live[f])
        ensures Adjacent(live[e], live[f], forward) <==> page in rtree && rtree[page].edata == f
      {
        NeighborLookup(rtree, live, e, f, forward);
      }
      if page == 0 || page !in rtree {
        return null;
      }
      var c := rtree[page];
      assert Boundary(rtree, live, page) && Mapped(rtree, c.edata, live[c.edata]);
      if (if forward then c.isHead else e.head) || c.state != expected {
        return null;
      }
      if !expanding && e.committed != c.edata.committed {
        return null;
      }
      n := c.edata;
      UpdateState(n, Merging);
    }

    /** Acquires the next extent if possible and merges it into e. */
    method AbsorbNext(e: Edata, expected: State) returns (n: Edata?)
      requires Valid() && e in live && e.state == Active && expected != Active && expected != Merging
      requires forall f :: f in live ==> 0 < live[f].base
      modifies this, e`state, e`npages, e`sn, live.Keys`state
      ensures Valid()
      ensures n == null ==>
        live == old(live) && forall f :: f in live ==> !CanAcquire(live[e], live[f], expected, true, false)
      ensures n != null ==>
        && n in old(live) && CanAcquire(old(live[e]), old(live)[n], expected, true, false)
        && live == (old(live) - {n})[e := Merged(old(live[e]), old(live)[n])]
    {
      n := TryAcquireNeighbor(e, expected, true, false);
      if n != null {
        Overwritten(old(live), n, live[n], n, live[n]);
        Merge(e, n, false);
      }
    }

    /** Acquires the previous extent if possible and merges e into it. */
    method AbsorbPrev(e: Edata, expected: State) returns (p: Edata?)
      requires Valid() && e in live && e.state == Active && expected != Active && expected != Merging
      requires forall f :: f in live ==> 0 < live[f].base
      modifies this, live.Keys`state, live.Keys`npages, live.Keys`sn
      ensures Valid()
      ensures p == null ==>
        live == old(live) && forall f :: f in live ==> !CanAcquire(live[e], live[f], expected, false, false)
      ensures p != null ==>
        && p in old(live) && CanAcquire(old(live[e]), old(live)[p], expected, false, false)
        && live == (old(live) - {e})[p := Merged(old(live)[p], old(live[e]))]
    {
      p := TryAcquireNeighbor(e, expected, false, false);
      if p != null {
        Overwritten(old(live), p, live[p], e, Merged(live[p], live[e]));
        Merge(p, e, false);
      }
    }

    /** Acquires the extent behind e to expand into it, and gives it back if it is too small. */
    method AcquireToExpand(e: Edata, expected: State, size: nat) returns (n: Edata?)
      requires Valid() && e in live && e.state == Active && expected != Active && expected != Merging
      requires forall f :: f in live ==> 0 < live[f].base
      modifies this, live.Keys`state
      ensures Valid()
      ensures n == null ==>
        && live == old(live)
        && forall f :: f in live && CanAcquire(live[e], live[f], expected, true, true) ==> live[f].npages < size
      ensures n != null ==>
        && n in old(live) && CanAcquire(old(live[e]), old(live)[n], expected, true, true)
        && size <= old(live)[n].npages && live == old(live)[n := old(live)[n].(state := Active)]
    {
      n := TryAcquireNeighbor(e, expected, true, true);
      if n != null {
        if n.npages < size {
          Overwritten(old(live), n, live[n], n, old(live)[n]);
          UpdateState(n, expected);
          forall f | f in live && CanAcquire(live[e], live[f], expected, true, true)
            ensures f == n
          {
            OneNeighbor(rtree, live, e, f, n, true);
          }
          n := null;
        } else {
          Overwritten(old(live), n, live[n], n, old(live)[n].(state := Active));
          UpdateState(n, Active);
        }
      }
    }
  }
}
