/**
 * Sets of unused extents, binned by size class (eset.c), and the sizing of a split and of fresh
 * mappings (extent.c). Sizes and addresses are in pages; the size classes are any increasing
 * sequence that starts with one page, and pad is the padding of large allocations.
 */
module Eset {
  import opened Basics
  import opened PageSet

  const SPACE: nat := 0x10_0000_0000_0000 // pages that size_t can count

  /** The sum of two sizes in size_t. */
  function Wrap(sum: nat): (r: nat)
    requires sum < 2 * SPACE
    ensures r == sum % SPACE
  {
    if sum < SPACE then sum else sum - SPACE
  }

  // ----- size classes -----

  predicate Increasing(s: seq<nat>, n: nat)
    requires n <= |s|
  {
    n <= 1 || (s[n - 2] < s[n - 1] && Increasing(s, n - 1))
  }

  lemma {:induction false} IncreasingAt(s: seq<nat>, n: nat)
    requires n <= |s| && Increasing(s, n)
    ensures forall i, j :: 0 <= i < j < n ==> s[i] < s[j]
  {
    if 1 < n {
      IncreasingAt(s, n - 1);
    }
  }

  datatype Classes = Classes(sizes: seq<nat>, pad: nat) {

    ghost predicate Valid() {
      1 <= |sizes| && sizes[0] == 1 && pad <= 1 && Increasing(sizes, |sizes|)
    }

    function Count(): nat { |sizes| }

    /** The largest size class. */
    function Max(): nat
      requires 1 <= |sizes|
    {
      sizes[|sizes| - 1]
    }

    /** sz_pind2sz: one more page than the largest class for the index behind the last. */
    function Size(i: nat): nat
      requires 1 <= |sizes| && i <= |sizes|
    {
      if i == |sizes| then Max() + 1 else sizes[i]
    }

    function IndexFrom(size: nat, i: nat): (r: nat)
      requires i <= |sizes|
      ensures i <= r <= |sizes|
      decreases |sizes| - i
    {
      if i == |sizes| || size <= sizes[i] then i else IndexFrom(size, i + 1)
    }

    /** sz_psz2ind: the first class that holds size, or the index behind the last. */
    function Index(size: nat): (r: nat)
      ensures r <= |sizes|
    {
      IndexFrom(size, 0)
    }

    lemma {:induction false} IndexFromAt(size: nat, i: nat)
      requires i <= |sizes|
      ensures var r := IndexFrom(size, i); (r < |sizes| ==> size <= sizes[r]) && (i < r ==> sizes[r - 1] < size)
      decreases |sizes| - i
    {
      if i < |sizes| && sizes[i] < size {
        IndexFromAt(size, i + 1);
      }
    }

    lemma IndexAt(size: nat)
      ensures var r := Index(size); (r < |sizes| ==> size <= sizes[r]) && (0 < r ==> sizes[r - 1] < size)
    {
      IndexFromAt(size, 0);
    }

    /** sz_psz_quantize_floor */
    function Floor(size: nat): nat
      requires Valid() && 1 <= size
    {
      var i := Index(size - pad + 1);
      if i == 0 then size else Size(i - 1) + pad
    }

    /** sz_psz_quantize_ceil */
    function Ceil(size: nat): nat
      requires Valid() && 1 <= size
    {
      var f := Floor(size);
      if f < size then Size(Index(f - pad + 1)) + pad else f
    }

    /** The sizes that floor and ceiling take: a padded class, or the padding alone. */
    ghost predicate Quantum(size: nat, i: nat)
      requires Valid()
    {
      && i <= |sizes| && Index(size) == i
      && if pad == 0 then i < |sizes| && size == sizes[i] else size == (if i == 0 then 0 else sizes[i - 1]) + 1
    }

    lemma IndexIs(size: nat, i: nat)
      requires Valid() && i <= |sizes|
      requires i < |sizes| ==> size <= sizes[i]
      requires 0 < i ==> sizes[i - 1] < size
      ensures Index(size) == i
    {
      IndexAt(size);
      IncreasingAt(sizes, |sizes|);
    }

    lemma Around(i: nat)
      requires Valid() && i < |sizes|
      ensures 0 < i ==> sizes[i - 1] < sizes[i]
      ensures i + 1 < |sizes| ==> sizes[i] < sizes[i + 1]
      ensures sizes[i] <= Max()
    {
      IncreasingAt(sizes, |sizes|);
    }

    lemma FloorQuantum(size: nat)
      requires Valid() && 1 <= size
      ensures Quantum(Floor(size), Index(Floor(size)))
      ensures Floor(size) <= size
      ensures pad == 0 ==> Floor(size) <= Max()
    {
      var i := Index(size - pad + 1);
      IndexAt(size - pad + 1);
      if i == 0 {
        assert sizes[0] == 1;
      } else if pad == 0 {
        Around(i - 1);
        IndexIs(sizes[i - 1], i - 1);
      } else {
        Around(i - 1);
        IndexIs(sizes[i - 1] + 1, i);
      }
    }

    lemma CeilIsNext(size: nat)
      requires Valid() && 1 <= size <= Max() + pad && Floor(size) < size
      ensures var i := Index(size - pad + 1); 0 < i < |sizes| && Ceil(size) == sizes[i] + pad
    {
      var i := Index(size - pad + 1);
      IndexAt(size - pad + 1);
      Around(i - 1);
      IndexIs(sizes[i - 1] + 1, i);
    }

    lemma IsQuantum(i: nat)
      requires Valid() && i < |sizes|
      ensures Quantum(sizes[i] + pad, i + pad)
    {
      Around(i);
      IndexIs(sizes[i] + pad, i + pad);
    }

    lemma CeilQuantum(size: nat)
      requires Valid() && 1 <= size <= Max() + pad
      ensures Quantum(Ceil(size), Index(Ceil(size)))
      ensures size <= Ceil(size)
    {
      FloorQuantum(size);
      if Floor(size) < size {
        CeilIsNext(size);
        IndexAt(size - pad + 1);
        IsQuantum(Index(size - pad + 1));
      }
    }

    /** Comparing bins is comparing the floor class of an extent with the ceiling class of a request,
        so the extents in the bins searched are large enough. */
    lemma BinsCompare(extent: nat, request: nat)
      requires Valid() && 1 <= extent && 1 <= request <= Max() + pad
      ensures Index(Ceil(request)) <= Index(Floor(extent)) <==> Ceil(request) <= Floor(extent)
      ensures Index(Ceil(request)) <= Index(Floor(extent)) ==> request <= extent
    {
      FloorQuantum(extent);
      CeilQuantum(request);
      QuantaOrder(Ceil(request), Floor(extent));
    }

    lemma QuantaOrder(a: nat, b: nat)
      requires Valid() && Quantum(a, Index(a)) && Quantum(b, Index(b))
      ensures Index(a) <= Index(b) <==> a <= b
    {
      IncreasingAt(sizes, |sizes|);
    }

    /** The floor is the largest padded class that the size reaches, and the ceiling the smallest that reaches it. */
    lemma FloorMost(size: nat, i: nat)
      requires Valid() && 1 <= size && i < |sizes|
      ensures sizes[i] + pad <= size ==> sizes[i] + pad <= Floor(size)
    {
      IndexAt(size - pad + 1);
      IncreasingAt(sizes, |sizes|);
    }

    lemma CeilLeast(size: nat, i: nat)
      requires Valid() && 1 <= size <= Max() + pad && i < |sizes|
      ensures size <= sizes[i] + pad ==> Ceil(size) <= sizes[i] + pad
    {
      FloorQuantum(size);
      IncreasingAt(sizes, |sizes|);
      if Floor(size) < size {
        CeilIsNext(size);
        IndexAt(size - pad + 1);
      }
    }

    /** An extent is in a bin at or above that of a request if and only if some padded class lies between the two, or
        the request is for the padding alone. */
    lemma BinsExactly(extent: nat, request: nat)
      requires Valid() && 1 <= extent && 1 <= request <= Max() + pad
      ensures Index(Ceil(request)) <= Index(Floor(extent)) <==>
        (exists i :: 0 <= i < |sizes| && request <= sizes[i] + pad <= extent) || request == pad
    {
      FloorQuantum(extent);
      CeilQuantum(request);
      BinsCompare(extent, request);
      var q := Ceil(request);
      var k := Index(q);
      if q <= Floor(extent) && request != pad {
        var i := k - pad;
        assert q == sizes[i] + pad;
      }
      forall i | 0 <= i < |sizes| && request <= sizes[i] + pad <= extent ensures q <= Floor(extent) {
        FloorMost(extent, i);
        CeilLeast(request, i);
      }
      if request == pad {
        IndexIs(1, 0);
        assert q == 1;
      }
    }

    /** Without padding no extent is filed behind the last class, so an oversize request finds none. */
    lemma OversizeUnpadded(extent: nat, request: nat)
      requires Valid() && pad == 0 && 1 <= extent && Max() < request
      ensures Index(Floor(extent)) < Index(Ceil(request)) == |sizes|
    {
      FloorQuantum(extent);
      IndexIs(request + 1, |sizes|);
      IndexIs(Max() + 1, |sizes|);
      assert Ceil(request) == Max() + 1;
    }

    lemma Enough(extent: nat, request: nat)
      requires Valid() && 1 <= extent && 1 <= request && Index(Ceil(request)) <= Index(Floor(extent))
      ensures Safe(request) ==> request <= extent
    {
      if request <= Max() + pad {
        BinsCompare(extent, request);
      } else if pad == 0 {
        OversizeUnpadded(extent, request);
      }
    }

    /** The requests for which every extent of a bin that is looked in is large enough. */
    predicate Safe(request: nat)
      requires 1 <= |sizes|
    {
      pad == 0 || request <= Max() + pad
    }

    /** With padding every oversize request is looked for in the bin behind the last class, where an
        extent of one page more than the largest class may lie, which is too small. */
    lemma OversizePadded(request: nat)
      requires Valid() && pad == 1 && Max() + 1 < request
      ensures Index(Floor(Max() + 1)) == Index(Ceil(request)) == |sizes|
    {
      IndexIs(request, |sizes|);
      IndexIs(Max() + 1, |sizes|);
      IndexIs(Max() + 2, |sizes|);
      assert Floor(request) == Max() + 1;
      assert Floor(Max() + 1) == Max() + 1;
    }
  }

  // ----- extents and their order -----

  datatype Extent = Extent(sn: nat, base: nat, npages: nat) {
    function Key(): Summary { Summary(sn, base) }

    ghost predicate Ok() { 1 <= npages && base + npages < SPACE }
  }

  /** edata_cmp_summary_t: older serial numbers first, then lower addresses. */
  datatype Summary = Summary(sn: nat, addr: nat) {
    predicate Below(s: Summary) { sn < s.sn || (sn == s.sn && addr < s.addr) }
  }

  ghost predicate Least(heap: set<Extent>, e: Extent) {
    e in heap && forall x :: x in heap ==> x == e || e.Key().Below(x.Key())
  }

  ghost predicate DistinctKeys(heap: set<Extent>) {
    forall x, y :: x in heap && y in heap && x.Key() == y.Key() ==> x == y
  }

  /** edata_heap_first */
  method HeapFirst(heap: set<Extent>) returns (e: Extent)
    requires heap != {} && DistinctKeys(heap)
    ensures Least(heap, e)
  {
    e :| e in heap;
    var rest := heap - {e};
    while rest != {}
      invariant rest <= heap && Least(heap - rest, e)
      decreases rest
    {
      var x :| x in rest;
      if x.Key().Below(e.Key()) {
        e := x;
      }
      rest := rest - {x};
    }
    assert heap - rest == heap;
  }

  function Pages(s: seq<Extent>): nat {
    if s == [] then 0 else s[0].npages + Pages(s[1..])
  }

  lemma {:induction false} PagesAppend(s: seq<Extent>, e: Extent)
    ensures Pages(s + [e]) == Pages(s) + e.npages
  {
    if s == [] {
      assert s + [e] == [e];
    } else {
      assert (s + [e])[1..] == s[1..] + [e];
      PagesAppend(s[1..], e);
    }
  }

  /** edata_list_inactive_remove */
  function Without(s: seq<Extent>, e: Extent): seq<Extent> {
    if s == [] then [] else if s[0] == e then s[1..] else [s[0]] + Without(s[1..], e)
  }

  ghost predicate Distinct(s: seq<Extent>) {
    s == [] || ((forall x :: x in s[1..] ==> x.Key() != s[0].Key()) && Distinct(s[1..]))
  }

  lemma {:induction false} WithoutSpec(s: seq<Extent>, e: Extent)
    requires e in s && Distinct(s)
    ensures Distinct(Without(s, e)) && forall x :: x in Without(s, e) <==> x in s && x != e
    ensures Pages(Without(s, e)) + e.npages == Pages(s)
  {
    assert s == [s[0]] + s[1..];
    if s[0] != e {
      WithoutSpec(s[1..], e);
      var w := Without(s[1..], e);
      assert Without(s, e)[1..] == w;
      assert forall i :: 0 <= i < |w| ==> w[i] in s[1..];
    }
  }

  lemma {:induction false} DistinctHas(s: seq<Extent>)
    requires Distinct(s)
    ensures forall x, y :: x in s && y in s && x.Key() == y.Key() ==> x == y
  {
    if s != [] {
      DistinctHas(s[1..]);
      assert forall x :: x in s ==> x == s[0] || x in s[1..];
    }
  }

  lemma {:induction false} DistinctAppend(s: seq<Extent>, e: Extent)
    requires Distinct(s) && forall x :: x in s ==> x.Key() != e.Key()
    ensures Distinct(s + [e])
  {
    if s != [] {
      DistinctAppend(s[1..], e);
      assert (s + [e])[1..] == s[1..] + [e];
    }
  }

  // ----- first fit -----

  /** The extent can host size pages at alignment a. */
  predicate Hosts(e: Extent, size: nat, a: nat)
    requires 1 <= a
  {
    AlignUp(e.base, a) + size <= e.base + e.npages
  }

  /** What extent_split_interior computes before it splits. */
  datatype Split = CantAlloc | Parts(lead: nat, trail: nat) {

    /** Lead, the aligned result and trail make up the extent. */
    ghost predicate Cuts(e: Extent, size: nat, a: nat)
      requires 1 <= a
    {
      Parts? && lead + size + trail == e.npages && (e.base + lead) % a == 0
    }
  }

  function SplitInterior(e: Extent, size: nat, a: nat): Split
    requires 1 <= a && size + a - 1 < SPACE
  {
    var lead := AlignUp(e.base, a) - e.base;
    if e.npages < lead + size then CantAlloc else Parts(lead, e.npages - lead - size)
  }

  /** The split succeeds exactly on extents that host the request. */
  lemma SplitFits(e: Extent, size: nat, a: nat)
    requires 1 <= a && size + a - 1 < SPACE
    ensures SplitInterior(e, size, a).Parts? <==> Hosts(e, size, a)
    ensures Hosts(e, size, a) ==> SplitInterior(e, size, a).Cuts(e, size, a)
    ensures size + a - 1 <= e.npages ==> Hosts(e, size, a)
  {
    AlignUpMultiple(e.base, a);
  }

  /** An extent hosts a request if and only if an aligned range of that size lies in it. */
  lemma HostsExactly(e: Extent, size: nat, a: nat)
    requires 1 <= a
    ensures Hosts(e, size, a) <==> exists p: nat :: p % a == 0 && e.base <= p && p + size <= e.base + e.npages
  {
    AlignUpMultiple(e.base, a);
    var up := AlignUp(e.base, a);
    forall p: nat | p % a == 0 && e.base <= p ensures up <= p {
      if p < up {
        assert p == p / a * a && up == up / a * a;
        if p / a < up / a {
          MulMono(p / a, up / a, a);
        } else {
          DivMono(p, up, a);
        }
      }
    }
  }

  /** Bin i is beyond the largest ratio, 2^lg, of returned to requested size. */
  predicate TooLarge(c: Classes, i: nat, size: nat, lg: nat)
    requires 1 <= |c.sizes| && i <= |c.sizes|
  {
    PAGE * c.Size(i) / Pow2(lg) > PAGE * size
  }

  /** An extent found for esize + a - 1 pages holds esize pages at alignment a. */
  lemma LargeHosts(c: Classes, e: Extent, esize: nat, a: nat)
    requires c.Valid() && e.Ok() && 1 <= esize && 1 <= a < SPACE
    requires c.Index(c.Ceil(esize + a - 1)) <= BinOf(c, e)
    ensures c.Safe(esize + a - 1) ==> Hosts(e, esize, a)
  {
    c.Enough(e.npages, esize + a - 1);
  }

  lemma DivMono(x: nat, y: nat, d: nat)
    requires 1 <= d && x <= y
    ensures x / d <= y / d
  {
    if y / d < x / d {
      MulMono(y / d, x / d, d);
      assert false;
    }
  }

  lemma DivLe(x: nat, d: nat)
    requires 1 <= d
    ensures x / d <= x
  {
    if x < x / d {
      MulMono(x, x / d, d);
      assert false;
    }
  }

  /** The first bin from i on that is too large, or the number of bins. */
  function CutFrom(c: Classes, i: nat, size: nat, lg: nat): (r: nat)
    requires 1 <= |c.sizes| && i <= |c.sizes| + 1
    ensures i <= r <= |c.sizes| + 1
    decreases |c.sizes| - i
  {
    if i == |c.sizes| + 1 || TooLarge(c, i, size, lg) then i else CutFrom(c, i + 1, size, lg)
  }

  /** Being too large is upward closed, so the bins that are not are those below the cut. */
  lemma {:induction false} CutSpec(c: Classes, i: nat, j: nat, size: nat, lg: nat)
    requires c.Valid() && i <= j <= |c.sizes|
    ensures CutFrom(c, i, size, lg) <= j <==> TooLarge(c, j, size, lg)
    decreases j - i
  {
    IncreasingAt(c.sizes, |c.sizes|);
    if TooLarge(c, i, size, lg) {
      DivMono(PAGE * c.Size(i), PAGE * c.Size(j), Pow2(lg));
    } else if i < j {
      CutSpec(c, i + 1, j, size, lg);
    }
  }

  /** A largest ratio of 2^64 is cut to 2^63, so that it can be shifted. */
  function LgFit(lgMaxFit: nat): nat { if lgMaxFit == 64 then 63 else lgMaxFit }

  /** The end of the bins that are searched for size pages. */
  function SearchEnd(c: Classes, size: nat, exact: bool, lgMaxFit: nat): nat
    requires c.Valid() && 1 <= size
  {
    if exact then c.Index(c.Ceil(size)) + 1 else CutFrom(c, 0, size, LgFit(lgMaxFit))
  }

  lemma SmallQuotient(x: nat, d: nat)
    requires 1 <= d && x < 2 * d
    ensures x / d <= 1
  {
    if x < d {
      ModUnique(x, 0, d, x);
    } else {
      ModUnique(x, 1, d, x - d);
    }
  }

  /** No bin is too large for a request beyond the largest class and its padding. */
  lemma CutAll(c: Classes, size: nat, lg: nat)
    requires c.Valid() && c.Max() + 1 < size
    ensures CutFrom(c, 0, size, lg) == |c.sizes| + 1
  {
    CutSpec(c, 0, |c.sizes|, size, lg);
    DivLe(PAGE * c.Size(|c.sizes|), Pow2(lg));
  }

  /** A request that is not Safe is looked for in the bin behind the last class, and there alone. */
  lemma OversizeSearch(c: Classes, size: nat, exact: bool, lgMaxFit: nat)
    requires c.Valid() && 1 <= size && !c.Safe(size)
    ensures c.Index(c.Ceil(size)) == c.Index(c.Floor(c.Max() + 1)) == c.Count()
    ensures SearchEnd(c, size, exact, lgMaxFit) == c.Count() + 1
  {
    c.OversizePadded(size);
    CutAll(c, size, LgFit(lgMaxFit));
  }

  /** The test that ends the scan. */
  method Exceeds(c: Classes, i: nat, size: nat, lg: nat) returns (b: bool)
    requires c.Valid() && i <= |c.sizes|
    ensures b <==> CutFrom(c, 0, size, lg) <= i
  {
    CutSpec(c, 0, i, size, lg);
    b := PAGE * c.Size(i) / Pow2(lg) > PAGE * size;
  }

  /** The bin of an extent. */
  function BinOf(c: Classes, e: Extent): nat
    requires c.Valid() && 1 <= e.npages
  {
    c.Index(c.Floor(e.npages))
  }

  datatype Bin = Bin(heap: set<Extent>, heapMin: Summary) {

    /** The cached minimum of a bin that is not empty belongs to its least extent. */
    ghost predicate MinCached() {
      heap == {} || exists e :: Least(heap, e) && e.Key() == heapMin
    }

    /** The bin holds exactly the listed extents of its class. */
    ghost predicate Holds(c: Classes, lru: seq<Extent>, i: nat)
      requires c.Valid() && Listed(lru)
    {
      MinCached() && heap == InBin(c, lru, i)
    }
  }

  ghost predicate Listed(lru: seq<Extent>) {
    Distinct(lru) && forall e :: e in lru ==> e.Ok()
  }

  ghost function InBin(c: Classes, lru: seq<Extent>, i: nat): set<Extent>
    requires c.Valid() && Listed(lru)
  {
    set e | e in lru && BinOf(c, e) == i
  }

  lemma ListedInsert(lru: seq<Extent>, e: Extent)
    requires Listed(lru) && e.Ok() && forall x :: x in lru ==> x.Key() != e.Key()
    ensures Listed(lru + [e])
  {
    DistinctAppend(lru, e);
  }

  lemma ListedRemove(lru: seq<Extent>, e: Extent)
    requires Listed(lru) && e in lru
    ensures Listed(Without(lru, e)) && Pages(Without(lru, e)) + e.npages == Pages(lru)
  {
    WithoutSpec(lru, e);
  }

  lemma InBinKeys(c: Classes, lru: seq<Extent>, i: nat)
    requires c.Valid() && Listed(lru)
    ensures DistinctKeys(InBin(c, lru, i))
  {
    DistinctHas(lru);
  }

  lemma InBinInsert(c: Classes, lru: seq<Extent>, e: Extent, i: nat)
    requires c.Valid() && e.Ok() && Listed(lru) && Listed(lru + [e])
    ensures InBin(c, lru + [e], i) == InBin(c, lru, i) + if BinOf(c, e) == i then {e} else {}
  {
    assert forall x :: x in lru + [e] <==> x in lru || x == e;
  }

  lemma InBinRemove(c: Classes, lru: seq<Extent>, e: Extent, i: nat)
    requires c.Valid() && Listed(lru) && Listed(Without(lru, e)) && e in lru
    ensures InBin(c, Without(lru, e), i) == InBin(c, lru, i) - if BinOf(c, e) == i then {e} else {}
  {
    WithoutSpec(lru, e);
  }

  lemma MinAfterInsert(c: Classes, lru: seq<Extent>, b: Bin, e: Extent)
    requires c.Valid() && e.Ok() && Listed(lru + [e]) && b.MinCached() && forall x :: x in b.heap ==> x in lru
    ensures Bin(b.heap + {e}, if b.heap == {} || e.Key().Below(b.heapMin) then e.Key() else b.heapMin).MinCached()
  {
    DistinctHas(lru + [e]);
    if b.heap == {} {
      assert Least(b.heap + {e}, e);
    } else {
      var m :| Least(b.heap, m) && m.Key() == b.heapMin;
      assert Least(b.heap + {e}, if e.Key().Below(b.heapMin) then e else m);
    }
  }

  lemma MinAfterRemove(b: Bin, e: Extent)
    requires b.MinCached() && e in b.heap && e.Key() != b.heapMin
    ensures Bin(b.heap - {e}, b.heapMin).MinCached()
  {
    var m :| Least(b.heap, m) && m.Key() == b.heapMin;
    assert Least(b.heap - {e}, m);
  }

  /** The bins hold exactly the listed extents, and the bitmap marks the bins that are not empty. */
  ghost predicate Binned(bs: seq<Bin>, c: Classes, lru: seq<Extent>, bitmap: set<nat>)
    requires c.Valid() && Listed(lru)
  {
    && |bs| == c.Count() + 1
    && forall i {:trigger bs[i].Holds(c, lru, i)} :: 0 <= i < |bs| ==>
      bs[i].Holds(c, lru, i) && (i in bitmap <==> bs[i].heap != {})
  }

  lemma InsertBinned(bs: seq<Bin>, c: Classes, lru: seq<Extent>, bitmap: set<nat>, e: Extent, b: Bin)
    requires c.Valid() && Listed(lru) && e.Ok() && Listed(lru + [e]) && Binned(bs, c, lru, bitmap)
    requires b.MinCached() && b.heap == bs[BinOf(c, e)].heap + {e}
    ensures Binned(bs[BinOf(c, e) := b], c, lru + [e], bitmap + {BinOf(c, e)})
  {
    var after, list := bs[BinOf(c, e) := b], lru + [e];
    forall i | 0 <= i < |bs|
      ensures after[i].Holds(c, list, i) && (i in bitmap + {BinOf(c, e)} <==> after[i].heap != {})
    {
      InBinInsert(c, lru, e, i);
      assert bs[i].Holds(c, lru, i);
    }
  }

  lemma InBinHas(bs: seq<Bin>, c: Classes, lru: seq<Extent>, bitmap: set<nat>, e: Extent)
    requires c.Valid() && Listed(lru) && e in lru && Binned(bs, c, lru, bitmap)
    ensures e in bs[BinOf(c, e)].heap && BinOf(c, e) in bitmap
  {
    assert bs[BinOf(c, e)].Holds(c, lru, BinOf(c, e));
  }

  lemma RemoveBinned(bs: seq<Bin>, c: Classes, lru: seq<Extent>, bitmap: set<nat>, e: Extent, b: Bin)
    requires c.Valid() && Listed(lru) && e in lru && Listed(Without(lru, e)) && Binned(bs, c, lru, bitmap)
    requires b.MinCached() && b.heap == bs[BinOf(c, e)].heap - {e}
    ensures Binned(bs[BinOf(c, e) := b], c, Without(lru, e), if b.heap == {} then bitmap - {BinOf(c, e)} else bitmap)
  {
    var after, list := bs[BinOf(c, e) := b], Without(lru, e);
    forall i | 0 <= i < |bs|
      ensures after[i].Holds(c, list, i)
      ensures i in (if b.heap == {} then bitmap - {BinOf(c, e)} else bitmap) <==> after[i].heap != {}
    {
      InBinRemove(c, lru, e, i);
      assert bs[i].Holds(c, lru, i);
      assert e in bs[BinOf(c, e)].heap by { InBinHas(bs, c, lru, bitmap, e); }
    }
  }

  /** r is the least extent in the bins [lo, hi). */
  ghost predicate LeastIn(bs: seq<Bin>, r: Option<Extent>, lo: nat, hi: nat)
    requires hi <= |bs|
  {
    if r.None? then forall j :: lo <= j < hi ==> bs[j].heap == {}
    else
      && (exists j :: lo <= j < hi && r.value in bs[j].heap)
      && forall j, e :: lo <= j < hi && e in bs[j].heap ==> e == r.value || r.value.Key().Below(e.Key())
  }

  lemma LeastStep(bs: seq<Bin>, r: Option<Extent>, lo: nat, i: nat, e: Extent)
    requires lo <= i < |bs| && LeastIn(bs, r, lo, i) && Least(bs[i].heap, e)
    requires r.Some? && r.value.Key() == e.Key() ==> r.value == e
    ensures LeastIn(bs, if r.None? || e.Key().Below(r.value.Key()) then Some(e) else r, lo, i + 1)
  {
  }

  lemma LeastSkip(bs: seq<Bin>, r: Option<Extent>, lo: nat, i: nat, next: nat)
    requires lo <= i <= next <= |bs| && LeastIn(bs, r, lo, i)
    requires forall j :: i <= j < next ==> bs[j].heap == {}
    ensures LeastIn(bs, r, lo, next)
  {
  }

  ghost predicate BinsKept(bs: seq<Bin>, bitmap: set<nat>) {
    && (forall j :: 0 <= j < |bs| ==> bs[j].MinCached() && (j in bitmap <==> bs[j].heap != {}))
    && (forall j, x :: 0 <= j < |bs| && x in bs[j].heap ==> x.Ok())
    && (forall j, k, x, y {:trigger bs[j], bs[k], OneOfKey(x, y)} ::
          0 <= j < |bs| && 0 <= k < |bs| && x in bs[j].heap && y in bs[k].heap ==> OneOfKey(x, y))
  }

  ghost predicate OneOfKey(x: Extent, y: Extent) { x.Key() == y.Key() ==> x == y }

  lemma KeptAt(bs: seq<Bin>, bitmap: set<nat>, i: nat)
    requires BinsKept(bs, bitmap) && i < |bs|
    ensures DistinctKeys(bs[i].heap)
  {
    forall x, y | x in bs[i].heap && y in bs[i].heap && x.Key() == y.Key() ensures x == y {
      assert OneOfKey(x, y);
    }
  }

  lemma LeastKept(bs: seq<Bin>, bitmap: set<nat>, r: Option<Extent>, lo: nat, i: nat, e: Extent)
    requires BinsKept(bs, bitmap) && lo <= i < |bs| && LeastIn(bs, r, lo, i) && e in bs[i].heap
    ensures r.Some? && r.value.Key() == e.Key() ==> r.value == e
  {
    if r.Some? {
      assert OneOfKey(r.value, e);
    }
  }

  function Max(a: nat, b: nat): nat { if a < b then b else a }

  /** One bin of the scan: its extents are looked at only if its cached minimum is lower. */
  method Consider(bs: seq<Bin>, ghost bitmap: set<nat>, ghost lo: nat, ghost done: nat, i: nat, ret: Option<Extent>,
                  summary: Summary)
    returns (r: Option<Extent>, s: Summary)
    requires BinsKept(bs, bitmap) && lo <= done <= i < |bs| && bs[i].heap != {} && LeastIn(bs, ret, lo, done)
    requires (forall j :: done <= j < i ==> bs[j].heap == {}) && (ret.Some? ==> ret.value.Key() == summary)
    ensures LeastIn(bs, r, lo, i + 1) && (r.Some? ==> r.value.Key() == s)
  {
    LeastSkip(bs, ret, lo, done, i);
    KeptAt(bs, bitmap, i);
    ghost var m :| Least(bs[i].heap, m) && m.Key() == bs[i].heapMin;
    LeastKept(bs, bitmap, ret, lo, i, m);
    LeastStep(bs, ret, lo, i, m);
    r, s := ret, summary;
    if ret.None? || bs[i].heapMin.Below(summary) {
      var e := HeapFirst(bs[i].heap);
      assert e == m;
      r, s := Some(e), bs[i].heapMin;
    }
  }

  /** The scan over the bins that are not empty, on their cached minima. */
  method ScanBins(c: Classes, bs: seq<Bin>, bitmap: set<nat>, pind: nat, size: nat, lg: nat)
    returns (ret: Option<Extent>)
    requires c.Valid() && |bs| == c.Count() + 1 && BinsKept(bs, bitmap) && pind < |bs|
    ensures LeastIn(bs, ret, pind, Max(pind, CutFrom(c, 0, size, lg)))
  {
    ghost var hi := Max(pind, CutFrom(c, 0, size, lg));
    ret := None;
    var summary := Summary(0, 0);
    var i := NextIn(bitmap, |bs|, pind);
    ghost var done := pind;
    while i < |bs|
      invariant pind <= done <= i <= |bs| && done <= hi && (i < |bs| ==> i in bitmap)
      invariant LeastIn(bs, ret, pind, done) && forall j :: done <= j < i ==> bs[j].heap == {}
      invariant ret.Some? ==> ret.value.Key() == summary
    {
      var beyond := Exceeds(c, i, size, lg);
      if beyond {
        break;
      }
      ret, summary := Consider(bs, bitmap, pind, done, i, ret, summary);
      done := i + 1;
      if i == c.Count() {
        break;
      }
      i := NextIn(bitmap, |bs|, i + 1);
    }
    LeastSkip(bs, ret, pind, done, hi);
  }

  /** The least extents of the bins [lo, hi) cannot host the request. */
  ghost predicate NoHeadHosts(bs: seq<Bin>, lo: nat, hi: nat, size: nat, a: nat)
    requires 1 <= a && hi <= |bs|
  {
    forall i, e :: lo <= i < hi && Least(bs[i].heap, e) ==> !Hosts(e, size, a)
  }

  /** r is the least extent of a bin in [lo, hi), the lowest bin whose least extent hosts the request. */
  ghost predicate IsHeadFit(bs: seq<Bin>, r: Option<Extent>, lo: nat, hi: nat, size: nat, a: nat)
    requires 1 <= a && hi <= |bs|
  {
    if r.None? then NoHeadHosts(bs, lo, hi, size, a)
    else
      && Hosts(r.value, size, a)
      && exists i :: lo <= i < hi && Least(bs[i].heap, r.value) && NoHeadHosts(bs, lo, i, size, a)
  }

  /** The test of eset_fit_alignment, with the wrap-around of the aligned address. */
  method TestHosts(e: Extent, size: nat, a: nat) returns (ok: bool)
    requires 1 <= a < SPACE && e.Ok() && 1 <= size
    ensures ok <==> Hosts(e, size, a)
  {
    var next := Wrap(AlignUp(e.base, a));
    if e.base > next || e.base + e.npages <= next {
      return false;
    }
    var leadsize := next - e.base;
    ok := e.npages - leadsize >= size;
  }

  method HeadOf(bs: seq<Bin>, ghost bitmap: set<nat>, i: nat) returns (e: Extent)
    requires BinsKept(bs, bitmap) && i < |bs| && bs[i].heap != {}
    ensures Least(bs[i].heap, e) && e.Ok()
  {
    KeptAt(bs, bitmap, i);
    e := HeapFirst(bs[i].heap);
  }

  lemma NoHeadStep(bs: seq<Bin>, lo: nat, i: nat, next: nat, e: Extent, size: nat, a: nat)
    requires 1 <= a && lo <= i < next <= |bs| && NoHeadHosts(bs, lo, i, size, a)
    requires Least(bs[i].heap, e) && !Hosts(e, size, a) && forall j :: i < j < next ==> bs[j].heap == {}
    ensures NoHeadHosts(bs, lo, next, size, a)
  {
    forall j, x | lo <= j < next && Least(bs[j].heap, x) ensures !Hosts(x, size, a) {
      assert j == i ==> x == e;
    }
  }

  /** The scan of eset_fit_alignment. */
  method ScanHeads(bs: seq<Bin>, bitmap: set<nat>, lo: nat, hi: nat, minSize: nat, a: nat)
    returns (r: Option<Extent>)
    requires BinsKept(bs, bitmap) && lo <= |bs| && hi <= |bs| && 1 <= a < SPACE && 1 <= minSize
    ensures IsHeadFit(bs, r, lo, hi, minSize, a)
  {
    var i := NextIn(bitmap, |bs|, lo);
    while i < hi
      invariant lo <= i <= |bs| && (i < |bs| ==> i in bitmap)
      invariant NoHeadHosts(bs, lo, i, minSize, a)
      decreases |bs| - i
    {
      var e := HeadOf(bs, bitmap, i);
      var ok := TestHosts(e, minSize, a);
      if ok {
        return Some(e);
      }
      var next := NextIn(bitmap, |bs|, i + 1);
      NoHeadStep(bs, lo, i, next, e, minSize, a);
      i := next;
    }
    r := None;
  }

  /** The cached minimum of a bin that loses an extent. */
  method MinWithout(b: Bin, e: Extent) returns (min: Summary)
    requires b.MinCached() && DistinctKeys(b.heap) && e in b.heap
    ensures Bin(b.heap - {e}, min).MinCached()
  {
    min := b.heapMin;
    if b.heap - {e} != {} {
      if e.Key() == min {
        var first := HeapFirst(b.heap - {e});
        min := first.Key();
      } else {
        MinAfterRemove(b, e);
      }
    }
  }

  class Eset {
    const c: Classes
    const bins: array<Bin>
    var bitmap: set<nat>
    var lru: seq<Extent>
    var npages: nat

    ghost predicate Valid()
      reads this, bins
    {
      c.Valid() && Listed(lru) && Binned(bins[..], c, lru, bitmap) && npages == Pages(lru)
    }

    constructor (classes: Classes)
      requires classes.Valid()
      ensures Valid() && fresh(bins) && c == classes && lru == []
    {
      c := classes;
      bins := new Bin[classes.Count() + 1](_ => Bin({}, Summary(0, 0)));
      bitmap, lru, npages := {}, [], 0;
    }

    method Insert(e: Extent)
      requires Valid() && e.Ok() && forall x :: x in lru ==> x.Key() != e.Key()
      modifies this, bins
      ensures Valid() && lru == old(lru) + [e] && npages == old(npages) + e.npages
    {
      ListedInsert(lru, e);
      PagesAppend(lru, e);
      var i := BinOf(c, e);
      var heap, min := bins[i].heap, bins[i].heapMin;
      HeapHolds(i);
      MinAfterInsert(c, lru, bins[i], e);
      if heap == {} || e.Key().Below(min) {
        min := e.Key();
      }
      InsertBinned(bins[..], c, lru, bitmap, e, Bin(heap + {e}, min));
      if heap == {} {
        bitmap := bitmap + {i};
      }
      assert bitmap == old(bitmap) + {i};
      bins[i] := Bin(heap + {e}, min);
      assert bins[..] == old(bins[..])[i := bins[i]];
      lru := lru + [e];
      npages := npages + e.npages;
    }

    method Remove(e: Extent)
      requires Valid() && e in lru
      modifies this, bins
      ensures Valid() && lru == Without(old(lru), e) && npages + e.npages == old(npages)
    {
      ListedRemove(lru, e);
      var i := BinOf(c, e);
      HeapHolds(i);
      InBinKeys(c, lru, i);
      var heap := bins[i].heap - {e};
      var min := MinWithout(bins[i], e);
      RemoveBinned(bins[..], c, lru, bitmap, e, Bin(heap, min));
      if heap == {} {
        bitmap := bitmap - {i};
      }
      bins[i] := Bin(heap, min);
      assert bins[..] == old(bins[..])[i := bins[i]];
      lru := Without(lru, e);
      npages := npages - e.npages;
    }

    lemma HeapHolds(i: nat)
      requires Valid() && i < bins.Length
      ensures bins[i].MinCached() && bins[i].heap == InBin(c, lru, i) && (i in bitmap <==> bins[i].heap != {})
    {
      assert bins[..][i].Holds(c, lru, i);
    }

    /** r is the oldest, lowest listed extent whose bin is in [lo, hi), or there is none. */
    ghost predicate FirstIn(r: Option<Extent>, lo: nat, hi: nat)
      requires c.Valid() && Listed(lru)
      reads this
    {
      if r.None? then forall e :: e in lru ==> !(lo <= BinOf(c, e) < hi)
      else
        && r.value in lru && lo <= BinOf(c, r.value) < hi
        && forall e :: e in lru && lo <= BinOf(c, e) < hi ==> e == r.value || r.value.Key().Below(e.Key())
    }

    lemma KeysApart()
      requires Valid()
      ensures BinsKept(bins[..], bitmap)
    {
      DistinctHas(lru);
      forall i | 0 <= i < bins.Length
        ensures bins[i].MinCached() && bins[i].heap == InBin(c, lru, i) && (i in bitmap <==> bins[i].heap != {})
      {
        HeapHolds(i);
      }
    }

    method FirstOf(i: nat) returns (e: Extent)
      requires Valid() && i < bins.Length && bins[i].heap != {}
      ensures Least(bins[i].heap, e) && e.Key() == bins[i].heapMin
    {
      HeapHolds(i);
      InBinKeys(c, lru, i);
      e := HeapFirst(bins[i].heap);
    }

    /** The least extent in a range of bins is the least of the listed extents that belong there. */
    lemma LeastListed(r: Option<Extent>, lo: nat, hi: nat)
      requires Valid() && hi <= bins.Length && LeastIn(bins[..], r, lo, hi)
      ensures FirstIn(r, lo, hi)
    {
      forall e | e in lru && lo <= BinOf(c, e) < hi
        ensures r.Some? && (e == r.value || r.value.Key().Below(e.Key()))
      {
        HeapHolds(BinOf(c, e));
        assert e in bins[..][BinOf(c, e)].heap;
      }
      if r.Some? {
        var j :| lo <= j < hi && r.value in bins[..][j].heap;
        HeapHolds(j);
      }
    }

    /** The first extent of one bin. */
    method ExactFit(i: nat) returns (r: Option<Extent>)
      requires Valid() && i < bins.Length
      ensures FirstIn(r, i, i + 1)
    {
      if bins[i].heap == {} {
        r := None;
      } else {
        var e := FirstOf(i);
        r := Some(e);
      }
      LeastListed(r, i, i + 1);
    }

    /** e competes for a request: it is in the bin of the request, if that is asked for exactly, or else in that
        one or a higher one, and its class is at most 2^lgMaxFit times the request, in bytes. */
    predicate Competes(e: Extent, size: nat, exact: bool, lgMaxFit: nat)
      requires c.Valid() && 1 <= e.npages && 1 <= size && lgMaxFit < 64
    {
      var i, k := c.Index(c.Ceil(size)), BinOf(c, e);
      if exact then k == i else i <= k && PAGE * c.Size(k) / Pow2(lgMaxFit) <= PAGE * size
    }

    /** The bins searched are those of the extents that compete, and no others. A limit of 64 is as one of 63. */
    lemma SearchedExactly(e: Extent, size: nat, exact: bool, lgMaxFit: nat)
      requires c.Valid() && 1 <= e.npages && 1 <= size && lgMaxFit <= 64
      ensures c.Index(c.Ceil(size)) <= BinOf(c, e) < SearchEnd(c, size, exact, lgMaxFit) <==>
        Competes(e, size, exact, if lgMaxFit == 64 then 63 else lgMaxFit)
    {
      var i, k := c.Index(c.Ceil(size)), BinOf(c, e);
      if !exact {
        CutSpec(c, 0, k, size, LgFit(lgMaxFit));
      }
    }

    /** No limit: every extent in a bin at or above that of the request competes, as class sizes fit in 64 bits. */
    lemma Unlimited(e: Extent, size: nat)
      requires c.Valid() && 1 <= e.npages && 1 <= size && PAGE * (c.Max() + 1) < Pow2(64)
      ensures Competes(e, size, false, 63) <==> c.Index(c.Ceil(size)) <= BinOf(c, e)
    {
      var k := BinOf(c, e);
      IncreasingAt(c.sizes, |c.sizes|);
      assert PAGE * c.Size(k) < 2 * Pow2(63);
      SmallQuotient(PAGE * c.Size(k), Pow2(63));
    }

    /** r is the oldest of the listed extents that compete, and the lowest of these; there is none only if no extent
        competes. */
    ghost predicate Oldest(r: Option<Extent>, size: nat, exact: bool, lgMaxFit: nat)
      requires c.Valid() && Listed(lru) && 1 <= size && lgMaxFit < 64
      reads this
    {
      if r.None? then forall e :: e in lru ==> !Competes(e, size, exact, lgMaxFit)
      else
        && r.value in lru && Competes(r.value, size, exact, lgMaxFit)
        && forall e :: e in lru && Competes(e, size, exact, lgMaxFit) && e != r.value ==>
             r.value.sn < e.sn || (r.value.sn == e.sn && r.value.base < e.base)
    }

    lemma FirstIsOldest(r: Option<Extent>, size: nat, exact: bool, lgMaxFit: nat)
      requires Valid() && 1 <= size && lgMaxFit <= 64
      requires FirstIn(r, c.Index(c.Ceil(size)), SearchEnd(c, size, exact, lgMaxFit))
      ensures Oldest(r, size, exact, if lgMaxFit == 64 then 63 else lgMaxFit)
    {
      forall e | e in lru
        ensures c.Index(c.Ceil(size)) <= BinOf(c, e) < SearchEnd(c, size, exact, lgMaxFit) <==>
          Competes(e, size, exact, if lgMaxFit == 64 then 63 else lgMaxFit)
      {
        SearchedExactly(e, size, exact, lgMaxFit);
      }
    }

    method FirstFit(size: nat, exact: bool, lgMaxFit: nat) returns (r: Option<Extent>)
      requires Valid() && 1 <= size && lgMaxFit <= 64
      ensures FirstIn(r, c.Index(c.Ceil(size)), SearchEnd(c, size, exact, lgMaxFit))
      ensures Oldest(r, size, exact, if lgMaxFit == 64 then 63 else lgMaxFit)
    {
      r := Scan(size, exact, lgMaxFit);
      FirstIsOldest(r, size, exact, lgMaxFit);
    }

    method Scan(size: nat, exact: bool, lgMaxFit: nat) returns (r: Option<Extent>)
      requires Valid() && 1 <= size && lgMaxFit <= 64
      ensures FirstIn(r, c.Index(c.Ceil(size)), SearchEnd(c, size, exact, lgMaxFit))
    {
      var i := c.Index(c.Ceil(size));
      if exact {
        r := ExactFit(i);
      } else {
        KeysApart();
        var lg := LgFit(lgMaxFit);
        r := ScanBins(c, bins[..], bitmap, i, size, lg);
        LeastListed(r, i, Max(i, CutFrom(c, 0, size, lg)));
      }
    }

    /** eset_fit_alignment: the lowest bin in the range whose least extent happens to be aligned well. */
    method FitAlignment(minSize: nat, maxSize: nat, a: nat) returns (r: Option<Extent>)
      requires Valid() && 1 <= minSize && 1 <= maxSize && 1 <= a < SPACE
      ensures IsHeadFit(bins[..], r, c.Index(c.Ceil(minSize)), c.Index(c.Ceil(maxSize)), minSize, a)
      ensures r.Some? ==> r.value in lru
    {
      var lo, hi := c.Index(c.Ceil(minSize)), c.Index(c.Ceil(maxSize));
      KeysApart();
      r := ScanHeads(bins[..], bitmap, lo, hi, minSize, a);
      if r.Some? {
        ghost var i :| lo <= i < hi && Least(bins[..][i].heap, r.value);
        HeapHolds(i);
      }
    }

    /** r is what eset_fit answers: the oldest, lowest extent of the bins that hold esize + a - 1 pages,
        else the first least extent of a lower bin that happens to be aligned well. */
    ghost predicate IsFit(r: Option<Extent>, esize: nat, a: nat, exact: bool, lgMaxFit: nat)
      requires Valid() && 1 <= esize && 1 <= a
      reads this, bins
    {
      var lo, hi := c.Index(c.Ceil(esize)), c.Index(c.Ceil(esize + a - 1));
      var end := SearchEnd(c, esize + a - 1, exact, lgMaxFit);
      if SPACE <= esize + a - 1 then r.None? else Answers(r, lo, hi, end, esize, a)
    }

    ghost predicate Answers(r: Option<Extent>, lo: nat, hi: nat, end: nat, esize: nat, a: nat)
      requires Valid() && 1 <= a && hi < bins.Length
      reads this, bins
    {
      || (r.Some? && FirstIn(r, hi, end))
      || (FirstIn(None, hi, end) && if a == 1 then r.None? else IsHeadFit(bins[..], r, lo, hi, esize, a))
    }

    /** eset_fit. The result hosts the request exactly where the request is Safe. */
    method Fit(esize: nat, a: nat, exact: bool, lgMaxFit: nat) returns (r: Option<Extent>)
      requires Valid() && 1 <= esize < SPACE && 1 <= a < SPACE && lgMaxFit <= 64
      ensures IsFit(r, esize, a, exact, lgMaxFit)
      ensures esize + a - 1 < SPACE ==>
        var lg := if lgMaxFit == 64 then 63 else lgMaxFit;
        Oldest(r, esize + a - 1, exact, lg) || Oldest(None, esize + a - 1, exact, lg)
      ensures r.Some? ==> r.value in lru && esize + a - 1 < SPACE
      ensures r.Some? && c.Safe(esize + a - 1) ==> Hosts(r.value, esize, a)
    {
      var maxSize := Wrap(esize + a - 1);
      if maxSize < esize {
        return None;
      }
      assert maxSize == esize + a - 1;
      r := FirstFit(maxSize, exact, lgMaxFit);
      if r.Some? {
        LargeHosts(c, r.value, esize, a);
      } else if 1 < a {
        r := FitAlignment(esize, maxSize, a);
      }
    }

    lemma OnlyAnswer(r: Option<Extent>, lo: nat, hi: nat, end: nat, esize: nat, a: nat)
      requires Valid() && 1 <= a && hi < bins.Length && |lru| == 1 && lru[0].Ok()
      requires hi <= BinOf(c, lru[0]) < end && Answers(r, lo, hi, end, esize, a)
      ensures r == Some(lru[0])
    {
      assert lru[0] in lru;
    }

    lemma OnlyFit(r: Option<Extent>, k: nat, esize: nat, a: nat, exact: bool, lgMaxFit: nat)
      requires Valid() && 1 <= esize && 1 <= a && esize + a - 1 < SPACE && IsFit(r, esize, a, exact, lgMaxFit)
      requires |lru| == 1 && lru[0].Ok() && BinOf(c, lru[0]) == k
      requires c.Index(c.Ceil(esize + a - 1)) == k && SearchEnd(c, esize + a - 1, exact, lgMaxFit) == k + 1
      ensures r == Some(lru[0])
    {
      OnlyAnswer(r, c.Index(c.Ceil(esize)), k, k + 1, esize, a);
    }

    /** extent_recycle_extract and the sizing of extent_split_interior: what is taken out holds the
        request, and lead, result and trail make up the extent. */
    method Take(esize: nat, a: nat, exact: bool, lgMaxFit: nat) returns (r: Option<Extent>, s: Split)
      requires Valid() && 1 <= esize < SPACE && 1 <= a < SPACE && lgMaxFit <= 64
      modifies this, bins
      ensures Valid()
      ensures r.None? ==> lru == old(lru)
      ensures r.Some? ==> r.value in old(lru) && lru == Without(old(lru), r.value)
      ensures r.Some? && c.Safe(esize + a - 1) ==> s.Cuts(r.value, esize, a)
    {
      r := Fit(esize, a, exact, lgMaxFit);
      s := CantAlloc;
      if r.Some? {
        SplitFits(r.value, esize, a);
        s := SplitInterior(r.value, esize, a);
        Remove(r.value);
      }
    }
  }

  method OneExtent(classes: Classes, e: Extent) returns (s: Eset)
    requires classes.Valid() && e.Ok()
    ensures s.Valid() && s.c == classes && |s.lru| == 1 && s.lru[0] == e
  {
    s := new Eset(classes);
    s.Insert(e);
  }

  /** Every request that is not Safe can be answered with an extent that is too small. */
  method FitTooSmall(classes: Classes, esize: nat, a: nat, exact: bool, lgMaxFit: nat)
    returns (s: Eset, r: Option<Extent>)
    requires classes.Valid() && 1 <= esize && 1 <= a && esize + a - 1 < SPACE && lgMaxFit <= 64
    requires !classes.Safe(esize + a - 1)
    ensures s.Valid() && s.c == classes && s.IsFit(r, esize, a, exact, lgMaxFit)
    ensures r.Some? && !Hosts(r.value, esize, a)
  {
    s := OneExtent(classes, Extent(0, 1, classes.Max() + 1));
    r := s.Fit(esize, a, exact, lgMaxFit);
    OversizeSearch(classes, esize + a - 1, exact, lgMaxFit);
    s.OnlyFit(r, classes.Count(), esize, a, exact, lgMaxFit);
  }

  /** The next size of the growing series of mappings (exp_grow.h). */
  class ExpGrow {
    const c: Classes
    var next: nat
    var limit: nat

    ghost predicate Valid()
      reads this
    {
      c.Valid() && next < c.Count() && limit < c.Count()
    }

    /** The series goes from next to i for a mapping of at least minSize pages. */
    ghost predicate Reaches(from: nat, i: nat, minSize: nat) {
      from <= i < c.Count() && minSize <= c.sizes[i] && forall j :: from <= j < i ==> c.sizes[j] < minSize
    }

    /** No size of the series is large enough; the largest class is only used when the series is already there. */
    ghost predicate Exhausted(from: nat, minSize: nat) {
      from < c.Count() && c.sizes[from] < minSize && forall i :: from < i < c.Count() - 1 ==> c.sizes[i] < minSize
    }

    /** exp_grow_size_prepare */
    method SizePrepare(minSize: nat) returns (err: bool, size: nat, skip: nat)
      requires Valid()
      ensures err <==> Exhausted(next, minSize)
      ensures !err ==> Reaches(next, next + skip, minSize) && size == c.sizes[next + skip]
    {
      skip := 0;
      size := c.Size(next);
      while size < minSize
        invariant next + skip < c.Count() && size == c.sizes[next + skip] && (skip == 0 || next + skip < c.Count() - 1)
        invariant forall i :: next <= i < next + skip ==> c.sizes[i] < minSize
        decreases c.Count() - skip
      {
        skip := skip + 1;
        if next + skip >= c.Count() - 1 {
          return true, size, skip;
        }
        size := c.Size(next + skip);
      }
      err := false;
    }

    method SizeCommit(skip: nat)
      requires Valid()
      modifies this`next
      ensures Valid() && next <= limit && (next == old(next) + skip + 1 || (limit <= old(next) + skip && next == limit))
    {
      next := if next + skip + 1 <= limit then next + skip + 1 else limit;
    }

    /** The extent is the mapping of the i-th class, and is cut for the request. */
    ghost predicate Grown(e: Extent, s: Split, i: nat, sn: nat, mapping: nat -> Option<nat>, size: nat, a: nat)
      requires 1 <= a && i < c.Count()
    {
      && mapping(c.sizes[i]).Some? && e == Extent(sn, mapping(c.sizes[i]).value, c.sizes[i])
      && s.Cuts(e, size, a)
    }

    /** The sizing of extent_grow_retained: map stands for the hook that maps fresh memory. */
    method GrowRetained(size: nat, a: nat, sn: nat, mapping: nat -> Option<nat>) returns (r: Option<Extent>, s: Split)
      requires Valid() && 1 <= size < SPACE && 1 <= a < SPACE
      requires forall n :: mapping(n).Some? ==> mapping(n).value + n < SPACE
      modifies this`next
      ensures Valid()
      ensures r.Some? ==>
        exists i: nat ::
          && Reaches(old(next), i, size + a - 1) && Grown(r.value, s, i, sn, mapping, size, a)
          && next <= limit && (next == i + 1 || (limit <= i && next == limit))
      ensures r.None? ==> next == old(next)
      ensures r.None? && size + a - 1 < SPACE ==>
        || Exhausted(next, size + a - 1)
        || exists i: nat :: Reaches(next, i, size + a - 1) && mapping(c.sizes[i]).None?
    {
      r, s := None, CantAlloc;
      var minSize := Wrap(size + a - 1);
      if minSize < size {
        return;
      }
      assert minSize == size + a - 1;
      var err, allocSize, skip := SizePrepare(minSize);
      if err || mapping(allocSize).None? {
        return;
      }
      r := Some(Extent(sn, mapping(allocSize).value, allocSize));
      SplitFits(r.value, size, a);
      s := SplitInterior(r.value, size, a);
      ghost var i := next + skip;
      SizeCommit(skip);
      assert Reaches(old(next), i, size + a - 1) && Grown(r.value, s, i, sn, mapping, size, a);
    }
  }
}
