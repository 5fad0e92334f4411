/**
 * Slabs of equally sized regions (arena.c). A slab's bitmap is a sequence of groups of 64 bits,
 * each seen as the set of its one bits; a one bit is a free region.
 */
module SlabRegions {
  import opened PageSet

  // ----- the bitmap -----

  /** Bits of one group. */
  ghost predicate Groups(gs: seq<set<nat>>) {
    forall i :: 0 <= i < |gs| ==> Within(gs[i], 64)
  }

  function Region(group: nat, bit: nat): nat { 64 * group + bit }

  ghost function Regions(group: nat, g: set<nat>): set<nat> { set b | b in g :: Region(group, b) }

  /** The regions whose bits are set in the first n groups. */
  ghost function FreeIn(gs: seq<set<nat>>, n: nat): set<nat>
    requires n <= |gs|
  {
    if n == 0 then {} else FreeIn(gs, n - 1) + Regions(n - 1, gs[n - 1])
  }

  /** The free regions. */
  ghost function FreeOf(gs: seq<set<nat>>): set<nat> { FreeIn(gs, |gs|) }

  lemma {:induction false} FreeSpec(gs: seq<set<nat>>, n: nat)
    requires Groups(gs) && n <= |gs|
    ensures forall r: nat :: r in FreeIn(gs, n) <==> r < 64 * n && r % 64 in gs[r / 64]
  {
    if n != 0 {
      FreeSpec(gs, n - 1);
      forall r: nat ensures r in FreeIn(gs, n) <==> r < 64 * n && r % 64 in gs[r / 64] {
        assert r == Region(r / 64, r % 64);
        if r in FreeIn(gs, n) && r !in FreeIn(gs, n - 1) {
          var b :| b in gs[n - 1] && r == Region(n - 1, b);
        }
      }
    }
  }

  /** The regions that cnt single allocations hand out, each the lowest one that is free. */
  ghost function Lowest(free: set<nat>, n: nat, cnt: nat): seq<nat> {
    if cnt == 0 then [] else
      var r := NextIn(free, n, 0);
      [r] + Lowest(free - {r}, n, cnt - 1)
  }

  /** The lowest free region is the lowest bit of the first group that is not empty. */
  lemma LowestBit(gs: seq<set<nat>>, i: nat)
    requires Groups(gs) && i < |gs| && gs[i] != {} && forall j :: 0 <= j < i ==> gs[j] == {}
    ensures NextIn(gs[i], 64, 0) < 64
    ensures NextIn(FreeOf(gs), 64 * |gs|, 0) == 64 * i + NextIn(gs[i], 64, 0)
  {
    var b, r := NextIn(gs[i], 64, 0), NextIn(FreeOf(gs), 64 * |gs|, 0);
    var x :| x in gs[i];
    assert b < 64;
    FreeAt(gs, Region(i, b));
    assert r <= Region(i, b);
    FreeAt(gs, r);
    assert r == Region(r / 64, r % 64) && r / 64 == i;
  }

  /** Whether a region is free, read from its group. */
  lemma FreeAt(gs: seq<set<nat>>, r: nat)
    requires Groups(gs) && r < 64 * |gs|
    ensures r in FreeOf(gs) <==> r % 64 in gs[r / 64]
  {
    FreeSpec(gs, |gs|);
  }

  /** Taking a bit out of a group takes its region out of the free ones. */
  lemma TakenBit(gs: seq<set<nat>>, i: nat, b: nat)
    requires Groups(gs) && i < |gs| && b in gs[i]
    ensures Groups(gs[i := gs[i] - {b}]) && FreeOf(gs[i := gs[i] - {b}]) == FreeOf(gs) - {64 * i + b}
  {
    var gs' := gs[i := gs[i] - {b}];
    FreeSpec(gs, |gs|);
    FreeSpec(gs', |gs|);
    forall r: nat ensures r in FreeOf(gs') <==> r in FreeOf(gs) - {64 * i + b} {
      assert r == 64 * (r / 64) + r % 64;
    }
  }

  lemma GivenBit(gs: seq<set<nat>>, i: nat, b: nat)
    requires Groups(gs) && i < |gs| && b < 64
    ensures Groups(gs[i := gs[i] + {b}]) && FreeOf(gs[i := gs[i] + {b}]) == FreeOf(gs) + {64 * i + b}
  {
    var gs' := gs[i := gs[i] + {b}];
    FreeSpec(gs, |gs|);
    FreeSpec(gs', |gs|);
    forall r: nat ensures r in FreeOf(gs') <==> r in FreeOf(gs) + {64 * i + b} {
      assert r == 64 * (r / 64) + r % 64;
    }
  }

  lemma GivenCard(free: set<nat>, n: nat, r: nat)
    requires Within(free, n) && r < n && r !in free
    ensures Within(free + {r}, n) && |free + {r}| == |free| + 1 <= n
  {
    SubsetCard(free + {r}, Range(0, n));
    RangeCard(0, n);
  }

  lemma FirstGroup(gs: seq<set<nat>>, i: nat)
    requires Groups(gs) && i <= |gs| && FreeOf(gs) != {} && forall j :: 0 <= j < i ==> gs[j] == {}
    ensures i < |gs|
  {
    FreeSpec(gs, |gs|);
    var r :| r in FreeOf(gs);
    assert r / 64 < |gs|;
  }

  /** bitmap_sfu: takes the lowest free region. */
  method SetFirstUnset(gs: seq<set<nat>>) returns (r: nat, gs': seq<set<nat>>)
    requires Groups(gs) && FreeOf(gs) != {}
    ensures r in FreeOf(gs) && r == NextIn(FreeOf(gs), 64 * |gs|, 0)
    ensures |gs'| == |gs| && Groups(gs') && FreeOf(gs') == FreeOf(gs) - {r}
  {
    var i := NextGroup(gs, 0);
    LowestBit(gs, i);
    var b := NextIn(gs[i], 64, 0);
    TakenBit(gs, i, b);
    r, gs' := 64 * i + b, gs[i := gs[i] - {b}];
  }

  /** One region taken from the first group that is not empty. */
  lemma LowestStep(gs: seq<set<nat>>, i: nat)
    requires Groups(gs) && i < |gs| && gs[i] != {} && forall j :: 0 <= j < i ==> gs[j] == {}
    ensures var b := NextIn(gs[i], 64, 0);
      var gs' := gs[i := gs[i] - {b}];
      && b in gs[i] && Groups(gs') && FreeOf(gs') == FreeOf(gs) - {64 * i + b}
      && 64 * i + b in FreeOf(gs) && 64 * i + b == NextIn(FreeOf(gs), 64 * |gs|, 0)
  {
    LowestBit(gs, i);
    TakenBit(gs, i, NextIn(gs[i], 64, 0));
    FreeSpec(gs, |gs|);
  }

  ghost function Set(s: seq<nat>): set<nat> { set x | x in s }

  lemma SetJoin(s: seq<nat>, t: seq<nat>)
    ensures Set(s + t) == Set(s) + Set(t) && Set([]) == {} && (|t| == 1 ==> Set(t) == {t[0]})
    ensures |s| == 1 ==> Set(s) == {s[0]}
  {
  }

  /** regs, taken out of the n regions in free, leave left, which has the rest of cnt single allocations. */
  ghost predicate Split(free: set<nat>, left: set<nat>, n: nat, regs: seq<nat>, cnt: nat) {
    && |regs| <= cnt && Lowest(free, n, cnt) == regs + Lowest(left, n, cnt - |regs|)
    && left == free - Set(regs) && cnt - |regs| <= |left|
  }

  lemma SplitStep(free: set<nat>, left: set<nat>, n: nat, regs: seq<nat>, cnt: nat, r: nat)
    requires Split(free, left, n, regs, cnt) && |regs| < cnt && r in left && r == NextIn(left, n, 0)
    ensures Split(free, left - {r}, n, regs + [r], cnt)
  {
    LowestNext(left, n, regs, cnt - |regs|);
    assert cnt - |regs| - 1 == cnt - |regs + [r]|;
    SetJoin(regs, [r]);
    assert free - Set(regs + [r]) == left - {r};
  }

  lemma LowestNext(free: set<nat>, n: nat, regs: seq<nat>, cnt: nat)
    requires 0 < cnt
    ensures var r := NextIn(free, n, 0); regs + Lowest(free, n, cnt) == regs + [r] + Lowest(free - {r}, n, cnt - 1)
  {
  }

  ghost predicate Taken(gs: seq<set<nat>>, cur: seq<set<nat>>, regs: seq<nat>, cnt: nat) {
    |cur| == |gs| && Groups(cur) && Split(FreeOf(gs), FreeOf(cur), 64 * |gs|, regs, cnt)
  }

  lemma TakenStep(gs: seq<set<nat>>, cur: seq<set<nat>>, regs: seq<nat>, cnt: nat, i: nat, b: nat, now: seq<set<nat>>)
    requires Taken(gs, cur, regs, cnt) && |regs| < cnt
    requires i < |cur| && cur[i] != {} && forall j :: 0 <= j < i ==> cur[j] == {}
    requires b == NextIn(cur[i], 64, 0) && now == cur[i := cur[i] - {b}]
    ensures b in cur[i] && Taken(gs, now, regs + [64 * i + b], cnt)
  {
    LowestStep(cur, i);
    SplitStep(FreeOf(gs), FreeOf(cur), 64 * |gs|, regs, cnt, 64 * i + b);
  }

  /** The next group with a free region. */
  method NextGroup(cur: seq<set<nat>>, from: nat) returns (i: nat)
    requires Groups(cur) && FreeOf(cur) != {} && from <= |cur| && forall j :: 0 <= j < from ==> cur[j] == {}
    ensures i < |cur| && cur[i] != {} && forall j :: 0 <= j < i ==> cur[j] == {}
  {
    i := from;
    FirstGroup(cur, i);
    while cur[i] == {}
      invariant i < |cur| && forall j :: 0 <= j < i ==> cur[j] == {}
      decreases |cur| - i
    {
      FirstGroup(cur, i + 1);
      i := i + 1;
    }
  }

  /** Clears the lowest bit of group i. */
  method TakeBit(ghost gs: seq<set<nat>>, cur: seq<set<nat>>, ghost cnt: nat, i: nat, regs: seq<nat>)
    returns (now: seq<set<nat>>, r: nat)
    requires Taken(gs, cur, regs, cnt) && |regs| < cnt
    requires i < |cur| && cur[i] != {} && forall j :: 0 <= j < i ==> cur[j] == {}
    ensures Taken(gs, now, regs + [r], cnt) && |now[i]| == |cur[i]| - 1
    ensures forall j :: 0 <= j < i ==> now[j] == {}
  {
    var bit := NextIn(cur[i], 64, 0);
    now, r := cur[i := cur[i] - {bit}], 64 * i + bit;
    TakenStep(gs, cur, regs, cnt, i, bit, now);
  }

  /** The inner loop of the batch: pop more regions, all of group i. */
  method TakeBits(ghost gs: seq<set<nat>>, cur: seq<set<nat>>, ghost cnt: nat, i: nat, pop: nat, regs: seq<nat>)
    returns (now: seq<set<nat>>, regs': seq<nat>)
    requires Taken(gs, cur, regs, cnt) && i < |cur| && forall j :: 0 <= j < i ==> cur[j] == {}
    requires pop <= |cur[i]| && |regs| + pop <= cnt
    ensures Taken(gs, now, regs', cnt) && |regs'| == |regs| + pop && forall j :: 0 <= j < i ==> now[j] == {}
  {
    now, regs' := cur, regs;
    var left: nat := pop;
    while 0 < left
      invariant |now| == |cur| && left <= |now[i]| && |regs'| + left == |regs| + pop
      invariant Taken(gs, now, regs', cnt) && forall j :: 0 <= j < i ==> now[j] == {}
    {
      var r;
      now, r := TakeBit(gs, now, cnt, i, regs');
      regs', left := regs' + [r], left - 1;
    }
  }

  /** As many regions of group i as it has or as are still needed. */
  method TakeGroup(ghost gs: seq<set<nat>>, cur: seq<set<nat>>, cnt: nat, i: nat, regs: seq<nat>)
    returns (now: seq<set<nat>>, regs': seq<nat>)
    requires Taken(gs, cur, regs, cnt) && |regs| < cnt
    requires i < |cur| && cur[i] != {} && forall j :: 0 <= j < i ==> cur[j] == {}
    ensures Taken(gs, now, regs', cnt) && |regs| < |regs'| && forall j :: 0 <= j < i ==> now[j] == {}
  {
    var pop := |cur[i]|;
    if cnt - |regs| < pop {
      pop := cnt - |regs|;
    }
    now, regs' := TakeBits(gs, cur, cnt, i, pop, regs);
  }

  /** arena_slab_reg_alloc_batch by population count: the same regions as that many single allocations. */
  method AllocBatch(gs: seq<set<nat>>, cnt: nat) returns (regs: seq<nat>, cur: seq<set<nat>>)
    requires Groups(gs) && cnt <= |FreeOf(gs)|
    ensures regs == Lowest(FreeOf(gs), 64 * |gs|, cnt)
    ensures |cur| == |gs| && Groups(cur) && FreeOf(cur) == FreeOf(gs) - Set(regs)
  {
    var group: nat := 0;
    regs, cur := [], gs;
    while |regs| < cnt
      invariant Taken(gs, cur, regs, cnt) && group <= |cur| && forall j :: 0 <= j < group ==> cur[j] == {}
      decreases cnt - |regs|
    {
      group := NextGroup(cur, group);
      cur, regs := TakeGroup(gs, cur, cnt, group, regs);
    }
  }

  /** The regions handed out are below those left. */
  lemma {:induction false} LowestLeast(free: set<nat>, n: nat, cnt: nat)
    requires Within(free, n) && cnt <= |free|
    ensures forall r, x :: r in Lowest(free, n, cnt) && x in free && x !in Lowest(free, n, cnt) ==> r < x
    decreases cnt
  {
    if cnt != 0 {
      var r := NextIn(free, n, 0);
      var rest := Lowest(free - {r}, n, cnt - 1);
      LowestLeast(free - {r}, n, cnt - 1);
      forall q, x | q in [r] + rest && x in free && x !in [r] + rest ensures q < x {
        assert x != r;
      }
    }
  }

  ghost predicate Rising(s: seq<nat>) { forall i, j :: 0 <= i < j < |s| ==> s[i] < s[j] }

  lemma {:induction false} LowestIn(free: set<nat>, n: nat, cnt: nat)
    requires Within(free, n) && cnt <= |free|
    ensures |Lowest(free, n, cnt)| == cnt && Set(Lowest(free, n, cnt)) <= free && |Set(Lowest(free, n, cnt))| == cnt
  {
    if cnt != 0 {
      var r := NextIn(free, n, 0);
      var x :| x in free;
      assert r in free;
      LowestIn(free - {r}, n, cnt - 1);
      var rest := Lowest(free - {r}, n, cnt - 1);
      SetJoin([r], rest);
      assert r !in Set(rest);
    }
  }

  lemma RisingCons(r: nat, rest: seq<nat>)
    requires Rising(rest) && forall x :: x in Set(rest) ==> r < x
    ensures Rising([r] + rest)
  {
    assert forall i :: 0 <= i < |rest| ==> rest[i] in Set(rest);
  }

  lemma {:induction false} LowestRising(free: set<nat>, n: nat, cnt: nat)
    requires Within(free, n) && cnt <= |free|
    ensures Rising(Lowest(free, n, cnt))
  {
    if cnt != 0 {
      var r := NextIn(free, n, 0);
      var x :| x in free;
      LowestRising(free - {r}, n, cnt - 1);
      LowestIn(free - {r}, n, cnt - 1);
      RisingCons(r, Lowest(free - {r}, n, cnt - 1));
    }
  }

  // ----- slabs -----

  class Slab {
    const sn: nat
    const addr: nat
    const nregs: nat
    var groups: seq<set<nat>>
    var nfree: nat
    ghost var free: set<nat>

    /** free is what the bitmap says, and nfree counts it. */
    ghost predicate Ok()
      reads this
    {
      && groups != [] && Groups(groups) && free == FreeOf(groups)
      && nregs <= 64 * |groups| && Within(free, nregs) && nfree == |free| <= nregs
    }

    /** Older slabs first, then lower ones. */
    predicate Before(s: Slab) { sn < s.sn || (sn == s.sn && addr < s.addr) }

    /** arena_slab_alloc */
    constructor (serial: nat, at: nat, n: nat)
      requires 1 <= n
      ensures Ok() && sn == serial && addr == at && nregs == n && nfree == n && free == Range(0, n)
    {
      sn, addr, nregs, nfree := serial, at, n, n;
      var gs := seq((n + 63) / 64, i requires 0 <= i => set b: nat | b < 64 && Region(i, b) < n);
      groups, free := gs, FreeOf(gs);
      AllFree(gs, n);
      RangeCard(0, n);
    }

    method RegAlloc() returns (r: nat)
      requires Ok() && 0 < nfree
      modifies this
      ensures Ok() && r in old(free) && (forall x :: x in old(free) ==> r <= x)
      ensures free == old(free) - {r} && nfree == old(nfree) - 1
    {
      FreeSpec(groups, |groups|);
      r, groups := SetFirstUnset(groups);
      free := free - {r};
      nfree := nfree - 1;
    }

    method RegAllocBatch(cnt: nat) returns (regs: seq<nat>)
      requires Ok() && cnt <= nfree
      modifies this
      ensures Ok() && |regs| == cnt && Rising(regs) && Set(regs) <= old(free)
      ensures regs == Lowest(old(free), old(64 * |groups|), cnt)
      ensures forall r, x :: r in regs && x in free ==> r < x
      ensures free == old(free) - Set(regs) && nfree == old(nfree) - cnt
    {
      FreeSpec(groups, |groups|);
      LowestIn(free, 64 * |groups|, cnt);
      LowestRising(free, 64 * |groups|, cnt);
      LowestLeast(free, 64 * |groups|, cnt);
      regs, groups := AllocBatch(groups, cnt);
      free := free - Set(regs);
      nfree := nfree - cnt;
    }

    /** The bitmap part of arena_dalloc_bin_locked_step. */
    method RegDalloc(r: nat)
      requires Ok() && r < nregs && r !in free
      modifies this
      ensures Ok() && free == old(free) + {r} && nfree == old(nfree) + 1
    {
      GivenBit(groups, r / 64, r % 64);
      GivenCard(free, nregs, r);
      groups := groups[r / 64 := groups[r / 64] + {r % 64}];
      free := free + {r};
      nfree := nfree + 1;
    }

    predicate IsFree(r: nat)
      requires r < 64 * |groups|
      reads this
    {
      r % 64 in groups[r / 64]
    }
  }

  lemma AllFree(gs: seq<set<nat>>, n: nat)
    requires |gs| == (n + 63) / 64
    requires forall i, b: nat :: 0 <= i < |gs| ==> (b in gs[i] <==> b < 64 && Region(i, b) < n)
    ensures Groups(gs) && FreeOf(gs) == Range(0, n)
  {
    FreeSpec(gs, |gs|);
    forall r: nat ensures r in FreeOf(gs) <==> r in Range(0, n) {
      assert r == Region(r / 64, r % 64);
    }
  }
}
