/**
 * The radix tree from addresses to regions (plugins/structures.c). Addresses are cut into blocks;
 * a region registers every block it reaches into, except that a block-aligned first block is
 * skipped, and each node counts the registrations below it and frees its array when none is left.
 * Every address lies in the one window of address bits that the masks distinguish.
 */
module RegionTree {
  import opened Basics

  /** A live allocation [start, end). */
  datatype Region = Region(start: nat, end: nat) {
    ghost predicate Contains(a: int) { start <= a < end }
  }

  /** The two halves of a leaf entry; an unused half is NULL, that is 0 and None. */
  datatype Slot = Slot(lowAddr: nat, highAddr: nat, lowReg: Option<Region>, highReg: Option<Region>)

  const NO_SLOT := Slot(0, 0, None, None)

  datatype Below = Null | Kids(kids: seq<Tree>) | Slots(slots: seq<Slot>)

  datatype Tree = Tree(refcount: nat, below: Below)

  const BARE := Tree(0, Null)

  /** Bit 1 of the flag stands for the high half, bit 2 for the low half. */
  datatype Kind = High | Low | Both {
    predicate SetsHigh() { High? || Both? }
    predicate SetsLow() { Low? || Both? }
  }

  /** The tree's fan-outs: entries of an inner array and of a leaf array. */
  datatype Shape = Shape(fan: nat, leaf: nat)

  /** A registration: the digits of a block, the halves it fills, and its region. */
  datatype Reg = Reg(path: seq<nat>, kind: Kind, region: Region)

  predicate PathOk(sh: Shape, h: nat, path: seq<nat>) {
    && |path| == h + 1
    && (forall k :: 0 <= k < h ==> path[k] < sh.fan)
    && path[h] < sh.leaf
  }

  // ----- one registration -----

  function Fill(s: Slot, kind: Kind, r: Region): Slot {
    var s1 := if kind.SetsHigh() then s.(highAddr := r.start, highReg := Some(r)) else s;
    if kind.SetsLow() then s1.(lowAddr := r.end, lowReg := Some(r)) else s1
  }

  function Clear(s: Slot, kind: Kind): Slot {
    var s1 := if kind.SetsHigh() then s.(highAddr := 0, highReg := None) else s;
    if kind.SetsLow() then s1.(lowAddr := 0, lowReg := None) else s1
  }

  ghost predicate WellShaped(sh: Shape, h: nat, t: Tree) {
    match t.below
    case Null => true
    case Kids(kids) => 0 < h && |kids| == sh.fan && forall i :: 0 <= i < |kids| ==> WellShaped(sh, h - 1, kids[i])
    case Slots(slots) => h == 0 && |slots| == sh.leaf
  }

  /** The walk of addRegion down to one leaf entry: allocate what is missing, count, fill. */
  function Insert(sh: Shape, h: nat, t: Tree, path: seq<nat>, kind: Kind, r: Region): (t': Tree)
    requires WellShaped(sh, h, t) && PathOk(sh, h, path)
    ensures WellShaped(sh, h, t')
    decreases h
  {
    if h == 0 then
      var slots := if t.below.Null? then seq(sh.leaf, _ => NO_SLOT) else t.below.slots;
      Tree(t.refcount + 1, Slots(slots[path[0] := Fill(slots[path[0]], kind, r)]))
    else
      var kids := if t.below.Null? then seq(sh.fan, _ => BARE) else t.below.kids;
      Tree(t.refcount + 1, Kids(kids[path[0] := Insert(sh, h - 1, kids[path[0]], path[1..], kind, r)]))
  }

  /** A tree in which the path's arrays are all there and every counter on it is positive. */
  ghost predicate Reaches(sh: Shape, h: nat, t: Tree, path: seq<nat>)
    requires WellShaped(sh, h, t) && PathOk(sh, h, path)
    decreases h
  {
    0 < t.refcount && !t.below.Null? && (0 < h ==> Reaches(sh, h - 1, t.below.kids[path[0]], path[1..]))
  }

  /** recursiveDelete: clear, count down, free the array when the count reaches zero. */
  function Delete(sh: Shape, h: nat, t: Tree, path: seq<nat>, kind: Kind): (t': Tree)
    requires WellShaped(sh, h, t) && PathOk(sh, h, path) && Reaches(sh, h, t, path)
    ensures WellShaped(sh, h, t')
    decreases h
  {
    var below :=
      if h == 0 then Slots(t.below.slots[path[0] := Clear(t.below.slots[path[0]], kind)])
      else Kids(t.below.kids[path[0] := Delete(sh, h - 1, t.below.kids[path[0]], path[1..], kind)]);
    Tree(t.refcount - 1, if t.refcount == 1 then Null else below)
  }

  // ----- the canonical tree of a set of registrations -----

  /** The registrations in child i, seen from there. */
  ghost function Sub(regs: set<Reg>, i: nat): set<Reg> {
    set r | r in regs && |r.path| > 0 && r.path[0] == i :: r.(path := r.path[1..])
  }

  /** Two registrations do not fill the same half of the same entry. */
  ghost predicate Apart(r: Reg, q: Reg) {
    r.path == q.path && r != q ==>
      !(r.kind.SetsHigh() && q.kind.SetsHigh()) && !(r.kind.SetsLow() && q.kind.SetsLow())
  }

  ghost predicate Separate(regs: set<Reg>) {
    forall r, q {:trigger Apart(r, q)} :: r in regs && q in regs ==> Apart(r, q)
  }

  ghost predicate PathsOk(sh: Shape, h: nat, regs: set<Reg>) {
    forall r {:trigger PathOk(sh, h, r.path)} :: r in regs ==> PathOk(sh, h, r.path)
  }

  /** p can be registered beside the others. */
  ghost predicate Joins(sh: Shape, h: nat, regs: set<Reg>, p: Reg) {
    p !in regs && PathOk(sh, h, p.path) && PathsOk(sh, h, regs + {p}) && Separate(regs + {p})
  }

  ghost function HighOf(regs: set<Reg>): Option<Region> {
    if exists r :: r in regs && r.kind.SetsHigh()
    then (var r :| r in regs && r.kind.SetsHigh(); Some(r.region)) else None
  }

  ghost function LowOf(regs: set<Reg>): Option<Region> {
    if exists r :: r in regs && r.kind.SetsLow()
    then (var r :| r in regs && r.kind.SetsLow(); Some(r.region)) else None
  }

  ghost function SlotOf(regs: set<Reg>): Slot {
    var high, low := HighOf(regs), LowOf(regs);
    Slot(if low.Some? then low.value.end else 0, if high.Some? then high.value.start else 0, low, high)
  }

  /** The number of registrations, counted one by one. */
  ghost function Count(regs: set<Reg>): nat {
    if regs == {} then 0 else
      var r :| r in regs;
      1 + Count(regs - {r})
  }

  lemma {:induction false} CountIs(regs: set<Reg>)
    ensures Count(regs) == |regs|
  {
    if regs != {} {
      var r :| r in regs && Count(regs) == 1 + Count(regs - {r});
      CountIs(regs - {r});
    }
  }

  lemma CountAdd(regs: set<Reg>, r: Reg)
    requires r !in regs
    ensures Count(regs + {r}) == Count(regs) + 1 && (Count(regs) == 0 <==> regs == {})
  {
    CountIs(regs);
    CountIs(regs + {r});
  }

  /** t holds exactly these registrations: counters are cardinalities, and an array exists exactly where
      something is registered. */
  ghost predicate IsCanon(sh: Shape, h: nat, t: Tree, regs: set<Reg>)
    decreases h
  {
    && WellShaped(sh, h, t) && t.refcount == Count(regs) && (t.below.Null? <==> regs == {})
    && (t.below.Slots? ==> forall i :: 0 <= i < |t.below.slots| ==> t.below.slots[i] == SlotOf(Sub(regs, i)))
    && (t.below.Kids? ==> forall i :: 0 <= i < |t.below.kids| ==> IsCanon(sh, h - 1, t.below.kids[i], Sub(regs, i)))
  }

  /** There is only one such tree, so a tree depends on nothing but what is registered. */
  lemma {:induction false} CanonUnique(sh: Shape, h: nat, t: Tree, t': Tree, regs: set<Reg>)
    requires IsCanon(sh, h, t, regs) && IsCanon(sh, h, t', regs)
    ensures t == t'
    decreases h
  {
    if t.below.Kids? {
      forall i | 0 <= i < |t.below.kids| ensures t.below.kids[i] == t'.below.kids[i] {
        CanonUnique(sh, h - 1, t.below.kids[i], t'.below.kids[i], Sub(regs, i));
      }
      assert t.below.kids == t'.below.kids;
    } else if t.below.Slots? {
      assert t.below.slots == t'.below.slots;
    }
  }

  lemma SubEmpty(i: nat)
    ensures Sub({}, i) == {}
  {
  }

  lemma SubAdd(regs: set<Reg>, r: Reg, i: nat)
    requires |r.path| > 0
    ensures Sub(regs + {r}, i) == if r.path[0] == i then Sub(regs, i) + {r.(path := r.path[1..])} else Sub(regs, i)
  {
  }

  lemma SubHas(regs: set<Reg>, r: Reg)
    requires |r.path| > 0
    requires forall q :: q in regs ==> |q.path| > 0
    ensures r in regs <==> r.(path := r.path[1..]) in Sub(regs, r.path[0])
  {
    if r.(path := r.path[1..]) in Sub(regs, r.path[0]) {
      var q :| q in regs && q.path[0] == r.path[0] && q.(path := q.path[1..]) == r.(path := r.path[1..]);
      assert q.path == [q.path[0]] + q.path[1..] == r.path;
      assert q == r;
    }
  }

  lemma SubPaths(sh: Shape, h: nat, regs: set<Reg>, i: nat)
    requires PathsOk(sh, h, regs)
    ensures 0 < h ==> PathsOk(sh, h - 1, Sub(regs, i))
    ensures h == 0 ==> forall r :: r in Sub(regs, i) ==> r.path == []
  {
    forall r' | r' in Sub(regs, i) ensures if h == 0 then r'.path == [] else PathOk(sh, h - 1, r'.path) {
      var r :| r in regs && |r.path| > 0 && r.path[0] == i && r' == r.(path := r.path[1..]);
      assert PathOk(sh, h, r.path);
    }
  }

  lemma SubOk(sh: Shape, h: nat, regs: set<Reg>, i: nat)
    requires PathsOk(sh, h, regs) && Separate(regs)
    ensures Separate(Sub(regs, i))
    ensures 0 < h ==> PathsOk(sh, h - 1, Sub(regs, i))
    ensures h == 0 ==> forall r :: r in Sub(regs, i) ==> r.path == []
  {
    forall r', q' | r' in Sub(regs, i) && q' in Sub(regs, i) ensures Apart(r', q') {
      var r :| r in regs && |r.path| > 0 && r.path[0] == i && r' == r.(path := r.path[1..]);
      var q :| q in regs && |q.path| > 0 && q.path[0] == i && q' == q.(path := q.path[1..]);
      assert Apart(r, q);
      assert r.path == [i] + r'.path && q.path == [i] + q'.path;
    }
    SubPaths(sh, h, regs, i);
  }

  /** With at most one registration per half, the half holds that registration's region. */
  lemma HalfIs(regs: set<Reg>, r: Reg)
    requires Separate(regs) && r in regs && forall q :: q in regs ==> q.path == []
    ensures r.kind.SetsHigh() ==> HighOf(regs) == Some(r.region)
    ensures r.kind.SetsLow() ==> LowOf(regs) == Some(r.region)
  {
    assert forall q :: q in regs ==> Apart(q, r);
  }

  lemma SlotAdd(regs: set<Reg>, r: Reg)
    requires Separate(regs + {r}) && forall q :: q in regs + {r} ==> q.path == []
    ensures SlotOf(regs + {r}) == Fill(SlotOf(regs), r.kind, r.region)
  {
    HalfIs(regs + {r}, r);
    if !r.kind.SetsHigh() && HighOf(regs).Some? {
      var q :| q in regs && q.kind.SetsHigh();
      HalfIs(regs + {r}, q);
      HalfIs(regs, q);
    }
    if !r.kind.SetsLow() && LowOf(regs).Some? {
      var q :| q in regs && q.kind.SetsLow();
      HalfIs(regs + {r}, q);
      HalfIs(regs, q);
    }
  }

  lemma SlotRemove(regs: set<Reg>, r: Reg)
    requires Separate(regs + {r}) && r !in regs && forall q :: q in regs + {r} ==> q.path == []
    ensures Clear(SlotOf(regs + {r}), r.kind) == SlotOf(regs)
  {
    SlotAdd(regs, r);
    assert forall q :: q in regs ==> q in regs + {r} && Apart(q, r);
    assert r in regs + {r};
  }

  /** What one registration means for child i: nothing, or the same thing one level down. */
  lemma SubStep(sh: Shape, h: nat, regs: set<Reg>, r: Reg)
    requires Joins(sh, h, regs, r)
    ensures var i, r' := r.path[0], r.(path := r.path[1..]);
      && Sub(regs + {r}, i) == Sub(regs, i) + {r'}
      && (0 < h ==> Joins(sh, h - 1, Sub(regs, i), r'))
      && (h == 0 ==> r' !in Sub(regs, i) && Separate(Sub(regs, i) + {r'}))
      && (h == 0 ==> forall q :: q in Sub(regs, i) + {r'} ==> q.path == [])
  {
    var i, r' := r.path[0], r.(path := r.path[1..]);
    forall q | q in regs ensures |q.path| > 0 {
      assert q in regs + {r} && PathOk(sh, h, q.path);
    }
    SubAdd(regs, r, i);
    SubHas(regs, r);
    SubOk(sh, h, regs + {r}, i);
    assert 0 < h ==> PathOk(sh, h - 1, r'.path);
  }

  lemma SubOthers(regs: set<Reg>, r: Reg)
    requires |r.path| > 0
    ensures forall j: nat :: j != r.path[0] ==> Sub(regs + {r}, j) == Sub(regs, j)
  {
    forall j: nat | j != r.path[0] ensures Sub(regs + {r}, j) == Sub(regs, j) {
      SubAdd(regs, r, j);
    }
  }

  /** The array of a leaf, or what calloc provides in its place. */
  function SlotsOf(sh: Shape, t: Tree): seq<Slot>
    requires WellShaped(sh, 0, t)
  {
    if t.below.Null? then seq(sh.leaf, _ => NO_SLOT) else t.below.slots
  }

  function KidsOf(sh: Shape, h: nat, t: Tree): seq<Tree>
    requires WellShaped(sh, h, t) && 0 < h
  {
    if t.below.Null? then seq(sh.fan, _ => BARE) else t.below.kids
  }

  lemma CanonSlots(sh: Shape, t: Tree, regs: set<Reg>)
    requires IsCanon(sh, 0, t, regs)
    ensures |SlotsOf(sh, t)| == sh.leaf && forall i :: 0 <= i < sh.leaf ==> SlotsOf(sh, t)[i] == SlotOf(Sub(regs, i))
  {
    forall i: nat ensures Sub({}, i) == {} {
      SubEmpty(i);
    }
  }

  lemma CanonKids(sh: Shape, h: nat, t: Tree, regs: set<Reg>)
    requires IsCanon(sh, h, t, regs) && 0 < h
    ensures |KidsOf(sh, h, t)| == sh.fan
    ensures forall i :: 0 <= i < sh.fan ==> IsCanon(sh, h - 1, KidsOf(sh, h, t)[i], Sub(regs, i))
  {
    if t.below.Null? {
      forall i: nat ensures Sub({}, i) == {} {
        SubEmpty(i);
      }
    }
  }

  lemma {:induction false} InsertCanon(sh: Shape, h: nat, t: Tree, regs: set<Reg>, r: Reg)
    requires IsCanon(sh, h, t, regs) && Joins(sh, h, regs, r)
    ensures IsCanon(sh, h, Insert(sh, h, t, r.path, r.kind, r.region), regs + {r})
    decreases h
  {
    CountAdd(regs, r);
    SubStep(sh, h, regs, r);
    SubOthers(regs, r);
    var i, r' := r.path[0], r.(path := r.path[1..]);
    if h == 0 {
      CanonSlots(sh, t, regs);
      SlotAdd(Sub(regs, i), r');
    } else {
      CanonKids(sh, h, t, regs);
      InsertCanon(sh, h - 1, KidsOf(sh, h, t)[i], Sub(regs, i), r');
    }
  }

  lemma {:induction false} CanonReaches(sh: Shape, h: nat, t: Tree, regs: set<Reg>, r: Reg)
    requires IsCanon(sh, h, t, regs) && r in regs && PathOk(sh, h, r.path)
    ensures Reaches(sh, h, t, r.path)
    decreases h
  {
    if 0 < h {
      var i, r' := r.path[0], r.(path := r.path[1..]);
      assert r' in Sub(regs, i);
      CanonReaches(sh, h - 1, t.below.kids[i], Sub(regs, i), r');
    }
  }

  lemma {:induction false} DeleteCanon(sh: Shape, h: nat, t: Tree, regs: set<Reg>, r: Reg)
    requires IsCanon(sh, h, t, regs + {r}) && Joins(sh, h, regs, r)
    ensures Reaches(sh, h, t, r.path) && IsCanon(sh, h, Delete(sh, h, t, r.path, r.kind), regs)
    decreases h
  {
    CanonReaches(sh, h, t, regs + {r}, r);
    CountAdd(regs, r);
    SubStep(sh, h, regs, r);
    SubOthers(regs, r);
    var i, r' := r.path[0], r.(path := r.path[1..]);
    if h == 0 {
      SlotRemove(Sub(regs, i), r');
    } else {
      DeleteCanon(sh, h - 1, t.below.kids[i], Sub(regs, i), r');
    }
  }

  // ----- blocks and their digits -----

  /** A tree of the given shape and depth over blocks of blockSize addresses. */
  datatype Geometry = Geometry(shape: Shape, depth: nat, blockSize: nat) {
    predicate Ok() { 0 < shape.fan && 0 < shape.leaf && 0 < blockSize }

    function Blocks(): nat { Cap(shape, depth) }

    function Path(b: nat): seq<nat>
      requires Ok()
    {
      PathOf(shape, depth, b)
    }
  }

  function Cap(sh: Shape, h: nat): nat {
    if h == 0 then sh.leaf else sh.fan * Cap(sh, h - 1)
  }

  lemma CapPositive(sh: Shape, h: nat)
    requires 0 < sh.fan && 0 < sh.leaf
    ensures 0 < Cap(sh, h)
  {
  }

  /** The indices that the masks and shifts cut out of an address in block b, from the root down. */
  function PathOf(sh: Shape, h: nat, b: nat): (path: seq<nat>)
    requires 0 < sh.fan && 0 < sh.leaf
    ensures PathOk(sh, h, path)
  {
    if h == 0 then [b % sh.leaf]
    else
      CapPositive(sh, h - 1);
      [(b / Cap(sh, h - 1)) % sh.fan] + PathOf(sh, h - 1, b)
  }

  lemma Distribute(x: nat, f: nat, y: nat, c: nat)
    ensures (x * f + y) * c == x * (f * c) + y * c
  {
  }

  lemma ModSplit(b: nat, f: nat, c: nat)
    requires 0 < f && 0 < c
    ensures 0 < f * c && b % (f * c) == ((b / c) % f) * c + b % c
  {
    var q, r := b / c, b % c;
    var x, y := q / f, q % f;
    Distribute(x, f, y, c);
    MulMono(y, f, c);
    ModUnique(b, x, f * c, y * c + r);
  }

  lemma {:induction false} PathInjective(sh: Shape, h: nat, b: nat, c: nat)
    requires 0 < sh.fan && 0 < sh.leaf && PathOf(sh, h, b) == PathOf(sh, h, c)
    ensures 0 < Cap(sh, h) && b % Cap(sh, h) == c % Cap(sh, h)
  {
    CapPositive(sh, h);
    if h != 0 {
      CapPositive(sh, h - 1);
      assert PathOf(sh, h, b)[1..] == PathOf(sh, h - 1, b) && PathOf(sh, h, c)[1..] == PathOf(sh, h - 1, c);
      assert PathOf(sh, h, b)[0] == PathOf(sh, h, c)[0];
      PathInjective(sh, h - 1, b, c);
      ModSplit(b, sh.fan, Cap(sh, h - 1));
      ModSplit(c, sh.fan, Cap(sh, h - 1));
    }
  }

  // ----- the registrations of the live regions -----

  /** What addRegion registers for r in block j, if anything. */
  function KindAt(size: nat, r: Region, j: nat): Option<Kind>
    requires 0 < size
  {
    if j == Div(r.start, size) then if Mod(r.start, size) == 0 then None else Some(High)
    else if Div(r.start, size) < j < Div(r.end, size) then Some(Both)
    else if j == Div(r.end, size) && Mod(r.end, size) != 0 then Some(Low)
    else None
  }

  /** A registration fills the high half only if the block's last address is in the region, and
      the low half only if its first address is. */
  lemma Anchors(size: nat, r: Region, j: nat)
    requires 0 < size && r.start + size <= r.end && KindAt(size, r, j).Some?
    ensures KindAt(size, r, j).value.SetsHigh() ==> r.Contains(j * size + size - 1)
    ensures KindAt(size, r, j).value.SetsLow() ==> r.Contains(j * size)
    ensures Div(r.start, size) < Div(r.end, size) && j <= Div(r.end, size) && j * size < r.end
  {
    var a, b := Div(r.start, size), Div(r.end, size);
    BlockOrder(size, r);
    DivMod(r.start, size);
    DivMod(r.end, size);
    if a < j { MulMono(a, j, size); }
    if j < b { MulMono(j, b, size); }
  }

  ghost function RegAt(g: Geometry, r: Region, j: nat): Reg
    requires g.Ok() && KindAt(g.blockSize, r, j).Some?
  {
    Reg(g.Path(j), KindAt(g.blockSize, r, j).value, r)
  }

  ghost function RegsOf(g: Geometry, r: Region): set<Reg>
    requires g.Ok()
  {
    set j: nat | j < Div(r.end, g.blockSize) + 1 && KindAt(g.blockSize, r, j).Some? :: RegAt(g, r, j)
  }

  ghost function AllRegs(g: Geometry, live: set<Region>): set<Reg>
    requires g.Ok()
  {
    set r, q | r in live && q in RegsOf(g, r) :: q
  }

  /** A region is at least a block long and inside the window. */
  ghost predicate Sized(g: Geometry, r: Region) { r.start + g.blockSize <= r.end <= g.Blocks() * g.blockSize }

  ghost predicate Separated(r: Region, q: Region) { r == q || r.end <= q.start || q.end <= r.start }

  /** Live regions are disjoint, too. */
  ghost predicate LiveOk(g: Geometry, live: set<Region>)
    requires g.Ok()
  {
    && (forall r {:trigger Sized(g, r)} :: r in live ==> Sized(g, r))
    && (forall r, q {:trigger Separated(r, q)} :: r in live && q in live ==> Separated(r, q))
  }

  lemma BlockInWindow(g: Geometry, r: Region, j: nat)
    requires g.Ok() && r.start + g.blockSize <= r.end <= g.Blocks() * g.blockSize
    requires KindAt(g.blockSize, r, j).Some?
    ensures j < g.Blocks()
  {
    Anchors(g.blockSize, r, j);
    if g.Blocks() < j { MulMono(g.Blocks(), j, g.blockSize); }
  }

  lemma SamePathSameBlock(g: Geometry, j: nat, k: nat)
    requires g.Ok() && j < g.Blocks() && k < g.Blocks()
    ensures g.Path(j) == g.Path(k) ==> j == k
  {
    if g.Path(j) == g.Path(k) {
      PathInjective(g.shape, g.depth, j, k);
      ModUnique(j, 0, g.Blocks(), j);
      ModUnique(k, 0, g.Blocks(), k);
    }
  }

  lemma AllRegsOk(g: Geometry, live: set<Region>)
    requires g.Ok() && LiveOk(g, live)
    ensures PathsOk(g.shape, g.depth, AllRegs(g, live)) && Separate(AllRegs(g, live))
  {
    forall p, q | p in AllRegs(g, live) && q in AllRegs(g, live) ensures Apart(p, q) {
      var j := BlockOf(g, live, p);
      var k := BlockOf(g, live, q);
      if p.path == q.path {
        assert Sized(g, p.region) && Sized(g, q.region) && Separated(p.region, q.region);
        Anchors(g.blockSize, p.region, j);
        Anchors(g.blockSize, q.region, k);
        SamePathSameBlock(g, j, k);
      }
    }
  }

  /** The block a registration stands for. */
  lemma BlockOf(g: Geometry, live: set<Region>, p: Reg) returns (j: nat)
    requires g.Ok() && LiveOk(g, live) && p in AllRegs(g, live)
    ensures p.region in live && KindAt(g.blockSize, p.region, j) == Some(p.kind)
    ensures j < g.Blocks() && p.path == g.Path(j)
  {
    var r :| r in live && p in RegsOf(g, r);
    j :| j < Div(r.end, g.blockSize) + 1 && KindAt(g.blockSize, r, j).Some?
         && p == RegAt(g, r, j);
    assert Sized(g, r);
    BlockInWindow(g, r, j);
  }

  // ----- one region more or less, block by block -----

  /** p is what r registers in block j. */
  ghost predicate Makes(g: Geometry, r: Region, j: nat, p: Reg)
    requires g.Ok()
  {
    KindAt(g.blockSize, r, j).Some? && p == RegAt(g, r, j)
  }

  /** The registrations in base and those of r in the blocks below n. */
  ghost function With(g: Geometry, base: set<Reg>, r: Region, n: nat): set<Reg>
    requires g.Ok()
  {
    if n == 0 then base
    else if KindAt(g.blockSize, r, n - 1).Some? then With(g, base, r, n - 1) + {RegAt(g, r, n - 1)}
    else With(g, base, r, n - 1)
  }

  /** The registrations in base and those of r in the blocks [n, end). */
  ghost function Tail(g: Geometry, base: set<Reg>, r: Region, n: nat, end: nat): set<Reg>
    requires g.Ok()
    decreases end - n
  {
    if end <= n then base
    else if KindAt(g.blockSize, r, n).Some? then Tail(g, base, r, n + 1, end) + {RegAt(g, r, n)}
    else Tail(g, base, r, n + 1, end)
  }

  lemma {:induction false} WithHas(g: Geometry, base: set<Reg>, r: Region, n: nat, p: Reg)
    requires g.Ok()
    ensures p in With(g, base, r, n) <==> p in base || exists j: nat :: j < n && Makes(g, r, j, p)
  {
    if n != 0 {
      WithHas(g, base, r, n - 1, p);
      assert KindAt(g.blockSize, r, n - 1).Some? && p == RegAt(g, r, n - 1) <==> Makes(g, r, n - 1, p);
    }
  }

  lemma {:induction false} TailHas(g: Geometry, base: set<Reg>, r: Region, n: nat, end: nat, p: Reg)
    requires g.Ok()
    ensures p in Tail(g, base, r, n, end) <==> p in base || exists j: nat :: n <= j < end && Makes(g, r, j, p)
    decreases end - n
  {
    if n < end {
      TailHas(g, base, r, n + 1, end, p);
      assert KindAt(g.blockSize, r, n).Some? && p == RegAt(g, r, n) <==> Makes(g, r, n, p);
    }
  }

  lemma AllHas(g: Geometry, live: set<Region>, r: Region, p: Reg)
    requires g.Ok()
    ensures p in AllRegs(g, live + {r}) <==>
      p in AllRegs(g, live) || exists j: nat :: j < Div(r.end, g.blockSize) + 1 && Makes(g, r, j, p)
  {
    var n := Div(r.end, g.blockSize) + 1;
    if p in RegsOf(g, r) {
      var j: nat :| j < n && KindAt(g.blockSize, r, j).Some? && p == RegAt(g, r, j);
      assert Makes(g, r, j, p);
    }
    if exists j: nat :: j < n && Makes(g, r, j, p) {
      var j: nat :| j < n && Makes(g, r, j, p);
      assert RegAt(g, r, j) in RegsOf(g, r);
      assert r in live + {r};
    }
  }

  /** Both are the registrations of the live regions with r. */
  lemma WithAll(g: Geometry, live: set<Region>, r: Region)
    requires g.Ok()
    ensures With(g, AllRegs(g, live), r, Div(r.end, g.blockSize) + 1) == AllRegs(g, live + {r})
    ensures Tail(g, AllRegs(g, live), r, 0, Div(r.end, g.blockSize) + 1) == AllRegs(g, live + {r})
  {
    var base, n := AllRegs(g, live), Div(r.end, g.blockSize) + 1;
    forall p ensures p in With(g, base, r, n) <==> p in AllRegs(g, live + {r}) {
      WithHas(g, base, r, n, p);
      AllHas(g, live, r, p);
    }
    forall p ensures p in Tail(g, base, r, 0, n) <==> p in AllRegs(g, live + {r}) {
      TailHas(g, base, r, 0, n, p);
      AllHas(g, live, r, p);
    }
  }

  /** A registration of r joins any others that are live, or r's own of other blocks. */
  lemma RegJoins(g: Geometry, live: set<Region>, r: Region, regs: set<Reg>, j: nat)
    requires g.Ok() && LiveOk(g, live + {r}) && r !in live && KindAt(g.blockSize, r, j).Some?
    requires forall p :: p in regs ==> p in AllRegs(g, live) || exists k: nat :: k != j && Makes(g, r, k, p)
    ensures Joins(g.shape, g.depth, regs, RegAt(g, r, j))
  {
    var p, all := RegAt(g, r, j), AllRegs(g, live + {r});
    AllRegsOk(g, live + {r});
    assert r in live + {r};
    forall q | q in regs + {p} ensures q in all && (q in regs ==> q != p) {
      RegOther(g, live, r, q, j);
    }
    assert forall q :: q in regs + {p} && PathOk(g.shape, g.depth, q.path) ==> q in all;
  }

  lemma RegOther(g: Geometry, live: set<Region>, r: Region, q: Reg, j: nat)
    requires g.Ok() && LiveOk(g, live + {r}) && r !in live && KindAt(g.blockSize, r, j).Some?
    requires q == RegAt(g, r, j) || q in AllRegs(g, live) || exists k: nat :: k != j && Makes(g, r, k, q)
    ensures q in AllRegs(g, live + {r})
    ensures q in AllRegs(g, live) || (exists k: nat :: k != j && Makes(g, r, k, q)) ==> q != RegAt(g, r, j)
  {
    assert r in live + {r} && Sized(g, r);
    AllHas(g, live, r, q);
    if q in AllRegs(g, live) {
      assert q.region in live;
    } else if exists k: nat :: k != j && Makes(g, r, k, q) {
      var k: nat :| k != j && Makes(g, r, k, q);
      Anchors(g.blockSize, r, k);
      BlockInWindow(g, r, j);
      BlockInWindow(g, r, k);
      SamePathSameBlock(g, j, k);
    } else {
      Anchors(g.blockSize, r, j);
      assert Makes(g, r, j, q);
    }
  }

  /** Every registration of r joins those before it. */
  ghost predicate Joining(g: Geometry, base: set<Reg>, r: Region, end: nat)
    requires g.Ok()
  {
    forall j: nat {:trigger With(g, base, r, j)} :: j < end && KindAt(g.blockSize, r, j).Some? ==>
      Joins(g.shape, g.depth, With(g, base, r, j), RegAt(g, r, j))
  }

  /** Every registration of r joins those behind it. */
  ghost predicate Leaving(g: Geometry, base: set<Reg>, r: Region, end: nat)
    requires g.Ok()
  {
    forall j: nat {:trigger Tail(g, base, r, j, end)} :: 0 < j <= end && KindAt(g.blockSize, r, j - 1).Some? ==>
      Joins(g.shape, g.depth, Tail(g, base, r, j, end), RegAt(g, r, j - 1))
  }

  lemma WithJoins(g: Geometry, live: set<Region>, r: Region, j: nat)
    requires g.Ok() && LiveOk(g, live + {r}) && r !in live && KindAt(g.blockSize, r, j).Some?
    ensures Joins(g.shape, g.depth, With(g, AllRegs(g, live), r, j), RegAt(g, r, j))
  {
    var base := AllRegs(g, live);
    var regs := With(g, base, r, j);
    forall p | p in regs ensures p in base || exists k: nat :: k != j && Makes(g, r, k, p) {
      WithHas(g, base, r, j, p);
    }
    RegJoins(g, live, r, regs, j);
  }

  lemma TailJoins(g: Geometry, live: set<Region>, r: Region, j: nat, end: nat)
    requires g.Ok() && LiveOk(g, live + {r}) && r !in live && KindAt(g.blockSize, r, j).Some?
    ensures Joins(g.shape, g.depth, Tail(g, AllRegs(g, live), r, j + 1, end), RegAt(g, r, j))
  {
    var base := AllRegs(g, live);
    var regs := Tail(g, base, r, j + 1, end);
    forall p | p in regs ensures p in base || exists k: nat :: k != j && Makes(g, r, k, p) {
      TailHas(g, base, r, j + 1, end, p);
    }
    RegJoins(g, live, r, regs, j);
  }

  lemma LiveJoins(g: Geometry, live: set<Region>, r: Region, base: set<Reg>, end: nat)
    requires g.Ok() && LiveOk(g, live + {r}) && r !in live && base == AllRegs(g, live)
    ensures Joining(g, base, r, end)
  {
    forall j: nat | j < end && KindAt(g.blockSize, r, j).Some?
      ensures Joins(g.shape, g.depth, With(g, base, r, j), RegAt(g, r, j))
    {
      WithJoins(g, live, r, j);
    }
  }

  lemma LiveLeaves(g: Geometry, live: set<Region>, r: Region, base: set<Reg>, end: nat)
    requires g.Ok() && LiveOk(g, live + {r}) && r !in live && base == AllRegs(g, live)
    ensures Leaving(g, base, r, end)
  {
    forall j: nat | 0 < j <= end && KindAt(g.blockSize, r, j - 1).Some?
      ensures Joins(g.shape, g.depth, Tail(g, base, r, j, end), RegAt(g, r, j - 1))
    {
      TailJoins(g, live, r, j - 1, end);
    }
  }

  // ----- lookup -----

  /** The leaf entry that a walk along path reaches; an unused one if the walk stops early. */
  function SlotAt(sh: Shape, h: nat, t: Tree, path: seq<nat>): Slot
    requires WellShaped(sh, h, t) && PathOk(sh, h, path)
    decreases h
  {
    if t.below.Null? then NO_SLOT
    else if h == 0 then t.below.slots[path[0]]
    else SlotAt(sh, h - 1, t.below.kids[path[0]], path[1..])
  }

  /** The three tests at the end of getRegion. */
  function Choose(s: Slot, a: nat): Option<Region> {
    if a >= s.highAddr then s.highReg else if a < s.lowAddr then s.lowReg else None
  }

  ghost function AtPath(regs: set<Reg>, path: seq<nat>): set<Reg> {
    set r | r in regs && r.path == path :: r.(path := [])
  }

  lemma AtPathSub(regs: set<Reg>, path: seq<nat>)
    requires |path| > 0
    ensures AtPath(Sub(regs, path[0]), path[1..]) == AtPath(regs, path)
  {
    forall q | q in AtPath(regs, path) ensures q in AtPath(Sub(regs, path[0]), path[1..]) {
      var r :| r in regs && r.path == path && q == r.(path := []);
      assert r.(path := r.path[1..]) in Sub(regs, path[0]);
    }
    forall q | q in AtPath(Sub(regs, path[0]), path[1..]) ensures q in AtPath(regs, path) {
      var r' :| r' in Sub(regs, path[0]) && r'.path == path[1..] && q == r'.(path := []);
      var r :| r in regs && |r.path| > 0 && r.path[0] == path[0] && r' == r.(path := r.path[1..]);
      assert r.path == [path[0]] + path[1..] == path;
    }
  }

  lemma {:induction false} SlotAtCanon(sh: Shape, h: nat, t: Tree, regs: set<Reg>, path: seq<nat>)
    requires IsCanon(sh, h, t, regs) && PathsOk(sh, h, regs) && PathOk(sh, h, path)
    ensures SlotAt(sh, h, t, path) == SlotOf(AtPath(regs, path))
    decreases h
  {
    var i := path[0];
    AtPathSub(regs, path);
    SubPaths(sh, h, regs, i);
    if regs == {} {
      assert AtPath(regs, path) == {};
    } else if h == 0 {
      assert AtPath(Sub(regs, i), path[1..]) == Sub(regs, i);
    } else {
      SlotAtCanon(sh, h - 1, t.below.kids[i], Sub(regs, i), path[1..]);
    }
  }

  /** The registrations found at block j are those that some live region makes there. */
  lemma AtBlock(g: Geometry, live: set<Region>, j: nat, p: Reg)
    requires g.Ok() && LiveOk(g, live) && j < g.Blocks()
    ensures p in AtPath(AllRegs(g, live), g.Path(j))
       <==> p.path == [] && p.region in live && KindAt(g.blockSize, p.region, j) == Some(p.kind)
  {
    if p in AtPath(AllRegs(g, live), g.Path(j)) {
      var q :| q in AllRegs(g, live) && q.path == g.Path(j) && p == q.(path := []);
      var k := BlockOf(g, live, q);
      SamePathSameBlock(g, j, k);
    }
    if p.path == [] && p.region in live && KindAt(g.blockSize, p.region, j) == Some(p.kind) {
      assert Sized(g, p.region);
      Anchors(g.blockSize, p.region, j);
      var q := RegAt(g, p.region, j);
      assert q in RegsOf(g, p.region);
      assert q in AllRegs(g, live) && p == q.(path := []);
    }
  }

  /** A half of block j's entry holds r exactly when r registers that half there. */
  lemma Halves(g: Geometry, live: set<Region>, j: nat, r: Region)
    requires g.Ok() && LiveOk(g, live) && j < g.Blocks()
    ensures var s, kind := SlotOf(AtPath(AllRegs(g, live), g.Path(j))), KindAt(g.blockSize, r, j);
      && (s.highReg == Some(r) <==> r in live && kind.Some? && kind.value.SetsHigh())
      && (s.lowReg == Some(r) <==> r in live && kind.Some? && kind.value.SetsLow())
  {
    var regs := AtPath(AllRegs(g, live), g.Path(j));
    forall p ensures p in regs <==>
      p.path == [] && p.region in live && KindAt(g.blockSize, p.region, j) == Some(p.kind)
    {
      AtBlock(g, live, j, p);
    }
    AllRegsOk(g, live);
    AtPathSeparate(AllRegs(g, live), g.Path(j));
    if r in live && KindAt(g.blockSize, r, j).Some? {
      HalfIs(regs, Reg([], KindAt(g.blockSize, r, j).value, r));
    }
  }

  lemma AtPathSeparate(regs: set<Reg>, path: seq<nat>)
    requires Separate(regs)
    ensures Separate(AtPath(regs, path))
  {
    forall p, q | p in AtPath(regs, path) && q in AtPath(regs, path) ensures Apart(p, q) {
      var p1 :| p1 in regs && p1.path == path && p == p1.(path := []);
      var q1 :| q1 in regs && q1.path == path && q == q1.(path := []);
      assert Apart(p1, q1);
    }
  }

  /** getRegion finds r at address a: not in an aligned first block, and in a partial last block
      only if another live region starts inside that block. */
  ghost predicate Findable(size: nat, live: set<Region>, r: Region, a: nat)
    requires 0 < size
  {
    var j := a / size;
    || (j == r.start / size && r.start % size != 0)
    || r.start / size < j < r.end / size
    || (j == r.end / size && exists q :: q in live && q.start / size == j && q.start % size != 0)
  }

  /** What r registers in block j answers for it there: the high half, or the low half beside another's high. */
  ghost predicate Answered(size: nat, live: set<Region>, r: Region, j: nat)
    requires 0 < size
  {
    && KindAt(size, r, j).Some?
    && (KindAt(size, r, j).value.SetsHigh() || exists q :: q in live && KindAt(size, q, j) == Some(High))
  }

  lemma FindableIs(size: nat, live: set<Region>, r: Region, a: nat)
    requires 0 < size && r.start + size <= r.end && r.Contains(a)
    ensures Findable(size, live, r, a) <==> Answered(size, live, r, Div(a, size))
  {
    BlockRange(size, r, a);
    DivIs(a, size);
    DivIs(r.start, size);
    DivIs(r.end, size);
    forall q | q in live ensures Div(q.start, size) == q.start / size && Mod(q.start, size) == q.start % size {
      DivIs(q.start, size);
    }
  }

  ghost function EntryOf(g: Geometry, live: set<Region>, a: nat): Slot
    requires g.Ok()
  {
    SlotOf(AtPath(AllRegs(g, live), g.Path(Div(a, g.blockSize))))
  }

  lemma AddressBlock(g: Geometry, a: nat)
    requires g.Ok() && a < g.Blocks() * g.blockSize
    ensures var j := Div(a, g.blockSize); j < g.Blocks() && j * g.blockSize <= a <= j * g.blockSize + g.blockSize - 1
  {
    var j := Div(a, g.blockSize);
    DivMod(a, g.blockSize);
    if g.Blocks() < j { MulMono(g.Blocks(), j, g.blockSize); }
  }

  lemma HighContains(size: nat, r: Region, j: nat, a: nat)
    requires 0 < size && r.start + size <= r.end && KindAt(size, r, j).Some? && KindAt(size, r, j).value.SetsHigh()
    requires r.start <= a <= j * size + size - 1
    ensures r.Contains(a)
  {
    Anchors(size, r, j);
  }

  lemma LowContains(size: nat, r: Region, j: nat, a: nat)
    requires 0 < size && r.start + size <= r.end && KindAt(size, r, j).Some? && KindAt(size, r, j).value.SetsLow()
    requires j * size <= a < r.end
    ensures r.Contains(a)
  {
    Anchors(size, r, j);
  }

  /** An entry whose halves hold live regions that registered them there. */
  ghost predicate Entry(size: nat, live: set<Region>, j: nat, s: Slot)
    requires 0 < size
  {
    && (s.highReg.Some? ==>
          var r := s.highReg.value;
          r in live && s.highAddr == r.start && KindAt(size, r, j).Some? && KindAt(size, r, j).value.SetsHigh())
    && (s.lowReg.Some? ==>
          var r := s.lowReg.value;
          r in live && s.lowAddr == r.end && KindAt(size, r, j).Some? && KindAt(size, r, j).value.SetsLow())
  }

  lemma ChooseSound(size: nat, live: set<Region>, j: nat, s: Slot, a: nat)
    requires 0 < size && Entry(size, live, j, s) && j * size <= a <= j * size + size - 1
    requires forall r :: r in live ==> r.start + size <= r.end
    ensures Choose(s, a).Some? ==> Choose(s, a).value in live && Choose(s, a).value.Contains(a)
  {
    if a >= s.highAddr {
      if s.highReg.Some? {
        HighContains(size, s.highReg.value, j, a);
      }
    } else if a < s.lowAddr && s.lowReg.Some? {
      LowContains(size, s.lowReg.value, j, a);
    }
  }

  lemma EntryHolds(g: Geometry, live: set<Region>, j: nat)
    requires g.Ok() && LiveOk(g, live) && j < g.Blocks()
    ensures Entry(g.blockSize, live, j, SlotOf(AtPath(AllRegs(g, live), g.Path(j))))
  {
    var s := SlotOf(AtPath(AllRegs(g, live), g.Path(j)));
    if s.highReg.Some? {
      Halves(g, live, j, s.highReg.value);
    }
    if s.lowReg.Some? {
      Halves(g, live, j, s.lowReg.value);
    }
  }

  lemma LookupSound(g: Geometry, live: set<Region>, a: nat)
    requires g.Ok() && LiveOk(g, live) && a < g.Blocks() * g.blockSize
    ensures var found := Choose(EntryOf(g, live, a), a);
      found.Some? ==> found.value in live && found.value.Contains(a)
  {
    AddressBlock(g, a);
    var j := Div(a, g.blockSize);
    EntryHolds(g, live, j);
    forall r | r in live ensures r.start + g.blockSize <= r.end {
      assert Sized(g, r);
    }
    ChooseSound(g.blockSize, live, j, EntryOf(g, live, a), a);
  }

  /** Which half of which entry answers for an address of r. */
  lemma LookupExact(g: Geometry, live: set<Region>, r: Region, a: nat)
    requires g.Ok() && LiveOk(g, live) && r in live && r.Contains(a)
    ensures Choose(EntryOf(g, live, a), a) == Some(r) <==> Findable(g.blockSize, live, r, a)
  {
    assert Sized(g, r);
    FindableIs(g.blockSize, live, r, a);
    LookupAnswered(g, live, r, a);
  }

  lemma LookupAnswered(g: Geometry, live: set<Region>, r: Region, a: nat)
    requires g.Ok() && LiveOk(g, live) && r in live && r.Contains(a)
    ensures Choose(EntryOf(g, live, a), a) == Some(r) <==> Answered(g.blockSize, live, r, Div(a, g.blockSize))
  {
    assert Sized(g, r);
    AddressBlock(g, a);
    var size := g.blockSize;
    var j, s := Div(a, size), EntryOf(g, live, a);
    Halves(g, live, j, r);
    BlockRange(size, r, a);
    if s.highReg.Some? {
      var q := s.highReg.value;
      Halves(g, live, j, q);
      assert Sized(g, q) && Separated(r, q);
      Anchors(size, q, j);
    }
    if KindAt(size, r, j) == Some(Low) {
      Anchors(size, r, j);
      LastBlock(g, live, r, j);
    } else if KindAt(size, r, j).None? {
      FirstBlock(g, live, r, a);
    }
  }

  lemma BlockRange(size: nat, r: Region, a: nat)
    requires 0 < size && r.start + size <= r.end && r.Contains(a)
    ensures Div(r.start, size) <= Div(a, size) <= Div(r.end, size)
    ensures Div(a, size) == Div(r.end, size) ==> Mod(r.end, size) != 0
    ensures Div(r.start, size) < Div(r.end, size)
  {
    BlockOrder(size, r);
    var j := Div(a, size);
    DivMod(a, size);
    DivMod(r.start, size);
    DivMod(r.end, size);
    if j < Div(r.start, size) { MulMono(j, Div(r.start, size), size); }
    if Div(r.end, size) < j { MulMono(Div(r.end, size), j, size); }
  }

  lemma StartsIn(size: nat, q: Region, j: nat)
    requires 0 < size && Div(q.start, size) == j
    ensures j * size <= q.start
  {
    DivMod(q.start, size);
  }

  /** Two registrations of the high half and the low half by different regions are in address order. */
  lemma HighAfterLow(g: Geometry, live: set<Region>, r: Region, q: Region, j: nat)
    requires g.Ok() && LiveOk(g, live) && r in live && q in live
    requires KindAt(g.blockSize, r, j) == Some(Low)
    requires KindAt(g.blockSize, q, j).Some? && KindAt(g.blockSize, q, j).value.SetsHigh()
    ensures KindAt(g.blockSize, q, j) == Some(High) && r.end <= q.start
  {
    assert Sized(g, r) && Sized(g, q) && Separated(r, q);
    Anchors(g.blockSize, r, j);
    Anchors(g.blockSize, q, j);
    if KindAt(g.blockSize, q, j) == Some(High) {
      StartsIn(g.blockSize, q, j);
      assert q.Contains(q.start);
    }
  }

  /** In r's partial last block the high half is used exactly when a region starts inside that block. */
  lemma LastBlock(g: Geometry, live: set<Region>, r: Region, j: nat)
    requires g.Ok() && LiveOk(g, live) && r in live && j < g.Blocks() && KindAt(g.blockSize, r, j) == Some(Low)
    ensures var s := SlotOf(AtPath(AllRegs(g, live), g.Path(j)));
      && (s.highReg.Some? <==> exists q :: q in live && KindAt(g.blockSize, q, j) == Some(High))
      && (s.highReg.Some? ==> r.end <= s.highAddr)
  {
    var s := SlotOf(AtPath(AllRegs(g, live), g.Path(j)));
    forall q | q in live && KindAt(g.blockSize, q, j) == Some(High) ensures s.highReg == Some(q) {
      Halves(g, live, j, q);
    }
    if s.highReg.Some? {
      var q := s.highReg.value;
      Halves(g, live, j, q);
      HighAfterLow(g, live, r, q, j);
    }
  }

  lemma AlignedStart(size: nat, r: Region, a: nat)
    requires 0 < size && r.start + size <= r.end && r.Contains(a) && KindAt(size, r, Div(a, size)).None?
    ensures Div(a, size) == Div(r.start, size) < Div(r.end, size) && Mod(r.start, size) == 0
    ensures r.Contains(Div(a, size) * size + size - 1)
  {
    BlockRange(size, r, a);
    DivMod(r.start, size);
  }

  /** In r's aligned first block nothing is registered in the high half. */
  lemma FirstBlock(g: Geometry, live: set<Region>, r: Region, a: nat)
    requires g.Ok() && LiveOk(g, live) && r in live && r.Contains(a) && Div(a, g.blockSize) < g.Blocks()
    requires KindAt(g.blockSize, r, Div(a, g.blockSize)).None?
    ensures Choose(EntryOf(g, live, a), a) != Some(r)
  {
    assert Sized(g, r);
    AlignedStart(g.blockSize, r, a);
    Halves(g, live, Div(a, g.blockSize), r);
  }

  // ----- registering and deleting block by block -----

  /** The registration of r in block j, if it makes one there. */
  function AddAt(g: Geometry, t: Tree, r: Region, j: nat): (t': Tree)
    requires g.Ok() && WellShaped(g.shape, g.depth, t)
    ensures WellShaped(g.shape, g.depth, t')
  {
    var kind := KindAt(g.blockSize, r, j);
    if kind.Some? then Insert(g.shape, g.depth, t, g.Path(j), kind.value, r) else t
  }

  /** The registrations of r in the blocks below n, in order. */
  function AddBelow(g: Geometry, t: Tree, r: Region, n: nat): (t': Tree)
    requires g.Ok() && WellShaped(g.shape, g.depth, t)
    ensures WellShaped(g.shape, g.depth, t')
  {
    if n == 0 then t else AddAt(g, AddBelow(g, t, r, n - 1), r, n - 1)
  }

  /** The deletion of r's registration in block j, if there is one. */
  ghost function DropAt(g: Geometry, t: Tree, r: Region, j: nat): (t': Tree)
    requires g.Ok() && WellShaped(g.shape, g.depth, t)
    ensures WellShaped(g.shape, g.depth, t')
  {
    var kind := KindAt(g.blockSize, r, j);
    if kind.Some? && Reaches(g.shape, g.depth, t, g.Path(j))
    then Delete(g.shape, g.depth, t, g.Path(j), kind.value) else t
  }

  ghost function DropBelow(g: Geometry, t: Tree, r: Region, n: nat): (t': Tree)
    requires g.Ok() && WellShaped(g.shape, g.depth, t)
    ensures WellShaped(g.shape, g.depth, t')
  {
    if n == 0 then t else DropAt(g, DropBelow(g, t, r, n - 1), r, n - 1)
  }

  /** Every deletion below n finds its way: the arrays are there and the counters positive. */
  ghost predicate Droppable(g: Geometry, t: Tree, r: Region, n: nat)
    requires g.Ok() && WellShaped(g.shape, g.depth, t)
  {
    n == 0 || (Droppable(g, t, r, n - 1)
               && (KindAt(g.blockSize, r, n - 1).Some? ==>
                     Reaches(g.shape, g.depth, DropBelow(g, t, r, n - 1), g.Path(n - 1))))
  }

  lemma {:induction false} DroppableAt(g: Geometry, t: Tree, r: Region, n: nat, j: nat)
    requires g.Ok() && WellShaped(g.shape, g.depth, t) && Droppable(g, t, r, n) && j < n
    requires KindAt(g.blockSize, r, j).Some?
    ensures Reaches(g.shape, g.depth, DropBelow(g, t, r, j), g.Path(j))
  {
    if j < n - 1 {
      DroppableAt(g, t, r, n - 1, j);
    }
  }

  /** Below its first block a region registers nothing. */
  lemma {:induction false} NothingBelow(g: Geometry, t: Tree, r: Region, n: nat)
    requires g.Ok() && WellShaped(g.shape, g.depth, t) && n <= Div(r.start, g.blockSize) <= Div(r.end, g.blockSize)
    ensures AddBelow(g, t, r, n) == t && DropBelow(g, t, r, n) == t
  {
    if n != 0 {
      NothingBelow(g, t, r, n - 1);
      assert KindAt(g.blockSize, r, n - 1).None?;
    }
  }

  /** Adding r block by block. */
  lemma {:induction false} AddedCanon(g: Geometry, base: set<Reg>, r: Region, n: nat, end: nat, t: Tree)
    requires g.Ok() && Joining(g, base, r, end) && n <= end && IsCanon(g.shape, g.depth, t, base)
    ensures IsCanon(g.shape, g.depth, AddBelow(g, t, r, n), With(g, base, r, n))
  {
    if n != 0 {
      AddedCanon(g, base, r, n - 1, end, t);
      AddedStep(g, base, r, n, t);
    }
  }

  lemma AddedStep(g: Geometry, base: set<Reg>, r: Region, n: nat, t: Tree)
    requires g.Ok() && WellShaped(g.shape, g.depth, t) && 0 < n
    requires IsCanon(g.shape, g.depth, AddBelow(g, t, r, n - 1), With(g, base, r, n - 1))
    requires KindAt(g.blockSize, r, n - 1).Some? ==>
      Joins(g.shape, g.depth, With(g, base, r, n - 1), RegAt(g, r, n - 1))
    ensures IsCanon(g.shape, g.depth, AddBelow(g, t, r, n), With(g, base, r, n))
  {
    var t', regs := AddBelow(g, t, r, n - 1), With(g, base, r, n - 1);
    if KindAt(g.blockSize, r, n - 1).Some? {
      InsertCanon(g.shape, g.depth, t', regs, RegAt(g, r, n - 1));
    }
    assert AddBelow(g, t, r, n) == AddAt(g, t', r, n - 1);
  }

  /** Deleting r block by block. */
  lemma {:induction false} DroppedCanon(g: Geometry, base: set<Reg>, r: Region, n: nat, end: nat, t: Tree)
    requires g.Ok() && Leaving(g, base, r, end) && n <= end && IsCanon(g.shape, g.depth, t, Tail(g, base, r, 0, end))
    ensures IsCanon(g.shape, g.depth, DropBelow(g, t, r, n), Tail(g, base, r, n, end))
  {
    if n != 0 {
      DroppedCanon(g, base, r, n - 1, end, t);
      DroppedStep(g, Tail(g, base, r, n, end), r, n - 1, DropBelow(g, t, r, n - 1));
    }
  }

  /** Deletion never loses its way. */
  lemma {:induction false} DroppedWay(g: Geometry, base: set<Reg>, r: Region, n: nat, end: nat, t: Tree)
    requires g.Ok() && Leaving(g, base, r, end) && n <= end && IsCanon(g.shape, g.depth, t, Tail(g, base, r, 0, end))
    ensures Droppable(g, t, r, n)
  {
    if n != 0 {
      DroppedWay(g, base, r, n - 1, end, t);
      DroppedCanon(g, base, r, n - 1, end, t);
      DroppedStep(g, Tail(g, base, r, n, end), r, n - 1, DropBelow(g, t, r, n - 1));
    }
  }

  lemma DroppedStep(g: Geometry, regs: set<Reg>, r: Region, j: nat, t: Tree)
    requires g.Ok() && WellShaped(g.shape, g.depth, t)
    requires KindAt(g.blockSize, r, j).Some? ==> Joins(g.shape, g.depth, regs, RegAt(g, r, j))
    requires IsCanon(g.shape, g.depth, t, if KindAt(g.blockSize, r, j).Some? then regs + {RegAt(g, r, j)} else regs)
    ensures KindAt(g.blockSize, r, j).Some? ==> Reaches(g.shape, g.depth, t, g.Path(j))
    ensures IsCanon(g.shape, g.depth, DropAt(g, t, r, j), regs)
  {
    if KindAt(g.blockSize, r, j).Some? {
      DeleteCanon(g.shape, g.depth, t, regs, RegAt(g, r, j));
    }
  }

  /** Adding r to a tree of the live regions gives a tree of the live regions with r. */
  lemma AddEffect(g: Geometry, live: set<Region>, r: Region, t: Tree, base: set<Reg>, all: set<Reg>)
    requires g.Ok() && LiveOk(g, live + {r}) && r !in live && base == AllRegs(g, live) && all == AllRegs(g, live + {r})
    requires IsCanon(g.shape, g.depth, t, base)
    ensures IsCanon(g.shape, g.depth, AddBelow(g, t, r, Div(r.end, g.blockSize) + 1), all)
  {
    var n := Div(r.end, g.blockSize) + 1;
    LiveJoins(g, live, r, base, n);
    WithAll(g, live, r);
    AddedCanon(g, base, r, n, n, t);
  }

  lemma LiveLess(g: Geometry, live: set<Region>, r: Region)
    requires g.Ok() && LiveOk(g, live)
    ensures LiveOk(g, live - {r})
  {
  }

  /** Deleting r from a tree of the live regions gives a tree of the others. */
  lemma DropEffect(g: Geometry, live: set<Region>, r: Region, t: Tree, base: set<Reg>, all: set<Reg>)
    requires g.Ok() && LiveOk(g, live + {r}) && r !in live && base == AllRegs(g, live) && all == AllRegs(g, live + {r})
    requires IsCanon(g.shape, g.depth, t, all)
    ensures Droppable(g, t, r, Div(r.end, g.blockSize) + 1)
    ensures IsCanon(g.shape, g.depth, DropBelow(g, t, r, Div(r.end, g.blockSize) + 1), base)
  {
    var n := Div(r.end, g.blockSize) + 1;
    LiveLeaves(g, live, r, base, n);
    WithAll(g, live, r);
    DroppedCanon(g, base, r, n, n, t);
    DroppedWay(g, base, r, n, n, t);
  }

  class RegionTree {
    const g: Geometry
    var root: Tree
    ghost var live: set<Region>

    /** The tree is the canonical one of the live regions. */
    ghost predicate Valid()
      reads this
    {
      g.Ok() && LiveOk(g, live) && IsCanon(g.shape, g.depth, root, AllRegs(g, live))
    }

    constructor (geometry: Geometry)
      requires geometry.Ok()
      ensures Valid() && g == geometry && live == {}
    {
      g := geometry;
      root := BARE;
      live := {};
      new;
      assert AllRegs(g, {}) == {};
    }

    /** Whether r ends inside block last rather than at its start. */
    method EndsInside(r: Region, last: nat) returns (b: bool)
      requires g.Ok() && last == Div(r.end, g.blockSize)
      ensures b <==> Mod(r.end, g.blockSize) != 0
    {
      DivMod(r.end, g.blockSize);
      b := last * g.blockSize != r.end;
    }

    /** One walk of addRegion. */
    method RegisterBlock(r: Region, kind: Kind, j: nat, ghost t: Tree)
      requires g.Ok() && WellShaped(g.shape, g.depth, t)
      requires KindAt(g.blockSize, r, j) == Some(kind) && root == AddBelow(g, t, r, j)
      modifies this`root
      ensures root == AddBelow(g, t, r, j + 1)
    {
      root := Insert(g.shape, g.depth, root, g.Path(j), kind, r);
    }

    /** The blocks between the first and the last. */
    method RegisterFull(r: Region, first: nat, last: nat, ghost t: Tree)
      requires g.Ok() && WellShaped(g.shape, g.depth, t) && root == AddBelow(g, t, r, first + 1)
      requires Div(r.start, g.blockSize) == first < last == Div(r.end, g.blockSize)
      modifies this`root
      ensures root == AddBelow(g, t, r, last)
    {
      var j := first + 1;
      while j < last
        invariant first < j <= last && root == AddBelow(g, t, r, j)
      {
        MiddleKind(g.blockSize, r, j);
        RegisterBlock(r, Both, j, t);
        j := j + 1;
      }
    }

    /** The three parts of addRegion: an aligned first block is not registered, and a last block that the
        region does not reach into is not either. */
    method Register(r: Region)
      requires g.Ok() && WellShaped(g.shape, g.depth, root) && Div(r.start, g.blockSize) < Div(r.end, g.blockSize)
      modifies this`root
      ensures root == AddBelow(g, old(root), r, Div(r.end, g.blockSize) + 1)
    {
      ghost var t := root;
      var j, last := Div(r.start, g.blockSize), Div(r.end, g.blockSize);
      NothingBelow(g, t, r, j);
      EdgeKinds(g.blockSize, r);
      if Mod(r.start, g.blockSize) != 0 {
        RegisterBlock(r, High, j, t);
      }
      RegisterFull(r, j, last, t);
      var partial := EndsInside(r, last);
      if partial {
        RegisterBlock(r, Low, last, t);
      }
    }

    method AddRegion(addr: nat, size: nat) returns (r: Region)
      requires Valid() && g.blockSize <= size && LiveOk(g, live + {Region(addr, addr + size)})
      requires Region(addr, addr + size) !in live
      modifies this
      ensures Valid() && r == Region(addr, addr + size) && live == old(live) + {r}
    {
      r := Region(addr, addr + size);
      BlockOrder(g.blockSize, r);
      AddEffect(g, live, r, root, AllRegs(g, live), AllRegs(g, live + {r}));
      Register(r);
      live := live + {r};
    }

    /** What it answers is the live region at that address, and it answers for exactly the findable ones. */
    method GetRegion(addr: nat) returns (found: Option<Region>)
      requires Valid() && addr < g.Blocks() * g.blockSize
      ensures found.Some? ==> found.value in live && found.value.Contains(addr)
      ensures forall r :: r in live && r.Contains(addr) ==>
                (found == Some(r) <==> Findable(g.blockSize, live, r, addr))
    {
      var s := FindSlot(g.Path(Div(addr, g.blockSize)));
      found := Choose(s, addr);
      AllRegsOk(g, live);
      SlotAtCanon(g.shape, g.depth, root, AllRegs(g, live), g.Path(Div(addr, g.blockSize)));
      LookupSound(g, live, addr);
      forall r | r in live && r.Contains(addr)
        ensures found == Some(r) <==> Findable(g.blockSize, live, r, addr)
      {
        LookupExact(g, live, r, addr);
      }
    }

    /** The walk of getRegion; a missing array counts as an unused entry. */
    method FindSlot(path: seq<nat>) returns (s: Slot)
      requires WellShaped(g.shape, g.depth, root) && PathOk(g.shape, g.depth, path)
      ensures s == SlotAt(g.shape, g.depth, root, path)
    {
      var nl := root;
      for i := 0 to g.depth
        invariant WellShaped(g.shape, g.depth - i, nl) && PathOk(g.shape, g.depth - i, path[i..])
        invariant SlotAt(g.shape, g.depth - i, nl, path[i..]) == SlotAt(g.shape, g.depth, root, path)
      {
        if nl.below.Null? {
          return NO_SLOT;
        }
        assert path[i..][1..] == path[i + 1..];
        nl := nl.below.kids[path[i]];
      }
      s := if nl.below.Null? then NO_SLOT else nl.below.slots[path[g.depth]];
    }

    // ----- deletion -----

    /** One walk of recursiveDelete. */
    method UnregisterBlock(r: Region, kind: Kind, j: nat, ghost t: Tree, ghost n: nat)
      requires g.Ok() && WellShaped(g.shape, g.depth, t) && Droppable(g, t, r, n) && j < n
      requires KindAt(g.blockSize, r, j) == Some(kind) && root == DropBelow(g, t, r, j)
      modifies this`root
      ensures root == DropBelow(g, t, r, j + 1)
    {
      DroppableAt(g, t, r, n, j);
      root := Delete(g.shape, g.depth, root, g.Path(j), kind);
    }

    /** The blocks between the first and the last. */
    method UnregisterFull(r: Region, first: nat, last: nat, ghost t: Tree)
      requires g.Ok() && WellShaped(g.shape, g.depth, t) && root == DropBelow(g, t, r, first + 1)
      requires Div(r.start, g.blockSize) == first < last == Div(r.end, g.blockSize)
      requires Droppable(g, t, r, last + 1)
      modifies this`root
      ensures root == DropBelow(g, t, r, last)
    {
      var j := first + 1;
      while j < last
        invariant first < j <= last && root == DropBelow(g, t, r, j)
      {
        MiddleKind(g.blockSize, r, j);
        UnregisterBlock(r, Both, j, t, last + 1);
        j := j + 1;
      }
    }

    /** The three parts of deleteRegion. */
    method Unregister(r: Region)
      requires g.Ok() && WellShaped(g.shape, g.depth, root) && Div(r.start, g.blockSize) < Div(r.end, g.blockSize)
      requires Droppable(g, root, r, Div(r.end, g.blockSize) + 1)
      modifies this`root
      ensures root == DropBelow(g, old(root), r, Div(r.end, g.blockSize) + 1)
    {
      ghost var t := root;
      var j, last := Div(r.start, g.blockSize), Div(r.end, g.blockSize);
      NothingBelow(g, t, r, j);
      EdgeKinds(g.blockSize, r);
      if Mod(r.start, g.blockSize) != 0 {
        UnregisterBlock(r, High, j, t, last + 1);
      }
      UnregisterFull(r, j, last, t);
      var partial := EndsInside(r, last);
      if partial {
        UnregisterBlock(r, Low, last, t, last + 1);
      }
    }

    /** Deleting a live region leaves exactly the tree of the other live regions. */
    method DeleteRegion(r: Region)
      requires Valid() && r in live
      modifies this
      ensures Valid() && live == old(live) - {r}
    {
      assert Sized(g, r);
      BlockOrder(g.blockSize, r);
      assert live - {r} + {r} == live;
      DropEffect(g, live - {r}, r, root, AllRegs(g, live - {r}), AllRegs(g, live));
      LiveLess(g, live, r);
      live := live - {r};
      Unregister(r);
    }
  }

  /** Two trees of the same live regions are equal, whatever was added and deleted in between. */
  lemma SameRoot(t: RegionTree, u: RegionTree)
    requires t.Valid() && u.Valid() && t.g == u.g && t.live == u.live
    ensures t.root == u.root
  {
    CanonUnique(t.g.shape, t.g.depth, t.root, u.root, AllRegs(t.g, t.live));
  }

  lemma EdgeKinds(size: nat, r: Region)
    requires 0 < size && Div(r.start, size) < Div(r.end, size)
    ensures KindAt(size, r, Div(r.start, size)) == if Mod(r.start, size) != 0 then Some(High) else None
    ensures KindAt(size, r, Div(r.end, size)) == if Mod(r.end, size) != 0 then Some(Low) else None
  {
  }

  lemma MiddleKind(size: nat, r: Region, j: nat)
    requires 0 < size && Div(r.start, size) < j < Div(r.end, size)
    ensures KindAt(size, r, j) == Some(Both)
  {
  }

  /** A region of at least a block ends in a later block than it starts in. */
  lemma BlockOrder(size: nat, r: Region)
    requires 0 < size && r.start + size <= r.end
    ensures Div(r.start, size) < Div(r.end, size)
  {
    var a, b := Div(r.start, size), Div(r.end, size);
    DivMod(r.start, size);
    DivMod(r.end, size);
    if b <= a {
      if b < a { MulMono(b, a, size); }
      assert false;
    }
  }

  /** Where a region is not found, nothing is. */
  lemma Lost(g: Geometry, live: set<Region>, r: Region, a: nat)
    requires g.Ok() && LiveOk(g, live) && r in live && r.Contains(a)
    ensures Findable(g.blockSize, live, r, a) || Choose(EntryOf(g, live, a), a) == None
  {
    assert Sized(g, r);
    LookupSound(g, live, a);
    LookupExact(g, live, r, a);
    var found := Choose(EntryOf(g, live, a), a);
    assert found.Some? ==> Separated(found.value, r);
  }

  /** The first block of a block-aligned region is never found. */
  lemma AlignedStartLost(g: Geometry, live: set<Region>, r: Region, a: nat)
    requires g.Ok() && LiveOk(g, live) && r in live
    requires r.start % g.blockSize == 0 && r.start <= a < r.start + g.blockSize
    ensures Choose(EntryOf(g, live, a), a) == None
  {
    var size, k := g.blockSize, r.start / g.blockSize;
    ModUnique(a, k, size, a - r.start);
    DivIs(r.start, size);
    DivIs(r.end, size);
    assert Sized(g, r);
    BlockOrder(size, r);
    Lost(g, live, r, a);
  }

  /** Nor is a last block that the region fills in part, if no region starts inside that block. */
  lemma PartialEndLost(g: Geometry, live: set<Region>, r: Region, a: nat)
    requires g.Ok() && LiveOk(g, live) && r in live && r.Contains(a) && a / g.blockSize == r.end / g.blockSize
    requires forall q :: q in live ==> q.start / g.blockSize == r.end / g.blockSize ==> q.start % g.blockSize == 0
    ensures Choose(EntryOf(g, live, a), a) == None
  {
    DivIs(r.start, g.blockSize);
    DivIs(r.end, g.blockSize);
    assert Sized(g, r);
    BlockOrder(g.blockSize, r);
    Lost(g, live, r, a);
  }

  lemma BlockStart(g: Geometry, k: nat, m: nat)
    requires g.Ok() && m < g.blockSize && k < g.Blocks()
    ensures (k * g.blockSize + m) / g.blockSize == k && (k * g.blockSize + m) % g.blockSize == m
    ensures k * g.blockSize + g.blockSize <= g.Blocks() * g.blockSize
  {
    ModUnique(k * g.blockSize + m, k, g.blockSize, m);
    MulMono(k, g.Blocks(), g.blockSize);
  }

  /** Such regions exist: any block of its own, in particular one that does not start at address 0. */
  lemma AlignedStartExample(g: Geometry, k: nat)
    requires g.Ok() && k < g.Blocks()
    ensures var a := k * g.blockSize; var live := {Region(a, a + g.blockSize)};
      LiveOk(g, live) && Choose(EntryOf(g, live, a), a) == None
  {
    BlockStart(g, k, 0);
    var a := k * g.blockSize;
    var r := Region(a, a + g.blockSize);
    AlignedStartLost(g, {r}, r, a);
  }

  /** And any block with the first m addresses of the next. */
  lemma PartialEndExample(g: Geometry, k: nat, m: nat)
    requires g.Ok() && k + 1 < g.Blocks() && 0 < m < g.blockSize
    ensures var a := (k + 1) * g.blockSize; var live := {Region(k * g.blockSize, a + m)};
      LiveOk(g, live) && Choose(EntryOf(g, live, a), a) == None
  {
    BlockStart(g, k, 0);
    BlockStart(g, k + 1, 0);
    BlockStart(g, k + 1, m);
    var a := (k + 1) * g.blockSize;
    var r := Region(k * g.blockSize, a + m);
    assert a == k * g.blockSize + g.blockSize;
    PartialEndLost(g, {r}, r, a);
  }

  // ----- the chunks of a region -----

  datatype Chunk = Chunk(start: nat, size: nat)

  /** The chunks lie one behind the other and together make up [start, end). */
  ghost predicate Tiles(chunks: seq<Chunk>, start: nat, end: nat) {
    && |chunks| > 0 && chunks[0].start == start
    && (forall i {:trigger chunks[i].size} :: 0 <= i < |chunks| ==>
          0 < chunks[i].size && chunks[i].start + chunks[i].size == NextStart(chunks, end, i))
  }

  ghost function NextStart(chunks: seq<Chunk>, end: nat, i: nat): nat
    requires i < |chunks|
  {
    if i == |chunks| - 1 then end else chunks[i + 1].start
  }

  /** i * chunkSize. */
  function Offset(chunkSize: nat, i: nat): nat {
    if i == 0 then 0 else Offset(chunkSize, i - 1) + chunkSize
  }

  lemma {:induction false} OffsetIs(chunkSize: nat, i: nat)
    ensures Offset(chunkSize, i) == i * chunkSize
  {
    if i != 0 {
      OffsetIs(chunkSize, i - 1);
    }
  }

  /** Chunk i starts i chunk sizes into the region, and only the last one may be shorter. */
  ghost predicate Uniform(chunks: seq<Chunk>, addr: nat, chunkSize: nat) {
    forall i {:trigger Offset(chunkSize, i)} :: 0 <= i < |chunks| ==>
      chunks[i].start == addr + Offset(chunkSize, i) && chunks[i].size <= chunkSize
  }

  lemma OffsetDivision(chunkSize: nat, x: nat)
    requires 0 < chunkSize
    ensures Offset(chunkSize, x / chunkSize) + x % chunkSize == x
  {
    OffsetIs(chunkSize, x / chunkSize);
  }

  /** The chunk list of addRegion: full chunks, and a shorter last one if the size is no multiple. */
  method MakeChunks(addr: nat, size: nat, chunkSize: nat) returns (chunks: seq<Chunk>)
    requires 0 < size && 0 < chunkSize
    ensures Tiles(chunks, addr, addr + size) && Uniform(chunks, addr, chunkSize)
  {
    OffsetDivision(chunkSize, size);
    chunks := ChunkList(addr, chunkSize, size / chunkSize, size % chunkSize);
  }

  method ChunkList(addr: nat, chunkSize: nat, nChunks: nat, mod: nat) returns (chunks: seq<Chunk>)
    requires mod < chunkSize && 0 < Offset(chunkSize, nChunks) + mod
    ensures Tiles(chunks, addr, addr + Offset(chunkSize, nChunks) + mod) && Uniform(chunks, addr, chunkSize)
  {
    chunks := [];
    for i := 0 to nChunks
      invariant |chunks| == i
      invariant forall k :: 0 <= k < i ==> chunks[k] == Chunk(addr + Offset(chunkSize, k), chunkSize)
    {
      chunks := chunks + [Chunk(addr + Offset(chunkSize, i), chunkSize)];
    }
    if mod != 0 {
      chunks := chunks + [Chunk(addr + Offset(chunkSize, nChunks), mod)];
    }
    ListTiles(chunks, addr, chunkSize, nChunks, mod);
  }

  lemma ListTiles(chunks: seq<Chunk>, addr: nat, chunkSize: nat, nChunks: nat, mod: nat)
    requires mod < chunkSize && |chunks| == (if mod == 0 then nChunks else nChunks + 1) && chunks != []
    requires forall k :: 0 <= k < nChunks ==> chunks[k] == Chunk(addr + Offset(chunkSize, k), chunkSize)
    requires mod != 0 ==> chunks[nChunks] == Chunk(addr + Offset(chunkSize, nChunks), mod)
    ensures Tiles(chunks, addr, addr + Offset(chunkSize, nChunks) + mod) && Uniform(chunks, addr, chunkSize)
  {
    var end := addr + Offset(chunkSize, nChunks) + mod;
    forall i | 0 <= i < |chunks|
      ensures 0 < chunks[i].size && chunks[i].start + chunks[i].size == NextStart(chunks, end, i)
    {
      assert Offset(chunkSize, i + 1) == Offset(chunkSize, i) + chunkSize;
      if i + 1 < |chunks| {
        assert chunks[i + 1].start == addr + Offset(chunkSize, i + 1);
      }
    }
  }

  /** getChunkInfo: dividing the offset selects the chunk that contains the address. */
  lemma ChunkByDivision(chunks: seq<Chunk>, addr: nat, size: nat, chunkSize: nat, a: nat)
    requires 0 < chunkSize && Tiles(chunks, addr, addr + size) && Uniform(chunks, addr, chunkSize)
    requires addr <= a < addr + size
    ensures var i := (a - addr) / chunkSize;
      i < |chunks| && chunks[i].start <= a < chunks[i].start + chunks[i].size
  {
    OffsetDivision(chunkSize, a - addr);
    ChunkAt(chunks, addr, size, chunkSize, a, (a - addr) / chunkSize);
  }

  lemma ChunkAt(chunks: seq<Chunk>, addr: nat, size: nat, chunkSize: nat, a: nat, i: nat)
    requires Tiles(chunks, addr, addr + size) && Uniform(chunks, addr, chunkSize)
    requires a < addr + size && Offset(chunkSize, i) <= a - addr < Offset(chunkSize, i) + chunkSize
    ensures i < |chunks| && chunks[i].start <= a < chunks[i].start + chunks[i].size
  {
    var last := |chunks| - 1;
    assert chunks[last].start + chunks[last].size == addr + size;
    if last < i {
      OffsetMono(chunkSize, last, i);
    } else if i < last {
      assert chunks[i + 1].start == addr + Offset(chunkSize, i + 1);
    }
  }

  lemma {:induction false} OffsetMono(chunkSize: nat, i: nat, j: nat)
    requires i < j
    ensures Offset(chunkSize, i) + chunkSize <= Offset(chunkSize, j)
  {
    if i + 1 < j {
      OffsetMono(chunkSize, i, j - 1);
    }
  }

  /** getChunkInfoNU: the linear search for chunks of any sizes. */
  method GetChunkInfoNU(chunks: seq<Chunk>, start: nat, end: nat, addr: nat) returns (i: nat)
    requires Tiles(chunks, start, end) && start <= addr < end
    ensures i < |chunks| && chunks[i].start <= addr < chunks[i].start + chunks[i].size
  {
    i := 0;
    while i < |chunks| - 1
      invariant i <= |chunks| - 1 && chunks[i].start <= addr
    {
      if addr < chunks[i + 1].start {
        break;
      }
      i := i + 1;
    }
  }
}
