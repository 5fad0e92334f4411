/**
 * The callbacks of the LRU plugin (plugins/lru.c) over the region tree and the two tiers: an allocation is
 * registered, and a release and a sample look their region up again. The program is taken to release only
 * what it has been given. Memory that it has released may be handed out again, but not for a large allocation
 * while a region that overlaps it is still registered.
 */
module LruPlugin {
  import opened Basics
  import opened RegionTree
  import L = LruTier

  // ----- what the program does and what stays registered -----

  datatype Call = Malloc(region: Region) | Release(addr: nat) | Access(addr: nat)

  /** The regions that getRegion finds at an address. */
  ghost function FoundAt(size: nat, live: set<Region>, a: nat): set<Region>
    requires 0 < size
  {
    set r | r in live && r.Contains(a) && Findable(size, live, r, a)
  }

  /** The registered regions after a sequence of calls. */
  ghost function LiveAfter(size: nat, h: seq<Call>): set<Region>
    requires 0 < size
  {
    if h == [] then {} else
      var live, c := LiveAfter(size, h[..|h| - 1]), h[|h| - 1];
      match c
      case Malloc(r) => live + {r}
      case Release(a) => live - FoundAt(size, live, a)
      case Access(_) => live
  }

  /** The regions that the program has allocated and not released. */
  ghost function Held(h: seq<Call>): set<Region> {
    if h == [] then {} else
      var held, c := Held(h[..|h| - 1]), h[|h| - 1];
      match c
      case Malloc(r) => held + {r}
      case Release(a) => set r | r in held && r.start != a
      case Access(_) => held
  }

  /** The regions that the program has released and that are still registered: the release of a region on a
      block boundary does not find it, and a later release may. */
  ghost function Stale(size: nat, h: seq<Call>): set<Region>
    requires 0 < size
  {
    if h == [] then {} else
      var before, c := h[..|h| - 1], h[|h| - 1];
      match c
      case Release(a) =>
        (Stale(size, before) - FoundAt(size, LiveAfter(size, before), a))
        + set r | r in Held(before) && r.start == a && a % size == 0
      case _ => Stale(size, before)
  }

  /** A region that the program holds starts here. */
  ghost predicate HeldAt(h: seq<Call>, a: nat) {
    exists r :: r in Held(h) && r.start == a
  }

  /** A region left over is found here. */
  ghost predicate StaleAt(size: nat, h: seq<Call>, a: nat)
    requires 0 < size
  {
    exists r :: r in Stale(size, h) && r.Contains(a) && Findable(size, LiveAfter(size, h), r, a)
  }

  /** The address is not inside a region that the program holds, except at its start. */
  ghost predicate NotInside(held: set<Region>, a: nat) {
    forall r {:trigger r.Contains(a)} :: r in held && r.Contains(a) ==> r.start == a
  }

  /** One call after others: a new region is apart from those registered, and a release is of a region held,
      or of an allocation too small to be registered, which may lie anywhere else. */
  ghost predicate Allowed(g: Geometry, h: seq<Call>, c: Call)
    requires g.Ok()
  {
    match c
    case Malloc(r) => r !in LiveAfter(g.blockSize, h) && LiveOk(g, LiveAfter(g.blockSize, h) + {r})
    case Release(a) => NotInside(Held(h), a)
    case Access(_) => true
  }

  ghost predicate Proper(g: Geometry, h: seq<Call>)
    requires g.Ok()
  {
    h == [] || (Proper(g, h[..|h| - 1]) && Allowed(g, h[..|h| - 1], h[|h| - 1]))
  }

  /** At its own start a region is found if and only if it does not start on a block boundary. */
  lemma FoundAtStart(g: Geometry, live: set<Region>, r: Region)
    requires g.Ok() && LiveOk(g, live) && r in live
    ensures FoundAt(g.blockSize, live, r.start) == if r.start % g.blockSize == 0 then {} else {r}
  {
    var size := g.blockSize;
    DivIs(r.start, size);
    DivIs(r.end, size);
    assert Sized(g, r);
    BlockOrder(size, r);
    forall q | q in FoundAt(size, live, r.start) ensures q == r {
      assert Separated(q, r);
    }
    assert r.Contains(r.start);
  }

  /** Where all regions are disjoint, a release takes at most one of those held. */
  lemma ReleasedOne(g: Geometry, live: set<Region>, held: set<Region>, r: Region)
    requires g.Ok() && LiveOk(g, live) && held <= live && r in held
    ensures (set q | q in held && q.start != r.start) == held - {r}
  {
    forall q | q in held && q.start == r.start ensures q == r {
      assert Sized(g, q) && Sized(g, r) && Separated(q, r);
    }
  }

  /** A release where no held region starts takes none of those held. */
  lemma ReleasedNone(size: nat, h: seq<Call>, live: set<Region>, a: nat)
    requires 0 < size && NotInside(Held(h), a) && !HeldAt(h, a)
    ensures (set r | r in Held(h) && r.start != a) == Held(h) && FoundAt(size, live, a) !! Held(h)
  {
  }

  /** Over every run: what is registered is what the program holds, and besides what is left over of regions on
      a block boundary, whose release was ignored. */
  lemma {:induction false} LiveExactly(g: Geometry, h: seq<Call>)
    requires g.Ok() && Proper(g, h)
    ensures LiveOk(g, LiveAfter(g.blockSize, h))
    ensures LiveAfter(g.blockSize, h) == Held(h) + Stale(g.blockSize, h) && Held(h) !! Stale(g.blockSize, h)
    ensures forall r :: r in Stale(g.blockSize, h) ==> r.start % g.blockSize == 0
  {
    if h != [] {
      var before, c, size := h[..|h| - 1], h[|h| - 1], g.blockSize;
      LiveExactly(g, before);
      var live := LiveAfter(size, before);
      if c.Release? {
        LiveFewer(g, live, LiveAfter(size, h));
        if HeldAt(before, c.addr) {
          var r :| r in Held(before) && r.start == c.addr;
          FoundAtStart(g, live, r);
          ReleasedOne(g, live, Held(before), r);
        } else {
          ReleasedNone(size, before, live, c.addr);
        }
      }
    }
  }

  lemma LiveFewer(g: Geometry, live: set<Region>, fewer: set<Region>)
    requires g.Ok() && LiveOk(g, live) && fewer <= live
    ensures LiveOk(g, fewer)
  {
  }

  lemma {:induction false} ProperPrefix(g: Geometry, h: seq<Call>, n: nat)
    requires g.Ok() && Proper(g, h) && n <= |h|
    ensures Proper(g, h[..n])
  {
    if n == |h| {
      assert h[..n] == h;
    } else {
      ProperPrefix(g, h[..|h| - 1], n);
      assert h[..|h| - 1][..n] == h[..n];
    }
  }

  /** Call i is a release, not at the start of r, at an address of r where getRegion finds it. */
  ghost predicate Hits(size: nat, h: seq<Call>, i: nat, r: Region)
    requires 0 < size && i < |h|
  {
    h[i].Release? && r.start < h[i].addr < r.end && Findable(size, LiveAfter(size, h[..i]), r, h[i].addr)
  }

  /** One call after r was registered: only a hit takes it out, and only when it has been released. */
  lemma StaysStep(g: Geometry, h: seq<Call>, i: nat, r: Region)
    requires g.Ok() && Proper(g, h) && i < |h| && r in LiveAfter(g.blockSize, h[..i]) && r.start % g.blockSize == 0
    ensures r in LiveAfter(g.blockSize, h[..i + 1]) <==> !Hits(g.blockSize, h, i, r)
    ensures Hits(g.blockSize, h, i, r) ==> r in Stale(g.blockSize, h[..i])
  {
    var live := LiveAfter(g.blockSize, h[..i]);
    assert h[..i + 1][..i] == h[..i];
    ProperPrefix(g, h, i + 1);
    LiveExactly(g, h[..i]);
    FoundAtStart(g, live, r);
    if h[i].Release? {
      assert r in FoundAt(g.blockSize, live, h[i].addr) <==>
        r.Contains(h[i].addr) && Findable(g.blockSize, live, r, h[i].addr);
    }
  }

  /** A region on a block boundary stays registered, through its own release and whatever else is called, until
      the first release that hits it, and no longer: this holds of every m. */
  lemma {:induction false} StaysUntilHit(g: Geometry, h: seq<Call>, n: nat, m: nat, r: Region)
    requires g.Ok() && Proper(g, h) && n < m <= |h| && h[n] == Malloc(r) && r.start % g.blockSize == 0
    ensures (forall i :: n < i <= m ==> r in LiveAfter(g.blockSize, h[..i])) <==>
      (forall i :: n < i < m ==> !Hits(g.blockSize, h, i, r))
  {
    if n + 1 == m {
      assert h[..m][..n] == h[..n];
    } else {
      StaysUntilHit(g, h, n, m - 1, r);
      if r in LiveAfter(g.blockSize, h[..m - 1]) {
        StaysStep(g, h, m - 1, r);
      }
    }
  }

  /** A run that ends with such a hit: any region on a block boundary that reaches beyond a second block, and a
      small allocation in that block after its release. */
  lemma InnerRelease(g: Geometry, r: Region, a: nat)
    requires g.Ok() && LiveOk(g, {r}) && r.start % g.blockSize == 0
    requires r.start / g.blockSize < a / g.blockSize < r.end / g.blockSize
    ensures var h := [Malloc(r), Release(r.start), Release(a)];
      && Proper(g, h) && Held(h[..2]) == {} && Stale(g.blockSize, h[..2]) == {r} && LiveAfter(g.blockSize, h) == {}
  {
    var size, h1 := g.blockSize, [Malloc(r)];
    var h2 := h1 + [Release(r.start)];
    assert Sized(g, r);
    assert LiveAfter(size, []) + {r} == {r} && h1 == [] + h1;
    ProperOn(g, [], Malloc(r));
    assert LiveAfter(size, h1) == {r} && Held(h1) == {r};
    ProperOn(g, h1, Release(r.start));
    FoundAtStart(g, {r}, r);
    assert LiveAfter(size, h2) == {r} && Held(h2) == {};
    LiveExactly(g, h2);
    ProperOn(g, h2, Release(a));
    Between(r, a, size);
    assert r in FoundAt(size, {r}, a);
    assert [Malloc(r), Release(r.start), Release(a)] == h2 + [Release(a)];
  }

  lemma Between(r: Region, a: nat, size: nat)
    requires 0 < size && r.start / size < a / size < r.end / size
    ensures r.Contains(a)
  {
    MulMono(r.start / size, a / size, size);
    MulMono(a / size, r.end / size, size);
    assert r.start == r.start / size * size + r.start % size;
    assert a == a / size * size + a % size;
    assert r.end == r.end / size * size + r.end % size;
  }

  /** Two blocks, and the second one's first address. */
  lemma InnerReleaseExample(g: Geometry)
    requires g.Ok() && 3 <= g.Blocks()
    ensures var b := g.blockSize; var r := Region(b, 3 * b);
      var h := [Malloc(r), Release(b), Release(2 * b)];
      Proper(g, h) && Stale(b, h[..2]) == {r} && LiveAfter(b, h) == {}
  {
    var b := g.blockSize;
    if 3 < g.Blocks() {
      MulMono(3, g.Blocks(), b);
    }
    ModUnique(b, 1, b, 0);
    ModUnique(2 * b, 2, b, 0);
    ModUnique(3 * b, 3, b, 0);
    InnerRelease(g, Region(b, 3 * b), 2 * b);
  }

  // ----- the callbacks -----

  /** The nodes of a region are those of its chunks. */
  ghost predicate NodesOf(r: Region, chunks: seq<Chunk>, nodes: seq<L.Node>, chunkSize: nat) {
    && Tiles(chunks, r.start, r.end) && Uniform(chunks, r.start, chunkSize) && |nodes| == |chunks|
    && forall i {:trigger nodes[i]} :: 0 <= i < |nodes| ==> nodes[i].chunk == chunks[i].start
  }

  /** The node of a chunk lies in its region. */
  lemma {:induction false} ChunkInside(r: Region, chunks: seq<Chunk>, nodes: seq<L.Node>, chunkSize: nat, i: nat)
    requires 0 < chunkSize && NodesOf(r, chunks, nodes, chunkSize) && i < |nodes|
    ensures r.Contains(nodes[i].chunk)
    decreases |nodes| - i
  {
    assert chunks[i].start == r.start + Offset(chunkSize, i);
    assert 0 < chunks[i].size;
    if i + 1 < |nodes| {
      ChunkInside(r, chunks, nodes, chunkSize, i + 1);
    }
  }

  lemma {:induction false} OffsetGrows(chunkSize: nat, i: nat, j: nat)
    requires 0 < chunkSize && i < j
    ensures Offset(chunkSize, i) < Offset(chunkSize, j)
  {
    if i < j - 1 {
      OffsetGrows(chunkSize, i, j - 1);
    }
  }

  lemma NodesDistinct(r: Region, chunks: seq<Chunk>, nodes: seq<L.Node>, chunkSize: nat)
    requires 0 < chunkSize && NodesOf(r, chunks, nodes, chunkSize)
    ensures L.Distinct(L.Chunks(nodes)) && L.Distinct(nodes)
  {
    forall i, j | 0 <= i < j < |nodes| ensures nodes[i].chunk != nodes[j].chunk {
      OffsetGrows(chunkSize, i, j);
      assert chunks[i].start == r.start + Offset(chunkSize, i) && chunks[j].start == r.start + Offset(chunkSize, j);
    }
  }

  /** A live region's bookkeeping: its chunks, and their nodes. */
  datatype Entry = Entry(chunks: seq<Chunk>, nodes: seq<L.Node>)

  type Entries = map<Region, Entry>

  ghost predicate EntryOk(es: Entries, chunkSize: nat, all: seq<L.Node>, r: Region)
    requires r in es
  {
    && NodesOf(r, es[r].chunks, es[r].nodes, chunkSize)
    && forall n :: n in es[r].nodes ==> n in all
  }

  /** A listed node belongs to a registered region. */
  ghost predicate Belongs(es: Entries, n: L.Node) {
    exists r :: r in es && r.Contains(n.chunk) && n in es[r].nodes
  }

  /** The two tiers hold exactly the nodes of the registered regions. */
  ghost predicate Tracked(es: Entries, chunkSize: nat, all: seq<L.Node>) {
    && (forall r {:trigger EntryOk(es, chunkSize, all, r)} :: r in es ==> EntryOk(es, chunkSize, all, r))
    && (forall n {:trigger Belongs(es, n)} :: n in all ==> Belongs(es, n))
  }

  lemma NewDistinct(g: Geometry, es: Entries, chunkSize: nat, all: seq<L.Node>, r: Region, e: Entry)
    requires g.Ok() && 0 < chunkSize && Tracked(es, chunkSize, all) && NodesOf(r, e.chunks, e.nodes, chunkSize)
    requires LiveOk(g, es.Keys + {r}) && r !in es && L.Distinct(L.Chunks(all))
    ensures L.Distinct(L.Chunks(all) + L.Chunks(e.nodes))
  {
    NodesDistinct(r, e.chunks, e.nodes, chunkSize);
    forall i, j | 0 <= i < |all| && 0 <= j < |e.nodes| ensures all[i].chunk != e.nodes[j].chunk {
      assert Belongs(es, all[i]);
      var q :| q in es && q.Contains(all[i].chunk);
      ChunkInside(r, e.chunks, e.nodes, chunkSize, j);
      assert Separated(q, r);
    }
  }

  lemma TrackedAdd(es: Entries, chunkSize: nat, all: seq<L.Node>, r: Region, e: Entry)
    requires 0 < chunkSize && Tracked(es, chunkSize, all) && NodesOf(r, e.chunks, e.nodes, chunkSize) && r !in es
    ensures Tracked(es[r := e], chunkSize, all + e.nodes)
  {
    var es', all' := es[r := e], all + e.nodes;
    forall q | q in es' ensures EntryOk(es', chunkSize, all', q) {
      assert q != r ==> EntryOk(es, chunkSize, all, q);
    }
    forall n | n in all' ensures Belongs(es', n) {
      if n in e.nodes {
        var i :| 0 <= i < |e.nodes| && e.nodes[i] == n;
        ChunkInside(r, e.chunks, e.nodes, chunkSize, i);
        assert r in es' && r.Contains(n.chunk) && n in es'[r].nodes;
      } else {
        assert Belongs(es, n);
        var q :| q in es && q.Contains(n.chunk) && n in es[q].nodes;
        assert q in es' && n in es'[q].nodes;
      }
    }
  }

  /** Nodes of different regions are different. */
  lemma OtherNodes(g: Geometry, es: Entries, chunkSize: nat, all: seq<L.Node>, r: Region, q: Region, n: L.Node)
    requires g.Ok() && 0 < chunkSize && Tracked(es, chunkSize, all) && LiveOk(g, es.Keys)
    requires r in es && q in es && n in es[r].nodes && n in es[q].nodes
    ensures r == q
  {
    assert EntryOk(es, chunkSize, all, r) && EntryOk(es, chunkSize, all, q);
    var i :| 0 <= i < |es[r].nodes| && es[r].nodes[i] == n;
    var j :| 0 <= j < |es[q].nodes| && es[q].nodes[j] == n;
    ChunkInside(r, es[r].chunks, es[r].nodes, chunkSize, i);
    ChunkInside(q, es[q].chunks, es[q].nodes, chunkSize, j);
    assert Separated(r, q);
  }

  lemma TrackedDrop(g: Geometry, es: Entries, chunkSize: nat, all: seq<L.Node>, r: Region)
    requires g.Ok() && 0 < chunkSize && Tracked(es, chunkSize, all) && LiveOk(g, es.Keys) && r in es
    requires L.Distinct(L.Chunks(all)) && L.Distinct(es[r].nodes)
    ensures (forall j :: 0 <= j < |es[r].nodes| ==> es[r].nodes[j] in all)
    ensures Tracked(es - {r}, chunkSize, L.DelAll(all, es[r].nodes))
  {
    assert EntryOk(es, chunkSize, all, r);
    var nodes, es' := es[r].nodes, es - {r};
    var all' := L.DelAll(all, nodes);
    L.ChunksDelAll(all, nodes);
    L.DelAllGone(all, nodes);
    forall q | q in es' ensures EntryOk(es', chunkSize, all', q) {
      assert EntryOk(es, chunkSize, all, q);
      forall n | n in es[q].nodes ensures n in all' {
        if n in nodes {
          OtherNodes(g, es, chunkSize, all, r, q, n);
        }
      }
    }
    forall n | n in all' ensures Belongs(es', n) {
      assert Belongs(es, n);
      var q :| q in es && q.Contains(n.chunk) && n in es[q].nodes;
      assert q != r;
      assert q in es' && n in es'[q].nodes;
    }
  }

  class Plugin {
    const tree: RegionTree
    const tiers: L.Tiers
    const sizeThreshold: nat
    const chunkSize: nat
    var entries: Entries
    ghost var calls: seq<Call>

    /** The tree is that of the calls so far. */
    ghost predicate Treed()
      reads this, tree
    {
      && tree.Valid() && tree.g.blockSize <= sizeThreshold && entries.Keys == tree.live
      && Proper(tree.g, calls) && tree.live == LiveAfter(tree.g.blockSize, calls)
    }

    /** The tiers hold the chunks of the registered regions. */
    ghost predicate Tiered()
      reads this, tiers, tiers.fast, tiers.slow
    {
      && tiers.Valid() && 0 < chunkSize && 0 < tiers.fastChunks
      && Tracked(entries, chunkSize, tiers.fast + tiers.slow)
    }

    ghost predicate Valid()
      reads this, tree, tiers, tiers.fast, tiers.slow
    {
      Treed() && Tiered()
    }

    constructor (g: Geometry, threshold: nat, chunk: nat, capacity: nat)
      requires g.Ok() && g.blockSize <= threshold && 0 < chunk && 0 < capacity
      ensures Valid() && calls == [] && tree.g == g && tiers.fastChunks == capacity
      ensures sizeThreshold == threshold && chunkSize == chunk
      ensures fresh(tree) && fresh(tiers) && fresh(tiers.fast) && fresh(tiers.slow)
    {
      tree := new RegionTree(g);
      tiers := new L.Tiers(capacity);
      sizeThreshold, chunkSize, entries, calls := threshold, chunk, map[], [];
    }

    /** The listed nodes are old ones or new ones. */
    twostate predicate Grown()
      reads this, tiers
    {
      forall n :: n in tiers.fast + tiers.slow ==> n in old(tiers.fast + tiers.slow) || fresh(n)
    }

    /** The node of every chunk. */
    method MakeNodes(r: Region) returns (e: Entry)
      requires 0 < chunkSize && r.start < r.end
      ensures NodesOf(r, e.chunks, e.nodes, chunkSize) && fresh(e.nodes)
    {
      var chunks := MakeChunks(r.start, r.end - r.start, chunkSize);
      var nodes: seq<L.Node> := [];
      for i := 0 to |chunks|
        invariant |nodes| == i && fresh(nodes)
        invariant forall k {:trigger nodes[k]} :: 0 <= k < i ==> nodes[k].chunk == chunks[k].start
      {
        var n := new L.Node(chunks[i].start);
        nodes := nodes + [n];
      }
      e := Entry(chunks, nodes);
    }

    /** The chunks of a new region go to the end of the recency list. */
    method Enter(r: Region, ghost g: Geometry)
      requires Tiered() && r !in entries && r.start < r.end && g.Ok() && LiveOk(g, entries.Keys + {r})
      modifies this`entries, tiers, tiers.fast, tiers.slow
      ensures Tiered() && Grown() && r in entries && entries == old(entries)[r := entries[r]]
      ensures tiers.fast + tiers.slow == old(tiers.fast + tiers.slow) + entries[r].nodes
    {
      var e := MakeNodes(r);
      NewDistinct(g, entries, chunkSize, tiers.fast + tiers.slow, r, e);
      TrackedAdd(entries, chunkSize, tiers.fast + tiers.slow, r, e);
      tiers.AllocRegion(e.nodes);
      entries := entries[r := e];
    }

    /** The chunks of a region leave. */
    method Leave(r: Region, ghost g: Geometry)
      requires Tiered() && r in entries && g.Ok() && LiveOk(g, entries.Keys)
      modifies this`entries, tiers, tiers.fast, tiers.slow
      ensures Tiered() && Grown() && entries == old(entries) - {r}
      ensures tiers.fast + tiers.slow == L.DelAll(old(tiers.fast + tiers.slow), old(entries)[r].nodes)
    {
      var nodes := entries[r].nodes;
      ghost var all := tiers.fast + tiers.slow;
      assert EntryOk(entries, chunkSize, all, r);
      NodesDistinct(r, entries[r].chunks, nodes, chunkSize);
      TrackedDrop(g, entries, chunkSize, all, r);
      L.DelAllGone(all, nodes);
      tiers.FreeRegion(nodes);
      entries := entries - {r};
    }

    /** The chunk of a region that contains the address becomes the most recently used one. */
    method Touch(r: Region, addr: nat) returns (chunk: Chunk)
      requires Tiered() && r in entries && r.Contains(addr)
      modifies tiers, tiers.fast, tiers.slow
      ensures Tiered() && Grown() && chunk in entries[r].chunks
      ensures chunk.start <= addr < chunk.start + chunk.size
      ensures tiers.history == old(tiers.history) + [L.Sample(chunk.start)]
    {
      var e := entries[r];
      ghost var all := tiers.fast + tiers.slow;
      assert EntryOk(entries, chunkSize, all, r);
      ChunkByDivision(e.chunks, r.start, r.end - r.start, chunkSize, addr);
      var i := (addr - r.start) / chunkSize;
      chunk := e.chunks[i];
      tiers.HandleSample(e.nodes[i]);
      TrackedSame(entries, chunkSize, all, tiers.fast + tiers.slow);
    }

    /** getRegion, as a set. */
    method Lookup(addr: nat) returns (found: Option<Region>)
      requires Treed() && addr < tree.g.Blocks() * tree.g.blockSize
      ensures FoundAt(tree.g.blockSize, tree.live, addr) == if found.Some? then {found.value} else {}
    {
      found := tree.GetRegion(addr);
      FoundIs(tree.g, tree.live, found, addr);
    }

    /** allocCallback for an allocation: only large ones are registered. */
    method AllocEvent(addr: nat, size: nat)
      requires Valid() && (sizeThreshold <= size ==> Allowed(tree.g, calls, Malloc(Region(addr, addr + size))))
      modifies this, tree, tiers, tiers.fast, tiers.slow
      ensures Valid() && Grown()
      ensures calls == if sizeThreshold <= size then old(calls) + [Malloc(Region(addr, addr + size))] else old(calls)
      ensures sizeThreshold <= size ==>
        var r := Region(addr, addr + size);
        && r in entries && entries == old(entries)[r := entries[r]]
        && tiers.fast + tiers.slow == old(tiers.fast + tiers.slow) + entries[r].nodes
      ensures size < sizeThreshold ==>
        && entries == old(entries) && tree.root == old(tree.root) && tiers.history == old(tiers.history)
        && tiers.fast == old(tiers.fast) && tiers.slow == old(tiers.slow)
    {
      if sizeThreshold <= size {
        var r := Region(addr, addr + size);
        ProperOn(tree.g, calls, Malloc(r));
        Enter(r, tree.g);
        Register(addr, size);
      }
    }

    /** The region enters the tree. */
    method Register(addr: nat, size: nat)
      requires tree.Valid() && tree.g.blockSize <= sizeThreshold <= size
      requires Proper(tree.g, calls) && tree.live == LiveAfter(tree.g.blockSize, calls)
      requires Allowed(tree.g, calls, Malloc(Region(addr, addr + size)))
      requires entries.Keys == tree.live + {Region(addr, addr + size)}
      modifies this`calls, tree
      ensures Treed() && calls == old(calls) + [Malloc(Region(addr, addr + size))]
    {
      ProperOn(tree.g, calls, Malloc(Region(addr, addr + size)));
      var r := tree.AddRegion(addr, size);
      calls := calls + [Malloc(r)];
    }

    /** A region that was found at the address leaves the tree. */
    method Unregister(addr: nat, found: Option<Region>)
      requires tree.Valid() && tree.g.blockSize <= sizeThreshold
      requires Proper(tree.g, calls) && tree.live == LiveAfter(tree.g.blockSize, calls)
      requires Allowed(tree.g, calls, Release(addr))
      requires FoundAt(tree.g.blockSize, tree.live, addr) == if found.Some? then {found.value} else {}
      requires entries.Keys == tree.live - if found.Some? then {found.value} else {}
      modifies this`calls, tree
      ensures Treed() && calls == old(calls) + [Release(addr)] && (found.None? ==> tree.root == old(tree.root))
    {
      ProperOn(tree.g, calls, Release(addr));
      if found.Some? {
        assert found.value in FoundAt(tree.g.blockSize, tree.live, addr);
        tree.DeleteRegion(found.value);
      }
      calls := calls + [Release(addr)];
    }

    /** allocCallback for a release: what getRegion finds is freed. That is the region held that starts there, if
        and only if it does not start on a block boundary; for any other address it is a region left over. */
    method FreeEvent(addr: nat) returns (freed: Option<Region>)
      requires Valid() && addr < tree.g.Blocks() * tree.g.blockSize && Allowed(tree.g, calls, Release(addr))
      modifies this, tree, tiers, tiers.fast, tiers.slow
      ensures Valid() && Grown() && calls == old(calls) + [Release(addr)]
      ensures freed.Some? <==>
        if HeldAt(old(calls), addr) then addr % tree.g.blockSize != 0
        else StaleAt(tree.g.blockSize, old(calls), addr)
      ensures freed.Some? ==>
        && freed.value in (if HeldAt(old(calls), addr) then Held(old(calls)) else Stale(tree.g.blockSize, old(calls)))
        && freed.value.Contains(addr) && freed.value in old(entries)
        && entries == old(entries) - {freed.value}
        && tiers.fast + tiers.slow == L.DelAll(old(tiers.fast + tiers.slow), old(entries)[freed.value].nodes)
      ensures freed.None? ==>
        && entries == old(entries) && tree.root == old(tree.root) && tiers.history == old(tiers.history)
        && tiers.fast == old(tiers.fast) && tiers.slow == old(tiers.slow)
    {
      freed := Lookup(addr);
      FoundHeld(tree.g, calls, addr, freed);
      if freed.Some? {
        Leave(freed.value, tree.g);
      }
      Unregister(addr, freed);
    }

    /** The chunks of a region left over are listed like any others, in fast memory as long as that has room. */
    lemma Leftover(r: Region)
      requires Valid() && r in Stale(tree.g.blockSize, calls)
      ensures r in entries && forall n :: n in entries[r].nodes ==> n in tiers.fast + tiers.slow
      ensures 0 < tiers.freeFastChunks ==> forall n :: n in entries[r].nodes ==> n in tiers.fast
    {
      LiveExactly(tree.g, calls);
      assert EntryOk(entries, chunkSize, tiers.fast + tiers.slow, r);
    }

    /** handleSample: the chunk that contains the address becomes the most recently used one, if its region
        is found. */
    method SampleEvent(addr: nat) returns (chunk: Option<Chunk>)
      requires Valid() && addr < tree.g.Blocks() * tree.g.blockSize
      modifies this, tiers, tiers.fast, tiers.slow
      ensures Valid() && Grown() && entries == old(entries) && calls == old(calls) + [Access(addr)]
      ensures chunk.Some? <==> FoundAt(tree.g.blockSize, tree.live, addr) != {}
      ensures chunk.Some? ==>
        && chunk.value.start <= addr < chunk.value.start + chunk.value.size
        && tiers.history == old(tiers.history) + [L.Sample(chunk.value.start)]
      ensures chunk.None? ==> tiers.history == old(tiers.history)
    {
      var r := Lookup(addr);
      chunk := None;
      if r.Some? {
        assert r.value in FoundAt(tree.g.blockSize, tree.live, addr);
        var c := Touch(r.value, addr);
        chunk := Some(c);
      }
      ProperOn(tree.g, calls, Access(addr));
      calls := calls + [Access(addr)];
    }
  }

  /** The release of a region held finds that region, or none; any other release finds a region left over, or
      none. */
  lemma FoundHeld(g: Geometry, h: seq<Call>, a: nat, found: Option<Region>)
    requires g.Ok() && Proper(g, h) && Allowed(g, h, Release(a))
    requires FoundAt(g.blockSize, LiveAfter(g.blockSize, h), a) == if found.Some? then {found.value} else {}
    ensures found.Some? <==>
      if HeldAt(h, a) then a % g.blockSize != 0
      else StaleAt(g.blockSize, h, a)
    ensures found.Some? ==>
      && found.value in (if HeldAt(h, a) then Held(h) else Stale(g.blockSize, h))
      && found.value.Contains(a) && found.value in LiveAfter(g.blockSize, h)
  {
    var live := LiveAfter(g.blockSize, h);
    LiveExactly(g, h);
    assert found.Some? ==> found.value in FoundAt(g.blockSize, live, a);
    if HeldAt(h, a) {
      var r :| r in Held(h) && r.start == a;
      FoundAtStart(g, live, r);
    } else {
      ReleasedNone(g.blockSize, h, live, a);
      if StaleAt(g.blockSize, h, a) {
        var r :| r in Stale(g.blockSize, h) && r.Contains(a) && Findable(g.blockSize, live, r, a);
        assert r in FoundAt(g.blockSize, live, a);
      }
    }
  }

  lemma TrackedSame(es: Entries, chunkSize: nat, all: seq<L.Node>, all': seq<L.Node>)
    requires Tracked(es, chunkSize, all)
    requires (forall n :: n in all ==> n in all') && (forall n :: n in all' ==> n in all)
    ensures Tracked(es, chunkSize, all')
  {
    forall r | r in es ensures EntryOk(es, chunkSize, all', r) {
      assert EntryOk(es, chunkSize, all, r);
    }
    forall n | n in all' ensures Belongs(es, n) {
      assert n in all;
    }
  }

  lemma ProperOn(g: Geometry, h: seq<Call>, c: Call)
    requires g.Ok() && Proper(g, h) && Allowed(g, h, c)
    ensures Proper(g, h + [c]) && (h + [c])[..|h|] == h
  {
  }

  /** What getRegion answers, as a set. */
  lemma FoundIs(g: Geometry, live: set<Region>, found: Option<Region>, a: nat)
    requires g.Ok() && LiveOk(g, live)
    requires found.Some? ==> found.value in live && found.value.Contains(a)
    requires forall r :: r in live && r.Contains(a) ==> (found == Some(r) <==> Findable(g.blockSize, live, r, a))
    ensures FoundAt(g.blockSize, live, a) == if found.Some? then {found.value} else {}
  {
  }
}
