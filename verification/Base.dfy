/**
 * The metadata allocator (base.c): it maps blocks that start with a header, hands out aligned ranges
 * by moving a bump pointer through each block, and files what is left of a block by size class.
 * Sizes and addresses are in bytes; alignments are powers of two.
 */
module Base {
  import opened Basics
  import E = Eset

  const QUANTUM: nat := 16
  const HUGEPAGE: nat := 0x20_0000

  /** What is left of a block: an edata_t. */
  datatype Extent = Extent(sn: nat, addr: nat, bsize: nat)

  /** A block of whole pages, its bump pointer, and how many of its bytes are handed out, header
      included. */
  datatype Block = Block(page: nat, pages: nat, bump: nat, out: nat) {
    function Addr(): nat { PAGE * page }

    function End(): nat { PAGE * page + PAGE * pages }

    ghost predicate Ok(header: nat) {
      Addr() + header <= bump <= End() && header <= out <= bump - Addr()
    }

    /** The pages reached so far. */
    function Resident(): nat
      requires Addr() <= bump
    {
      AlignUp(bump - Addr(), PAGE)
    }
  }

  /** A range handed out. */
  datatype Range = Range(block: nat, start: nat, size: nat)

  datatype Stats = Stats(spent: int, resident: int, mapped: int)

  ghost predicate Oks(bs: seq<Block>, header: nat) {
    forall i {:trigger bs[i].Ok(header)} :: 0 <= i < |bs| ==> bs[i].Ok(header)
  }

  ghost function Totals(bs: seq<Block>, header: nat): Stats
    requires Oks(bs, header)
  {
    if bs == [] then Stats(0, 0, 0) else
      assert forall i :: 0 <= i < |bs| - 1 ==> bs[i].Ok(header);
      var b, t := bs[|bs| - 1], Totals(bs[..|bs| - 1], header);
      assert b.Ok(header);
      Stats(t.spent + b.out, t.resident + b.Resident(), t.mapped + PAGE * b.pages)
  }

  lemma ResidentFits(b: Block, header: nat)
    requires b.Ok(header)
    ensures b.out <= b.Resident() <= PAGE * b.pages
  {
    AlignUpWithin(b.bump - b.Addr(), b.pages);
  }

  lemma {:induction false} AlignUpWithin(x: nat, k: nat)
    requires x <= PAGE * k
    ensures AlignUp(x, PAGE) <= PAGE * k
  {
    if PAGE < x {
      AlignUpWithin(x - PAGE, k - 1);
    }
  }

  lemma {:induction false} TotalsOrdered(bs: seq<Block>, header: nat)
    requires Oks(bs, header)
    ensures var t := Totals(bs, header); t.spent <= t.resident <= t.mapped
  {
    if bs != [] {
      TotalsOrdered(bs[..|bs| - 1], header);
      ResidentFits(bs[|bs| - 1], header);
    }
  }

  lemma {:induction false} TotalsUpdate(bs: seq<Block>, header: nat, k: nat, b: Block)
    requires Oks(bs, header) && k < |bs| && bs[k].Ok(header) && b.Ok(header)
    ensures Oks(bs[k := b], header)
    ensures var t, u := Totals(bs, header), Totals(bs[k := b], header);
      && u.spent - t.spent == b.out - bs[k].out
      && u.resident - t.resident == b.Resident() - bs[k].Resident()
      && u.mapped - t.mapped == PAGE * b.pages - PAGE * bs[k].pages
  {
    var n := |bs| - 1;
    if k < n {
      TotalsUpdate(bs[..n], header, k, b);
      assert bs[k := b][..n] == bs[..n][k := b];
    } else {
      assert bs[k := b][..n] == bs[..n];
    }
  }

  lemma {:induction false} AlignUpFrom(k: nat, x: nat, a: nat)
    requires 1 <= a
    ensures AlignUp(k * a + x, a) == k * a + AlignUp(x, a)
  {
    if k != 0 {
      AlignUpFrom(k - 1, x, a);
      assert k * a == (k - 1) * a + a;
    }
  }

  lemma {:induction false} AlignUpQuantum(base: nat, a: nat)
    requires 1 <= a && a % QUANTUM == 0
    ensures AlignUp(base, a) % QUANTUM == 0
  {
    if a < base {
      AlignUpQuantum(base - a, a);
    }
  }

  lemma {:induction false} AlignUpHuge(base: nat, a: nat)
    requires 1 <= a && a % HUGEPAGE == 0
    ensures AlignUp(base, a) % HUGEPAGE == 0
  {
    if a < base {
      AlignUpHuge(base - a, a);
    }
  }

  /** Alignments that divide a huge page or are multiples of it, as all powers of two from a quantum. */
  predicate Aligns(a: nat) {
    a != 0 && a % QUANTUM == 0 && (HUGEPAGE % a == 0 || a % HUGEPAGE == 0)
  }

  lemma {:induction false} Pow2Split(i: nat, j: nat)
    ensures Pow2(i + j) == Pow2(i) * Pow2(j)
  {
    if i != 0 {
      Pow2Split(i - 1, j);
      var x, y := Pow2(i - 1), Pow2(j);
      assert 2 * (x * y) == 2 * x * y;
    }
  }

  lemma HugePow2()
    ensures Pow2(21) == HUGEPAGE
  {
    assert Pow2(10) == 1024 && Pow2(11) == 2048;
    Pow2Split(10, 11);
  }

  lemma Pow2Divides(i: nat, k: nat)
    requires i <= k
    ensures Pow2(k) % Pow2(i) == 0
  {
    Pow2Split(k - i, i);
    ModUnique(Pow2(k), Pow2(k - i), Pow2(i), 0);
  }

  lemma Pow2Aligns(k: nat)
    requires 4 <= k
    ensures Aligns(Pow2(k))
  {
    assert Pow2(4) == QUANTUM;
    HugePow2();
    Pow2Divides(4, k);
    if k <= 21 {
      Pow2Divides(k, 21);
    } else {
      Pow2Divides(21, k);
    }
  }

  lemma Regroup(x: nat, y: nat, z: nat)
    ensures x * y * z == z * x * y
  {
  }

  lemma GapDividing(hp: nat, header: nat, a: nat)
    requires 1 <= a && HUGEPAGE % a == 0
    ensures AlignUp(HUGEPAGE * hp + header, a) == HUGEPAGE * hp + AlignUp(header, a)
  {
    var m := HUGEPAGE / a;
    assert HUGEPAGE == m * a;
    Regroup(m, a, hp);
    AlignUpFrom(hp * m, header, a);
  }

  lemma GapMultiple(hp: nat, header: nat, a: nat)
    requires 1 <= a && a % HUGEPAGE == 0 && 0 < header <= HUGEPAGE
    ensures AlignUp(HUGEPAGE * hp + header, a) <= HUGEPAGE * hp + AlignUp(header, a)
  {
    AlignUpHuge(HUGEPAGE * hp + header, a);
    var q, m := AlignUp(HUGEPAGE * hp + header, a) / HUGEPAGE, a / HUGEPAGE;
    assert AlignUp(HUGEPAGE * hp + header, a) == HUGEPAGE * q && a == HUGEPAGE * m;
    assert q <= hp + m;
  }

  /** Behind the header of a block the gap is at most what the block was sized for. */
  lemma GapAfterHeader(hp: nat, header: nat, a: nat)
    requires Aligns(a) && 0 < header <= HUGEPAGE
    ensures AlignUp(HUGEPAGE * hp + header, a) <= HUGEPAGE * hp + AlignUp(header, a)
  {
    if HUGEPAGE % a == 0 {
      GapDividing(hp, header, a);
    } else {
      GapMultiple(hp, header, a);
    }
  }

  /** The gap before an aligned range is at most the alignment less a quantum. */
  lemma GapBound(addr: nat, a: nat)
    requires addr % QUANTUM == 0 && 1 <= a && a % QUANTUM == 0
    ensures AlignUp(addr, a) - addr <= a - QUANTUM
  {
    AlignUpQuantum(addr, a);
    var x, y, z := addr / QUANTUM, a / QUANTUM, AlignUp(addr, a) / QUANTUM;
    assert addr == QUANTUM * x && a == QUANTUM * y && AlignUp(addr, a) == QUANTUM * z;
    assert z < x + y;
  }

  // ----- the allocator -----

  /** The sizes of small and large allocations, for filing extents: any increasing sequence whose
      smallest member is at most a quantum. */
  ghost predicate SizeTable(sizes: seq<nat>) {
    1 <= |sizes| && sizes[0] <= QUANTUM && E.Increasing(sizes, |sizes|)
  }

  /** sz_size2index */
  function SizeIndex(sizes: seq<nat>, size: nat): (r: nat)
    ensures r <= |sizes| && (r < |sizes| ==> size <= sizes[r]) && (0 < r ==> sizes[r - 1] < size)
  {
    E.Classes(sizes, 0).IndexAt(size);
    E.Classes(sizes, 0).Index(size)
  }

  /** The huge pages that cover n pages. */
  function HugeCeil(n: nat): (r: nat)
    ensures PAGE * n <= HUGEPAGE * r
  {
    (n + 511) / 512
  }

  /** base_block_alloc's size, in huge pages: enough for the header and an aligned object behind it, and
      no less than the next in the series. */
  function BlockSize(c: E.Classes, header: nat, pindLast: nat, usize: nat, a: nat): nat
    requires c.Valid() && pindLast <= c.Count() && 1 <= a
  {
    var need := AlignUp(header, a) + usize;
    var minSize := HugeCeil(c.Size(c.Index((need + PAGE - 1) / PAGE)));
    var pindNext := if pindLast + 1 < c.Count() - 1 then pindLast + 1 else pindLast;
    var nextSize := HugeCeil(c.Size(pindNext));
    if nextSize < minSize then minSize else nextSize
  }

  /** The largest block there is. */
  function LargestBlock(c: E.Classes): nat
    requires c.Valid()
  {
    HUGEPAGE * HugeCeil(c.Max() + 1)
  }

  lemma HugeCeilMono(m: nat, n: nat)
    requires m <= n
    ensures HugeCeil(m) <= HugeCeil(n)
  {
  }

  lemma SizeBound(c: E.Classes, i: nat)
    requires c.Valid() && i <= c.Count()
    ensures 1 <= c.Size(i) <= c.Max() + 1
  {
    E.IncreasingAt(c.sizes, |c.sizes|);
  }

  /** A new block has room for its header and the aligned object if and only if the largest one has. */
  lemma BlockSizeFits(c: E.Classes, header: nat, pindLast: nat, usize: nat, a: nat)
    requires c.Valid() && pindLast <= c.Count() && 1 <= a
    ensures var need := AlignUp(header, a) + usize;
      need <= HUGEPAGE * BlockSize(c, header, pindLast, usize, a) <==> need <= LargestBlock(c)
    ensures HUGEPAGE * BlockSize(c, header, pindLast, usize, a) <= LargestBlock(c)
  {
    var need := AlignUp(header, a) + usize;
    var pages := (need + PAGE - 1) / PAGE;
    var i := c.Index(pages);
    var next := if pindLast + 1 < c.Count() - 1 then pindLast + 1 else pindLast;
    c.IndexAt(pages);
    SizeBound(c, i);
    SizeBound(c, next);
    HugeCeilMono(c.Size(i), c.Max() + 1);
    HugeCeilMono(c.Size(next), c.Max() + 1);
    if i < c.Count() {
      assert need <= PAGE * pages <= HUGEPAGE * HugeCeil(c.Size(i));
    }
  }

  /** A new block has just enough huge pages for the size class of the header and the aligned object behind it, and for
      the class after that of the last block, if there is another below the largest. */
  lemma BlockSizeExactly(c: E.Classes, header: nat, pindLast: nat, usize: nat, a: nat, n: nat)
    requires c.Valid() && pindLast <= c.Count() && 1 <= a
    ensures BlockSize(c, header, pindLast, usize, a) <= n <==>
      && PAGE * c.Size(c.Index((AlignUp(header, a) + usize + PAGE - 1) / PAGE)) <= HUGEPAGE * n
      && PAGE * c.Size(if pindLast + 2 < c.Count() then pindLast + 1 else pindLast) <= HUGEPAGE * n
  {
    HugeCeilLeast(c.Size(c.Index((AlignUp(header, a) + usize + PAGE - 1) / PAGE)), n);
    HugeCeilLeast(c.Size(if pindLast + 2 < c.Count() then pindLast + 1 else pindLast), n);
  }

  lemma HugeCeilLeast(pages: nat, n: nat)
    ensures HugeCeil(pages) <= n <==> PAGE * pages <= HUGEPAGE * n
  {
  }

  /** So blocks grow. */
  lemma BlocksGrow(c: E.Classes, header: nat, pages: nat, usize: nat, a: nat)
    requires c.Valid() && 1 <= a
    ensures Larger(c, pages, 512 * BlockSize(c, header, c.Index(pages), usize, a))
  {
    var i := c.Index(pages);
    var next := BlockSize(c, header, i, usize, a);
    c.IndexAt(pages);
    E.IncreasingAt(c.sizes, |c.sizes|);
    BlockSizeExactly(c, header, i, usize, a, next);
  }

  /** A block of so many pages may follow one of last pages: it is larger, until that is in one of the last two
      classes, and not smaller unless that is beyond the largest class. */
  predicate Larger(c: E.Classes, last: nat, pages: nat) {
    (c.Index(last) + 2 < c.Count() ==> last < pages) && (c.Index(last) < c.Count() ==> last <= pages)
  }

  /** The headers of n blocks. */
  ghost function Headers(n: nat, header: nat): nat {
    if n == 0 then 0 else Headers(n - 1, header) + header
  }

  lemma {:induction false} HeadersTimes(n: nat, header: nat)
    ensures Headers(n, header) == n * header
  {
    if n != 0 {
      HeadersTimes(n - 1, header);
      assert n * header == (n - 1) * header + header;
    }
  }

  ghost function Sizes(rs: seq<Range>): nat {
    if rs == [] then 0 else Sizes(rs[..|rs| - 1]) + rs[|rs| - 1].size
  }

  /** The bytes handed out are those of all ranges and headers, every block is larger than the one before, and the
      series of sizes is where the last block is. */
  ghost predicate CountedAs(c: E.Classes, header: nat, bs: seq<Block>, rs: seq<Range>, spent: nat, pind: nat) {
    && spent == Headers(|bs|, header) + Sizes(rs)
    && pind == (if bs == [] then 0 else c.Index(bs[|bs| - 1].pages))
    && forall i {:trigger Larger(c, bs[i].pages, bs[i + 1].pages)} :: 0 <= i < |bs| - 1 ==>
         Larger(c, bs[i].pages, bs[i + 1].pages)
  }

  lemma CountsBlock(c: E.Classes, header: nat, bs: seq<Block>, rs: seq<Range>, spent: nat, pind: nat, b: Block)
    requires CountedAs(c, header, bs, rs, spent, pind)
    requires bs != [] ==> Larger(c, bs[|bs| - 1].pages, b.pages)
    ensures CountedAs(c, header, bs + [b], rs, spent + header, c.Index(b.pages))
  {
    var bs' := bs + [b];
    forall i | 0 <= i < |bs'| - 1 ensures Larger(c, bs'[i].pages, bs'[i + 1].pages) {
      assert i < |bs| - 1 ==> Larger(c, bs[i].pages, bs[i + 1].pages);
    }
  }

  lemma CountsMapped(c: E.Classes, header: nat, bs: seq<Block>, rs: seq<Range>, spent: nat, pind: nat, b: Block,
                     usize: nat, a: nat)
    requires c.Valid() && 1 <= a && pind <= c.Count() && CountedAs(c, header, bs, rs, spent, pind)
    requires b.pages == 512 * BlockSize(c, header, pind, usize, a)
    ensures CountedAs(c, header, bs + [b], rs, spent + header, c.Index(b.pages))
  {
    if bs != [] {
      BlocksGrow(c, header, bs[|bs| - 1].pages, usize, a);
    }
    CountsBlock(c, header, bs, rs, spent, pind, b);
  }

  lemma CountsBump(c: E.Classes, header: nat, bs: seq<Block>, rs: seq<Range>, spent: nat, pind: nat, k: nat, b: Block,
                   r: Range)
    requires CountedAs(c, header, bs, rs, spent, pind) && k < |bs| && b.pages == bs[k].pages
    ensures CountedAs(c, header, bs[k := b], rs + [r], spent + r.size, pind)
  {
    assert (rs + [r])[..|rs|] == rs;
    var bs' := bs[k := b];
    forall i | 0 <= i < |bs'| - 1 ensures Larger(c, bs'[i].pages, bs'[i + 1].pages) {
      assert Larger(c, bs[i].pages, bs[i + 1].pages);
    }
  }

  /** The bump pointer of b moves over a gap and size bytes. */
  function Bumped(b: Block, gap: nat, size: nat): Block {
    b.(bump := b.bump + gap + size, out := b.out + size)
  }

  ghost predicate BlocksApart(bs: seq<Block>) {
    forall i, j :: 0 <= i < j < |bs| ==> bs[i].End() <= bs[j].Addr() || bs[j].End() <= bs[i].Addr()
  }

  /** r lies in its block, between the header and the bump pointer. */
  ghost predicate Inside(bs: seq<Block>, header: nat, r: Range) {
    r.block < |bs| && bs[r.block].Addr() + header <= r.start && r.start + r.size <= bs[r.block].bump
  }

  /** The ranges handed out lie below the bump pointers, and in each block they follow each other. */
  ghost predicate RangesApart(rs: seq<Range>, bs: seq<Block>, header: nat) {
    && (forall i :: 0 <= i < |rs| ==> Inside(bs, header, rs[i]))
    && (forall i, j :: 0 <= i < j < |rs| && rs[i].block == rs[j].block ==> rs[i].start + rs[i].size <= rs[j].start)
  }

  lemma ApartBump(rs: seq<Range>, bs: seq<Block>, header: nat, k: nat, gap: nat, size: nat, bs': seq<Block>)
    requires k < |bs| && bs[k].Addr() + header <= bs[k].bump && BlocksApart(bs) && RangesApart(rs, bs, header)
    requires bs' == bs[k := Bumped(bs[k], gap, size)]
    ensures BlocksApart(bs') && RangesApart(rs + [Range(k, bs[k].bump + gap, size)], bs', header)
  {
    forall i | 0 <= i < |rs|
      ensures Inside(bs', header, rs[i]) && (rs[i].block == k ==> rs[i].start + rs[i].size <= bs[k].bump)
    {
      assert Inside(bs, header, rs[i]);
    }
  }

  lemma BumpStep(b: Block, header: nat, gap: nat, size: nat)
    requires b.Ok(header) && b.bump + gap + size <= b.End()
    ensures Bumped(b, gap, size).Ok(header)
    ensures Bumped(b, gap, size).Resident() - b.Resident() == AlignUp(b.bump + gap + size, PAGE) - AlignUp(b.bump, PAGE)
  {
    AlignUpFrom(b.page, b.bump - b.Addr(), PAGE);
    AlignUpFrom(b.page, b.bump + gap + size - b.Addr(), PAGE);
  }

  /** A new block apart from all others keeps blocks and ranges apart. */
  lemma ApartAppend(rs: seq<Range>, bs: seq<Block>, header: nat, b: Block)
    requires BlocksApart(bs) && RangesApart(rs, bs, header)
    requires forall i :: 0 <= i < |bs| ==> bs[i].End() <= b.Addr() || b.End() <= bs[i].Addr()
    ensures BlocksApart(bs + [b]) && RangesApart(rs, bs + [b], header)
  {
    forall i | 0 <= i < |rs| ensures Inside(bs + [b], header, rs[i]) {
      assert Inside(bs, header, rs[i]);
    }
  }

  /** Blocks and ranges are as they should be, and the counters agree. */
  ghost predicate Laid(bs: seq<Block>, rs: seq<Range>, header: nat, st: Stats) {
    && 0 < header <= HUGEPAGE && Oks(bs, header) && BlocksApart(bs) && RangesApart(rs, bs, header)
    && Totals(bs, header) == st
  }

  /** The bump pointer of block k moved over a gap and a new range. */
  lemma LaidBump(bs: seq<Block>, rs: seq<Range>, header: nat, st: Stats, k: nat, gap: nat, size: nat,
                 bs': seq<Block>, rs': seq<Range>, st': Stats)
    requires Laid(bs, rs, header, st) && k < |bs| && bs[k].bump + gap + size <= bs[k].End()
    requires bs' == bs[k := Bumped(bs[k], gap, size)] && st'.spent == st.spent + size && st'.mapped == st.mapped
    requires st'.resident == st.resident + AlignUp(bs[k].bump + gap + size, PAGE) - AlignUp(bs[k].bump, PAGE)
    requires rs' == rs + [Range(k, bs[k].bump + gap, size)]
    ensures Laid(bs', rs', header, st')
  {
    BumpStep(bs[k], header, gap, size);
    TotalsUpdate(bs, header, k, Bumped(bs[k], gap, size));
    ApartBump(rs, bs, header, k, gap, size, bs');
  }

  lemma TotalsAppend(bs: seq<Block>, header: nat, b: Block)
    requires Oks(bs, header) && b.Ok(header)
    ensures Oks(bs + [b], header) && Totals(bs + [b], header).spent == Totals(bs, header).spent + b.out
    ensures Totals(bs + [b], header).resident == Totals(bs, header).resident + b.Resident()
    ensures Totals(bs + [b], header).mapped == Totals(bs, header).mapped + PAGE * b.pages
  {
    assert (bs + [b])[..|bs|] == bs;
  }

  /** A new block, its header handed out. */
  lemma LaidAppend(bs: seq<Block>, rs: seq<Range>, header: nat, st: Stats, b: Block)
    requires Laid(bs, rs, header, st) && b.bump == b.Addr() + header <= b.End() && b.out == header
    requires forall i :: 0 <= i < |bs| ==> bs[i].End() <= b.Addr() || b.End() <= bs[i].Addr()
    ensures Laid(bs + [b], rs, header,
                 Stats(st.spent + header, st.resident + AlignUp(header, PAGE), st.mapped + PAGE * b.pages))
  {
    TotalsAppend(bs, header, b);
    ApartAppend(rs, bs, header, b);
    assert b.bump - b.Addr() == header;
  }

  lemma QuantumLeft(x: nat, y: nat, end: nat)
    requires x % QUANTUM == 0 && y % QUANTUM == 0 && x + y <= PAGE * end
    ensures (x + y) % QUANTUM == 0 && (x + y == PAGE * end || x + y + QUANTUM <= PAGE * end)
  {
  }

  /** An aligned range in a block ends on a quantum, and what is left is nothing or at least a quantum. */
  lemma RestQuantum(b: Block, a: nat, size: nat)
    requires 1 <= a && a % QUANTUM == 0 && size % QUANTUM == 0 && AlignUp(b.bump, a) + size <= b.End()
    ensures var next := AlignUp(b.bump, a) + size;
      next % QUANTUM == 0 && (next == b.End() || next + QUANTUM <= b.End())
  {
    AlignUpQuantum(b.bump, a);
    QuantumLeft(AlignUp(b.bump, a), size, b.page + b.pages);
  }

  /** An extent is what is behind the bump pointer of its block. */
  ghost predicate Rest(bs: seq<Block>, e: Extent) {
    && e.sn < |bs| && e.addr == bs[e.sn].bump && e.addr + e.bsize == bs[e.sn].End()
    && e.addr % QUANTUM == 0 && 0 < e.bsize
  }

  /** What is left behind an aligned range is nothing, or an extent of at least a quantum. */
  lemma RestBehind(bs: seq<Block>, k: nat, gap: nat, size: nat, a: nat)
    requires k < |bs| && 1 <= a && a % QUANTUM == 0 && size % QUANTUM == 0
    requires bs[k].bump + gap == AlignUp(bs[k].bump, a) && bs[k].bump + gap + size <= bs[k].End()
    ensures var next := bs[k].bump + gap + size; var left: nat := bs[k].End() - next;
      0 < left ==> QUANTUM <= left && Rest(bs[k := Bumped(bs[k], gap, size)], Extent(k, next, left))
  {
    RestQuantum(bs[k], a, size);
  }

  /** Class i is the largest that does not exceed the size. */
  ghost predicate FloorClass(sizes: seq<nat>, i: nat, bsize: nat) {
    i < |sizes| && sizes[i] <= bsize && (i + 1 < |sizes| ==> bsize < sizes[i + 1])
  }

  /** What is left of block k is in the heap of its class. */
  ghost predicate InHeap(av: seq<set<Extent>>, bs: seq<Block>, i: nat, k: nat)
    requires k < |bs|
  {
    i < |av| && bs[k].bump < bs[k].End() && Extent(k, bs[k].bump, bs[k].End() - bs[k].bump) in av[i]
  }

  ghost predicate Bounded(bs: seq<Block>, largest: nat) {
    forall k {:trigger bs[k].pages} :: 0 <= k < |bs| ==> PAGE * bs[k].pages <= largest
  }

  /** Each heap holds extents of its class, and place says of each block in which heap its rest is, if in any. */
  ghost predicate Filed(av: seq<set<Extent>>, sizes: seq<nat>, bs: seq<Block>, place: seq<int>) {
    && SizeTable(sizes) && |av| == |sizes| && |place| == |bs|
    && (forall i, e :: 0 <= i < |av| && e in av[i] ==>
          Rest(bs, e) && FloorClass(sizes, i, e.bsize) && place[e.sn] == i)
    && (forall k {:trigger place[k]} :: 0 <= k < |place| ==>
          place[k] == -1 || (0 <= place[k] && InHeap(av, bs, place[k], k)))
  }

  /** No extent of block k is filed. */
  ghost predicate Out(place: seq<int>, k: nat) { k < |place| && place[k] == -1 }

  /** Every block has its rest filed, or is used up, except those in lost. */
  ghost predicate AllFiled(bs: seq<Block>, place: seq<int>, lost: set<nat>) {
    && |place| == |bs|
    && forall k {:trigger place[k]} :: 0 <= k < |bs| && k !in lost && place[k] == -1 ==> bs[k].bump == bs[k].End()
  }

  /** e is what is left of its block, which is not filed. */
  ghost predicate Behind(bs: seq<Block>, place: seq<int>, e: Extent) {
    Out(place, e.sn) && e.sn < |bs| && e.addr == bs[e.sn].bump && e.addr + e.bsize == bs[e.sn].End()
  }

  lemma FiledBump(av: seq<set<Extent>>, sizes: seq<nat>, bs: seq<Block>, place: seq<int>, k: nat, b: Block)
    requires Filed(av, sizes, bs, place) && Out(place, k)
    ensures Filed(av, sizes, bs[k := b], place)
  {
    forall j | 0 <= j < |place| ensures place[j] == -1 || (0 <= place[j] && InHeap(av, bs[k := b], place[j], j)) {
      assert place[j] == -1 || InHeap(av, bs, place[j], j);
    }
  }

  lemma FiledAppend(av: seq<set<Extent>>, sizes: seq<nat>, bs: seq<Block>, place: seq<int>, b: Block)
    requires Filed(av, sizes, bs, place)
    ensures Filed(av, sizes, bs + [b], place + [-1])
  {
    var place' := place + [-1];
    forall j | 0 <= j < |place'| ensures place'[j] == -1 || (0 <= place'[j] && InHeap(av, bs + [b], place'[j], j)) {
      assert j < |place| ==> place[j] == -1 || InHeap(av, bs, place[j], j);
    }
  }

  lemma FiledPut(av: seq<set<Extent>>, sizes: seq<nat>, bs: seq<Block>, place: seq<int>, i: nat, e: Extent)
    requires Filed(av, sizes, bs, place) && Out(place, e.sn) && Rest(bs, e) && FloorClass(sizes, i, e.bsize)
    ensures Filed(av[i := av[i] + {e}], sizes, bs, place[e.sn := i])
  {
    var av', place' := av[i := av[i] + {e}], place[e.sn := i];
    forall j | 0 <= j < |place'| ensures place'[j] == -1 || (0 <= place'[j] && InHeap(av', bs, place'[j], j)) {
      assert j != e.sn ==> place[j] == -1 || InHeap(av, bs, place[j], j);
    }
  }

  lemma FiledTake(av: seq<set<Extent>>, sizes: seq<nat>, bs: seq<Block>, place: seq<int>, i: nat, e: Extent)
    requires Filed(av, sizes, bs, place) && i < |av| && e in av[i] && forall x :: x in av[i] && x.sn == e.sn ==> x == e
    ensures e.sn < |place| && Filed(av[i := av[i] - {e}], sizes, bs, place[e.sn := -1])
  {
    assert Rest(bs, e);
    var av', place' := av[i := av[i] - {e}], place[e.sn := -1];
    forall j | 0 <= j < |place'| ensures place'[j] == -1 || (0 <= place'[j] && InHeap(av', bs, place'[j], j)) {
      assert j != e.sn ==> place[j] == -1 || InHeap(av, bs, place[j], j);
    }
  }

  lemma AllFiledTake(bs: seq<Block>, place: seq<int>, lost: set<nat>, k: nat)
    requires AllFiled(bs, place, lost) && k < |place|
    ensures AllFiled(bs, place[k := -1], lost + {k})
  {
  }

  lemma AllFiledAppend(bs: seq<Block>, place: seq<int>, lost: set<nat>, bs': seq<Block>)
    requires AllFiled(bs, place, lost) && |bs'| == |bs| + 1 && bs == bs'[..|bs|]
    ensures AllFiled(bs', place + [-1], lost + {|bs|})
  {
    var place' := place + [-1];
    forall k | 0 <= k < |bs'| && k !in lost + {|bs|} && place'[k] == -1 ensures bs'[k].bump == bs'[k].End() {
      assert place[k] == -1 && bs'[k] == bs[k];
    }
  }

  lemma AllFiledPut(bs: seq<Block>, place: seq<int>, lost: set<nat>, k: nat, b: Block, i: int)
    requires AllFiled(bs, place, lost + {k}) && k < |bs| && (i == -1 ==> b.bump == b.End())
    ensures AllFiled(bs[k := b], place[k := i], lost)
  {
    var bs', place' := bs[k := b], place[k := i];
    forall j | 0 <= j < |bs'| && j !in lost && place'[j] == -1 ensures bs'[j].bump == bs'[j].End() {
      assert j != k ==> place[j] == -1;
    }
  }

  /** What is left of b is not in any heap from class i on. */
  ghost predicate Lacks(b: Block, sizes: seq<nat>, i: nat) {
    i < |sizes| ==> b.End() - b.bump < sizes[i] || b.End() == b.bump
  }

  /** No block, except those in lost, has enough left to be in the heaps that are looked through for asize bytes. */
  ghost predicate NoneLeft(bs: seq<Block>, lost: set<nat>, sizes: seq<nat>, asize: nat) {
    forall k {:trigger Lacks(bs[k], sizes, SizeIndex(sizes, asize))} :: 0 <= k < |bs| && k !in lost ==>
      Lacks(bs[k], sizes, SizeIndex(sizes, asize))
  }

  /** Such a block would have been found. */
  lemma NothingLeft(av: seq<set<Extent>>, sizes: seq<nat>, bs: seq<Block>, place: seq<int>, lost: set<nat>, asize: nat)
    requires Filed(av, sizes, bs, place) && AllFiled(bs, place, lost)
    requires forall j :: SizeIndex(sizes, asize) <= j < |av| ==> av[j] == {}
    ensures NoneLeft(bs, lost, sizes, asize)
  {
    var i := SizeIndex(sizes, asize);
    forall k | 0 <= k < |bs| && k !in lost ensures Lacks(bs[k], sizes, i) {
      if i < |sizes| && place[k] != -1 {
        E.IncreasingAt(sizes, |sizes|);
        var e := Extent(k, bs[k].bump, bs[k].End() - bs[k].bump);
        assert e in av[place[k]] && FloorClass(sizes, place[k], e.bsize);
      }
    }
  }

  lemma OneRest(bs: seq<Block>, x: Extent, e: Extent)
    requires Rest(bs, x) && Rest(bs, e) && x.sn == e.sn
    ensures x == e
  {
  }

  /** bsize bytes from addr hold size bytes at alignment a. */
  predicate Fits(addr: nat, bsize: nat, size: nat, a: nat)
    requires 1 <= a
  {
    AlignUp(addr, a) + size <= addr + bsize
  }

  lemma BlockHolds(c: E.Classes, header: nat, pindLast: nat, usize: nat, a: nat)
    requires c.Valid() && pindLast <= c.Count() && 1 <= a && header <= HUGEPAGE
    ensures header <= HUGEPAGE * BlockSize(c, header, pindLast, usize, a)
  {
    var i := c.Index((AlignUp(header, a) + usize + PAGE - 1) / PAGE);
    SizeBound(c, i);
    HugeCeilMono(1, c.Size(i));
  }

  /** A new block of n huge pages at huge page hp, behind its header. */
  lemma Room(hp: nat, header: nat, n: nat, usize: nat, a: nat)
    requires Aligns(a) && 0 < header <= HUGEPAGE * n && header <= HUGEPAGE
    ensures var fits := Fits(PAGE * (512 * hp) + header, PAGE * (512 * n) - header, usize, a);
      && (AlignUp(header, a) + usize <= HUGEPAGE * n ==> fits)
      && (HUGEPAGE % a == 0 && fits ==> AlignUp(header, a) + usize <= HUGEPAGE * n)
  {
    GapAfterHeader(hp, header, a);
    if HUGEPAGE % a == 0 {
      GapDividing(hp, header, a);
    }
  }

  lemma {:induction false} AlignUpMono(x: nat, y: nat, a: nat)
    requires 1 <= a && x <= y
    ensures AlignUp(x, a) <= AlignUp(y, a)
  {
    if a < x {
      AlignUpMono(x - a, y - a, a);
    }
  }

  /** A request that fits in what is left of a block would fit behind the block's header. */
  lemma RestFits(b: Block, header: nat, usize: nat, a: nat)
    requires b.Addr() + header <= b.bump <= b.End() && b.bump % QUANTUM == 0 && 1 <= a && a % QUANTUM == 0
    requires usize + a - QUANTUM <= b.End() - b.bump
    ensures AlignUp(header, a) + usize <= PAGE * b.pages
  {
    var x := b.bump - b.Addr();
    assert x % QUANTUM == 0;
    AlignUpMono(header, x, a);
    GapBound(x, a);
  }

  /** What base_alloc_impl comes to: an address, no memory, or a mapped block that does not hold the request. */
  datatype Outcome = Got(addr: nat) | NoMemory | TooSmall

  class Base {
    const c: E.Classes
    const sizes: seq<nat>
    const header: nat
    const avail: array<set<Extent>>
    var pindLast: nat
    var snNext: nat
    var spent: nat
    var resident: int
    var mapped: nat
    ghost var blocks: seq<Block>
    ghost var ranges: seq<Range>
    ghost var place: seq<int>
    ghost var lost: set<nat>

    ghost predicate Valid()
      reads this, avail
    {
      Inv() && AllFiled(blocks, place, lost) && Counted()
    }

    ghost predicate Counted()
      reads this
    {
      CountedAs(c, header, blocks, ranges, spent, pindLast)
    }

    ghost predicate Inv()
      reads this, avail
    {
      && c.Valid() && pindLast <= c.Count() && snNext == |blocks| && Filed(avail[..], sizes, blocks, place)
      && Laid(blocks, ranges, header, Stats(spent, resident, mapped)) && Bounded(blocks, LargestBlock(c))
    }

    /** Any two ranges handed out are disjoint. */
    lemma Disjoint(i: nat, j: nat)
      requires Inv() && i < j < |ranges|
      ensures ranges[i].start + ranges[i].size <= ranges[j].start || ranges[j].start + ranges[j].size <= ranges[i].start
    {
      var p, q := ranges[i].block, ranges[j].block;
      assert Inside(blocks, header, ranges[i]) && Inside(blocks, header, ranges[j]);
      assert blocks[p].Ok(header) && blocks[q].Ok(header);
      if p < q {
        assert blocks[p].End() <= blocks[q].Addr() || blocks[q].End() <= blocks[p].Addr();
      } else if q < p {
        assert blocks[q].End() <= blocks[p].Addr() || blocks[p].End() <= blocks[q].Addr();
      }
    }

    /** The counters: all bytes handed out, headers included, the pages reached, and the blocks. */
    lemma StatsOrdered()
      requires Valid()
      ensures spent == |blocks| * header + Sizes(ranges) && spent <= resident <= mapped
    {
      TotalsOrdered(blocks, header);
      HeadersTimes(|blocks|, header);
    }

    /** Every block is larger than the one before, as long as the series of classes goes on. */
    lemma BlocksRise(i: nat)
      requires Valid() && i + 1 < |blocks|
      ensures c.Index(blocks[i].pages) + 2 < c.Count() ==> blocks[i].pages < blocks[i + 1].pages
      ensures blocks[i].pages <= c.Max() ==> blocks[i].pages <= blocks[i + 1].pages
    {
      c.IndexAt(blocks[i].pages);
      assert Larger(c, blocks[i].pages, blocks[i + 1].pages);
    }

    constructor (classes: E.Classes, table: seq<nat>, headerSize: nat)
      requires classes.Valid() && SizeTable(table) && 0 < headerSize <= HUGEPAGE
      ensures Valid() && fresh(avail) && blocks == [] && ranges == [] && lost == {}
      ensures sizes == table && header == headerSize
    {
      c, sizes, header := classes, table, headerSize;
      avail := new set<Extent>[|table|](_ => {});
      pindLast, snNext, spent, resident, mapped, blocks, ranges, place, lost := 0, 0, 0, 0, 0, [], [], [], {};
    }

    /** The pointer of block k moves and the counters with it. */
    method MoveBump(k: nat, addr: nat, gap: nat, size: nat)
      requires Inv() && Out(place, k) && k < |blocks| && addr == blocks[k].bump
      requires addr + gap + size <= blocks[k].End()
      modifies this`spent, this`resident, this`blocks, this`ranges
      ensures Inv() && blocks == old(blocks)[k := Bumped(old(blocks[k]), gap, size)]
      ensures ranges == old(ranges) + [Range(k, addr + gap, size)] && spent == old(spent) + size
      ensures resident == old(resident) + AlignUp(addr + gap + size, PAGE) - AlignUp(addr, PAGE)
    {
      ghost var bs := blocks[k := Bumped(blocks[k], gap, size)];
      ghost var st := Stats(spent, resident, mapped);
      FiledBump(avail[..], sizes, blocks, place, k, Bumped(blocks[k], gap, size));
      spent := spent + size;
      resident := resident + AlignUp(addr + gap + size, PAGE) - AlignUp(addr, PAGE);
      ghost var rs := ranges + [Range(k, addr + gap, size)];
      LaidBump(blocks, ranges, header, st, k, gap, size, bs, rs, Stats(spent, resident, mapped));
      blocks, ranges := bs, rs;
    }

    /** The largest class that does not exceed the size. */
    method FloorIndex(bsize: nat) returns (i: nat)
      requires SizeTable(sizes) && QUANTUM <= bsize
      ensures FloorClass(sizes, i, bsize)
    {
      i := SizeIndex(sizes, bsize + 1) - 1;
    }

    /** What is left is filed under the largest class it holds. */
    method File(e: Extent)
      requires Inv() && Out(place, e.sn) && Rest(blocks, e) && QUANTUM <= e.bsize
      modifies avail, this`place
      ensures Inv() && e.sn < |place| && 0 <= place[e.sn] < |sizes| && place == old(place)[e.sn := place[e.sn]]
      ensures FloorClass(sizes, place[e.sn], e.bsize)
      ensures avail[..] == old(avail[..])[place[e.sn] := old(avail[..])[place[e.sn]] + {e}]
    {
      var floor := FloorIndex(e.bsize);
      FiledPut(avail[..], sizes, blocks, place, floor, e);
      avail[floor] := avail[floor] + {e};
      place := place[e.sn := floor];
      assert avail[..] == old(avail[..])[floor := avail[floor]];
    }

    /** base_extent_bump_alloc, for an extent that holds the range. */
    method BumpAlloc(e: Extent, size: nat, a: nat) returns (ret: nat)
      requires Inv() && 1 <= a && a % QUANTUM == 0 && size % QUANTUM == 0
      requires Behind(blocks, place, e) && Fits(e.addr, e.bsize, size, a)
      modifies this`spent, this`resident, this`blocks, this`ranges, this`place, avail
      ensures Inv() && ret == AlignUp(e.addr, a) && ranges == old(ranges) + [Range(e.sn, ret, size)]
      ensures blocks == old(blocks)[e.sn := Bumped(old(blocks)[e.sn], ret - e.addr, size)]
      ensures e.sn < |place| && place == old(place)[e.sn := place[e.sn]]
      ensures place[e.sn] == -1 <==> ret + size == e.addr + e.bsize
      ensures spent == old(spent) + size
      ensures resident == old(resident) + AlignUp(ret + size, PAGE) - AlignUp(e.addr, PAGE)
    {
      var rest;
      ret, rest := MoveOver(e, size, a);
      if 0 < rest.bsize {
        File(rest);
      }
    }

    /** base_extent_bump_alloc_helper: the pointer moves, and rest is what is left. */
    method MoveOver(e: Extent, size: nat, a: nat) returns (ret: nat, rest: Extent)
      requires Inv() && 1 <= a && a % QUANTUM == 0 && size % QUANTUM == 0
      requires Behind(blocks, place, e) && Fits(e.addr, e.bsize, size, a)
      modifies this`spent, this`resident, this`blocks, this`ranges
      ensures Inv() && ret == AlignUp(e.addr, a) && ranges == old(ranges) + [Range(e.sn, ret, size)]
      ensures blocks == old(blocks)[e.sn := Bumped(old(blocks)[e.sn], ret - e.addr, size)]
      ensures rest == Extent(e.sn, ret + size, e.addr + e.bsize - ret - size)
      ensures 0 < rest.bsize ==> Rest(blocks, rest) && QUANTUM <= rest.bsize
      ensures spent == old(spent) + size
      ensures resident == old(resident) + AlignUp(ret + size, PAGE) - AlignUp(e.addr, PAGE)
    {
      var gap := AlignUp(e.addr, a) - e.addr;
      ret := e.addr + gap;
      RestBehind(blocks, e.sn, gap, size, a);
      assert e.addr + gap + size == ret + size;
      MoveBump(e.sn, e.addr, gap, size);
      rest := Extent(e.sn, ret + size, e.bsize - gap - size);
    }

    method TakeOne(i: nat) returns (e: Extent)
      requires Inv() && i < avail.Length && avail[i] != {}
      modifies avail, this`place
      ensures Inv() && Rest(blocks, e) && sizes[i] <= e.bsize && Out(place, e.sn) && place == old(place)[e.sn := -1]
      ensures e in old(avail[i]) && avail[..] == old(avail[..])[i := old(avail[i]) - {e}]
    {
      e :| e in avail[i];
      assert e in avail[..][i] && Rest(blocks, e);
      forall x | x in avail[..][i] && x.sn == e.sn ensures x == e {
        OneRest(blocks, x, e);
      }
      FiledTake(avail[..], sizes, blocks, place, i, e);
      avail[i] := avail[i] - {e};
      place := place[e.sn := -1];
      assert avail[..] == old(avail[..])[i := avail[i]];
    }

    /** An extent of the first heap that is not empty, from asize's class on; it is at least that large. */
    method TakeExtent(asize: nat) returns (r: Option<Extent>)
      requires Inv()
      modifies avail, this`place
      ensures Inv()
      ensures r.None? ==> place == old(place) && forall i :: SizeIndex(sizes, asize) <= i < |sizes| ==> avail[i] == {}
      ensures r.Some? ==>
        && Rest(blocks, r.value) && asize <= r.value.bsize && Out(place, r.value.sn)
        && place == old(place)[r.value.sn := -1]
        && exists i :: SizeIndex(sizes, asize) <= i < |sizes| && r.value in old(avail[..])[i]
             && forall j :: SizeIndex(sizes, asize) <= j < i ==> old(avail[..])[j] == {}
    {
      E.IncreasingAt(sizes, |sizes|);
      r := None;
      for i := SizeIndex(sizes, asize) to |sizes|
        invariant Inv() && place == old(place) && avail[..] == old(avail[..])
        invariant forall j :: SizeIndex(sizes, asize) <= j < i ==> avail[j] == {}
      {
        if avail[i] != {} {
          var e := TakeOne(i);
          return Some(e);
        }
      }
    }

    /** A mapped block is entered, with its header handed out. */
    method AddBlock(page: nat, pages: nat) returns (e: Extent)
      requires Inv() && header <= PAGE * pages <= LargestBlock(c)
      requires forall i :: 0 <= i < |blocks| ==>
                 blocks[i].End() <= PAGE * page || PAGE * page + PAGE * pages <= blocks[i].Addr()
      modifies this`pindLast, this`snNext, this`spent, this`resident, this`mapped, this`blocks, this`place
      ensures Inv() && place == old(place) + [-1] && pindLast == c.Index(pages)
      ensures blocks == old(blocks) + [Block(page, pages, PAGE * page + header, header)]
      ensures e == Extent(|old(blocks)|, PAGE * page + header, PAGE * pages - header)
      ensures spent == old(spent) + header && mapped == old(mapped) + PAGE * pages
      ensures resident == old(resident) + AlignUp(header, PAGE) && ranges == old(ranges)
    {
      ghost var b := Block(page, pages, PAGE * page + header, header);
      LaidAppend(blocks, ranges, header, Stats(spent, resident, mapped), b);
      FiledAppend(avail[..], sizes, blocks, place, b);
      e := Extent(snNext, PAGE * page + header, PAGE * pages - header);
      snNext := snNext + 1;
      pindLast := c.Index(pages);
      spent := spent + header;
      resident := resident + AlignUp(header, PAGE);
      mapped := mapped + PAGE * pages;
      blocks, place := blocks + [b], place + [-1];
    }

    /** The hook that maps memory returns huge pages apart from what is mapped. */
    ghost predicate Maps(mapping: nat -> Option<nat>)
      reads this
    {
      forall n, i :: mapping(n).Some? && 0 <= i < |blocks| ==>
        blocks[i].End() <= HUGEPAGE * mapping(n).value || HUGEPAGE * mapping(n).value + HUGEPAGE * n <= blocks[i].Addr()
    }

    /** What the search for an extent of usize bytes at alignment a comes to: it fits exactly if it is no
        more than the largest block holds, as far as the alignment is no more than a huge page. */
    ghost predicate Holds(e: Extent, usize: nat, a: nat)
      requires c.Valid() && 1 <= a
    {
      && (AlignUp(header, a) + usize <= LargestBlock(c) ==> Fits(e.addr, e.bsize, usize, a))
      && (HUGEPAGE % a == 0 && Fits(e.addr, e.bsize, usize, a) ==> AlignUp(header, a) + usize <= LargestBlock(c))
    }

    /** base_extent_alloc: a new block. */
    method ExtentAlloc(usize: nat, a: nat, mapping: nat -> Option<nat>) returns (r: Option<Extent>)
      requires Inv() && Maps(mapping) && Aligns(a)
      modifies this`pindLast, this`snNext, this`spent, this`resident, this`mapped, this`blocks, this`place
      ensures Inv()
      ensures r.None? ==>
        && blocks == old(blocks) && place == old(place) && pindLast == old(pindLast)
        && mapping(BlockSize(c, header, old(pindLast), usize, a)).None?
      ensures r.Some? ==>
        && r.value.sn == |old(blocks)| && |blocks| == |old(blocks)| + 1 && old(blocks) == blocks[..|old(blocks)|]
        && place == old(place) + [-1] && Behind(blocks, place, r.value) && Holds(r.value, usize, a)
      ensures r.Some? ==>
        && blocks[|old(blocks)|].pages == 512 * BlockSize(c, header, old(pindLast), usize, a)
        && pindLast == c.Index(blocks[|old(blocks)|].pages)
      ensures spent == old(spent) + if r.None? then 0 else header
    {
      var n := BlockSize(c, header, pindLast, usize, a);
      var hp := mapping(n);
      if hp.None? {
        return None;
      }
      NewBlock(c, hp.value, header, pindLast, usize, a);
      var e := AddBlock(512 * hp.value, 512 * n);
      r := Some(e);
    }

    /** A new block, in the series of blocks. */
    method MapBlock(usize: nat, a: nat, mapping: nat -> Option<nat>) returns (r: Option<Extent>)
      requires Inv() && Counted() && Maps(mapping) && Aligns(a)
      modifies this`pindLast, this`snNext, this`spent, this`resident, this`mapped, this`blocks, this`place
      ensures Inv() && Counted()
      ensures r.None? ==>
        blocks == old(blocks) && place == old(place) && mapping(BlockSize(c, header, old(pindLast), usize, a)).None?
      ensures r.Some? ==>
        && r.value.sn == |old(blocks)| && |blocks| == |old(blocks)| + 1 && old(blocks) == blocks[..|old(blocks)|]
        && place == old(place) + [-1] && Behind(blocks, place, r.value) && Holds(r.value, usize, a)
    {
      ghost var bs, n, pind := blocks, spent, pindLast;
      r := ExtentAlloc(usize, a, mapping);
      if r.Some? {
        CountsMapped(c, header, bs, ranges, n, pind, blocks[|bs|], usize, a);
        assert blocks == bs + [blocks[|bs|]];
      }
    }

    /** The extent for a request: from the heaps, or else from a new block, which is mapped only when no block
        has enough left. */
    method GetExtent(usize: nat, a: nat, mapping: nat -> Option<nat>) returns (e: Option<Extent>, ghost asked: bool)
      requires Valid() && Maps(mapping) && Aligns(a)
      modifies this`pindLast, this`snNext, this`spent, this`resident, this`mapped, this`blocks, this`place, avail
      ensures Inv() && AllFiled(blocks, place, lost + if e.None? then {} else {e.value.sn}) && Counted()
      ensures e.None? ==> asked && mapping(BlockSize(c, header, old(pindLast), usize, a)).None?
      ensures e.Some? ==> Behind(blocks, place, e.value) && Holds(e.value, usize, a)
      ensures asked ==> NoneLeft(old(blocks), lost, sizes, usize + a - QUANTUM)
      ensures !asked ==> |blocks| == |old(blocks)|
    {
      ghost var bs, was := blocks, place;
      e := TakeExtent(usize + a - QUANTUM);
      asked := e.None?;
      if e.None? {
        NothingLeft(avail[..], sizes, blocks, place, lost, usize + a - QUANTUM);
        e := MapBlock(usize, a, mapping);
        if e.Some? {
          AllFiledAppend(bs, was, lost, blocks);
        }
      } else {
        RestHolds(blocks, c, header, e.value, usize, a);
        AllFiledTake(blocks, was, lost, e.value.sn);
      }
    }

    /** There is no memory only if the block that is next could not be mapped. A block is too small only for a request
        beyond the largest one, and such a request gets nothing if the alignment divides a huge page. */
    ghost predicate Answers(r: Outcome, usize: nat, a: nat, pind: nat, mapping: nat -> Option<nat>)
      requires c.Valid() && pind <= c.Count() && 1 <= a
    {
      && (r.NoMemory? ==> mapping(BlockSize(c, header, pind, usize, a)).None?)
      && (r.TooSmall? ==> LargestBlock(c) < AlignUp(header, a) + usize)
      && (HUGEPAGE % a == 0 && LargestBlock(c) < AlignUp(header, a) + usize ==> !r.Got?)
    }

    /** The allocation of usize bytes at alignment a, both rounded up. */
    method AllocAligned(usize: nat, a: nat, mapping: nat -> Option<nat>) returns (r: Outcome)
      requires Valid() && Maps(mapping) && Aligns(a) && usize % QUANTUM == 0
      modifies this, avail
      ensures Valid() && (!r.Got? ==> ranges == old(ranges)) && (!r.TooSmall? ==> lost == old(lost))
      ensures r.Got? ==> r.addr % a == 0 && exists k :: ranges == old(ranges) + [Range(k, r.addr, usize)]
      ensures Answers(r, usize, a, old(pindLast), mapping)
      ensures r.NoMemory? || |blocks| != |old(blocks)| ==>
        NoneLeft(old(blocks), old(lost), sizes, usize + a - QUANTUM)
    {
      ghost var asked;
      var e;
      e, asked := GetExtent(usize, a, mapping);
      if e.None? {
        return NoMemory;
      }
      if !Fits(e.value.addr, e.value.bsize, usize, a) {
        lost := lost + {e.value.sn};
        return TooSmall;
      }
      var ret := Carve(e.value, usize, a);
      r := Got(ret);
    }

    /** The range is cut out of an extent that holds it. */
    method Carve(e: Extent, usize: nat, a: nat) returns (ret: nat)
      requires Inv() && AllFiled(blocks, place, lost + {e.sn}) && Counted() && Aligns(a) && usize % QUANTUM == 0
      requires Behind(blocks, place, e) && Fits(e.addr, e.bsize, usize, a)
      modifies this`spent, this`resident, this`blocks, this`ranges, this`place, avail
      ensures Valid() && ret % a == 0 && ranges == old(ranges) + [Range(e.sn, ret, usize)]
      ensures |blocks| == |old(blocks)| && forall i :: 0 <= i < |blocks| ==> blocks[i].pages == old(blocks)[i].pages
    {
      ghost var bs, was, n := blocks, place, spent;
      ret := BumpAlloc(e, usize, a);
      CountsBump(c, header, bs, old(ranges), n, pindLast, e.sn, blocks[e.sn], Range(e.sn, ret, usize));
      AllFiledPut(bs, was, lost, e.sn, blocks[e.sn], place[e.sn]);
      AlignUpMultiple(e.addr, a);
    }

    /** base_alloc_impl: the range is aligned, holds the request, and, by Valid, is disjoint from all others.
        What is left of its block is filed again. It fails only when a block is refused, or when the request
        is beyond the largest block: then the assertion in base_extent_bump_alloc_helper does not hold, and
        the extent is lost. */
    method Alloc(size: nat, lgAlignment: nat, mapping: nat -> Option<nat>) returns (r: Outcome)
      requires Valid() && Maps(mapping)
      modifies this, avail
      ensures Valid() && (!r.Got? ==> ranges == old(ranges)) && (!r.TooSmall? ==> lost == old(lost))
      ensures r.Got? ==> r.addr % Pow2(lgAlignment) == 0
      ensures var a := AlignUp(Pow2(lgAlignment), QUANTUM);
        var usize := AlignUp(size, a);
        && (r.Got? ==> exists k :: ranges == old(ranges) + [Range(k, r.addr, usize)])
        && Answers(r, usize, a, old(pindLast), mapping)
        && (r.NoMemory? || |blocks| != |old(blocks)| ==> NoneLeft(old(blocks), old(lost), sizes, usize + a - QUANTUM))
    {
      var a := AlignUp(Pow2(lgAlignment), QUANTUM);
      QuantumCeiling(lgAlignment);
      AlignUpQuantum(size, a);
      r := AllocAligned(AlignUp(size, a), a, mapping);
      if r.Got? {
        AlignedTo(r.addr, a, lgAlignment);
      }
    }
  }

  /** A new block of n huge pages at huge page hp. */
  lemma NewBlock(c: E.Classes, hp: nat, header: nat, pindLast: nat, usize: nat, a: nat)
    requires c.Valid() && pindLast <= c.Count() && Aligns(a) && 0 < header <= HUGEPAGE
    ensures header <= PAGE * (512 * BlockSize(c, header, pindLast, usize, a)) <= LargestBlock(c)
    ensures var n := BlockSize(c, header, pindLast, usize, a);
      var fits := Fits(PAGE * (512 * hp) + header, PAGE * (512 * n) - header, usize, a);
      && (AlignUp(header, a) + usize <= LargestBlock(c) ==> fits)
      && (HUGEPAGE % a == 0 && fits ==> AlignUp(header, a) + usize <= LargestBlock(c))
  {
    BlockSizeFits(c, header, pindLast, usize, a);
    BlockHolds(c, header, pindLast, usize, a);
    Room(hp, header, BlockSize(c, header, pindLast, usize, a), usize, a);
  }

  lemma RestHolds(bs: seq<Block>, c: E.Classes, header: nat, e: Extent, usize: nat, a: nat)
    requires c.Valid() && Oks(bs, header) && Bounded(bs, LargestBlock(c)) && Rest(bs, e) && Aligns(a)
    requires usize + a - QUANTUM <= e.bsize
    ensures Fits(e.addr, e.bsize, usize, a) && AlignUp(header, a) + usize <= LargestBlock(c)
  {
    assert bs[e.sn].Ok(header);
    GapBound(e.addr, a);
    RestFits(bs[e.sn], header, usize, a);
  }

  lemma QuantumCeiling(k: nat)
    ensures AlignUp(Pow2(k), QUANTUM) == (if k <= 4 then QUANTUM else Pow2(k)) && Aligns(AlignUp(Pow2(k), QUANTUM))
  {
    assert Pow2(4) == QUANTUM && Pow2(3) == 8 && Pow2(2) == 4 && Pow2(1) == 2 && Pow2(0) == 1;
    if 4 < k {
      Pow2Split(k - 4, 4);
      AlignUpFrom(Pow2(k - 4), 0, QUANTUM);
      Pow2Aligns(k);
    }
  }

  lemma AlignedTo(x: nat, a: nat, k: nat)
    requires a == AlignUp(Pow2(k), QUANTUM) && x % a == 0
    ensures x % Pow2(k) == 0
  {
    QuantumCeiling(k);
    if k < 4 {
      Pow2Split(4 - k, k);
      var q, p, r := x / 16, Pow2(4 - k), Pow2(k);
      assert Pow2(4) == 16 == p * r;
      assert q * (p * r) == (q * p) * r;
      ModUnique(x, q * p, r, 0);
    }
  }
}
