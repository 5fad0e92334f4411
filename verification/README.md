# Shambles: verified models of its memory-management core

Shambles places the memory of an unmodified program into fast and slow tiers. Its plugins listen to
allocation events and access samples, and a patched jemalloc provides the allocations. This project
models the stateful parts of both in Dafny and proves what they are relied on for. Verify everything with
`dafny verify dfyconfig.toml`.

## What is modelled

* **Huge-page slabs** (`PageSet`, `Hpdata`, `HpaShard`, `HpaRuns`). A slab is a first-fit page allocator that caches
  its longest free range and two counters. A shard of slabs is a transition system in which any number of
  threads allocate, free, purge and hugify; a purge drops the shard lock between handing out its ranges.
  `HpaShard.Apply` is built from the value functions that the methods of `Hpdata.Hpdata` are proved against.
  `HpaRuns` says what each step does to pages and flags, and what they are after a whole run, by its steps alone.
* **Extents** (`Emap`, `CacheValues`, `ExtentCache`, `Eset`). The page map from boundary pages to extents,
  splitting, merging and the coalescing cache; the size-class bins with cached minima, first fit and aligned
  fit; the sizing of splits and of fresh mappings. `CacheValues` says on plain values which pages a cache
  holds before and after each step.
* **Cuckoo hash table** (`Cuckoo`). Buckets of four cells, eviction chains, rebuilding, growth and shrinking.
* **LRU tiering** (`LruTier`, `LruOrder`). The two circular lists of the LRU plugin as linked nodes on the heap,
  and what their order means.
* **Region tree** (`RegionTree`). The reference-counted radix tree from addresses to regions, and the chunks
  of a region.
* **Callbacks** (`LruPlugin`). The allocations, releases and samples of a program, as the LRU plugin takes them
  through the region tree to the two lists.
* **Decay clock** (`Decay`, `Smoothstep`). The backlog of unused pages, the page limit, and the search for the
  next purge; the same with the table of factors and the threshold in use.
* **Small-object bins** (`SlabRegions`, `SlabBin`). The region bitmap of a slab, the current, non-full and full
  slabs of a bin, and the fill loop that drops the bin lock while it allocates slabs. A bin knows the set of
  its regions in use, which is exactly the regions that are not free.
* **Metadata allocator** (`Base`) and **fixed-point numbers** (`Fxp`).

`Basics` holds the few definitions that several modules share.

Some things that are true of the code but not obvious from it:

* A reservation that has to be undone, because its extent cannot be registered, leaves dirty pages that may not be
  purged before something else happens to their slab (`HpaRuns.UndoneUnseen`); after anything else a slab may be
  purged exactly when it has dirty pages and nothing is going on with it (`HpaRuns.PurgeReady`).
* A failed insertion into the hash table does not drop the new binding: it drops the binding that was in
  hand when growth failed, which is an older one unless the table had already grown (`Cuckoo.Ckh.Insert`).
* A region that starts on a block boundary is never found in its first block (`RegionTree.AlignedStartLost`),
  and in a last block that it fills only in part it is not found unless another region starts inside that
  block (`RegionTree.PartialEndLost`); everywhere else it is found (`RegionTree.LookupExact`).
* So the release of a region that starts on a block boundary is ignored: the regions registered are those that
  the program holds, and regions on a block boundary left over from such releases (`LruPlugin.LiveExactly`).
  Their chunks stay in the lists like any others, in fast memory as long as that has room
  (`LruPlugin.Plugin.Leftover`). A region left over goes only when its memory is used again for an allocation
  too small to be registered and that one is released at an address where the region is found: then it goes
  with all its chunks (`LruPlugin.StaysUntilHit`, `LruPlugin.InnerRelease`). All this takes it that no large
  allocation overlaps a region still registered.
* With padded large allocations, a request beyond the largest size class may be given an extent that is too
  small, and every such request can be (`Eset.FitTooSmall`); with no padding, or up to the largest class, none
  ever is (`Eset.Eset.Fit`). Builds with assertions stop at `jemalloc/src/sz.c:37` in that case.
* With an alignment that divides a huge page, the metadata allocator hands out nothing beyond the largest block
  it maps, in whatever state it is: such a request gets a block that does not hold it, where builds with
  assertions stop at `jemalloc/src/base.c:185`, unless no block is to be had (`Base.Base.Alloc`).
* A fixed-point number survives printing and parsing if and only if its fraction is a multiple of four units;
  otherwise it comes back one unit smaller (`Fxp.RoundTrip`).
* `decay.h` announces a wait after which between half and one and a half times the threshold should be purged.
  The search in `decay.c` ends with bounds whose purge amounts are at most the threshold apart, or which are at
  most two intervals apart, and the wait is their middle. `Decay.KeptExactly` says for what bounds that is as
  announced. Two conditions can be checked without the search: it is as announced if both the shortest and the
  longest wait are (`Decay.KeptBetween`); and with the table and the threshold in use, for a batch of unused
  pages, if and only if its size is in one of nine ranges (`Smoothstep.BatchExactly`): 1714 pages are, 1715 are
  not, and above some 155 million pages none is.

Where the documentation says more than the code does, as in the last case, the code is followed.

## Model

| member | source | states |
|---|---|---|
| Hpdata.Hpdata.constructor | jemalloc/src/hpdata.c:20-41 | a fresh slab satisfies the consistency conditions, with the whole slab as its longest free range |
| Hpdata.Hpdata.FindFit | jemalloc/src/hpdata.c:43-91 | the run taken is the lowest free run that is long enough, and the largest run passed over is known exactly |
| Hpdata.Hpdata.ReserveAlloc | jemalloc/src/hpdata.c:43-134 | reserving takes the first fit; exactly these pages become active and touched, the dirty pages are the old ones outside them, no flag changes, and the cached longest range and both counters are exact afterwards although the rest is rescanned only if a maximal run was consumed |
| Hpdata.ScanAfterReserve | jemalloc/src/hpdata.c:105-129 | the rest of the scan after a reservation covers every free run of the new bitmap |
| Hpdata.LongestUnchanged | jemalloc/src/hpdata.c:105-129 | if the run used was not a longest one, the longest run stays as long as it was |
| Hpdata.Hpdata.Unreserve | jemalloc/src/hpdata.c:136-164 | freeing makes exactly these pages inactive and dirty, no flag changes, and the cached longest range is exact again |
| Hpdata.LongestAfterFree | jemalloc/src/hpdata.c:147-159 | looking only at the run around the freed pages is enough to know the longest run |
| Hpdata.CollectToPurge | jemalloc/src/hpdata.c:205-243 | the collecting loop yields exactly the inactive pages that lie between dirty pages with no active page in between |
| Hpdata.Hpdata.PurgeBegin | jemalloc/src/hpdata.c:166-256 | the purge state starts with those pages and with the exact number of dirty ones |
| Hpdata.Hpdata.PurgeNext | jemalloc/src/hpdata.c:258-288 | each call hands out the next maximal range of the pages to purge, or says that there is none |
| Hpdata.Hpdata.PurgeEnd | jemalloc/src/hpdata.c:290-309 | exactly the purged pages are untouched again, nothing else changes, and the touched counter is exact |
| Hpdata.Hpdata.Hugify | jemalloc/src/hpdata.c:311-318 | the slab is huge, every page is touched, and nothing else changes |
| Hpdata.Hpdata.Dehugify | jemalloc/src/hpdata.c:320-325 | only the flag changes, and the slab stays consistent |
| HpaShard.ToPurgeCovers | jemalloc/src/hpdata.c:205-251 | everything dirty is purged, nothing active is, and of the touched pages exactly the dirty ones are |
| HpaShard.ToPurgeTogether | jemalloc/src/hpdata.c:205-243 | pages to purge that no active page separates are purged as one range |
| HpaShard.SpanEndsDirty | jemalloc/src/hpdata.c:205-288 | every range handed out begins and ends with a dirty page |
| HpaShard.DallocInv | jemalloc/src/hpa.c:823-846 | a free keeps the invariant of a slab at any time, also in the middle of its purge |
| HpaShard.BeginPurgeInv | jemalloc/src/hpa.c:380-418 | a purge starts only on a slab that nobody is changing, and keeps the shard invariant |
| HpaShard.EndPurgeInv | jemalloc/src/hpa.c:437-462 | the end of a purge keeps the shard invariant whatever was freed in the meantime |
| HpaShard.StepInv | jemalloc/src/hpa.c:317-846 | every step of every thread keeps the invariant: slabs consistent, live allocations disjoint and exactly the active pages, flags as far as pages and purges allow, shard counters the sums over the slabs; what a step makes of pages and flags is in the rows of `HpaRuns` |
| HpaShard.RunInv | jemalloc/src/hpa.c:317-846 | the invariant holds after every run of any interleaving |
| HpaShard.PendingWithinDirty | jemalloc/src/hpa.c:278-282 | in every reachable state the pages pending purge do not exceed the dirty pages, so the subtraction does not wrap |
| HpaShard.PurgeIsSafe | jemalloc/src/hpa.c:420-435 | in every reachable state the range about to be given to the system touches no live allocation and no range handed out before |
| HpaShard.PurgeWindow | jemalloc/src/hpa.c:396-459 | from the start of a purge to its end, whatever other threads do, the pages to purge and the touched pages stay the same and no page to purge becomes active |
| HpaShard.WholePurge | jemalloc/src/hpa.c:380-462 | over a whole purge the ranges handed out are disjoint and together exactly the pages to purge; afterwards the old dirty pages are untouched and the dirty pages are those freed meanwhile |
| HpaRuns.OtherStep | jemalloc/src/hpa.c:317-846 | a step changes no slab but the one it is about, and a new slab is empty, untouched and may serve |
| HpaRuns.TouchedStep | jemalloc/src/hpa.c:317-846 | a page becomes touched only when it is taken or its slab hugified, and untouched only by a purge |
| HpaRuns.ActiveStep | jemalloc/src/hpa.c:317-846 | a page becomes active only when it is allocated and inactive only when it is freed, and so for the live allocations |
| HpaRuns.StateStep | jemalloc/src/hpa.c:380-512 | a slab becomes huge only by hugifying and stays so until a purge, and the flags of what is going on follow |
| HpaRuns.FlagsStep | jemalloc/src/hpa.c:317-370 | after every step that looks, a slab may be purged if and only if it has dirty pages and nothing is going on with it, and hugified if and only if besides it is not empty, and was so allowed before or is full enough and not huge |
| HpaRuns.CountersExactly | jemalloc/src/hpa.c:278-315 | the counters of a shard are the numbers of active pages, of dirty pages, and of dirty pages being purged |
| HpaRuns.TouchedExactly | jemalloc/src/hpa.c:317-846 | after every run a page is touched if and only if it was taken, or its slab hugified, and no purge has covered it since |
| HpaRuns.LiveExactly | jemalloc/src/hpa.c:317-846 | after every run an allocation is live if and only if it was made and not freed since |
| HpaRuns.HugeExactly | jemalloc/src/hpa.c:380-512 | after every run a slab is huge if and only if it was hugified and not purged since |
| HpaRuns.PurgeReady | jemalloc/src/hpa.c:317-392 | after every run a purge may begin only on a slab with dirty pages with which nothing is going on, and then may, unless the last step about the slab undid a reservation |
| HpaRuns.PurgeReached | jemalloc/src/hpa.c:317-392 | a run of an allocation and its free reaches a state in which a purge may begin |
| HpaRuns.PurgeGoesOn | jemalloc/src/hpa.c:420-462 | as long as a slab is being purged, either the next range can be handed out or the purge can end, and never both |
| HpaRuns.PurgeCompletes | jemalloc/src/hpa.c:420-462 | every purge can be brought to its end |
| HpaRuns.HugifyReached | jemalloc/src/hpa.c:464-512 | a run that fills a slab enough can hugify it |
| HpaRuns.UndoneUnseen | jemalloc/src/hpa.c:556-600 | a run with a reservation undone leaves a dirty page that may not be purged |
| HpaRuns.Served | jemalloc/src/hpa.c:556-640 | a slab that is not being purged serves every request up to its longest free range, and what it hands out can be freed |
| Emap.DisjointExactly | jemalloc/src/emap.c:157-175 | the extents of a page map do not overlap if and only if no page is in two of them |
| Emap.Map.UpdateState | jemalloc/src/emap.c:18-39 | both boundary entries follow a change of state |
| Emap.Map.RegisterBoundary | jemalloc/src/emap.c:157-175 | registering keeps the entries exactly the boundary pages of the live extents, and changes nothing on failure |
| Emap.Map.DeregisterBoundary | jemalloc/src/emap.c:215-233 | deregistering takes out exactly the entries of that extent |
| Emap.Map.Split | jemalloc/src/extent.c:1173-1232 | after a split, also into one-page parts whose boundary entries coincide, the page map is exact, lead and trail make up the old extent, and a failure changes nothing |
| Emap.Map.Merge | jemalloc/src/extent.c:1241-1288 | after a merge the page map is exact, the lead covers both, keeps its flags, and has the smaller of the two serial numbers |
| Emap.NeighborLookup | jemalloc/src/emap.c:41-94 | the entry of the page next to an extent leads to the adjacent extent if and only if there is one |
| Emap.Map.TryAcquireNeighbor | jemalloc/src/emap.c:41-94 | a neighbour is acquired exactly when there is an adjacent extent in the wanted state that the head and commit rules allow |
| ExtentCache.Ecache.CoalesceForward | jemalloc/src/extent.c:836-849 | one merge takes one extent out of the page map and gives its pages to the extent being placed; without one, no cached extent ahead is mergeable |
| ExtentCache.Ecache.CoalesceBackward | jemalloc/src/extent.c:851-865 | the same towards lower addresses, where the neighbour takes over |
| ExtentCache.Ecache.TryCoalesce | jemalloc/src/extent.c:819-872 | the loop ends with no mergeable neighbour left on either side; the extent has gained exactly the pages that the cache has lost, every other extent is as it was, and the result has the least serial number of all extents in it, the commit flag of them all and the head flag of the first |
| ExtentCache.Ecache.Record | jemalloc/src/extent.c:914-953 | exactly the pages of the extent join those in the cache, no page leaves the page map, no mergeable neighbours arise, the extent filed has the least serial number of all that went into it, and everything else is untouched |
| ExtentCache.Ecache.RecycleSplit | jemalloc/src/extent.c:531-589 | it fails exactly when a split that is needed fails, and then exactly that extent is lost; otherwise the pages before and behind the result, and no others, are put back without creating mergeable neighbours, and every piece has the serial number and flags of the whole |
| ExtentCache.Ecache.Recycle | jemalloc/src/extent.c:595-636 | the wanted pages, and no others, leave the cache as one active extent, with the serial number and flags of the one they come from; it fails exactly when a split that is needed fails, and then exactly the extent chosen is lost |
| ExtentCache.Ecache.Expand | jemalloc/src/extent.c:384-447 | on success exactly the wanted pages leave the cache and join the extent, which gets the smaller serial number; with no extent behind it that begins no mapping and is large enough nothing changes; if the split fails exactly that extent is lost and the active one stays as it is |
| ExtentCache.Ecache.Evict | jemalloc/src/extent.c:150-219 | evicting an extent keeps the cache settled; from the retained cache it leaves the page map too |
| ExtentCache.Ecache.AddFresh | jemalloc/src/extent.c:992-1025 | a fresh mapping enters the page map as an active extent and keeps the cache settled; if it cannot be registered nothing changes |
| CacheValues.OtherCacheKept | jemalloc/include/jemalloc/internal/ecache.h:12-14 | a step of one cache keeps every cache for another state over the same page map |
| CacheValues.SerialsFall | jemalloc/src/extent.c:1241-1288 | by coalescing no page gets a higher serial number or another commit flag |
| Eset.Classes.BinsCompare | jemalloc/src/sz.c:9-54 | an extent's bin is at or above a request's bin if and only if its floor class is at least the request's ceiling class, and then it is large enough |
| Eset.Classes.BinsExactly | jemalloc/src/sz.c:9-54 | an extent is in a bin at or above that of a request if and only if a padded class lies between their sizes, or the request is for the padding alone |
| Eset.Classes.OversizeUnpadded | jemalloc/src/sz.c:9-54 | without padding, no extent is in a bin that a request beyond the largest class looks into |
| Eset.Classes.OversizePadded | jemalloc/src/sz.c:9-54 | with padding, every request beyond the largest class looks into the bin where an extent one page above it is filed |
| Eset.OversizeSearch | jemalloc/src/eset.c:205-259 | such a request is looked for in the bin behind the last class and there alone, whatever the fit limit |
| Eset.Eset.Insert | jemalloc/src/eset.c:71-111 | bins, bitmap, cached minima and page count stay exact for the extents listed |
| Eset.Eset.Remove | jemalloc/src/eset.c:113-156 | the same for removal, although the minimum is recomputed only when the removed summary equals it |
| Eset.CutSpec | jemalloc/src/eset.c:223-233 | the maximum-fit test is upward closed over the bins, so stopping at the first bin that fails it skips no candidate |
| Eset.Eset.FirstFit | jemalloc/src/eset.c:205-259 | the bitmap scan over cached minima returns the oldest, and of these the lowest, of the listed extents that compete, and none only if none does: those of the exact bin, or those at or above it whose class, shifted by the limit, is at most the request |
| Eset.Eset.SearchedExactly | jemalloc/src/eset.c:217-233 | the bins searched are those of the extents that compete, by the limit on the ratio of class and request |
| Eset.Eset.Unlimited | jemalloc/src/eset.c:223-233 | without a limit every extent at or above the bin of the request competes, as class sizes fit in 64 bits |
| Eset.HostsExactly | jemalloc/src/eset.c:162-193 | an extent hosts a request if and only if an aligned range of that size lies in it |
| Eset.Eset.FitAlignment | jemalloc/src/eset.c:162-193 | it returns the least extent of the lowest bin whose least extent hosts the aligned request, with the wrap-around of addresses |
| Eset.Eset.Fit | jemalloc/src/eset.c:261-282 | the answer is the oldest, lowest extent of the bins for the padded size, else the first least extent of a lower bin that is aligned well, else none; it hosts the aligned request whenever there is no padding or the request is within the largest class |
| Eset.FitTooSmall | jemalloc/src/eset.c:261-282 | for every other request some set of extents is answered with an extent that does not host it, so that condition is exact |
| Eset.SplitFits | jemalloc/src/extent.c:475-523 | a split cannot be refused exactly when the extent hosts the request; lead, result and trail then partition it with the result aligned |
| Eset.Eset.Take | jemalloc/src/extent.c:384-447 | an extent taken out of the set for a request is cut into lead, aligned result and trail |
| Eset.ExpGrow.SizePrepare | jemalloc/include/jemalloc/internal/exp_grow.h:21-36 | the size is the first of the series that is large enough, and it fails exactly when none below the last class is |
| Eset.ExpGrow.GrowRetained | jemalloc/src/extent.c:643-663 | a fresh mapping of the first class that is large enough always hosts the aligned request, so the refusal branch is never taken, and the series moves behind that class, but not beyond its limit; it fails only when the size overflows, no class is left or the mapping is refused, and then stays where it was |
| Cuckoo.Ckh.constructor | jemalloc/src/ckh.c:358-413 | a new table is empty, at most three quarters full with the items asked for, and a power of two that is less than twice what this needs |
| Cuckoo.Ckh.ISearch | jemalloc/src/ckh.c:79-98 | looking into the two buckets of a key finds it if and only if it is in the table |
| Cuckoo.Ckh.Search | jemalloc/src/ckh.c:521-539 | searching is map lookup |
| Cuckoo.CountIs | jemalloc/src/ckh.c:100-124 | the count kept for a table is the number of its items |
| Cuckoo.Ckh.EvictRelocInsert | jemalloc/src/ckh.c:132-201 | table plus item in hand is conserved through any chain of evictions, ended or not, and every item stays in one of its two buckets; the chain evicts one item after the other from the bucket the last one goes to, it fails exactly on coming back to its first bucket, with an old item in hand, and it is reported as running only after all evictions allowed |
| Cuckoo.OtherHome | jemalloc/src/ckh.c:163-184 | an evicted item goes to its other bucket, and to the same one only if it has no other |
| Cuckoo.Ckh.TryInsert | jemalloc/src/ckh.c:203-227 | a free cell of the first bucket is filled, else one of the second, with nothing else changed; items are evicted only if both are full, and then as above |
| Cuckoo.Ckh.Rebuild | jemalloc/src/ckh.c:233-253 | the scan of the old table stays inside it; success moves exactly its items, failure restores the count and happens only where a chain of evictions can come back |
| Cuckoo.Ckh.Grow | jemalloc/src/ckh.c:255-308 | success keeps the items in a larger table; failure leaves table, buckets and count as they were and happens only at a size that is refused; sizes are passed over only if a chain of evictions can come back there |
| Cuckoo.Ckh.Shrink | jemalloc/src/ckh.c:310-356 | whether or not shrinking succeeds, the map and the count are the same; it fails only if the smaller size is refused or a chain of evictions can come back there |
| Cuckoo.Ckh.Insert | jemalloc/src/ckh.c:465-486 | with a free cell in its buckets the new binding goes there and nothing else changes; success always gives exactly the old map plus the new binding; failure, only when a size that was needed is refused, gives that without the binding in hand; it is still running only if some chain of evictions has used all that were allowed |
| Cuckoo.Ckh.Remove | jemalloc/src/ckh.c:488-519 | exactly one binding goes; if less than a quarter of the table is then full and it may shrink, it is halved, or that size is refused or may not do, and otherwise it stays |
| Cuckoo.Ckh.Iter | jemalloc/src/ckh.c:444-463 | each call yields one item and leaves exactly the others to visit |
| Cuckoo.LeftItems | jemalloc/src/ckh.c:444-463 | at every index, what an iteration has visited and what it still visits make up the whole table |
| LruTier.Dq | plugins/lru.c:32-46 | the ring loses exactly that node and keeps its order, for the head, the only node and any other |
| LruTier.Push | plugins/lru.c:48-60 | the node becomes the head of the ring |
| LruTier.Enq | plugins/lru.c:62-73 | the node becomes the last of the ring |
| LruTier.Tiers.AllocRegion | plugins/lru.c:75-106 | new chunks go behind all others in order, into fast memory while there is room |
| LruTier.Tiers.FreeRegion | plugins/lru.c:109-139 | freed chunks leave, the order of the others stays, and fast memory is refilled from the front of the slow list |
| LruTier.Tiers.HandleSample | plugins/lru.c:142-167 | a sampled chunk becomes the head of the fast list, and over both lists the others keep their order, so that the last fast chunk becomes the first slow one if the sampled one was slow |
| LruTier.FastIsPrefix | plugins/lru.c:75-167 | after every history the fast chunks are exactly the first chunks of one recency list, as many as fit |
| LruTier.Inclusion | plugins/lru.c:75-167 | on the same history, the fast chunks of a smaller tier are among those of a larger one |
| LruTier.HitsMonotone | plugins/lru.c:142-167 | on every history a larger fast tier has at least as many fast samples |
| LruOrder.RecencyOrder | plugins/lru.c:75-167 | after every history the recency list has the chunks allocated and not freed since, in the order of their last use, and behind them those never used, in the order of allocation |
| LruOrder.FastUsedLater | plugins/lru.c:75-167 | a chunk in fast memory was used later than every chunk in slow memory, or neither was used and it was allocated earlier |
| RegionTree.CanonUnique | plugins/structures.c:123-363 | only one tree holds a given set of registrations, so the tree does not depend on the order of additions and deletions |
| RegionTree.SameRoot | plugins/structures.c:123-363 | two trees that hold the same live regions are equal |
| RegionTree.InsertCanon | plugins/structures.c:152-172 | registering one block gives the tree of the registrations with it: counters are their numbers, arrays exist exactly where there are some |
| RegionTree.DeleteCanon | plugins/structures.c:312-335 | deleting one registration finds its way, clears only its own half and frees exactly the arrays that became empty |
| RegionTree.AddEffect | plugins/structures.c:152-221 | registering a region block by block turns the tree of the live regions into that of the live regions with it |
| RegionTree.DropEffect | plugins/structures.c:340-363 | deleting it block by block never loses its way and gives back the tree of the others |
| RegionTree.RegionTree.AddRegion | plugins/structures.c:123-221 | the tree is that of the live regions with the new one |
| RegionTree.RegionTree.DeleteRegion | plugins/structures.c:340-363 | the tree is that of the other live regions |
| RegionTree.RegionTree.GetRegion | plugins/structures.c:66-92 | any answer is the live region that contains the address, and a region is found exactly at its findable addresses |
| RegionTree.LookupExact | plugins/structures.c:66-92 | a region is found at an address of its own if and only if the address is not in an aligned first block, nor in a partial last block in which no region starts |
| RegionTree.AlignedStartLost | plugins/structures.c:152-174 | at no address in the first block of a block-aligned live region is any region found |
| RegionTree.PartialEndLost | plugins/structures.c:199-220 | nor at any address of its last block that it fills in part, if no live region starts inside that block |
| RegionTree.AlignedStartExample | plugins/structures.c:152-174 | every single block, at any address, is such a region |
| RegionTree.PartialEndExample | plugins/structures.c:199-220 | so is every block with a part of the next |
| RegionTree.MakeChunks | plugins/structures.c:133-150 | the chunks of a region tile it, all of one size but the last |
| RegionTree.ChunkByDivision | plugins/structures.c:94-104 | dividing the offset by the chunk size finds the chunk of an address |
| RegionTree.GetChunkInfoNU | plugins/structures.c:106-118 | the linear search finds the chunk of an address for chunks of any sizes |
| LruPlugin.FoundAtStart | plugins/lru.c:110-112 | at its own start a registered region is found if and only if it does not start on a block boundary, and no other is |
| LruPlugin.LiveExactly | plugins/lru.c:75-140 | after every run the regions registered are those that the program holds and, apart from them, regions on a block boundary whose release was ignored and which no later release has found |
| LruPlugin.StaysUntilHit | plugins/lru.c:110-138 | a region on a block boundary stays registered after its allocation up to the first release at an inner address where it is found, and no longer |
| LruPlugin.StaysStep | plugins/lru.c:110-138 | only such a release takes it out, and only after its own release |
| LruPlugin.InnerRelease | plugins/lru.c:110-138 | for every region on a block boundary and every address of a block between its first and its last, a run of allocation, release and release of a small allocation there ends with nothing registered |
| LruPlugin.InnerReleaseExample | plugins/lru.c:110-138 | two blocks and the start of the second are such a run |
| LruPlugin.Plugin.AllocEvent | plugins/lru.c:75-106 | a large allocation is registered and its chunks go behind all others; a small one changes nothing |
| LruPlugin.Plugin.FreeEvent | plugins/lru.c:109-139 | at the start of a region held, that region and its chunks leave if and only if it does not start on a block boundary; at any other address a region left over leaves with its chunks if and only if it is found there; otherwise nothing changes |
| LruPlugin.Plugin.Leftover | plugins/lru.c:109-139 | the chunks of a region left over are listed, and fast while there is room |
| LruPlugin.Plugin.SampleEvent | plugins/lru.c:142-167 | the chunk that contains the address becomes the most recently used one if a region is found there, and otherwise the lists stay |
| Decay.LeftAntitone | jemalloc/src/decay.c:96-110 | with nondecreasing factors, what is left of a backlog falls with time |
| Decay.AdvancedSum | jemalloc/src/decay.c:117-138 | the weighted sum after an advance is what is left of the old records plus the new one in full |
| Decay.Decay.BacklogUpdate | jemalloc/src/decay.c:117-150 | the new limit is at most the larger of the old limit and the current pages, so the assertion on the ceiling holds |
| Decay.Decay.MaybeAdvanceEpoch | jemalloc/src/decay.c:176-208 | the epoch advances exactly when the deadline is reached, by at least one interval, and ends less than one interval behind the time; otherwise nothing changes, except that epoch and deadline follow a clock that goes back |
| Decay.Decay.NpurgeAfterInterval | jemalloc/src/decay.c:226-239 | the single pass computes the fall of the weighted sum over the interval |
| Decay.PurgeMonotone | jemalloc/src/decay.c:226-239 | the amount to purge grows with the interval |
| Decay.PurgeIsFall | jemalloc/src/decay.c:210-239 | in whole pages it is the fall of the limit, or one page less |
| Decay.PurgeInIsPurge | jemalloc/src/decay.c:157-174 | what one batch of new pages loses is what the backlog with only that batch predicts |
| Decay.BatchLimit | jemalloc/src/decay.c:96-150 | what may remain of a batch is its share by the table at its age, and nothing once the table is used up |
| Decay.LimitWithin | jemalloc/src/decay.c:96-110 | the limit never exceeds the pages recorded |
| Decay.Decay.Search | jemalloc/src/decay.c:265-293 | the search ends with the bounds that bisection defines, the threshold is bracketed by them, and the asserted number of probes is never reached |
| Decay.Decay.NsUntilPurge | jemalloc/src/decay.c:241-295 | the wait is unbounded exactly when there is nothing to decay, and otherwise a whole number of half intervals, in the middle of the bounds |
| Decay.WaitPurge | jemalloc/src/decay.c:265-295 | the pages due after the wait are between those of the two bounds, as the threshold is, and at most twice the threshold unless the bounds are at most two intervals apart |
| Decay.KeptExactly | jemalloc/include/jemalloc/internal/decay.h:176-184 | the announced half to one and a half times the threshold is due after the wait if and only if the shortest or longest wait says so where no search is made, and otherwise the middle of the bounds lies between the two waits where those amounts become due |
| Decay.KeptBetween | jemalloc/include/jemalloc/internal/decay.h:176-184 | it is due if what is due after both bounds is in that range, and in particular whenever what is due after the shortest and after the longest wait is |
| Decay.BacklogPurge | jemalloc/src/decay.c:241-295 | for every backlog and every nondecreasing table the amounts due grow with the wait, so that the three results above hold of them |
| Decay.JumpMissed | jemalloc/include/jemalloc/internal/decay.h:176-184 | it is not due where one interval takes the amount from below the one to above the other |
| Decay.OnePageMissed | jemalloc/include/jemalloc/internal/decay.h:176-184 | for every table of positive factors that ends in one, nothing is due after the wait for a single page |
| Smoothstep.TableSteps | jemalloc/include/jemalloc/internal/smoothstep.h:29-230 | the factors of the smoother step never fall and end in one |
| Smoothstep.BatchExactly | jemalloc/include/jemalloc/internal/decay.h:176-184 | with that table and a threshold of 1024 pages, the announced amount is due after the wait for a batch of any size if and only if the size is in one of nine ranges |
| Smoothstep.BatchWait | jemalloc/src/pac.c:282-293 | the clock itself, told of such a batch, computes that wait |
| SlabRegions.SetFirstUnset | jemalloc/include/jemalloc/internal/bitmap.h:299-327 | the lowest free region is taken |
| SlabRegions.AllocBatch | jemalloc/src/arena.c:242-288 | the batch by population count hands out the same regions in the same order as that many single allocations |
| SlabRegions.LowestRising | jemalloc/src/arena.c:242-288 | single allocations hand out rising regions |
| SlabRegions.LowestLeast | jemalloc/src/arena.c:242-288 | the regions handed out are below those left |
| SlabBin.Bin.RefillNoFresh | jemalloc/src/arena.c:893-909 | the oldest, and of these the lowest, non-full slab becomes the current one, a full current slab goes to the list, and the partition is kept |
| SlabBin.Bin.MallocNoFresh | jemalloc/src/arena.c:1127-1139 | one region that was free is handed out, or there is none in the bin |
| SlabBin.Bin.LowerSlab | jemalloc/src/arena.c:1316-1341 | the current slab still precedes every non-full slab |
| SlabBin.Bin.Dalloc | jemalloc/include/jemalloc/internal/arena_inlines_b.h:503-532 | exactly that region is no longer in use, the partition and the order are kept, and a slab leaves the bin exactly when it is entirely free |
| SlabBin.Bin.Interfere | jemalloc/src/arena.c:1027-1041 | any allocations and frees of other threads keep the bin valid and leave the caller's regions in use |
| SlabBin.Bin.FillLocked | jemalloc/src/arena.c:974-1017 | under the lock, the regions collected are exactly those that become in use, none of which was before; it stops early only with nothing free and no slab in reserve, and asks for a slab exactly if it has made progress |
| SlabBin.Bin.Fill | jemalloc/src/arena.c:927-1053 | the fill ends whatever other threads do; its regions are in use, pairwise different and none that somebody else holds throughout; it asks for at most one slab more than it collects regions, and falls short only when the bin has no free region and the last slab asked for could not be had |
| Base.BlockSizeFits | jemalloc/src/base.c:242-264 | a new block has room for its header and the aligned object if and only if the largest block has |
| Base.BlockSizeExactly | jemalloc/src/base.c:255-264 | a new block has the least number of huge pages for the size class of header and object and for the class after that of the last block |
| Base.BlocksGrow | jemalloc/src/base.c:250-264 | so every block is larger than the one before, as long as the series of classes goes on |
| Base.GapAfterHeader | jemalloc/src/base.c:249-259 | behind the header the alignment gap is at most what the block was sized for, for every power-of-two alignment |
| Base.GapBound | jemalloc/src/base.c:434-449 | in an extent filed earlier the gap is at most the alignment less a quantum, so the class searched for suffices |
| Base.Base.File | jemalloc/src/base.c:192-203 | what is left is put into the heap of the largest class it holds, and into no other |
| Base.Base.BumpAlloc | jemalloc/src/base.c:174-235 | the pointer moves over gap and range, the counters follow exactly, resident bytes by the page boundaries crossed, and what is left, if anything, is filed again |
| Base.Base.TakeExtent | jemalloc/src/base.c:443-449 | an extent is taken from the first heap that is not empty, from the class of the request with its gap on, and is large enough; none is taken only if those heaps are all empty |
| Base.Base.ExtentAlloc | jemalloc/src/base.c:242-338 | a new block has the size of the rows above and its class is remembered; it holds the object behind its header up to the largest block, at whatever address it is mapped, and for alignments that divide a huge page only up to that size |
| Base.Base.Alloc | jemalloc/src/base.c:434-467 | every allocation is aligned and large enough, and what is left of every block is filed; a block is asked for only if no block has enough left for the request with its gap, rounded up to a class; it hands out nothing only if that block is refused or the request is beyond the largest block, and beyond it, for alignments that divide a huge page, it never hands out anything |
| Base.Base.Disjoint | jemalloc/src/base.c:434-467 | any two ranges ever handed out are disjoint |
| Base.Base.StatsOrdered | jemalloc/src/base.c:205-215 | the bytes allocated are those of all ranges and headers, and do not exceed the resident bytes, nor these the mapped ones |
| Base.Base.BlocksRise | jemalloc/src/base.c:250-264 | in every state each block is larger than the one mapped before it, as long as the series goes on |
| Fxp.Print | jemalloc/src/fxp.c:97-124 | the text written is the integer part and the decimals cut to fourteen digits, and it fits in the buffer |
| Fxp.TextShape | jemalloc/src/fxp.c:97-124 | the text has one to fourteen decimals, the last of them no zero unless the fraction is zero |
| Fxp.Scale | jemalloc/src/fxp.c:102-110 | the digits never exceed 64 bits and end as the fraction times ten to the fourteenth, and the zeros counted are those behind the point |
| Fxp.FractionDigits | jemalloc/src/fxp.c:102-123 | the zeros counted and the stripped number make up those decimals |
| Fxp.Parse | jemalloc/src/fxp.c:11-95 | the two loops with 64-bit arithmetic compute the value that the rows below characterise, and fail where they say |
| Fxp.ParsedInteger | jemalloc/src/fxp.c:30-49 | a number without a point is exactly its integer, whatever follows |
| Fxp.ParsedDecimal | jemalloc/src/fxp.c:30-49 | every integer below 2^16 is parsed to itself, with or without a zero behind a point |
| Fxp.ParsedFraction | jemalloc/src/fxp.c:51-95 | with a point, the result is the greatest multiple of 2^-16 up to the number denoted by the integer part and the first fourteen decimals, and the others are skipped |
| Fxp.ParsedFails | jemalloc/src/fxp.c:25-57 | parsing fails if and only if no digit and no point is at the start, the integer part does not fit, or no digit follows the point |
| Fxp.ParseFraction | jemalloc/src/fxp.c:67-87 | fourteen digits are read without overflow, below ten to the fourteenth, so that shifting them by sixteen bits fits as well |
| Fxp.DecimalsBack | jemalloc/src/fxp.c:85-90 | fourteen decimals denote the fraction exactly if it is a multiple of four units and otherwise round to the unit below |
| Fxp.RoundTrip | jemalloc/src/fxp.c:11-124 | parsing a printed number consumes all of it and yields the number if its fraction is a multiple of four units, and one unit less otherwise |

## Left out

- Cuckoo.Ckh.EvictRelocInsert: a chain of evictions is bounded by a parameter and reported as still running
  when that is used up, because the loop of the source ends only with the help of its random draws.
- Cuckoo.Ckh.Insert: says of a call that is still running in that sense only that a chain of evictions has used
  up all that were allowed; the same holds for Grow, Shrink, Rebuild and Remove. Keys and values are no
  references.
- LruTier.Tiers.HandleSample: does not model a sample with no fast memory at all, where the source follows a
  null pointer.
- RegionTree.RegionTree.AddRegion: the tree is a value that each step replaces; updates in place and the
  sharing of nodes between a tree and its copies are not modelled, and all regions lie in one window of the
  address bits that the masks distinguish and are at least one block long.
- LruPlugin.Plugin.AllocEvent: a large allocation does not overlap a region still registered, held or left over;
  what the source does with two overlapping regions is not modelled. Small allocations may lie anywhere.
- LruPlugin.Plugin.FreeEvent: a release is not at an inner address of a region that the program holds.
- ExtentCache.Ecache.TryCoalesce: the hook that merges two mappings is assumed to succeed.
- Eset.Eset.Fit: the bins are sets with a least member rather than pairing heaps, and extents are values.
- Base.Base.Alloc: the object that holds the allocator itself is not allocated inside its own first block, and
  blocks are mapped without other threads running in between; any member of a heap may be taken; sizes do not
  overflow; what a build without assertions does after a request beyond the largest block is not modelled.
- Decay.Decay.MaybeAdvanceEpoch: times and sums do not overflow; the decay factors are any nondecreasing
  sequence up to one.
- Smoothstep.BatchExactly: only for a backlog with a single batch, just recorded; for any other backlog,
  Decay.KeptExactly gives the condition.
- SlabBin.Bin.Fill: models an arena that tracks its full slabs; automatic arenas skip that list.
- Word-level bit tricks of the bitmaps (fb.h, bitmap.h), the radix tree behind the page map, pairing heaps and
  the closed forms of the size classes: they appear as sets, a partial map and an increasing sequence.
- Choice of the slab to allocate from or to purge (psset.c): any eligible slab may be chosen.
- Pseudo-random numbers, the clock, memory-mapping hooks and failures to get memory: parameters or free choices.
- Delayed coalescing, guarded extents, DSS, transparent-huge-page counters, statistics and profiling.
- plugins/window.c, plugins/static.c, plugins/static-fractional.c, plugins/migration.c, plugins/config.c and
  the logging and printing plugins; reallocation events and the binding calls of plugins/lru.c.
- jemalloc's option parsing, control tree, thread caches beyond the fill loop, profiling and fork handling.
