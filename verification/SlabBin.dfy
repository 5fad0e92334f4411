/**
 * The slabs of one size class (arena.c), for an arena that tracks its full slabs: the current slab,
 * a heap of slabs with free regions, and a list of full slabs. Other threads work on the bin
 * whenever its lock is dropped.
 */
module SlabBin {
  import opened PageSet
  import opened SlabRegions

  function One(s: Slab?): set<Slab> { if s == null then {} else {s} }

  /** No two slabs have the same address. */
  ghost predicate Distinct(slabs: set<Slab>) {
    forall s, t :: s in slabs && t in slabs && s.addr == t.addr ==> s == t
  }

  lemma DistinctAdd(slabs: set<Slab>, s: Slab)
    requires Distinct(slabs) && forall t :: t in slabs ==> t.addr != s.addr
    ensures Distinct(slabs + {s})
  {
  }

  ghost predicate Kept(slabs: set<Slab>, nregs: nat)
    reads slabs
  {
    forall s {:trigger s.Ok()} :: s in slabs ==> s.Ok() && s.nregs == nregs
  }

  /** A region handed out. */
  datatype Ptr = Ptr(slab: Slab, reg: nat)

  ghost function PtrSet(ps: seq<Ptr>): set<Ptr> { set p | p in ps }

  ghost function PtrsOf(s: Slab, regs: set<nat>): set<Ptr> { set r | r in regs :: Ptr(s, r) }

  ghost predicate NoDup(ps: seq<Ptr>) { forall i, j :: 0 <= i < j < |ps| ==> ps[i] != ps[j] }

  /** The regions in use are exactly those that are not free. */
  ghost predicate Tied(slabs: set<Slab>, used: set<Ptr>, nregs: nat)
    reads slabs
  {
    && (forall p :: p in used ==> p.slab in slabs && p.reg < nregs && p.reg !in p.slab.free)
    && (forall s, r: nat {:trigger Ptr(s, r)} :: s in slabs && r < nregs && r !in s.free ==> Ptr(s, r) in used)
  }

  /** Regions of one slab in rising order, none of which is among those before. */
  lemma PtrsJoin(ptrs: seq<Ptr>, more: seq<Ptr>, cur: Slab, regs: seq<nat>)
    requires NoDup(ptrs) && Rising(regs) && |more| == |regs| && PtrSet(ptrs) !! PtrsOf(cur, Set(regs))
    requires forall i :: 0 <= i < |more| ==> more[i] == Ptr(cur, regs[i])
    ensures NoDup(ptrs + more) && PtrSet(ptrs + more) == PtrSet(ptrs) + PtrsOf(cur, Set(regs))
  {
    assert forall i :: 0 <= i < |ptrs| ==> ptrs[i] in PtrSet(ptrs);
    assert forall i :: 0 <= i < |regs| ==> regs[i] in Set(regs) && Ptr(cur, regs[i]) in PtrsOf(cur, Set(regs));
    forall p | p in PtrsOf(cur, Set(regs)) ensures p in PtrSet(ptrs + more) {
      var i :| 0 <= i < |regs| && p == Ptr(cur, regs[i]);
      assert (ptrs + more)[|ptrs| + i] == p;
    }
  }

  /** An unused slab that does not belong to the bin yet, or none. */
  ghost predicate Unused(s: Slab?, slabs: set<Slab>, nregs: nat)
    reads s
  {
    s != null ==> s !in slabs && s.Ok() && s.nregs == nregs && s.nfree == nregs && Distinct(slabs + One(s))
  }

  lemma AllRegionsFree(s: Slab)
    requires s.Ok() && s.nfree == s.nregs
    ensures forall r: nat :: r < s.nregs ==> r in s.free
  {
    forall r: nat | r < s.nregs ensures r in s.free {
      if r !in s.free {
        RangeCard(0, s.nregs);
        SubsetCard(s.free + {r}, Range(0, s.nregs));
        assert false;
      }
    }
  }

  /** ptrs' extends ptrs by exactly the regions that were free before and are in use now. */
  ghost predicate Handed(ptrs: seq<Ptr>, ptrs': seq<Ptr>, before: set<Ptr>, after: set<Ptr>) {
    ptrs <= ptrs' && PtrSet(ptrs') * before == PtrSet(ptrs) && after == before + PtrSet(ptrs')
  }

  lemma HandedTrans(ptrs: seq<Ptr>, mid: seq<Ptr>, ptrs': seq<Ptr>, u: set<Ptr>, v: set<Ptr>, w: set<Ptr>)
    requires Handed(ptrs, mid, u, v) && Handed(mid, ptrs', v, w)
    ensures Handed(ptrs, ptrs', u, w)
  {
    assert PtrSet(mid) <= PtrSet(ptrs') by {
      assert forall i :: 0 <= i < |mid| ==> mid[i] == ptrs'[i];
    }
  }

  /** The regions are in use, pairwise different, and none is one of the others in use. */
  ghost predicate Owned(ptrs: seq<Ptr>, others: set<Ptr>, used: set<Ptr>) {
    NoDup(ptrs) && PtrSet(ptrs) <= used && others <= used && PtrSet(ptrs) !! others
  }

  /** An address that no slab of the set has. */
  method FreeAddress(slabs: set<Slab>) returns (addr: nat)
    ensures forall s :: s in slabs ==> s.addr != addr
  {
    addr := *;
    if exists s :: s in slabs && s.addr == addr {
      addr := 0;
      var rest := slabs;
      while rest != {}
        invariant rest <= slabs && forall s :: s in slabs && s !in rest ==> s.addr < addr
        decreases rest
      {
        var s :| s in rest;
        rest := rest - {s};
        if addr <= s.addr {
          addr := s.addr + 1;
        }
      }
    }
  }

  /** edata_heap_first */
  method First(heap: set<Slab>) returns (m: Slab)
    requires heap != {} && Distinct(heap)
    ensures m in heap && forall s :: s in heap ==> s == m || m.Before(s)
  {
    m :| m in heap;
    var rest := heap - {m};
    while rest != {}
      invariant rest <= heap && m in heap && forall s :: s in heap && s !in rest ==> s == m || m.Before(s)
      decreases rest
    {
      var s :| s in rest;
      if s.Before(m) {
        m := s;
      }
      rest := rest - {s};
    }
  }

  class Bin {
    const nregs: nat
    var slabcur: Slab?
    var nonfull: set<Slab>
    var full: set<Slab>
    ghost var slabs: set<Slab>
    ghost var used: set<Ptr>

    /** A slab is in exactly one place: the heap if some of its regions are free, the list if none is,
        unless it is the current one. */
    ghost predicate Placed(s: Slab)
      reads this`slabcur, this`nonfull, this`full, s
    {
      if s == slabcur then s !in nonfull && s !in full
      else if s.nfree == 0 then s !in nonfull && s in full
      else s.nfree < nregs && s in nonfull && s !in full
    }

    /** Current slab, heap and list partition the slabs; x may be in the wrong place. */
    ghost predicate PartitionBut(x: Slab?)
      reads this`slabcur, this`nonfull, this`full, this`slabs, slabs
    {
      && nonfull <= slabs && full <= slabs && (slabcur != null ==> slabcur in slabs)
      && forall s :: s in slabs && s != x ==> Placed(s)
    }

    /** The current slab precedes the heap. */
    ghost predicate Ordered()
      reads this`slabcur, this`nonfull
    {
      slabcur != null ==> forall s :: s in nonfull ==> slabcur.Before(s)
    }

    ghost predicate InvBut(x: Slab?)
      reads this`slabcur, this`nonfull, this`full, this`slabs, slabs
    {
      1 <= nregs && Distinct(slabs) && PartitionBut(x) && Ordered()
    }

    ghost predicate Inv()
      reads this`slabcur, this`nonfull, this`full, this`slabs, slabs
    {
      InvBut(null)
    }

    /** Moreover no slab is entirely free. */
    ghost predicate Settled()
      reads this`slabcur, this`nonfull, this`full, this`slabs, slabs
    {
      Inv() && (slabcur != null ==> slabcur.nfree < nregs)
    }

    /** What holds whenever the lock is not held. */
    ghost predicate Valid()
      reads this, slabs
    {
      Kept(slabs, nregs) && Tied(slabs, used, nregs) && Settled()
    }

    constructor (n: nat)
      requires 1 <= n
      ensures Valid() && slabs == {} && nregs == n
    {
      nregs, slabcur, nonfull, full, slabs, used := n, null, {}, {}, {}, {};
    }

    /** A full current slab goes to the list. */
    method Retire()
      requires Inv() && (slabcur == null || slabcur.nfree == 0)
      modifies this`slabcur, this`full
      ensures Inv() && slabcur == null && full == old(full) + One(old(slabcur))
    {
      if slabcur != null {
        full := full + {slabcur};
      }
      slabcur := null;
    }

    /** arena_bin_slabs_nonfull_tryget into the current slab. */
    method TryGet()
      requires Inv() && slabcur == null
      modifies this`slabcur, this`nonfull
      ensures Inv()
      ensures if slabcur == null then nonfull == old(nonfull) == {}
              else 0 < slabcur.nfree < nregs && slabcur in old(nonfull) && nonfull == old(nonfull) - {slabcur}
    {
      if nonfull != {} {
        slabcur := First(nonfull);
        nonfull := nonfull - {slabcur};
      }
    }

    /** arena_bin_refill_slabcur_no_fresh_slab: the oldest slab of the heap, and the lowest of these, becomes the
        current one. */
    method RefillNoFresh() returns (none: bool)
      requires Inv() && (slabcur == null || slabcur.nfree == 0)
      modifies this`slabcur, this`nonfull, this`full
      ensures Inv() && (none <==> slabcur == null)
      ensures if none then nonfull == {} == old(nonfull)
              else 0 < slabcur.nfree < nregs && slabcur in old(nonfull) && nonfull == old(nonfull) - {slabcur}
      ensures full == old(full) + One(old(slabcur))
      ensures !none ==> forall s :: s in nonfull ==>
        slabcur.sn < s.sn || (slabcur.sn == s.sn && slabcur.addr < s.addr)
    {
      Retire();
      TryGet();
      none := slabcur == null;
    }

    /** arena_bin_refill_slabcur_with_fresh_slab */
    method RefillWithFresh(s: Slab)
      requires Inv() && slabcur == null && nonfull == {}
      requires s !in slabs && s.nfree == nregs && Distinct(slabs + One(s))
      modifies this`slabcur, this`slabs
      ensures Inv() && slabcur == s && slabs == old(slabs) + {s}
    {
      slabcur := s;
      slabs := slabs + {s};
    }

    method TakeOne() returns (r: nat)
      requires Kept(slabs, nregs) && Inv() && slabcur != null && 0 < slabcur.nfree
      modifies slabcur
      ensures Kept(slabs, nregs) && Settled() && r < nregs
      ensures r in old(slabcur.free) && slabcur.free == old(slabcur.free) - {r}
      ensures forall q :: q in old(slabcur.free) ==> r <= q
    {
      r := slabcur.RegAlloc();
    }

    /** A region of the current slab, which has one. */
    method AllocCur() returns (r: nat)
      requires Kept(slabs, nregs) && Tied(slabs, used, nregs) && Inv() && slabcur != null && 0 < slabcur.nfree
      modifies slabcur, this`used
      ensures Valid() && Ptr(slabcur, r) !in old(used) && used == old(used) + {Ptr(slabcur, r)}
    {
      r := TakeOne();
      used := used + {Ptr(slabcur, r)};
    }

    /** The current slab loses cnt regions. */
    method TakeCur(cnt: nat) returns (regs: seq<nat>)
      requires Kept(slabs, nregs) && Inv() && slabcur != null && 1 <= cnt <= slabcur.nfree
      modifies slabcur
      ensures Kept(slabs, nregs) && Settled() && |regs| == cnt && Rising(regs)
      ensures Within(Set(regs), nregs)
      ensures Set(regs) <= old(slabcur.free) && slabcur.free == old(slabcur.free) - Set(regs)
    {
      regs := slabcur.RegAllocBatch(cnt);
    }

    method AllocCurBatch(cnt: nat) returns (regs: seq<nat>)
      requires Kept(slabs, nregs) && Tied(slabs, used, nregs) && Inv() && slabcur != null && 1 <= cnt <= slabcur.nfree
      modifies slabcur, this`used
      ensures Valid() && |regs| == cnt && Rising(regs)
      ensures PtrsOf(slabcur, Set(regs)) !! old(used) && used == old(used) + PtrsOf(slabcur, Set(regs))
    {
      regs := TakeCur(cnt);
      used := used + PtrsOf(slabcur, Set(regs));
    }

    /** arena_bin_malloc_no_fresh_slab */
    method MallocNoFresh() returns (s: Slab?, r: nat)
      requires Valid()
      modifies this`slabcur, this`nonfull, this`full, this`used, slabs
      ensures Valid()
      ensures s == null ==> slabcur == null && nonfull == {} && used == old(used)
      ensures s != null ==> Ptr(s, r) !in old(used) && used == old(used) + {Ptr(s, r)}
    {
      if slabcur == null || slabcur.nfree == 0 {
        var none := RefillNoFresh();
        if none {
          return null, 0;
        }
      }
      s := slabcur;
      r := AllocCur();
    }

    /** arena_dissociate_bin_slab */
    method Dissociate(s: Slab)
      requires InvBut(s) && s in slabs
      requires if s == slabcur then s !in nonfull && s !in full
               else if nregs == 1 then s in full && s !in nonfull else s in nonfull && s !in full
      modifies this`slabcur, this`nonfull, this`full, this`slabs
      ensures Inv() && slabs == old(slabs) - {s} && (slabcur == old(slabcur) || slabcur == null)
    {
      if s == slabcur {
        slabcur := null;
      } else if nregs == 1 {
        full := full - {s};
      } else {
        nonfull := nonfull - {s};
      }
      slabs := slabs - {s};
    }

    /** The current slab steps down, to the heap or the list; x may still be in the wrong place. */
    method StepDown(cur: Slab, ghost x: Slab)
      requires InvBut(x) && slabcur == cur != x && cur.nfree < nregs
      modifies this`slabcur, this`nonfull, this`full
      ensures InvBut(x) && slabcur == null && nonfull <= old(nonfull) + {cur} && full <= old(full) + {cur}
    {
      assert Placed(cur);
      if 0 < cur.nfree {
        nonfull := nonfull + {cur};
      } else {
        full := full + {cur};
      }
      slabcur := null;
      assert PartitionBut(x);
    }

    /** A slab that precedes the current one takes its place. */
    method Switch(s: Slab, cur: Slab)
      requires InvBut(s) && s in slabs && s !in nonfull && s !in full && 0 < s.nfree < nregs
      requires slabcur == cur != s && cur.nfree < nregs && s.Before(cur)
      modifies this`slabcur, this`nonfull, this`full
      ensures Settled()
    {
      StepDown(cur, s);
      slabcur := s;
      assert PartitionBut(null);
    }

    /** arena_bin_lower_slab */
    method LowerSlab(s: Slab)
      requires InvBut(s) && s in slabs && s != slabcur && s !in nonfull && s !in full && 0 < s.nfree < nregs
      requires slabcur != null ==> slabcur.nfree < nregs
      modifies this`slabcur, this`nonfull, this`full
      ensures Settled()
    {
      if slabcur != null && s.Before(slabcur) {
        Switch(s, slabcur);
      } else {
        nonfull := nonfull + {s};
        assert PartitionBut(null);
      }
    }

    /** arena_dalloc_bin_locked_handle_newly_nonempty */
    method NewlyNonempty(s: Slab)
      requires InvBut(s) && s in slabs && s != slabcur && s !in nonfull && 0 < s.nfree < nregs
      requires slabcur != null ==> slabcur.nfree < nregs
      modifies this`slabcur, this`nonfull, this`full
      ensures Settled()
    {
      full := full - {s};
      LowerSlab(s);
    }

    /** A region comes back; its slab may now be in the wrong place. */
    method PutBack(s: Slab, r: nat)
      requires Kept(slabs, nregs) && Inv() && s in slabs && r < nregs && r !in s.free
      modifies s
      ensures Kept(slabs, nregs) && InvBut(s) && s.free == old(s.free) + {r} && s.nfree == old(s.nfree) + 1
    {
      s.RegDalloc(r);
    }

    method GiveBack(s: Slab, r: nat)
      requires Valid() && Ptr(s, r) in used
      modifies s, this`used
      ensures Kept(slabs, nregs) && Tied(slabs, used, nregs) && InvBut(s) && s.nfree == old(s.nfree) + 1
      ensures used == old(used) - {Ptr(s, r)}
    {
      PutBack(s, r);
      used := used - {Ptr(s, r)};
    }

    /** A slab without a region in use leaves the bin. */
    lemma TiedWithout(s: Slab)
      requires Kept(slabs, nregs) && Tied(slabs, used, nregs) && s in slabs && s.nfree == nregs
      ensures Tied(slabs - {s}, used, nregs)
    {
      AllRegionsFree(s);
    }

    /** arena_dalloc_bin_locked_step: empty says that the slab left the bin. */
    method Dalloc(s: Slab, r: nat) returns (empty: bool)
      requires Valid() && Ptr(s, r) in used
      modifies this, s
      ensures Valid() && used == old(used) - {Ptr(s, r)}
      ensures if empty then slabs == old(slabs) - {s} && s.nfree == nregs else slabs == old(slabs)
    {
      assert Placed(s);
      GiveBack(s, r);
      empty := s.nfree == nregs;
      if empty {
        TiedWithout(s);
        Dissociate(s);
      } else if s.nfree == 1 && s != slabcur {
        NewlyNonempty(s);
      }
    }

    /** arena_slab_alloc: memory may be short, and a fresh slab lies at an address of its own. */
    method SlabAlloc(reserved: Slab?, oom: bool) returns (s: Slab?)
      requires Valid() && Unused(reserved, slabs, nregs)
      ensures Unused(s, slabs, nregs) && (s == null <==> oom)
      ensures s != null ==> fresh(s) && (reserved != null ==> Unused(reserved, slabs + {s}, nregs))
    {
      if oom {
        return null;
      }
      var sn: nat := *;
      InPlace();
      var addr := FreeAddress(nonfull + full + One(slabcur) + One(reserved));
      s := new Slab(sn, addr, nregs);
      DistinctAdd(slabs, s);
      DistinctAdd(slabs + One(reserved), s);
    }

    lemma InPlace()
      requires PartitionBut(null)
      ensures slabs <= nonfull + full + One(slabcur)
    {
      assert forall s :: s in slabs ==> Placed(s);
    }

    /** arena_bin_malloc_with_fresh_slab */
    method MallocWithFresh(s: Slab) returns (r: nat)
      requires Valid() && slabcur == null && nonfull == {} && Unused(s, slabs, nregs)
      modifies this`slabcur, this`slabs, this`used, s
      ensures Valid() && slabs == old(slabs) + {s} && used == old(used) + {Ptr(s, r)}
    {
      TiedWith(s);
      RefillWithFresh(s);
      r := AllocCur();
    }

    /** A slab without a region in use enters the bin. */
    lemma TiedWith(s: Slab)
      requires Tied(slabs, used, nregs) && Unused(s, slabs, nregs)
      ensures Tied(slabs + {s}, used, nregs)
    {
      AllRegionsFree(s);
    }

    /** Another thread's allocation, from a fresh slab if the bin has no free region. */
    method OtherMalloc(reserved: Slab?)
      requires Valid() && Unused(reserved, slabs, nregs)
      modifies this, slabs
      ensures Valid() && old(used) <= used && fresh(slabs - old(slabs)) && Unused(reserved, slabs, nregs)
    {
      var s, r := MallocNoFresh();
      if s == null {
        var oom: bool := *;
        var f := SlabAlloc(reserved, oom);
        if f != null {
          r := MallocWithFresh(f);
        }
      }
    }

    /** Another thread frees a region that is not one of mine. */
    method OtherFree(mine: set<Ptr>, ghost reserved: Slab?)
      requires Valid() && mine <= used && Unused(reserved, slabs, nregs)
      modifies this, slabs
      ensures Valid() && mine <= used && slabs <= old(slabs) && Unused(reserved, slabs, nregs)
    {
      var s: Slab?, r: nat := *, *;
      if s != null && (s in nonfull || s in full || s == slabcur) && r < nregs {
        assert s.Ok();
        FreeSpec(s.groups, |s.groups|);
        if !s.IsFree(r) && Ptr(s, r) !in mine {
          var empty := Dalloc(s, r);
        }
      }
    }

    /** Whatever other threads do while the lock is not held: any number of allocations and frees, but
        my regions stay mine. */
    method Interfere(mine: set<Ptr>, reserved: Slab?)
      requires Valid() && mine <= used && Unused(reserved, slabs, nregs)
      modifies this, slabs
      ensures Valid() && mine <= used && fresh(slabs - old(slabs)) && Unused(reserved, slabs, nregs)
    {
      var steps: nat := *;
      while 0 < steps
        invariant Valid() && mine <= used && fresh(slabs - old(slabs)) && Unused(reserved, slabs, nregs)
      {
        if * {
          OtherMalloc(reserved);
        } else {
          OtherFree(mine, reserved);
        }
        steps := steps - 1;
      }
    }

    /** The lock is dropped while a slab is asked for. */
    method Unlocked(mine: set<Ptr>, oom: bool) returns (s: Slab?)
      requires Valid() && mine <= used
      modifies this, slabs
      ensures Valid() && mine <= used && fresh(slabs - old(slabs)) && Unused(s, slabs, nregs)
      ensures (s == null <==> oom) && (s != null ==> fresh(s))
    {
      Interfere(mine, null);
      s := SlabAlloc(null, oom);
      Interfere(mine, s);
    }

    /** Batch fill from the current slab. */
    method Batch(ptrs: seq<Ptr>, cnt: nat) returns (ptrs': seq<Ptr>)
      requires Kept(slabs, nregs) && Tied(slabs, used, nregs) && Inv()
      requires slabcur != null && 1 <= cnt <= slabcur.nfree && NoDup(ptrs) && PtrSet(ptrs) <= used
      modifies slabcur, this`used
      ensures Valid() && |ptrs'| == |ptrs| + cnt && NoDup(ptrs') && Handed(ptrs, ptrs', old(used), used)
    {
      var cur := slabcur;
      var regs := AllocCurBatch(cnt);
      var more := seq(cnt, i requires 0 <= i < cnt => Ptr(cur, regs[i]));
      ptrs' := ptrs + more;
      PtrsJoin(ptrs, more, cur, regs);
    }

    /** A slab with free regions becomes the current one: from the heap, or else the one reserved. */
    method Refill(reserved: Slab?) returns (got: bool, left: Slab?)
      requires Valid() && (slabcur == null || slabcur.nfree == 0) && Unused(reserved, slabs, nregs)
      modifies this`slabcur, this`nonfull, this`full, this`slabs
      ensures Kept(slabs, nregs) && Tied(slabs, used, nregs) && Inv() && Unused(left, slabs, nregs)
      ensures || (slabs == old(slabs) && left == reserved)
              || (reserved != null && slabs == old(slabs) + {reserved} && left == null)
      ensures if got then slabcur != null && 0 < slabcur.nfree
              else slabcur == null && nonfull == {} && left == reserved == null
    {
      left := reserved;
      var none := RefillNoFresh();
      got := !none;
      if none && reserved != null {
        TiedWith(reserved);
        RefillWithFresh(reserved);
        left, got := null, true;
      }
    }

    /** The slabs of the bin, and the one reserved for it. */
    ghost predicate FromReserve(before: set<Slab>, reserved: Slab?, left: Slab?)
      reads this`slabs, left
    {
      && slabs <= before + One(reserved)
      && (left == null || left == reserved) && Unused(left, slabs, nregs)
    }

    /** One round of the loop below. */
    method FillStep(ptrs: seq<Ptr>, nfill: nat, reserved: Slab?)
      returns (ptrs': seq<Ptr>, left: Slab?)
      requires Valid() && NoDup(ptrs) && PtrSet(ptrs) <= used && |ptrs| < nfill && Unused(reserved, slabs, nregs)
      modifies this, slabs, reserved
      ensures Valid() && NoDup(ptrs') && Handed(ptrs, ptrs', old(used), used) && |ptrs'| <= nfill
      ensures FromReserve(old(slabs), reserved, left)
      ensures |ptrs| == |ptrs'| ==> reserved == left == null && slabcur == null && nonfull == {}
    {
      ptrs', left := ptrs, reserved;
      if slabcur == null || slabcur.nfree == 0 {
        var got;
        got, left := Refill(reserved);
        if !got {
          return;
        }
      }
      var tofill := nfill - |ptrs|;
      ptrs' := Batch(ptrs, if tofill < slabcur.nfree then tofill else slabcur.nfree);
    }

    /** The loop of arena_cache_bin_fill_small under the lock: it collects regions that were free. */
    method FillLocked(ptrs0: seq<Ptr>, nfill: nat, spare0: Slab?, progress0: bool)
      returns (ptrs: seq<Ptr>, spare: Slab?, progress: bool, retry: bool)
      requires Valid() && NoDup(ptrs0) && PtrSet(ptrs0) <= used && |ptrs0| <= nfill && Unused(spare0, slabs, nregs)
      modifies this, slabs, spare0
      ensures Valid() && NoDup(ptrs) && Handed(ptrs0, ptrs, old(used), used) && |ptrs| <= nfill
      ensures FromReserve(old(slabs), spare0, spare)
      ensures progress == (progress0 || |ptrs0| < |ptrs|)
      ensures |ptrs| < nfill ==> slabcur == null && nonfull == {} && spare == null && retry == progress
      ensures |ptrs| < nfill && !progress ==> spare0 == null
      ensures |ptrs| == nfill ==> !retry
    {
      ptrs, spare, progress, retry := ptrs0, spare0, progress0, false;
      while |ptrs| < nfill
        invariant Valid() && NoDup(ptrs) && Handed(ptrs0, ptrs, old(used), used) && |ptrs| <= nfill
        invariant FromReserve(old(slabs), spare0, spare)
        invariant progress == (progress0 || |ptrs0| < |ptrs|) && (|ptrs| == |ptrs0| ==> spare == spare0)
        decreases nfill - |ptrs|
      {
        ghost var before, was := used, ptrs;
        var n := |ptrs|;
        ptrs, spare := FillStep(ptrs, nfill, spare);
        HandedTrans(ptrs0, was, ptrs, old(used), before, used);
        if |ptrs| == n {
          retry := progress;
          break;
        }
        progress := true;
      }
    }

    /** One round of arena_cache_bin_fill_small: under the lock, and then without it if a slab is asked for. */
    method FillRound(ptrs0: seq<Ptr>, nfill: nat, spare0: Slab?, progress: bool, others: set<Ptr>, oom: bool)
      returns (ptrs: seq<Ptr>, spare: Slab?, retry: bool)
      requires Valid() && |ptrs0| <= nfill && Owned(ptrs0, others, used) && Unused(spare0, slabs, nregs)
      modifies this, slabs, spare0
      ensures Valid() && |ptrs0| <= |ptrs| <= nfill && Owned(ptrs, others, used)
      ensures Unused(spare, slabs, nregs) && fresh(slabs - old(slabs) - One(spare0))
      ensures retry ==> (progress || |ptrs0| < |ptrs|) && (spare == null <==> oom) && fresh(One(spare))
      ensures !retry && |ptrs| < nfill ==> slabcur == null && nonfull == {} && !progress && spare0 == null
    {
      var made;
      ptrs, spare, made, retry := FillLocked(ptrs0, nfill, spare0, progress);
      if retry {
        spare := Unlocked(others + (set p | p in ptrs), oom);
      }
    }

    /** arena_cache_bin_fill_small. Memory is short for the slab requests numbered in oom. It ends
        although other threads may take what it frees up: each slab allocation needs progress since the
        last one. It hands out no region that somebody else has, and falls short only when the bin has no
        free region and the last slab it asked for could not be had. */
    method Fill(nfill: nat, oom: set<nat>, others: set<Ptr>) returns (ptrs: seq<Ptr>, ghost asked: nat)
      requires Valid() && others <= used
      modifies this, slabs
      ensures Valid() && |ptrs| <= nfill && Owned(ptrs, others, used) && asked <= |ptrs| + 1
      ensures |ptrs| < nfill ==> slabcur == null && nonfull == {} && 0 < asked && asked - 1 in oom
    {
      var retry, k, short := true, 0, false;
      var spare: Slab? := null;
      ptrs := [];
      while retry
        invariant Valid() && |ptrs| <= nfill && Owned(ptrs, others, used)
        invariant fresh(slabs - old(slabs)) && Unused(spare, slabs, nregs) && (retry ==> fresh(One(spare)))
        invariant 0 <= k <= |ptrs| + 1 && (short ==> 0 < k && k - 1 in oom)
        invariant retry && 0 < k && spare == null ==> short
        invariant !retry && |ptrs| < nfill ==> slabcur == null && nonfull == {} && short
        decreases if retry then 1 + 2 * (nfill - |ptrs|) + (if k == 0 then 1 else 0) else 0
      {
        var next := k in oom;
        ptrs, spare, retry := FillRound(ptrs, nfill, spare, k == 0, others, next);
        if retry {
          k, short := k + 1, next;
        }
      }
      asked := k;
    }
  }
}
