/**
 * The cuckoo hash table (ckh.c): each key lives in one of the two buckets its hashes select, and
 * insertion may move any number of items or rebuild the table. Keys are compared with ==; the
 * pseudo-random draws are arbitrary choices, and evictions bounds how many of them one chain of
 * relocations may use before it is reported as still running.
 */
module Cuckoo {
  import opened Basics

  datatype Cell<K, V> = Empty | Item(key: K, data: V)

  /** Done and Failed are what the C functions return; Running means the chain had not ended yet. */
  datatype Outcome = Done | Failed | Running

  // A bucket has 4 cells: LG_CKH_BUCKET_CELLS is 2 with 64-byte cache lines and 8-byte pointers.

  // ----- the items of a table -----

  ghost function ItemOf<K, V>(c: Cell<K, V>): multiset<(K, V)> {
    if c.Empty? then multiset{} else multiset{(c.key, c.data)}
  }

  /** The items of the first n cells. */
  ghost function ItemsTo<K, V>(s: seq<Cell<K, V>>, n: nat): multiset<(K, V)>
    requires n <= |s|
  {
    if n == 0 then multiset{} else ItemsTo(s, n - 1) + ItemOf(s[n - 1])
  }

  ghost function Items<K, V>(s: seq<Cell<K, V>>): multiset<(K, V)> { ItemsTo(s, |s|) }

  /** The number of items in the first n cells. */
  ghost function CountTo<K, V>(s: seq<Cell<K, V>>, n: nat): nat
    requires n <= |s|
  {
    if n == 0 then 0 else CountTo(s, n - 1) + if s[n - 1].Item? then 1 else 0
  }

  lemma {:induction false} CountIs<K, V>(s: seq<Cell<K, V>>, n: nat)
    requires n <= |s|
    ensures CountTo(s, n) == |ItemsTo(s, n)|
  {
    if n != 0 {
      CountIs(s, n - 1);
    }
  }

  lemma {:induction false} CountUpdate<K, V>(s: seq<Cell<K, V>>, i: nat, c: Cell<K, V>, n: nat)
    requires i < |s| && n <= |s|
    ensures CountTo(s[i := c], n) ==
      CountTo(s, n) + if i < n && s[i].Empty? && c.Item? then 1 else if i < n && s[i].Item? && c.Empty? then -1 else 0
  {
    if n != 0 {
      CountUpdate(s, i, c, n - 1);
    }
  }

  /** The items are exactly the bindings of f, each held once: the table denotes the finite map f. */
  ghost predicate Denotes<K, V>(m: multiset<(K, V)>, f: map<K, V>) {
    && (forall p :: p in m ==> p.0 in f && f[p.0] == p.1 && m[p] == 1)
    && (forall k :: k in f ==> (k, f[k]) in m)
  }

  /** The items from index i on, what an iteration still has to visit. */
  ghost function Left<K, V>(s: seq<Cell<K, V>>, i: nat): multiset<(K, V)>
    requires i <= |s|
    decreases |s| - i
  {
    if i == |s| then multiset{}
    else if s[i].Empty? then Left(s, i + 1)
    else Left(s, i + 1) + multiset{(s[i].key, s[i].data)}
  }

  lemma Shift<P>(m: multiset<P>, n: multiset<P>, x: multiset<P>)
    ensures m + (n + x) == (m + x) + n
  {
  }

  lemma AddNone<P>(m: multiset<P>)
    ensures m + multiset{} == m
  {
  }

  lemma {:induction false} LeftSkip<K, V>(s: seq<Cell<K, V>>, i: nat, j: nat)
    requires i <= j <= |s| && forall k :: i <= k < j ==> s[k].Empty?
    ensures Left(s, i) == Left(s, j)
    decreases j - i
  {
    if i < j {
      LeftSkip(s, i + 1, j);
    }
  }

  /** What an iteration has visited and what it still has to visit make up the table. */
  lemma {:induction false} LeftItems<K, V>(s: seq<Cell<K, V>>, i: nat)
    requires i <= |s|
    ensures ItemsTo(s, i) + Left(s, i) == Items(s)
    decreases |s| - i
  {
    if i < |s| {
      LeftItems(s, i + 1);
      if s[i].Item? {
        Shift(ItemsTo(s, i), Left(s, i + 1), ItemOf(s[i]));
      } else {
        AddNone(ItemsTo(s, i));
      }
    }
  }

  lemma PrefixWithin<K, V>(s: seq<Cell<K, V>>, i: nat)
    requires i <= |s|
    ensures ItemsTo(s, i) <= Items(s)
  {
    LeftItems(s, i);
  }

  lemma AddBoth<P>(a: multiset<P>, b: multiset<P>, c: multiset<P>, d: multiset<P>, x: multiset<P>)
    requires a + b == c + d
    ensures (a + x) + b == (c + x) + d
  {
    assert (a + x) + b == (a + b) + x && (c + x) + d == (c + d) + x;
  }

  lemma Swap<P>(m: multiset<P>, a: multiset<P>, b: multiset<P>)
    ensures (m + a) + b == (m + b) + a
  {
  }

  lemma {:induction false} ItemsUpdate<K, V>(s: seq<Cell<K, V>>, i: nat, c: Cell<K, V>, n: nat)
    requires i < |s| && n <= |s|
    ensures i < n ==> ItemsTo(s[i := c], n) + ItemOf(s[i]) == ItemsTo(s, n) + ItemOf(c)
    ensures n <= i ==> ItemsTo(s[i := c], n) == ItemsTo(s, n)
  {
    if n != 0 {
      ItemsUpdate(s, i, c, n - 1);
      var x := s[i := c][n - 1];
      if i == n - 1 {
        assert x == c;
        Swap(ItemsTo(s, i), ItemOf(c), ItemOf(s[i]));
      } else if i < n {
        AddBoth(ItemsTo(s[i := c], n - 1), ItemOf(s[i]), ItemsTo(s, n - 1), ItemOf(c), ItemOf(x));
      }
    }
  }

  lemma {:induction false} ItemsFind<K, V>(s: seq<Cell<K, V>>, p: (K, V), n: nat) returns (i: nat)
    requires n <= |s| && p in ItemsTo(s, n)
    ensures i < n && s[i] == Item(p.0, p.1)
  {
    if p in ItemsTo(s, n - 1) {
      i := ItemsFind(s, p, n - 1);
    } else {
      i := n - 1;
    }
  }

  lemma {:induction false} ItemsAt<K, V>(s: seq<Cell<K, V>>, i: nat, n: nat)
    requires i < n <= |s| && s[i].Item?
    ensures (s[i].key, s[i].data) in ItemsTo(s, n)
  {
    if i < n - 1 {
      ItemsAt(s, i, n - 1);
    }
  }

  lemma {:induction false} ItemsEmpty<K, V>(s: seq<Cell<K, V>>, n: nat)
    requires n <= |s| && forall i :: 0 <= i < |s| ==> s[i].Empty?
    ensures ItemsTo(s, n) == multiset{} && CountTo(s, n) == 0
  {
    if n != 0 {
      ItemsEmpty(s, n - 1);
    }
  }

  lemma DenotesAdd<K, V>(m: multiset<(K, V)>, f: map<K, V>, key: K, data: V)
    requires Denotes(m, f) && key !in f
    ensures Denotes(m + multiset{(key, data)}, f[key := data])
  {
  }

  lemma DenotesRemove<K, V>(m: multiset<(K, V)>, f: map<K, V>, p: (K, V))
    requires Denotes(m + multiset{p}, f)
    ensures p.0 in f && f[p.0] == p.1 && Denotes(m, f - {p.0})
  {
    var all := m + multiset{p};
    assert all[p] == m[p] + 1;
    assert p in all;
    forall q | q in m ensures q in all && q.0 != p.0 {}
  }

  lemma DenotesOnce<K, V>(m: multiset<(K, V)>, f: map<K, V>, p: (K, V))
    requires Denotes(m + multiset{p}, f)
    ensures p !in m
  {
    assert (m + multiset{p})[p] == m[p] + 1;
    assert p in m + multiset{p};
  }

  lemma HandIsOld<P>(now: multiset<P>, hand: P, was: multiset<P>, arg: P)
    requires now + multiset{hand} == was + multiset{arg} && arg in now && arg !in was
    ensures hand in was
  {
    assert (was + multiset{arg})[arg] == 1;
    assert (now + multiset{hand})[hand] >= 1;
  }

  lemma OldInHand<K, V>(s: seq<Cell<K, V>>, kept: nat, key: K, data: V, was: multiset<(K, V)>, argkey: K, argdata: V)
    requires kept < |s| && s[kept] == Item(argkey, argdata) && (argkey, argdata) !in was
    requires Conserved(Failed, Items(s), key, data, was + multiset{(argkey, argdata)})
    ensures (key, data) in was
  {
    ItemsAt(s, kept, |s|);
    HandIsOld(Items(s), (key, data), was, (argkey, argdata));
  }

  /** The item of cell i does not occur in front of that cell. */
  ghost predicate First<K, V>(s: seq<Cell<K, V>>, i: nat)
    requires i < |s|
  {
    s[i].Item? ==> (s[i].key, s[i].data) !in ItemsTo(s, i)
  }

  /** pre[i] are the items of the first i cells, and no item is repeated. */
  ghost predicate Prefixes<K, V>(s: seq<Cell<K, V>>, pre: seq<multiset<(K, V)>>) {
    |pre| == |s| + 1 && forall i {:trigger Prefix(s, pre, i)} :: 0 <= i < |s| ==> Prefix(s, pre, i)
  }

  ghost predicate Prefix<K, V>(s: seq<Cell<K, V>>, pre: seq<multiset<(K, V)>>, i: nat)
    requires i < |s| && |pre| == |s| + 1
  {
    First(s, i) && pre[i] == ItemsTo(s, i) && pre[i + 1] == ItemsTo(s, i + 1)
  }

  /** A table that denotes a map repeats no binding. */
  lemma DenotesFirst<K, V>(s: seq<Cell<K, V>>, i: nat, f: map<K, V>)
    requires i < |s| && Denotes(Items(s), f)
    ensures First(s, i)
  {
    if s[i].Item? {
      var p := (s[i].key, s[i].data);
      LeftItems(s, i);
      assert Items(s)[p] == ItemsTo(s, i)[p] + Left(s, i + 1)[p] + 1;
      assert p in Items(s);
    }
  }

  /** The item of a cell, if there is one, is new. */
  ghost predicate Adds<K, V>(c: Cell<K, V>, before: multiset<(K, V)>, after: multiset<(K, V)>) {
    if c.Empty? then after == before
    else (c.key, c.data) !in before && after == before + multiset{(c.key, c.data)}
  }

  lemma PrefixAdds<K, V>(s: seq<Cell<K, V>>, pre: seq<multiset<(K, V)>>, i: nat)
    requires Prefixes(s, pre) && i < |s|
    ensures Adds(s[i], pre[i], pre[i + 1]) && pre[i + 1] <= Items(s)
  {
    assert Prefix(s, pre, i);
    PrefixWithin(s, i + 1);
    AddNone(ItemsTo(s, i));
  }

  ghost function PrefixItems<K, V>(s: seq<Cell<K, V>>): (pre: seq<multiset<(K, V)>>)
    ensures |pre| == |s| + 1 && forall i {:trigger pre[i]} :: 0 <= i <= |s| ==> pre[i] == ItemsTo(s, i)
  {
    seq(|s| + 1, i requires 0 <= i <= |s| => ItemsTo(s, i))
  }

  lemma DenotesPrefixes<K, V>(s: seq<Cell<K, V>>, f: map<K, V>, pre: seq<multiset<(K, V)>>)
    requires Denotes(Items(s), f) && pre == PrefixItems(s)
    ensures Prefixes(s, pre)
  {
    forall i | 0 <= i < |s| ensures Prefix(s, pre, i) {
      DenotesFirst(s, i, f);
    }
  }

  /** Once all items have been seen, the other cells are empty. */
  lemma {:induction false} RestEmpty<K, V>(s: seq<Cell<K, V>>, i: nat, n: nat)
    requires i <= n <= |s|
    ensures CountTo(s, i) <= CountTo(s, n) && (CountTo(s, i) == CountTo(s, n) ==> ItemsTo(s, i) == ItemsTo(s, n))
  {
    if i < n {
      RestEmpty(s, i, n - 1);
    }
  }

  /** Nothing is lost: the items are all in the table, or one of them is in hand. */
  ghost predicate Conserved<K, V>(o: Outcome, items: multiset<(K, V)>, key: K, data: V, total: multiset<(K, V)>) {
    (if o.Done? then items else items + multiset{(key, data)}) == total
  }

  /** What a table denotes after an insertion that has ended. */
  lemma DenotesLeft<K, V>(o: Outcome, items: multiset<(K, V)>, key: K, data: V, total: multiset<(K, V)>, f: map<K, V>)
    requires !o.Running? && Conserved(o, items, key, data, total) && Denotes(total, f)
    ensures Denotes(items, if o.Failed? then f - {key} else f)
    ensures o.Failed? ==> key in f && f[key] == data
  {
    if o.Failed? {
      DenotesRemove(items, f, (key, data));
    }
  }

  // ----- buckets -----

  ghost predicate InBucket(i: int, bucket: nat) {
    bucket * 4 <= i < bucket * 4 + 4
  }

  /** The k-th cell that ckh_try_bucket_insert looks at when it starts at offset. */
  function Slot(bucket: nat, offset: nat, k: nat): (r: nat)
    ensures InBucket(r, bucket)
  {
    bucket * 4 + (k + offset) % 4
  }

  lemma SlotOf(bucket: nat, offset: nat, i: nat) returns (k: nat)
    requires offset < 4 && InBucket(i, bucket)
    ensures k < 4 && Slot(bucket, offset, k) == i
  {
    var j := i - bucket * 4;
    k := if offset <= j then j - offset else j + 4 - offset;
  }

  /** Key may live in this bucket of a table of 2^lg buckets. */
  predicate Home<K>(hash: K -> (nat, nat), lg: nat, key: K, bucket: nat) {
    bucket == hash(key).0 % Pow2(lg) || bucket == hash(key).1 % Pow2(lg)
  }

  /** Every item is in one of its two buckets. */
  ghost predicate Placed<K, V>(hash: K -> (nat, nat), lg: nat, s: seq<Cell<K, V>>) {
    forall i :: 0 <= i < |s| && s[i].Item? ==> Home(hash, lg, s[i].key, i / 4)
  }

  /** A cuckoo table of 2^lg buckets: every item at home, count exact. */
  ghost predicate TableOf<K, V>(hash: K -> (nat, nat), lg: nat, s: seq<Cell<K, V>>, count: nat) {
    |s| == Pow2(lg) * 4 && Placed(hash, lg, s) && count == CountTo(s, |s|)
  }

  lemma PlacedPut<K, V>(hash: K -> (nat, nat), lg: nat, s: seq<Cell<K, V>>, at: nat, key: K, data: V)
    requires Placed(hash, lg, s) && at < |s| && Home(hash, lg, key, at / 4)
    ensures Placed(hash, lg, s[at := Item(key, data)])
  {
  }

  lemma PutItem<K, V>(hash: K -> (nat, nat), lg: nat, s: seq<Cell<K, V>>, count: nat, at: nat, key: K, data: V)
    requires TableOf(hash, lg, s, count)
    requires at < |s| && s[at].Empty? && Home(hash, lg, key, at / 4)
    ensures TableOf(hash, lg, s[at := Item(key, data)], count + 1)
    ensures Items(s[at := Item(key, data)]) == Items(s) + multiset{(key, data)}
  {
    PlacedPut(hash, lg, s, at, key, data);
    ItemsUpdate(s, at, Item(key, data), |s|);
    CountUpdate(s, at, Item(key, data), |s|);
  }

  lemma SwapItem<K, V>(hash: K -> (nat, nat), lg: nat, s: seq<Cell<K, V>>, count: nat, at: nat, key: K, data: V)
    requires TableOf(hash, lg, s, count)
    requires at < |s| && s[at].Item? && Home(hash, lg, key, at / 4)
    ensures TableOf(hash, lg, s[at := Item(key, data)], count)
    ensures Items(s[at := Item(key, data)]) + multiset{(s[at].key, s[at].data)} == Items(s) + multiset{(key, data)}
  {
    PlacedPut(hash, lg, s, at, key, data);
    ItemsUpdate(s, at, Item(key, data), |s|);
    CountUpdate(s, at, Item(key, data), |s|);
  }

  lemma DropItem<K, V>(hash: K -> (nat, nat), lg: nat, s: seq<Cell<K, V>>, count: nat, at: nat, f: map<K, V>)
    requires TableOf(hash, lg, s, count) && Denotes(Items(s), f) && at < |s| && s[at].Item?
    ensures 0 < count && TableOf(hash, lg, s[at := Empty], count - 1)
    ensures Denotes(Items(s[at := Empty]), f - {s[at].key})
    ensures Conserved(Running, Items(s[at := Empty]), s[at].key, s[at].data, Items(s))
  {
    var p := (s[at].key, s[at].data);
    ItemsUpdate(s, at, Empty, |s|);
    assert Items(s[at := Empty]) + multiset{p} == Items(s);
    CountUpdate(s, at, Empty, |s|);
    RestEmpty(s, 0, at);
    RestEmpty(s, at + 1, |s|);
    DenotesRemove(Items(s[at := Empty]), f, p);
  }

  /** A table's item is in a bucket that ckh_isearch looks at. */
  lemma FoundAtHome<K, V>(hash: K -> (nat, nat), lg: nat, s: seq<Cell<K, V>>, key: K, data: V) returns (i: nat)
    requires Placed(hash, lg, s) && (key, data) in Items(s)
    ensures i < |s| && s[i] == Item(key, data)
    ensures InBucket(i, hash(key).0 % Pow2(lg)) || InBucket(i, hash(key).1 % Pow2(lg))
  {
    i := ItemsFind(s, (key, data), |s|);
    assert Home(hash, lg, s[i].key, i / 4);
  }

  // ----- chains of evictions -----

  ghost predicate Full<K, V>(s: seq<Cell<K, V>>, bucket: nat) {
    bucket * 4 + 4 <= |s| && forall i {:trigger InBucket(i, bucket)} :: InBucket(i, bucket) ==> s[i].Item?
  }

  /** Exactly one empty cell of the bucket has been filled. */
  ghost predicate Fills<K, V>(s: seq<Cell<K, V>>, bucket: nat, key: K, data: V, s': seq<Cell<K, V>>) {
    exists i :: 0 <= i < |s| && InBucket(i, bucket) && s[i].Empty? && s' == s[i := Item(key, data)]
  }

  /** A table, an item in hand and the bucket it is to go into. */
  datatype Hand<K, V> = Hand(tab: seq<Cell<K, V>>, bucket: nat, key: K, data: V)

  /** The bucket that an item evicted from this one is tried in. */
  function Other<K>(hash: K -> (nat, nat), lg: nat, key: K, bucket: nat): nat {
    var second := hash(key).1 % Pow2(lg);
    if second == bucket then hash(key).0 % Pow2(lg) else second
  }

  /** An evicted item goes to its other bucket, and back to the same one only if it has no other. */
  lemma OtherHome<K>(hash: K -> (nat, nat), lg: nat, key: K, bucket: nat)
    requires Home(hash, lg, key, bucket)
    ensures Home(hash, lg, key, Other(hash, lg, key, bucket))
    ensures Other(hash, lg, key, bucket) == bucket <==> hash(key).0 % Pow2(lg) == hash(key).1 % Pow2(lg)
  {
  }

  /** The item in hand takes the place of one in its bucket, which is then in hand. */
  ghost predicate Evicts<K, V>(hash: K -> (nat, nat), lg: nat, a: Hand<K, V>, b: Hand<K, V>) {
    && b.bucket == Other(hash, lg, b.key, a.bucket)
    && exists i :: 0 <= i < |a.tab| && InBucket(i, a.bucket) && a.tab[i] == Item(b.key, b.data)
         && b.tab == a.tab[i := Item(a.key, a.data)]
  }

  /** The i-th eviction of a run, from a full bucket that is not the first one again. */
  ghost predicate Link<K, V>(hash: K -> (nat, nat), lg: nat, run: seq<Hand<K, V>>, i: nat)
    requires i + 1 < |run|
  {
    && Evicts(hash, lg, run[i], run[i + 1]) && Full(run[i].tab, run[i].bucket)
    && (0 < i ==> run[i].bucket != run[0].bucket)
  }

  /** A run of the loop of ckh_evict_reloc_insert. */
  ghost predicate Run<K, V>(hash: K -> (nat, nat), lg: nat, run: seq<Hand<K, V>>) {
    |run| > 0 && forall i {:trigger Link(hash, lg, run, i)} :: 0 <= i < |run| - 1 ==> Link(hash, lg, run, i)
  }

  lemma RunOn<K, V>(hash: K -> (nat, nat), lg: nat, run: seq<Hand<K, V>>, h: Hand<K, V>)
    requires Run(hash, lg, run) && Evicts(hash, lg, run[|run| - 1], h)
    requires Full(run[|run| - 1].tab, run[|run| - 1].bucket)
    requires |run| == 1 || run[|run| - 1].bucket != run[0].bucket
    ensures Run(hash, lg, run + [h])
  {
    var r := run + [h];
    forall i | 0 <= i < |r| - 1 ensures Link(hash, lg, r, i) {
      assert i < |run| - 1 ==> Link(hash, lg, run, i);
    }
  }

  /** How a run has ended: the item last in hand found a free cell, or the run came back to its first bucket,
      or it has made all its evictions. */
  ghost predicate Ended<K, V>(o: Outcome, run: seq<Hand<K, V>>, tab: seq<Cell<K, V>>, key: K, data: V, evictions: nat)
    requires |run| > 0
  {
    var h := run[|run| - 1];
    && |run| <= evictions + 1
    && (o.Done? ==> 1 < |run| && h.bucket != run[0].bucket && Fills(h.tab, h.bucket, h.key, h.data, tab))
    && (!o.Done? ==> h == Hand(tab, h.bucket, key, data))
    && (o.Failed? ==> 1 < |run| && h.bucket == run[0].bucket)
    && (o.Running? ==> |run| == evictions + 1 && Full(tab, h.bucket) && (|run| == 1 || h.bucket != run[0].bucket))
  }

  /** A table of 2^lg buckets with some of these items, and one more in hand with no room in its buckets. */
  ghost predicate Begins<K, V>(hash: K -> (nat, nat), lg: nat, total: multiset<(K, V)>, h: Hand<K, V>) {
    && |h.tab| == Pow2(lg) * 4 && Placed(hash, lg, h.tab) && Items(h.tab) + multiset{(h.key, h.data)} <= total
    && h.bucket == hash(h.key).1 % Pow2(lg)
    && Full(h.tab, hash(h.key).0 % Pow2(lg)) && Full(h.tab, h.bucket)
  }

  /** A run from such a table that comes back to its first bucket. */
  ghost predicate Cycle<K, V>(hash: K -> (nat, nat), lg: nat, total: multiset<(K, V)>, run: seq<Hand<K, V>>) {
    && Run(hash, lg, run) && Begins(hash, lg, total, run[0])
    && 1 < |run| && run[|run| - 1].bucket == run[0].bucket
  }

  /** A run from such a table that has not ended after so many evictions. */
  ghost predicate Unended<K, V>(hash: K -> (nat, nat), lg: nat, total: multiset<(K, V)>, evictions: nat,
                                run: seq<Hand<K, V>>) {
    && Run(hash, lg, run) && Begins(hash, lg, total, run[0]) && |run| == evictions + 1
    && Full(run[evictions].tab, run[evictions].bucket) && (evictions == 0 || run[evictions].bucket != run[0].bucket)
  }

  /** 2^lg buckets may not do for these items: some of them can be placed so that a chain of evictions cycles. */
  ghost predicate Stuck<K(!new), V(!new)>(hash: K -> (nat, nat), lg: nat, total: multiset<(K, V)>) {
    exists run :: Cycle(hash, lg, total, run)
  }

  /** Or so that a chain does not end with these evictions. */
  ghost predicate Stalled<K(!new), V(!new)>(hash: K -> (nat, nat), lg: nat, total: multiset<(K, V)>, evictions: nat) {
    exists run :: Unended(hash, lg, total, evictions, run)
  }

  lemma MoreItems<K(!new), V(!new)>(hash: K -> (nat, nat), lg: nat, m: multiset<(K, V)>, total: multiset<(K, V)>,
                                    evictions: nat)
    requires m <= total
    ensures Stuck(hash, lg, m) ==> Stuck(hash, lg, total)
    ensures Stalled(hash, lg, m, evictions) ==> Stalled(hash, lg, total, evictions)
  {
    if Stuck(hash, lg, m) {
      var run :| Cycle(hash, lg, m, run);
      assert Cycle(hash, lg, total, run);
    }
    if Stalled(hash, lg, m, evictions) {
      var run :| Unended(hash, lg, m, evictions, run);
      assert Unended(hash, lg, total, evictions, run);
    }
  }

  /** ckh_new: the cells wanted for minitems items, at a load of at most three quarters. */
  function MinCells(minitems: nat): (r: nat)
    ensures 4 * minitems <= 3 * r <= 4 * minitems + 12
  {
    var thirds := (minitems + (3 - minitems % 3)) / 3;
    assert minitems <= 3 * thirds;
    thirds * 4
  }

  /** The least power of two buckets that gives MinCells cells. */
  method LgMinBuckets(minitems: nat, lgMax: nat) returns (lg: nat)
    requires 0 < minitems && 2 <= lgMax && MinCells(minitems) <= Pow2(lgMax)
    ensures lg + 2 <= lgMax && MinCells(minitems) <= Pow2(lg) * 4
    ensures 0 < lg ==> Pow2(lg - 1) * 4 < MinCells(minitems)
  {
    lg := 0;
    while Pow2(lg) * 4 < MinCells(minitems)
      invariant lg + 2 <= lgMax
      invariant 0 < lg ==> Pow2(lg - 1) * 4 < MinCells(minitems)
      decreases lgMax - lg
    {
      assert Pow2(lg + 2) == 4 * Pow2(lg);
      lg := lg + 1;
    }
  }

  class Ckh<K(==,!new), V(!new)> {
    const hash: K -> (nat, nat)
    const lgMinBuckets: nat
    const lgMaxCells: nat           // beyond this, sz_sa2u yields no usable size
    var count: nat
    var lgCurBuckets: nat
    var tab: array<Cell<K, V>>
    ghost var contents: map<K, V>
    ghost const stuck: (nat, multiset<(K, V)>) -> bool
    ghost const stalled: (nat, multiset<(K, V)>, nat) -> bool

    ghost predicate Table()
      reads this, tab
    {
      TableOf(hash, lgCurBuckets, tab[..], count) && Knows()
    }

    /** stuck and stalled are names for Stuck and Stalled, which most proofs need not look into. */
    ghost predicate Knows() {
      && (forall lg: nat, m {:trigger Stuck(hash, lg, m)} :: stuck(lg, m) <==> Stuck(hash, lg, m))
      && (forall lg: nat, m, n: nat {:trigger Stalled(hash, lg, m, n)} ::
            stalled(lg, m, n) <==> Stalled(hash, lg, m, n))
    }

    lemma More(lg: nat, m: multiset<(K, V)>, total: multiset<(K, V)>, evictions: nat)
      requires Knows() && m <= total
      ensures (stuck(lg, m) ==> stuck(lg, total)) && (stalled(lg, m, evictions) ==> stalled(lg, total, evictions))
    {
      MoreItems(hash, lg, m, total, evictions);
    }

    lemma Told(total: multiset<(K, V)>, from: nat, to: nat, evictions: nat)
      requires Knows() && AllStuck(total, from, to)
      ensures forall l :: from <= l < to ==> Stuck(hash, l, total)
      ensures stalled(to, total, evictions) ==> Stalled(hash, to, total, evictions)
    {
      forall l | from <= l < to ensures Stuck(hash, l, total) {
        assert stuck(l, total);
      }
    }

    /** All sizes in a range may not do. */
    ghost predicate AllStuck(total: multiset<(K, V)>, from: nat, to: nat) {
      forall l: nat {:trigger stuck(l, total)} :: from <= l < to ==> stuck(l, total)
    }

    lemma MoreStuck(m: multiset<(K, V)>, total: multiset<(K, V)>, from: nat, to: nat)
      requires Knows() && m <= total && AllStuck(m, from, to)
      ensures AllStuck(total, from, to)
    {
      forall l: nat | from <= l < to ensures stuck(l, total) {
        assert stuck(l, m);
        More(l, m, total, 0);
      }
    }

    ghost predicate Valid()
      reads this, tab
    {
      && Table()
      && lgMinBuckets <= lgCurBuckets && lgCurBuckets + 2 <= lgMaxCells
      && Denotes(Items(tab[..]), contents)
    }

    /** A table for minitems, within what can be allocated. */
    constructor (minitems: nat, hashes: K -> (nat, nat), lgMax: nat)
      requires 0 < minitems && 2 <= lgMax && MinCells(minitems) <= Pow2(lgMax)
      ensures Valid() && contents == map[] && count == 0
      ensures hash == hashes && fresh(tab)
      ensures 4 * minitems <= 3 * tab.Length && (4 < tab.Length ==> 3 * tab.Length < 8 * minitems + 24)
    {
      var lg := LgMinBuckets(minitems, lgMax);
      hash, lgMinBuckets, lgMaxCells := hashes, lg, lgMax;
      stuck := (l: nat, m: multiset<(K, V)>) => Stuck(hashes, l, m);
      stalled := (l: nat, m: multiset<(K, V)>, n: nat) => Stalled(hashes, l, m, n);
      count, lgCurBuckets := 0, lg;
      tab := new Cell<K, V>[Pow2(lg) * 4](_ => Empty);
      contents := map[];
      new;
      ItemsEmpty(tab[..], tab.Length);
    }

    method BucketSearch(bucket: nat, key: K) returns (cell: Option<nat>)
      requires bucket * 4 + 4 <= tab.Length
      ensures cell.Some? ==> InBucket(cell.value, bucket) && tab[cell.value].Item? && tab[cell.value].key == key
      ensures cell.None? ==> forall i :: InBucket(i, bucket) && tab[i].Item? ==> tab[i].key != key
    {
      for i := 0 to 4
        invariant forall j :: InBucket(j, bucket) && j < bucket * 4 + i && tab[j].Item? ==> tab[j].key != key
      {
        var c := tab[bucket * 4 + i];
        if c.Item? && c.key == key {
          return Some(bucket * 4 + i);
        }
      }
      return None;
    }

    /** A key is found exactly when it is bound, with the data it is bound to. */
    method ISearch(key: K) returns (cell: Option<nat>)
      requires Valid()
      ensures cell.Some? <==> key in contents
      ensures cell.Some? ==> cell.value < tab.Length && tab[cell.value] == Item(key, contents[key])
    {
      var bucket := hash(key).0 % Pow2(lgCurBuckets);
      cell := BucketSearch(bucket, key);
      if cell.None? {
        var bucket2 := hash(key).1 % Pow2(lgCurBuckets);
        cell := BucketSearch(bucket2, key);
        if cell.None? && key in contents {
          ghost var i := FoundAtHome(hash, lgCurBuckets, tab[..], key, contents[key]);
          assert false;
        }
      }
      if cell.Some? {
        ItemsAt(tab[..], cell.value, tab.Length);
      }
    }

    method Search(key: K) returns (found: Option<V>)
      requires Valid()
      ensures found == if key in contents then Some(contents[key]) else None
    {
      var cell := ISearch(key);
      found := match cell case None => None case Some(c) => Some(tab[c].data);
    }

    /** The first free cell of the bucket, looking from an arbitrary offset. */
    method FindFree(bucket: nat) returns (cell: Option<nat>)
      requires bucket * 4 + 4 <= tab.Length
      ensures cell.Some? ==> InBucket(cell.value, bucket) && tab[cell.value].Empty?
      ensures cell.None? ==> Full(tab[..], bucket)
    {
      var offset: nat :| offset < 4;
      for i := 0 to 4
        invariant forall k: nat :: k < i ==> tab[Slot(bucket, offset, k)].Item?
      {
        if tab[Slot(bucket, offset, i)].Empty? {
          return Some(Slot(bucket, offset, i));
        }
      }
      forall i | InBucket(i, bucket) ensures tab[i].Item? {
        var k := SlotOf(bucket, offset, i);
      }
      return None;
    }

    method TryBucketInsert(bucket: nat, key: K, data: V) returns (full: bool)
      requires Table() && bucket < Pow2(lgCurBuckets) && Home(hash, lgCurBuckets, key, bucket)
      modifies this`count, tab
      ensures Table()
      ensures full <==> Full(old(tab[..]), bucket)
      ensures full ==> tab[..] == old(tab[..])
      ensures !full ==> Fills(old(tab[..]), bucket, key, data, tab[..])
      ensures !full ==> Items(tab[..]) == old(Items(tab[..])) + multiset{(key, data)}
    {
      var cell := FindFree(bucket);
      if cell.None? {
        return true;
      }
      PutItem(hash, lgCurBuckets, tab[..], count, cell.value, key, data);
      assert tab[..][cell.value].Empty?;
      tab[cell.value] := Item(key, data);
      count := count + 1;
      assert tab[..] == old(tab[..])[cell.value := Item(key, data)];
      full := false;
    }

    /** Swaps the item in hand with a cell of its bucket and names the other bucket of the evicted item. */
    method Evict(bucket: nat, key: K, data: V) returns (tkey: K, tdata: V, tbucket: nat, ghost at: nat)
      requires Table() && bucket < Pow2(lgCurBuckets) && Home(hash, lgCurBuckets, key, bucket) && Full(tab[..], bucket)
      modifies tab
      ensures Table() && InBucket(at, bucket) && at < tab.Length
      ensures old(tab[at]) == Item(tkey, tdata) && tab[..] == old(tab[..])[at := Item(key, data)]
      ensures Items(tab[..]) + multiset{(tkey, tdata)} == old(Items(tab[..])) + multiset{(key, data)}
      ensures Home(hash, lgCurBuckets, tkey, tbucket) && tbucket < Pow2(lgCurBuckets)
      ensures tbucket == Other(hash, lgCurBuckets, tkey, bucket)
    {
      var i: nat :| i < 4;
      var c := bucket * 4 + i;
      at := c;
      assert InBucket(c, bucket);
      SwapItem(hash, lgCurBuckets, tab[..], count, c, key, data);
      tkey, tdata := tab[c].key, tab[c].data;
      tab[c] := Item(key, data);
      assert tab[..] == old(tab[..])[c := Item(key, data)];
      tbucket := hash(tkey).1 % Pow2(lgCurBuckets);
      if tbucket == bucket {
        tbucket := hash(tkey).0 % Pow2(lgCurBuckets);
      }
    }

    /** One link of the chain: the item in hand takes a cell, and the evicted one is tried in its other bucket. */
    method Relocate(argbucket: nat, bucket: nat, key: K, data: V, ghost total: multiset<(K, V)>)
      returns (o: Outcome, tkey: K, tdata: V, tbucket: nat, ghost at: nat, ghost h: Hand<K, V>)
      requires Table() && Next(bucket, key) && Conserved(Running, Items(tab[..]), key, data, total)
      modifies this`count, tab
      ensures Table() && InBucket(at, bucket) && Conserved(o, Items(tab[..]), tkey, tdata, total)
      ensures Evicts(hash, lgCurBuckets, Hand(old(tab[..]), bucket, key, data), h) && h.bucket == tbucket
      ensures o.Done? ==> tbucket != argbucket && Fills(h.tab, tbucket, h.key, h.data, tab[..])
      ensures !o.Done? ==> h == Hand(tab[..], tbucket, tkey, tdata) && tab[..] == old(tab[..])[at := Item(key, data)]
      ensures o.Failed? <==> tbucket == argbucket
      ensures o.Running? ==> Next(tbucket, tkey)
    {
      tkey, tdata, tbucket, at := Evict(bucket, key, data);
      h := Hand(tab[..], tbucket, tkey, tdata);
      if tbucket == argbucket {
        return Failed, tkey, tdata, tbucket, at, h;
      }
      var full := TryBucketInsert(tbucket, tkey, tdata);
      o := if full then Running else Done;
    }

    /** Relocates items until one finds a free cell or the chain comes back to its first bucket.
        Nothing is lost on the way; after a failure the new item is in the table and an old one in hand. */
    method EvictRelocInsert(argbucket: nat, argkey: K, argdata: V, evictions: nat)
      returns (o: Outcome, key: K, data: V, ghost run: seq<Hand<K, V>>)
      requires Table() && Next(argbucket, argkey) && (argkey, argdata) !in Items(tab[..])
      modifies this`count, tab
      ensures Table() && Conserved(o, Items(tab[..]), key, data, old(Items(tab[..])) + multiset{(argkey, argdata)})
      ensures o.Failed? ==> (key, data) in old(Items(tab[..]))
      ensures Run(hash, lgCurBuckets, run) && run[0] == Hand(old(tab[..]), argbucket, argkey, argdata)
      ensures Ended(o, run, tab[..], key, data, evictions)
    {
      run := [Hand(tab[..], argbucket, argkey, argdata)];
      if evictions == 0 {
        return Running, argkey, argdata, run;
      }
      ghost var total := Items(tab[..]) + multiset{(argkey, argdata)};
      var bucket: nat;
      ghost var kept: nat;       // the cell that holds the new item from now on
      ghost var h;
      o, key, data, bucket, kept, h := Relocate(argbucket, argbucket, argkey, argdata, total);
      RunOn(hash, lgCurBuckets, run, h);
      run := run + [h];
      if o.Running? {
        o, key, data, run := Chain(argbucket, bucket, key, data, total, evictions, kept, run);
      }
      if o.Failed? {
        OldInHand(tab[..], kept, key, data, old(Items(tab[..])), argkey, argdata);
      }
    }

    /** The rest of the chain, which leaves the cell that holds the new item alone. */
    method Chain(argbucket: nat, bucket0: nat, key0: K, data0: V, ghost total: multiset<(K, V)>, evictions: nat,
                 ghost kept: nat, ghost run0: seq<Hand<K, V>>)
      returns (o: Outcome, key: K, data: V, ghost run: seq<Hand<K, V>>)
      requires Table() && |run0| == 2 && 1 <= evictions && InBucket(kept, argbucket) && kept < tab.Length
      requires Conserved(Running, Items(tab[..]), key0, data0, total) && Next(bucket0, key0)
      requires Run(hash, lgCurBuckets, run0) && run0[1] == Hand(tab[..], bucket0, key0, data0)
      requires bucket0 != argbucket == run0[0].bucket
      modifies this`count, tab
      ensures Table() && Conserved(o, Items(tab[..]), key, data, total) && (!o.Done? ==> tab[kept] == old(tab[kept]))
      ensures Run(hash, lgCurBuckets, run) && run[0] == run0[0] && Ended(o, run, tab[..], key, data, evictions)
    {
      o, key, data, run := Running, key0, data0, run0;
      var bucket := bucket0;
      var n := 1;
      while o.Running? && n < evictions
        invariant Table() && Conserved(o, Items(tab[..]), key, data, total)
        invariant !o.Done? ==> tab[kept] == old(tab[kept])
        invariant Run(hash, lgCurBuckets, run) && run[0] == run0[0] && Ended(o, run, tab[..], key, data, n)
        invariant 1 <= n <= evictions
        invariant o.Running? ==> Next(bucket, key) && run[|run| - 1].bucket == bucket
      {
        ghost var at: nat, h;
        o, key, data, bucket, at, h := Relocate(argbucket, bucket, key, data, total);
        RunOn(hash, lgCurBuckets, run, h);
        run := run + [h];
        n := n + 1;
      }
    }

    /** The item in hand belongs to a full bucket. */
    ghost predicate Next(bucket: nat, key: K)
      requires Table()
      reads this, tab
    {
      bucket < Pow2(lgCurBuckets) && Home(hash, lgCurBuckets, key, bucket) && Full(tab[..], bucket)
    }

    /** One of a key's two buckets. */
    function FirstHome(key: K): nat
      reads this`lgCurBuckets
    {
      hash(key).0 % Pow2(lgCurBuckets)
    }

    function SecondHome(key: K): nat
      reads this`lgCurBuckets
    {
      hash(key).1 % Pow2(lgCurBuckets)
    }

    /** A chain of evictions for an item that has no free cell in either bucket. */
    method StartChain(argkey: K, argdata: V, evictions: nat)
      returns (o: Outcome, key: K, data: V, ghost run: seq<Hand<K, V>>)
      requires Table() && (argkey, argdata) !in Items(tab[..])
      requires Full(tab[..], FirstHome(argkey)) && Full(tab[..], SecondHome(argkey))
      modifies this`count, tab
      ensures Table() && Conserved(o, Items(tab[..]), key, data, old(Items(tab[..])) + multiset{(argkey, argdata)})
      ensures o.Failed? ==> (key, data) in old(Items(tab[..]))
      ensures Run(hash, lgCurBuckets, run) && run[0] == Hand(old(tab[..]), SecondHome(argkey), argkey, argdata)
      ensures Ended(o, run, tab[..], key, data, evictions)
      ensures o.Failed? ==> stuck(lgCurBuckets, old(Items(tab[..])) + multiset{(argkey, argdata)})
      ensures o.Running? ==> stalled(lgCurBuckets, old(Items(tab[..])) + multiset{(argkey, argdata)}, evictions)
    {
      ghost var total := Items(tab[..]) + multiset{(argkey, argdata)};
      assert Begins(hash, lgCurBuckets, total, Hand(tab[..], SecondHome(argkey), argkey, argdata));
      o, key, data, run := EvictRelocInsert(SecondHome(argkey), argkey, argdata, evictions);
      if o.Failed? {
        assert Cycle(hash, lgCurBuckets, total, run);
        assert Stuck(hash, lgCurBuckets, total);
      } else if o.Running? {
        assert Unended(hash, lgCurBuckets, total, evictions, run);
        assert Stalled(hash, lgCurBuckets, total, evictions);
      }
    }

    /** A free cell of the first bucket is used if there is one, else one of the second; items are evicted only
        if there is none, and then run is the chain of evictions. */
    method TryInsert(argkey: K, argdata: V, evictions: nat)
      returns (o: Outcome, key: K, data: V, ghost run: seq<Hand<K, V>>)
      requires Table() && (argkey, argdata) !in Items(tab[..])
      modifies this`count, tab
      ensures Table() && Conserved(o, Items(tab[..]), key, data, old(Items(tab[..])) + multiset{(argkey, argdata)})
      ensures o.Failed? ==> (key, data) in old(Items(tab[..]))
      ensures !Full(old(tab[..]), FirstHome(argkey)) ==>
        o.Done? && Fills(old(tab[..]), FirstHome(argkey), argkey, argdata, tab[..])
      ensures Full(old(tab[..]), FirstHome(argkey)) && !Full(old(tab[..]), SecondHome(argkey)) ==>
        o.Done? && Fills(old(tab[..]), SecondHome(argkey), argkey, argdata, tab[..])
      ensures Full(old(tab[..]), FirstHome(argkey)) && Full(old(tab[..]), SecondHome(argkey)) ==>
        && Run(hash, lgCurBuckets, run) && run[0] == Hand(old(tab[..]), SecondHome(argkey), argkey, argdata)
        && Ended(o, run, tab[..], key, data, evictions)
      ensures o.Failed? ==> stuck(lgCurBuckets, old(Items(tab[..])) + multiset{(argkey, argdata)})
      ensures o.Running? ==> stalled(lgCurBuckets, old(Items(tab[..])) + multiset{(argkey, argdata)}, evictions)
    {
      o, key, data, run := Done, argkey, argdata, [];
      var full := TryBucketInsert(FirstHome(key), key, data);
      if full {
        full := TryBucketInsert(SecondHome(key), key, data);
      }
      if full {
        o, key, data, run := StartChain(key, data, evictions);
      }
    }

    /** What the callers of ckh_try_insert need to know. */
    method TryItem(argkey: K, argdata: V, evictions: nat) returns (o: Outcome, key: K, data: V)
      requires Table() && (argkey, argdata) !in Items(tab[..])
      modifies this`count, tab
      ensures Table() && Conserved(o, Items(tab[..]), key, data, old(Items(tab[..])) + multiset{(argkey, argdata)})
      ensures o.Failed? ==> (key, data) in old(Items(tab[..]))
      ensures o.Failed? ==> stuck(lgCurBuckets, old(Items(tab[..])) + multiset{(argkey, argdata)})
      ensures o.Running? ==> stalled(lgCurBuckets, old(Items(tab[..])) + multiset{(argkey, argdata)}, evictions)
      ensures HasRoom(old(tab[..]), lgCurBuckets, argkey) ==>
        o.Done? && FillsHome(old(tab[..]), lgCurBuckets, argkey, argdata, tab[..])
    {
      ghost var run;
      o, key, data, run := TryInsert(argkey, argdata, evictions);
    }

    /** Inserts what a cell of the old table holds. */
    method Reinsert(c: Cell<K, V>, evictions: nat, ghost after: multiset<(K, V)>, ghost total: multiset<(K, V)>)
      returns (o: Outcome)
      requires Table() && Adds(c, Items(tab[..]), after) && after <= total
      modifies this`count, tab
      ensures Table() && (o.Done? ==> Items(tab[..]) == after)
      ensures o.Failed? ==> stuck(lgCurBuckets, total)
      ensures o.Running? ==> stalled(lgCurBuckets, total, evictions)
    {
      o := Done;
      if c.Item? {
        var key, data;
        o, key, data := TryItem(c.key, c.data, evictions);
        More(lgCurBuckets, after, total, evictions);
      }
    }

    /** One round of the loop of ckh_rebuild. */
    method ReinsertCell(c: Cell<K, V>, nins: nat, evictions: nat, ghost s: seq<Cell<K, V>>,
                        ghost pre: seq<multiset<(K, V)>>, ghost i: nat)
      returns (o: Outcome, nins': nat)
      requires Table() && Prefixes(s, pre) && i < |s| && c == s[i] && Rebuilt(s, pre, i, nins)
      modifies this`count, tab
      ensures Table() && (o.Done? ==> Rebuilt(s, pre, i + 1, nins'))
      ensures o.Failed? ==> stuck(lgCurBuckets, Items(s))
      ensures o.Running? ==> stalled(lgCurBuckets, Items(s), evictions)
    {
      PrefixAdds(s, pre, i);
      o := Reinsert(c, evictions, pre[i + 1], Items(s));
      nins' := nins + if c.Item? then 1 else 0;
    }

    /** The items of the first i cells of the old table, nins of them, have been moved. */
    ghost predicate Rebuilt(s: seq<Cell<K, V>>, pre: seq<multiset<(K, V)>>, i: nat, nins: nat)
      requires i <= |s| && |pre| == |s| + 1
      reads this, tab
    {
      nins == CountTo(s, i) && Items(tab[..]) == pre[i]
    }

    /** Inserts n items of the old table, which are all it has, so the scan stops by itself within it. */
    method Reinsertion(aTab: array<Cell<K, V>>, n: nat, evictions: nat, ghost s: seq<Cell<K, V>>,
                       ghost pre: seq<multiset<(K, V)>>)
      returns (o: Outcome, ghost seen: nat)
      requires aTab != tab && s == aTab[..] && n == CountTo(s, |s|) && Prefixes(s, pre)
      requires Table() && Rebuilt(s, pre, 0, 0)
      modifies this`count, tab
      ensures Table() && seen <= |s|
      ensures o.Done? ==> exists nins :: n <= nins && Rebuilt(s, pre, seen, nins)
      ensures o.Failed? ==> stuck(lgCurBuckets, Items(s))
      ensures o.Running? ==> stalled(lgCurBuckets, Items(s), evictions)
    {
      var i: nat, nins: nat := 0, 0;
      o, seen := Done, 0;
      while nins < n
        invariant i == seen <= |s| && s == aTab[..]
        invariant Table() && Rebuilt(s, pre, i, nins) && o.Done?
        decreases |s| - i
      {
        o, nins := ReinsertCell(aTab[i], nins, evictions, s, pre, i);
        if !o.Done? {
          return;
        }
        i := i + 1;
        seen := i;
      }
    }

    /** Inserts every item of the old table; on failure the count is as before. */
    method Rebuild(aTab: array<Cell<K, V>>, evictions: nat, ghost f: map<K, V>) returns (o: Outcome)
      requires aTab != tab && count == CountTo(aTab[..], aTab.Length)
      requires TableOf(hash, lgCurBuckets, tab[..], 0) && Knows()
      requires Denotes(Items(aTab[..]), f)
      modifies this`count, tab
      ensures o.Done? ==> Table() && Items(tab[..]) == Items(aTab[..])
      ensures !o.Running? ==> count == old(count)
      ensures o.Failed? ==> stuck(lgCurBuckets, Items(aTab[..]))
      ensures o.Running? ==> stalled(lgCurBuckets, Items(aTab[..]), evictions)
    {
      var oldCount := count;
      count := 0;
      RestEmpty(tab[..], 0, tab.Length);
      ghost var pre := PrefixItems(aTab[..]);
      DenotesPrefixes(aTab[..], f, pre);
      ghost var seen;
      o, seen := Reinsertion(aTab, oldCount, evictions, aTab[..], pre);
      if o.Failed? {
        count := oldCount;
      } else if o.Done? {
        RestEmpty(aTab[..], seen, aTab.Length);
        CountIs(tab[..], tab.Length);
        CountIs(aTab[..], aTab.Length);
      }
    }

    method EmptyTable(lg: nat)
      modifies this`tab, this`lgCurBuckets
      ensures fresh(tab) && lgCurBuckets == lg && TableOf(hash, lg, tab[..], 0)
    {
      tab := new Cell<K, V>[Pow2(lg) * 4](_ => Empty);
      lgCurBuckets := lg;
      ItemsEmpty(tab[..], tab.Length);
    }

    /** Swaps in an empty table of 2^lg buckets and rebuilds; a failed rebuild is backed out completely. */
    method TryTable(lg: nat, evictions: nat, ghost f: map<K, V>) returns (o: Outcome)
      requires Table() && Denotes(Items(tab[..]), f)
      modifies this`tab, this`lgCurBuckets, this`count
      ensures o.Done? ==>
        && fresh(tab) && lgCurBuckets == lg && count == old(count)
        && Table() && Items(tab[..]) == old(Items(tab[..]))
      ensures o.Failed? ==>
        tab == old(tab) && tab[..] == old(tab[..]) && lgCurBuckets == old(lgCurBuckets) && count == old(count)
      ensures o.Failed? ==> stuck(lg, old(Items(tab[..])))
      ensures o.Running? ==> stalled(lg, old(Items(tab[..])), evictions)
    {
      var lgPrev, ttab := lgCurBuckets, tab;
      EmptyTable(lg);
      o := Rebuild(ttab, evictions, f);
      if o.Failed? {
        tab := ttab;
        lgCurBuckets := lgPrev;
      }
    }

    /** A table of 2^lg buckets cannot be had. */
    predicate Refused(lg: nat, refused: set<nat>) { lgMaxCells < lg + 2 || lg in refused }

    /** Doubles the table as often as a usable one needs. Only sizes that may not do are passed over, and it
        fails only at a size that is refused. */
    method Grow(evictions: nat, refused: set<nat>, ghost f: map<K, V>) returns (o: Outcome, ghost top: nat)
      requires Table() && Denotes(Items(tab[..]), f)
      modifies this`tab, this`lgCurBuckets, this`count
      ensures old(lgCurBuckets) < top && AllStuck(old(Items(tab[..])), old(lgCurBuckets) + 1, top)
      ensures o.Done? ==>
        && fresh(tab) && lgCurBuckets == top && lgCurBuckets + 2 <= lgMaxCells
        && count == old(count) && Table() && Items(tab[..]) == old(Items(tab[..]))
      ensures o.Failed? ==>
        tab == old(tab) && tab[..] == old(tab[..]) && lgCurBuckets == old(lgCurBuckets) && count == old(count)
      ensures o.Failed? ==> Refused(top, refused)
      ensures o.Running? ==> top + 2 <= lgMaxCells && stalled(top, old(Items(tab[..])), evictions)
    {
      var lg := lgCurBuckets;
      ghost var items := Items(tab[..]);
      while true
        invariant lgCurBuckets == old(lgCurBuckets) <= lg && count == old(count)
        invariant tab == old(tab) && tab[..] == old(tab[..]) && AllStuck(items, old(lgCurBuckets) + 1, lg + 1)
        decreases lgMaxCells - lg
      {
        lg := lg + 1;
        top := lg;
        if Refused(lg, refused) {
          return Failed, top;
        }
        o := TryTable(lg, evictions, f);
        if !o.Failed? {
          return;
        }
      }
    }

    /** Halves the table if that works; otherwise nothing changes. */
    method Shrink(evictions: nat, refused: set<nat>) returns (o: Outcome)
      requires Valid() && lgMinBuckets < lgCurBuckets
      modifies this`tab, this`lgCurBuckets, this`count
      ensures !o.Running? ==> Valid() && count == old(count) && (tab == old(tab) || fresh(tab))
      ensures o.Done? ==> lgCurBuckets == old(lgCurBuckets) - 1
      ensures o.Failed? ==>
        && tab == old(tab) && tab[..] == old(tab[..]) && lgCurBuckets == old(lgCurBuckets)
        && (lgCurBuckets - 1 in refused || stuck(lgCurBuckets - 1, Items(tab[..])))
      ensures o.Running? ==> stalled(old(lgCurBuckets) - 1, old(Items(tab[..])), evictions)
    {
      if lgCurBuckets - 1 in refused {
        return Failed;
      }
      o := TryTable(lgCurBuckets - 1, evictions, contents);
    }

    /** The growth after a failed round, with an evicted item in hand. */
    method GrowFor(key: K, data: V, evictions: nat, refused: set<nat>, ghost f: map<K, V>,
                   ghost total: multiset<(K, V)>)
      returns (o: Outcome, ghost top: nat)
      requires Table() && Denotes(total, f) && Conserved(Failed, Items(tab[..]), key, data, total)
      requires stuck(lgCurBuckets, total)
      modifies this`tab, this`lgCurBuckets, this`count
      ensures !o.Running? ==>
        Table() && (tab == old(tab) || fresh(tab)) && Conserved(Failed, Items(tab[..]), key, data, total)
      ensures o.Done? ==> lgCurBuckets == top && lgCurBuckets + 2 <= lgMaxCells
      ensures o.Failed? ==> lgCurBuckets == old(lgCurBuckets) && Refused(top, refused)
      ensures old(lgCurBuckets) < top && AllStuck(total, old(lgCurBuckets), top)
      ensures o.Running? ==> top + 2 <= lgMaxCells && stalled(top, total, evictions)
    {
      DenotesRemove(Items(tab[..]), f, (key, data));
      ghost var items, lg := Items(tab[..]), lgCurBuckets;
      o, top := Grow(evictions, refused, f - {key});
      MoreStuck(items, total, lg + 1, top);
      More(top, items, total, evictions);
    }

    /** One round of ckh_insert: place the item, or grow the table with an evicted item in hand. */
    method TryOrGrow(argkey: K, argdata: V, evictions: nat, refused: set<nat>, ghost f: map<K, V>,
                     ghost total: multiset<(K, V)>)
      returns (o: Outcome, retry: bool, key: K, data: V, ghost top: nat)
      requires Table() && lgCurBuckets + 2 <= lgMaxCells && Denotes(total, f)
      requires Items(tab[..]) + multiset{(argkey, argdata)} == total
      modifies this`tab, this`lgCurBuckets, this`count, tab
      ensures !o.Running? ==>
        && Table() && (tab == old(tab) || fresh(tab)) && lgCurBuckets + 2 <= lgMaxCells
        && Conserved(if retry then Failed else Done, Items(tab[..]), key, data, total)
      ensures o.Done? ==> lgCurBuckets == top && (retry <==> old(lgCurBuckets) < lgCurBuckets)
      ensures o.Failed? ==> retry && lgCurBuckets == old(lgCurBuckets) && (key, data) in old(Items(tab[..]))
      ensures old(lgCurBuckets) <= top && AllStuck(total, old(lgCurBuckets), top)
      ensures o.Failed? ==> lgCurBuckets < top && Refused(top, refused)
      ensures o.Running? ==> top + 2 <= lgMaxCells && stalled(top, total, evictions)
      ensures o.Done? && !retry ==> tab == old(tab)
      ensures HasRoom(old(tab[..]), old(lgCurBuckets), argkey) ==>
        o.Done? && !retry && FillsHome(old(tab[..]), lgCurBuckets, argkey, argdata, tab[..])
    {
      DenotesOnce(Items(tab[..]), f, (argkey, argdata));
      top := lgCurBuckets;
      o, key, data := TryItem(argkey, argdata, evictions);
      retry := o.Failed?;
      if retry {
        o, top := GrowFor(key, data, evictions, refused, f, total);
      }
    }

    /** One of the two buckets of the key has a free cell. */
    ghost predicate HasRoom(s: seq<Cell<K, V>>, lg: nat, key: K) {
      !Full(s, hash(key).0 % Pow2(lg)) || !Full(s, hash(key).1 % Pow2(lg))
    }

    /** Exactly one such cell has been filled. */
    ghost predicate FillsHome(s: seq<Cell<K, V>>, lg: nat, key: K, data: V, s': seq<Cell<K, V>>) {
      Fills(s, hash(key).0 % Pow2(lg), key, data, s') || Fills(s, hash(key).1 % Pow2(lg), key, data, s')
    }

    /** The rounds of ckh_insert after a growth, from a table and an item in hand that together are total. */
    method KeepPlacing(argkey: K, argdata: V, evictions: nat, refused: set<nat>, ghost f: map<K, V>,
                       ghost total: multiset<(K, V)>)
      returns (o: Outcome, key: K, data: V, ghost top: nat)
      requires Table() && lgCurBuckets + 2 <= lgMaxCells && Denotes(total, f)
      requires Items(tab[..]) + multiset{(argkey, argdata)} == total
      modifies this`tab, this`lgCurBuckets, this`count, tab
      ensures !o.Running? ==>
        && Table() && (tab == old(tab) || fresh(tab)) && Conserved(o, Items(tab[..]), key, data, total)
        && old(lgCurBuckets) <= lgCurBuckets && lgCurBuckets + 2 <= lgMaxCells
      ensures old(lgCurBuckets) <= top && AllStuck(total, old(lgCurBuckets), top)
      ensures o.Done? ==> lgCurBuckets == top
      ensures o.Failed? ==> lgCurBuckets < top && Refused(top, refused)
      ensures o.Running? ==> top + 2 <= lgMaxCells && stalled(top, total, evictions)
    {
      key, data, top := argkey, argdata, lgCurBuckets;
      var retry := true;
      while retry
        invariant Table() && (tab == old(tab) || fresh(tab))
        invariant old(lgCurBuckets) <= lgCurBuckets == top && lgCurBuckets + 2 <= lgMaxCells
        invariant Conserved(if retry then Failed else Done, Items(tab[..]), key, data, total)
        invariant AllStuck(total, old(lgCurBuckets), top)
        decreases retry, lgMaxCells - lgCurBuckets
      {
        ghost var from := top;
        o, retry, key, data, top := TryOrGrow(key, data, evictions, refused, f, total);
        if !o.Done? {
          return;
        }
      }
      o := Done;
    }

    /** The loop of ckh_insert. */
    method Place(argkey: K, argdata: V, evictions: nat, refused: set<nat>, ghost f: map<K, V>,
                 ghost total: multiset<(K, V)>)
      returns (o: Outcome, key: K, data: V, ghost top: nat)
      requires Table() && lgCurBuckets + 2 <= lgMaxCells && Denotes(total, f)
      requires Items(tab[..]) + multiset{(argkey, argdata)} == total
      modifies this`tab, this`lgCurBuckets, this`count, tab
      ensures !o.Running? ==>
        && Table() && (tab == old(tab) || fresh(tab)) && Conserved(o, Items(tab[..]), key, data, total)
        && old(lgCurBuckets) <= lgCurBuckets && lgCurBuckets + 2 <= lgMaxCells
      ensures o.Failed? && lgCurBuckets == old(lgCurBuckets) ==> (key, data) in old(Items(tab[..]))
      ensures old(lgCurBuckets) <= top && AllStuck(total, old(lgCurBuckets), top)
      ensures o.Done? ==> lgCurBuckets == top
      ensures o.Failed? ==> lgCurBuckets < top && Refused(top, refused)
      ensures o.Running? ==> top + 2 <= lgMaxCells && stalled(top, total, evictions)
      ensures HasRoom(old(tab[..]), old(lgCurBuckets), argkey) ==>
        && o.Done? && top == old(lgCurBuckets) && tab == old(tab)
        && FillsHome(old(tab[..]), lgCurBuckets, argkey, argdata, tab[..])
    {
      var retry;
      o, retry, key, data, top := TryOrGrow(argkey, argdata, evictions, refused, f, total);
      if o.Done? && retry {
        ghost var from := top;
        o, key, data, top := KeepPlacing(key, data, evictions, refused, f, total);
      }
    }

    /** Done: exactly the new binding was added, in a free cell of its buckets if there was one. Failed: a table
        of a size that was needed could not be had, the one binding in hand is missing, and if the table had
        not been grown by then, it is an older binding. Running: a chain of evictions has not ended. Sizes are
        passed over only if chains cycle there. */
    method Insert(argkey: K, argdata: V, evictions: nat, refused: set<nat>)
      returns (o: Outcome, key: K, data: V, ghost top: nat)
      requires Valid() && argkey !in contents
      modifies this, tab
      ensures !o.Running? ==> Valid() && (tab == old(tab) || fresh(tab))
      ensures o.Done? ==> contents == old(contents)[argkey := argdata]
      ensures o.Failed? ==>
        && key in old(contents)[argkey := argdata] && old(contents)[argkey := argdata][key] == data
        && contents == old(contents)[argkey := argdata] - {key}
        && (lgCurBuckets == old(lgCurBuckets) ==> key in old(contents))
      ensures var total := old(Items(tab[..])) + multiset{(argkey, argdata)};
        && old(lgCurBuckets) <= top && (forall l :: old(lgCurBuckets) <= l < top ==> Stuck(hash, l, total))
        && (o.Done? ==> lgCurBuckets == top)
        && (o.Failed? ==> lgCurBuckets < top && (lgMaxCells < top + 2 || top in refused))
        && (o.Running? ==> top + 2 <= lgMaxCells && Stalled(hash, top, total, evictions))
      ensures HasRoom(old(tab[..]), old(lgCurBuckets), argkey) ==>
        && o.Done? && lgCurBuckets == old(lgCurBuckets) && tab == old(tab)
        && FillsHome(old(tab[..]), lgCurBuckets, argkey, argdata, tab[..])
    {
      ghost var f, total := contents[argkey := argdata], Items(tab[..]) + multiset{(argkey, argdata)};
      DenotesAdd(Items(tab[..]), contents, argkey, argdata);
      o, key, data, top := Place(argkey, argdata, evictions, refused, f, total);
      if !o.Running? {
        DenotesLeft(o, Items(tab[..]), key, data, total, f);
      }
      contents := if o.Failed? then f - {key} else f;
      Told(total, old(lgCurBuckets), top, evictions);
    }

    /** The table has half the buckets, or as many as before if that many cannot be had or may not do. */
    ghost predicate Halved(o: Outcome, lg: nat, items: multiset<(K, V)>, refused: set<nat>)
      reads this`lgCurBuckets
    {
      && (o.Done? ==> lgCurBuckets == lg - 1)
      && (o.Failed? ==> lgCurBuckets == lg && 0 < lg && (lg - 1 in refused || stuck(lg - 1, items)))
    }

    /** A table that is less than a quarter full is halved if that works. */
    method ShrinkIfSparse(evictions: nat, refused: set<nat>) returns (o: Outcome)
      requires Valid()
      modifies this`tab, this`lgCurBuckets, this`count
      ensures !o.Running? ==> Valid() && count == old(count) && (tab == old(tab) || fresh(tab))
      ensures o.Running? ==>
        lgMinBuckets < old(lgCurBuckets) && stalled(old(lgCurBuckets) - 1, old(Items(tab[..])), evictions)
      ensures if 4 * old(count) < old(tab.Length) && lgMinBuckets < old(lgCurBuckets)
              then Halved(o, old(lgCurBuckets), old(Items(tab[..])), refused)
              else o.Done? && lgCurBuckets == old(lgCurBuckets) && tab == old(tab)
    {
      o := Done;
      if count < Pow2(lgCurBuckets) && lgCurBuckets > lgMinBuckets {
        o := Shrink(evictions, refused);
      }
    }

    /** Removes exactly the one binding, whether or not the table can be halved afterwards; left are the items
        without it. */
    method Remove(searchkey: K, evictions: nat, refused: set<nat>)
      returns (o: Outcome, found: Option<V>, ghost left: multiset<(K, V)>)
      requires Valid()
      modifies this, tab
      ensures found == (if searchkey in old(contents) then Some(old(contents)[searchkey]) else None)
      ensures contents == old(contents) - {searchkey}
      ensures found.Some? ==> Conserved(Running, left, searchkey, found.value, old(Items(tab[..])))
      ensures !o.Running? ==>
        Valid() && (tab == old(tab) || fresh(tab)) && count == old(count) - (if found.Some? then 1 else 0)
      ensures o.Running? ==>
        found.Some? && lgMinBuckets < old(lgCurBuckets) && stalled(old(lgCurBuckets) - 1, left, evictions)
      ensures if found.Some? && 4 * (old(count) - 1) < old(tab.Length) && lgMinBuckets < old(lgCurBuckets)
              then Halved(o, old(lgCurBuckets), left, refused)
              else o.Done? && lgCurBuckets == old(lgCurBuckets) && tab == old(tab)
    {
      o, found, left := Done, None, multiset{};
      var cell := ISearch(searchkey);
      if cell.Some? {
        found := Some(tab[cell.value].data);
        Delete(cell.value);
        left := Items(tab[..]);
        o := ShrinkIfSparse(evictions, refused);
      }
    }

    method Delete(cell: nat)
      requires Valid() && cell < tab.Length && tab[cell].Item?
      modifies tab, this`count, this`contents
      ensures Valid() && count == old(count) - 1
      ensures contents == old(contents) - {old(tab[cell]).key}
      ensures Conserved(Running, Items(tab[..]), old(tab[cell]).key, old(tab[cell]).data, old(Items(tab[..])))
    {
      DropItem(hash, lgCurBuckets, tab[..], count, cell, contents);
      contents := contents - {tab[cell].key};
      tab[cell] := Empty;
      count := count - 1;
      assert tab[..] == old(tab[..])[cell := Empty];
    }

    /** The next item at or after tabind; everything it skips is empty. */
    method Iter(tabind: nat) returns (next: nat, item: Option<(K, V)>)
      requires tabind <= tab.Length
      ensures next <= tab.Length
      ensures item.Some? ==> tabind < next && Left(tab[..], tabind) == Left(tab[..], next) + multiset{item.value}
      ensures item.None? ==> Left(tab[..], tabind) == multiset{}
    {
      next := tabind;
      while next < tab.Length && tab[next].Empty?
        invariant tabind <= next <= tab.Length && forall j :: tabind <= j < next ==> tab[j].Empty?
      {
        next := next + 1;
      }
      LeftSkip(tab[..], tabind, next);
      if next == tab.Length {
        return next, None;
      }
      item := Some((tab[next].key, tab[next].data));
      next := next + 1;
    }
  }
}
