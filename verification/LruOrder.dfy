/**
 * What the recency list of the LRU plugin means: its chunks are in the order of their last use, and those that were
 * never used come last, in the order of their allocation. So fast memory holds the chunks used most recently.
 */
module LruOrder {
  import opened LruTier

  /** The number of the last sample of c since it was allocated, or -1. */
  ghost function Used(h: seq<Event>, c: Chunk): int {
    if h == [] then -1 else
      var before := Used(h[..|h| - 1], c);
      match h[|h| - 1]
      case Alloc(cs) => if c in cs then -1 else before
      case Free(cs) => if c in cs then -1 else before
      case Sample(x) => if x == c then |h| - 1 else before
  }

  /** How many chunks have been allocated. */
  ghost function Allocated(h: seq<Event>): nat {
    if h == [] then 0 else
      var e := h[|h| - 1];
      Allocated(h[..|h| - 1]) + if e.Alloc? then |e.chunks| else 0
  }

  ghost function Place(cs: seq<Chunk>, c: Chunk): (r: nat)
    requires c in cs
    ensures r < |cs| && cs[r] == c
  {
    if cs[0] == c then 0 else 1 + Place(cs[1..], c)
  }

  /** How many chunks had been allocated when c was, the last time. */
  ghost function Born(h: seq<Event>, c: Chunk): nat {
    if h == [] then 0 else
      var before, e := h[..|h| - 1], h[|h| - 1];
      if e.Alloc? && c in e.chunks then Allocated(before) + Place(e.chunks, c) else Born(before, c)
  }

  /** c was used later than d, or neither was used and c was allocated earlier. */
  ghost predicate Ahead(h: seq<Event>, c: Chunk, d: Chunk) {
    Used(h, d) < Used(h, c) || (Used(h, c) == -1 == Used(h, d) && Born(h, c) < Born(h, d))
  }

  ghost predicate InOrder(h: seq<Event>, r: seq<Chunk>) {
    forall i, j {:trigger r[i], r[j]} :: 0 <= i < j < |r| ==> Ahead(h, r[i], r[j])
  }

  lemma {:induction false} UsedBound(h: seq<Event>, c: Chunk)
    ensures -1 <= Used(h, c) < |h| || h == []
    ensures -1 <= Used(h, c)
  {
    if h != [] {
      UsedBound(h[..|h| - 1], c);
    }
  }

  /** Removing an element keeps the order of the others. */
  lemma {:induction false} DelPair(s: seq<Chunk>, x: Chunk, i: nat, j: nat) returns (i': nat, j': nat)
    requires i < j < |Del(s, x)|
    ensures i' < j' < |s| && s[i'] == Del(s, x)[i] && s[j'] == Del(s, x)[j]
  {
    if s[0] == x {
      i', j' := i + 1, j + 1;
    } else if i == 0 {
      j' := DelOne(s[1..], x, j - 1);
      i', j' := 0, j' + 1;
    } else {
      i', j' := DelPair(s[1..], x, i - 1, j - 1);
      i', j' := i' + 1, j' + 1;
    }
  }

  lemma {:induction false} DelOne(s: seq<Chunk>, x: Chunk, j: nat) returns (j': nat)
    requires j < |Del(s, x)|
    ensures j' < |s| && s[j'] == Del(s, x)[j]
  {
    if s[0] == x {
      j' := j + 1;
    } else if j == 0 {
      j' := 0;
    } else {
      j' := DelOne(s[1..], x, j - 1);
      j' := j' + 1;
    }
  }

  lemma {:induction false} DelAllPair(s: seq<Chunk>, xs: seq<Chunk>, i: nat, j: nat) returns (i': nat, j': nat)
    requires i < j < |DelAll(s, xs)|
    ensures i' < j' < |s| && s[i'] == DelAll(s, xs)[i] && s[j'] == DelAll(s, xs)[j]
  {
    if xs == [] {
      i', j' := i, j;
    } else {
      var before := xs[..|xs| - 1];
      i', j' := DelPair(DelAll(s, before), xs[|xs| - 1], i, j);
      i', j' := DelAllPair(s, before, i', j');
    }
  }

  lemma {:induction false} DelDistinct(s: seq<Chunk>, x: Chunk)
    requires Distinct(s)
    ensures Distinct(Del(s, x)) && x !in Del(s, x) && forall y :: y in Del(s, x) ==> y in s
  {
    if x in s {
      var k :| 0 <= k < |s| && s[k] == x;
      DelAt(s, k);
      DistinctWithout(s, k);
      WithoutKeeps(s, k);
    } else {
      DelAbsent(s, x);
    }
  }

  lemma {:induction false} DelAbsent(s: seq<Chunk>, x: Chunk)
    requires x !in s
    ensures Del(s, x) == s
  {
    if s != [] {
      DelAbsent(s[1..], x);
    }
  }

  lemma {:induction false} DelAllDistinct(s: seq<Chunk>, xs: seq<Chunk>)
    requires Distinct(s)
    ensures Distinct(DelAll(s, xs)) && forall y :: y in DelAll(s, xs) ==> y in s && y !in xs
  {
    if xs != [] {
      DelAllDistinct(s, xs[..|xs| - 1]);
      DelDistinct(DelAll(s, xs[..|xs| - 1]), xs[|xs| - 1]);
    }
  }

  /** c was allocated and has not been freed since. */
  ghost predicate Held(h: seq<Event>, c: Chunk) {
    h != [] &&
    var before := Held(h[..|h| - 1], c);
    match h[|h| - 1]
    case Alloc(cs) => c in cs || before
    case Free(cs) => c !in cs && before
    case Sample(_) => before
  }

  /** All that there is to say about the recency list: which chunks are in it, once each, and in what order. */
  ghost predicate IsRecency(h: seq<Event>, r: seq<Chunk>) {
    && Distinct(r) && InOrder(h, r) && (forall c :: c in r <==> Held(h, c))
    && forall c :: c in r ==> Born(h, c) < Allocated(h)
  }

  lemma AllocOrder(h: seq<Event>, r: seq<Chunk>)
    requires h != [] && h[|h| - 1].Alloc? && IsRecency(h[..|h| - 1], r) && Distinct(r + h[|h| - 1].chunks)
    ensures IsRecency(h, r + h[|h| - 1].chunks)
  {
    var before, cs := h[..|h| - 1], h[|h| - 1].chunks;
    var r' := r + cs;
    forall c | c in r ensures c !in cs && Used(h, c) == Used(before, c) && Born(h, c) == Born(before, c) {
      Fresh(r, cs, c);
    }
    forall k | 0 <= k < |cs| ensures Used(h, cs[k]) == -1 && Born(h, cs[k]) == Allocated(before) + k {
      PlaceIs(r, cs, k);
    }
    forall i, j | 0 <= i < j < |r'| ensures Ahead(h, r'[i], r'[j]) {
      if j < |r| {
        assert Ahead(before, r[i], r[j]);
      } else if i < |r| {
        assert r[i] in r && r'[j] == cs[j - |r|];
        UsedBound(before, r[i]);
      } else {
        assert r'[i] == cs[i - |r|] && r'[j] == cs[j - |r|];
      }
    }
  }

  lemma Fresh(r: seq<Chunk>, cs: seq<Chunk>, c: Chunk)
    requires Distinct(r + cs) && c in r
    ensures c !in cs
  {
    var i :| 0 <= i < |r| && r[i] == c;
    forall j | 0 <= j < |cs| ensures cs[j] != c {
      assert (r + cs)[i] != (r + cs)[|r| + j];
    }
  }

  lemma PlaceIs(r: seq<Chunk>, cs: seq<Chunk>, k: nat)
    requires Distinct(r + cs) && k < |cs|
    ensures Place(cs, cs[k]) == k
  {
    var p := Place(cs, cs[k]);
    assert (r + cs)[|r| + p] == cs[p] && (r + cs)[|r| + k] == cs[k];
  }

  lemma FreeOrder(h: seq<Event>, r: seq<Chunk>)
    requires h != [] && h[|h| - 1].Free? && IsRecency(h[..|h| - 1], r)
    ensures IsRecency(h, DelAll(r, h[|h| - 1].chunks))
  {
    var before, cs := h[..|h| - 1], h[|h| - 1].chunks;
    var r' := DelAll(r, cs);
    DelAllDistinct(r, cs);
    DelAllKeeps(r, cs);
    forall i, j | 0 <= i < j < |r'| ensures Ahead(h, r'[i], r'[j]) {
      var i', j' := DelAllPair(r, cs, i, j);
      assert Ahead(before, r[i'], r[j']) && r'[i] in r' && r'[j] in r';
    }
  }

  lemma {:induction false} DelAllKeeps(s: seq<Chunk>, xs: seq<Chunk>)
    ensures forall y :: y in s && y !in xs ==> y in DelAll(s, xs)
  {
    if xs != [] {
      DelAllKeeps(s, xs[..|xs| - 1]);
      DelHas(DelAll(s, xs[..|xs| - 1]), xs[|xs| - 1]);
    }
  }

  /** The sampled chunk is ahead of all others, whose order stays. */
  lemma SampleAhead(h: seq<Event>, r: seq<Chunk>, i: nat, j: nat)
    requires h != [] && h[|h| - 1].Sample? && Distinct(r) && InOrder(h[..|h| - 1], r) && h[|h| - 1].chunk in r
    requires i < j < |r| && |Del(r, h[|h| - 1].chunk)| == |r| - 1
    ensures var rest := Del(r, h[|h| - 1].chunk);
      Ahead(h, if i == 0 then h[|h| - 1].chunk else rest[i - 1], rest[j - 1])
  {
    var before, x := h[..|h| - 1], h[|h| - 1].chunk;
    var rest := Del(r, x);
    DelDistinct(r, x);
    assert rest[j - 1] in rest;
    if i == 0 {
      UsedBound(before, rest[j - 1]);
    } else {
      assert rest[i - 1] in rest;
      var i', j' := DelPair(r, x, i - 1, j - 1);
      assert Ahead(before, r[i'], r[j']);
    }
  }

  lemma SampleOrder(h: seq<Event>, r: seq<Chunk>)
    requires h != [] && h[|h| - 1].Sample? && IsRecency(h[..|h| - 1], r) && h[|h| - 1].chunk in r
    ensures IsRecency(h, [h[|h| - 1].chunk] + Del(r, h[|h| - 1].chunk))
  {
    var x := h[|h| - 1].chunk;
    var rest := Del(r, x);
    DelDistinct(r, x);
    DelHas(r, x);
    DelLength(r, x);
    var r' := [x] + rest;
    forall i, j | 0 <= i < j < |r'| ensures Ahead(h, r'[i], r'[j]) {
      SampleAhead(h, r, i, j);
    }
  }

  lemma DelLength(s: seq<Chunk>, x: Chunk)
    requires Distinct(s) && x in s
    ensures |Del(s, x)| == |s| - 1
  {
    var k :| 0 <= k < |s| && s[k] == x;
    DelAt(s, k);
  }

  lemma MissOrder(h: seq<Event>, r: seq<Chunk>)
    requires h != [] && h[|h| - 1].Sample? && IsRecency(h[..|h| - 1], r) && h[|h| - 1].chunk !in r
    ensures IsRecency(h, r)
  {
    forall i, j | 0 <= i < j < |r| ensures Ahead(h, r[i], r[j]) {
      assert Ahead(h[..|h| - 1], r[i], r[j]) && r[i] in r && r[j] in r;
    }
  }

  /** After every history the list has the chunks that were allocated and not freed since, in the order of their last
      use, and behind them those never used, in the order of their allocation. */
  lemma {:induction false} RecencyOrder(h: seq<Event>)
    requires Sound(h)
    ensures IsRecency(h, Recency(h))
  {
    if h != [] {
      var before, e := h[..|h| - 1], h[|h| - 1];
      RecencyOrder(before);
      match e
      case Alloc(_) => AllocOrder(h, Recency(before));
      case Free(_) => FreeOrder(h, Recency(before));
      case Sample(c) =>
        if c in Recency(before) {
          SampleOrder(h, Recency(before));
        } else {
          MissOrder(h, Recency(before));
        }
    }
  }

  /** A chunk in fast memory was used later than every chunk in slow memory, or neither has been used and it was
      allocated earlier. */
  lemma FastUsedLater(t: Tiers, i: nat, j: nat)
    requires t.Valid() && i < |t.fast| && j < |t.slow|
    ensures var c, d := t.fast[i].chunk, t.slow[j].chunk;
      Used(t.history, d) < Used(t.history, c)
      || (Used(t.history, c) == -1 == Used(t.history, d) && Born(t.history, c) < Born(t.history, d))
  {
    RecencyOrder(t.history);
    var r, all := Recency(t.history), t.fast + t.slow;
    assert all[i] == t.fast[i] && all[|t.fast| + j] == t.slow[j];
    assert Ahead(t.history, r[i], r[|t.fast| + j]);
  }
}
