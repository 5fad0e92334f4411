/**
 * The LRU tiering plugin (plugins/lru.c). Two circular doubly linked lists, mru for the chunks in
 * fast memory and lru for those in slow memory, together implement one recency list whose first
 * chunks are the fast ones.
 */
module LruTier {

  type Chunk = nat

  datatype MemLoc = FAST | SLOW

  class Node {
    const chunk: Chunk
    var loc: MemLoc
    var next: Node?
    var prev: Node?

    constructor (c: Chunk)
      ensures chunk == c
    {
      chunk := c;
    }
  }

  // ----- circular lists -----

  ghost predicate Distinct<T>(s: seq<T>) {
    forall i, j :: 0 <= i < j < |s| ==> s[i] != s[j]
  }

  /** q is the head of a circular doubly linked list whose nodes are s, in order. */
  ghost predicate Ring(q: Node?, s: seq<Node>)
    reads s
  {
    && Distinct(s)
    && (if s == [] then q == null else q == s[0])
    && (forall i {:trigger s[i].next} :: 0 <= i < |s| ==> s[i].next == After(s, i))
    && (forall i {:trigger s[i].prev} :: 0 <= i < |s| ==> s[i].prev == Before(s, i))
  }

  ghost function After(s: seq<Node>, i: nat): Node
    requires i < |s|
  {
    if i == |s| - 1 then s[0] else s[i + 1]
  }

  ghost function Before(s: seq<Node>, i: nat): Node
    requires i < |s|
  {
    if i == 0 then s[|s| - 1] else s[i - 1]
  }

  ghost function Without<T>(s: seq<T>, k: nat): seq<T>
    requires k < |s|
  {
    s[..k] + s[k + 1..]
  }

  ghost function Around(s: seq<Node>, k: nat): (nat, nat)
    requires k < |s|
  {
    (if k == 0 then |s| - 1 else k - 1, if k == |s| - 1 then 0 else k + 1)
  }

  /** Without node k, its neighbours follow each other and all else stays. */
  lemma WithoutAround(s: seq<Node>, k: nat, i: nat)
    requires k < |s| && i < |s| - 1
    ensures var j := if i < k then i else i + 1;
      && Without(s, k)[i] == s[j]
      && After(Without(s, k), i) == (if j == Around(s, k).0 then After(s, k) else After(s, j))
      && Before(Without(s, k), i) == (if j == Around(s, k).1 then Before(s, k) else Before(s, j))
  {
    WithoutAt(s, k, i);
    WithoutAt(s, k, if i == 0 then |s| - 2 else i - 1);
    WithoutAt(s, k, if i == |s| - 2 then 0 else i + 1);
  }

  lemma WithoutAt<T>(s: seq<T>, k: nat, i: nat)
    requires k < |s| && i < |s| - 1
    ensures |Without(s, k)| == |s| - 1 && Without(s, k)[i] == s[if i < k then i else i + 1]
  {
  }

  /** The neighbours of a node that is not alone are linked to each other. */
  method Unlink(node: Node, ghost q: Node?, ghost s: seq<Node>, ghost k: nat)
    requires Ring(q, s) && k < |s| && s[k] == node && 1 < |s|
    modifies s`next, s`prev
    ensures Ring(Without(s, k)[0], Without(s, k))
  {
    assert node.prev == s[Around(s, k).0] && node.next == s[Around(s, k).1];
    node.prev.next := node.next;
    node.next.prev := node.prev;
    DistinctWithout(s, k);
    forall i | 0 <= i < |s| - 1
      ensures Without(s, k)[i].next == After(Without(s, k), i) && Without(s, k)[i].prev == Before(Without(s, k), i)
    {
      WithoutAround(s, k, i);
    }
  }

  method Dq(q: Node?, node: Node, ghost s: seq<Node>, ghost k: nat) returns (q': Node?)
    requires Ring(q, s) && k < |s| && s[k] == node
    modifies s`next, s`prev
    ensures Ring(q', Without(s, k))
  {
    if q == node {
      assert k == 0;
      if node.next == node {
        q' := null;
      } else {
        q' := node.next;
        Unlink(node, q, s, k);
      }
    } else {
      q' := q;
      Unlink(node, q, s, k);
    }
  }

  method Push(q: Node?, node: Node, ghost s: seq<Node>) returns (q': Node)
    requires Ring(q, s) && node !in s
    modifies s`next, s`prev, node`next, node`prev
    ensures Ring(q', [node] + s)
  {
    if q == null {
      q' := node;
      node.prev := node;
      node.next := node;
    } else {
      node.next := q;
      node.prev := q.prev;
      node.prev.next := node;
      q.prev := node;
      q' := node;
    }
  }

  method Enq(q: Node?, node: Node, ghost s: seq<Node>) returns (q': Node)
    requires Ring(q, s) && node !in s
    modifies s`next, s`prev, node`next, node`prev
    ensures Ring(q', s + [node])
  {
    if q == null {
      q' := node;
      node.prev := node;
      node.next := node;
    } else {
      q' := q;
      node.next := q;
      node.prev := q.prev;
      node.prev.next := node;
      q.prev := node;
    }
  }

  // ----- the recency list of a history -----

  datatype Event = Alloc(chunks: seq<Chunk>) | Free(chunks: seq<Chunk>) | Sample(chunk: Chunk)

  /** The list without the first occurrence of x. */
  ghost function Del<T>(s: seq<T>, x: T): seq<T> {
    if s == [] then [] else if s[0] == x then s[1..] else [s[0]] + Del(s[1..], x)
  }

  ghost function DelAll<T>(s: seq<T>, xs: seq<T>): seq<T> {
    if xs == [] then s else Del(DelAll(s, xs[..|xs| - 1]), xs[|xs| - 1])
  }

  ghost function Touch<T>(s: seq<T>, x: T): seq<T> {
    if x in s then [x] + Del(s, x) else s
  }

  /** New chunks go to the end, a sampled chunk moves to the front, a freed chunk disappears. */
  ghost function NextRecency(r: seq<Chunk>, e: Event): seq<Chunk> {
    match e
    case Alloc(cs) => r + cs
    case Free(cs) => DelAll(r, cs)
    case Sample(c) => Touch(r, c)
  }

  ghost function Recency(h: seq<Event>): seq<Chunk> {
    if h == [] then [] else NextRecency(Recency(h[..|h| - 1]), h[|h| - 1])
  }

  /** Chunks are allocated only when they are not tracked already. */
  ghost predicate Sound(h: seq<Event>) {
    h == [] ||
    (var before, e := h[..|h| - 1], h[|h| - 1];
     Sound(before) && (e.Alloc? ==> Distinct(Recency(before) + e.chunks)))
  }

  lemma {:induction false} DelAt<T>(s: seq<T>, k: nat)
    requires Distinct(s) && k < |s|
    ensures Del(s, s[k]) == Without(s, k)
  {
    if k != 0 {
      assert s[1..][k - 1] == s[k];
      DelAt(s[1..], k - 1);
      assert [s[0]] + Without(s[1..], k - 1) == Without(s, k);
    }
  }

  lemma {:induction false} DelHas<T>(s: seq<T>, x: T)
    ensures forall y :: y in Del(s, x) ==> y in s
    ensures forall y :: y in s && y != x ==> y in Del(s, x)
  {
    if s != [] && s[0] != x {
      DelHas(s[1..], x);
    }
  }

  // ----- the two tiers -----

  /** All nodes of the two lists are among those that were there. */
  ghost predicate Parts(fast: seq<Node>, slow: seq<Node>, wasFast: seq<Node>, wasSlow: seq<Node>) {
    && (forall i :: 0 <= i < |fast| ==> fast[i] in wasFast || fast[i] in wasSlow)
    && (forall i :: 0 <= i < |slow| ==> slow[i] in wasFast || slow[i] in wasSlow)
  }

  lemma PartsDel(fast: seq<Node>, slow: seq<Node>, fast': seq<Node>, slow': seq<Node>, x: Node)
    requires fast' + slow' == Del(fast + slow, x)
    ensures Parts(fast', slow', fast, slow)
  {
    DelHas(fast + slow, x);
    var s' := fast' + slow';
    forall i | 0 <= i < |fast'| ensures fast'[i] in fast || fast'[i] in slow {
      assert s'[i] == fast'[i] && s'[i] in s' && s'[i] in fast + slow;
    }
    forall i | 0 <= i < |slow'| ensures slow'[i] in fast || slow'[i] in slow {
      assert s'[|fast'| + i] == slow'[i] && s'[|fast'| + i] in s' && slow'[i] in fast + slow;
    }
  }

  /** A node of two lists, removed from the one that holds it. */
  lemma WithoutOf<T>(a: seq<T>, b: seq<T>, k: nat)
    requires k < |a + b|
    ensures k < |a| ==> a[k] == (a + b)[k] && Without(a + b, k) == Without(a, k) + b
    ensures |a| <= k ==> b[k - |a|] == (a + b)[k] && Without(a + b, k) == a + Without(b, k - |a|)
  {
  }

  /** The boundary between two lists may move. */
  lemma Boundary<T>(a: seq<T>, b: seq<T>, n: nat)
    requires n <= |b|
    ensures a + b == (a + b[..n]) + b[n..]
  {
  }

  lemma LastMoves<T>(a: seq<T>, b: seq<T>)
    ensures a != [] ==> a + b == a[..|a| - 1] + ([a[|a| - 1]] + b)
  {
  }

  lemma WithoutParts(fast: seq<Node>, slow: seq<Node>, wasFast: seq<Node>, wasSlow: seq<Node>, k: nat)
    requires k < |wasFast + wasSlow| && fast + slow == Without(wasFast + wasSlow, k)
    requires Distinct(wasFast) && Distinct(wasSlow) && Apart(wasFast, wasSlow)
    ensures Parts(fast, slow, wasFast, wasSlow)
    ensures var x := (wasFast + wasSlow)[k]; x !in fast && x !in slow && (x in wasFast || x in wasSlow)
  {
    var was := wasFast + wasSlow;
    assert Distinct(was);
    forall i | 0 <= i < |fast| ensures fast[i] != was[k] && (fast[i] in wasFast || fast[i] in wasSlow) {
      assert fast[i] == (fast + slow)[i] == was[if i < k then i else i + 1];
    }
    forall i | 0 <= i < |slow| ensures slow[i] != was[k] && (slow[i] in wasFast || slow[i] in wasSlow) {
      var j := |fast| + i;
      assert slow[i] == (fast + slow)[j] == was[if j < k then j else j + 1];
    }
  }

  ghost function Chunks(s: seq<Node>): (r: seq<Chunk>)
    ensures |r| == |s| && forall i :: 0 <= i < |s| ==> r[i] == s[i].chunk
  {
    seq(|s|, i requires 0 <= i < |s| => s[i].chunk)
  }

  ghost predicate Apart(a: seq<Node>, b: seq<Node>) {
    forall i, j :: 0 <= i < |a| && 0 <= j < |b| ==> a[i] != b[j]
  }

  class Tiers {
    const fastChunks: nat
    var mru: Node?
    var lru: Node?
    var freeFastChunks: int
    ghost var fast: seq<Node>
    ghost var slow: seq<Node>
    ghost var history: seq<Event>

    constructor (capacity: nat)
      ensures Valid() && fastChunks == capacity && history == []
    {
      fastChunks, freeFastChunks := capacity, capacity;
      mru, lru := null, null;
      fast, slow, history := [], [], [];
      new;
      assert fast + slow == [] && Chunks(fast + slow) == [];
    }

    /** Both lists are well formed and apart, and the flags tell which list a node is on. */
    ghost predicate Linked()
      reads this, fast, slow
    {
      && Ring(mru, fast) && Ring(lru, slow) && Apart(fast, slow)
      && (forall n :: n in fast ==> n.loc == FAST)
      && (forall n :: n in slow ==> n.loc == SLOW)
    }

    /** Besides, a chunk is in slow memory only when fast memory is full. */
    ghost predicate Lists()
      reads this, fast, slow
    {
      && Linked()
      && 0 <= freeFastChunks == fastChunks - |fast|
      && (0 < freeFastChunks ==> slow == [])
    }

    ghost predicate Valid()
      reads this, fast, slow
    {
      && Lists()
      && Chunks(fast + slow) == Recency(history) && Distinct(Recency(history)) && Sound(history)
    }

    method EnqFast(node: Node)
      requires Linked() && node !in fast && node !in slow
      modifies this`mru, this`fast, fast`next, fast`prev, node
      ensures Linked() && fast == old(fast) + [node]
    {
      node.loc := FAST;
      mru := Enq(mru, node, fast);
      fast := fast + [node];
    }

    method EnqSlow(node: Node)
      requires Linked() && node !in fast && node !in slow
      modifies this`lru, this`slow, slow`next, slow`prev, node
      ensures Linked() && slow == old(slow) + [node]
    {
      node.loc := SLOW;
      lru := Enq(lru, node, slow);
      slow := slow + [node];
    }

    method PushFast(node: Node)
      requires Linked() && node !in fast && node !in slow
      modifies this`mru, this`fast, fast`next, fast`prev, node
      ensures Linked() && fast == [node] + old(fast)
    {
      node.loc := FAST;
      mru := Push(mru, node, fast);
      fast := [node] + fast;
    }

    method PushSlow(node: Node)
      requires Linked() && node !in fast && node !in slow
      modifies this`lru, this`slow, slow`next, slow`prev, node
      ensures Linked() && slow == [node] + old(slow)
    {
      node.loc := SLOW;
      lru := Push(lru, node, slow);
      slow := [node] + slow;
    }

    method DqSlow(node: Node, ghost k: nat)
      requires Linked() && k < |slow| && slow[k] == node
      modifies this`lru, this`slow, slow`next, slow`prev
      ensures Linked() && slow == Without(old(slow), k)
    {
      lru := Dq(lru, node, slow, k);
      slow := Without(slow, k);
    }

    method DqFast(node: Node, ghost k: nat)
      requires Linked() && k < |fast| && fast[k] == node
      modifies this`mru, this`fast, fast`next, fast`prev
      ensures Linked() && fast == Without(old(fast), k)
    {
      mru := Dq(mru, node, fast, k);
      fast := Without(fast, k);
    }

    /** The head of the slow list becomes the last fast chunk. */
    method Promote()
      requires Linked() && lru != null
      modifies this`mru, this`lru, this`fast, this`slow, fast, slow
      ensures Linked() && old(slow) != []
      ensures fast == old(fast) + [old(slow)[0]] && slow == old(slow)[1..]
    {
      var promoted := lru;
      DqSlow(promoted, 0);
      EnqFast(promoted);
    }

    /** One iteration of the free path: the chunk disappears from the recency list, and if it was
        fast, the first slow chunk takes its place. */
    method FreeChunk(node: Node, ghost k: nat)
      requires Lists() && k < |fast + slow| && (fast + slow)[k] == node
      modifies this`mru, this`lru, this`freeFastChunks, this`fast, this`slow, fast, slow
      ensures Lists() && fast + slow == Without(old(fast + slow), k)
    {
      WithoutOf(fast, slow, k);
      if node.loc == SLOW {
        DqSlow(node, k - |fast|);
      } else {
        DqFast(node, k);
        if lru == null {
          freeFastChunks := freeFastChunks + 1;
        } else {
          Boundary(fast, slow, 1);
          Promote();
        }
      }
    }

    /** A sampled chunk becomes the most recently used one; if it was slow, the last fast chunk is
        the victim that changes places with it. */
    method SampleNode(node: Node, ghost k: nat)
      requires Lists() && 0 < fastChunks && k < |fast + slow| && (fast + slow)[k] == node
      modifies this`mru, this`lru, this`fast, this`slow, fast, slow
      ensures Lists() && fast + slow == [node] + Without(old(fast + slow), k)
    {
      Withdraw(node, k);
      PushFast(node);
      assert fast + slow == [node] + Without(old(fast + slow), k);
    }

    /** The chunk leaves the lists, and there is room for one more chunk in fast memory. */
    method Withdraw(node: Node, ghost k: nat)
      requires Lists() && 0 < fastChunks && k < |fast + slow| && (fast + slow)[k] == node
      modifies this`mru, this`lru, this`fast, this`slow, fast, slow
      ensures Linked() && fast + slow == Without(old(fast + slow), k) && |fast| == |old(fast)| - 1
      ensures node !in fast && node !in slow && (node in old(fast) || node in old(slow))
      ensures Parts(fast, slow, old(fast), old(slow))
    {
      MoveOut(node, k);
      WithoutParts(fast, slow, old(fast), old(slow), k);
    }

    method MoveOut(node: Node, ghost k: nat)
      requires Lists() && 0 < fastChunks && k < |fast + slow| && (fast + slow)[k] == node
      modifies this`mru, this`lru, this`fast, this`slow, fast, slow
      ensures Linked() && fast + slow == Without(old(fast + slow), k) && |fast| == |old(fast)| - 1
    {
      WithoutOf(fast, slow, k);
      if node.loc == FAST {
        DqFast(node, k);
      } else {
        DqSlow(node, k - |fast|);
        LastMoves(fast, slow);
        DemoteLast();
      }
    }

    /** The last fast chunk becomes the first slow one. */
    method DemoteLast()
      requires Linked() && mru != null
      modifies this`mru, this`lru, this`fast, this`slow, fast, slow
      ensures Linked() && old(fast) != []
      ensures fast == old(fast)[..|old(fast)| - 1]
      ensures slow == [old(fast)[|old(fast)| - 1]] + old(slow)
    {
      var victim := mru.prev;
      DqFast(victim, |fast| - 1);
      PushSlow(victim);
    }

    /** The first loop of the allocation path: fill fast memory. */
    method AllocFast(nodes: seq<Node>) returns (i: nat)
      requires Lists() && Distinct(nodes) && Apart(fast, nodes) && Apart(slow, nodes)
      modifies this`mru, this`fast, this`freeFastChunks, fast, nodes
      ensures Lists() && i <= |nodes| && (i < |nodes| ==> freeFastChunks == 0)
      ensures fast == old(fast) + nodes[..i] && (0 < i ==> slow == [])
    {
      i := 0;
      while freeFastChunks != 0 && i < |nodes|
        invariant 0 <= i <= |nodes| && Lists() && slow == old(slow)
        invariant fast == old(fast) + nodes[..i] && (0 < i ==> slow == [])
      {
        EnqFast(nodes[i]);
        freeFastChunks := freeFastChunks - 1;
        i := i + 1;
      }
    }

    /** The second loop: the rest goes to slow memory. */
    method AllocSlow(nodes: seq<Node>)
      requires Lists() && Distinct(nodes) && Apart(fast, nodes) && Apart(slow, nodes)
      requires nodes != [] ==> freeFastChunks == 0
      modifies this`lru, this`slow, slow, nodes
      ensures Lists() && slow == old(slow) + nodes
    {
      var i := 0;
      while i < |nodes|
        invariant 0 <= i <= |nodes| && Lists() && slow == old(slow) + nodes[..i]
      {
        EnqSlow(nodes[i]);
        i := i + 1;
      }
    }

    method AllocNodes(nodes: seq<Node>)
      requires Lists() && Distinct(nodes) && Apart(fast, nodes) && Apart(slow, nodes)
      modifies this`mru, this`lru, this`fast, this`slow, this`freeFastChunks, fast, slow, nodes
      ensures Lists() && fast + slow == old(fast + slow) + nodes
    {
      var i := AllocFast(nodes);
      AllocSlow(nodes[i..]);
    }

    method FreeNode(node: Node)
      requires Lists() && node in fast + slow
      modifies this`mru, this`lru, this`freeFastChunks, this`fast, this`slow, fast, slow
      ensures Lists() && fast + slow == Del(old(fast + slow), node) && Parts(fast, slow, old(fast), old(slow))
    {
      ghost var now := fast + slow;
      ghost var k :| 0 <= k < |now| && now[k] == node;
      FreeChunk(node, k);
      DelAt(now, k);
      PartsDel(old(fast), old(slow), fast, slow, node);
    }

    method FreeNodes(nodes: seq<Node>)
      requires Lists() && Distinct(nodes)
      requires forall j :: 0 <= j < |nodes| ==> nodes[j] in fast + slow
      modifies this`mru, this`lru, this`fast, this`slow, this`freeFastChunks, fast, slow
      ensures Lists() && fast + slow == DelAll(old(fast + slow), nodes)
    {
      ghost var r := fast + slow;
      for i := 0 to |nodes|
        invariant Lists() && Parts(fast, slow, old(fast), old(slow))
        invariant forall j :: i <= j < |nodes| ==> nodes[j] in fast + slow
        invariant fast + slow == DelAll(r, nodes[..i])
      {
        ghost var now := fast + slow;
        FreeNode(nodes[i]);
        DelHas(now, nodes[i]);
        assert nodes[..i + 1][..i] == nodes[..i];
      }
      assert nodes[..|nodes|] == nodes;
    }

    // ----- the callbacks -----

    /** allocCallback for an allocation of the region whose nodes are given. */
    method AllocRegion(nodes: seq<Node>)
      requires Valid() && Distinct(Recency(history) + Chunks(nodes))
      modifies this, fast, slow, nodes
      ensures Valid() && history == old(history) + [Alloc(Chunks(nodes))]
      ensures fast + slow == old(fast + slow) + nodes
    {
      NewNodes(fast + slow, nodes);
      ApartParts(fast, slow, nodes);
      AllocNodes(nodes);
      RecencyStep(history, Alloc(Chunks(nodes)));
      ChunksConcat(old(fast + slow), nodes);
      history := history + [Alloc(Chunks(nodes))];
    }

    /** allocCallback for the release of a live region. */
    method FreeRegion(nodes: seq<Node>)
      requires Valid() && Distinct(nodes)
      requires forall j :: 0 <= j < |nodes| ==> nodes[j] in fast + slow
      modifies this, fast, slow
      ensures Valid() && history == old(history) + [Free(Chunks(nodes))]
      ensures fast + slow == DelAll(old(fast + slow), nodes)
    {
      FreeNodes(nodes);
      RecencyStep(history, Free(Chunks(nodes)));
      ChunksDelAll(old(fast + slow), nodes);
      history := history + [Free(Chunks(nodes))];
    }

    /** The sample of a tracked chunk, at place k of the recency list. */
    method Refresh(node: Node, ghost k: nat)
      requires Valid() && 0 < fastChunks && k < |fast + slow| && (fast + slow)[k] == node
      modifies this, fast, slow
      ensures Valid() && history == old(history) + [Sample(node.chunk)]
      ensures fast + slow == [node] + Without(old(fast + slow), k)
    {
      ghost var now := fast + slow;
      SampleNode(node, k);
      RecencyStep(history, Sample(node.chunk));
      ChunksTouch(now, k);
      history := history + [Sample(node.chunk)];
    }

    /** The first chunk of the list is fast, and the head of the fast list. */
    lemma FirstIsHead(node: Node)
      requires Lists() && 0 < fastChunks && fast + slow != [] && (fast + slow)[0] == node
      ensures mru == node && node.loc == FAST
    {
    }

    /** handleSample; node is null when the address is not tracked. */
    method HandleSample(node: Node?)
      requires Valid() && (node != null ==> 0 < fastChunks && node in fast + slow)
      modifies this, fast, slow
      ensures Valid() && history == if node == null then old(history) else old(history) + [Sample(node.chunk)]
      ensures node == null ==> fast == old(fast) && slow == old(slow)
      ensures node != null ==>
        && mru == node && node.loc == FAST
        && exists k :: 0 <= k < |old(fast + slow)| && old(fast + slow)[k] == node
                       && fast + slow == [node] + (old(fast + slow)[..k] + old(fast + slow)[k + 1..])
      ensures forall n :: n in fast + slow ==> n in old(fast + slow)
      ensures forall n :: n in old(fast + slow) ==> n in fast + slow
    {
      if node != null {
        ghost var now := fast + slow;
        ghost var k :| 0 <= k < |now| && now[k] == node;
        Refresh(node, k);
        WithoutKeeps(now, k);
        FirstIsHead(node);
      }
    }
  }

  // ----- lists of nodes and lists of chunks -----

  lemma RecencyStep(h: seq<Event>, e: Event)
    ensures Recency(h + [e]) == NextRecency(Recency(h), e)
    ensures Sound(h) && (e.Alloc? ==> Distinct(Recency(h) + e.chunks)) ==> Sound(h + [e])
  {
    assert (h + [e])[..|h|] == h;
  }

  lemma NewNodes(live: seq<Node>, nodes: seq<Node>)
    requires Distinct(Chunks(live) + Chunks(nodes))
    ensures Distinct(nodes) && Apart(live, nodes)
  {
    var c := Chunks(live) + Chunks(nodes);
    forall i, j | 0 <= i < |live| && 0 <= j < |nodes| ensures live[i] != nodes[j] {
      assert c[i] != c[|live| + j];
    }
    forall i, j | 0 <= i < j < |nodes| ensures nodes[i] != nodes[j] {
      assert c[|live| + i] != c[|live| + j];
    }
  }

  lemma ApartParts(a: seq<Node>, b: seq<Node>, nodes: seq<Node>)
    requires Apart(a + b, nodes)
    ensures Apart(a, nodes) && Apart(b, nodes)
  {
    forall i, j | 0 <= i < |a| && 0 <= j < |nodes| ensures a[i] != nodes[j] { assert (a + b)[i] != nodes[j]; }
    forall i, j | 0 <= i < |b| && 0 <= j < |nodes| ensures b[i] != nodes[j] { assert (a + b)[|a| + i] != nodes[j]; }
  }

  lemma WithoutKeeps<T>(s: seq<T>, k: nat)
    requires k < |s|
    ensures forall x :: x in s && x != s[k] ==> x in Without(s, k)
    ensures forall x :: x in Without(s, k) ==> x in s
  {
    forall x | x in s && x != s[k] ensures x in Without(s, k) {
      var i :| 0 <= i < |s| && s[i] == x;
      assert Without(s, k)[if i < k then i else i - 1] == x;
    }
  }

  lemma ChunksConcat(a: seq<Node>, b: seq<Node>)
    ensures Chunks(a + b) == Chunks(a) + Chunks(b)
  {
  }

  lemma ChunksWithout(s: seq<Node>, k: nat)
    requires k < |s|
    ensures Chunks(Without(s, k)) == Without(Chunks(s), k)
  {
    ChunksConcat(s[..k], s[k + 1..]);
    assert Chunks(s[..k]) == Chunks(s)[..k];
    assert Chunks(s[k + 1..]) == Chunks(s)[k + 1..];
  }

  lemma DistinctWithout<T>(s: seq<T>, k: nat)
    requires Distinct(s) && k < |s|
    ensures Distinct(Without(s, k)) && s[k] !in Without(s, k)
  {
  }

  lemma DistinctNodes(s: seq<Node>)
    requires Distinct(Chunks(s))
    ensures Distinct(s)
  {
    forall i, j | 0 <= i < j < |s| ensures s[i] != s[j] { assert Chunks(s)[i] != Chunks(s)[j]; }
  }

  lemma ChunksDel(s: seq<Node>, k: nat)
    requires Distinct(Chunks(s)) && k < |s|
    ensures Chunks(Without(s, k)) == Del(Chunks(s), s[k].chunk)
    ensures Distinct(Chunks(Without(s, k)))
  {
    DelAt(Chunks(s), k);
    ChunksWithout(s, k);
    DistinctWithout(Chunks(s), k);
  }

  lemma ChunksTouch(s: seq<Node>, k: nat)
    requires Distinct(Chunks(s)) && k < |s|
    ensures Chunks([s[k]] + Without(s, k)) == Touch(Chunks(s), s[k].chunk)
    ensures Distinct(Touch(Chunks(s), s[k].chunk))
  {
    var c := Chunks(s);
    DelAt(c, k);
    ChunksWithout(s, k);
    DistinctWithout(c, k);
    ChunksConcat([s[k]], Without(s, k));
    assert Chunks([s[k]]) == [c[k]];
    assert c[k] in c;
  }

  lemma {:induction false} ChunksDelAll(s: seq<Node>, nodes: seq<Node>)
    requires Distinct(Chunks(s)) && Distinct(nodes)
    requires forall j :: 0 <= j < |nodes| ==> nodes[j] in s
    ensures Chunks(DelAll(s, nodes)) == DelAll(Chunks(s), Chunks(nodes))
    ensures Distinct(Chunks(DelAll(s, nodes)))
    ensures forall n :: n in s && n !in nodes ==> n in DelAll(s, nodes)
  {
    if nodes != [] {
      var last := |nodes| - 1;
      var before := nodes[..last];
      ChunksDelAll(s, before);
      var r := DelAll(s, before);
      assert nodes[last] !in before;
      var k :| 0 <= k < |r| && r[k] == nodes[last];
      ChunksDel(r, k);
      DistinctNodes(r);
      DelAt(r, k);
      WithoutKeeps(r, k);
      assert Chunks(nodes)[..last] == Chunks(before);
    }
  }

  lemma {:induction false} DelAllGone(s: seq<Node>, nodes: seq<Node>)
    requires Distinct(Chunks(s)) && Distinct(nodes)
    requires forall j :: 0 <= j < |nodes| ==> nodes[j] in s
    ensures forall n :: n in DelAll(s, nodes) ==> n in s && n !in nodes
  {
    if nodes != [] {
      var last := |nodes| - 1;
      var before := nodes[..last];
      DelAllGone(s, before);
      ChunksDelAll(s, before);
      var r := DelAll(s, before);
      assert nodes[last] !in before;
      var k :| 0 <= k < |r| && r[k] == nodes[last];
      DistinctNodes(r);
      DelAt(r, k);
      DistinctWithout(r, k);
      WithoutKeeps(r, k);
    }
  }

  // ----- what the recency list says about every history -----

  /** The chunks in fast memory after a history, with room for fastChunks chunks. */
  ghost function FastSet(h: seq<Event>, fastChunks: nat): set<Chunk> {
    var r := Recency(h);
    set i | 0 <= i < |r| && i < fastChunks :: r[i]
  }

  /** The fast list holds exactly the first chunks of the recency list, as many as fit. */
  lemma FastIsPrefix(t: Tiers)
    requires t.Valid()
    ensures |t.fast| == if |Recency(t.history)| < t.fastChunks then |Recency(t.history)| else t.fastChunks
    ensures (set i | 0 <= i < |t.fast| :: t.fast[i].chunk) == FastSet(t.history, t.fastChunks)
  {
    var r := Recency(t.history);
    assert |r| == |t.fast + t.slow|;
    forall i | 0 <= i < |t.fast| ensures r[i] == t.fast[i].chunk {
      assert (t.fast + t.slow)[i] == t.fast[i];
    }
  }

  /** No anomaly: on the same history, more fast memory holds all that less fast memory holds. */
  lemma Inclusion(t: Tiers, u: Tiers)
    requires t.Valid() && u.Valid() && t.history == u.history && t.fastChunks <= u.fastChunks
    ensures (set i | 0 <= i < |t.fast| :: t.fast[i].chunk) <= (set i | 0 <= i < |u.fast| :: u.fast[i].chunk)
  {
    FastIsPrefix(t);
    FastIsPrefix(u);
  }

  /** The number of samples that found their chunk in fast memory. */
  ghost function Hits(h: seq<Event>, fastChunks: nat): nat {
    if h == [] then 0
    else
      var before, e := h[..|h| - 1], h[|h| - 1];
      Hits(before, fastChunks) + if e.Sample? && e.chunk in FastSet(before, fastChunks) then 1 else 0
  }

  lemma {:induction false} HitsMonotone(h: seq<Event>, small: nat, large: nat)
    requires small <= large
    ensures Hits(h, small) <= Hits(h, large)
  {
    if h != [] {
      HitsMonotone(h[..|h| - 1], small, large);
      assert FastSet(h[..|h| - 1], small) <= FastSet(h[..|h| - 1], large);
    }
  }
}
