/**
 * What a cache of unused extents keeps, and what each of its steps does to extents and pages, as facts
 * about the values of the extents (extent.c).
 */
module CacheValues {
  import opened Emap

  // ----- what a cache keeps, as a fact about values -----

  /** e is in the cache exactly when it is in the cache's state, and it is not half merged. */
  ghost predicate InPlace(v: Extents, s: set<Edata>, st: State, e: Edata)
    requires e in v
  {
    0 < v[e].base && v[e].state != Merging && (e in s <==> v[e].state == st)
  }

  ghost predicate Filed(v: Extents, s: set<Edata>, st: State) {
    && (st == Muzzy || st == Retained)
    && (forall e {:trigger e in s} :: e in s ==> e in v)
    && (forall e {:trigger InPlace(v, s, st, e)} :: e in v ==> InPlace(v, s, st, e))
  }

  /** b could be merged into a, which lies before it. */
  predicate Mergeable(a: Ext, b: Ext) {
    a.Past() == b.base && !b.head && a.committed == b.committed
  }

  /** No two cached extents could be merged. */
  ghost predicate Settled(v: Extents, s: set<Edata>) {
    forall a, b {:trigger Mergeable(v[a], v[b])} ::
      a in v && b in v && a in s && b in s ==> !Mergeable(v[a], v[b])
  }

  ghost predicate Kept(v: Extents, s: set<Edata>, st: State) {
    Filed(v, s, st) && Settled(v, s)
  }

  /** No cached extent could be merged with a value x ahead of it, or behind it. */
  ghost predicate AloneAhead(v: Extents, s: set<Edata>, x: Ext) {
    forall f {:trigger Mergeable(x, v[f])} :: f in v && f in s ==> !Mergeable(x, v[f])
  }

  ghost predicate AloneBehind(v: Extents, s: set<Edata>, x: Ext) {
    forall f {:trigger Mergeable(v[f], x)} :: f in v && f in s ==> !Mergeable(v[f], x)
  }

  ghost predicate Alone(v: Extents, s: set<Edata>, x: Ext) {
    AloneAhead(v, s, x) && AloneBehind(v, s, x)
  }

  /** Page p belongs to a cached extent. */
  ghost predicate Cached(v: Extents, s: set<Edata>, p: int) {
    exists e :: e in s && e in v && v[e].Has(p)
  }

  /** From v to v', nothing happened to extents outside d that were not in state st, and every extent
      with a new value is in that state or active. */
  ghost predicate Frame(v: Extents, v': Extents, st: State, d: set<Edata>) {
    && (forall f {:trigger f in v'} :: f in v && f !in d && v[f].state != st ==> f in v' && v'[f] == v[f])
    && (forall f {:trigger f in v'} :: f in v' ==>
          (f in v && v'[f] == v[f]) || v'[f].state == st || v'[f].state == Active)
  }

  /** A step of one cache keeps any other cache over the same page map. */
  lemma OtherCacheKept(v: Extents, v': Extents, st: State, s': set<Edata>, d: set<Edata>, other: State, t: set<Edata>)
    requires Frame(v, v', st, d) && forall e :: e in d && e in v ==> v[e].state == Active || v[e].state == st
    requires Filed(v', s', st) && Kept(v, t, other) && other != st
    ensures Kept(v', t, other)
  {
    forall f | f in t ensures f in v && f in v' && v'[f] == v[f] {
      assert InPlace(v, t, other, f);
    }
    forall f | f in v' ensures InPlace(v', t, other, f) {
      assert InPlace(v', s', st, f);
      if f in v {
        assert InPlace(v, t, other, f);
      }
    }
    forall a, b | a in v' && b in v' && a in t && b in t ensures !Mergeable(v'[a], v'[b]) {
      assert !Mergeable(v[a], v[b]);
    }
  }

  // ----- steps on values -----

  lemma KeptState(v: Extents, s: set<Edata>, st: State, e: Edata)
    requires Kept(v, s, st) && e in v
    ensures InPlace(v, s, st, e)
  {
  }

  /** e goes into the cache. */
  lemma InKept(v: Extents, s: set<Edata>, st: State, e: Edata, x: Ext)
    requires Kept(v, s, st) && e in v && v[e].state == Active && x == v[e].(state := st)
    requires Alone(v, s, v[e]) && !Mergeable(x, x)
    ensures Kept(v[e := x], s + {e}, st)
  {
    var w := v[e := x];
    forall f | f in w ensures InPlace(w, s + {e}, st, f) {
      assert InPlace(v, s, st, f);
    }
    forall a, b | a in w && b in w && a in s + {e} && b in s + {e} ensures !Mergeable(w[a], w[b]) {
      if a != e && b != e {
        assert !Mergeable(v[a], v[b]);
      } else if a != e {
        assert !Mergeable(v[a], v[e]);
      } else if b != e {
        assert !Mergeable(v[e], v[b]);
      }
    }
  }

  /** e goes out of the cache. */
  lemma OutKept(v: Extents, s: set<Edata>, st: State, e: Edata, x: Ext)
    requires Kept(v, s, st) && e in s && e in v && x == v[e].(state := Active)
    ensures Kept(v[e := x], s - {e}, st) && Alone(v[e := x], s - {e}, x)
  {
    var w := v[e := x];
    forall f | f in w ensures InPlace(w, s - {e}, st, f) {
      assert InPlace(v, s, st, f);
    }
    forall a, b | a in w && b in w && a in s - {e} && b in s - {e} ensures !Mergeable(w[a], w[b]) {
      assert !Mergeable(v[a], v[b]);
    }
    forall f | f in w && f in s - {e} ensures !Mergeable(x, w[f]) && !Mergeable(w[f], x) {
      assert !Mergeable(v[e], v[f]) && !Mergeable(v[f], v[e]);
    }
  }

  /** An extent of the cache disappears into an active one, whose new value is x. */
  lemma AbsorbedKept(v: Extents, s: set<Edata>, st: State, gone: Edata, e: Edata, x: Ext)
    requires Kept(v, s, st) && e in v && gone in v && gone != e && x.state == Active && 0 < x.base
    ensures Kept((v - {gone})[e := x], s - {gone} - {e}, st)
  {
    var w, t := (v - {gone})[e := x], s - {gone} - {e};
    forall f | f in w ensures InPlace(w, t, st, f) {
      assert f in v ==> InPlace(v, s, st, f);
    }
    forall a, b | a in w && b in w && a in t && b in t ensures !Mergeable(w[a], w[b]) {
      assert !Mergeable(v[a], v[b]);
    }
  }

  /** Active extents come, go and change size; the cache does not notice. */
  lemma ActiveKept(v: Extents, v': Extents, s: set<Edata>, st: State)
    requires Kept(v, s, st)
    requires forall f :: f in s ==> f in v' && v'[f] == v[f]
    requires forall f :: f in v' && f !in s ==> (f in v && v'[f] == v[f]) || (v'[f].state == Active && 0 < v'[f].base)
    ensures Kept(v', s, st)
  {
    forall f | f in v' ensures InPlace(v', s, st, f) {
      assert f in v ==> InPlace(v, s, st, f);
    }
    forall a, b | a in v' && b in v' && a in s && b in s ensures !Mergeable(v'[a], v'[b]) {
      assert !Mergeable(v[a], v[b]);
    }
  }

  // ----- pages of values -----

  /** Changing flags moves no page. */
  lemma FlagPages(v: Extents, e: Edata, x: Ext, p: int)
    requires e in v && x.base == v[e].base && x.npages == v[e].npages
    ensures Covered(v[e := x], p) <==> Covered(v, p)
  {
    var w := v[e := x];
    if Covered(v, p) {
      var f: Edata :| f in v && v[f].Has(p);
      assert f in w && w[f].Has(p);
    }
    if Covered(w, p) {
      var f: Edata :| f in w && w[f].Has(p);
      assert f in v && v[f].Has(p);
    }
  }

  /** A merge moves no page. */
  lemma MergePages(v: Extents, a: Edata, b: Edata, p: int)
    requires a in v && b in v && a != b && v[a].Past() == v[b].base
    ensures Covered((v - {b})[a := Merged(v[a], v[b])], p) <==> Covered(v, p)
  {
    var w := (v - {b})[a := Merged(v[a], v[b])];
    if Covered(v, p) {
      var f: Edata :| f in v && v[f].Has(p);
      var g: Edata := if f == b then a else f;
      assert g in w && w[g].Has(p);
    }
    if Covered(w, p) {
      var f: Edata :| f in w && w[f].Has(p);
      var g: Edata := if f == a && !v[a].Has(p) then b else f;
      assert g in v && v[g].Has(p);
    }
  }

  /** A split moves no page. */
  lemma SplitPages(v: Extents, e: Edata, t: Edata, x: Ext, y: Ext, p: int)
    requires e in v && t !in v && x.base == v[e].base && y.base == x.Past() && y.Past() == v[e].Past()
    ensures Covered(v[e := x][t := y], p) <==> Covered(v, p)
  {
    var w := v[e := x][t := y];
    if Covered(v, p) {
      var f: Edata :| f in v && v[f].Has(p);
      var g: Edata := if f == e && !x.Has(p) then t else f;
      assert g in w && w[g].Has(p);
    }
    if Covered(w, p) {
      var f: Edata :| f in w && w[f].Has(p);
      var g: Edata := if f == t then e else f;
      assert g in v && v[g].Has(p);
    }
  }

  /** Dropping an extent drops exactly its pages. */
  lemma DropPages(v: Extents, e: Edata, p: int)
    requires Disjoint(v) && e in v
    ensures Covered(v - {e}, p) <==> Covered(v, p) && !v[e].Has(p)
  {
    if Covered(v - {e}, p) {
      var f: Edata :| f in v - {e} && v[f].Has(p);
      assert v[e].Apart(v[f]);
    }
    if Covered(v, p) && !v[e].Has(p) {
      var f: Edata :| f in v && v[f].Has(p);
      assert f in v - {e} && (v - {e})[f].Has(p);
    }
  }

  /** Cached extents that are the same before and after contribute the same pages. */
  lemma CachedSame(v: Extents, v': Extents, s: set<Edata>, p: int)
    requires forall f :: f in s ==> (f in v <==> f in v') && (f in v ==> v'[f] == v[f])
    ensures Cached(v', s, p) <==> Cached(v, s, p)
  {
    if Cached(v, s, p) {
      var f: Edata :| f in s && f in v && v[f].Has(p);
      assert f in v' && v'[f].Has(p);
    }
    if Cached(v', s, p) {
      var f: Edata :| f in s && f in v' && v'[f].Has(p);
      assert f in v && v[f].Has(p);
    }
  }

  lemma CachedAdd(v: Extents, s: set<Edata>, e: Edata, p: int)
    requires e in v
    ensures Cached(v, s + {e}, p) <==> Cached(v, s, p) || v[e].Has(p)
  {
    if Cached(v, s, p) {
      var f: Edata :| f in s && f in v && v[f].Has(p);
      assert f in s + {e};
    }
    if v[e].Has(p) {
      assert e in s + {e};
    }
  }

  /** A cached extent and another one have no page in common. */
  lemma CachedApart(v: Extents, s: set<Edata>, e: Edata, p: int)
    requires Disjoint(v) && e in v && e !in s
    ensures v[e].Has(p) ==> !Cached(v, s, p)
  {
    forall f | f in s && f in v ensures !(v[e].Has(p) && v[f].Has(p)) {
      assert v[e].Apart(v[f]);
    }
  }

  lemma FrameTrans(v: Extents, v': Extents, v'': Extents, st: State, d: set<Edata>, d': set<Edata>)
    requires Frame(v, v', st, d) && Frame(v', v'', st, d')
    requires forall f :: f in d' && f in v ==> f in d || v[f].state == st
    ensures Frame(v, v'', st, d)
  {
    forall f | f in v && f !in d && v[f].state != st ensures f in v'' && v''[f] == v[f] {
      assert f in v' && v'[f] == v[f];
    }
    forall f | f in v'' ensures (f in v && v''[f] == v[f]) || v''[f].state == st || v''[f].state == Active {
      if f in v' && v''[f] == v'[f] {
        assert f in v';
      }
    }
  }

  // ----- what a merged extent keeps of the extents in it -----

  /** All pages of x are pages of y. */
  predicate Inside(x: Ext, y: Ext) { y.base <= x.base && x.Past() <= y.Past() }

  /** x is made of whole extents: its serial number is the least of theirs, they are committed as it is, and none but
      the first of them may be the head of a mapping. */
  ghost predicate MadeOf(v: Extents, x: Ext) {
    && (forall f {:trigger Inside(v[f], x)} :: f in v && Inside(v[f], x) ==>
          && x.sn <= v[f].sn && v[f].committed == x.committed
          && (v[f].head <==> x.head && v[f].base == x.base))
    && (exists f :: f in v && Inside(v[f], x) && v[f].sn == x.sn)
  }

  /** Besides what went into e', every extent is as it was. */
  ghost predicate Gathered(v: Extents, v': Extents, e': Edata)
    requires e' in v'
  {
    && (forall f {:trigger f in v'} :: f in v' && f != e' ==> f in v && v'[f] == v[f])
    && (forall f {:trigger f in v} :: f in v ==> (f in v' && f != e') || Inside(v[f], v'[e']))
    && MadeOf(v, v'[e'])
  }

  /** e has become e', which is made of whole extents; besides these, nothing happened. */
  ghost predicate Became(v: Extents, e: Edata, v': Extents, e': Edata)
    requires e in v && e' in v'
  {
    Gathered(v, v', e') && Inside(v[e], v'[e']) && (e' == e || e !in v')
  }

  lemma BecameRefl(rtree: Rtree, v: Extents, e: Edata)
    requires Exact(rtree, v) && e in v
    ensures Became(v, e, v, e)
  {
    Open(rtree, v, {});
    ApartFrom(v, e);
    assert Inside(v[e], v[e]);
  }

  /** a has taken over b behind it. */
  lemma BecameMerge(rtree: Rtree, v: Extents, a: Edata, b: Edata)
    requires Exact(rtree, v) && a in v && b in v && a != b && Mergeable(v[a], v[b])
    ensures var w := (v - {b})[a := Merged(v[a], v[b])]; Became(v, a, w, a) && Became(v, b, w, a)
  {
    var x := Merged(v[a], v[b]);
    Open(rtree, v, {});
    ApartFrom(v, a);
    ApartFrom(v, b);
    assert Inside(v[a], x) && Inside(v[b], x);
  }

  lemma BecameTrans(v: Extents, e: Edata, v': Extents, e': Edata, v'': Extents, e'': Edata)
    requires e in v && e' in v' && e'' in v'' && Became(v, e, v', e') && Became(v', e', v'', e'')
    requires v''.Keys <= v'.Keys
    ensures Became(v, e, v'', e'')
  {
    GatheredTrans(v, v', e', v'', e'');
  }

  /** Filing the extent changes none of this. */
  lemma BecameFiled(v: Extents, e: Edata, v': Extents, e': Edata, st: State)
    requires e in v && e' in v' && Became(v, e, v', e')
    ensures Became(v, e, v'[e' := v'[e'].(state := st)], e')
  {
    var x, x' := v'[e'], v'[e'].(state := st);
    forall f | f in v ensures Inside(v[f], x) <==> Inside(v[f], x') {
    }
    var f: Edata :| f in v && Inside(v[f], x) && v[f].sn == x.sn;
    assert Inside(v[f], x');
  }

  /** So no page ever gets a higher serial number, or loses the one it had to a page outside its extent. */
  lemma SerialsFall(v: Extents, e: Edata, v': Extents, e': Edata, f: Edata, g: Edata, p: int)
    requires e in v && e' in v' && Became(v, e, v', e') && Disjoint(v')
    requires f in v && v[f].Has(p) && g in v' && v'[g].Has(p)
    ensures v'[g].sn <= v[f].sn && v'[g].committed == v[f].committed
  {
    assert f in v;
    assert g in v';
    if f in v' && f != e' {
      assert v'[f].Apart(v'[g]) || f == g;
    } else {
      assert Inside(v[f], v'[e']) && (v'[e'].Apart(v'[g]) || g == e');
    }
  }

  lemma GatheredTrans(v: Extents, v': Extents, e': Edata, v'': Extents, e'': Edata)
    requires e' in v' && e'' in v'' && Gathered(v, v', e') && Gathered(v', v'', e'') && Inside(v'[e'], v''[e''])
    requires e' == e'' || e' !in v''
    ensures Gathered(v, v'', e'')
  {
    var x', x'' := v'[e'], v''[e''];
    forall f | f in v'' && f != e'' ensures f in v && v''[f] == v[f] {
      assert f in v';
    }
    forall f | f in v ensures (f in v'' && f != e'') || Inside(v[f], x'') {
      assert f in v' ==> (f in v'' && f != e'') || Inside(v'[f], x'');
    }
    MadeOfTrans(v, v', e', x'');
  }

  lemma MadeOfTrans(v: Extents, v': Extents, e': Edata, x: Ext)
    requires e' in v' && Gathered(v, v', e') && MadeOf(v', x) && Inside(v'[e'], x)
    ensures MadeOf(v, x)
  {
    forall f | f in v && Inside(v[f], x)
      ensures x.sn <= v[f].sn && v[f].committed == x.committed && (v[f].head <==> x.head && v[f].base == x.base)
    {
      if f in v' && f != e' {
        assert Inside(v'[f], x);
      } else {
        assert Inside(v[f], v'[e']);
      }
    }
    var g: Edata :| g in v' && Inside(v'[g], x) && v'[g].sn == x.sn;
    if g == e' {
      var f: Edata :| f in v && Inside(v[f], v'[e']) && v[f].sn == v'[e'].sn;
      assert Inside(v[f], x);
    } else {
      assert Inside(v[g], x);
    }
  }

  // ----- one step of coalescing, on values -----

  /** The cached extent gone disappears into e, which becomes x; the pages of x are those of both. */
  lemma AbsorbedPages(v: Extents, s: set<Edata>, gone: Edata, e: Edata, x: Ext, p: int)
    requires e in v && gone in v && gone != e && (e in s <==> gone !in s)
    requires x.Has(p) <==> v[e].Has(p) || v[gone].Has(p)
    ensures var w, t := (v - {gone})[e := x], s - {gone} - {e};
      var active := if e in s then gone else e;
      Cached(w, t, p) || x.Has(p) <==> Cached(v, s, p) || v[active].Has(p)
  {
    var w, t := (v - {gone})[e := x], s - {gone} - {e};
    CachedSame(v, w, t, p);
    if Cached(v, s, p) {
      var f: Edata :| f in s && f in v && v[f].Has(p);
      assert f == gone || f == e || f in t;
    }
    if Cached(v, t, p) {
      var f: Edata :| f in t && f in v && v[f].Has(p);
      assert f in s;
    }
  }

  /** A cached extent behind x that begins no mapping, if there is one, is too small. */
  ghost predicate NothingBehind(v: Extents, s: set<Edata>, x: Ext, size: nat) {
    forall f :: f in s && f in v && v[f].base == x.Past() && !v[f].head ==> v[f].npages < size
  }

  lemma ExpandRefused(v: Extents, s: set<Edata>, st: State, x: Ext, size: nat)
    requires Kept(v, s, st)
    requires forall f :: f in v && CanAcquire(x, v[f], st, true, true) ==> v[f].npages < size
    ensures NothingBehind(v, s, x, size)
  {
    forall f | f in s && f in v && v[f].base == x.Past() && !v[f].head ensures v[f].npages < size {
      KeptState(v, s, st, f);
    }
  }

  /** x has become y by the first pages of a cached extent behind it. */
  ghost predicate Widened(v: Extents, s: set<Edata>, x: Ext, y: Ext, size: nat) {
    && y == x.(npages := x.npages + size, sn := y.sn)
    && exists n :: n in s && n in v && v[n].base == x.Past() && !v[n].head && size <= v[n].npages
                   && y.sn <= x.sn && y.sn <= v[n].sn && (y.sn == x.sn || y.sn == v[n].sn)
  }

  // ----- the pieces of an extent -----

  /** x is a piece of y: its serial number and its flags are those of y, but only the first piece begins a mapping. */
  predicate Piece(x: Ext, y: Ext) {
    && Inside(x, y) && x.sn == y.sn && x.committed == y.committed
    && (x.head <==> y.head && x.base == y.base)
  }

  /** Every extent is as it was, or a piece of one in d. */
  ghost predicate Pieces(v: Extents, d: set<Edata>, v': Extents) {
    forall f {:trigger IsPiece(v, d, v', f)} :: f in v' ==> IsPiece(v, d, v', f)
  }

  ghost predicate IsPiece(v: Extents, d: set<Edata>, v': Extents, f: Edata)
    requires f in v'
  {
    (f in v && f !in d && v'[f] == v[f]) || exists e :: e in d && e in v && Piece(v'[f], v[e])
  }

  lemma PiecesTrans(v: Extents, d: set<Edata>, v1: Extents, d1: set<Edata>, v2: Extents)
    requires Pieces(v, d, v1) && Pieces(v1, d1, v2) && forall g :: g in d1 && g in v ==> g in d
    ensures Pieces(v, d, v2)
  {
    forall f | f in v2 ensures IsPiece(v, d, v2, f) {
      assert IsPiece(v1, d1, v2, f);
      if f in v1 && f !in d1 && v2[f] == v1[f] {
        assert IsPiece(v, d, v1, f);
      } else {
        var g: Edata :| g in d1 && g in v1 && Piece(v2[f], v1[g]);
        assert IsPiece(v, d, v1, g);
        var e: Edata :| e in d && e in v && Piece(v1[g], v[e]);
        assert Piece(v2[f], v[e]);
      }
    }
  }

  /** e has been cut in two, or has got another state. */
  lemma PiecesCut(v: Extents, e: Edata, t: Edata, x: Ext, y: Ext)
    requires e in v && t !in v && Piece(x, v[e]) && Piece(y, v[e])
    ensures Pieces(v, {e}, v[e := x]) && Pieces(v, {e}, v[e := x][t := y])
  {
    var w, w' := v[e := x], v[e := x][t := y];
    forall f | f in w ensures IsPiece(v, {e}, w, f) {
      assert f == e ==> Piece(w[f], v[e]);
    }
    forall f | f in w' ensures IsPiece(v, {e}, w', f) {
      assert f == e || f == t ==> Piece(w'[f], v[e]);
    }
  }

  lemma PiecesState(v: Extents, e: Edata, st: State)
    requires e in v
    ensures Pieces(v, {e}, v[e := v[e].(state := st)]) && Pieces(v, {e}, v)
  {
    var w := v[e := v[e].(state := st)];
    forall f | f in w ensures IsPiece(v, {e}, w, f) {
      assert f == e ==> Piece(w[f], v[e]);
    }
    forall f | f in v ensures IsPiece(v, {e}, v, f) {
      assert f == e ==> Piece(v[f], v[e]);
    }
  }

  lemma PiecesMore(v: Extents, d: set<Edata>, d': set<Edata>, v': Extents)
    requires Pieces(v, d, v') && d <= d' && forall f :: f in d' && f in v && f in v' && f !in d ==> Piece(v'[f], v[f])
    ensures Pieces(v, d', v')
  {
    forall f | f in v' ensures IsPiece(v, d', v', f) {
      assert IsPiece(v, d, v', f);
    }
  }

  // ----- one split of an active extent, on values -----

  /** Lead x and trail y of e: both active, and as alone in the cache as e was on their side. */
  lemma SplitKept(rtree: Rtree, v: Extents, s: set<Edata>, st: State, e: Edata, t: Edata, x: Ext, y: Ext)
    requires Exact(rtree, v) && Kept(v, s, st) && e in v && v[e].state == Active && t !in v
    requires x == v[e].(npages := x.npages) && 1 <= x.npages && 1 <= y.npages
    requires y == v[e].(base := x.Past(), npages := y.npages, head := false) && y.Past() == v[e].Past()
    ensures Kept(v[e := x][t := y], s, st)
    ensures AloneBehind(v, s, v[e]) ==> Alone(v[e := x][t := y], s, x)
    ensures AloneAhead(v, s, v[e]) ==> Alone(v[e := x][t := y], s, y)
  {
    var w := v[e := x][t := y];
    KeptState(v, s, st, e);
    ActiveKept(v, w, s, st);
    forall f | f in w && f in s ensures w[f] == v[f] && !Mergeable(x, w[f]) && !Mergeable(w[f], y) {
      Open(rtree, v, {});
      assert v[e].Apart(v[f]);
    }
    if AloneBehind(v, s, v[e]) {
      forall f | f in w && f in s ensures !Mergeable(w[f], x) {
        assert !Mergeable(v[f], v[e]);
      }
    }
    if AloneAhead(v, s, v[e]) {
      forall f | f in w && f in s ensures !Mergeable(y, w[f]) {
        assert !Mergeable(v[e], v[f]);
      }
    }
  }

  /** What is left of e when r is cut out of it has gone to the cache, and no page is lost. */
  ghost predicate PutBack(v: Extents, s: set<Edata>, e: Edata, v': Extents, s': set<Edata>, r: Edata)
    requires e in v && r in v'
  {
    && (forall p: int :: Cached(v', s', p) <==> Cached(v, s, p) || (v[e].Has(p) && !v'[r].Has(p)))
    && (forall p: int :: Covered(v', p) <==> Covered(v, p))
  }

  /** Besides e, nothing happened except that new extents right behind it entered the cache. */
  ghost predicate Trailed(v: Extents, s: set<Edata>, e: Edata, v': Extents, s': set<Edata>)
    requires e in v'
  {
    && (forall f :: f in v && f != e ==> f in v' && v'[f] == v[f]) && s <= s'
    && (forall f :: f in s' && f !in s ==> f !in v && f in v' && v'[f].base == v'[e].Past())
  }

  /** A value that was alone is so still when only extents beyond r have entered. */
  lemma AloneStill(v: Extents, s: set<Edata>, r: Edata, v': Extents, s': set<Edata>, x: Ext)
    requires Alone(v, s, x) && r in v' && Trailed(v, s, r, v', s') && r !in s
    requires forall f :: f in s ==> f in v
    requires x.Past() < v'[r].Past()
    ensures Alone(v', s', x)
  {
    forall f | f in v' && f in s' ensures !Mergeable(x, v'[f]) && !Mergeable(v'[f], x) {
      if f in s {
        assert !Mergeable(x, v[f]) && !Mergeable(v[f], x);
      }
    }
  }

  /** The trail y of e is filed. */
  lemma TrailPages(v: Extents, s: set<Edata>, e: Edata, t: Edata, x: Ext, y: Ext, y': Ext)
    requires e in v && e !in s && t !in v && t !in s
    requires x.base == v[e].base && y.base == x.Past() && y.Past() == v[e].Past()
    requires y' == y.(state := y'.state)
    ensures PutBack(v, s, e, v[e := x][t := y][t := y'], s + {t}, e)
  {
    var w := v[e := x][t := y][t := y'];
    assert w == v[e := x][t := y'];
    forall p: int
      ensures Cached(w, s + {t}, p) <==> Cached(v, s, p) || (v[e].Has(p) && !w[e].Has(p))
      ensures Covered(w, p) <==> Covered(v, p)
    {
      CachedSame(v, w, s, p);
      CachedAdd(w, s, t, p);
      SplitPages(v, e, t, x, y', p);
    }
  }

  lemma TrailFrame(v: Extents, s: set<Edata>, e: Edata, t: Edata, x: Ext, y: Ext, y': Ext)
    requires e in v && t !in v && t !in s && e != t && x.state == Active && y'.base == x.Past()
    ensures Frame(v, v[e := x][t := y][t := y'], y'.state, {e})
    ensures Trailed(v, s, e, v[e := x][t := y][t := y'], s + {t})
  {
  }

  /** The rest of r, cut to its final size, and the lead e before it have gone to the cache. */
  ghost predicate BothBack(v: Extents, s: set<Edata>, e: Edata, r: Edata, v': Extents, s': set<Edata>)
    requires e in v && r in v && r in v'
  {
    && (forall p: int :: Cached(v', s', p) <==> Cached(v, s, p) || v[e].Has(p) || (v[r].Has(p) && !v'[r].Has(p)))
    && (forall p: int :: Covered(v', p) <==> Covered(v, p))
  }

  lemma LeadFiled(v: Extents, s: set<Edata>, e: Edata, r: Edata, v': Extents, s': set<Edata>, x: Ext)
    requires e in v && r in v && e != r && r in v' && e in v' && v'[e] == v[e] && x == v[e].(state := x.state)
    requires PutBack(v, s, r, v', s', r) && e !in s'
    ensures BothBack(v, s, e, r, v'[e := x], s' + {e})
  {
    var w := v'[e := x];
    forall p: int
      ensures Cached(w, s' + {e}, p) <==> Cached(v, s, p) || v[e].Has(p) || (v[r].Has(p) && !w[r].Has(p))
      ensures Covered(w, p) <==> Covered(v, p)
    {
      CachedSame(v', w, s', p);
      CachedAdd(w, s', e, p);
      FlagPages(v', e, x, p);
    }
  }

  /** r was cut out of the cached extent e: exactly its pages have left the cache. */
  ghost predicate TakenOut(v: Extents, s: set<Edata>, v': Extents, s': set<Edata>, r: Ext) {
    && (forall p: int :: Cached(v', s', p) <==> Cached(v, s, p) && !r.Has(p))
    && (forall p: int :: Covered(v', p) <==> Covered(v, p))
  }

  /** A cached extent becomes active. */
  lemma ActivePages(v: Extents, s: set<Edata>, e: Edata, x: Ext, p: int)
    requires Disjoint(v) && e in v && e in s && x == v[e].(state := x.state)
    ensures Cached(v, s, p) <==> Cached(v[e := x], s - {e}, p) || v[e].Has(p)
    ensures v[e].Has(p) ==> !Cached(v[e := x], s - {e}, p)
    ensures Covered(v[e := x], p) <==> Covered(v, p)
  {
    CachedSame(v, v[e := x], s - {e}, p);
    assert s - {e} + {e} == s;
    CachedAdd(v, s - {e}, e, p);
    CachedApart(v, s - {e}, e, p);
    FlagPages(v, e, x, p);
  }

  lemma RecyclePages(v: Extents, s: set<Edata>, e: Edata, x: Ext, v': Extents, s': set<Edata>, r: Edata)
    requires Disjoint(v) && e in v && e in s && x == v[e].(state := x.state) && r in v'
    requires PutBack(v[e := x], s - {e}, e, v', s', r)
    requires v[e].base <= v'[r].base && v'[r].Past() <= v[e].Past()
    ensures TakenOut(v, s, v', s', v'[r])
  {
    forall p: int
      ensures Cached(v', s', p) <==> Cached(v, s, p) && !v'[r].Has(p)
      ensures Covered(v', p) <==> Covered(v, p)
    {
      ActivePages(v, s, e, x, p);
    }
  }

  /** The whole of a cached extent e is lost. */
  ghost predicate Leaked(v: Extents, s: set<Edata>, v': Extents, s': set<Edata>, e: Edata)
    requires e in v
  {
    && v' == v - {e} && s' == s - {e}
    && (forall p: int :: Cached(v', s', p) <==> Cached(v, s, p) && !v[e].Has(p))
    && (forall p: int :: Covered(v', p) <==> Covered(v, p) && !v[e].Has(p))
  }

  lemma LeakPages(v: Extents, s: set<Edata>, e: Edata)
    requires Disjoint(v) && e in v && e in s
    ensures Leaked(v, s, v - {e}, s - {e}, e)
  {
    forall p: int
      ensures Cached(v - {e}, s - {e}, p) <==> Cached(v, s, p) && !v[e].Has(p)
      ensures Covered(v - {e}, p) <==> Covered(v, p) && !v[e].Has(p)
    {
      ActivePages(v, s, e, v[e], p);
      CachedSame(v[e := v[e]], v - {e}, s - {e}, p);
      DropPages(v, e, p);
    }
  }

  /** The recycled n is merged into the active extent x before it. */
  lemma ExpandPages(v: Extents, s: set<Edata>, w: Extents, t: set<Edata>, x: Edata, n: Edata, st: State)
    requires x in w && n in w && x != n && x !in t && n !in t && w[x].Past() == w[n].base
    requires TakenOut(v, s, w, t, w[n]) && Frame(v, w, st, {}) && n in v && v[n].state == st
    ensures TakenOut(v, s, (w - {n})[x := Merged(w[x], w[n])], t, w[n])
    ensures Frame(v, (w - {n})[x := Merged(w[x], w[n])], st, {x})
  {
    var w' := (w - {n})[x := Merged(w[x], w[n])];
    forall p: int
      ensures Cached(w', t, p) <==> Cached(v, s, p) && !w[n].Has(p)
      ensures Covered(w', p) <==> Covered(v, p)
    {
      CachedSame(w, w', t, p);
      MergePages(w, x, n, p);
    }
  }

  lemma SplitFrame(v: Extents, v1: Extents, v': Extents, st: State, e: Edata, r: Edata)
    requires e in v && r !in v && e in v1 && r in v1 && v1 == v[e := v1[e]][r := v1[r]]
    requires v1[e].state == Active && v1[r].state == Active && Frame(v1, v', st, {e, r})
    ensures Frame(v, v', st, {e})
  {
    FrameTrans(v, v1, v', st, {e}, {e, r});
  }

  /** Both parts of a split are lost. */
  lemma SplitLost(v: Extents, e: Edata, r: Edata, x: Ext, y: Ext)
    requires e in v && r !in v
    ensures v[e := x][r := y] - {r} - {e} == v - {e}
  {
  }

  /** e was split into lead x and rest y before both went back. */
  lemma SplitBack(v: Extents, s: set<Edata>, e: Edata, r: Edata, x: Ext, y: Ext, v': Extents, s': set<Edata>)
    requires e in v && e !in s && r !in v && r !in s && e != r && r in v'
    requires x.base == v[e].base && y.base == x.Past() && y.Past() == v[e].Past() && v'[r].base == y.base
    requires BothBack(v[e := x][r := y], s, e, r, v', s')
    ensures PutBack(v, s, e, v', s', r)
  {
    forall p: int
      ensures Cached(v', s', p) <==> Cached(v, s, p) || (v[e].Has(p) && !v'[r].Has(p))
      ensures Covered(v', p) <==> Covered(v, p)
    {
      CachedSame(v, v[e := x][r := y], s, p);
      SplitPages(v, e, r, x, y, p);
    }
  }

  /** Coalescing has turned e into e': its pages have grown at the expense of the cache, no page has
      been lost, and everything else is as it was. */
  ghost predicate Grown(v: Extents, s: set<Edata>, e: Edata, v': Extents, s': set<Edata>, e': Edata, st: State)
    requires e in v && e' in v'
  {
    && v'.Keys <= v.Keys && (e' == e || (e' in v && v[e'].state == st)) && Frame(v, v', st, {e})
    && v'[e'].base <= v[e].base && v[e].Past() <= v'[e'].Past()
    && forall p: int {:trigger PagesKept(v, s, e, v', s', e', p)} :: PagesKept(v, s, e, v', s', e', p)
  }

  ghost predicate PagesKept(v: Extents, s: set<Edata>, e: Edata, v': Extents, s': set<Edata>, e': Edata, p: int)
    requires e in v && e' in v'
  {
    && (Cached(v', s', p) || v'[e'].Has(p) <==> Cached(v, s, p) || v[e].Has(p))
    && (Covered(v', p) <==> Covered(v, p))
  }

  /** The extent that coalescing made of e is filed. */
  lemma RecordPages(v: Extents, s: set<Edata>, e: Edata, v': Extents, s': set<Edata>, e': Edata, st: State)
    requires e in v && e' in v' && e' !in s' && Grown(v, s, e, v', s', e', st)
    ensures var w, t := v'[e' := v'[e'].(state := st)], s' + {e'};
      && (forall p: int :: Cached(w, t, p) <==> Cached(v, s, p) || v[e].Has(p))
      && (forall p: int :: Covered(w, p) <==> Covered(v, p))
  {
    var w, t := v'[e' := v'[e'].(state := st)], s' + {e'};
    forall p: int
      ensures Cached(w, t, p) <==> Cached(v, s, p) || v[e].Has(p)
      ensures Covered(w, p) <==> Covered(v, p)
    {
      assert PagesKept(v, s, e, v', s', e', p);
      CachedSame(v', w, s', p);
      CachedAdd(w, s', e', p);
      FlagPages(v', e', w[e'], p);
    }
  }

  lemma GrownRefl(v: Extents, s: set<Edata>, e: Edata, st: State)
    requires e in v
    ensures Grown(v, s, e, v, s, e, st)
  {
  }

  lemma GrownTrans(v: Extents, s: set<Edata>, e: Edata, v': Extents, s': set<Edata>, e': Edata,
                   v'': Extents, s'': set<Edata>, e'': Edata, st: State)
    requires e in v && e' in v' && e'' in v''
    requires Grown(v, s, e, v', s', e', st) && Grown(v', s', e', v'', s'', e'', st)
    requires e'' in v ==> e'' == e || v[e''].state == st
    ensures Grown(v, s, e, v'', s'', e'', st)
  {
    FrameTrans(v, v', v'', st, {e}, {e'});
    forall p: int ensures PagesKept(v, s, e, v'', s'', e'', p) {
      assert PagesKept(v, s, e, v', s', e', p) && PagesKept(v', s', e', v'', s'', e'', p);
    }
  }

  lemma GrownForward(v: Extents, s: set<Edata>, e: Edata, n: Edata, st: State)
    requires e in v && n in v && n != e && e !in s && n in s && Mergeable(v[e], v[n]) && v[n].state == st
    ensures Grown(v, s, e, (v - {n})[e := Merged(v[e], v[n])], s - {n}, e, st)
  {
    var x := Merged(v[e], v[n]);
    var w, t := (v - {n})[e := x], s - {n};
    assert t - {e} == t;
    forall p: int ensures PagesKept(v, s, e, w, t, e, p) {
      AbsorbedPages(v, s, n, e, x, p);
      MergePages(v, e, n, p);
    }
  }

  lemma GrownBackward(v: Extents, s: set<Edata>, e: Edata, b: Edata, st: State)
    requires e in v && b in v && b != e && e !in s && b in s && Mergeable(v[b], v[e]) && v[b].state == st
    ensures Grown(v, s, e, (v - {e})[b := Merged(v[b], v[e])], s - {b}, b, st)
  {
    var x := Merged(v[b], v[e]);
    var w, t := (v - {e})[b := x], s - {b};
    assert s - {e} - {b} == t;
    forall p: int ensures PagesKept(v, s, e, w, t, b, p) {
      AbsorbedPages(v, s, e, b, x, p);
      MergePages(v, b, e, p);
    }
  }

  /** If no neighbour ahead could be acquired, no cached extent ahead is mergeable. */
  lemma AheadRefused(v: Extents, s: set<Edata>, st: State, e: Edata)
    requires Kept(v, s, st) && e in v
    requires forall f :: f in v ==> !CanAcquire(v[e], v[f], st, true, false)
    ensures AloneAhead(v, s, v[e])
  {
    forall f | f in v && f in s ensures !Mergeable(v[e], v[f]) {
      KeptState(v, s, st, f);
    }
  }

  lemma BehindRefused(v: Extents, s: set<Edata>, st: State, e: Edata)
    requires Kept(v, s, st) && e in v
    requires forall f :: f in v ==> !CanAcquire(v[e], v[f], st, false, false)
    ensures AloneBehind(v, s, v[e])
  {
    forall f | f in v && f in s ensures !Mergeable(v[f], v[e]) {
      KeptState(v, s, st, f);
    }
  }
}
