/**
 The kernel's memory as a value: the page tables, the free list, and who holds each page. Good
 is the invariant; the lemmas here say which changes keep it, and what they do to translations.
 */
module VmState {
  import opened PageTable

  lemma Digits(a: nat, b: nat, c: nat, d: nat)
    requires b < ENTRIES && d < ENTRIES && a * ENTRIES + b == c * ENTRIES + d
    ensures a == c && b == d
  {
  }

  lemma VpnInjective(v: Vp, u: Vp)
    requires IsVp(v) && IsVp(u) && Vpn(v) == Vpn(u)
    ensures v == u
  {
    Digits(v.i2 * ENTRIES + v.i1, v.i0, u.i2 * ENTRIES + u.i1, u.i0);
    Digits(v.i2, v.i1, u.i2, u.i1);
  }

  /** n virtual pages of one tree, from number lo. */
  datatype Span = Span(r: nat, lo: nat, n: nat)

  ghost predicate In(s: Span, r: nat, v: Vp) { r == s.r && s.lo <= Vpn(v) < s.lo + s.n }

  // Pages.

  ghost predicate IsPage(a: nat) { a > 0 && a % PGSIZE == 0 }

  /** Whatever a is, it is at most one of free, a table, a mapped frame and in hand, and it is one if own. */
  ghost predicate OnePart(own: set<nat>, free: seq<nat>, tabs: set<nat>, frs: set<nat>, hand: set<nat>, a: nat)
  {
    && (a in free ==> a !in tabs && a !in frs && a !in hand)
    && (a in tabs ==> a !in frs && a !in hand) && (a in frs ==> a !in hand)
    && (a in own <==> a in free || a in tabs || a in frs || a in hand)
    && (a in own ==> IsPage(a))
  }

  ghost predicate Differ(free: seq<nat>, i: int, j: int) { 0 <= i < j < |free| ==> free[i] != free[j] }

  ghost predicate Distinct(free: seq<nat>) { forall i, j {:trigger Differ(free, i, j)} :: Differ(free, i, j) }

  /** Every page the kernel manages is free, a table, a mapped frame or in hand, and only one of these. */
  ghost predicate Parts(own: set<nat>, free: seq<nat>, tabs: set<nat>, frs: set<nat>, hand: set<nat>)
  {
    && Distinct(free)
    && (forall a {:trigger OnePart(own, free, tabs, frs, hand, a)} :: OnePart(own, free, tabs, frs, hand, a))
  }

  /** Parts may be exchanged as long as every page keeps exactly one. */
  lemma PartsMoved(own: set<nat>, free: seq<nat>, tabs: set<nat>, frs: set<nat>, hand: set<nat>,
                   tabs': set<nat>, frs': set<nat>, hand': set<nat>)
    requires Parts(own, free, tabs, frs, hand)
    requires tabs' + frs' + hand' == tabs + frs + hand && tabs' !! frs' && tabs' !! hand' && frs' !! hand'
    ensures Parts(own, free, tabs', frs', hand')
  {
    forall a ensures OnePart(own, free, tabs', frs', hand', a) {
      assert OnePart(own, free, tabs, frs, hand, a);
      assert a in tabs' + frs' + hand' <==> a in tabs + frs + hand;
    }
  }

  lemma PartsApart(own: set<nat>, free: seq<nat>, tabs: set<nat>, frs: set<nat>, hand: set<nat>)
    requires Parts(own, free, tabs, frs, hand)
    ensures tabs !! frs && tabs !! hand && frs !! hand && tabs <= own && frs <= own && hand <= own
  {
    forall a
      ensures (a in tabs ==> a !in frs && a !in hand) && (a in frs ==> a !in hand)
      ensures a in tabs || a in frs || a in hand ==> a in own
    {
      assert OnePart(own, free, tabs, frs, hand, a);
    }
  }

  ghost predicate PointsOn(e: Entry) { Valid(e) ==> !IsLeaf(e) && e.pa != 0 }

  /** Entries of the upper two levels that are in use point to tables. */
  ghost predicate Pointers(pages: Pages, tab: map<nat, Path>)
    requires Sized(pages)
  {
    forall p, k {:trigger PointsOn(pages[p][k])} | p in tab && p in pages && !tab[p].Low? && 0 <= k < ENTRIES ::
      PointsOn(pages[p][k])
  }

  /** Who holds what: the trees, the table each page is, and the virtual page each frame is mapped at. */
  datatype Holds = Holds(roots: set<nat>, tab: map<nat, Path>, fr: map<nat, (nat, Vp)>)

  ghost predicate Good(own: set<nat>, pages: Pages, free: seq<nat>, h: Holds, hand: set<nat>)
  {
    && Trees(pages, h.roots, h.tab) && Frames(pages, own, h.roots, h.fr) && Pointers(pages, h.tab)
    && Parts(own, free, h.tab.Keys, h.fr.Keys, hand)
  }

  // Translations.

  /** The same translations everywhere. */
  ghost predicate SameView(pages: Pages, pages': Pages, roots: set<nat>)
    requires Sized(pages) && Sized(pages')
  {
    forall r, v {:trigger Pte(pages', r, v)} | r in roots && IsVp(v) :: Pte(pages', r, v) == Pte(pages, r, v)
  }

  /** The span's pages are mapped to consecutive frames from pa on; the rest is as it was. */
  ghost predicate Mapped(pages: Pages, pages': Pages, roots: set<nat>, s: Span, pa: nat, perm: nat)
    requires Sized(pages) && Sized(pages')
  {
    forall r, v {:trigger Pte(pages', r, v)} | r in roots && IsVp(v) ::
      Pte(pages', r, v) == if In(s, r, v) then Made(pa + (Vpn(v) - s.lo) * PGSIZE, perm) else Pte(pages, r, v)
  }

  /** The entry maps frame pa, with PTE_V and exactly the flags of perm. */
  ghost predicate MapsTo(e: Entry, pa: nat, perm: nat)
  {
    e.pa == pa && forall k: nat {:trigger HasFlag(e.flags, k)} :: HasFlag(e.flags, k) <==> k == 0 || HasFlag(perm, k)
  }

  lemma MadeMapsTo(pa: nat, perm: nat)
    ensures MapsTo(Made(pa, perm), pa, perm)
  {
    var e := Made(pa, perm);
    forall k: nat ensures HasFlag(e.flags, k) <==> k == 0 || HasFlag(perm, k) { MadeFlags(pa, perm, k); }
  }

  /** The span's pages are not mapped; the rest is as it was. */
  ghost predicate Cleared(pages: Pages, pages': Pages, roots: set<nat>, s: Span)
    requires Sized(pages) && Sized(pages')
  {
    forall r, v {:trigger Pte(pages', r, v)} | r in roots && IsVp(v) ::
      Pte(pages', r, v) == if In(s, r, v) then Nil() else Pte(pages, r, v)
  }

  /** n frames from pa on. */
  ghost function Run(pa: nat, n: nat): (frames: set<nat>) { set k | 0 <= k < n :: pa + k * PGSIZE }

  lemma RunMore(own: set<nat>, pa: nat, k: nat, n: nat, hand: set<nat>)
    requires k < n && Run(pa, n) * own <= hand
    ensures pa + k * PGSIZE in hand - Run(pa, k) || pa + k * PGSIZE !in own
    ensures hand - Run(pa, k) - {pa + k * PGSIZE} == hand - Run(pa, k + 1)
  {
    assert pa + k * PGSIZE in Run(pa, n);
    assert Run(pa, k + 1) == Run(pa, k) + {pa + k * PGSIZE};
  }

  lemma RunOne(pa: nat, hand: set<nat>)
    requires pa !in hand
    ensures Run(pa, 1) == {pa} && Run(pa, 0) == {}
    ensures hand + {pa} - Run(pa, 1) == hand && hand + {pa} - Run(pa, 0) == hand + {pa} && hand + {pa} - {pa} == hand
  {
    assert pa + 0 * PGSIZE in Run(pa, 1);
  }

  /** No page of the span is mapped. */
  ghost predicate Vacant(pages: Pages, s: Span)
    requires Sized(pages)
  {
    forall v {:trigger Pte(pages, s.r, v)} | IsVp(v) && In(s, s.r, v) :: !Valid(Pte(pages, s.r, v))
  }

  /** While a vacant span is being mapped, its next page is vacant. */
  lemma NextVacant(was: Pages, pages: Pages, roots: set<nat>, s: Span, pa: nat, perm: nat, n: nat, a: nat)
    requires Sized(was) && Sized(pages) && Mapped(was, pages, roots, s, pa, perm) && s.r in roots
    requires Vacant(was, s.(n := n)) && s.n < n && a == (s.lo + s.n) * PGSIZE
    ensures a < MAXVA ==> !Valid(Pte(pages, s.r, VpOf(a)))
  {
    if a < MAXVA {
      VpnOf(a);
      assert Pte(pages, s.r, VpOf(a)) == Pte(was, s.r, VpOf(a));
    }
  }

  /** Every page of the span is mapped, by an entry with more than PTE_V. */
  ghost predicate Full(pages: Pages, s: Span)
    requires Sized(pages)
  {
    && s.lo + s.n <= MAXVPN
    && forall v {:trigger Pte(pages, s.r, v)} | IsVp(v) && In(s, s.r, v) :: Valid(Pte(pages, s.r, v)) && Pte(pages, s.r, v).flags != PTE_V
  }

  /** The span's pages are mapped to frames among own. */
  ghost predicate FramesIn(pages: Pages, own: set<nat>, s: Span)
    requires Sized(pages)
  {
    forall v {:trigger Pte(pages, s.r, v)} | IsVp(v) && In(s, s.r, v) :: Pte(pages, s.r, v).pa in own
  }

  /** While a full span is being cleared, its next page is mapped. */
  lemma NextFull(was: Pages, pages: Pages, own: set<nat>, roots: set<nat>, s: Span, n: nat, a: nat)
    requires Sized(was) && Sized(pages) && Cleared(was, pages, roots, s) && s.r in roots
    requires Full(was, s.(n := n)) && s.n < n && a == (s.lo + s.n) * PGSIZE
    ensures a < MAXVA && Valid(Pte(pages, s.r, VpOf(a))) && Pte(pages, s.r, VpOf(a)).flags != PTE_V
    ensures FramesIn(was, own, s.(n := n)) ==> Pte(pages, s.r, VpOf(a)).pa in own
  {
    VpnOf(a);
    assert Pte(pages, s.r, VpOf(a)) == Pte(was, s.r, VpOf(a));
  }

  /** The frames not mapped in the span. */
  ghost function Outside(fr: map<nat, (nat, Vp)>, s: Span): (rest: map<nat, (nat, Vp)>)
  {
    map f | f in fr && !In(s, fr[f].0, fr[f].1) :: fr[f]
  }

  // Steps.

  lemma Take(own: set<nat>, pages: Pages, free: seq<nat>, h: Holds, hand: set<nat>)
    requires Good(own, pages, free, h, hand) && free != []
    ensures free[0] in own && free[0] > 0 && free[0] !in hand && free[0] !in h.fr && Good(own, pages, free[1..], h, hand + {free[0]})
  {
    var (p, rest) := (free[0], free[1..]);
    assert OnePart(own, free, h.tab.Keys, h.fr.Keys, hand, p);
    forall i, j ensures Differ(rest, i, j) { assert Differ(free, i + 1, j + 1); }
    forall a ensures OnePart(own, rest, h.tab.Keys, h.fr.Keys, hand + {p}, a) {
      assert OnePart(own, free, h.tab.Keys, h.fr.Keys, hand, a);
      if a in rest { var k :| 0 <= k < |rest| && rest[k] == a; assert Differ(free, 0, k + 1); }
      assert free == [p] + rest;
    }
  }

  lemma Give(own: set<nat>, pages: Pages, free: seq<nat>, h: Holds, hand: set<nat>, p: nat)
    requires Good(own, pages, free, h, hand) && p in hand
    ensures p in own && Good(own, pages, [p] + free, h, hand - {p})
  {
    var more := [p] + free;
    assert OnePart(own, free, h.tab.Keys, h.fr.Keys, hand, p);
    forall i, j ensures Differ(more, i, j) { assert Differ(free, i - 1, j - 1); }
    forall a ensures OnePart(own, more, h.tab.Keys, h.fr.Keys, hand - {p}, a) {
      assert OnePart(own, free, h.tab.Keys, h.fr.Keys, hand, a);
    }
  }

  lemma LinkedPointers(pages: Pages, tab: map<nat, Path>, path: Path, q: nat)
    requires Sized(pages) && pages.Keys == tab.Keys && Pointers(pages, tab)
    requires IsPath(path) && !path.Root? && SlotOf(pages, path).0 in pages && q > 0 && q !in pages
    ensures Sized(Linked(pages, path, q)) && Pointers(Linked(pages, path, q), tab[q := path])
  {
    MadeIs(q, 0);
    var (pages', tab') := (Linked(pages, path, q), tab[q := path]);
    forall p, k | p in tab' && p in pages' && !tab'[p].Low? && 0 <= k < ENTRIES ensures PointsOn(pages'[p][k]) {
      if p != q { assert PointsOn(pages[p][k]); }
    }
  }

  /** A page in hand becomes the table at path: no translation changes. */
  lemma Grow(own: set<nat>, pages: Pages, free: seq<nat>, h: Holds, hand: set<nat>, path: Path, q: nat)
    requires Good(own, pages, free, h, hand + {q}) && q !in hand
    requires IsPath(path) && path.r in h.roots && !path.Root? && TableAt(pages, path) == 0 && SlotOf(pages, path).0 in pages
    ensures Good(own, Linked(pages, path, q), free, h.(tab := h.tab[q := path]), hand)
    ensures SameView(pages, Linked(pages, path, q), h.roots) && TableAt(Linked(pages, path, q), path) == q
    ensures Grown(h.tab, h.tab[q := path], path.r)
  {
    assert OnePart(own, free, h.tab.Keys, h.fr.Keys, hand + {q}, q);
    PartsApart(own, free, h.tab.Keys, h.fr.Keys, hand + {q});
    LinkedTrees(pages, h.roots, h.tab, path, q);
    forall r, v | r in h.roots && IsVp(v) ensures Pte(Linked(pages, path, q), r, v) == Pte(pages, r, v) {
      LinkedPte(pages, h.roots, h.tab, path, q, r, v);
    }
    FramesSame(pages, own, h.roots, h.fr, Linked(pages, path, q));
    LinkedTableAt(pages, h.roots, h.tab, path, q, path);
    LinkedPointers(pages, h.tab, path, q);
    PartsMoved(own, free, h.tab.Keys, h.fr.Keys, hand + {q}, h.tab[q := path].Keys, h.fr.Keys, hand);
  }

  lemma SetPtePointers(pages: Pages, roots: set<nat>, tab: map<nat, Path>, r: nat, v: Vp, e: Entry)
    requires Trees(pages, roots, tab) && Pointers(pages, tab)
    requires r in roots && IsVp(v) && TableAt(pages, LowOf(r, v)) in pages
    ensures Pointers(SetPte(pages, r, v, e), tab)
  {
    TableHas(pages, roots, tab, LowOf(r, v));
    var pages' := SetPte(pages, r, v, e);
    forall p, k | p in tab && p in pages' && !tab[p].Low? && 0 <= k < ENTRIES ensures PointsOn(pages'[p][k]) {
      assert PointsOn(pages[p][k]);
    }
  }

  /** A page in hand, or one that the kernel does not manage, becomes the frame of a virtual page that had none. */
  lemma MapFrame(own: set<nat>, pages: Pages, free: seq<nat>, h: Holds, hand: set<nat>, r: nat, v: Vp, f: nat, perm: nat)
    requires Good(own, pages, free, h, hand) && (f in hand || f !in own)
    requires r in h.roots && IsVp(v) && TableAt(pages, LowOf(r, v)) in pages && !Valid(Pte(pages, r, v))
    ensures Good(own, SetPte(pages, r, v, Made(f, perm)), free, h.(fr := Added(own, h.fr, f, r, v)), hand - {f})
  {
    MadeIs(f, perm);
    PartsApart(own, free, h.tab.Keys, h.fr.Keys, hand);
    SetPteTrees(pages, h.roots, h.tab, r, v, Made(f, perm));
    FramesMapped(pages, own, h.roots, h.tab, h.fr, r, v, Made(f, perm));
    SetPtePointers(pages, h.roots, h.tab, r, v, Made(f, perm));
    PartsMoved(own, free, h.tab.Keys, h.fr.Keys, hand, h.tab.Keys, Added(own, h.fr, f, r, v).Keys, hand - {f});
  }

  /** Clearing an entry puts its frame in hand if it is one that the kernel manages. */
  lemma UnmapFrame(own: set<nat>, pages: Pages, free: seq<nat>, h: Holds, hand: set<nat>, r: nat, v: Vp)
    requires Good(own, pages, free, h, hand)
    requires r in h.roots && IsVp(v) && TableAt(pages, LowOf(r, v)) in pages && Valid(Pte(pages, r, v))
    ensures Pte(pages, r, v).pa in own <==> Pte(pages, r, v).pa in h.fr
    ensures Pte(pages, r, v).pa !in hand || Pte(pages, r, v).pa !in own
    ensures Good(own, SetPte(pages, r, v, Nil()), free, h.(fr := h.fr - {Pte(pages, r, v).pa}),
                 hand + {Pte(pages, r, v).pa} * own)
  {
    SetPteTrees(pages, h.roots, h.tab, r, v, Nil());
    FramesUnmapped(pages, own, h.roots, h.tab, h.fr, r, v);
    SetPtePointers(pages, h.roots, h.tab, r, v, Nil());
    var f := Pte(pages, r, v).pa;
    PartsApart(own, free, h.tab.Keys, h.fr.Keys, hand);
    PartsMoved(own, free, h.tab.Keys, h.fr.Keys, hand, h.tab.Keys, (h.fr - {f}).Keys, hand + {f} * own);
  }

  /** A page in hand becomes an empty tree. */
  lemma NewTree(own: set<nat>, pages: Pages, free: seq<nat>, h: Holds, hand: set<nat>, q: nat)
    requires Good(own, pages, free, h, hand + {q}) && q !in hand
    ensures Good(own, pages[q := ZeroTable()], free, h.(roots := h.roots + {q}, tab := h.tab[q := Root(q)]), hand)
    ensures q !in h.roots && SameView(pages, pages[q := ZeroTable()], h.roots) && Grown(h.tab, h.tab[q := Root(q)], q)
    ensures forall v | IsVp(v) :: Pte(pages[q := ZeroTable()], q, v) == Nil()
  {
    assert OnePart(own, free, h.tab.Keys, h.fr.Keys, hand + {q}, q);
    PartsApart(own, free, h.tab.Keys, h.fr.Keys, hand + {q});
    NewRootTrees(pages, h.roots, h.tab, q);
    var pages' := pages[q := ZeroTable()];
    forall r, v | r in h.roots + {q} && IsVp(v) ensures LeafKnown(pages', own, h.fr, r, v) {
      if r != q { assert LeafKnown(pages, own, h.fr, r, v); }
    }
    forall f | f in h.fr ensures FrameRight(pages', own, h.roots + {q}, h.fr, f) { assert FrameRight(pages, own, h.roots, h.fr, f); }
    forall p, k | p in h.tab[q := Root(q)] && p in pages' && !h.tab[q := Root(q)][p].Low? && 0 <= k < ENTRIES
      ensures PointsOn(pages'[p][k])
    {
      if p != q { assert PointsOn(pages[p][k]); }
    }
    PartsMoved(own, free, h.tab.Keys, h.fr.Keys, hand + {q}, h.tab[q := Root(q)].Keys, h.fr.Keys, hand);
  }

  // Spans.

  /** One more page mapped after a walk that changed no translation. */
  lemma MappedMore(pages0: Pages, pages: Pages, pages1: Pages, h: Holds, s: Span, pa: nat, perm: nat, v: Vp)
    requires Sized(pages0) && Sized(pages) && Mapped(pages0, pages, h.roots, s, pa, perm)
    requires Trees(pages1, h.roots, h.tab) && SameView(pages, pages1, h.roots)
    requires s.r in h.roots && IsVp(v) && Vpn(v) == s.lo + s.n && TableAt(pages1, LowOf(s.r, v)) in pages1
    ensures Mapped(pages0, SetPte(pages1, s.r, v, Made(pa + s.n * PGSIZE, perm)), h.roots, s.(n := s.n + 1), pa, perm)
  {
    var e := Made(pa + s.n * PGSIZE, perm);
    var pages2 := SetPte(pages1, s.r, v, e);
    forall r', v' | r' in h.roots && IsVp(v')
      ensures Pte(pages2, r', v') == if In(s.(n := s.n + 1), r', v') then Made(pa + (Vpn(v') - s.lo) * PGSIZE, perm)
                                     else Pte(pages0, r', v')
    {
      SetPteIs(pages1, h.roots, h.tab, s.r, v, e, r', v');
      assert Pte(pages1, r', v') == Pte(pages, r', v');
      if Vpn(v') == Vpn(v) { VpnInjective(v, v'); }
    }
  }

  lemma MappedSame(was: Pages, pages: Pages, walked: Pages, roots: set<nat>, s: Span, pa: nat, perm: nat)
    requires Sized(was) && Sized(pages) && Sized(walked) && Mapped(was, pages, roots, s, pa, perm) && SameView(pages, walked, roots)
    ensures Mapped(was, walked, roots, s, pa, perm)
  {
    forall r, v | r in roots && IsVp(v)
      ensures Pte(walked, r, v) == if In(s, r, v) then Made(pa + (Vpn(v) - s.lo) * PGSIZE, perm) else Pte(was, r, v)
    {
      assert Pte(walked, r, v) == Pte(pages, r, v);
    }
  }

  /** A whole turn of mappages: Good is kept, and one more page is mapped. */
  lemma MapStep(own: set<nat>, was: Pages, pages: Pages, walked: Pages, free: seq<nat>, h: Holds, hand: set<nat>,
                s: Span, pa: nat, at: nat, perm: nat, v: Vp)
    requires Sized(was) && Sized(pages) && Mapped(was, pages, h.roots, s, pa, perm)
    requires Good(own, walked, free, h, hand) && SameView(pages, walked, h.roots)
    requires s.r in h.roots && IsVp(v) && Vpn(v) == s.lo + s.n && TableAt(walked, LowOf(s.r, v)) in walked
    requires at == pa + s.n * PGSIZE && (at in hand || at !in own) && !Valid(Pte(pages, s.r, v))
    ensures Good(own, SetPte(walked, s.r, v, Made(at, perm)), free, h.(fr := Added(own, h.fr, at, s.r, v)), hand - {at})
    ensures Mapped(was, SetPte(walked, s.r, v, Made(at, perm)), h.roots, s.(n := s.n + 1), pa, perm)
  {
    assert Pte(walked, s.r, v) == Pte(pages, s.r, v);
    MapFrame(own, walked, free, h, hand, s.r, v, at, perm);
    MappedMore(was, pages, walked, h, s, pa, perm, v);
  }

  /** One more page cleared. */
  lemma ClearedMore(pages0: Pages, pages: Pages, h: Holds, s: Span, v: Vp)
    requires Sized(pages0) && Trees(pages, h.roots, h.tab) && Cleared(pages0, pages, h.roots, s)
    requires s.r in h.roots && IsVp(v) && Vpn(v) == s.lo + s.n && TableAt(pages, LowOf(s.r, v)) in pages
    ensures Cleared(pages0, SetPte(pages, s.r, v, Nil()), h.roots, s.(n := s.n + 1))
  {
    var pages2 := SetPte(pages, s.r, v, Nil());
    forall r', v' | r' in h.roots && IsVp(v')
      ensures Pte(pages2, r', v') == if In(s.(n := s.n + 1), r', v') then Nil() else Pte(pages0, r', v')
    {
      SetPteIs(pages, h.roots, h.tab, s.r, v, Nil(), r', v');
      if Vpn(v') == Vpn(v) { VpnInjective(v, v'); }
    }
  }

  /** Clearing the page after a span takes exactly its frame out of those outside the span. */
  lemma OutsideMore(fr: map<nat, (nat, Vp)>, pages: Pages, own: set<nat>, roots: set<nat>, s: Span, v: Vp)
    requires Sized(pages) && Frames(pages, own, roots, Outside(fr, s))
    requires s.r in roots && IsVp(v) && Vpn(v) == s.lo + s.n && Valid(Pte(pages, s.r, v))
    requires forall f | f in fr :: IsVp(fr[f].1)
    ensures Outside(fr, s) - {Pte(pages, s.r, v).pa} == Outside(fr, s.(n := s.n + 1))
  {
    var f := Pte(pages, s.r, v).pa;
    assert LeafKnown(pages, own, Outside(fr, s), s.r, v);
    assert f in Outside(fr, s) ==> FrameRight(pages, own, roots, Outside(fr, s), f);
    forall g | g in fr && g != f && g in Outside(fr, s) ensures !In(s.(n := s.n + 1), fr[g].0, fr[g].1) {
      assert FrameRight(pages, own, roots, Outside(fr, s), g);
      if fr[g].0 == s.r && Vpn(fr[g].1) == Vpn(v) { VpnInjective(fr[g].1, v); }
    }
    assert Outside(fr, s) - {f} == Outside(fr, s.(n := s.n + 1));
  }

  /** What is in hand after unmapping: the frames no longer mapped, unless they are freed. */
  ghost function Held(doFree: bool, hand: set<nat>, fr: map<nat, (nat, Vp)>, left: map<nat, (nat, Vp)>): (held: set<nat>)
  {
    if doFree then hand else hand + (fr.Keys - left.Keys)
  }

  /** Unmapping frame f of those left: it is freed or put in hand. */
  lemma Release(own: set<nat>, pages: Pages, free: seq<nat>, h: Holds, doFree: bool, hand: set<nat>,
                fr: map<nat, (nat, Vp)>, left: map<nat, (nat, Vp)>, f: nat)
    requires left.Keys <= fr.Keys && f in left && h.fr == left - {f} && f !in Held(doFree, hand, fr, left)
    requires Good(own, pages, free, h, Held(doFree, hand, fr, left) + {f})
    ensures Good(own, pages, if doFree then [f] + free else free, h, Held(doFree, hand, fr, h.fr))
  {
    if doFree {
      Give(own, pages, free, h, hand + {f}, f);
      assert hand + {f} - {f} == hand;
    } else {
      assert Held(doFree, hand, fr, h.fr) == Held(doFree, hand, fr, left) + {f};
    }
  }

  /** A whole turn of uvmunmap: one more page is cleared and its frame released. */
  lemma ClearStep(own: set<nat>, was: Pages, pages: Pages, free: seq<nat>, h: Holds, h': Holds,
                  fr: map<nat, (nat, Vp)>, doFree: bool, hand: set<nat>, s: Span, v: Vp)
    requires Sized(was) && Good(own, pages, free, h, Held(doFree, hand, fr, h.fr)) && Cleared(was, pages, h.roots, s)
    requires h.fr == Outside(fr, s) && h' == h.(fr := Outside(fr, Span(s.r, s.lo, s.n + 1)))
    requires s.r in h.roots && IsVp(v) && Vpn(v) == s.lo + s.n && TableAt(pages, LowOf(s.r, v)) in pages
    requires Valid(Pte(pages, s.r, v)) && (doFree ==> Pte(pages, s.r, v).pa in own) && forall f | f in fr :: IsVp(fr[f].1)
    ensures Good(own, SetPte(pages, s.r, v, Nil()), if doFree then [Pte(pages, s.r, v).pa] + free else free, h',
                 Held(doFree, hand, fr, h'.fr))
    ensures Cleared(was, SetPte(pages, s.r, v, Nil()), h.roots, Span(s.r, s.lo, s.n + 1))
  {
    var held := Held(doFree, hand, fr, h.fr);
    UnmapFrame(own, pages, free, h, held, s.r, v);
    ClearedMore(was, pages, h, s, v);
    OutsideMore(fr, pages, own, h.roots, s, v);
    var f := Pte(pages, s.r, v).pa;
    if f in own {
      assert held + {f} * own == held + {f};
      Release(own, SetPte(pages, s.r, v, Nil()), free, h', doFree, hand, fr, h.fr, f);
    } else {
      assert held + {f} * own == held && h.fr - {f} == h.fr;
    }
  }

  // Pages with contents.

  /** What a page of user memory holds; it is only zeroed and copied. */
  type Content = int

  /** What a virtual page is to hold, and the permissions it is to have. */
  datatype Leaf = Leaf(content: Content, perm: nat)

  ghost predicate MoreThanV(leaf: Leaf) { WithV(leaf.perm) != PTE_V }

  /** Pages so mapped can be unmapped: PTE_V is not their only flag. */
  ghost predicate Clearable(want: imap<Vp, Leaf>) { forall v {:trigger MoreThanV(want[v])} | v in want :: MoreThanV(want[v]) }

  /** What page v is to hold is what e's frame holds. */
  ghost predicate CopyOf(e: Entry, data: map<nat, Content>, want: imap<Vp, Leaf>, v: Vp)
  {
    v in want && e.pa in data && want[v] == Leaf(data[e.pa], e.flags)
  }

  /** The span's pages are to hold what the same pages of tree src hold. */
  ghost predicate CopyAll(pages: Pages, data: map<nat, Content>, src: nat, n: nat, want: imap<Vp, Leaf>)
    requires Sized(pages)
  {
    forall v {:trigger Pte(pages, src, v)} | IsVp(v) && In(Span(src, 0, n), src, v) :: CopyOf(Pte(pages, src, v), data, want, v)
  }

  ghost predicate PageIs(e: Entry, data: map<nat, Content>, leaf: Leaf)
  {
    Valid(e) && e.flags == WithV(leaf.perm) && e.pa in data && data[e.pa] == leaf.content
  }

  /** The entry's page has the flags and the contents of e's, in a frame among own. */
  ghost predicate CopiedPage(e: Entry, data: map<nat, Content>, e': Entry, data': map<nat, Content>, own: set<nat>)
  {
    && e'.flags == e.flags && e'.pa in own && e.pa in data && e'.pa in data' && data'[e'.pa] == data[e.pa]
  }

  /** The span's pages hold, in frames among own, what they are to hold; the rest is as it was. */
  ghost predicate Placed(was: Pages, pages: Pages, data: map<nat, Content>, own: set<nat>, roots: set<nat>, s: Span,
                         want: imap<Vp, Leaf>)
    requires Sized(was) && Sized(pages)
  {
    forall r, v {:trigger Pte(pages, r, v)} | r in roots && IsVp(v) ::
      if In(s, r, v) then v in want && Pte(pages, r, v).pa in own && PageIs(Pte(pages, r, v), data, want[v])
      else Pte(pages, r, v) == Pte(was, r, v)
  }

  /** The frames' contents are as they were. */
  ghost predicate Kept(frs: set<nat>, data: map<nat, Content>, data': map<nat, Content>)
  {
    frs <= data.Keys && frs <= data'.Keys && forall f | f in frs :: data'[f] == data[f]
  }

  lemma KeptMore(frs: set<nat>, all: set<nat>, kept: map<nat, Content>, data: map<nat, Content>, data': map<nat, Content>)
    requires Kept(frs, kept, data) && frs <= all && Kept(all, data, data')
    ensures Kept(frs, kept, data')
  {
    forall f | f in frs ensures data'[f] == kept[f] { assert data[f] == kept[f]; }
  }

  /** Every virtual page translates as before, or translates in neither. */
  ghost predicate Alike(pages: Pages, pages': Pages, roots: set<nat>)
    requires Sized(pages) && Sized(pages')
  {
    forall r, v {:trigger Pte(pages', r, v)} | r in roots && IsVp(v) ::
      Pte(pages', r, v) == Pte(pages, r, v) || (!Valid(Pte(pages', r, v)) && !Valid(Pte(pages, r, v)))
  }

  /** Which frames are mapped, and where, follows from the translations. */
  lemma FramesUnique(pages: Pages, pages': Pages, own: set<nat>, roots: set<nat>, fr: map<nat, (nat, Vp)>, fr': map<nat, (nat, Vp)>)
    requires Sized(pages) && Sized(pages') && Frames(pages, own, roots, fr) && Frames(pages', own, roots, fr') && Alike(pages, pages', roots)
    ensures fr == fr'
  {
    forall f | f in fr ensures f in fr' && fr'[f] == fr[f] {
      assert FrameRight(pages, own, roots, fr, f);
      assert LeafKnown(pages', own, fr', fr[f].0, fr[f].1);
    }
    forall f | f in fr' ensures f in fr {
      assert FrameRight(pages', own, roots, fr', f);
      assert LeafKnown(pages, own, fr, fr'[f].0, fr'[f].1);
    }
  }

  /** One more page placed, in a frame that was mapped nowhere. */
  lemma PlacedMore(was: Pages, pages: Pages, pages': Pages, data: map<nat, Content>, own: set<nat>, roots: set<nat>,
                   fr: map<nat, (nat, Vp)>, s: Span, want: imap<Vp, Leaf>, v: Vp, f: nat)
    requires Sized(was) && Sized(pages) && Sized(pages') && Placed(was, pages, data, own, roots, s, want)
    requires Frames(pages, own, roots, fr) && f !in fr && f in own
    requires s.r in roots && IsVp(v) && Vpn(v) == s.lo + s.n && v in want
    requires Mapped(pages, pages', roots, Span(s.r, s.lo + s.n, 1), f, want[v].perm)
    ensures Placed(was, pages', data[f := want[v].content], own, roots, Span(s.r, s.lo, s.n + 1), want)
  {
    var data' := data[f := want[v].content];
    forall r', v' | r' in roots && IsVp(v')
      ensures if In(Span(s.r, s.lo, s.n + 1), r', v')
              then v' in want && Pte(pages', r', v').pa in own && PageIs(Pte(pages', r', v'), data', want[v'])
              else Pte(pages', r', v') == Pte(was, r', v')
    {
      assert LeafKnown(pages, own, fr, r', v');
      if r' == s.r && Vpn(v') == Vpn(v) {
        VpnInjective(v, v');
        MadeIs(f, want[v].perm);
      }
    }
  }

  /** Placing pages leaves mapped what was mapped. */
  lemma PlacedFrames(was: Pages, pages: Pages, data: map<nat, Content>, own: set<nat>, roots: set<nat>, s: Span,
                     want: imap<Vp, Leaf>, fr0: map<nat, (nat, Vp)>, fr: map<nat, (nat, Vp)>)
    requires Sized(was) && Sized(pages) && Placed(was, pages, data, own, roots, s, want) && s.r in roots && Vacant(was, s)
    requires Frames(was, own, roots, fr0) && Frames(pages, own, roots, fr)
    ensures fr0.Keys <= fr.Keys
  {
    forall f | f in fr0 ensures f in fr {
      assert FrameRight(was, own, roots, fr0, f);
      assert LeafKnown(pages, own, fr, fr0[f].0, fr0[f].1);
      if In(s, fr0[f].0, fr0[f].1) { assert !Valid(Pte(was, s.r, fr0[f].1)); }
    }
  }

  /** Pages stay placed when no translation and no mapped page changes. */
  lemma PlacedSame(was: Pages, pages: Pages, pages': Pages, data: map<nat, Content>, data': map<nat, Content>,
                   own: set<nat>, roots: set<nat>, fr: map<nat, (nat, Vp)>, s: Span, want: imap<Vp, Leaf>)
    requires Sized(was) && Sized(pages) && Sized(pages') && Placed(was, pages, data, own, roots, s, want)
    requires SameView(pages, pages', roots) && Frames(pages, own, roots, fr) && Kept(fr.Keys, data, data')
    ensures Placed(was, pages', data', own, roots, s, want)
  {
    forall r, v | r in roots && IsVp(v)
      ensures if In(s, r, v) then v in want && Pte(pages', r, v).pa in own && PageIs(Pte(pages', r, v), data', want[v])
              else Pte(pages', r, v) == Pte(was, r, v)
    {
      assert Pte(pages', r, v) == Pte(pages, r, v);
      assert LeafKnown(pages, own, fr, r, v);
    }
  }

  /** While a vacant span is being filled, its next page is vacant. */
  lemma NextPlace(was: Pages, pages: Pages, data: map<nat, Content>, own: set<nat>, roots: set<nat>, s: Span,
                  want: imap<Vp, Leaf>, n: nat)
    requires Sized(was) && Sized(pages) && Placed(was, pages, data, own, roots, s, want) && s.r in roots
    requires Vacant(was, Span(s.r, s.lo, n)) && s.n < n
    ensures Vacant(pages, Span(s.r, s.lo + s.n, 1)) && Vacant(was, s)
  {
    forall v | IsVp(v) && In(Span(s.r, s.lo + s.n, 1), s.r, v) ensures !Valid(Pte(pages, s.r, v)) {
      assert Pte(pages, s.r, v) == Pte(was, s.r, v);
    }
    forall v | IsVp(v) && In(s, s.r, v) ensures !Valid(Pte(was, s.r, v)) { }
  }

  /** Memory at some earlier moment: its tables and contents, who held what, and which pages were free. */
  datatype Before = Before(pages: Pages, data: map<nat, Content>, h: Holds, free: set<nat>)

  /**
   Since then done pages of the span s, which was vacant, have been filled as want says. No other
   translation has changed, and no contents but of pages that were free.
   */
  ghost predicate Filled(own: set<nat>, was: Before, pages: Pages, data: map<nat, Content>, s: Span, done: nat, want: imap<Vp, Leaf>)
  {
    && s.r in was.h.roots && Sized(was.pages) && Sized(pages) && Frames(was.pages, own, was.h.roots, was.h.fr)
    && Vacant(was.pages, s) && done <= s.n
    && Placed(was.pages, pages, data, own, was.h.roots, Span(s.r, s.lo, done), want)
    && Kept(was.data.Keys - was.free, was.data, data)
  }

  lemma FillStart(own: set<nat>, was: Before, s: Span, want: imap<Vp, Leaf>)
    requires s.r in was.h.roots && Sized(was.pages) && Frames(was.pages, own, was.h.roots, was.h.fr) && Vacant(was.pages, s)
    ensures Filled(own, was, was.pages, was.data, s, 0, want)
  {
  }

  lemma FillBefore(own: set<nat>, was: Before, pages: Pages, data: map<nat, Content>, s: Span, done: nat, want: imap<Vp, Leaf>,
                   now: map<nat, (nat, Vp)>)
    requires Filled(own, was, pages, data, s, done, want) && done < s.n && Frames(pages, own, was.h.roots, now)
    ensures Vacant(pages, Span(s.r, s.lo + done, 1)) && was.h.fr.Keys <= now.Keys
  {
    NextPlace(was.pages, pages, data, own, was.h.roots, Span(s.r, s.lo, done), want, s.n);
    PlacedFrames(was.pages, pages, data, own, was.h.roots, Span(s.r, s.lo, done), want, was.h.fr, now);
  }

  /** What Place leaves: the frame f, which was free, mapped with what the page is to hold, or nothing changed. */
  ghost predicate PlacedOne(own: set<nat>, was: Before, pages: Pages, data: map<nat, Content>, r: nat, n: nat, f: nat, leaf: Leaf)
    requires Sized(was.pages) && Sized(pages)
  {
    && Kept(was.data.Keys - was.free, was.data, data)
    && if f == 0 then SameView(was.pages, pages, was.h.roots)
       else f in own && f !in was.h.fr && data == was.data[f := leaf.content]
            && Mapped(was.pages, pages, was.h.roots, Span(r, n, 1), f, leaf.perm)
  }

  /** Place, seen as one more page of a span being filled. */
  lemma FillAfter(own: set<nat>, was: Before, mid: Before, pages: Pages, data: map<nat, Content>, s: Span, done: nat,
                  want: imap<Vp, Leaf>, f: nat, v: Vp)
    requires Filled(own, was, mid.pages, mid.data, s, done, want) && done < s.n && mid.h.roots == was.h.roots
    requires Frames(mid.pages, own, mid.h.roots, mid.h.fr) && mid.free <= was.free
    requires mid.h.fr.Keys <= mid.data.Keys - mid.free
    requires v in want && Sized(pages) && PlacedOne(own, mid, pages, data, s.r, s.lo + done, f, want[v])
    requires f != 0 ==> IsVp(v) && Vpn(v) == s.lo + done
    ensures Filled(own, was, pages, data, s, if f != 0 then done + 1 else done, want)
  {
    KeptMore(was.data.Keys - was.free, mid.data.Keys - mid.free, was.data, mid.data, data);
    if f != 0 {
      PlacedMore(was.pages, mid.pages, pages, mid.data, own, was.h.roots, mid.h.fr, Span(s.r, s.lo, done), want, v, f);
    } else {
      PlacedSame(was.pages, mid.pages, pages, mid.data, data, own, was.h.roots, mid.h.fr, Span(s.r, s.lo, done), want);
    }
  }

  /** Placing pages in a vacant span and clearing it again changes no translation. */
  lemma PlacedThenCleared(was: Pages, pages: Pages, pages': Pages, data: map<nat, Content>, own: set<nat>, roots: set<nat>, s: Span,
                          want: imap<Vp, Leaf>)
    requires Sized(was) && Sized(pages) && Sized(pages') && Placed(was, pages, data, own, roots, s, want)
    requires Cleared(pages, pages', roots, s) && s.r in roots && Vacant(was, s)
    ensures Alike(was, pages', roots)
  {
    forall r, v | r in roots && IsVp(v)
      ensures Pte(pages', r, v) == Pte(was, r, v) || (!Valid(Pte(pages', r, v)) && !Valid(Pte(was, r, v)))
    {
      if In(s, r, v) { assert !Valid(Pte(was, s.r, v)); } else { assert Pte(pages, r, v) == Pte(was, r, v); }
    }
  }

  /** Placed pages can be unmapped and freed. */
  lemma PlacedFull(was: Pages, pages: Pages, data: map<nat, Content>, own: set<nat>, roots: set<nat>, s: Span, want: imap<Vp, Leaf>)
    requires Sized(was) && Sized(pages) && Placed(was, pages, data, own, roots, s, want) && s.r in roots && s.lo + s.n <= MAXVPN
    requires Clearable(want)
    ensures Full(pages, s) && FramesIn(pages, own, s)
  {
    forall v | IsVp(v) && In(s, s.r, v)
      ensures Valid(Pte(pages, s.r, v)) && Pte(pages, s.r, v).flags != PTE_V && Pte(pages, s.r, v).pa in own
    {
      assert PageIs(Pte(pages, s.r, v), data, want[v]) && MoreThanV(want[v]);
    }
  }

  // The free list as a set.

  ghost function Listed(free: seq<nat>): (s: set<nat>) { set a | a in free }

  /** The free pages are those that nobody holds. */
  lemma ListedIs(own: set<nat>, free: seq<nat>, tabs: set<nat>, frs: set<nat>, hand: set<nat>)
    requires Parts(own, free, tabs, frs, hand)
    ensures Listed(free) == own - tabs - frs - hand
  {
    forall a ensures a in Listed(free) <==> a in own - tabs - frs - hand { assert OnePart(own, free, tabs, frs, hand, a); }
  }

  /** The old tables are tables still, at their old places, and any new ones are of tree r. */
  ghost predicate Grown(tab: map<nat, Path>, tab': map<nat, Path>, r: nat)
  {
    && tab.Keys <= tab'.Keys && (forall p | p in tab :: tab'[p] == tab[p])
    && forall p | p in tab' && p !in tab :: tab'[p].r == r
  }

  /** If only tables were added, the free pages are the old ones but those, and all of them only if there are none. */
  lemma OnlyTables(own: set<nat>, was: set<nat>, free: seq<nat>, h: Holds, h': Holds, hand: set<nat>, r: nat)
    requires was == own - h.tab.Keys - h.fr.Keys - hand && Parts(own, free, h'.tab.Keys, h'.fr.Keys, hand)
    requires Grown(h.tab, h'.tab, r) && h'.fr == h.fr
    ensures Listed(free) == was - (h'.tab.Keys - h.tab.Keys)
    ensures Listed(free) == was <==> h'.tab == h.tab
  {
    ListedIs(own, free, h'.tab.Keys, h'.fr.Keys, hand);
    PartsApart(own, free, h'.tab.Keys, h'.fr.Keys, hand);
    if Listed(free) == was {
      forall p | p in h'.tab ensures p in h.tab {
        assert p in own && p !in h'.fr.Keys && p !in hand && p !in Listed(free);
      }
      assert h'.tab == h.tab;
    }
  }

  /** Mapped frames are not free. */
  lemma NotFree(own: set<nat>, all: set<nat>, free: seq<nat>, h: Holds, hand: set<nat>)
    requires Parts(own, free, h.tab.Keys, h.fr.Keys, hand) && own <= all
    ensures h.fr.Keys <= all - Listed(free)
  {
    ListedIs(own, free, h.tab.Keys, h.fr.Keys, hand);
    PartsApart(own, free, h.tab.Keys, h.fr.Keys, hand);
  }

  /** A span filled and cleared again: no translation and no frame is left of it. */
  lemma Undone(own: set<nat>, was: Before, placed: Pages, pages: Pages, data: map<nat, Content>, free: seq<nat>, h: Holds, hand: set<nat>,
               s: Span, done: nat, want: imap<Vp, Leaf>)
    requires Filled(own, was, placed, data, s, done, want) && Good(own, pages, free, h, hand) && h.roots == was.h.roots
    requires Cleared(placed, pages, h.roots, Span(s.r, s.lo, done)) && Grown(was.h.tab, h.tab, s.r)
    requires was.free == own - was.h.tab.Keys - was.h.fr.Keys - hand
    ensures Alike(was.pages, pages, h.roots) && h.fr == was.h.fr
    ensures Listed(free) == was.free - (h.tab.Keys - was.h.tab.Keys)
    ensures Listed(free) == was.free <==> h.tab == was.h.tab
  {
    var part := Span(s.r, s.lo, done);
    forall v | IsVp(v) && In(part, s.r, v) ensures !Valid(Pte(was.pages, s.r, v)) { }
    PlacedThenCleared(was.pages, placed, pages, data, own, h.roots, part, want);
    FramesUnique(was.pages, pages, own, h.roots, was.h.fr, h.fr);
    OnlyTables(own, was.free, free, was.h, h, hand, s.r);
  }

  lemma FramesVp(pages: Pages, own: set<nat>, roots: set<nat>, fr: map<nat, (nat, Vp)>, s: Span)
    requires Sized(pages) && Frames(pages, own, roots, fr) && s.n == 0
    ensures forall f | f in fr :: IsVp(fr[f].1)
    ensures Outside(fr, s) == fr
  {
    forall f | f in fr ensures IsVp(fr[f].1) { assert FrameRight(pages, own, roots, fr, f); }
  }

  // Removing tables.

  /** No virtual page below the table at path is mapped. */
  ghost predicate NoLeaves(pages: Pages, path: Path)
    requires Sized(pages)
  {
    forall v {:trigger Pte(pages, path.r, v)} | IsVp(v) && Under(path, LowOf(path.r, v)) :: !Valid(Pte(pages, path.r, v))
  }

  lemma FramesAlike(pages: Pages, pages': Pages, own: set<nat>, roots: set<nat>, fr: map<nat, (nat, Vp)>)
    requires Sized(pages) && Sized(pages') && Frames(pages, own, roots, fr) && Alike(pages, pages', roots)
    ensures Frames(pages', own, roots, fr)
  {
    forall r, v | r in roots && IsVp(v) ensures LeafKnown(pages', own, fr, r, v) { assert LeafKnown(pages, own, fr, r, v); }
    forall f | f in fr ensures FrameRight(pages', own, roots, fr, f) { assert FrameRight(pages, own, roots, fr, f); }
  }

  /** Cutting off a subtree without leaves changes no translation. */
  lemma CutAlike(pages: Pages, roots: set<nat>, tab: map<nat, Path>, path: Path)
    requires Trees(pages, roots, tab) && IsPath(path) && path.r in roots && !path.Root? && TableAt(pages, path) != 0
    requires NoLeaves(pages, path)
    ensures SlotOf(pages, path).0 in pages && Sized(Cut(pages, tab, path)) && Alike(pages, Cut(pages, tab, path), roots)
  {
    CutSized(pages, roots, tab, path);
    var pages' := Cut(pages, tab, path);
    forall r, v | r in roots && IsVp(v)
      ensures Pte(pages', r, v) == Pte(pages, r, v) || (!Valid(Pte(pages', r, v)) && !Valid(Pte(pages, r, v)))
    {
      var low := LowOf(r, v);
      CutTableAt(pages, roots, tab, path, low);
      TableHas(pages, roots, tab, low);
      TableHas(pages, roots, tab, Mid(path.r, path.i));
      if Under(path, low) { assert !Valid(Pte(pages, path.r, v)); }
    }
  }

  lemma CutPointers(pages: Pages, roots: set<nat>, tab: map<nat, Path>, path: Path)
    requires Trees(pages, roots, tab) && IsPath(path) && path.r in roots && !path.Root? && TableAt(pages, path) != 0
    requires Pointers(pages, tab)
    ensures SlotOf(pages, path).0 in pages && Sized(Cut(pages, tab, path))
    ensures Pointers(Cut(pages, tab, path), tab - Subtree(tab, path))
  {
    CutSized(pages, roots, tab, path);
    var (pages', tab') := (Cut(pages, tab, path), tab - Subtree(tab, path));
    forall p, k | p in tab' && p in pages' && !tab'[p].Low? && 0 <= k < ENTRIES ensures PointsOn(pages'[p][k]) {
      assert PointsOn(pages[p][k]);
    }
  }

  /** Once the pages of a subtree without leaves are freed, clearing its entry restores Good. */
  lemma CutGood(own: set<nat>, pages: Pages, free: seq<nat>, free': seq<nat>, h: Holds, hand: set<nat>, path: Path)
    requires Good(own, pages, free, h, hand) && IsPath(path) && path.r in h.roots && !path.Root?
    requires TableAt(pages, path) != 0 && NoLeaves(pages, path)
    requires Parts(own, free', (h.tab - Subtree(h.tab, path)).Keys, h.fr.Keys, hand)
    ensures SlotOf(pages, path).0 in pages
    ensures Good(own, Cut(pages, h.tab, path), free', h.(tab := h.tab - Subtree(h.tab, path)), hand)
    ensures Alike(pages, Cut(pages, h.tab, path), h.roots)
  {
    CutTrees(pages, h.roots, h.tab, path);
    CutAlike(pages, h.roots, h.tab, path);
    FramesAlike(pages, Cut(pages, h.tab, path), own, h.roots, h.fr);
    CutPointers(pages, h.roots, h.tab, path);
  }

  /** A table none of whose entries is in use has nothing below it. */
  lemma EmptyTable(pages: Pages, roots: set<nat>, tab: map<nat, Path>, path: Path)
    requires Trees(pages, roots, tab) && IsPath(path) && path.r in roots && TableAt(pages, path) in pages
    requires forall k | 0 <= k < ENTRIES :: !Valid(pages[TableAt(pages, path)][k])
    ensures Subtree(tab, path) == {TableAt(pages, path)}
  {
    TableHas(pages, roots, tab, path);
    forall p | p in tab && Under(path, tab[p]) ensures p == TableAt(pages, path) { assert TabRight(pages, roots, tab, p); }
  }

  /** A table's page is freed. */
  lemma GiveTable(own: set<nat>, free: seq<nat>, tabs: set<nat>, frs: set<nat>, hand: set<nat>, p: nat)
    requires Parts(own, free, tabs, frs, hand) && p in tabs
    ensures p in own && Parts(own, [p] + free, tabs - {p}, frs, hand)
  {
    var more := [p] + free;
    assert OnePart(own, free, tabs, frs, hand, p);
    forall i, j ensures Differ(more, i, j) { assert Differ(free, i - 1, j - 1); }
    forall a ensures OnePart(own, more, tabs - {p}, frs, hand, a) { assert OnePart(own, free, tabs, frs, hand, a); }
  }

  /** The frames of the other trees. */
  ghost function Others(fr: map<nat, (nat, Vp)>, r: nat): (rest: map<nat, (nat, Vp)>)
  {
    map f | f in fr && fr[f].0 != r :: fr[f]
  }

  /** A tree without leaves and without pages can be forgotten. */
  lemma TreeGone(own: set<nat>, pages: Pages, free: seq<nat>, free': seq<nat>, h: Holds, hand: set<nat>, r: nat)
    requires Good(own, pages, free, h, hand) && r in h.roots && NoLeaves(pages, Root(r))
    requires Parts(own, free', (h.tab - Subtree(h.tab, Root(r))).Keys, h.fr.Keys, hand)
    ensures Good(own, pages - Subtree(h.tab, Root(r)), free', Holds(h.roots - {r}, h.tab - Subtree(h.tab, Root(r)), h.fr), hand)
    ensures SameView(pages, pages - Subtree(h.tab, Root(r)), h.roots - {r})
    ensures forall f | f in h.fr :: h.fr[f].0 != r
  {
    var (gone, roots') := (Subtree(h.tab, Root(r)), h.roots - {r});
    var (pages', tab') := (pages - gone, h.tab - gone);
    RemoveTree(pages, h.roots, h.tab, r);
    forall x, v | x in roots' && IsVp(v) ensures LeafKnown(pages', own, h.fr, x, v) { assert LeafKnown(pages, own, h.fr, x, v); }
    forall f | f in h.fr ensures FrameRight(pages', own, roots', h.fr, f) && h.fr[f].0 != r {
      assert FrameRight(pages, own, h.roots, h.fr, f);
    }
    forall p, k | p in tab' && p in pages' && !tab'[p].Low? && 0 <= k < ENTRIES ensures PointsOn(pages'[p][k]) {
      assert PointsOn(pages[p][k]);
    }
  }
}
