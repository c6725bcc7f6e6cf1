/**
 kalloc, kfree, walk and the uvm functions as the kernel runs them, with every page of memory
 accounted for. Address arithmetic does not wrap.
 */
module VmDriver {
  import opened PageTable
  import opened VmState

  const ZEROED: Content := 0

  function RoundUp(n: nat): (r: nat)
    ensures r % PGSIZE == 0 && n <= r < n + PGSIZE
  {
    (n + PGSIZE - 1) / PGSIZE * PGSIZE
  }

  ghost predicate WholePage(start: nat, end: nat, p: nat) { p % PGSIZE == 0 && start <= p && p + PGSIZE <= end }

  ghost function WholePages(start: nat, end: nat): (s: set<nat>)
    ensures forall p :: p in s <==> WholePage(start, end, p)
  {
    set p: nat | p <= end && WholePage(start, end, p)
  }

  /** How many pages the bytes from va to va + size touch. */
  function PageCount(va: nat, size: nat): (n: nat)
    requires size > 0
    ensures n > 0
  {
    (va + size - 1) / PGSIZE - va / PGSIZE + 1
  }

  /** The whole pages between two sizes. */
  ghost function Between(r: nat, newsz: nat, oldsz: nat): (s: Span)
    requires newsz <= oldsz
  {
    Span(r, RoundUp(newsz) / PGSIZE, (RoundUp(oldsz) - RoundUp(newsz)) / PGSIZE)
  }

  /** PTE_R | PTE_U | perm. */
  function UserPerm(perm: nat): (p: nat)
    ensures p >= 2
  {
    var p := SetFlag(SetFlag(perm, 1), 4);
    UserFlags(perm, 1);
    p
  }

  /** Exactly the flags asked for, PTE_R and PTE_U. */
  lemma UserFlags(perm: nat, k: nat)
    ensures HasFlag(SetFlag(SetFlag(perm, 1), 4), k) <==> k == 1 || k == 4 || HasFlag(perm, k)
  {
    SetFlagIs(perm, 1, k);
    SetFlagIs(SetFlag(perm, 1), 4, k);
  }

  /** Zeroed pages with user permissions. */
  ghost function Zeroed(xperm: nat): (want: imap<Vp, Leaf>)
    ensures Clearable(want)
  {
    imap v: Vp | IsVp(v) :: Leaf(ZEROED, UserPerm(xperm))
  }

  /** The contents and flags of a tree's pages. */
  ghost function Copied(pages: Pages, data: map<nat, Content>, src: nat): (want: imap<Vp, Leaf>)
    requires Sized(pages)
    ensures Clearable(want)
  {
    imap v: Vp | IsVp(v) && Valid(Pte(pages, src, v)) && Pte(pages, src, v).flags != PTE_V && Pte(pages, src, v).pa in data ::
      Leaf(data[Pte(pages, src, v).pa], Pte(pages, src, v).flags)
  }

  /** A zeroed page in a frame among own, with PTE_V, PTE_R, PTE_U and exactly the flags of xperm. */
  ghost predicate UserPage(e: Entry, data: map<nat, Content>, own: set<nat>, xperm: nat)
  {
    && e.pa in own && e.pa in data && data[e.pa] == 0
    && forall k: nat {:trigger HasFlag(e.flags, k)} :: HasFlag(e.flags, k) <==> k == 0 || k == 1 || k == 4 || HasFlag(xperm, k)
  }

  lemma ZeroedIs(e: Entry, data: map<nat, Content>, own: set<nat>, xperm: nat)
    requires e.pa in own && PageIs(e, data, Leaf(ZEROED, UserPerm(xperm)))
    ensures UserPage(e, data, own, xperm)
  {
    forall k: nat ensures HasFlag(e.flags, k) <==> k == 0 || k == 1 || k == 4 || HasFlag(xperm, k) {
      MadeFlags(e.pa, UserPerm(xperm), k);
      UserFlags(xperm, k);
    }
  }

  /** The whole pages between two sizes are those that start between them. */
  lemma BetweenIs(r: nat, newsz: nat, oldsz: nat, v: Vp)
    requires newsz <= oldsz
    ensures In(Between(r, newsz, oldsz), r, v) <==> newsz <= Vpn(v) * PGSIZE < oldsz
  {
  }

  lemma NewPages(was: Pages, pages: Pages, data: map<nat, Content>, own: set<nat>, roots: set<nat>, r: nat, oldsz: nat, newsz: nat, xperm: nat)
    requires Sized(was) && Sized(pages) && r in roots && oldsz <= newsz
    requires Placed(was, pages, data, own, roots, Between(r, oldsz, newsz), Zeroed(xperm))
    ensures forall v {:trigger Pte(pages, r, v)} | IsVp(v) && oldsz <= Vpn(v) * PGSIZE < newsz ::
              UserPage(Pte(pages, r, v), data, own, xperm)
  {
    forall v | IsVp(v) && oldsz <= Vpn(v) * PGSIZE < newsz ensures UserPage(Pte(pages, r, v), data, own, xperm) {
      BetweenIs(r, oldsz, newsz, v);
      ZeroedIs(Pte(pages, r, v), data, own, xperm);
    }
  }

  lemma CopiedFrom(was: Pages, data0: map<nat, Content>, pages: Pages, data: map<nat, Content>, own: set<nat>, roots: set<nat>,
                    src: nat, dst: nat, sz: nat)
    requires Sized(was) && Sized(pages) && dst in roots
    requires Full(was, Between(src, 0, sz)) && FramesIn(was, data0.Keys, Between(src, 0, sz))
    requires Placed(was, pages, data, own, roots, Between(dst, 0, sz), Copied(was, data0, src))
    ensures forall v {:trigger Pte(pages, dst, v)} | IsVp(v) && Vpn(v) * PGSIZE < sz ::
              CopiedPage(Pte(was, src, v), data0, Pte(pages, dst, v), data, own)
  {
    forall v | IsVp(v) && Vpn(v) * PGSIZE < sz ensures CopiedPage(Pte(was, src, v), data0, Pte(pages, dst, v), data, own) {
      BetweenIs(dst, 0, sz, v);
      BetweenIs(src, 0, sz, v);
    }
  }

  /** Walk's path to a leaf entry, by level. */
  ghost function PathAt(r: nat, v: Vp, level: nat): (path: Path)
    requires IsVp(v)
    ensures IsPath(path) && path.r == r
  {
    if level == 2 then Root(r) else if level == 1 then Mid(r, v.i2) else LowOf(r, v)
  }

  lemma CopiedAll(pages: Pages, data: map<nat, Content>, src: nat, n: nat)
    requires Sized(pages) && Full(pages, Span(src, 0, n)) && FramesIn(pages, data.Keys, Span(src, 0, n))
    ensures CopyAll(pages, data, src, n, Copied(pages, data, src))
  {
  }

  ghost function Height(path: Path): (n: nat) { if path.Root? then 2 else if path.Mid? then 1 else 0 }

  /** The table that entry i of the table at path points to. */
  ghost function Child(path: Path, i: nat): (child: Path)
    requires !path.Low?
  {
    if path.Root? then Mid(path.r, i) else Low(path.r, path.i, i)
  }

  /** In a subtree without leaves, an entry in use points to a table below. */
  lemma EntryKind(pages: Pages, roots: set<nat>, tab: map<nat, Path>, path: Path, i: nat)
    requires Trees(pages, roots, tab) && Pointers(pages, tab) && IsPath(path) && path.r in roots && i < ENTRIES
    requires TableAt(pages, path) in pages && NoLeaves(pages, path)
    ensures Valid(pages[TableAt(pages, path)][i]) ==>
              !path.Low? && !IsLeaf(pages[TableAt(pages, path)][i]) && pages[TableAt(pages, path)][i].pa != 0
  {
    TableHas(pages, roots, tab, path);
    if path.Low? {
      assert !Valid(Pte(pages, path.r, Vp(path.i, path.j, i)));
    } else {
      assert PointsOn(pages[TableAt(pages, path)][i]);
    }
  }

  /** Keeping count of what is removed from the tables while one of them, pt, is being emptied. */
  lemma RemovedMore(was: Pages, pages: Pages, tab: map<nat, Path>, done: set<nat>, below: set<nat>, pt: nat, row: seq<Entry>)
    requires pages - {pt} == was - done - {pt}
    ensures (pages - below)[pt := row] - {pt} == was - (done + below) - {pt}
    ensures tab - done - below == tab - (done + below)
  {
    var (left, right) := ((pages - below)[pt := row] - {pt}, was - (done + below) - {pt});
    forall p ensures p in left <==> p in right {
      assert p in pages - {pt} <==> p in was - done - {pt};
    }
    forall p | p in left ensures left[p] == right[p] {
      assert (pages - {pt})[p] == (was - done - {pt})[p];
    }
  }

  lemma NoLeavesBelow(pages: Pages, path: Path, i: nat)
    requires Sized(pages) && NoLeaves(pages, path) && !path.Low?
    ensures NoLeaves(pages, Child(path, i))
  {
  }

  lemma NoLeavesAlike(pages: Pages, pages': Pages, roots: set<nat>, path: Path)
    requires Sized(pages) && Sized(pages') && NoLeaves(pages, path) && Alike(pages, pages', roots) && path.r in roots
    ensures NoLeaves(pages', path)
  {
    forall v | IsVp(v) && Under(path, LowOf(path.r, v)) ensures !Valid(Pte(pages', path.r, v)) {
      assert !Valid(Pte(pages, path.r, v));
    }
  }

  /** The free list holds the whole pages below p, the last one first. */
  ghost predicate FreedTo(start: nat, end: nat, free: seq<nat>, p: nat)
  {
    && (forall i, j | 0 <= i < j < |free| :: free[i] > free[j])
    && (forall a: nat :: a in free <==> WholePage(start, end, a) && a < p)
  }

  lemma FreedNext(start: nat, end: nat, free: seq<nat>, p: nat)
    requires FreedTo(start, end, free, p) && WholePage(start, end, p)
    ensures FreedTo(start, end, [p] + free, p + PGSIZE)
  {
    var free' := [p] + free;
    forall i, j | 0 <= i < j < |free'| ensures free'[i] > free'[j] { assert free'[j] == free[j - 1] && free[j - 1] in free; }
    forall a: nat ensures a in free' <==> WholePage(start, end, a) && a < p + PGSIZE {
      assert a in free' <==> a == p || a in free;
    }
  }

  lemma FreedAll(start: nat, end: nat, free: seq<nat>, p: nat)
    requires start > 0 && FreedTo(start, end, free, p) && end < p + PGSIZE
    ensures Parts(WholePages(start, end), free, {}, {}, {})
  {
    forall i, j ensures Differ(free, i, j) { }
    forall a ensures OnePart(WholePages(start, end), free, {}, {}, {}, a) { }
  }

  class Vm {
    ghost const managed: set<nat>
    var pages: Pages
    var free: seq<nat>
    var data: map<nat, Content>
    ghost var h: Holds

    ghost predicate Ok(hand: set<nat>)
      reads this
    {
      Good(managed, pages, free, h, hand) && managed <= data.Keys
    }

    /** kinit and freerange: every whole page between start and end is free, and there is no table and no frame yet. */
    constructor (start: nat, end: nat, memory: map<nat, Content>)
      requires start > 0 && WholePages(start, end) <= memory.Keys
      ensures Ok({}) && h == Holds({}, map[], map[]) && managed == WholePages(start, end)
    {
      managed := WholePages(start, end);
      pages, free, data := map[], [], memory;
      h := Holds({}, map[], map[]);
      new;
      var p := RoundUp(start);
      while p + PGSIZE <= end
        invariant p % PGSIZE == 0 && start <= p && (p == RoundUp(start) || p <= end)
        invariant pages == map[] && data == memory && h == Holds({}, map[], map[])
        invariant FreedTo(start, end, free, p)
        decreases end - p
      {
        assert WholePage(start, end, p) && p in managed;
        FreedNext(start, end, free, p);
        Kfree(p, {});
        p := p + PGSIZE;
      }
      FreedAll(start, end, free, p);
    }

    /** kalloc; 0 when no page is free. */
    method Kalloc(ghost hand: set<nat>) returns (p: nat)
      requires Ok(hand)
      modifies this`free
      ensures p == 0 <==> old(free) == []
      ensures p == 0 ==> free == []
      ensures p != 0 ==> p == old(free)[0] && free == old(free)[1..] && p in managed && p !in hand && p !in h.fr
      ensures Ok(if p == 0 then hand else hand + {p})
    {
      if free == [] { return 0; }
      Take(managed, pages, free, h, hand);
      p := free[0];
      free := free[1..];
    }

    /** kfree: a page that was in hand is free, and all pages are accounted for as before. */
    method Kfree(p: nat, ghost hand: set<nat>)
      requires p in managed
      modifies this`free
      ensures free == [p] + old(free)
      ensures old(Ok(hand)) && p in hand ==> Ok(hand - {p})
    {
      if Ok(hand) && p in hand { Give(managed, pages, free, h, hand, p); }
      free := [p] + free;
    }

    /** walk's allocation of the table at path, whose entry is pt's entry i. */
    method Allocate(ghost path: Path, pt: nat, i: nat, ghost hand: set<nat>) returns (q: nat)
      requires Ok(hand) && IsPath(path) && path.r in h.roots && !path.Root? && TableAt(pages, path) == 0
      requires SlotOf(pages, path) == (pt, i) && pt in pages
      modifies this`pages, this`free, this`h
      ensures Ok(hand) && h == old(h).(tab := h.tab) && Grown(old(h.tab), h.tab, path.r) && SameView(old(pages), pages, h.roots)
      ensures q == TableAt(pages, path) && (q != 0 ==> q in pages)
      ensures q == 0 ==> pages == old(pages) && h == old(h) && free == old(free) == []
      ensures |free| >= |old(free)| - 1
    {
      q := Kalloc(hand);
      if q == 0 { return; }
      var grown := SetEntry(pages, pt, i, Made(q, 0))[q := ZeroTable()];
      assert grown == Linked(pages, path, q);
      Grow(managed, pages, free, h, hand, path, q);
      pages, h := grown, h.(tab := h.tab[q := path]);
    }

    /** One turn of walk's loop: from the table pt, through its entry i, to the table at path. */
    method Descend(ghost path: Path, pt: nat, i: nat, alloc: bool, ghost hand: set<nat>) returns (q: nat)
      requires Ok(hand) && IsPath(path) && path.r in h.roots && !path.Root?
      requires SlotOf(pages, path) == (pt, i) && pt in pages && !h.tab[pt].Low?
      modifies this`pages, this`free, this`h
      ensures Ok(hand) && h == old(h).(tab := h.tab) && Grown(old(h.tab), h.tab, path.r) && SameView(old(pages), pages, h.roots)
      ensures q == TableAt(pages, path) && (q != 0 ==> q in pages)
      ensures q == 0 || !alloc || TableAt(old(pages), path) != 0 ==> pages == old(pages) && h == old(h) && free == old(free)
      ensures q == 0 && alloc ==> free == []
      ensures |free| >= |old(free)| - 1
    {
      if Valid(pages[pt][i]) {
        TableHas(pages, h.roots, h.tab, path);
        assert PointsOn(pages[pt][i]);
        return pages[pt][i].pa;
      }
      if !alloc { return 0; }
      q := Allocate(path, pt, i, hand);
    }

    /** walk: the page and index of va's leaf entry; page 0 stands for its null pointer. */
    method Walk(r: nat, va: nat, alloc: bool, ghost hand: set<nat>) returns (p: nat, i: nat)
      requires Ok(hand) && r in h.roots
      modifies this`pages, this`free, this`h
      ensures Ok(hand) && h == old(h).(tab := h.tab) && Grown(old(h.tab), h.tab, r) && SameView(old(pages), pages, h.roots)
      ensures p != 0 ==> va < MAXVA && p in pages && (p, i) == (TableAt(pages, LowOf(r, VpOf(va))), VpOf(va).i0)
      ensures va >= MAXVA || !alloc || TableAt(old(pages), LowOf(r, VpOf(va))) != 0 ==>
                pages == old(pages) && h == old(h) && free == old(free)
      ensures p == 0 ==> va >= MAXVA || (if alloc then |old(free)| <= 1 else TableAt(pages, LowOf(r, VpOf(va))) == 0)
      ensures |free| >= |old(free)| - 2
    {
      if va >= MAXVA { return 0, 0; }
      ghost var v := VpOf(va);
      TableHas(pages, h.roots, h.tab, Root(r));
      var pt, level := r, 2;
      while level > 0
        invariant 0 <= level <= 2 && Ok(hand) && pt == TableAt(pages, PathAt(r, v, level)) && pt in pages
        invariant h == old(h).(tab := h.tab) && Grown(old(h.tab), h.tab, r) && SameView(old(pages), pages, h.roots)
        invariant !alloc || TableAt(old(pages), LowOf(r, v)) != 0 ==>
                    pages == old(pages) && h == old(h) && free == old(free)
        invariant |free| >= |old(free)| - (2 - level)
      {
        TableHas(pages, h.roots, h.tab, PathAt(r, v, level));
        pt := Descend(PathAt(r, v, level - 1), pt, Px(level, va), alloc, hand);
        if pt == 0 { return 0, 0; }
        level := level - 1;
      }
      return pt, Px(0, va);
    }

    /** Since then the span has been mapped to consecutive frames from pa on, and nothing unmapped. */
    ghost predicate Mapping(was: Before, s: Span, pa: nat, perm: nat, hand: set<nat>)
      reads this
    {
      && Ok(hand - Run(pa, s.n)) && h.roots == was.h.roots && s.r in h.roots && Sized(was.pages)
      && Mapped(was.pages, pages, h.roots, s, pa, perm) && Grown(was.h.tab, h.tab, s.r) && was.h.fr.Keys <= h.fr.Keys
    }

    /** One turn of mappages' loop: the page after the span s, to the frame at. */
    method MapNext(r: nat, ghost was: Before, ghost s: Span, ghost n: nat, a: nat, ghost pa: nat, at: nat, perm: nat, ghost hand: set<nat>)
      returns (ok: bool)
      requires Mapping(was, s, pa, perm, hand) && s.r == r && s.n < n
      requires Run(pa, n) * managed <= hand && Vacant(was.pages, Span(r, s.lo, n))
      requires a == (s.lo + s.n) * PGSIZE && at == pa + s.n * PGSIZE
      modifies this`pages, this`free, this`h
      ensures Mapping(was, if ok then Span(r, s.lo, s.n + 1) else s, pa, perm, hand)
      ensures if ok then a < MAXVA else a >= MAXVA || |old(free)| <= 1
      ensures |free| >= |old(free)| - 2
    {
      RunMore(managed, pa, s.n, n, hand);
      NextVacant(was.pages, pages, h.roots, s, pa, perm, n, a);
      ghost var (pages0, left) := (pages, hand - Run(pa, s.n));
      var p, i := Walk(r, a, true, left);
      if p == 0 {
        MappedSame(was.pages, pages0, pages, h.roots, s, pa, perm);
        return false;
      }
      ghost var v := VpOf(a);
      VpnOf(a);
      MapStep(managed, was.pages, pages0, pages, free, h, left, s, pa, at, perm, v);
      var set' := SetEntry(pages, p, i, Made(at, perm));
      assert set' == SetPte(pages, r, v, Made(at, perm));
      pages, h := set', h.(fr := Added(managed, h.fr, at, r, v));
      return true;
    }

    /**
     mappages; done is the number of pages mapped. The frames are in hand, or not managed by the
     kernel. Mapping a page twice is the kernel's panic; when walk cannot allocate, the pages before
     stay mapped.
     */
    method Mappages(r: nat, va: nat, size: nat, pa: nat, perm: nat, ghost hand: set<nat>) returns (ok: bool, ghost done: nat)
      requires Ok(hand) && r in h.roots && size > 0
      requires Run(pa, PageCount(va, size)) * managed <= hand && Vacant(pages, Span(r, va / PGSIZE, PageCount(va, size)))
      modifies this`pages, this`free, this`h
      ensures Ok(hand - Run(pa, done)) && h.roots == old(h.roots)
      ensures Grown(old(h.tab), h.tab, r) && old(h.fr).Keys <= h.fr.Keys
      ensures Mapped(old(pages), pages, h.roots, Span(r, va / PGSIZE, done), pa, perm)
      ensures if ok then done == PageCount(va, size)
              else done < PageCount(va, size) && (va / PGSIZE + done >= MAXVPN || |old(free)| <= 2 * done + 1)
      ensures done > 0 ==> va / PGSIZE + done <= MAXVPN
      ensures |free| >= |old(free)| - 2 * (if ok then done else done + 1)
      ensures forall v {:trigger Pte(pages, r, v)} | IsVp(v) && va / PGSIZE <= Vpn(v) < va / PGSIZE + done ::
                MapsTo(Pte(pages, r, v), pa + (Vpn(v) - va / PGSIZE) * PGSIZE, perm)
    {
      ok, done := MapRun(r, va, size, pa, perm, hand);
      forall v | IsVp(v) && va / PGSIZE <= Vpn(v) < va / PGSIZE + done
        ensures MapsTo(Pte(pages, r, v), pa + (Vpn(v) - va / PGSIZE) * PGSIZE, perm)
      {
        MadeMapsTo(pa + (Vpn(v) - va / PGSIZE) * PGSIZE, perm);
      }
    }

    /** The loop of mappages. */
    method MapRun(r: nat, va: nat, size: nat, pa: nat, perm: nat, ghost hand: set<nat>) returns (ok: bool, ghost done: nat)
      requires Ok(hand) && r in h.roots && size > 0
      requires Run(pa, PageCount(va, size)) * managed <= hand && Vacant(pages, Span(r, va / PGSIZE, PageCount(va, size)))
      modifies this`pages, this`free, this`h
      ensures Ok(hand - Run(pa, done)) && h.roots == old(h.roots)
      ensures Grown(old(h.tab), h.tab, r) && old(h.fr).Keys <= h.fr.Keys
      ensures Mapped(old(pages), pages, h.roots, Span(r, va / PGSIZE, done), pa, perm)
      ensures if ok then done == PageCount(va, size)
              else done < PageCount(va, size) && (va / PGSIZE + done >= MAXVPN || |old(free)| <= 2 * done + 1)
      ensures done > 0 ==> va / PGSIZE + done <= MAXVPN
      ensures |free| >= |old(free)| - 2 * (if ok then done else done + 1)
    {
      var a, at, last := va / PGSIZE * PGSIZE, pa, (va + size - 1) / PGSIZE * PGSIZE;
      ok, done := true, 0;
      ghost var lo, n := va / PGSIZE, PageCount(va, size);
      assert last == (lo + n - 1) * PGSIZE && hand - Run(pa, 0) == hand;
      while true
        invariant done < n && a == (lo + done) * PGSIZE && at == pa + done * PGSIZE
        invariant Mapping(old(Now()), Span(r, lo, done), pa, perm, hand)
        invariant |free| >= |old(free)| - 2 * done && (done > 0 ==> lo + done <= MAXVPN)
        decreases n - done
      {
        ok := MapNext(r, old(Now()), Span(r, lo, done), n, a, pa, at, perm, hand);
        if !ok { return; }
        done := done + 1;
        if a == last { return; }
        a, at := a + PGSIZE, at + PGSIZE;
      }
    }

    /** One turn of uvmunmap's loop: the page after the span s. */
    method UnmapNext(r: nat, ghost was: Pages, ghost s: Span, ghost fr: map<nat, (nat, Vp)>, a: nat, doFree: bool, ghost hand: set<nat>)
      requires Ok(Held(doFree, hand, fr, h.fr)) && s.r == r && r in h.roots && Sized(was) && Cleared(was, pages, h.roots, s)
      requires h.fr == Outside(fr, s) && (forall f | f in fr :: IsVp(fr[f].1))
      requires a == (s.lo + s.n) * PGSIZE && a < MAXVA && Valid(Pte(pages, s.r, VpOf(a)))
      requires doFree ==> Pte(pages, s.r, VpOf(a)).pa in managed
      modifies this`pages, this`free, this`h
      ensures Ok(Held(doFree, hand, fr, h.fr))
      ensures h.roots == old(h.roots) && h.tab == old(h.tab) && h.fr == Outside(fr, Span(r, s.lo, s.n + 1))
      ensures Cleared(was, pages, h.roots, Span(r, s.lo, s.n + 1))
      ensures |free| == |old(free)| + if doFree then 1 else 0
    {
      var p, i := Walk(r, a, false, Held(doFree, hand, fr, h.fr));
      ghost var (v, h') := (VpOf(a), h.(fr := Outside(fr, Span(r, s.lo, s.n + 1))));
      VpnOf(a);
      ClearStep(managed, was, pages, free, h, h', fr, doFree, hand, s, v);
      var (pa, cleared) := (pages[p][i].pa, SetEntry(pages, p, i, Nil()));
      assert cleared == SetPte(pages, r, v, Nil());
      if doFree { Kfree(pa, {}); }
      pages, h := cleared, h';
    }

    /** uvmunmap; an unmapped page in the range is the kernel's panic, and so is freeing a frame that it does not manage. */
    method Uvmunmap(r: nat, va: nat, npages: nat, doFree: bool, ghost hand: set<nat>)
      requires Ok(hand) && r in h.roots && va % PGSIZE == 0 && Full(pages, Span(r, va / PGSIZE, npages))
      requires doFree ==> FramesIn(pages, managed, Span(r, va / PGSIZE, npages))
      modifies this`pages, this`free, this`h
      ensures Ok(Held(doFree, hand, old(h.fr), h.fr))
      ensures h.roots == old(h.roots) && h.tab == old(h.tab) && h.fr == Outside(old(h.fr), Span(r, va / PGSIZE, npages))
      ensures Cleared(old(pages), pages, h.roots, Span(r, va / PGSIZE, npages))
      ensures |free| == |old(free)| + if doFree then npages else 0
    {
      ghost var lo, fr, done := va / PGSIZE, h.fr, 0;
      FramesVp(pages, managed, h.roots, fr, Span(r, lo, 0));
      assert Held(doFree, hand, fr, fr) == hand;
      var a := va;
      while a < va + npages * PGSIZE
        invariant done <= npages && a == (lo + done) * PGSIZE
        invariant Ok(Held(doFree, hand, fr, h.fr))
        invariant h.roots == old(h.roots) && h.tab == old(h.tab) && h.fr == Outside(fr, Span(r, lo, done))
        invariant Cleared(old(pages), pages, h.roots, Span(r, lo, done))
        invariant |free| == |old(free)| + if doFree then done else 0
      {
        NextFull(old(pages), pages, managed, h.roots, Span(r, lo, done), npages, a);
        UnmapNext(r, old(pages), Span(r, lo, done), fr, a, doFree, hand);
        done := done + 1;
        a := a + PGSIZE;
      }
    }

    /** uvmcreate: an empty tree, 0 if no page is free. */
    method Uvmcreate(ghost hand: set<nat>) returns (r: nat)
      requires Ok(hand)
      modifies this`pages, this`free, this`h
      ensures Ok(hand) && (r == 0 <==> old(free) == [])
      ensures r == 0 ==> pages == old(pages) && free == old(free) && h == old(h)
      ensures r != 0 ==> r !in old(h.roots) && h.roots == old(h.roots) + {r} && h.fr == old(h.fr) && Grown(old(h.tab), h.tab, r)
      ensures r != 0 ==> SameView(old(pages), pages, old(h.roots)) && forall v | IsVp(v) :: Pte(pages, r, v) == Nil()
    {
      r := Kalloc(hand);
      if r == 0 { return; }
      NewTree(managed, pages, free, h, hand, r);
      pages, h := pages[r := ZeroTable()], h.(roots := h.roots + {r}, tab := h.tab[r := Root(r)]);
    }

    /** uvmdealloc. */
    method Uvmdealloc(r: nat, oldsz: nat, newsz: nat, ghost hand: set<nat>) returns (size: nat)
      requires Ok(hand) && r in h.roots
      requires newsz < oldsz ==> Full(pages, Between(r, newsz, oldsz)) && FramesIn(pages, managed, Between(r, newsz, oldsz))
      modifies this`pages, this`free, this`h
      ensures Ok(hand) && size == (if newsz < oldsz then newsz else oldsz) && h.roots == old(h.roots) && h.tab == old(h.tab)
      ensures newsz < oldsz ==> h.fr == Outside(old(h.fr), Between(r, newsz, oldsz))
      ensures newsz < oldsz ==> Cleared(old(pages), pages, h.roots, Between(r, newsz, oldsz))
      ensures newsz < oldsz ==> |free| == |old(free)| + Between(r, newsz, oldsz).n
      ensures newsz >= oldsz ==> pages == old(pages) && h == old(h) && free == old(free)
    {
      if newsz >= oldsz { return oldsz; }
      if RoundUp(newsz) < RoundUp(oldsz) {
        var npages := (RoundUp(oldsz) - RoundUp(newsz)) / PGSIZE;
        Uvmunmap(r, RoundUp(newsz), npages, true, hand);
      } else {
        FramesVp(pages, managed, h.roots, h.fr, Between(r, newsz, oldsz));
      }
      return newsz;
    }

    ghost function Now(): (b: Before)
      reads this
    {
      Before(pages, data, h, Listed(free))
    }

    /** mappages for the one page mem; if it fails, mem is freed. */
    method MapOne(r: nat, a: nat, mem: nat, perm: nat, ghost n: nat, ghost hand: set<nat>) returns (ok: bool)
      requires mem in managed && mem !in hand && Ok(hand + {mem}) && r in h.roots && a == n * PGSIZE && Vacant(pages, Span(r, n, 1))
      modifies this`pages, this`free, this`h
      ensures Ok(hand) && h.roots == old(h.roots) && Grown(old(h.tab), h.tab, r) && old(h.fr).Keys <= h.fr.Keys
      ensures ok ==> Mapped(old(pages), pages, h.roots, Span(r, n, 1), mem, perm)
      ensures !ok ==> SameView(old(pages), pages, h.roots)
      ensures if ok then a < MAXVA && |free| >= |old(free)| - 2 else a >= MAXVA || |old(free)| <= 1
    {
      RunOne(mem, hand);
      ghost var done: nat;
      ok, done := Mappages(r, a, PGSIZE, mem, perm, hand + {mem});
      if !ok { Kfree(mem, hand + {mem}); }
    }

    /**
     The common part of uvmalloc's and uvmcopy's loops: a page with content c, mapped at a; 0, and
     nothing mapped, if memory runs out or a is past the last address.
     */
    method Place(r: nat, a: nat, c: Content, perm: nat, ghost n: nat, ghost hand: set<nat>) returns (mem: nat)
      requires Ok(hand) && r in h.roots && a == n * PGSIZE && Vacant(pages, Span(r, n, 1))
      modifies this`pages, this`free, this`h, this`data
      ensures Ok(hand) && h.roots == old(h.roots) && Grown(old(h.tab), h.tab, r) && Listed(free) <= old(Listed(free))
      ensures PlacedOne(managed, old(Now()), pages, data, r, n, mem, Leaf(c, perm))
      ensures if mem == 0 then a >= MAXVA || |old(free)| <= 2 else a < MAXVA && |free| >= |old(free)| - 3
    {
      ListedIs(managed, free, h.tab.Keys, h.fr.Keys, hand);
      mem := Kalloc(hand);
      if mem == 0 { return; }
      data := data[mem := c];
      var ok := MapOne(r, a, mem, perm, n, hand);
      if !ok { mem := 0; }
      ListedIs(managed, free, h.tab.Keys, h.fr.Keys, hand);
    }

    /** A span is being filled; no table has gone, and no page that was not free is free. */
    ghost predicate Filling(was: Before, s: Span, done: nat, want: imap<Vp, Leaf>, hand: set<nat>)
      reads this
    {
      && Ok(hand) && h.roots == was.h.roots && Filled(managed, was, pages, data, s, done, want)
      && Grown(was.h.tab, h.tab, s.r) && Listed(free) <= was.free
    }

    /** Place for the next page of the span. */
    method PlaceNext(r: nat, a: nat, c: Content, perm: nat, ghost was: Before, ghost s: Span, ghost done: nat, ghost want: imap<Vp, Leaf>,
                     ghost hand: set<nat>)
      returns (ok: bool)
      requires Filling(was, s, done, want, hand) && s.r == r && done < s.n
      requires a == (s.lo + done) * PGSIZE && VpOf(a) in want && want[VpOf(a)] == Leaf(c, perm)
      modifies this`pages, this`free, this`h, this`data
      ensures Filling(was, s, if ok then done + 1 else done, want, hand)
      ensures if ok then a < MAXVA && |free| >= |old(free)| - 3 else a >= MAXVA || |old(free)| <= 2
    {
      FillBefore(managed, was, pages, data, s, done, want, h.fr);
      ghost var mid := Now();
      NotFree(managed, data.Keys, free, h, hand);
      var mem := Place(r, a, c, perm, s.lo + done, hand);
      if a < MAXVA { VpnOf(a); }
      FillAfter(managed, was, mid, pages, data, s, done, want, mem, VpOf(a));
      return mem != 0;
    }

    /** What a failed uvmalloc or uvmcopy leaves behind: no translation and no frame, at most tables. */
    ghost predicate OnlyTablesLeft(was: Before, r: nat)
      reads this
    {
      && Sized(was.pages) && Sized(pages) && h.roots == was.h.roots && Alike(was.pages, pages, h.roots) && h.fr == was.h.fr
      && Grown(was.h.tab, h.tab, r) && Listed(free) == was.free - (h.tab.Keys - was.h.tab.Keys)
      && (Listed(free) == was.free <==> h.tab == was.h.tab)
    }

    /**
     uvmalloc; ok is false when it gives up, and returns 0. Pages that were not free keep their
     contents.
     */
    method Uvmalloc(r: nat, oldsz: nat, newsz: nat, xperm: nat, ghost hand: set<nat>) returns (size: nat, ghost ok: bool)
      requires Ok(hand) && r in h.roots && (oldsz <= newsz ==> Vacant(pages, Between(r, oldsz, newsz)))
      modifies this`pages, this`free, this`h, this`data
      ensures Ok(hand) && h.roots == old(h.roots) && Kept(old(data).Keys - old(Listed(free)), old(data), data)
      ensures size == if newsz < oldsz then oldsz else if ok then newsz else 0
      ensures newsz < oldsz ==> pages == old(pages) && h == old(h) && free == old(free) && data == old(data)
      ensures newsz >= oldsz && ok ==>
                Placed(old(pages), pages, data, managed, h.roots, Between(r, oldsz, newsz), Zeroed(xperm))
      ensures !ok ==> OnlyTablesLeft(old(Now()), r)
      ensures !ok ==> newsz >= oldsz && (newsz > MAXVA || |old(free)| < 3 * Between(r, oldsz, newsz).n)
      ensures ok ==> forall v {:trigger Pte(pages, r, v)} | IsVp(v) && oldsz <= Vpn(v) * PGSIZE < newsz ::
                       UserPage(Pte(pages, r, v), data, managed, xperm)
    {
      size, ok := FillZeroed(r, oldsz, newsz, UserPerm(xperm), Zeroed(xperm), hand);
      if ok && oldsz <= newsz { NewPages(old(pages), pages, data, managed, h.roots, r, oldsz, newsz, xperm); }
    }

    /** The loop of uvmalloc. */
    method FillZeroed(r: nat, oldsz: nat, newsz: nat, perm: nat, ghost want: imap<Vp, Leaf>, ghost hand: set<nat>)
      returns (size: nat, ghost ok: bool)
      requires Clearable(want) && forall v | IsVp(v) :: v in want && want[v] == Leaf(ZEROED, perm)
      requires Ok(hand) && r in h.roots && (oldsz <= newsz ==> Vacant(pages, Between(r, oldsz, newsz)))
      modifies this`pages, this`free, this`h, this`data
      ensures Ok(hand) && h.roots == old(h.roots) && Kept(old(data).Keys - old(Listed(free)), old(data), data)
      ensures size == if newsz < oldsz then oldsz else if ok then newsz else 0
      ensures newsz < oldsz ==> pages == old(pages) && h == old(h) && free == old(free) && data == old(data)
      ensures newsz >= oldsz && ok ==>
                Placed(old(pages), pages, data, managed, h.roots, Between(r, oldsz, newsz), want)
      ensures !ok ==> OnlyTablesLeft(old(Now()), r)
      ensures !ok ==> newsz >= oldsz && (newsz > MAXVA || |old(free)| < 3 * Between(r, oldsz, newsz).n)
    {
      if newsz < oldsz { return oldsz, true; }
      var base := RoundUp(oldsz);
      var a := base;
      ghost var s, done := Between(r, oldsz, newsz), 0;
      FillStart(managed, Now(), s, want);
      ok := true;
      while a < newsz
        invariant done <= s.n && a == (s.lo + done) * PGSIZE && (done > 0 ==> s.lo + done <= MAXVPN)
        invariant Filling(old(Now()), s, done, want, hand)
        invariant |free| >= |old(free)| - 3 * done
        decreases s.n - done
      {
        var placed := PlaceNext(r, a, ZEROED, perm, old(Now()), s, done, want, hand);
        if !placed {
          ListedIs(managed, old(free), old(h).tab.Keys, old(h).fr.Keys, hand);
          Undo(r, a, base, old(Now()), s, done, want, hand);
          return 0, false;
        }
        a, done := a + PGSIZE, done + 1;
      }
      return newsz, true;
    }

    /** uvmdealloc's call from uvmalloc, which takes back what was filled of the span. */
    method Undo(r: nat, a: nat, base: nat, ghost was: Before, ghost s: Span, ghost done: nat, ghost want: imap<Vp, Leaf>,
                ghost hand: set<nat>)
      requires Filling(was, s, done, want, hand) && s.r == r && (done > 0 ==> s.lo + done <= MAXVPN) && Clearable(want)
      requires a == (s.lo + done) * PGSIZE && base == s.lo * PGSIZE
      requires was.free == managed - was.h.tab.Keys - was.h.fr.Keys - hand
      modifies this`pages, this`free, this`h
      ensures Ok(hand) && OnlyTablesLeft(was, r)
    {
      ghost var placed, part := pages, Span(r, s.lo, done);
      if done > 0 {
        PlacedFull(was.pages, pages, data, managed, h.roots, part, want);
        assert Between(r, base, a) == part;
      }
      var _ := Uvmdealloc(r, a, base, hand);
      Undone(managed, was, placed, pages, data, free, h, hand, s, done, want);
    }

    /** uvmunmap's call from uvmcopy, which takes back what was filled of the span. */
    method UndoCopy(r: nat, i: nat, ghost was: Before, ghost s: Span, ghost done: nat, ghost want: imap<Vp, Leaf>, ghost hand: set<nat>)
      requires Filling(was, s, done, want, hand) && s.r == r && s.lo == 0 && s.n <= MAXVPN && Clearable(want)
      requires i == done * PGSIZE && was.free == managed - was.h.tab.Keys - was.h.fr.Keys - hand
      modifies this`pages, this`free, this`h
      ensures Ok(hand) && OnlyTablesLeft(was, r)
    {
      ghost var placed, part := pages, Span(r, 0, done);
      PlacedFull(was.pages, pages, data, managed, h.roots, part, want);
      Uvmunmap(r, 0, i / PGSIZE, true, hand);
      Undone(managed, was, placed, pages, data, free, h, hand, s, done, want);
    }

    /**
     uvmcopy: src's pages below sz, copied into dst; on failure the copies are unmapped again. Pages
     that were not free keep their contents.
     */
    method Uvmcopy(src: nat, dst: nat, sz: nat, ghost hand: set<nat>) returns (ok: bool)
      requires Ok(hand) && src in h.roots && dst in h.roots && src != dst
      requires Full(pages, Between(src, 0, sz)) && FramesIn(pages, data.Keys, Between(src, 0, sz))
      requires Vacant(pages, Between(dst, 0, sz))
      modifies this`pages, this`free, this`h, this`data
      ensures Ok(hand) && h.roots == old(h.roots) && Kept(old(data).Keys - old(Listed(free)), old(data), data)
      ensures ok ==> Placed(old(pages), pages, data, managed, h.roots, Between(dst, 0, sz), Copied(old(pages), old(data), src))
      ensures !ok ==> OnlyTablesLeft(old(Now()), dst) && |old(free)| < 3 * Between(dst, 0, sz).n
      ensures ok ==> forall v {:trigger Pte(pages, dst, v)} | IsVp(v) && Vpn(v) * PGSIZE < sz ::
                       CopiedPage(Pte(old(pages), src, v), old(data), Pte(pages, dst, v), data, managed)
    {
      ghost var n := Between(dst, 0, sz).n;
      assert Between(dst, 0, sz) == Span(dst, 0, n) && Between(src, 0, sz) == Span(src, 0, n);
      CopiedAll(pages, data, src, n);
      ok := CopyPages(src, dst, sz, n, Copied(pages, data, src), hand);
      if ok { CopiedFrom(old(pages), old(data), pages, data, managed, h.roots, src, dst, sz); }
    }

    /** The loop of uvmcopy over the n pages below sz. */
    method CopyPages(src: nat, dst: nat, sz: nat, ghost n: nat, ghost want: imap<Vp, Leaf>, ghost hand: set<nat>) returns (ok: bool)
      requires Ok(hand) && src in h.roots && dst in h.roots && src != dst && (n - 1) * PGSIZE < sz <= n * PGSIZE
      requires Full(pages, Span(src, 0, n)) && Vacant(pages, Span(dst, 0, n))
      requires CopyAll(pages, data, src, n, want) && Clearable(want)
      modifies this`pages, this`free, this`h, this`data
      ensures Ok(hand) && h.roots == old(h.roots) && Kept(old(data).Keys - old(Listed(free)), old(data), data)
      ensures ok ==> Placed(old(pages), pages, data, managed, h.roots, Span(dst, 0, n), want)
      ensures !ok ==> OnlyTablesLeft(old(Now()), dst) && |old(free)| < 3 * n
    {
      ghost var s, done := Span(dst, 0, n), 0;
      FillStart(managed, Now(), s, want);
      ListedIs(managed, free, h.tab.Keys, h.fr.Keys, hand);
      var i := 0;
      while i < sz
        invariant done <= n && i == done * PGSIZE
        invariant Filling(old(Now()), s, done, want, hand)
        invariant |free| >= |old(free)| - 3 * done
        decreases n - done
      {
        ok := CopyNext(src, dst, i, old(Now()), s, done, want, hand);
        if !ok { return; }
        i, done := i + PGSIZE, done + 1;
      }
      ok := true;
    }

    /** uvmcopy's reading of the page at i, whatever has been placed in another tree. */
    method ReadPage(src: nat, i: nat, ghost was: Before, ghost s: Span, ghost done: nat, ghost want: imap<Vp, Leaf>, ghost hand: set<nat>)
      returns (c: Content, flags: nat)
      requires Filling(was, s, done, want, hand) && src in h.roots && s.r != src && s.lo == 0 && done < s.n
      requires Full(was.pages, Span(src, 0, s.n)) && i == done * PGSIZE && CopyAll(was.pages, was.data, src, s.n, want)
      requires was.free == managed - was.h.tab.Keys - was.h.fr.Keys - hand
      modifies this`pages, this`free, this`h
      ensures pages == old(pages) && free == old(free) && h == old(h)
      ensures i < MAXVA && VpOf(i) in want && want[VpOf(i)] == Leaf(c, flags)
    {
      ghost var v := VpOf(i);
      VpnOf(i);
      assert In(Span(src, 0, s.n), src, v) && Pte(pages, src, v) == Pte(was.pages, src, v);
      assert LeafKnown(was.pages, managed, was.h.fr, src, v) && CopyOf(Pte(was.pages, src, v), was.data, want, v);
      var p, k := Walk(src, i, false, hand);
      assert pages[p][k] == Pte(was.pages, src, v);
      var pa := pages[p][k].pa;
      return data[pa], pages[p][k].flags;
    }

    /** One turn of uvmcopy's loop, or its error exit. */
    method CopyNext(src: nat, dst: nat, i: nat, ghost was: Before, ghost s: Span, ghost done: nat, ghost want: imap<Vp, Leaf>,
                    ghost hand: set<nat>)
      returns (ok: bool)
      requires Filling(was, s, done, want, hand) && src in h.roots && s.r == dst != src && s.lo == 0 && done < s.n && Clearable(want)
      requires Full(was.pages, Span(src, 0, s.n)) && i == done * PGSIZE && CopyAll(was.pages, was.data, src, s.n, want)
      requires was.free == managed - was.h.tab.Keys - was.h.fr.Keys - hand
      modifies this`pages, this`free, this`h, this`data
      ensures Ok(hand) && h.roots == old(h.roots) && Kept(was.data.Keys - was.free, was.data, data)
      ensures ok ==> Filling(was, s, done + 1, want, hand) && |free| >= |old(free)| - 3
      ensures !ok ==> OnlyTablesLeft(was, dst) && |old(free)| <= 2
    {
      var c, flags := ReadPage(src, i, was, s, done, want, hand);
      ok := PlaceNext(dst, i, c, flags, was, s, done, want, hand);
      if !ok { UndoCopy(dst, i, was, s, done, want, hand); }
    }

    /** freewalk: the table at path and all below it. A mapped page left below it is the kernel's panic. */
    method FreeWalk(ghost path: Path, pt: nat, ghost hand: set<nat>)
      requires Ok(hand) && IsPath(path) && path.r in h.roots && pt != 0 && pt == TableAt(pages, path) && NoLeaves(pages, path)
      modifies this`pages, this`free, this`h
      ensures pages == old(pages) - Subtree(old(h.tab), path)
      ensures h == old(h).(tab := old(h.tab) - Subtree(old(h.tab), path))
      ensures Parts(managed, free, h.tab.Keys, h.fr.Keys, hand)
      decreases Height(path)
    {
      TableHas(pages, h.roots, h.tab, path);
      ghost var done := {};
      var i := 0;
      while i < ENTRIES
        invariant 0 <= i <= ENTRIES && Ok(hand) && pt in pages && pt == TableAt(pages, path) && NoLeaves(pages, path)
        invariant done <= Subtree(old(h.tab), path) && pt !in done
        invariant h == old(h).(tab := old(h.tab) - done) && pages - {pt} == old(pages) - done - {pt}
        invariant forall k | 0 <= k < i :: !Valid(pages[pt][k])
      {
        EntryKind(pages, h.roots, h.tab, path, i);
        if Valid(pages[pt][i]) && !IsLeaf(pages[pt][i]) {
          ghost var below := Subtree(h.tab, Child(path, i));
          RemovedMore(old(pages), pages, old(h.tab), done, below, pt, pages[pt][i := Nil()]);
          FreeChild(path, pt, i, hand);
          done := done + below;
        }
        i := i + 1;
      }
      EmptyTable(pages, h.roots, h.tab, path);
      GiveTable(managed, free, h.tab.Keys, h.fr.Keys, hand, pt);
      assert Subtree(old(h.tab), path) == done + {pt};
      Kfree(pt, {});
      pages, h := pages - {pt}, h.(tab := h.tab - {pt});
    }

    /** freewalk's turn for an entry i of pt that points to a table. */
    method FreeChild(ghost path: Path, pt: nat, i: nat, ghost hand: set<nat>)
      requires Ok(hand) && IsPath(path) && path.r in h.roots && !path.Low? && i < ENTRIES && NoLeaves(pages, path)
      requires pt in pages && pt == TableAt(pages, path) && Valid(pages[pt][i]) && pages[pt][i].pa != 0
      modifies this`pages, this`free, this`h
      ensures Ok(hand) && pt in pages && pt == TableAt(pages, path) && NoLeaves(pages, path)
      ensures Subtree(old(h.tab), Child(path, i)) <= Subtree(old(h.tab), path) && pt !in Subtree(old(h.tab), Child(path, i))
      ensures h == old(h).(tab := old(h.tab) - Subtree(old(h.tab), Child(path, i)))
      ensures pages == (old(pages) - Subtree(old(h.tab), Child(path, i)))[pt := old(pages)[pt][i := Nil()]]
      decreases Height(path), 0
    {
      ghost var (child, pages0, free0, h0) := (Child(path, i), pages, free, h);
      TableHas(pages, h.roots, h.tab, path);
      NoLeavesBelow(pages, path, i);
      FreeWalk(child, pages[pt][i].pa, hand);
      CutGood(managed, pages0, free0, free, h0, hand, child);
      CutTableAt(pages0, h0.roots, h0.tab, child, path);
      pages := SetEntry(pages, pt, i, Nil());
      assert pages == Cut(pages0, h0.tab, child);
      NoLeavesAlike(pages0, pages, h0.roots, path);
    }

    /**
     uvmfree: every page the tree had, table or frame, is free again, and no other tree changes. A
     page mapped at or above sz, or not mapped below it, is the kernel's panic.
     */
    method Uvmfree(r: nat, sz: nat, ghost hand: set<nat>)
      requires Ok(hand) && r in h.roots && Full(pages, Between(r, 0, sz)) && FramesIn(pages, managed, Between(r, 0, sz))
      requires forall v | IsVp(v) && !In(Between(r, 0, sz), r, v) :: !Valid(Pte(pages, r, v))
      modifies this`pages, this`free, this`h
      ensures Ok(hand) && h == Holds(old(h.roots) - {r}, old(h.tab) - Subtree(old(h.tab), Root(r)), Others(old(h.fr), r))
      ensures SameView(old(pages), pages, h.roots)
    {
      ghost var s := Between(r, 0, sz);
      assert s == Span(r, 0, RoundUp(sz) / PGSIZE);
      if sz > 0 {
        Uvmunmap(r, 0, RoundUp(sz) / PGSIZE, true, hand);
      } else {
        FramesVp(pages, managed, h.roots, h.fr, s);
      }
      ghost var (pages0, free0, h0) := (pages, free, h);
      TableHas(pages, h.roots, h.tab, Root(r));
      FreeWalk(Root(r), r, hand);
      TreeGone(managed, pages0, free0, free, h0, hand, r);
      h := h.(roots := h.roots - {r});
      assert Outside(old(h.fr), s) == Others(old(h.fr), r);
    }
  }
}
