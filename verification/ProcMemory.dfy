/**
 The memory of processes: every process's tree maps the one trampoline page, which the kernel does
 not manage, and the process's trap frame, which it does; fork copies the rest.
 */
module ProcMemory {
  import opened PageTable
  import opened VmState
  import opened VmDriver

  const TRAMPOLINE: nat := MAXVA - PGSIZE
  const TRAPFRAME: nat := TRAMPOLINE - PGSIZE
  const PTE_RX: nat := 10
  const PTE_RW: nat := 6

  /** The entry of virtual page k of a process that has n pages of user memory. */
  ghost predicate EntryIs(e: Entry, own: set<nat>, k: nat, n: nat, trampoline: nat, trapframe: nat)
  {
    if k == MAXVPN - 1 then e == Made(trampoline, PTE_RX)
    else if k == MAXVPN - 2 then e == Made(trapframe, PTE_RW)
    else if k < n then Valid(e) && e.flags != PTE_V && e.pa in own
    else !Valid(e)
  }

  /** Tree r is that of a process: its user memory, its trap frame, the trampoline, and nothing else. */
  ghost predicate ProcTree(pages: Pages, own: set<nat>, r: nat, n: nat, trampoline: nat, trapframe: nat)
    requires Sized(pages)
  {
    && n <= MAXVPN - 2
    && forall v {:trigger Pte(pages, r, v)} | IsVp(v) :: EntryIs(Pte(pages, r, v), own, Vpn(v), n, trampoline, trapframe)
  }

  lemma ViewTrans(a: Pages, b: Pages, c: Pages, roots: set<nat>)
    requires Sized(a) && Sized(b) && Sized(c) && SameView(a, b, roots) && SameView(b, c, roots)
    ensures SameView(a, c, roots)
  {
    forall r, v | r in roots && IsVp(v) ensures Pte(c, r, v) == Pte(a, r, v) { assert Pte(b, r, v) == Pte(a, r, v); }
  }

  /** What happens in one tree is not seen in the others. */
  lemma MappedElsewhere(pages: Pages, pages': Pages, roots: set<nat>, s: Span, pa: nat, perm: nat, others: set<nat>)
    requires Sized(pages) && Sized(pages') && Mapped(pages, pages', roots, s, pa, perm) && others <= roots && s.r !in others
    ensures SameView(pages, pages', others)
  {
  }

  lemma ClearedElsewhere(pages: Pages, pages': Pages, roots: set<nat>, s: Span, others: set<nat>)
    requires Sized(pages) && Sized(pages') && Cleared(pages, pages', roots, s) && others <= roots && s.r !in others
    ensures SameView(pages, pages', others)
  {
  }

  /** Tables added to a tree that is then removed leave no trace. */
  lemma TablesGone(pages: Pages, roots: set<nat>, tab: map<nat, Path>, tab': map<nat, Path>, r: nat)
    requires Trees(pages, roots, tab) && r !in roots && Grown(tab, tab', r)
    ensures tab' - Subtree(tab', Root(r)) == tab
  {
    forall p | p in tab ensures tab[p].r != r { assert TabRight(pages, roots, tab, p); }
  }

  lemma GrownTrans(a: map<nat, Path>, b: map<nat, Path>, c: map<nat, Path>, r: nat)
    requires Grown(a, b, r) && Grown(b, c, r)
    ensures Grown(a, c, r)
  {
  }

  /** Same trees, tables, translations and pages in hand: the frames and the free pages are the same too. */
  lemma Restored(own: set<nat>, pages: Pages, free: seq<nat>, h: Holds, pages': Pages, free': seq<nat>, h': Holds, hand: set<nat>)
    requires Good(own, pages, free, h, hand) && Good(own, pages', free', h', hand)
    requires h'.roots == h.roots && h'.tab == h.tab && Alike(pages, pages', h.roots)
    ensures h' == h && Listed(free') == Listed(free)
  {
    FramesUnique(pages, pages', own, h.roots, h.fr, h'.fr);
    ListedIs(own, free, h.tab.Keys, h.fr.Keys, hand);
    ListedIs(own, free', h.tab.Keys, h.fr.Keys, hand);
  }

  /** Freeing a new tree that maps nothing: no trace of it is left. */
  method Abandon(vm: Vm, r: nat, ghost pages: Pages, ghost free: seq<nat>, ghost h: Holds, ghost hand: set<nat>)
    requires vm.Ok(hand) && Good(vm.managed, pages, free, h, hand) && r in vm.h.roots && r !in h.roots && vm.h.roots == h.roots + {r}
    requires Grown(h.tab, vm.h.tab, r) && SameView(pages, vm.pages, h.roots)
    requires forall v | IsVp(v) :: !Valid(Pte(vm.pages, r, v))
    modifies vm
    ensures vm.Ok(hand) && vm.h == h && Listed(vm.free) == Listed(free) && SameView(pages, vm.pages, h.roots) && vm.data == old(vm.data)
  {
    TablesGone(pages, h.roots, h.tab, vm.h.tab, r);
    ghost var mid := vm.pages;
    assert Between(r, 0, 0).n == 0;
    vm.Uvmfree(r, 0, hand);
    assert vm.h.roots == h.roots;
    ViewTrans(pages, mid, vm.pages, h.roots);
    Restored(vm.managed, pages, free, h, vm.pages, vm.free, vm.h, hand);
  }

  /** Frames that the kernel does not manage are not among those it keeps track of. */
  lemma OutsideUnowned(pages: Pages, own: set<nat>, roots: set<nat>, fr: map<nat, (nat, Vp)>, s: Span)
    requires Sized(pages) && Frames(pages, own, roots, fr)
    requires forall v | IsVp(v) && In(s, s.r, v) :: Pte(pages, s.r, v).pa !in own
    ensures Outside(fr, s) == fr
  {
    forall f | f in fr ensures !In(s, fr[f].0, fr[f].1) { assert FrameRight(pages, own, roots, fr, f); }
  }

  /** The one frame mapped in a span of one page. */
  lemma OutsideOne(pages: Pages, own: set<nat>, roots: set<nat>, fr: map<nat, (nat, Vp)>, s: Span, v: Vp)
    requires Sized(pages) && Frames(pages, own, roots, fr) && s.n == 1 && s.r in roots
    requires IsVp(v) && Vpn(v) == s.lo && Valid(Pte(pages, s.r, v)) && Pte(pages, s.r, v).pa in own
    ensures Pte(pages, s.r, v).pa in fr && fr.Keys - Outside(fr, s).Keys == {Pte(pages, s.r, v).pa}
  {
    assert LeafKnown(pages, own, fr, s.r, v);
    forall f | f in fr && In(s, fr[f].0, fr[f].1) ensures f == Pte(pages, s.r, v).pa {
      assert FrameRight(pages, own, roots, fr, f);
      VpnInjective(fr[f].1, v);
    }
  }

  lemma WholePage(va: nat, k: nat)
    requires va == k * PGSIZE
    ensures va % PGSIZE == 0 && va / PGSIZE == k && PageCount(va, PGSIZE) == 1
  {
  }

  /** The page whose number is k. */
  lemma PageNumber(va: nat, k: nat)
    requires va == k * PGSIZE && k < MAXVPN
    ensures va % PGSIZE == 0 && va / PGSIZE == k && PageCount(va, PGSIZE) == 1
    ensures IsVp(VpOf(va)) && Vpn(VpOf(va)) == k
  {
    WholePage(va, k);
    VpnOf(va);
  }

  /** An empty tree with the two pages mapped is that of a process without user memory. */
  lemma NewProcTree(empty: Pages, mid: Pages, pages: Pages, own: set<nat>, roots: set<nat>, r: nat, trampoline: nat, trapframe: nat)
    requires Sized(empty) && Sized(mid) && Sized(pages) && r in roots
    requires forall v | IsVp(v) :: Pte(empty, r, v) == Nil()
    requires Mapped(empty, mid, roots, Span(r, MAXVPN - 1, 1), trampoline, PTE_RX)
    requires Mapped(mid, pages, roots, Span(r, MAXVPN - 2, 1), trapframe, PTE_RW)
    ensures ProcTree(pages, own, r, 0, trampoline, trapframe)
  {
    forall v | IsVp(v) ensures EntryIs(Pte(pages, r, v), own, Vpn(v), 0, trampoline, trapframe) {
      assert Pte(mid, r, v) == if Vpn(v) == MAXVPN - 1 then Made(trampoline, PTE_RX) else Nil();
    }
  }

  lemma RunUnowned(own: set<nat>, f: nat, hand: set<nat>, free: seq<nat>, h: Holds)
    requires f !in own && Parts(own, free, h.tab.Keys, h.fr.Keys, hand)
    ensures Run(f, 1) * own == {} && hand - Run(f, 1) == hand && hand - Run(f, 0) == hand
  {
    PartsApart(own, free, h.tab.Keys, h.fr.Keys, hand);
    forall x | x in Run(f, 1) ensures x == f { }
  }

  /** The two mappings of proc_pagetable in a new tree; on failure the tree maps nothing. */
  method MapBoth(vm: Vm, r: nat, trampoline: nat, trapframe: nat, ghost hand: set<nat>) returns (ok: bool)
    requires vm.Ok(hand) && r in vm.h.roots && trampoline !in vm.managed && trapframe in hand
    requires forall v | IsVp(v) :: Pte(vm.pages, r, v) == Nil()
    modifies vm
    ensures vm.data == old(vm.data) && vm.h.roots == old(vm.h.roots) && Grown(old(vm.h.tab), vm.h.tab, r)
    ensures vm.Ok(if ok then hand - {trapframe} else hand) && SameView(old(vm.pages), vm.pages, vm.h.roots - {r})
    ensures ok ==> ProcTree(vm.pages, vm.managed, r, 0, trampoline, trapframe)
    ensures !ok ==> forall v | IsVp(v) :: !Valid(Pte(vm.pages, r, v))
  {
    ghost var empty, tab, others := vm.pages, vm.h.tab, vm.h.roots - {r};
    PageNumber(TRAMPOLINE, MAXVPN - 1);
    RunUnowned(vm.managed, trampoline, hand, vm.free, vm.h);
    ghost var done: nat;
    ok, done := vm.Mappages(r, TRAMPOLINE, PGSIZE, trampoline, PTE_RX, hand);
    ghost var mid, tab1 := vm.pages, vm.h.tab;
    MappedElsewhere(empty, mid, vm.h.roots, Span(r, MAXVPN - 1, done), trampoline, PTE_RX, others);
    if ok {
      ok := MapTrapframe(vm, r, trampoline, trapframe, empty, hand);
      GrownTrans(tab, tab1, vm.h.tab, r);
      ViewTrans(empty, mid, vm.pages, others);
    }
  }

  /** proc_pagetable; on failure no trace of the attempt is left. */
  method ProcPagetable(vm: Vm, trampoline: nat, trapframe: nat, ghost hand: set<nat>) returns (r: nat)
    requires vm.Ok(hand) && trampoline !in vm.managed && trapframe in hand
    modifies vm
    ensures vm.data == old(vm.data)
    ensures r == 0 ==> vm.Ok(hand) && vm.h == old(vm.h) && Listed(vm.free) == old(Listed(vm.free))
    ensures r != 0 ==> vm.Ok(hand - {trapframe}) && r !in old(vm.h.roots) && vm.h.roots == old(vm.h.roots) + {r}
    ensures r != 0 ==> Grown(old(vm.h.tab), vm.h.tab, r) && ProcTree(vm.pages, vm.managed, r, 0, trampoline, trapframe)
    ensures SameView(old(vm.pages), vm.pages, old(vm.h.roots))
  {
    ghost var (pages0, free0, h0) := (vm.pages, vm.free, vm.h);
    r := vm.Uvmcreate(hand);
    if r == 0 { return; }
    ghost var (empty, tab1) := (vm.pages, vm.h.tab);
    var ok := MapBoth(vm, r, trampoline, trapframe, hand);
    assert h0.roots == vm.h.roots - {r};
    GrownTrans(h0.tab, tab1, vm.h.tab, r);
    ViewTrans(pages0, empty, vm.pages, h0.roots);
    if !ok {
      Abandon(vm, r, pages0, free0, h0, hand);
      return 0;
    }
  }

  /** proc_pagetable's second mapping; if it fails the first one is undone. */
  method MapTrapframe(vm: Vm, r: nat, trampoline: nat, trapframe: nat, ghost empty: Pages, ghost hand: set<nat>) returns (ok: bool)
    requires vm.Ok(hand) && r in vm.h.roots && trampoline !in vm.managed && trapframe in hand && Sized(empty)
    requires forall v | IsVp(v) :: Pte(empty, r, v) == Nil()
    requires Mapped(empty, vm.pages, vm.h.roots, Span(r, MAXVPN - 1, 1), trampoline, PTE_RX)
    modifies vm
    ensures vm.data == old(vm.data) && vm.h.roots == old(vm.h.roots) && Grown(old(vm.h.tab), vm.h.tab, r)
    ensures vm.Ok(if ok then hand - {trapframe} else hand) && SameView(old(vm.pages), vm.pages, vm.h.roots - {r})
    ensures ok ==> ProcTree(vm.pages, vm.managed, r, 0, trampoline, trapframe)
    ensures !ok ==> forall v | IsVp(v) :: !Valid(Pte(vm.pages, r, v))
  {
    ghost var mid, others := vm.pages, vm.h.roots - {r};
    PageNumber(TRAPFRAME, MAXVPN - 2);
    PageNumber(TRAMPOLINE, MAXVPN - 1);
    assert Run(trapframe, 1) == {trapframe} by { assert trapframe + 0 * PGSIZE in Run(trapframe, 1); }
    ghost var done: nat;
    ok, done := vm.Mappages(r, TRAPFRAME, PGSIZE, trapframe, PTE_RW, hand);
    MappedElsewhere(mid, vm.pages, vm.h.roots, Span(r, MAXVPN - 2, done), trapframe, PTE_RW, others);
    if ok {
      NewProcTree(empty, mid, vm.pages, vm.managed, vm.h.roots, r, trampoline, trapframe);
    } else {
      assert hand - Run(trapframe, 0) == hand;
      OnlyTrampoline(empty, mid, vm.pages, vm.h.roots, r, trampoline, trapframe);
      ghost var failed := vm.pages;
      UnmapTrampoline(vm, r, trampoline, hand);
      ViewTrans(mid, failed, vm.pages, others);
      forall v | IsVp(v) ensures !Valid(Pte(vm.pages, r, v)) { assert Vpn(v) != MAXVPN - 1 ==> !Valid(Pte(failed, r, v)); }
    }
  }

  /** uvmunmap of the trampoline: the page is not freed, and nothing comes into hand. */
  method UnmapTrampoline(vm: Vm, r: nat, ghost trampoline: nat, ghost hand: set<nat>)
    requires vm.Ok(hand) && r in vm.h.roots && trampoline !in vm.managed
    requires forall v | IsVp(v) && Vpn(v) == MAXVPN - 1 :: Pte(vm.pages, r, v) == Made(trampoline, PTE_RX)
    modifies vm
    ensures vm.Ok(hand) && vm.data == old(vm.data) && vm.h == old(vm.h)
    ensures Cleared(old(vm.pages), vm.pages, vm.h.roots, Span(r, MAXVPN - 1, 1))
    ensures SameView(old(vm.pages), vm.pages, vm.h.roots - {r})
  {
    ghost var (pages, fr, s) := (vm.pages, vm.h.fr, Span(r, MAXVPN - 1, 1));
    PageNumber(TRAMPOLINE, MAXVPN - 1);
    MadeIs(trampoline, PTE_RX);
    OutsideUnowned(pages, vm.managed, vm.h.roots, fr, s);
    assert Held(false, hand, fr, fr) == hand;
    vm.Uvmunmap(r, TRAMPOLINE, 1, false, hand);
    ClearedElsewhere(pages, vm.pages, vm.h.roots, s, vm.h.roots - {r});
  }

  /** Only the trampoline is mapped. */
  lemma OnlyTrampoline(empty: Pages, mid: Pages, pages: Pages, roots: set<nat>, r: nat, trampoline: nat, trapframe: nat)
    requires Sized(empty) && Sized(mid) && Sized(pages) && r in roots
    requires forall v | IsVp(v) :: Pte(empty, r, v) == Nil()
    requires Mapped(empty, mid, roots, Span(r, MAXVPN - 1, 1), trampoline, PTE_RX)
    requires Mapped(mid, pages, roots, Span(r, MAXVPN - 2, 0), trapframe, PTE_RW)
    ensures forall v | IsVp(v) :: Pte(pages, r, v) == if Vpn(v) == MAXVPN - 1 then Made(trampoline, PTE_RX) else Nil()
    ensures Full(pages, Span(r, MAXVPN - 1, 1))
  {
    forall v | IsVp(v) ensures Pte(pages, r, v) == if Vpn(v) == MAXVPN - 1 then Made(trampoline, PTE_RX) else Nil() {
      assert Pte(mid, r, v) == if Vpn(v) == MAXVPN - 1 then Made(trampoline, PTE_RX) else Nil();
    }
  }

  /** The pages of user memory of a process of sz bytes. */
  ghost function UserPages(sz: nat): (n: nat) { RoundUp(sz) / PGSIZE }

  lemma UserSpan(r: nat, sz: nat)
    ensures Between(r, 0, sz) == Span(r, 0, UserPages(sz))
  {
  }

  /** uvmunmap of the trap frame: its page comes into hand. */
  method UnmapTrapframe(vm: Vm, r: nat, ghost trapframe: nat, ghost hand: set<nat>)
    requires vm.Ok(hand) && r in vm.h.roots && trapframe in vm.managed
    requires forall v | IsVp(v) && Vpn(v) == MAXVPN - 2 :: Pte(vm.pages, r, v) == Made(trapframe, PTE_RW)
    modifies vm
    ensures vm.Ok(hand + {trapframe}) && vm.data == old(vm.data) && vm.h.roots == old(vm.h.roots) && vm.h.tab == old(vm.h.tab)
    ensures vm.h.fr == Outside(old(vm.h.fr), Span(r, MAXVPN - 2, 1))
    ensures Cleared(old(vm.pages), vm.pages, vm.h.roots, Span(r, MAXVPN - 2, 1))
    ensures SameView(old(vm.pages), vm.pages, vm.h.roots - {r})
  {
    ghost var (pages, fr, s) := (vm.pages, vm.h.fr, Span(r, MAXVPN - 2, 1));
    PageNumber(TRAPFRAME, MAXVPN - 2);
    MadeIs(trapframe, PTE_RW);
    OutsideOne(pages, vm.managed, vm.h.roots, fr, s, VpOf(TRAPFRAME));
    assert Held(false, hand, fr, Outside(fr, s)) == hand + {trapframe};
    vm.Uvmunmap(r, TRAPFRAME, 1, false, hand);
    ClearedElsewhere(pages, vm.pages, vm.h.roots, s, vm.h.roots - {r});
  }

  /** With trampoline and trap frame unmapped, a process's tree maps its user memory only. */
  lemma UserOnly(pages: Pages, mid: Pages, pages': Pages, own: set<nat>, roots: set<nat>, r: nat, n: nat, trampoline: nat, trapframe: nat)
    requires Sized(pages) && Sized(mid) && Sized(pages') && r in roots && ProcTree(pages, own, r, n, trampoline, trapframe)
    requires Cleared(pages, mid, roots, Span(r, MAXVPN - 1, 1)) && Cleared(mid, pages', roots, Span(r, MAXVPN - 2, 1))
    ensures Full(pages', Span(r, 0, n)) && FramesIn(pages', own, Span(r, 0, n))
    ensures forall v | IsVp(v) && !In(Span(r, 0, n), r, v) :: !Valid(Pte(pages', r, v))
  {
    forall v | IsVp(v)
      ensures if Vpn(v) < n then Valid(Pte(pages', r, v)) && Pte(pages', r, v).flags != PTE_V && Pte(pages', r, v).pa in own
              else !Valid(Pte(pages', r, v))
    {
      assert EntryIs(Pte(pages, r, v), own, Vpn(v), n, trampoline, trapframe);
      assert Pte(mid, r, v) == if Vpn(v) == MAXVPN - 1 then Nil() else Pte(pages, r, v);
    }
  }

  /** proc_freepagetable: every page of the tree and of the user memory is free again, and the trap frame is in hand. */
  method ProcFreepagetable(vm: Vm, r: nat, sz: nat, ghost trampoline: nat, ghost trapframe: nat, ghost hand: set<nat>)
    requires vm.Ok(hand) && r in vm.h.roots && trampoline !in vm.managed && trapframe in vm.managed
    requires ProcTree(vm.pages, vm.managed, r, UserPages(sz), trampoline, trapframe)
    modifies vm
    ensures vm.Ok(hand + {trapframe}) && vm.data == old(vm.data) && vm.h.roots == old(vm.h.roots) - {r}
    ensures vm.h.tab == old(vm.h.tab) - Subtree(old(vm.h.tab), Root(r)) && vm.h.fr == Others(old(vm.h.fr), r)
    ensures SameView(old(vm.pages), vm.pages, vm.h.roots)
  {
    ghost var (pages, others) := (vm.pages, vm.h.roots - {r});
    UnmapTrampoline(vm, r, trampoline, hand);
    ghost var mid := vm.pages;
    UnmapTrapframe(vm, r, trapframe, hand);
    ghost var last := vm.pages;
    UserOnly(pages, mid, last, vm.managed, vm.h.roots, r, UserPages(sz), trampoline, trapframe);
    UserSpan(r, sz);
    vm.Uvmfree(r, sz, hand + {trapframe});
    ViewTrans(pages, mid, last, others);
    ViewTrans(pages, last, vm.pages, others);
  }

  // fork.

  /** The n pages of the child hold what the parent's held, with the same flags. */
  ghost predicate CopiedPages(was: Before, pages: Pages, data: map<nat, Content>, own: set<nat>, parent: nat, child: nat, n: nat)
    requires Sized(was.pages) && Sized(pages)
  {
    forall v {:trigger Pte(pages, child, v)} | IsVp(v) && Vpn(v) < n ::
      CopiedPage(Pte(was.pages, parent, v), was.data, Pte(pages, child, v), data, own)
  }

  lemma AlikeTree(pages: Pages, pages': Pages, own: set<nat>, roots: set<nat>, r: nat, trampoline: nat, trapframe: nat)
    requires Sized(pages) && Sized(pages') && Alike(pages, pages', roots) && r in roots && ProcTree(pages, own, r, 0, trampoline, trapframe)
    ensures ProcTree(pages', own, r, 0, trampoline, trapframe)
  {
    MadeIs(trampoline, PTE_RX);
    MadeIs(trapframe, PTE_RW);
    forall v | IsVp(v) ensures EntryIs(Pte(pages', r, v), own, Vpn(v), 0, trampoline, trapframe) {
      assert EntryIs(Pte(pages, r, v), own, Vpn(v), 0, trampoline, trapframe);
    }
  }

  /** The parent's tree, seen from a memory with the same translations, can be copied. */
  lemma ParentReady(pages: Pages, pages': Pages, own: set<nat>, all: set<nat>, roots: set<nat>, r: nat, n: nat, trampoline: nat, trapframe: nat)
    requires Sized(pages) && Sized(pages') && SameView(pages, pages', roots) && r in roots && own <= all
    requires ProcTree(pages, own, r, n, trampoline, trapframe)
    ensures Full(pages', Span(r, 0, n)) && FramesIn(pages', all, Span(r, 0, n))
  {
    forall v | IsVp(v) && In(Span(r, 0, n), r, v)
      ensures Valid(Pte(pages', r, v)) && Pte(pages', r, v).flags != PTE_V && Pte(pages', r, v).pa in all
    {
      assert Pte(pages', r, v) == Pte(pages, r, v);
      assert EntryIs(Pte(pages, r, v), own, Vpn(v), n, trampoline, trapframe);
    }
  }

  lemma ChildReady(pages: Pages, own: set<nat>, r: nat, n: nat, trampoline: nat, trapframe: nat)
    requires Sized(pages) && ProcTree(pages, own, r, 0, trampoline, trapframe) && n <= MAXVPN - 2
    ensures Vacant(pages, Span(r, 0, n))
  {
    forall v | IsVp(v) && In(Span(r, 0, n), r, v) ensures !Valid(Pte(pages, r, v)) {
      assert EntryIs(Pte(pages, r, v), own, Vpn(v), 0, trampoline, trapframe);
    }
  }

  /** What uvmcopy placed in the child is the parent's memory. */
  lemma ChildIsCopy(was: Before, mid: Pages, pages: Pages, data: map<nat, Content>, own: set<nat>, roots: set<nat>, parent: nat, child: nat,
                    n: nat, trampoline: nat, trapframe: nat, trapframe0: nat)
    requires Sized(was.pages) && Sized(mid) && Sized(pages) && SameView(was.pages, mid, was.h.roots)
    requires parent in was.h.roots && roots == was.h.roots + {child} && child !in was.h.roots
    requires ProcTree(was.pages, own, parent, n, trampoline, trapframe0) && ProcTree(mid, own, child, 0, trampoline, trapframe)
    requires Placed(mid, pages, data, own, roots, Span(child, 0, n), Copied(mid, was.data, parent))
    ensures CopiedPages(was, pages, data, own, parent, child, n) && ProcTree(pages, own, child, n, trampoline, trapframe)
    ensures SameView(was.pages, pages, was.h.roots)
  {
    forall v | IsVp(v)
      ensures Vpn(v) < n ==> CopiedPage(Pte(was.pages, parent, v), was.data, Pte(pages, child, v), data, own)
      ensures EntryIs(Pte(pages, child, v), own, Vpn(v), n, trampoline, trapframe)
    {
      assert EntryIs(Pte(was.pages, parent, v), own, Vpn(v), n, trampoline, trapframe0);
      assert EntryIs(Pte(mid, child, v), own, Vpn(v), 0, trampoline, trapframe);
      assert Pte(mid, parent, v) == Pte(was.pages, parent, v);
      assert In(Span(child, 0, n), child, v) <==> Vpn(v) < n;
    }
    forall r, v | r in was.h.roots && IsVp(v) ensures Pte(pages, r, v) == Pte(was.pages, r, v) {
      assert Pte(mid, r, v) == Pte(was.pages, r, v);
    }
  }

  /**
   The memory that fork takes: a trap frame, a page table, a copy of the parent's memory. If any of
   it cannot be had, all is given back, tables included. The source frees the trap frame before it
   unmaps it; here the order is reversed.
   */
  method ForkMemory(vm: Vm, parent: nat, sz: nat, trampoline: nat, ghost trapframe0: nat, ghost hand: set<nat>)
    returns (child: nat, trapframe: nat)
    requires vm.Ok(hand) && parent in vm.h.roots && trampoline !in vm.managed
    requires ProcTree(vm.pages, vm.managed, parent, UserPages(sz), trampoline, trapframe0)
    modifies vm
    ensures vm.Ok(hand) && Kept(old(vm.data).Keys - old(Listed(vm.free)), old(vm.data), vm.data)
    ensures child == 0 ==> vm.h == old(vm.h) && Listed(vm.free) == old(Listed(vm.free)) && Alike(old(vm.pages), vm.pages, vm.h.roots)
    ensures child != 0 ==> child !in old(vm.h.roots) && vm.h.roots == old(vm.h.roots) + {child}
    ensures child != 0 ==> SameView(old(vm.pages), vm.pages, old(vm.h.roots))
    ensures child != 0 ==> ProcTree(vm.pages, vm.managed, child, UserPages(sz), trampoline, trapframe)
    ensures child != 0 ==> CopiedPages(old(vm.Now()), vm.pages, vm.data, vm.managed, parent, child, UserPages(sz))
  {
    ghost var (was, free0) := (vm.Now(), vm.free);
    trapframe := vm.Kalloc(hand);
    if trapframe == 0 { return 0, 0; }
    child := ProcPagetable(vm, trampoline, trapframe, hand + {trapframe});
    if child == 0 {
      vm.Kfree(trapframe, hand + {trapframe});
      assert hand + {trapframe} - {trapframe} == hand;
      Restored(vm.managed, was.pages, free0, was.h, vm.pages, vm.free, vm.h, hand);
      return;
    }
    assert hand + {trapframe} - {trapframe} == hand;
    var ok := CopyChild(vm, parent, child, sz, trampoline, trapframe, trapframe0, was, free0, hand);
    if !ok { return 0, 0; }
  }

  /** fork's call of uvmcopy, and freeproc if it fails. */
  method CopyChild(vm: Vm, parent: nat, child: nat, sz: nat, ghost trampoline: nat, trapframe: nat, ghost trapframe0: nat,
                   ghost was: Before, ghost free0: seq<nat>, ghost hand: set<nat>)
    returns (ok: bool)
    requires vm.Ok(hand) && Good(vm.managed, was.pages, free0, was.h, hand) && was.free == Listed(free0) && was.data == vm.data
    requires parent in was.h.roots && child !in was.h.roots && vm.h.roots == was.h.roots + {child} && trampoline !in vm.managed
    requires SameView(was.pages, vm.pages, was.h.roots) && Grown(was.h.tab, vm.h.tab, child) && trapframe in vm.managed
    requires ProcTree(was.pages, vm.managed, parent, UserPages(sz), trampoline, trapframe0)
    requires ProcTree(vm.pages, vm.managed, child, 0, trampoline, trapframe)
    modifies vm
    ensures vm.Ok(hand) && Kept(was.data.Keys - was.free, was.data, vm.data)
    ensures !ok ==> vm.h == was.h && Listed(vm.free) == was.free && Alike(was.pages, vm.pages, vm.h.roots)
    ensures ok ==> vm.h.roots == was.h.roots + {child} && SameView(was.pages, vm.pages, was.h.roots)
    ensures ok ==> ProcTree(vm.pages, vm.managed, child, UserPages(sz), trampoline, trapframe)
    ensures ok ==> CopiedPages(was, vm.pages, vm.data, vm.managed, parent, child, UserPages(sz))
  {
    ghost var (mid, n, tab1) := (vm.pages, UserPages(sz), vm.h.tab);
    UserSpan(parent, sz);
    UserSpan(child, sz);
    ParentReady(was.pages, mid, vm.managed, vm.data.Keys, was.h.roots, parent, n, trampoline, trapframe0);
    ChildReady(mid, vm.managed, child, n, trampoline, trapframe);
    FewerFree(vm.managed, free0, was.h, vm.free, vm.h, was.pages, mid, hand, child, trapframe);
    ok := vm.Uvmcopy(parent, child, sz, hand);
    if ok {
      ChildIsCopy(was, mid, vm.pages, vm.data, vm.managed, vm.h.roots, parent, child, n, trampoline, trapframe, trapframe0);
    } else {
      GrownTrans(was.h.tab, tab1, vm.h.tab, child);
      FreeChildProc(vm, child, trampoline, trapframe, was, free0, mid, hand);
    }
  }

  /** While a child is being made, no page becomes free that was not. */
  lemma FewerFree(own: set<nat>, free0: seq<nat>, h0: Holds, free: seq<nat>, h: Holds, pages0: Pages, pages: Pages, hand: set<nat>, r: nat, f: nat)
    requires Good(own, pages0, free0, h0, hand) && Good(own, pages, free, h, hand)
    requires Grown(h0.tab, h.tab, r) && SameView(pages0, pages, h0.roots) && h0.roots <= h.roots
    ensures Listed(free) <= Listed(free0)
  {
    ListedIs(own, free0, h0.tab.Keys, h0.fr.Keys, hand);
    ListedIs(own, free, h.tab.Keys, h.fr.Keys, hand);
    forall x | x in h0.fr ensures x in h.fr {
      assert FrameRight(pages0, own, h0.roots, h0.fr, x);
      assert LeafKnown(pages, own, h.fr, h0.fr[x].0, h0.fr[x].1);
    }
  }

  /** freeproc of a child whose memory could not be copied. */
  method FreeChildProc(vm: Vm, child: nat, ghost trampoline: nat, trapframe: nat, ghost was: Before, ghost free0: seq<nat>, ghost mid: Pages,
                       ghost hand: set<nat>)
    requires vm.Ok(hand) && Good(vm.managed, was.pages, free0, was.h, hand) && was.free == Listed(free0)
    requires child !in was.h.roots && vm.h.roots == was.h.roots + {child} && trampoline !in vm.managed && trapframe in vm.managed
    requires Grown(was.h.tab, vm.h.tab, child) && Sized(mid)
    requires SameView(was.pages, mid, was.h.roots) && Alike(mid, vm.pages, vm.h.roots)
    requires ProcTree(mid, vm.managed, child, 0, trampoline, trapframe)
    modifies vm
    ensures vm.Ok(hand) && vm.data == old(vm.data)
    ensures vm.h == was.h && Listed(vm.free) == was.free && Alike(was.pages, vm.pages, vm.h.roots)
  {
    AlikeTree(mid, vm.pages, vm.managed, vm.h.roots, child, trampoline, trapframe);
    TablesGone(was.pages, was.h.roots, was.h.tab, vm.h.tab, child);
    ghost var failed := vm.pages;
    assert UserPages(0) == 0;
    TrapframeHeld(vm.managed, vm.pages, vm.free, vm.h, hand, child, trampoline, trapframe);
    ProcFreepagetable(vm, child, 0, trampoline, trapframe, hand);
    vm.Kfree(trapframe, hand + {trapframe});
    assert hand + {trapframe} - {trapframe} == hand && vm.h.roots == was.h.roots;
    AlikeChain(was.pages, mid, failed, vm.pages, was.h.roots);
    Restored(vm.managed, was.pages, free0, was.h, vm.pages, vm.free, vm.h, hand);
  }

  /** A mapped trap frame is not in hand. */
  lemma TrapframeHeld(own: set<nat>, pages: Pages, free: seq<nat>, h: Holds, hand: set<nat>, r: nat, trampoline: nat, trapframe: nat)
    requires Good(own, pages, free, h, hand) && r in h.roots && trapframe in own && ProcTree(pages, own, r, 0, trampoline, trapframe)
    ensures trapframe !in hand
  {
    PageNumber(TRAPFRAME, MAXVPN - 2);
    var v := VpOf(TRAPFRAME);
    MadeIs(trapframe, PTE_RW);
    assert EntryIs(Pte(pages, r, v), own, Vpn(v), 0, trampoline, trapframe);
    assert LeafKnown(pages, own, h.fr, r, v);
    PartsApart(own, free, h.tab.Keys, h.fr.Keys, hand);
  }

  lemma AlikeChain(a: Pages, b: Pages, c: Pages, d: Pages, roots: set<nat>)
    requires Sized(a) && Sized(b) && Sized(c) && Sized(d)
    requires SameView(a, b, roots) && SameView(c, d, roots)
    requires Alike(b, c, roots)
    ensures Alike(a, d, roots)
  {
    forall r, v | r in roots && IsVp(v)
      ensures Pte(d, r, v) == Pte(a, r, v) || (!Valid(Pte(d, r, v)) && !Valid(Pte(a, r, v)))
    {
      assert Pte(d, r, v) == Pte(c, r, v) && Pte(b, r, v) == Pte(a, r, v);
    }
  }
}
