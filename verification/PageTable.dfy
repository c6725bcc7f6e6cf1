/**
 Three-level page tables in physical memory: where a virtual page's entry lives, and which memory
 page is which table of which tree. The format is Sv39, section 4.4 of the RISC-V Privileged
 Architecture, volume II.
 */
module PageTable {

  const PGSIZE: nat := 4096
  const ENTRIES: nat := 512
  const MAXVA: nat := 0x40_0000_0000          // 1 << 38
  const MAXVPN: nat := 0x400_0000             // pages below MAXVA

  const PTE_V: nat := 1

  // Entries.

  /** A page-table entry: the physical address PTE2PA gives and the flags PTE_FLAGS gives. */
  datatype Entry = Entry(pa: nat, flags: nat)

  function Nil(): Entry { Entry(0, 0) }

  predicate Valid(e: Entry) { e.flags % 2 == 1 }

  /** Any of PTE_R, PTE_W and PTE_X. */
  predicate IsLeaf(e: Entry) { e.flags / 2 % 8 != 0 }

  /** flags | PTE_V. */
  function WithV(flags: nat): (f: nat) { if flags % 2 == 1 then flags else flags + 1 }

  /** PA2PTE(pa) | flags | PTE_V. */
  function Made(pa: nat, flags: nat): (e: Entry) { Entry(pa, WithV(flags)) }

  lemma MadeIs(pa: nat, flags: nat)
    ensures Valid(Made(pa, flags)) && (IsLeaf(Made(pa, flags)) <==> flags / 2 % 8 != 0)
    ensures flags < 1024 ==> Made(pa, flags).flags < 1024
  {
  }

  // Flags by bit: PTE_V is bit 0, PTE_R 1, PTE_W 2, PTE_X 3 and PTE_U 4.

  predicate HasFlag(flags: nat, k: nat)
    decreases k
  {
    if k == 0 then flags % 2 == 1 else HasFlag(flags / 2, k - 1)
  }

  /** flags | 1 << k. */
  function SetFlag(flags: nat, k: nat): (f: nat)
    decreases k
  {
    if k == 0 then WithV(flags) else 2 * SetFlag(flags / 2, k - 1) + flags % 2
  }

  lemma {:induction false} SetFlagIs(flags: nat, k: nat, j: nat)
    ensures HasFlag(SetFlag(flags, k), j) <==> j == k || HasFlag(flags, j)
    decreases k
  {
    if k > 0 && j > 0 {
      SetFlagIs(flags / 2, k - 1, j - 1);
      assert SetFlag(flags, k) / 2 == SetFlag(flags / 2, k - 1);
    }
  }

  /** PTE_V is set and the other flags are as given. */
  lemma MadeFlags(pa: nat, flags: nat, k: nat)
    ensures HasFlag(Made(pa, flags).flags, k) <==> k == 0 || HasFlag(flags, k)
  {
    SetFlagIs(flags, 0, k);
  }

  // The words in memory.

  function Pa2Pte(pa: bv64): (w: bv64) { (pa >> 12) << 10 }

  function Pte2Pa(pte: bv64): (pa: bv64) { (pte >> 10) << 12 }

  function PteFlags(pte: bv64): (flags: bv10) { (pte & 0x3FF) as bv10 }

  /** The word that holds an address and its flags. */
  function Word(pa: bv64, flags: bv10): (pte: bv64) { Pa2Pte(pa) | flags as bv64 }

  /**
   A word gives back the address and the flags it was made of if and only if the address is page
   aligned. It unpacks and packs to itself if and only if it is below 2^62: the shifts are of 64
   bits and drop the two top bits of the page number.
   */
  lemma PackRoundTrip(pa: bv64, flags: bv10, pte: bv64)
    ensures Pte2Pa(Word(pa, flags)) == pa && PteFlags(Word(pa, flags)) == flags <==> pa & 0xFFF == 0
    ensures Word(Pte2Pa(pte), PteFlags(pte)) == pte <==> pte < 0x4000_0000_0000_0000
  {
    AddressRoundTrip(pa, flags);
    WordRoundTrip(pte);
  }

  lemma AddressRoundTrip(pa: bv64, flags: bv10)
    ensures PteFlags(Word(pa, flags)) == flags && (Pte2Pa(Word(pa, flags)) == pa <==> pa & 0xFFF == 0)
  {
  }

  lemma WordRoundTrip(pte: bv64)
    ensures Word(Pte2Pa(pte), PteFlags(pte)) == pte <==> pte < 0x4000_0000_0000_0000
  {
  }

  lemma LowBit(x: bv10)
    ensures (x as nat) % 2 == 1 <==> x & 1 == 1
  {
  }

  /** PTE_V of a word is the valid flag of its entry. */
  lemma ValidBit(pte: bv64, pa: nat)
    ensures Valid(Entry(pa, PteFlags(pte) as nat)) <==> pte & 1 == 1
  {
    LowBit(PteFlags(pte));
    assert PteFlags(pte) & 1 == 1 <==> pte & 1 == 1;
  }

  // Virtual pages.

  /** PX: the index of a virtual address at a level. */
  function Px(level: nat, va: nat): (i: nat)
    requires level < 3
    ensures i < ENTRIES
  {
    if level == 0 then va / 0x1000 % ENTRIES
    else if level == 1 then va / 0x20_0000 % ENTRIES
    else va / 0x4000_0000 % ENTRIES
  }

  /** A virtual page by its three indices. */
  datatype Vp = Vp(i2: nat, i1: nat, i0: nat)

  ghost predicate IsVp(v: Vp) { v.i2 < ENTRIES && v.i1 < ENTRIES && v.i0 < ENTRIES }

  function VpOf(va: nat): (v: Vp)
    ensures IsVp(v)
  {
    Vp(Px(2, va), Px(1, va), Px(0, va))
  }

  /** The number of a virtual page. */
  function Vpn(v: Vp): (n: nat) { v.i2 * 0x4_0000 + v.i1 * 512 + v.i0 }

  /** The indices of an address are the digits of its page number. */
  lemma VpnOf(va: nat)
    requires va < MAXVA
    ensures VpOf(va) == Vp(va / PGSIZE / 512 / 512, va / PGSIZE / 512 % 512, va / PGSIZE % 512)
    ensures Vpn(VpOf(va)) == va / PGSIZE
  {
    var n := va / PGSIZE;
    var m := n / 512;
    assert va / 0x20_0000 == m && va / 0x4000_0000 == m / 512 && m / 512 < 512;
    assert n == m * 512 + n % 512 && m == m / 512 * 512 + m % 512;
  }

  /** Addresses below MAXVA share all three indices exactly when they are on the same page. */
  lemma VpDistinct(va: nat, other: nat)
    requires va < MAXVA && other < MAXVA
    ensures VpOf(va) == VpOf(other) <==> va / PGSIZE == other / PGSIZE
  {
    VpnOf(va);
    VpnOf(other);
  }

  // Trees.

  /** Physical addresses of page-table pages, with their entries. */
  type Pages = map<nat, seq<Entry>>

  /** A table of the tree with the given root. */
  datatype Path = Root(r: nat) | Mid(r: nat, i: nat) | Low(r: nat, i: nat, j: nat)

  function ZeroTable(): seq<Entry> { seq(ENTRIES, i => Nil()) }

  ghost predicate Sized(pages: Pages)
  {
    0 !in pages && forall p | p in pages :: |pages[p]| == ENTRIES
  }

  ghost predicate IsPath(path: Path)
  {
    (!path.Root? ==> path.i < ENTRIES) && (path.Low? ==> path.j < ENTRIES)
  }

  /** The page an entry points to, 0 for none. */
  function Next(pages: Pages, p: nat, i: nat): (q: nat)
    requires Sized(pages) && i < ENTRIES
  {
    if p in pages && Valid(pages[p][i]) then pages[p][i].pa else 0
  }

  /** The table at a path, 0 if the tree has none there. */
  function TableAt(pages: Pages, path: Path): (q: nat)
    requires Sized(pages) && IsPath(path)
  {
    match path
    case Root(r) => if r in pages then r else 0
    case Mid(r, i) => Next(pages, r, i)
    case Low(r, i, j) => Next(pages, Next(pages, r, i), j)
  }

  /** If the tree has a table at the path, tab knows it as that. */
  ghost predicate PathKnown(pages: Pages, tab: map<nat, Path>, path: Path)
    requires Sized(pages) && IsPath(path)
  {
    TableAt(pages, path) != 0 ==> TableAt(pages, path) in tab && tab[TableAt(pages, path)] == path
  }

  /** Page p is where tab says it is. */
  ghost predicate TabRight(pages: Pages, roots: set<nat>, tab: map<nat, Path>, p: nat)
    requires Sized(pages) && p in tab
  {
    IsPath(tab[p]) && tab[p].r in roots && TableAt(pages, tab[p]) == p
  }

  /**
   tab says of every table page which table of which tree it is: no page serves twice, and the
   trees have no other pages.
   */
  ghost predicate Trees(pages: Pages, roots: set<nat>, tab: map<nat, Path>)
  {
    && Sized(pages) && pages.Keys == tab.Keys && roots <= pages.Keys
    && (forall path {:trigger PathKnown(pages, tab, path)} | IsPath(path) && path.r in roots :: PathKnown(pages, tab, path))
    && (forall p {:trigger TabRight(pages, roots, tab, p)} | p in tab :: TabRight(pages, roots, tab, p))
  }

  /** What tab says of the table at a path. */
  lemma TableHas(pages: Pages, roots: set<nat>, tab: map<nat, Path>, path: Path)
    requires Trees(pages, roots, tab) && IsPath(path) && path.r in roots
    ensures TableAt(pages, path) != 0 ==> TableAt(pages, path) in pages && tab[TableAt(pages, path)] == path
    ensures path.r in pages && tab[path.r] == Root(path.r)
  {
    assert PathKnown(pages, tab, path);
    assert PathKnown(pages, tab, Root(path.r));
  }

  /** A second-level table is nobody's root and hangs from one place only. */
  lemma MidApart(pages: Pages, roots: set<nat>, tab: map<nat, Path>, r: nat, i: nat, r': nat, i': nat)
    requires Trees(pages, roots, tab) && r in roots && r' in roots && i < ENTRIES && i' < ENTRIES
    ensures r in pages && r' in pages && Next(pages, r, i) != r'
    ensures Next(pages, r, i) != 0 && Next(pages, r, i) == Next(pages, r', i') ==> r == r' && i == i'
    ensures Next(pages, r, i) != 0 ==> Next(pages, r, i) in pages
  {
    TableHas(pages, roots, tab, Mid(r, i));
    TableHas(pages, roots, tab, Mid(r', i'));
  }

  /** A third-level table is neither root nor second-level table and hangs from one place only. */
  lemma LowApart(pages: Pages, roots: set<nat>, tab: map<nat, Path>, low: Path, other: Path)
    requires Trees(pages, roots, tab) && IsPath(low) && IsPath(other) && low.r in roots && other.r in roots
    requires low.Low? && TableAt(pages, low) != 0
    ensures TableAt(pages, low) in pages
    ensures TableAt(pages, low) == TableAt(pages, other) ==> low == other
  {
    TableHas(pages, roots, tab, low);
    TableHas(pages, roots, tab, other);
  }

  /** The table that holds a virtual page's leaf entry. */
  function LowOf(r: nat, v: Vp): (path: Path) { Low(r, v.i2, v.i1) }

  /** The leaf entry of a virtual page, Nil if the tree has no table for it. */
  function Pte(pages: Pages, r: nat, v: Vp): (e: Entry)
    requires Sized(pages) && IsVp(v)
  {
    var low := TableAt(pages, LowOf(r, v));
    if low in pages then pages[low][v.i0] else Nil()
  }

  function SetEntry(pages: Pages, p: nat, i: nat, e: Entry): (q: Pages)
    requires p in pages && i < |pages[p]|
    ensures q.Keys == pages.Keys
  {
    pages[p := pages[p][i := e]]
  }

  // Adding a table.

  /** The entry that points to the table at path: its page and index. */
  function SlotOf(pages: Pages, path: Path): (slot: (nat, nat))
    requires Sized(pages) && IsPath(path) && !path.Root?
    ensures slot.1 < ENTRIES
  {
    match path
    case Mid(r, i) => (r, i)
    case Low(r, i, j) => (Next(pages, r, i), j)
  }

  /** walk's allocation: a zeroed page q linked in at path. */
  function Linked(pages: Pages, path: Path, q: nat): (r: Pages)
    requires Sized(pages) && IsPath(path) && !path.Root? && SlotOf(pages, path).0 in pages
  {
    var (p, i) := SlotOf(pages, path);
    SetEntry(pages, p, i, Made(q, 0))[q := ZeroTable()]
  }

  lemma NextLinked(pages: Pages, path: Path, q: nat, x: nat, k: nat)
    requires Sized(pages) && IsPath(path) && !path.Root? && SlotOf(pages, path).0 in pages
    requires q > 0 && q !in pages && k < ENTRIES
    ensures Sized(Linked(pages, path, q))
    ensures Next(Linked(pages, path, q), x, k) == if (x, k) == SlotOf(pages, path) then q else Next(pages, x, k)
  {
    MadeIs(q, 0);
  }

  lemma LinkedMidAt(pages: Pages, path: Path, q: nat, t: Path)
    requires Sized(pages) && IsPath(path) && path.Mid? && TableAt(pages, path) == 0 && path.r in pages
    requires q > 0 && q !in pages && IsPath(t) && t.r in pages
    requires t.Low? ==> Next(pages, t.r, t.i) != path.r
    ensures Sized(Linked(pages, path, q))
    ensures TableAt(Linked(pages, path, q), t) == if t == path then q else TableAt(pages, t)
  {
    var pages' := Linked(pages, path, q);
    NextLinked(pages, path, q, t.r, if t.Root? then 0 else t.i);
    if t.Low? { NextLinked(pages, path, q, Next(pages', t.r, t.i), t.j); }
  }

  lemma LinkedLowAt(pages: Pages, path: Path, q: nat, t: Path)
    requires Sized(pages) && IsPath(path) && path.Low? && TableAt(pages, path) == 0 && SlotOf(pages, path).0 in pages
    requires q > 0 && q !in pages && IsPath(t) && t.r in pages
    requires Next(pages, path.r, path.i) != t.r
    requires t.Low? && Next(pages, t.r, t.i) == Next(pages, path.r, path.i) ==> t.r == path.r && t.i == path.i
    ensures Sized(Linked(pages, path, q))
    ensures TableAt(Linked(pages, path, q), t) == if t == path then q else TableAt(pages, t)
  {
    var pages' := Linked(pages, path, q);
    NextLinked(pages, path, q, t.r, if t.Root? then 0 else t.i);
    if t.Low? { NextLinked(pages, path, q, Next(pages', t.r, t.i), t.j); }
  }

  /** Linking in a fresh page adds one table and moves none. */
  lemma LinkedTableAt(pages: Pages, roots: set<nat>, tab: map<nat, Path>, path: Path, q: nat, t: Path)
    requires Trees(pages, roots, tab) && IsPath(path) && path.r in roots && !path.Root? && TableAt(pages, path) == 0
    requires SlotOf(pages, path).0 in pages && q > 0 && q !in pages && IsPath(t) && t.r in roots
    ensures Sized(Linked(pages, path, q))
    ensures TableAt(Linked(pages, path, q), t) == if t == path then q else TableAt(pages, t)
  {
    MidApart(pages, roots, tab, path.r, path.i, t.r, if t.Root? then 0 else t.i);
    if path.Mid? {
      MidApart(pages, roots, tab, t.r, if t.Root? then 0 else t.i, path.r, path.i);
      LinkedMidAt(pages, path, q, t);
    } else {
      LinkedLowAt(pages, path, q, t);
    }
  }

  lemma LinkedTrees(pages: Pages, roots: set<nat>, tab: map<nat, Path>, path: Path, q: nat)
    requires Trees(pages, roots, tab) && IsPath(path) && path.r in roots && !path.Root? && TableAt(pages, path) == 0
    requires SlotOf(pages, path).0 in pages && q > 0 && q !in pages
    ensures Trees(Linked(pages, path, q), roots, tab[q := path])
  {
    var (pages', tab') := (Linked(pages, path, q), tab[q := path]);
    LinkedTableAt(pages, roots, tab, path, q, path);
    assert pages'.Keys == pages.Keys + {q} == tab'.Keys;
    forall t | IsPath(t) && t.r in roots ensures PathKnown(pages', tab', t) {
      LinkedTableAt(pages, roots, tab, path, q, t);
      TableHas(pages, roots, tab, t);
    }
    forall p | p in tab' ensures TabRight(pages', roots, tab', p) {
      if p != q {
        assert TabRight(pages, roots, tab, p);
        LinkedTableAt(pages, roots, tab, path, q, tab[p]);
      }
    }
  }

  /** A new table is empty, so no translation changes. */
  lemma LinkedPte(pages: Pages, roots: set<nat>, tab: map<nat, Path>, path: Path, q: nat, r: nat, v: Vp)
    requires Trees(pages, roots, tab) && IsPath(path) && path.r in roots && !path.Root? && TableAt(pages, path) == 0
    requires SlotOf(pages, path).0 in pages && q > 0 && q !in pages && r in roots && IsVp(v)
    ensures Sized(Linked(pages, path, q)) && Pte(Linked(pages, path, q), r, v) == Pte(pages, r, v)
  {
    LinkedTableAt(pages, roots, tab, path, q, LowOf(r, v));
    TableHas(pages, roots, tab, LowOf(r, v));
    TableHas(pages, roots, tab, if path.Low? then Mid(path.r, path.i) else path);
    LinkedPteStep(pages, path, q, r, v);
  }

  lemma LinkedPteStep(pages: Pages, path: Path, q: nat, r: nat, v: Vp)
    requires Sized(pages) && IsPath(path) && !path.Root? && SlotOf(pages, path).0 in pages && q > 0 && q !in pages && IsVp(v)
    requires Sized(Linked(pages, path, q)) && (TableAt(pages, path) == 0)
    requires TableAt(Linked(pages, path, q), LowOf(r, v)) == if LowOf(r, v) == path then q else TableAt(pages, LowOf(r, v))
    requires TableAt(pages, LowOf(r, v)) != SlotOf(pages, path).0
    ensures Pte(Linked(pages, path, q), r, v) == Pte(pages, r, v)
  {
  }

  // Writing a leaf entry.

  function SetPte(pages: Pages, r: nat, v: Vp, e: Entry): (q: Pages)
    requires Sized(pages) && IsVp(v) && TableAt(pages, LowOf(r, v)) in pages
    ensures q.Keys == pages.Keys && Sized(q)
  {
    SetEntry(pages, TableAt(pages, LowOf(r, v)), v.i0, e)
  }

  lemma NextSetPte(pages: Pages, r: nat, v: Vp, e: Entry, x: nat, k: nat)
    requires Sized(pages) && IsVp(v) && TableAt(pages, LowOf(r, v)) in pages && k < ENTRIES
    requires x != TableAt(pages, LowOf(r, v))
    ensures Next(SetPte(pages, r, v, e), x, k) == Next(pages, x, k)
  {
  }

  lemma SetPteTableAt(pages: Pages, roots: set<nat>, tab: map<nat, Path>, r: nat, v: Vp, e: Entry, t: Path)
    requires Trees(pages, roots, tab) && r in roots && IsVp(v) && TableAt(pages, LowOf(r, v)) in pages
    requires IsPath(t) && t.r in roots
    ensures TableAt(SetPte(pages, r, v, e), t) == TableAt(pages, t)
  {
    LowApart(pages, roots, tab, LowOf(r, v), Root(t.r));
    MidApart(pages, roots, tab, t.r, 0, t.r, 0);
    if !t.Root? {
      NextSetPte(pages, r, v, e, t.r, t.i);
    }
    if t.Low? {
      LowApart(pages, roots, tab, LowOf(r, v), Mid(t.r, t.i));
      NextSetPte(pages, r, v, e, Next(pages, t.r, t.i), t.j);
    }
  }

  lemma SetPteStep(pages: Pages, r: nat, v: Vp, e: Entry, r': nat, v': Vp)
    requires Sized(pages) && IsVp(v) && IsVp(v') && TableAt(pages, LowOf(r, v)) in pages
    requires TableAt(SetPte(pages, r, v, e), LowOf(r', v')) == TableAt(pages, LowOf(r', v'))
    requires TableAt(pages, LowOf(r, v)) == TableAt(pages, LowOf(r', v')) ==> LowOf(r, v) == LowOf(r', v')
    ensures Pte(SetPte(pages, r, v, e), r', v') == if r' == r && v' == v then e else Pte(pages, r', v')
  {
  }

  /** Writing one page's leaf entry changes that page's translation and no other, in any tree. */
  lemma SetPteIs(pages: Pages, roots: set<nat>, tab: map<nat, Path>, r: nat, v: Vp, e: Entry, r': nat, v': Vp)
    requires Trees(pages, roots, tab) && r in roots && IsVp(v) && TableAt(pages, LowOf(r, v)) in pages
    requires r' in roots && IsVp(v')
    ensures Pte(SetPte(pages, r, v, e), r', v') == if r' == r && v' == v then e else Pte(pages, r', v')
  {
    SetPteTableAt(pages, roots, tab, r, v, e, LowOf(r', v'));
    LowApart(pages, roots, tab, LowOf(r, v), LowOf(r', v'));
    SetPteStep(pages, r, v, e, r', v');
  }

  lemma SetPteTrees(pages: Pages, roots: set<nat>, tab: map<nat, Path>, r: nat, v: Vp, e: Entry)
    requires Trees(pages, roots, tab) && r in roots && IsVp(v) && TableAt(pages, LowOf(r, v)) in pages
    ensures Trees(SetPte(pages, r, v, e), roots, tab)
  {
    var pages' := SetPte(pages, r, v, e);
    forall t | IsPath(t) && t.r in roots ensures PathKnown(pages', tab, t) {
      assert PathKnown(pages, tab, t);
      SetPteTableAt(pages, roots, tab, r, v, e, t);
    }
    forall p | p in tab ensures TabRight(pages', roots, tab, p) {
      assert TabRight(pages, roots, tab, p);
      SetPteTableAt(pages, roots, tab, r, v, e, tab[p]);
    }
  }

  // Whole trees.

  /** A fresh page is an empty tree of its own. */
  lemma NewRootTrees(pages: Pages, roots: set<nat>, tab: map<nat, Path>, q: nat)
    requires Trees(pages, roots, tab) && q > 0 && q !in pages
    ensures Trees(pages[q := ZeroTable()], roots + {q}, tab[q := Root(q)])
    ensures forall r, v | r in roots && IsVp(v) :: Pte(pages[q := ZeroTable()], r, v) == Pte(pages, r, v)
    ensures forall v | IsVp(v) :: Pte(pages[q := ZeroTable()], q, v) == Nil()
  {
    var (pages', tab') := (pages[q := ZeroTable()], tab[q := Root(q)]);
    assert Sized(pages') && pages'.Keys == tab'.Keys;
    forall t | IsPath(t) && t.r in roots + {q}
      ensures TableAt(pages', t) == if t.r == q then (if t.Root? then q else 0) else TableAt(pages, t)
    {
      if t.r != q { TableHas(pages, roots, tab, t); if t.Low? { TableHas(pages, roots, tab, Mid(t.r, t.i)); } }
    }
    forall t | IsPath(t) && t.r in roots + {q} ensures PathKnown(pages', tab', t) {
      if t.r != q { assert PathKnown(pages, tab, t); }
    }
    forall p | p in tab' ensures TabRight(pages', roots + {q}, tab', p) {
      if p != q { assert TabRight(pages, roots, tab, p); }
    }
    forall r, v | r in roots && IsVp(v) ensures Pte(pages', r, v) == Pte(pages, r, v) {
      TableHas(pages, roots, tab, LowOf(r, v));
    }
  }

  /** Table t is the one at path or hangs below it. */
  ghost predicate Under(path: Path, t: Path)
  {
    match path
    case Root(r) => t.r == r
    case Mid(r, i) => !t.Root? && t.r == r && t.i == i
    case Low(_, _, _) => t == path
  }

  ghost function Subtree(tab: map<nat, Path>, path: Path): (s: set<nat>)
  {
    set p | p in tab && Under(path, tab[p])
  }

  /** The tree without the subtree at path, whose entry is cleared. */
  ghost function Cut(pages: Pages, tab: map<nat, Path>, path: Path): (r: Pages)
    requires Sized(pages) && IsPath(path) && !path.Root? && SlotOf(pages, path).0 in pages
  {
    var (p, i) := SlotOf(pages, path);
    SetEntry(pages, p, i, Nil()) - Subtree(tab, path)
  }

  lemma CutSized(pages: Pages, roots: set<nat>, tab: map<nat, Path>, path: Path)
    requires Trees(pages, roots, tab) && IsPath(path) && path.r in roots && !path.Root? && TableAt(pages, path) != 0
    ensures SlotOf(pages, path).0 in pages && SlotOf(pages, path).0 !in Subtree(tab, path) && Sized(Cut(pages, tab, path))
    ensures Cut(pages, tab, path).Keys == pages.Keys - Subtree(tab, path)
  {
    TableHas(pages, roots, tab, path);
    if path.Low? { TableHas(pages, roots, tab, Mid(path.r, path.i)); }
  }

  lemma NextCut(pages: Pages, roots: set<nat>, tab: map<nat, Path>, path: Path, x: nat, k: nat)
    requires Trees(pages, roots, tab) && IsPath(path) && path.r in roots && !path.Root? && TableAt(pages, path) != 0
    requires SlotOf(pages, path).0 in pages && Sized(Cut(pages, tab, path)) && k < ENTRIES
    ensures Next(Cut(pages, tab, path), x, k) ==
              if (x, k) == SlotOf(pages, path) || x in Subtree(tab, path) then 0 else Next(pages, x, k)
  {
    CutSized(pages, roots, tab, path);
  }

  /** Cutting a subtree off removes its tables and leaves every other where it was. */
  lemma CutTableAt(pages: Pages, roots: set<nat>, tab: map<nat, Path>, path: Path, t: Path)
    requires Trees(pages, roots, tab) && IsPath(path) && path.r in roots && !path.Root? && TableAt(pages, path) != 0
    requires IsPath(t) && t.r in roots
    ensures SlotOf(pages, path).0 in pages && Sized(Cut(pages, tab, path))
    ensures TableAt(Cut(pages, tab, path), t) == if Under(path, t) then 0 else TableAt(pages, t)
  {
    CutSized(pages, roots, tab, path);
    TableHas(pages, roots, tab, t);
    TableHas(pages, roots, tab, path);
    if path.Low? { TableHas(pages, roots, tab, Mid(path.r, path.i)); }
    if !t.Root? {
      NextCut(pages, roots, tab, path, t.r, t.i);
      TableHas(pages, roots, tab, Mid(t.r, t.i));
    }
    if t.Low? {
      NextCut(pages, roots, tab, path, Next(pages, t.r, t.i), t.j);
      NextCut(pages, roots, tab, path, 0, t.j);
    }
  }

  lemma CutTrees(pages: Pages, roots: set<nat>, tab: map<nat, Path>, path: Path)
    requires Trees(pages, roots, tab) && IsPath(path) && path.r in roots && !path.Root? && TableAt(pages, path) != 0
    ensures SlotOf(pages, path).0 in pages
    ensures Trees(Cut(pages, tab, path), roots, tab - Subtree(tab, path))
  {
    CutSized(pages, roots, tab, path);
    var (pages', tab') := (Cut(pages, tab, path), tab - Subtree(tab, path));
    forall r | r in roots ensures r in pages' { TableHas(pages, roots, tab, Root(r)); }
    forall t | IsPath(t) && t.r in roots ensures PathKnown(pages', tab', t) {
      CutTableAt(pages, roots, tab, path, t);
      TableHas(pages, roots, tab, t);
    }
    forall p | p in tab' ensures TabRight(pages', roots, tab', p) {
      assert TabRight(pages, roots, tab, p);
      CutTableAt(pages, roots, tab, path, tab[p]);
    }
  }

  /** Removing a whole tree moves no table of another. */
  lemma RemovedTableAt(pages: Pages, roots: set<nat>, tab: map<nat, Path>, r: nat, t: Path)
    requires Trees(pages, roots, tab) && r in roots && IsPath(t) && t.r in roots && t.r != r
    ensures Sized(pages - Subtree(tab, Root(r))) && t.r in pages - Subtree(tab, Root(r))
    ensures TableAt(pages - Subtree(tab, Root(r)), t) == TableAt(pages, t)
  {
    TableHas(pages, roots, tab, t);
    if t.Low? { TableHas(pages, roots, tab, Mid(t.r, t.i)); }
  }

  lemma RemovedPte(pages: Pages, roots: set<nat>, tab: map<nat, Path>, r: nat, r': nat, v: Vp)
    requires Trees(pages, roots, tab) && r in roots && r' in roots && r' != r && IsVp(v)
    ensures Sized(pages - Subtree(tab, Root(r))) && Pte(pages - Subtree(tab, Root(r)), r', v) == Pte(pages, r', v)
  {
    RemovedTableAt(pages, roots, tab, r, LowOf(r', v));
    TableHas(pages, roots, tab, LowOf(r', v));
  }

  /** Removing a whole tree leaves the others as they were. */
  lemma RemoveTree(pages: Pages, roots: set<nat>, tab: map<nat, Path>, r: nat)
    requires Trees(pages, roots, tab) && r in roots
    ensures Trees(pages - Subtree(tab, Root(r)), roots - {r}, tab - Subtree(tab, Root(r)))
    ensures forall r', v | r' in roots && r' != r && IsVp(v) ::
              Pte(pages - Subtree(tab, Root(r)), r', v) == Pte(pages, r', v)
  {
    var gone := Subtree(tab, Root(r));
    var (pages', roots', tab') := (pages - gone, roots - {r}, tab - gone);
    assert Sized(pages');
    forall t | IsPath(t) && t.r in roots' ensures PathKnown(pages', tab', t) {
      RemovedTableAt(pages, roots, tab, r, t);
      TableHas(pages, roots, tab, t);
    }
    forall p | p in tab' ensures TabRight(pages', roots', tab', p) {
      assert TabRight(pages, roots, tab, p);
      RemovedTableAt(pages, roots, tab, r, tab[p]);
    }
    forall x | x in roots' ensures x in pages' { RemovedTableAt(pages, roots, tab, r, Root(x)); }
    forall r', v | r' in roots && r' != r && IsVp(v) ensures Pte(pages', r', v) == Pte(pages, r', v) {
      RemovedPte(pages, roots, tab, r, r', v);
    }
  }

  // User frames.

  /** If the page is mapped to one of the frames own, fr knows that frame as mapped there. */
  ghost predicate LeafKnown(pages: Pages, own: set<nat>, fr: map<nat, (nat, Vp)>, r: nat, v: Vp)
    requires Sized(pages) && IsVp(v)
  {
    var e := Pte(pages, r, v);
    Valid(e) && e.pa in own ==> e.pa in fr && fr[e.pa] == (r, v)
  }

  ghost predicate FrameRight(pages: Pages, own: set<nat>, roots: set<nat>, fr: map<nat, (nat, Vp)>, f: nat)
    requires Sized(pages) && f in fr
  {
    && f in own && fr[f].0 in roots && IsVp(fr[f].1)
    && Valid(Pte(pages, fr[f].0, fr[f].1)) && Pte(pages, fr[f].0, fr[f].1).pa == f
  }

  /**
   fr says of every mapped frame among own which virtual page of which tree maps it: no such frame
   is mapped twice. Frames that are not among own, such as the trampoline, may be mapped anywhere
   and any number of times.
   */
  ghost predicate Frames(pages: Pages, own: set<nat>, roots: set<nat>, fr: map<nat, (nat, Vp)>)
    requires Sized(pages)
  {
    && (forall r, v {:trigger LeafKnown(pages, own, fr, r, v)} | r in roots && IsVp(v) :: LeafKnown(pages, own, fr, r, v))
    && (forall f {:trigger FrameRight(pages, own, roots, fr, f)} | f in fr :: FrameRight(pages, own, roots, fr, f))
  }

  /** A memory whose trees translate alike has its frames alike. */
  lemma FramesSame(pages: Pages, own: set<nat>, roots: set<nat>, fr: map<nat, (nat, Vp)>, pages': Pages)
    requires Sized(pages) && Sized(pages') && Frames(pages, own, roots, fr)
    requires forall r, v | r in roots && IsVp(v) :: Pte(pages', r, v) == Pte(pages, r, v)
    ensures Frames(pages', own, roots, fr)
  {
    forall r, v | r in roots && IsVp(v) ensures LeafKnown(pages', own, fr, r, v) { assert LeafKnown(pages, own, fr, r, v); }
    forall f | f in fr ensures FrameRight(pages', own, roots, fr, f) { assert FrameRight(pages, own, roots, fr, f); }
  }

  /** The frames once f is mapped too, if it is among own. */
  ghost function Added(own: set<nat>, fr: map<nat, (nat, Vp)>, f: nat, r: nat, v: Vp): (fr': map<nat, (nat, Vp)>)
  {
    if f in own then fr[f := (r, v)] else fr
  }

  /** Mapping a frame that is mapped nowhere, or is not among own, at a page that maps nothing. */
  lemma FramesMapped(pages: Pages, own: set<nat>, roots: set<nat>, tab: map<nat, Path>, fr: map<nat, (nat, Vp)>, r: nat, v: Vp, e: Entry)
    requires Trees(pages, roots, tab) && Frames(pages, own, roots, fr) && r in roots && IsVp(v) && TableAt(pages, LowOf(r, v)) in pages
    requires !Valid(Pte(pages, r, v)) && Valid(e) && e.pa !in fr
    ensures Frames(SetPte(pages, r, v, e), own, roots, Added(own, fr, e.pa, r, v))
  {
    var (pages', fr') := (SetPte(pages, r, v, e), Added(own, fr, e.pa, r, v));
    forall r', v' | r' in roots && IsVp(v') ensures LeafKnown(pages', own, fr', r', v') {
      assert LeafKnown(pages, own, fr, r', v');
      SetPteIs(pages, roots, tab, r, v, e, r', v');
    }
    forall f | f in fr' ensures FrameRight(pages', own, roots, fr', f) {
      if f == e.pa {
        SetPteIs(pages, roots, tab, r, v, e, r, v);
      } else {
        assert FrameRight(pages, own, roots, fr, f);
        SetPteIs(pages, roots, tab, r, v, e, fr[f].0, fr[f].1);
      }
    }
  }

  /** Clearing the entry of a mapped page. */
  lemma FramesUnmapped(pages: Pages, own: set<nat>, roots: set<nat>, tab: map<nat, Path>, fr: map<nat, (nat, Vp)>, r: nat, v: Vp)
    requires Trees(pages, roots, tab) && Frames(pages, own, roots, fr) && r in roots && IsVp(v) && TableAt(pages, LowOf(r, v)) in pages
    requires Valid(Pte(pages, r, v))
    ensures Pte(pages, r, v).pa in own <==> Pte(pages, r, v).pa in fr
    ensures Frames(SetPte(pages, r, v, Nil()), own, roots, fr - {Pte(pages, r, v).pa})
  {
    assert LeafKnown(pages, own, fr, r, v);
    var gone := Pte(pages, r, v).pa;
    var (pages', fr') := (SetPte(pages, r, v, Nil()), fr - {gone});
    forall r', v' | r' in roots && IsVp(v') ensures LeafKnown(pages', own, fr', r', v') {
      assert LeafKnown(pages, own, fr, r', v');
      SetPteIs(pages, roots, tab, r, v, Nil(), r', v');
    }
    assert gone in fr ==> FrameRight(pages, own, roots, fr, gone);
    forall f | f in fr' ensures FrameRight(pages', own, roots, fr', f) {
      assert FrameRight(pages, own, roots, fr, f);
      SetPteIs(pages, roots, tab, r, v, Nil(), fr[f].0, fr[f].1);
    }
  }
}
