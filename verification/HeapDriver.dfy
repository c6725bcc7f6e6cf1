/**
 malloc, free and morecore as they run, on the header fields in memory. What sbrk answers is a
 parameter. Programs write only inside the blocks they were given, and block sizes do not wrap.
 */
module HeapDriver {
  import opened HeapModel

  /** sbrk's parameter is a 32-bit int. */
  function AsInt(n: nat): (i: int)
    ensures -0x8000_0000 <= i < 0x8000_0000 && (n - i) % 0x1_0000_0000 == 0
  {
    if n % 0x1_0000_0000 < 0x8000_0000 then n % 0x1_0000_0000 else n % 0x1_0000_0000 - 0x1_0000_0000
  }

  /** The units malloc needs for nbytes and a header. */
  function Units(nbytes: nat): (n: nat)
    ensures n > 0 && UNIT * (n - 1) >= nbytes > UNIT * (n - 2)
  {
    (nbytes + UNIT - 1) / UNIT + 1
  }

  /** The units morecore asks sbrk for. */
  function Ask(nunits: nat): (nu: nat)
    ensures nu >= nunits && nu >= 4096 && (nu == nunits || nu == 4096)
  {
    if nunits < 4096 then 4096 else nunits
  }

  ghost predicate Within(a: nat, n: int, x: nat) { a <= x < a + n }

  /** The bytes sbrk adds to the process for a request of n bytes. */
  ghost function Granted(a: nat, n: nat): (s: iset<nat>) { iset x: nat | Within(a, AsInt(n), x) }

  /**
   sbrk grants what morecore writes into the header exactly for requests of at most 0x7fffffe0
   bytes. Beyond that the size passed to sbrk is truncated.
   */
  lemma GrantedIff(a: nat, nbytes: nat)
    requires nbytes < 0x1_0000_0000
    ensures Granted(a, UNIT * Ask(Units(nbytes))) == Area(a, Ask(Units(nbytes))) <==> nbytes <= 0x7fff_ffe0
  {
    var nu := Ask(Units(nbytes));
    assert nu < 0x800_0000 <==> nbytes <= 0x7fff_ffe0;
    if nu < 0x800_0000 {
      assert AsInt(UNIT * nu) == UNIT * nu;
    } else {
      assert AsInt(UNIT * nu) < UNIT * nu;
      var x := a + UNIT * nu - 1;
      assert x in Area(a, nu) && x !in Granted(a, UNIT * nu);
    }
  }

  /**
   The memory the process has from sbrk after it answered a request of n bytes with a: more of it,
   or less if the truncated request is negative.
   */
  ghost function AfterSbrk(granted: iset<nat>, a: nat, n: nat): (s: iset<nat>)
  {
    if AsInt(n) < 0 then iset x: nat | x in granted && x < a + AsInt(n) else granted + Granted(a, n)
  }

  /** With all memory below the answer, what the headers describe is what sbrk granted exactly for requests up to 0x7fffffe0. */
  lemma BackedIff(granted: iset<nat>, a: nat, nbytes: nat)
    requires nbytes < 0x1_0000_0000 && forall x | x in granted :: x < a
    ensures AfterSbrk(granted, a, UNIT * Ask(Units(nbytes))) == granted + Area(a, Ask(Units(nbytes))) <==> nbytes <= 0x7fff_ffe0
  {
    var nu := Ask(Units(nbytes));
    GrantedIff(a, nbytes);
    assert nu < 0x800_0000 <==> nbytes <= 0x7fff_ffe0;
    if nu < 0x800_0000 {
      assert AsInt(UNIT * nu) == UNIT * nu;
    } else {
      assert AsInt(UNIT * nu) < UNIT * nu;
      var x := a + UNIT * nu - 1;
      assert x in Area(a, nu) && x !in granted && x !in Granted(a, UNIT * nu);
    }
  }

  /** The blocks tile the memory; no two free blocks touch, and the search may start at freep. */
  ghost predicate Tiles(base: nat, s: Heap, freep: nat, memory: iset<nat>)
  {
    && Good(base, s) && NoTouchBut(s.free, {}) && freep in s.ring
    && memory == Bytes(s.free) + Bytes(s.used)
  }

  class Allocator {
    const base: nat
    var ptr: map<nat, nat>
    var size: map<nat, nat>
    var freep: nat
    ghost var ring: seq<nat>
    ghost var free: Blocks
    ghost var used: Blocks
    ghost var memory: iset<nat>
    ghost var granted: iset<nat>

    ghost function State(): (s: Heap)
      reads this
    {
      Heap(ring, ptr, size, free, used)
    }

    ghost predicate Ok()
      reads this
    {
      base > 0 && Tiles(base, State(), freep, memory)
    }

    /** The memory the blocks tile is what sbrk granted. */
    ghost predicate Backed()
      reads this
    {
      memory == granted
    }

    /** Before the first malloc. */
    ghost predicate Unused()
      reads this
    {
      freep == 0 && base > 0 && ring == [base] && free == map[] && used == map[] && memory == granted == iset{}
    }

    constructor (base: nat)
      requires base > 0
      ensures Unused() && this.base == base
    {
      this.base, ptr, size, freep := base, map[], map[], 0;
      ring, free, used, memory, granted := [base], map[], map[], iset{}, iset{};
    }

    /** free's search: the free block, or base, after which bp belongs. */
    method Search(bp: nat) returns (p: nat, ghost k: nat)
      requires Ok() && bp in used
      ensures k < |ring| && p == ring[k] < bp && (k + 1 < |ring| ==> bp < ring[k + 1])
      ensures p in ring && forall a | a in ring && a < bp :: a <= p
    {
      assert SizedAt(size, used, base, bp);
      assert bp !in Members(ring);
      ghost var spot := Spot(ring, bp);
      p := freep;
      k :| k < |ring| && ring[k] == p;
      Turn(ring, ptr, k, spot, bp);
      while !(bp > p && bp < ptr[p])
        invariant k < |ring| && p == ring[k] && p in ptr && ptr[p] == ring[Nxt(k, |ring|)]
        invariant (p < bp < ptr[p]) || (p >= ptr[p] && (bp > p || bp < ptr[p])) <==> k == spot
        decreases if k <= spot then spot - k else spot - k + |ring|
      {
        if p >= ptr[p] && (bp > p || bp < ptr[p]) { break; }
        k := Nxt(k, |ring|);
        p := ptr[p];
        Turn(ring, ptr, k, spot, bp);
      }
      LargestBelow(ring, k, bp);
    }

    /** free's first if: bp takes in its successor, or points to it. */
    method JoinNext(p: nat, bp: nat, ghost g: Heap)
      requires NextWrites(State(), g, p, bp)
      modifies this`ptr, this`size
      ensures g.size == size && g.ptr == ptr[p := bp] && bp in ptr
    {
      var n := ptr[p];
      if bp + UNIT * size[bp] == n {
        size := size[bp := size[bp] + size[n]];
        ptr := ptr[bp := ptr[n]];
      } else {
        ptr := ptr[bp := n];
      }
    }

    /** free's second if: p takes in bp, or points to it. */
    method JoinPrev(p: nat, bp: nat, ghost g: Heap, ghost e: Heap)
      requires g.size == size && g.ptr == ptr[p := bp] && bp in ptr && p != bp && PrevWrites(g, e, p, bp)
      modifies this`ptr, this`size
      ensures e.size == size && e.ptr == ptr
    {
      if p + UNIT * size[p] == bp {
        size := size[p := size[p] + size[bp]];
        ptr := ptr[p := ptr[bp]];
      } else {
        ptr := ptr[p := bp];
      }
    }

    /** free, of the block whose user part starts at ap: its bytes become free, and nothing else changes. */
    method Free(ap: nat)
      requires Ok() && ap >= UNIT && ap - UNIT in used
      modifies this
      ensures Ok() && used == old(used) - {ap - UNIT} && memory == old(memory) && granted == old(granted)
      ensures Bytes(free) == old(Bytes(free)) + Area(ap - UNIT, old(used)[ap - UNIT])
      ensures exists a :: a in free && free[a] >= old(used)[ap - UNIT]
    {
      var bp: nat := ap - UNIT;
      var p: nat;
      ghost var k: nat;
      p, k := Search(bp);
      Insert(p, bp, k);
    }

    /** The rest of free, once the place for bp is found. */
    method Insert(p: nat, bp: nat, ghost k: nat)
      requires Ok() && bp in used && k < |ring| && p == ring[k] < bp && (k + 1 < |ring| ==> bp < ring[k + 1])
      modifies this
      ensures Ok() && used == old(used) - {bp} && memory == old(memory) && granted == old(granted)
      ensures Bytes(free) == old(Bytes(free)) + Area(bp, old(used)[bp])
      ensures exists a :: a in free && free[a] >= old(used)[bp]
    {
      ghost var g, e, at := FreedTiles(base, State(), k, bp, freep, memory);
      Rewire(p, bp, g, e);
      ring, free, used, freep := e.ring, e.free, e.used, p;
      assert State() == e;
      assert at in free;
    }

    /** free's two ifs. */
    method Rewire(p: nat, bp: nat, ghost g: Heap, ghost e: Heap)
      requires NextWrites(State(), g, p, bp) && PrevWrites(g, e, p, bp) && p != bp
      modifies this`ptr, this`size
      ensures e.size == size && e.ptr == ptr
    {
      JoinNext(p, bp, g);
      JoinPrev(p, bp, g, e);
    }

    /** morecore; sbrk answers with the start of new memory or -1. */
    method Morecore(nunits: nat, answer: int) returns (p: nat)
      requires Ok() && Backed() && nunits > 0 && Answers(base, granted, answer)
      modifies this
      ensures Ok() && used == old(used)
      ensures granted == if answer == -1 then old(granted) else AfterSbrk(old(granted), answer, UNIT * Ask(nunits))
      ensures answer == -1 ==> p == 0 && free == old(free) && memory == old(memory) && ring == old(ring) && freep == old(freep)
      ensures answer != -1 ==> p == freep > 0 && memory == old(memory) + Area(answer, Ask(nunits))
      ensures answer != -1 ==> exists a :: a in free && free[a] >= nunits
    {
      var nu := Ask(nunits);
      if answer == -1 { return 0; }
      var hp: nat := answer;
      EnlargedGood(base, State(), hp, nu);
      size := size[hp := nu];
      used, memory, granted := used[hp := nu], memory + Area(hp, nu), AfterSbrk(granted, hp, UNIT * nu);
      Free(hp + UNIT);
      RingAbove(base, State());
      p := freep;
    }

    /** malloc's exact fit: p leaves the ring. */
    method TakeWhole(prevp: nat, p: nat, ghost c: nat) returns (r: nat)
      requires Ok() && c + 1 < |ring| && prevp == ring[c] && p == ring[c + 1] && p in free && p in ptr
      modifies this
      ensures Ok() && memory == old(memory) && granted == old(granted) && freep == prevp
      ensures r == p + UNIT && p !in old(used) && used == old(used)[p := old(free)[p]]
    {
      ghost var t := TakenAll(base, State(), c);
      ptr := ptr[prevp := ptr[p]];
      ring, free, used, freep := t.ring, t.free, t.used, prevp;
      assert State() == t;
      r := p + UNIT;
    }

    /** malloc's split: the last nunits of p. */
    method TakeTail(prevp: nat, p: nat, nunits: nat) returns (r: nat)
      requires Ok() && prevp in ring && p in free && p in size && size[p] == free[p] > nunits > 0
      modifies this
      ensures Ok() && memory == old(memory) && granted == old(granted) && freep == prevp
      ensures r == p + UNIT * (old(size)[p] - nunits) + UNIT && r - UNIT !in old(used) && used == old(used)[r - UNIT := nunits]
    {
      ghost var t := SplitAll(base, State(), p, nunits);
      size := size[p := size[p] - nunits];
      var q := p + UNIT * size[p];
      size := size[q := nunits];
      free, used, freep := t.free, t.used, prevp;
      assert State() == t;
      r := q + UNIT;
    }

    /** malloc's taking of nunits from the block p, which follows prevp. */
    method Carve(prevp: nat, p: nat, nunits: nat, ghost c: nat) returns (r: nat)
      requires Ok() && c < |ring| && prevp == ring[c] && p == ring[Nxt(c, |ring|)]
      requires p in size && size[p] >= nunits > 0
      modifies this
      ensures Ok() && memory == old(memory) && granted == old(granted) && r >= UNIT
      ensures r == p + UNIT * (old(size)[p] - nunits) + UNIT
      ensures r - UNIT !in old(used) && used == old(used)[r - UNIT := nunits]
    {
      FreeAt(base, State(), Nxt(c, |ring|));
      assert LinkAt(ring, ptr, Nxt(c, |ring|));
      if size[p] == nunits {
        r := TakeWhole(prevp, p, c);
      } else {
        r := TakeTail(prevp, p, nunits);
      }
    }

    /** malloc's loop, from the block after freep. */
    method Find(nunits: nat, answer: int) returns (r: nat)
      requires Ok() && Backed() && nunits > 0 && Answers(base, granted, answer)
      modifies this
      ensures Ok()
      ensures r == 0 <==> answer == -1 && AllSmall(old(free), nunits)
      ensures r == 0 ==> used == old(used) && free == old(free)
      ensures r != 0 ==> r >= UNIT && r - UNIT !in old(used) && used == old(used)[r - UNIT := nunits]
      ensures memory == if AllSmall(old(free), nunits) && answer != -1 then old(memory) + Area(answer, Ask(nunits)) else old(memory)
      ensures granted == if AllSmall(old(free), nunits) && answer != -1
                         then AfterSbrk(old(granted), answer, UNIT * Ask(nunits)) else old(granted)
      ensures !AllSmall(old(free), nunits) ==> FirstFit(old(ring), old(size), old(freep), nunits, r)
    {
      ghost var f: nat, t: nat, asked := Place(ring, freep), 0, false;
      Forward(ring, ptr, f, 0);
      var prevp := freep;
      var p := ptr[prevp];
      while true
        invariant Ok() && f < |ring| && ring[f] == freep && t < |ring| && used == old(used)
        invariant prevp == ring[At(f, t, |ring|)] && p == ring[At(f, t + 1, |ring|)]
        invariant Visited(ring, size, nunits, f, t)
        invariant !asked ==> free == old(free) && memory == old(memory) && granted == old(granted)
                             && ring == old(ring) && size == old(size) && freep == old(freep)
        invariant asked ==> answer != -1 && AllSmall(old(free), nunits) && !AllSmall(free, nunits)
        invariant asked ==> memory == old(memory) + Area(answer, Ask(nunits))
                            && granted == AfterSbrk(old(granted), answer, UNIT * Ask(nunits))
        decreases if asked then 0 else 1, |ring| - t
      {
        FreeAt(base, State(), At(f, t + 1, |ring|));
        if size[p] >= nunits {
          if !asked { assert free[p] >= nunits; }
          r := Carve(prevp, p, nunits, At(f, t, |ring|));
          assert !asked ==> FitsAt(old(ring), old(size), f, nunits, r, t);
          return;
        }
        Around(ring, f, t);
        VisitedMore(ring, size, nunits, f, t);
        if p == freep {
          AllVisited(base, State(), f, nunits);
          p := Morecore(nunits, answer);
          if p == 0 { return 0; }
          f, t, asked := Place(ring, freep), 0, true;
        } else {
          t := t + 1;
        }
        Forward(ring, ptr, f, t);
        prevp, p := p, ptr[p];
      }
    }

    /**
     malloc. It fails exactly if no free block is large enough and sbrk fails. Otherwise the new
     block is in use besides the old ones, in memory that had been obtained before or, if no
     free block is large enough, that sbrk was just asked for. The blocks go on tiling just what
     sbrk granted unless a request that large is truncated on its way to sbrk.
     */
    method Malloc(nbytes: nat, answer: int) returns (r: nat)
      requires (Ok() || Unused()) && Backed() && nbytes < 0x1_0000_0000 && Answers(base, granted, answer)
      modifies this
      ensures Ok()
      ensures r == 0 <==> answer == -1 && AllSmall(old(free), Units(nbytes))
      ensures r == 0 ==> used == old(used) && free == old(free)
      ensures r != 0 ==> r >= UNIT && r - UNIT !in old(used) && used == old(used)[r - UNIT := Units(nbytes)]
      ensures memory == if AllSmall(old(free), Units(nbytes)) && answer != -1
                        then old(memory) + Area(answer, Ask(Units(nbytes))) else old(memory)
      ensures old(Ok()) && old(freep) != 0 && !AllSmall(old(free), Units(nbytes)) ==>
                FirstFit(old(ring), old(size), old(freep), Units(nbytes), r)
      ensures Backed() <==> nbytes <= 0x7fff_ffe0 || answer == -1 || !AllSmall(old(free), Units(nbytes))
    {
      var nunits := Units(nbytes);
      if freep == 0 {
        assert Unused() by { if Ok() { RingAbove(base, State()); } }
        ptr, size, freep := ptr[base := base], size[base := 0], base;
        FirstRing(base, State());
      }
      if answer != -1 { BackedIff(granted, answer, nbytes); }
      r := Find(nunits, answer);
    }
  }

  /** The index u steps after f in a ring of n. */
  ghost function At(f: nat, u: nat, n: nat): (i: nat)
    requires f < n && u <= n
    ensures i < n
  {
    if f + u < n then f + u else f + u - n
  }

  lemma Forward(ring: seq<nat>, ptr: map<nat, nat>, f: nat, u: nat)
    requires Linked(ring, ptr) && f < |ring| && u < |ring|
    ensures ring[At(f, u, |ring|)] in ptr && ptr[ring[At(f, u, |ring|)]] == ring[At(f, u + 1, |ring|)]
    ensures At(f, 0, |ring|) == f && At(f, u + 1, |ring|) == Nxt(At(f, u, |ring|), |ring|)
  {
    assert LinkAt(ring, ptr, At(f, u, |ring|));
  }

  ghost function Place(ring: seq<nat>, a: nat): (i: nat)
    requires a in ring
    ensures i < |ring| && ring[i] == a
  {
    var i: nat :| i < |ring| && ring[i] == a; i
  }

  ghost predicate Small(ring: seq<nat>, size: map<nat, nat>, n: nat, i: nat)
    requires i < |ring|
  {
    ring[i] in size && size[ring[i]] < n
  }

  /** The t blocks after block f are small. */
  ghost predicate Visited(ring: seq<nat>, size: map<nat, nat>, n: nat, f: nat, t: nat)
    requires f < |ring| && t <= |ring|
  {
    forall u {:trigger At(f, u, |ring|)} | 1 <= u <= t :: Small(ring, size, n, At(f, u, |ring|))
  }

  lemma VisitedMore(ring: seq<nat>, size: map<nat, nat>, n: nat, f: nat, t: nat)
    requires f < |ring| && t < |ring| && Visited(ring, size, n, f, t) && Small(ring, size, n, At(f, t + 1, |ring|))
    ensures Visited(ring, size, n, f, t + 1)
  {
  }

  /** The t blocks after block f are small and the next is not; r is the user part of its last n units. */
  ghost predicate FitsAt(ring: seq<nat>, size: map<nat, nat>, f: nat, n: nat, r: nat, t: nat)
  {
    && f < |ring| && t < |ring| && Visited(ring, size, n, f, t)
    && var p: nat := ring[At(f, t + 1, |ring|)]; p in size && size[p] >= n && r == p + UNIT * (size[p] - n) + UNIT
  }

  /** r comes from the first block after freep that is large enough. */
  ghost predicate FirstFit(ring: seq<nat>, size: map<nat, nat>, freep: nat, n: nat, r: nat)
  {
    exists f: nat, t: nat :: FitsAt(ring, size, f, n, r, t) && ring[f] == freep
  }

  /** The search is back at freep exactly after a whole turn. */
  lemma Around(ring: seq<nat>, f: nat, t: nat)
    requires Ascending(ring) && f < |ring| && t < |ring|
    ensures ring[At(f, t + 1, |ring|)] == ring[f] <==> t + 1 == |ring|
  {
    InOrder(ring, f, At(f, t + 1, |ring|));
    InOrder(ring, At(f, t + 1, |ring|), f);
  }

  /** After a whole turn over small blocks, all free blocks are small. */
  lemma AllVisited(base: nat, s: Heap, f: nat, n: nat)
    requires Good(base, s) && f < |s.ring| && Visited(s.ring, s.size, n, f, |s.ring|)
    ensures AllSmall(s.free, n)
  {
    forall a | a in s.free ensures s.free[a] < n {
      var i := IndexOf(base, s, a);
      FreeAt(base, s, i);
      assert Small(s.ring, s.size, n, At(f, if i > f then i - f else i + |s.ring| - f, |s.ring|));
    }
  }

  /** No free block has n units. */
  ghost predicate AllSmall(free: Blocks, n: nat) { forall a | a in free :: free[a] < n }

  /** The heap malloc sets up at its first call. */
  lemma FirstRing(base: nat, s: Heap)
    requires s.ring == [base] && s.free == map[] && s.used == map[] && base in s.ptr && s.ptr[base] == base
    requires base in s.size && s.size[base] == 0
    ensures Good(base, s) && NoTouchBut(s.free, {}) && Bytes(s.free) == iset{} && Bytes(s.used) == iset{}
  {
    assert Bytes(map[]) == iset{};
  }

  /** malloc's exact fit as a whole. */
  lemma TakenAll(base: nat, s: Heap, c: nat) returns (t: Heap)
    requires Good(base, s) && NoTouchBut(s.free, {}) && c + 1 < |s.ring| && s.ring[c + 1] in s.free
    ensures Good(base, t) && NoTouchBut(t.free, {}) && s.ring[c] in t.ring && s.ring[c + 1] in s.ptr && s.ring[c + 1] !in s.used
    ensures t.ptr == s.ptr[s.ring[c] := s.ptr[s.ring[c + 1]]] && t.size == s.size
    ensures t.used == s.used[s.ring[c + 1] := s.free[s.ring[c + 1]]]
    ensures Bytes(t.free) + Bytes(t.used) == Bytes(s.free) + Bytes(s.used)
  {
    TakenGood(base, s, c);
    t := Taken(s, c);
    assert t.ring[c] == s.ring[c];
    PartOf(s.free, s.ring[c + 1]);
  }

  /** malloc's split as a whole. */
  lemma SplitAll(base: nat, s: Heap, b: nat, n: nat) returns (t: Heap)
    requires Good(base, s) && NoTouchBut(s.free, {}) && b in s.free && 0 < n < s.free[b]
    ensures Good(base, t) && NoTouchBut(t.free, {}) && t.ring == s.ring && b + UNIT * (s.free[b] - n) !in s.used
    ensures t.ptr == s.ptr && t.size == s.size[b := s.free[b] - n][b + UNIT * (s.free[b] - n) := n]
    ensures t.used == s.used[b + UNIT * (s.free[b] - n) := n]
    ensures Bytes(t.free) + Bytes(t.used) == Bytes(s.free) + Bytes(s.used)
  {
    SplitGood(base, s, b, n);
    t := Split(s, b, n);
    PartOf(s.free, b);
    SubArea(b, s.free[b], n);
  }

  /** What sbrk may answer: -1, or an address above base and all memory it granted before. */
  ghost predicate Answers(base: nat, memory: iset<nat>, answer: int)
  {
    answer == -1 || (answer > base && forall x | x in memory :: x < answer)
  }

  lemma RingAbove(base: nat, s: Heap)
    requires Good(base, s) && base > 0
    ensures forall a | a in s.ring :: a > 0
  {
    forall a | a in s.ring ensures a > 0 {
      var i :| 0 <= i < |s.ring| && s.ring[i] == a;
      InOrder(s.ring, 0, i);
    }
  }

  lemma SubArea(a: nat, n: nat, m: nat)
    requires m <= n
    ensures Area(a + UNIT * (n - m), m) <= Area(a, n)
  {
  }

  /** The block after block k takes in its successor if they touch. */
  ghost function AfterNext(s: Heap, k: nat): (t: Heap)
  {
    if CanMerge(s, k + 1) && s.ring[k + 2] in s.ptr then Merged(s, k + 1) else s
  }

  /** Block k takes in its successor if they touch. */
  ghost function AfterPrev(s: Heap, k: nat): (t: Heap)
  {
    if CanMerge(s, k) && s.ring[k + 1] in s.ptr then Merged(s, k) else s
  }

  /** A block that joined the ring has coalesced with its successor. */
  ghost predicate Halfway(base: nat, g: Heap, k: nat, p: nat, b: nat)
  {
    Good(base, g) && NoTouchBut(g.free, {p}) && k + 1 < |g.ring| && g.ring[k] == p && g.ring[k + 1] == b
  }

  /** Joining the ring and coalescing with the next block, and what it writes. */
  lemma NextStep(base: nat, s: Heap, k: nat, b: nat)
    requires Good(base, s) && NoTouchBut(s.free, {}) && b in s.used
    requires k < |s.ring| && s.ring[k] < b && (k + 1 < |s.ring| ==> b < s.ring[k + 1])
    ensures Halfway(base, AfterNext(Joined(s, k, b), k), k, s.ring[k], b)
    ensures AfterNext(Joined(s, k, b), k).used == s.used - {b}
    ensures Bytes(AfterNext(Joined(s, k, b), k).free) == Bytes(s.free) + Area(b, s.used[b])
    ensures Bytes(s.used - {b}) == Bytes(s.used) - Area(b, s.used[b])
    ensures NextWrites(s, AfterNext(Joined(s, k, b), k), s.ring[k], b)
  {
    var j := Joined(s, k, b);
    JoinedGood(base, s, k, b);
    JoinedTouch(base, s, k, b);
    JoinedBytes(s, k, b);
    assert j.ring[k + 1] == b && j.ring[k] == s.ring[k] && {s.ring[k], b} - {b} == {s.ring[k]};
    NextStepWrites(base, s, k, b);
    if CanMerge(j, k + 1) {
      MergedGood(base, j, k + 1);
      InOrder(j.ring, k + 1, k + 2);
      MergedTouch(j, k + 1, {s.ring[k], b});
    } else {
      EndAt(base, j, k + 1);
      TouchedLess(j.free, {s.ring[k], b}, b);
    }
  }

  /** The header fields after free's first if, but for p's pointer, which is written later. */
  ghost predicate NextWrites(s: Heap, g: Heap, p: nat, b: nat)
  {
    && b in s.size && p in s.ptr && s.ptr[p] in s.ptr && s.ptr[p] in s.size
    && if b + UNIT * s.size[b] == s.ptr[p]
       then g.size == s.size[b := s.size[b] + s.size[s.ptr[p]]] && g.ptr == s.ptr[b := s.ptr[s.ptr[p]]][p := b]
       else g.size == s.size && g.ptr == s.ptr[b := s.ptr[p]][p := b]
  }

  lemma Rewritten(m: map<nat, nat>, b: nat, p: nat, u: nat, v: nat)
    requires b != p
    ensures m[b := u][p := b][b := v] == m[b := v][p := b]
  {
  }

  lemma NextMerges(s: Heap, k: nat, b: nat, n: nat)
    requires k + 1 < |s.ring| && n == s.ring[k + 1] && s.ring[k] < b < n && b in s.used && n in s.free
    requires b in s.size && n in s.size && s.size[b] == s.used[b] && s.size[n] == s.free[n]
    requires n in s.ptr && s.ring[k] in s.ptr && s.ptr[s.ring[k]] == n && b + UNIT * s.size[b] == n
    ensures NextWrites(s, AfterNext(Joined(s, k, b), k), s.ring[k], b)
  {
    var j := Joined(s, k, b);
    assert j.ring[k + 1] == b && j.ring[k + 2] == n;
    assert CanMerge(j, k + 1) && j.ptr[n] == s.ptr[n];
    Rewritten(s.ptr, b, s.ring[k], n, s.ptr[n]);
  }

  lemma NextStepWrites(base: nat, s: Heap, k: nat, b: nat)
    requires Good(base, s) && b in s.used
    requires k < |s.ring| && s.ring[k] < b && (k + 1 < |s.ring| ==> b < s.ring[k + 1])
    ensures NextWrites(s, AfterNext(Joined(s, k, b), k), s.ring[k], b)
  {
    var n: nat := s.ring[Nxt(k, |s.ring|)];
    assert SizedAt(s.size, s.used, base, b);
    assert LinkAt(s.ring, s.ptr, k) && LinkAt(s.ring, s.ptr, Nxt(k, |s.ring|));
    FreeAt(base, s, Nxt(k, |s.ring|));
    if b + UNIT * s.size[b] == n {
      NextMerges(s, k, b, n);
    } else {
      NextStays(s, k, b);
    }
  }

  lemma NextStays(s: Heap, k: nat, b: nat)
    requires k < |s.ring| && b in s.used && b in s.size && s.size[b] == s.used[b]
    requires s.ring[k] in s.ptr && s.ptr[s.ring[k]] == s.ring[Nxt(k, |s.ring|)] && s.ptr[s.ring[k]] in s.ptr && s.ptr[s.ring[k]] in s.size
    requires b + UNIT * s.size[b] != s.ring[Nxt(k, |s.ring|)]
    ensures NextWrites(s, AfterNext(Joined(s, k, b), k), s.ring[k], b)
  {
    var j := Joined(s, k, b);
    assert j.ring[k + 1] == b && (k + 1 < |s.ring| ==> j.ring[k + 2] == s.ring[k + 1]);
    assert !CanMerge(j, k + 1);
  }

  lemma PrevMerges(base: nat, g: Heap, k: nat, p: nat, b: nat)
    requires Halfway(base, g, k, p, b) && CanMerge(g, k)
    ensures b in g.ptr && AfterPrev(g, k) == Merged(g, k)
    ensures Good(base, Merged(g, k)) && NoTouchBut(Merged(g, k).free, {}) && p in Merged(g, k).ring
    ensures Bytes(Merged(g, k).free) == Bytes(g.free)
  {
    InOrder(g.ring, k, k + 1);
    MergedGood(base, g, k);
    MergedTouch(g, k, {p});
    assert {p} - {p} == {} && Merged(g, k).ring[k] == p;
  }

  /** Coalescing with the previous block, and what it writes: no two free blocks touch any more. */
  lemma PrevStep(base: nat, g: Heap, k: nat, p: nat, b: nat)
    requires Halfway(base, g, k, p, b)
    ensures var e := AfterPrev(g, k);
            Good(base, e) && NoTouchBut(e.free, {}) && e.used == g.used && p in e.ring && Bytes(e.free) == Bytes(g.free)
    ensures PrevWrites(g, AfterPrev(g, k), p, b)
  {
    InOrder(g.ring, k, k + 1);
    FreeAt(base, g, k + 1);
    FreeAt(base, g, k);
    assert LinkAt(g.ring, g.ptr, k + 1) && {p} - {p} == {};
    if CanMerge(g, k) {
      PrevMerges(base, g, k, p, b);
    } else {
      if p in g.free { EndAt(base, g, k); }
      TouchedLess(g.free, {p}, p);
    }
  }

  /** A block of some blocks has its bytes among theirs. */
  lemma PartOf(blocks: Blocks, b: nat)
    requires b in blocks
    ensures Area(b, blocks[b]) <= Bytes(blocks)
  {
  }

  /** free as a whole: g and e are the heap after its first and its second if. */
  lemma Freed(base: nat, s: Heap, k: nat, b: nat) returns (g: Heap, e: Heap, at: nat)
    requires Good(base, s) && NoTouchBut(s.free, {}) && b in s.used
    requires k < |s.ring| && s.ring[k] < b && (k + 1 < |s.ring| ==> b < s.ring[k + 1])
    ensures NextWrites(s, g, s.ring[k], b) && PrevWrites(g, e, s.ring[k], b)
    ensures Good(base, e) && NoTouchBut(e.free, {}) && e.used == s.used - {b} && s.ring[k] in e.ring
    ensures Bytes(e.free) == Bytes(s.free) + Area(b, s.used[b])
    ensures Bytes(e.free) + Bytes(e.used) == Bytes(s.free) + Bytes(s.used)
    ensures at in e.free && e.free[at] >= s.used[b]
  {
    NextStep(base, s, k, b);
    g := AfterNext(Joined(s, k, b), k);
    PrevStep(base, g, k, s.ring[k], b);
    e := AfterPrev(g, k);
    PartOf(s.used, b);
    FreeAt(base, g, k + 1);
    at := if CanMerge(g, k) then s.ring[k] else b;
  }

  lemma FreedTiles(base: nat, s: Heap, k: nat, b: nat, freep: nat, memory: iset<nat>) returns (g: Heap, e: Heap, at: nat)
    requires Tiles(base, s, freep, memory) && b in s.used
    requires k < |s.ring| && s.ring[k] < b && (k + 1 < |s.ring| ==> b < s.ring[k + 1])
    ensures NextWrites(s, g, s.ring[k], b) && PrevWrites(g, e, s.ring[k], b)
    ensures Tiles(base, e, s.ring[k], memory) && e.used == s.used - {b}
    ensures Bytes(e.free) == Bytes(s.free) + Area(b, s.used[b])
    ensures at in e.free && e.free[at] >= s.used[b]
  {
    g, e, at := Freed(base, s, k, b);
  }

  /** The header fields after free's second if. */
  ghost predicate PrevWrites(g: Heap, e: Heap, p: nat, b: nat)
  {
    && p in g.size && b in g.size && b in g.ptr
    && if p + UNIT * g.size[p] == b then e.size == g.size[p := g.size[p] + g.size[b]] && e.ptr == g.ptr[p := g.ptr[b]]
       else e.size == g.size && e.ptr == g.ptr
  }

  /** A free block can touch only the next one in the ring. */
  lemma EndAt(base: nat, s: Heap, k: nat)
    requires Good(base, s) && k < |s.ring| && s.ring[k] in s.free && !CanMerge(s, k)
    ensures EndsAlone(s.free, s.ring[k])
  {
    var a: nat := s.ring[k];
    FreeAt(base, s, k);
    forall c | c in s.free ensures c != a + UNIT * s.free[a] {
      var i := IndexOf(base, s, c);
      InOrder(s.ring, k, i);
      if k + 1 < |s.ring| {
        FreeAt(base, s, k + 1);
        InOrder(s.ring, k, k + 1);
        InOrder(s.ring, k + 1, i);
        assert Clear(a, s.free[a], s.ring[k + 1], s.free[s.ring[k + 1]]);
      }
    }
  }

  lemma LargestBelow(ring: seq<nat>, k: nat, b: nat)
    requires Ascending(ring) && k < |ring| && ring[k] < b && (k + 1 < |ring| ==> b < ring[k + 1])
    ensures forall a | a in ring && a < b :: a <= ring[k]
  {
    forall a | a in ring && a < b ensures a <= ring[k] {
      var i: nat :| i < |ring| && ring[i] == a;
      InOrder(ring, k, i);
      if k + 1 < |ring| { InOrder(ring, i, k + 1); InOrder(ring, k + 1, i); }
    }
  }

  /** The search stops at block k exactly if it is the right one. */
  lemma Turn(ring: seq<nat>, ptr: map<nat, nat>, k: nat, spot: nat, b: nat)
    requires Ascending(ring) && Linked(ring, ptr) && k < |ring| && spot < |ring| && ring[0] < b
    requires ring[spot] < b && (spot + 1 < |ring| ==> b < ring[spot + 1])
    ensures ring[k] in ptr && ptr[ring[k]] == ring[Nxt(k, |ring|)]
    ensures (ring[k] < b < ptr[ring[k]]) || (ring[k] >= ptr[ring[k]] && (b > ring[k] || b < ptr[ring[k]])) <==> k == spot
  {
    assert LinkAt(ring, ptr, k);
    InOrder(ring, k, spot);
    InOrder(ring, spot, k);
    InOrder(ring, k, Nxt(k, |ring|));
    InOrder(ring, Nxt(k, |ring|), spot);
    if spot + 1 < |ring| { InOrder(ring, spot + 1, k); }
  }
}
