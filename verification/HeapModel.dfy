/**
 The user-level allocator's heap as a value: byte addresses, blocks of 16-byte units whose first
 unit is the header, and the ring of free blocks that starts at base, the lowest address of all.
 */
module HeapModel {
  const UNIT := 16

  /** Blocks by header address, with their sizes in units. */
  type Blocks = map<nat, nat>

  ghost predicate InBlock(a: nat, n: nat, x: nat) { a <= x < a + UNIT * n }

  ghost predicate Covers(blocks: Blocks, x: nat) { exists a :: a in blocks && InBlock(a, blocks[a], x) }

  /** The bytes of some blocks. */
  ghost function Bytes(blocks: Blocks): (s: iset<nat>) { iset x: nat | Covers(blocks, x) }

  ghost function Area(a: nat, n: nat): (s: iset<nat>) { iset x: nat | InBlock(a, n, x) }

  ghost predicate Clear(a: nat, n: nat, b: nat, m: nat) { a + UNIT * n <= b || b + UNIT * m <= a }

  /** No block of one kind shares a byte with another of the other kind. */
  ghost predicate Apart(x: Blocks, y: Blocks)
  {
    forall a, b {:trigger Clear(a, x[a], b, y[b])} | a in x && b in y && a != b :: Clear(a, x[a], b, y[b])
  }

  // What changes of the blocks do to their bytes.

  lemma AddedBytes(blocks: Blocks, a: nat, n: nat)
    requires a !in blocks
    ensures Bytes(blocks[a := n]) == Bytes(blocks) + Area(a, n)
  {
    forall x: nat ensures x in Bytes(blocks[a := n]) <==> x in Bytes(blocks) + Area(a, n) {
      if Covers(blocks, x) {
        var b :| b in blocks && InBlock(b, blocks[b], x);
        assert b in blocks[a := n] && InBlock(b, blocks[a := n][b], x);
      }
      if InBlock(a, n, x) { assert InBlock(a, blocks[a := n][a], x); }
    }
  }

  /** Two blocks that touch, made one, have the same bytes. */
  lemma MergedBytes(blocks: Blocks, a: nat, b: nat)
    requires a in blocks && b in blocks && a != b && a + UNIT * blocks[a] == b
    ensures Bytes((blocks - {b})[a := blocks[a] + blocks[b]]) == Bytes(blocks)
  {
    var merged := (blocks - {b})[a := blocks[a] + blocks[b]];
    forall x: nat ensures x in Bytes(merged) <==> x in Bytes(blocks) {
      if Covers(blocks, x) {
        var c :| c in blocks && InBlock(c, blocks[c], x);
        assert InBlock(if c == b then a else c, merged[if c == b then a else c], x);
      }
      if Covers(merged, x) {
        var c :| c in merged && InBlock(c, merged[c], x);
        var d := if c == a && x >= b then b else c;
        assert d in blocks && InBlock(d, blocks[d], x);
      }
    }
  }

  /** Taking a whole block away. */
  lemma RemovedBytes(blocks: Blocks, a: nat)
    requires Apart(blocks, blocks) && a in blocks
    ensures Bytes(blocks - {a}) == Bytes(blocks) - Area(a, blocks[a])
  {
    forall x: nat ensures x in Bytes(blocks - {a}) <==> x in Bytes(blocks) - Area(a, blocks[a]) {
      if Covers(blocks, x) {
        var c :| c in blocks && InBlock(c, blocks[c], x);
        if c != a {
          assert Clear(c, blocks[c], a, blocks[a]);
          assert c in blocks - {a} && InBlock(c, (blocks - {a})[c], x);
        }
      }
      if Covers(blocks - {a}, x) {
        var c :| c in blocks - {a} && InBlock(c, (blocks - {a})[c], x);
        assert Clear(c, blocks[c], a, blocks[a]);
        assert c in blocks && InBlock(c, blocks[c], x);
      }
    }
  }

  /** Taking the last n units of a block away. */
  lemma ShortenedBytes(blocks: Blocks, a: nat, n: nat)
    requires Apart(blocks, blocks) && a in blocks && n <= blocks[a]
    ensures Bytes(blocks[a := blocks[a] - n]) == Bytes(blocks) - Area(a + UNIT * (blocks[a] - n), n)
  {
    var left := blocks[a := blocks[a] - n];
    forall x: nat ensures x in Bytes(left) <==> x in Bytes(blocks) - Area(a + UNIT * (blocks[a] - n), n) {
      if Covers(blocks, x) {
        var c :| c in blocks && InBlock(c, blocks[c], x);
        if c != a { assert Clear(c, blocks[c], a, blocks[a]); }
        if !InBlock(a + UNIT * (blocks[a] - n), n, x) { assert c in left && InBlock(c, left[c], x); }
      }
      if Covers(left, x) {
        var c :| c in left && InBlock(c, left[c], x);
        if c != a { assert Clear(c, blocks[c], a, blocks[a]); }
        assert c in blocks && InBlock(c, blocks[c], x);
      }
    }
  }

  // The ring.

  /** The index after i in a ring of n. */
  function Nxt(i: nat, n: nat): (j: nat)
    requires i < n
    ensures j < n
  {
    if i + 1 == n then 0 else i + 1
  }

  /** The header of block i points to block i + 1, and the last one's to the first. */
  ghost predicate LinkAt(ring: seq<nat>, ptr: map<nat, nat>, i: int)
    requires 0 <= i < |ring|
  {
    ring[i] in ptr && ptr[ring[i]] == ring[Nxt(i, |ring|)]
  }

  ghost predicate Linked(ring: seq<nat>, ptr: map<nat, nat>)
  {
    forall i {:trigger LinkAt(ring, ptr, i)} | 0 <= i < |ring| :: LinkAt(ring, ptr, i)
  }

  /** Block i is below block j. */
  ghost predicate Below(ring: seq<nat>, i: int, j: int)
    requires 0 <= i < |ring| && 0 <= j < |ring|
  {
    ring[i] < ring[j]
  }

  /** Ascending, without repetition. */
  ghost predicate Ascending(ring: seq<nat>) { forall i, j {:trigger Below(ring, i, j)} | 0 <= i < j < |ring| :: Below(ring, i, j) }

  ghost function With(ring: seq<nat>, k: nat, b: nat): (r: seq<nat>)
    requires k < |ring|
  {
    ring[..k + 1] + [b] + ring[k + 1..]
  }

  ghost function Without(ring: seq<nat>, k: nat): (r: seq<nat>)
    requires k < |ring|
  {
    ring[..k] + ring[k + 1..]
  }

  /** A block linked in after block k. */
  lemma LinkIn(ring: seq<nat>, ptr: map<nat, nat>, k: nat, b: nat)
    requires Linked(ring, ptr) && Ascending(ring) && k < |ring| && b !in ring
    ensures Linked(With(ring, k, b), ptr[b := ring[Nxt(k, |ring|)]][ring[k] := b])
  {
    var (ring', ptr') := (With(ring, k, b), ptr[b := ring[Nxt(k, |ring|)]][ring[k] := b]);
    forall i | 0 <= i < |ring'| ensures LinkAt(ring', ptr', i) {
      if i != k + 1 {
        var j := if i <= k then i else i - 1;
        assert ring'[i] == ring[j] && LinkAt(ring, ptr, j);
        if j < k { assert Below(ring, j, k); } else if k < j { assert Below(ring, k, j); }
      }
    }
  }

  /** The block after block k unlinked. */
  lemma LinkOut(ring: seq<nat>, ptr: map<nat, nat>, k: nat)
    requires Linked(ring, ptr) && Ascending(ring) && k + 1 < |ring|
    ensures ring[k + 1] in ptr && Linked(Without(ring, k + 1), ptr[ring[k] := ptr[ring[k + 1]]])
  {
    assert LinkAt(ring, ptr, k + 1);
    var (ring', ptr') := (Without(ring, k + 1), ptr[ring[k] := ptr[ring[k + 1]]]);
    forall i | 0 <= i < |ring'| ensures LinkAt(ring', ptr', i) {
      var j := if i <= k then i else i + 1;
      assert ring'[i] == ring[j] && LinkAt(ring, ptr, j);
      if j < k { assert Below(ring, j, k); } else if k < j { assert Below(ring, k, j); }
    }
  }

  lemma WithAscending(ring: seq<nat>, k: nat, b: nat)
    requires Ascending(ring) && k < |ring| && ring[k] < b && (k + 1 < |ring| ==> b < ring[k + 1])
    ensures Ascending(With(ring, k, b)) && b !in ring
  {
    var ring' := With(ring, k, b);
    forall i | 0 <= i < |ring| ensures if i <= k then ring[i] < b else b < ring[i] {
      if i < k { assert Below(ring, i, k); } else if i > k + 1 { assert Below(ring, k + 1, i); }
    }
    forall i, j | 0 <= i < j < |ring'| ensures Below(ring', i, j) {
      if i != k + 1 && j != k + 1 {
        assert Below(ring, if i <= k then i else i - 1, if j <= k then j else j - 1);
      }
    }
  }

  lemma WithoutAscending(ring: seq<nat>, k: nat)
    requires Ascending(ring) && k < |ring|
    ensures Ascending(Without(ring, k)) && ring[k] !in Without(ring, k)
  {
    var ring' := Without(ring, k);
    forall i, j | 0 <= i < j < |ring'| ensures Below(ring', i, j) {
      assert Below(ring, if i < k then i else i + 1, if j < k then j else j + 1);
    }
    forall i | 0 <= i < |ring'| ensures ring'[i] != ring[k] {
      if i < k { assert Below(ring, i, k); } else { assert Below(ring, k, i + 1); }
    }
  }

  // The heap.

  /** The ring, the header fields, and the blocks that are free and in use. */
  datatype Heap = Heap(ring: seq<nat>, ptr: map<nat, nat>, size: map<nat, nat>, free: Blocks, used: Blocks)

  ghost function Members(ring: seq<nat>): (s: set<nat>) { set a | a in ring }

  ghost predicate SizedAt(size: map<nat, nat>, blocks: Blocks, base: nat, a: nat)
    requires a in blocks
  {
    a > base && a in size && size[a] == blocks[a] > 0
  }

  ghost predicate Sized(size: map<nat, nat>, blocks: Blocks, base: nat)
  {
    forall a {:trigger SizedAt(size, blocks, base, a)} | a in blocks :: SizedAt(size, blocks, base, a)
  }

  /**
   The free blocks and base form the ring, in the order of their addresses; headers have the
   sizes; and no two blocks, free or in use, share a byte.
   */
  ghost predicate Good(base: nat, s: Heap)
  {
    && s.ring != [] && s.ring[0] == base && Ascending(s.ring) && Linked(s.ring, s.ptr)
    && Members(s.ring) == s.free.Keys + {base} && base !in s.free
    && base in s.size && s.size[base] == 0 && Sized(s.size, s.free, base) && Sized(s.size, s.used, base)
    && s.free.Keys !! s.used.Keys && Apart(s.free, s.free) && Apart(s.used, s.used) && Apart(s.free, s.used)
  }

  /** Free block a does not end where a free block starts. */
  ghost predicate EndsAlone(free: Blocks, a: nat)
    requires a in free
  {
    a + UNIT * free[a] !in free
  }

  /** No free block but those in except ends where a free block starts. */
  ghost predicate NoTouchBut(free: Blocks, except: set<nat>)
  {
    forall a {:trigger EndsAlone(free, a)} | a in free && a !in except :: EndsAlone(free, a)
  }

  lemma WithMembers(ring: seq<nat>, k: nat, b: nat)
    requires k < |ring|
    ensures Members(With(ring, k, b)) == Members(ring) + {b}
  {
    assert ring == ring[..k + 1] + ring[k + 1..];
  }

  lemma WithoutMembers(ring: seq<nat>, k: nat)
    requires k < |ring| && Ascending(ring)
    ensures Members(Without(ring, k)) == Members(ring) - {ring[k]}
  {
    WithoutAscending(ring, k);
    assert ring == ring[..k] + [ring[k]] + ring[k + 1..];
  }

  /** Where in the ring a block that is not free belongs. */
  lemma Spot(ring: seq<nat>, b: nat) returns (k: nat)
    requires ring != [] && ring[0] < b && b !in ring
    ensures k < |ring| && ring[k] < b && (k + 1 < |ring| ==> b < ring[k + 1])
  {
    k := 0;
    while k + 1 < |ring| && ring[k + 1] < b
      invariant k < |ring| && ring[k] < b
    {
      k := k + 1;
    }
  }

  lemma InOrder(ring: seq<nat>, i: nat, j: nat)
    requires Ascending(ring) && i < |ring| && j < |ring|
    ensures i < j <==> ring[i] < ring[j]
  {
    if i < j { assert Below(ring, i, j); } else if j < i { assert Below(ring, j, i); }
  }

  /** Every member of the ring but the first is a free block. */
  lemma FreeAt(base: nat, s: Heap, i: nat)
    requires Good(base, s) && i < |s.ring|
    ensures i > 0 <==> s.ring[i] in s.free
    ensures s.ring[i] in s.size && (i > 0 ==> s.ring[i] > base && s.size[s.ring[i]] == s.free[s.ring[i]] > 0)
  {
    assert s.ring[i] in Members(s.ring);
    InOrder(s.ring, 0, i);
    if i > 0 { assert SizedAt(s.size, s.free, base, s.ring[i]); }
  }

  lemma IndexOf(base: nat, s: Heap, a: nat) returns (i: nat)
    requires Good(base, s) && a in s.free
    ensures 0 < i < |s.ring| && s.ring[i] == a
  {
    assert a in Members(s.ring);
    i :| 0 <= i < |s.ring| && s.ring[i] == a;
    FreeAt(base, s, i);
  }

  /** A block in use is clear of its neighbours in the ring, and touches no other free block. */
  lemma Neighbours(base: nat, s: Heap, k: nat, b: nat)
    requires Good(base, s) && b in s.used && k < |s.ring| && s.ring[k] < b && (k + 1 < |s.ring| ==> b < s.ring[k + 1])
    ensures forall a | a in s.free && a != s.ring[k] :: a + UNIT * s.free[a] != b
    ensures forall a | a in s.free && (k + 1 < |s.ring| ==> a != s.ring[k + 1]) :: a != b + UNIT * s.used[b]
  {
    assert SizedAt(s.size, s.used, base, b);
    FreeAt(base, s, k);
    forall a | a in s.free
      ensures a != s.ring[k] ==> a + UNIT * s.free[a] != b
      ensures (k + 1 < |s.ring| ==> a != s.ring[k + 1]) ==> a != b + UNIT * s.used[b]
    {
      var i := IndexOf(base, s, a);
      InOrder(s.ring, i, k);
      if i < k { assert Clear(a, s.free[a], s.ring[k], s.free[s.ring[k]]); }
      if k + 1 < |s.ring| {
        FreeAt(base, s, k + 1);
        InOrder(s.ring, k + 1, i);
        assert Clear(s.ring[k + 1], s.free[s.ring[k + 1]], b, s.used[b]);
      }
    }
  }

  /** A block in use joins the ring after block k. */
  ghost function Joined(s: Heap, k: nat, b: nat): (t: Heap)
    requires k < |s.ring| && b in s.used
  {
    Heap(With(s.ring, k, b), s.ptr[b := s.ring[Nxt(k, |s.ring|)]][s.ring[k] := b], s.size, s.free[b := s.used[b]], s.used - {b})
  }

  lemma JoinedGood(base: nat, s: Heap, k: nat, b: nat)
    requires Good(base, s) && b in s.used
    requires k < |s.ring| && s.ring[k] < b && (k + 1 < |s.ring| ==> b < s.ring[k + 1])
    ensures Good(base, Joined(s, k, b))
  {
    WithAscending(s.ring, k, b);
    LinkIn(s.ring, s.ptr, k, b);
    WithMembers(s.ring, k, b);
    var t := Joined(s, k, b);
    assert t.free.Keys == s.free.Keys + {b};
    Moved(s.size, base, s.free, s.used, b);
  }

  /** A block moved from one kind to the other keeps its size and stays clear of the rest. */
  lemma Moved(size: map<nat, nat>, base: nat, x: Blocks, y: Blocks, b: nat)
    requires Sized(size, x, base) && Sized(size, y, base) && b in y && x.Keys !! y.Keys
    requires Apart(x, x) && Apart(y, y) && Apart(x, y)
    ensures Sized(size, x[b := y[b]], base) && Sized(size, y - {b}, base)
    ensures Apart(x[b := y[b]], x[b := y[b]]) && Apart(y - {b}, y - {b})
    ensures Apart(x[b := y[b]], y - {b}) && Apart(y - {b}, x[b := y[b]])
  {
    var (x', y') := (x[b := y[b]], y - {b});
    forall a | a in x' ensures SizedAt(size, x', base, a) {
      assert if a == b then SizedAt(size, y, base, a) else SizedAt(size, x, base, a);
    }
    forall a | a in y' ensures SizedAt(size, y', base, a) { assert SizedAt(size, y, base, a); }
    forall c, d | c in x' && d in x' && c != d ensures Clear(c, x'[c], d, x'[d]) {
      if c == b { assert Clear(d, x[d], b, y[b]); } else if d == b { assert Clear(c, x[c], b, y[b]); }
      else { assert Clear(c, x[c], d, x[d]); }
    }
    forall c, d | c in y' && d in y' && c != d ensures Clear(c, y'[c], d, y'[d]) { assert Clear(c, y[c], d, y[d]); }
    forall c, d | c in x' && d in y' && c != d ensures Clear(c, x'[c], d, y'[d]) {
      if c == b { assert Clear(b, y[b], d, y[d]); } else { assert Clear(c, x[c], d, y[d]); }
    }
    Symmetric(x', y');
  }

  lemma Symmetric(x: Blocks, y: Blocks)
    requires Apart(x, y)
    ensures Apart(y, x)
  {
    forall c, d | c in y && d in x && c != d ensures Clear(c, y[c], d, x[d]) { assert Clear(d, x[d], c, y[c]); }
  }

  lemma JoinedTouch(base: nat, s: Heap, k: nat, b: nat)
    requires Good(base, s) && NoTouchBut(s.free, {}) && b in s.used
    requires k < |s.ring| && s.ring[k] < b && (k + 1 < |s.ring| ==> b < s.ring[k + 1])
    ensures NoTouchBut(Joined(s, k, b).free, {s.ring[k], b})
    ensures b + UNIT * s.used[b] in Joined(s, k, b).free ==> k + 1 < |s.ring| && b + UNIT * s.used[b] == s.ring[k + 1]
  {
    Neighbours(base, s, k, b);
    assert SizedAt(s.size, s.used, base, b);
    var free' := Joined(s, k, b).free;
    forall a | a in free' && a !in {s.ring[k], b} ensures EndsAlone(free', a) { assert EndsAlone(s.free, a); }
  }

  lemma JoinedBytes(s: Heap, k: nat, b: nat)
    requires Apart(s.used, s.used) && s.free.Keys !! s.used.Keys && k < |s.ring| && b in s.used
    ensures Bytes(Joined(s, k, b).free) == Bytes(s.free) + Area(b, s.used[b])
    ensures Bytes(Joined(s, k, b).used) == Bytes(s.used) - Area(b, s.used[b])
  {
    AddedBytes(s.free, b, s.used[b]);
    RemovedBytes(s.used, b);
  }

  /** Free block k takes in the one after it. */
  ghost function Merged(s: Heap, k: nat): (t: Heap)
    requires k + 1 < |s.ring| && s.ring[k] in s.free && s.ring[k + 1] in s.free && s.ring[k + 1] in s.ptr
  {
    var (a, b) := (s.ring[k], s.ring[k + 1]);
    Heap(Without(s.ring, k + 1), s.ptr[a := s.ptr[b]], s.size[a := s.free[a] + s.free[b]],
         (s.free - {b})[a := s.free[a] + s.free[b]], s.used)
  }

  ghost predicate CanMerge(s: Heap, k: nat)
  {
    && k + 1 < |s.ring| && s.ring[k] in s.free && s.ring[k + 1] in s.free
    && s.ring[k] + UNIT * s.free[s.ring[k]] == s.ring[k + 1]
  }

  lemma MergedRing(base: nat, s: Heap, k: nat)
    requires Good(base, s) && CanMerge(s, k)
    ensures s.ring[k + 1] in s.ptr
    ensures var t := Merged(s, k);
            && t.ring != [] && t.ring[0] == base && Ascending(t.ring) && Linked(t.ring, t.ptr)
            && Members(t.ring) == t.free.Keys + {base} && base !in t.free && t.free.Keys == s.free.Keys - {s.ring[k + 1]}
  {
    InOrder(s.ring, k, k + 1);
    FreeAt(base, s, k);
    LinkOut(s.ring, s.ptr, k);
    WithoutAscending(s.ring, k + 1);
    WithoutMembers(s.ring, k + 1);
    assert Merged(s, k).free.Keys == s.free.Keys - {s.ring[k + 1]};
  }

  lemma MergedGood(base: nat, s: Heap, k: nat)
    requires Good(base, s) && CanMerge(s, k)
    ensures s.ring[k + 1] in s.ptr && Good(base, Merged(s, k))
  {
    var a: nat, b: nat := s.ring[k], s.ring[k + 1];
    InOrder(s.ring, k, k + 1);
    FreeAt(base, s, k);
    MergedRing(base, s, k);
    MergedSized(s.size, s.free, s.used, base, a, b);
    MergedApart(s.free, s.used, a, b);
  }

  lemma MergedSized(size: map<nat, nat>, x: Blocks, y: Blocks, base: nat, a: nat, b: nat)
    requires Sized(size, x, base) && Sized(size, y, base) && x.Keys !! y.Keys && a in x && b in x && a != b
    ensures Sized(size[a := x[a] + x[b]], (x - {b})[a := x[a] + x[b]], base) && Sized(size[a := x[a] + x[b]], y, base)
  {
    var (size', x') := (size[a := x[a] + x[b]], (x - {b})[a := x[a] + x[b]]);
    forall c | c in x' ensures SizedAt(size', x', base, c) { assert SizedAt(size, x, base, c); }
    forall c | c in y ensures SizedAt(size', y, base, c) { assert SizedAt(size, y, base, c); }
  }

  lemma MergedApart(x: Blocks, y: Blocks, a: nat, b: nat)
    requires Apart(x, x) && Apart(x, y) && a in x && b in x && a != b && a + UNIT * x[a] == b && x.Keys !! y.Keys
    ensures Apart((x - {b})[a := x[a] + x[b]], (x - {b})[a := x[a] + x[b]]) && Apart((x - {b})[a := x[a] + x[b]], y)
  {
    var m := (x - {b})[a := x[a] + x[b]];
    forall c, d | c in m && d in m && c != d ensures Clear(c, m[c], d, m[d]) {
      assert Clear(c, x[c], d, x[d]);
      if c == a { assert Clear(b, x[b], d, x[d]); }
      if d == a { assert Clear(c, x[c], b, x[b]); }
    }
    forall c, d | c in m && d in y && c != d ensures Clear(c, m[c], d, y[d]) {
      assert Clear(c, x[c], d, y[d]);
      if c == a { assert Clear(b, x[b], d, y[d]); }
    }
  }

  lemma MergedTouch(s: Heap, k: nat, except: set<nat>)
    requires CanMerge(s, k) && s.ring[k + 1] in s.ptr && s.ring[k + 1] !in except && NoTouchBut(s.free, except)
    requires s.ring[k] != s.ring[k + 1]
    ensures NoTouchBut(Merged(s, k).free, except - {s.ring[k]})
    ensures Bytes(Merged(s, k).free) == Bytes(s.free)
  {
    var a: nat, b: nat := s.ring[k], s.ring[k + 1];
    MergedBytes(s.free, a, b);
    var free' := Merged(s, k).free;
    forall c | c in free' && c !in except - {a} ensures EndsAlone(free', c) {
      assert EndsAlone(s.free, if c == a then b else c);
    }
  }

  /** A free block that ends alone needs no exception. */
  lemma TouchedLess(free: Blocks, except: set<nat>, a: nat)
    requires NoTouchBut(free, except) && (a in free ==> EndsAlone(free, a))
    ensures NoTouchBut(free, except - {a})
  {
    forall c | c in free && c !in except - {a} ensures EndsAlone(free, c) { }
  }

  /** malloc's exact fit: the free block after block k goes into use. */
  ghost function Taken(s: Heap, k: nat): (t: Heap)
    requires k + 1 < |s.ring| && s.ring[k + 1] in s.free && s.ring[k + 1] in s.ptr
  {
    var b := s.ring[k + 1];
    Heap(Without(s.ring, k + 1), s.ptr[s.ring[k] := s.ptr[b]], s.size, s.free - {b}, s.used[b := s.free[b]])
  }

  lemma TakenGood(base: nat, s: Heap, k: nat)
    requires Good(base, s) && k + 1 < |s.ring| && s.ring[k + 1] in s.free && NoTouchBut(s.free, {})
    ensures s.ring[k + 1] in s.ptr && Good(base, Taken(s, k)) && NoTouchBut(Taken(s, k).free, {})
    ensures Bytes(Taken(s, k).free) == Bytes(s.free) - Area(s.ring[k + 1], s.free[s.ring[k + 1]])
    ensures Bytes(Taken(s, k).used) == Bytes(s.used) + Area(s.ring[k + 1], s.free[s.ring[k + 1]])
  {
    var b: nat := s.ring[k + 1];
    LinkOut(s.ring, s.ptr, k);
    WithoutAscending(s.ring, k + 1);
    WithoutMembers(s.ring, k + 1);
    var t := Taken(s, k);
    assert t.free.Keys == s.free.Keys - {b};
    Symmetric(s.free, s.used);
    Moved(s.size, base, s.used, s.free, b);
    forall c | c in t.free ensures EndsAlone(t.free, c) { assert EndsAlone(s.free, c); }
    RemovedBytes(s.free, b);
    AddedBytes(s.used, b, s.free[b]);
  }

  /** malloc's split: the last n units of a free block go into use. */
  ghost function Split(s: Heap, b: nat, n: nat): (t: Heap)
    requires b in s.free && n <= s.free[b]
  {
    var (left, q) := (s.free[b] - n, b + UNIT * (s.free[b] - n));
    Heap(s.ring, s.ptr, s.size[b := left][q := n], s.free[b := left], s.used[q := n])
  }

  /** An address inside a free block is no block's header. */
  lemma InsideIsNew(base: nat, s: Heap, b: nat, q: nat)
    requires Good(base, s) && b in s.free && b < q < b + UNIT * s.free[b]
    ensures q !in s.free && q !in s.used
  {
    forall c | c in s.free && c != b ensures c != q {
      assert SizedAt(s.size, s.free, base, c);
      assert Clear(b, s.free[b], c, s.free[c]);
    }
    forall c | c in s.used ensures c != q {
      assert SizedAt(s.size, s.used, base, c);
      assert Clear(b, s.free[b], c, s.used[c]);
    }
  }

  lemma SplitSized(size: map<nat, nat>, x: Blocks, y: Blocks, base: nat, b: nat, left: nat, q: nat, n: nat)
    requires Sized(size, x, base) && Sized(size, y, base) && x.Keys !! y.Keys && b in x && q !in x && q !in y
    requires left > 0 && n > 0 && q > base
    ensures Sized(size[b := left][q := n], x[b := left], base) && Sized(size[b := left][q := n], y[q := n], base)
  {
    var (size', x', y') := (size[b := left][q := n], x[b := left], y[q := n]);
    forall c | c in x' ensures SizedAt(size', x', base, c) { assert SizedAt(size, x, base, c); }
    forall c | c in y' ensures SizedAt(size', y', base, c) { if c != q { assert SizedAt(size, y, base, c); } }
  }

  lemma SplitTouch(free: Blocks, b: nat, left: nat)
    requires NoTouchBut(free, {}) && b in free && b + UNIT * left !in free
    ensures NoTouchBut(free[b := left], {})
  {
    var free' := free[b := left];
    forall c | c in free' ensures EndsAlone(free', c) { if c != b { assert EndsAlone(free, c); } }
  }

  lemma SplitGood(base: nat, s: Heap, b: nat, n: nat)
    requires Good(base, s) && b in s.free && 0 < n < s.free[b] && NoTouchBut(s.free, {})
    ensures Good(base, Split(s, b, n)) && NoTouchBut(Split(s, b, n).free, {})
    ensures b + UNIT * (s.free[b] - n) !in s.free && b + UNIT * (s.free[b] - n) !in s.used
    ensures Bytes(Split(s, b, n).free) == Bytes(s.free) - Area(b + UNIT * (s.free[b] - n), n)
    ensures Bytes(Split(s, b, n).used) == Bytes(s.used) + Area(b + UNIT * (s.free[b] - n), n)
  {
    var q: nat := b + UNIT * (s.free[b] - n);
    assert SizedAt(s.size, s.free, base, b);
    InsideIsNew(base, s, b, q);
    assert Split(s, b, n).free.Keys == s.free.Keys;
    SplitSized(s.size, s.free, s.used, base, b, s.free[b] - n, q, n);
    SplitTouch(s.free, b, s.free[b] - n);
    SplitApart(s.free, s.used, b, n);
    ShortenedBytes(s.free, b, n);
    AddedBytes(s.used, q, n);
  }

  lemma SplitApart(x: Blocks, y: Blocks, b: nat, n: nat)
    requires Apart(x, x) && Apart(y, y) && Apart(x, y) && b in x && n < x[b] && x.Keys !! y.Keys
    ensures Apart(x[b := x[b] - n], x[b := x[b] - n])
    ensures Apart(y[b + UNIT * (x[b] - n) := n], y[b + UNIT * (x[b] - n) := n])
    ensures Apart(x[b := x[b] - n], y[b + UNIT * (x[b] - n) := n])
  {
    var q := b + UNIT * (x[b] - n);
    var (x', y') := (x[b := x[b] - n], y[q := n]);
    forall c, d | c in x' && d in x' && c != d ensures Clear(c, x'[c], d, x'[d]) { assert Clear(c, x[c], d, x[d]); }
    forall c, d | c in y' && d in y' && c != d ensures Clear(c, y'[c], d, y'[d]) {
      if c == q { assert Clear(b, x[b], d, y[d]); } else if d == q { assert Clear(b, x[b], c, y[c]); }
      else { assert Clear(c, y[c], d, y[d]); }
    }
    forall c, d | c in x' && d in y' && c != d ensures Clear(c, x'[c], d, y'[d]) {
      if d == q { if c != b { assert Clear(c, x[c], b, x[b]); } } else { assert Clear(c, x[c], d, y[d]); }
    }
  }

  /** morecore's new block, in use until it is freed. */
  ghost function Enlarged(s: Heap, a: nat, n: nat): (t: Heap)
  {
    s.(size := s.size[a := n], used := s.used[a := n])
  }

  /** A block whose bytes all lie below a ends at or below a. */
  lemma EndsBelow(blocks: Blocks, a: nat, b: nat)
    requires b in blocks && blocks[b] > 0 && forall x: nat | x in Bytes(blocks) :: x < a
    ensures b + UNIT * blocks[b] <= a && b < a
  {
    assert InBlock(b, blocks[b], b + UNIT * blocks[b] - 1);
    assert b + UNIT * blocks[b] - 1 in Bytes(blocks);
  }

  lemma EnlargedGood(base: nat, s: Heap, a: nat, n: nat)
    requires Good(base, s) && a > base && n > 0
    requires forall x: nat | x in Bytes(s.free) :: x < a
    requires forall x: nat | x in Bytes(s.used) :: x < a
    ensures Good(base, Enlarged(s, a, n)) && a !in s.used && a !in s.free
    ensures Bytes(Enlarged(s, a, n).used) == Bytes(s.used) + Area(a, n)
  {
    forall b | b in s.free ensures b + UNIT * s.free[b] <= a && b < a {
      assert SizedAt(s.size, s.free, base, b);
      EndsBelow(s.free, a, b);
    }
    forall b | b in s.used ensures b + UNIT * s.used[b] <= a && b < a {
      assert SizedAt(s.size, s.used, base, b);
      EndsBelow(s.used, a, b);
    }
    AddedBytes(s.used, a, n);
    var t := Enlarged(s, a, n);
    forall c | c in t.used ensures SizedAt(t.size, t.used, base, c) { if c != a { assert SizedAt(s.size, s.used, base, c); } }
    forall c | c in t.free ensures SizedAt(t.size, t.free, base, c) { assert SizedAt(s.size, s.free, base, c); }
    forall c, d | c in t.used && d in t.used && c != d ensures Clear(c, t.used[c], d, t.used[d]) {
      if c != a && d != a { assert Clear(c, s.used[c], d, s.used[d]); }
    }
    forall c, d | c in t.free && d in t.used && c != d ensures Clear(c, t.free[c], d, t.used[d]) {
      if d != a { assert Clear(c, s.free[c], d, s.used[d]); }
    }
  }

  // What the invariant means.

  /** No byte is both free and in use. */
  lemma FreeAndUsedApart(base: nat, s: Heap)
    requires Good(base, s)
    ensures Bytes(s.free) * Bytes(s.used) == iset{}
  {
    forall x: nat | x in Bytes(s.free) ensures x !in Bytes(s.used) {
      var a :| a in s.free && InBlock(a, s.free[a], x);
      forall b | b in s.used ensures !InBlock(b, s.used[b], x) { assert Clear(a, s.free[a], b, s.used[b]); }
    }
  }

  /** A free block of one heap starts one of the other, if the same bytes are free. */
  lemma SameStart(base: nat, s: Heap, t: Heap, a: nat)
    requires Good(base, s) && Good(base, t) && NoTouchBut(s.free, {}) && Bytes(s.free) == Bytes(t.free) && a in s.free
    ensures a in t.free
  {
    assert SizedAt(s.size, s.free, base, a) && InBlock(a, s.free[a], a);
    assert a in Bytes(t.free);
    forall d | d in s.free ensures !InBlock(d, s.free[d], a - 1) {
      assert d == a || Clear(a, s.free[a], d, s.free[d]);
      assert EndsAlone(s.free, d);
    }
    var c :| c in t.free && InBlock(c, t.free[c], a);
    var x: nat := a - 1;
    assert InBlock(c, t.free[c], x) ==> Covers(t.free, x);
    assert x in Bytes(t.free) <==> x in Bytes(s.free);
  }

  lemma SameEnd(base: nat, s: Heap, t: Heap, a: nat)
    requires Good(base, s) && Good(base, t) && NoTouchBut(s.free, {}) && Bytes(s.free) == Bytes(t.free)
    requires a in s.free && a in t.free
    ensures s.free[a] >= t.free[a]
  {
    assert SizedAt(s.size, s.free, base, a);
    assert EndsAlone(s.free, a);
    var e: nat := a + UNIT * s.free[a];
    forall d | d in s.free ensures !InBlock(d, s.free[d], e) { assert d == a || Clear(a, s.free[a], d, s.free[d]); }
    assert InBlock(a, t.free[a], e) ==> Covers(t.free, e);
    assert e in Bytes(t.free) <==> e in Bytes(s.free);
  }

  lemma NoMembers(r: seq<nat>)
    ensures r == [] <==> Members(r) == {}
  {
    if r != [] { assert r[0] in Members(r); }
  }

  lemma {:induction false} SortedUnique(r: seq<nat>, q: seq<nat>)
    requires Ascending(r) && Ascending(q) && Members(r) == Members(q)
    ensures r == q
    decreases |r|
  {
    if r == [] || q == [] {
      NoMembers(r);
      NoMembers(q);
    } else {
      var (m, n) := (|r| - 1, |q| - 1);
      assert r[m] in Members(q) && q[n] in Members(r);
      var i: nat :| i < |q| && q[i] == r[m];
      var j: nat :| j < |r| && r[j] == q[n];
      InOrder(q, n, i);
      InOrder(r, m, j);
      WithoutMembers(r, m);
      WithoutMembers(q, n);
      WithoutAscending(r, m);
      WithoutAscending(q, n);
      InOrder(q, i, n);
      InOrder(r, j, m);
      SortedUnique(Without(r, m), Without(q, n));
      assert r == Without(r, m) + [r[m]] && q == Without(q, n) + [q[n]];
    }
  }

  /** The free list is determined by which bytes are free, whatever calls led to it. */
  lemma FreeListUnique(base: nat, s: Heap, t: Heap)
    requires Good(base, s) && Good(base, t) && NoTouchBut(s.free, {}) && NoTouchBut(t.free, {})
    requires Bytes(s.free) == Bytes(t.free)
    ensures s.free == t.free && s.ring == t.ring
  {
    forall a | a in s.free ensures a in t.free && s.free[a] == t.free[a] {
      SameStart(base, s, t, a);
      SameEnd(base, s, t, a);
      SameEnd(base, t, s, a);
    }
    forall a | a in t.free ensures a in s.free { SameStart(base, t, s, a); }
    SortedUnique(s.ring, t.ring);
  }
}
