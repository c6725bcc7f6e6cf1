/** The buffer cache: reference counts, the least-recently-used order and which block each buffer holds. */
module BufferCache {

  /** NBUF (kernel/param.h). */
  const NBUF: nat := 30

  /** What a block holds; the cache only copies it. */
  type Content = int

  datatype Buf = Buf(dev: nat, blockno: nat, valid: bool, refcnt: int, data: Content)

  /**
   order is the ring from head.next to head.prev. stamp[b] is the time of the last brelse that left
   buffer b unreferenced and so moved it to the front, or of its insertion by binit.
   */
  datatype Cache = Cache(bufs: seq<Buf>, order: seq<nat>, stamp: seq<nat>, clock: nat)

  ghost predicate IsOrder(order: seq<nat>)
  {
    && |order| == NBUF
    && (forall i | 0 <= i < |order| :: order[i] < NBUF)
    && (forall i, j | 0 <= i < j < |order| :: order[i] != order[j])
  }

  /** The ring is sorted by time, newest first. */
  ghost predicate ByTime(order: seq<nat>, stamp: seq<nat>, clock: nat)
    requires IsOrder(order) && |stamp| == NBUF
  {
    && (forall i, j | 0 <= i < j < |order| :: stamp[order[i]] > stamp[order[j]])
    && (forall b | 0 <= b < NBUF :: stamp[b] < clock)
  }

  ghost predicate Sorted(s: Cache)
  {
    |s.bufs| == NBUF && |s.stamp| == NBUF && IsOrder(s.order) && ByTime(s.order, s.stamp, s.clock)
  }

  predicate Holds(b: Buf, dev: nat, blockno: nat) { b.dev == dev && b.blockno == blockno }

  /** At most one buffer for a block of a real device. */
  ghost predicate Coherent(s: Cache)
  {
    forall i, j | 0 <= i < |s.bufs| && 0 <= j < |s.bufs| && s.bufs[i].dev != 0
                  && Holds(s.bufs[j], s.bufs[i].dev, s.bufs[i].blockno) :: i == j
  }

  ghost predicate Good(s: Cache) { Sorted(s) && Coherent(s) }

  // Searching the ring.

  /** The first buffer of the list that holds the block, or -1. */
  ghost function FirstHolding(bufs: seq<Buf>, list: seq<nat>, dev: nat, blockno: nat): (b: int)
    requires forall i | 0 <= i < |list| :: list[i] < |bufs|
    ensures b >= -1
    ensures b >= 0 ==> b as nat in list && b < |bufs| && Holds(bufs[b], dev, blockno)
    ensures b < 0 ==> forall i | 0 <= i < |list| :: !Holds(bufs[list[i]], dev, blockno)
  {
    if list == [] then -1
    else if Holds(bufs[list[0]], dev, blockno) then list[0]
    else FirstHolding(bufs, list[1..], dev, blockno)
  }

  /** The last buffer of the list that nobody references, or -1. */
  ghost function LastUnused(bufs: seq<Buf>, list: seq<nat>): (b: int)
    requires forall i | 0 <= i < |list| :: list[i] < |bufs|
    ensures b >= -1
    ensures b >= 0 ==> b as nat in list && b < |bufs| && bufs[b].refcnt == 0
    ensures b < 0 ==> forall i | 0 <= i < |list| :: bufs[list[i]].refcnt != 0
  {
    if list == [] then -1
    else if bufs[list[|list| - 1]].refcnt == 0 then list[|list| - 1]
    else LastUnused(bufs, list[..|list| - 1])
  }

  // Operations.

  /** bget; -1 is its panic for want of buffers. */
  ghost function Get(s: Cache, dev: nat, blockno: nat): (r: (int, Cache))
    requires Sorted(s)
    ensures Sorted(r.1)
  {
    var hit := FirstHolding(s.bufs, s.order, dev, blockno);
    if hit >= 0 then
      (hit, s.(bufs := s.bufs[hit := s.bufs[hit].(refcnt := s.bufs[hit].refcnt + 1)]))
    else
      var lru := LastUnused(s.bufs, s.order);
      if lru >= 0 then
        (lru, s.(bufs := s.bufs[lru := s.bufs[lru].(dev := dev, blockno := blockno, valid := false, refcnt := 1)]))
      else (-1, s)
  }

  function Without(list: seq<nat>, b: nat): (r: seq<nat>)
    ensures b !in r
    ensures forall x :: x in r <==> x in list && x != b
    ensures |r| <= |list|
  {
    if list == [] then []
    else if list[0] == b then Without(list[1..], b)
    else [list[0]] + Without(list[1..], b)
  }

  /** bread, where the disk holds content; -1 if bget panics. */
  ghost function Bread(s: Cache, dev: nat, blockno: nat, content: Content): (r: (int, Cache))
    requires Sorted(s)
    ensures Sorted(r.1)
  {
    var (b, c) := Get(s, dev, blockno);
    if b < 0 || c.bufs[b].valid then (b, c) else (b, c.(bufs := c.bufs[b := c.bufs[b].(data := content, valid := true)]))
  }

  /** brelse, after the buffer's own lock is released. */
  ghost function Release(s: Cache, b: nat): (r: Cache)
    requires |s.bufs| == NBUF && |s.stamp| == NBUF && b < NBUF
  {
    var bufs := s.bufs[b := s.bufs[b].(refcnt := s.bufs[b].refcnt - 1)];
    if bufs[b].refcnt == 0 then
      Cache(bufs, [b] + Without(s.order, b), s.stamp[b := s.clock], s.clock + 1)
    else s.(bufs := bufs)
  }

  /** bpin (by 1) and bunpin (by -1). */
  ghost function Pin(s: Cache, b: nat, delta: int): (r: Cache)
    requires |s.bufs| == NBUF && b < NBUF
  {
    s.(bufs := s.bufs[b := s.bufs[b].(refcnt := s.bufs[b].refcnt + delta)])
  }

  // What the operations keep.

  lemma {:induction false} OrderCovers(order: seq<nat>, b: nat)
    requires IsOrder(order) && b < NBUF
    ensures b in order
  {
    DistinctCovers(order, NBUF);
  }

  ghost function Elements(list: seq<nat>): (r: set<nat>)
    ensures forall x :: x in r <==> x in list
  {
    if list == [] then {} else
    assert list == list[..|list| - 1] + [list[|list| - 1]];
    Elements(list[..|list| - 1]) + {list[|list| - 1]}
  }

  ghost function Below(n: nat): (r: set<nat>)
    ensures |r| == n && forall x: nat :: x in r <==> x < n
  {
    if n == 0 then {} else Below(n - 1) + {n - 1}
  }

  lemma {:induction false} DistinctSize(list: seq<nat>)
    requires forall i, j | 0 <= i < j < |list| :: list[i] != list[j]
    ensures |Elements(list)| == |list|
    decreases |list|
  {
    if list != [] {
      DistinctSize(list[..|list| - 1]);
      assert list[|list| - 1] !in list[..|list| - 1];
    }
  }

  /** n different numbers below n are all of them. */
  lemma DistinctCovers(list: seq<nat>, n: nat)
    requires |list| == n && (forall i | 0 <= i < n :: list[i] < n)
    requires forall i, j | 0 <= i < j < n :: list[i] != list[j]
    ensures forall k: nat | k < n :: k in list
  {
    DistinctSize(list);
    forall k: nat | k < n ensures k in list {
      if k !in list {
        SubsetSize(Elements(list), Below(n) - {k});
      }
    }
  }

  lemma {:induction false} SubsetSize(a: set<nat>, b: set<nat>)
    requires a <= b
    ensures |a| <= |b|
    decreases |a|
  {
    if a != {} {
      var x :| x in a;
      SubsetSize(a - {x}, b - {x});
    }
  }

  /** A hit finds the one buffer that holds the block; a miss finds none anywhere in the cache. */
  lemma FindsTheHolder(s: Cache, dev: nat, blockno: nat, b: nat)
    requires Good(s) && dev != 0 && b < NBUF
    ensures FirstHolding(s.bufs, s.order, dev, blockno) == b <==> Holds(s.bufs[b], dev, blockno)
  {
    OrderCovers(s.order, b);
  }

  /** A miss recycles, of all unreferenced buffers, the one released longest ago. */
  lemma {:induction false} RecyclesTheOldest(s: Cache, n: nat, c: nat)
    requires Sorted(s) && n <= NBUF && c in s.order[..n] && s.bufs[c].refcnt == 0
    ensures var b := LastUnused(s.bufs, s.order[..n]);
            b >= 0 && s.bufs[b].refcnt == 0 && s.stamp[b] <= s.stamp[c] && (b != c ==> s.stamp[b] < s.stamp[c])
    decreases n
  {
    var list := s.order[..n];
    var i :| 0 <= i < n && list[i] == c;
    assert list[..n - 1] == s.order[..n - 1];
    if s.bufs[list[n - 1]].refcnt != 0 {
      assert s.order[..n - 1][i] == c;
      RecyclesTheOldest(s, n - 1, c);
    }
  }

  lemma {:induction false} WithoutDistinct(list: seq<nat>, b: nat)
    requires forall i, j | 0 <= i < j < |list| :: list[i] != list[j]
    ensures forall i, j | 0 <= i < j < |Without(list, b)| :: Without(list, b)[i] != Without(list, b)[j]
    ensures |Without(list, b)| == |list| - (if b in list then 1 else 0)
    decreases |list|
  {
    if list != [] {
      WithoutDistinct(list[1..], b);
      assert list == [list[0]] + list[1..];
      assert list[0] !in list[1..];
    }
  }

  lemma {:induction false} WithoutByTime(list: seq<nat>, b: nat, stamp: seq<nat>)
    requires forall i | 0 <= i < |list| :: list[i] < |stamp|
    requires forall i, j | 0 <= i < j < |list| :: stamp[list[i]] > stamp[list[j]]
    ensures forall i | 0 <= i < |Without(list, b)| :: Without(list, b)[i] < |stamp|
    ensures forall i, j | 0 <= i < j < |Without(list, b)| :: stamp[Without(list, b)[i]] > stamp[Without(list, b)[j]]
    decreases |list|
  {
    if list != [] {
      WithoutByTime(list[1..], b, stamp);
      var rest := Without(list[1..], b);
      forall j | 0 <= j < |rest| ensures stamp[list[0]] > stamp[rest[j]] {
        assert rest[j] in list[1..];
        var i :| 0 <= i < |list[1..]| && list[1..][i] == rest[j];
        assert list[i + 1] == rest[j];
      }
    }
  }

  lemma ReleaseSorted(s: Cache, b: nat)
    requires Sorted(s) && b < NBUF
    ensures Sorted(Release(s, b))
  {
    OrderCovers(s.order, b);
    var rest := Without(s.order, b);
    WithoutDistinct(s.order, b);
    WithoutByTime(s.order, b, s.stamp);
    forall i | 0 <= i < |rest| ensures rest[i] < NBUF && rest[i] != b { assert rest[i] in s.order; }
  }

  lemma GetCoherent(s: Cache, dev: nat, blockno: nat)
    requires Good(s) && dev != 0
    ensures Good(Get(s, dev, blockno).1)
    ensures var (b, s') := Get(s, dev, blockno); b >= 0 ==> b < NBUF && Holds(s'.bufs[b], dev, blockno)
  {
    var (b, s') := Get(s, dev, blockno);
    if FirstHolding(s.bufs, s.order, dev, blockno) < 0 {
      forall j | 0 <= j < NBUF ensures !Holds(s.bufs[j], dev, blockno) { OrderCovers(s.order, j); }
    }
    forall i, j | 0 <= i < NBUF && 0 <= j < NBUF && s'.bufs[i].dev != 0
                  && Holds(s'.bufs[j], s'.bufs[i].dev, s'.bufs[i].blockno)
      ensures i == j
    {
      if i != b && j != b {
        assert Holds(s.bufs[j], s.bufs[i].dev, s.bufs[i].blockno);
      }
    }
  }

  lemma ReleaseCoherent(s: Cache, b: nat)
    requires Good(s) && b < NBUF
    ensures Good(Release(s, b))
  {
    ReleaseSorted(s, b);
    SameBlocksCoherent(s, Release(s, b));
  }

  lemma SameBlocksCoherent(s: Cache, s': Cache)
    requires Coherent(s) && |s'.bufs| == |s.bufs|
    requires forall i | 0 <= i < |s.bufs| :: s'.bufs[i].dev == s.bufs[i].dev && s'.bufs[i].blockno == s.bufs[i].blockno
    ensures Coherent(s')
  {
    forall i, j | 0 <= i < |s.bufs| && 0 <= j < |s.bufs| && s'.bufs[i].dev != 0
                  && Holds(s'.bufs[j], s'.bufs[i].dev, s'.bufs[i].blockno)
      ensures i == j
    {
      assert Holds(s.bufs[j], s.bufs[i].dev, s.bufs[i].blockno);
    }
  }

  // Runs.

  /** Which block of which device. */
  type Key = (nat, nat)

  function KeyOf(b: Buf): Key { (b.dev, b.blockno) }

  /**
   The cache; per buffer how many callers hold it and how many pins the log has on it; what the disk
   holds; and what callers have made of blocks since they were read in. The last only records, no
   step reads it.
   */
  datatype Sys = Sys(cache: Cache, held: seq<nat>, pins: seq<nat>, disk: map<Key, Content>, mods: map<Key, Content>)

  /** What the disk holds; a block never written is zero. */
  function OnDisk(s: Sys, k: Key): Content { if k in s.disk then s.disk[k] else 0 }

  datatype Event =
    | Gets(dev: nat, blockno: nat)
    | Fills(b: nat)                    // bread's disk read into a buffer that is not valid
    | Modifies(b: nat, data: Content)
    | Stores(b: nat)                   // bwrite
    | Releases(b: nat)
    | Pins(b: nat)                     // log_write of a block new to the transaction
    | Unpins(b: nat)                   // install_trans

  ghost predicate CanHappen(s: Sys, e: Event)
    requires |s.held| == NBUF && |s.pins| == NBUF && Good(s.cache)
  {
    match e
    case Gets(dev, blockno) => dev != 0 && Get(s.cache, dev, blockno).0 >= 0
    case Fills(b) => b < NBUF && s.held[b] > 0 && !s.cache.bufs[b].valid
    case Modifies(b, _) => b < NBUF && s.held[b] > 0 && s.cache.bufs[b].valid
    case Stores(b) => b < NBUF && s.held[b] > 0 && s.cache.bufs[b].valid
    case Releases(b) => b < NBUF && s.held[b] > 0
    case Pins(b) => b < NBUF && s.held[b] > 0 && s.cache.bufs[b].valid
    case Unpins(b) => b < NBUF && s.held[b] > 0 && s.pins[b] > 0
  }

  ghost function SetData(s: Cache, b: nat, data: Content): Cache
    requires b < |s.bufs|
  {
    s.(bufs := s.bufs[b := s.bufs[b].(data := data, valid := true)])
  }

  ghost predicate Cached(s: Cache, k: Key) { exists b :: 0 <= b < |s.bufs| && Holds(s.bufs[b], k.0, k.1) }

  /** Changes to a block that leaves the cache are gone. */
  ghost function StillCached(mods: map<Key, Content>, s: Cache): map<Key, Content> { map k | k in mods && Cached(s, k) :: mods[k] }

  ghost function Happen(s: Sys, e: Event): Sys
    requires |s.held| == NBUF && |s.pins| == NBUF && Good(s.cache) && CanHappen(s, e)
  {
    match e
    case Gets(dev, blockno) =>
      var (b, c) := Get(s.cache, dev, blockno);
      s.(cache := c, held := s.held[b := s.held[b] + 1], mods := StillCached(s.mods, c))
    case Fills(b) => s.(cache := SetData(s.cache, b, OnDisk(s, KeyOf(s.cache.bufs[b]))))
    case Modifies(b, data) => s.(cache := SetData(s.cache, b, data), mods := s.mods[KeyOf(s.cache.bufs[b]) := data])
    case Stores(b) => s.(disk := s.disk[KeyOf(s.cache.bufs[b]) := s.cache.bufs[b].data])
    case Releases(b) => s.(cache := Release(s.cache, b), held := s.held[b := s.held[b] - 1])
    case Pins(b) => s.(cache := Pin(s.cache, b, 1), pins := s.pins[b := s.pins[b] + 1])
    case Unpins(b) => s.(cache := Pin(s.cache, b, -1), pins := s.pins[b := s.pins[b] - 1])
  }

  ghost predicate Inv(s: Sys)
  {
    && |s.held| == NBUF && |s.pins| == NBUF && Good(s.cache)
    && (forall b | 0 <= b < NBUF :: s.cache.bufs[b].refcnt == s.held[b] + s.pins[b])
    && (forall b | 0 <= b < NBUF && s.pins[b] > 0 :: s.cache.bufs[b].valid)
  }

  lemma GetKeeps(s: Sys, dev: nat, blockno: nat)
    requires Inv(s) && CanHappen(s, Gets(dev, blockno))
    ensures Inv(Happen(s, Gets(dev, blockno)))
  {
    GetCoherent(s.cache, dev, blockno);
  }

  lemma DataKeeps(s: Sys, b: nat, data: Content)
    requires Inv(s) && b < NBUF
    ensures Inv(s.(cache := SetData(s.cache, b, data)))
  {
    SameBlocksCoherent(s.cache, SetData(s.cache, b, data));
  }

  lemma ReleaseKeeps(s: Sys, b: nat)
    requires Inv(s) && CanHappen(s, Releases(b))
    ensures Inv(Happen(s, Releases(b)))
  {
    ReleaseCoherent(s.cache, b);
  }

  lemma PinKeeps(s: Sys, b: nat)
    requires Inv(s)
    ensures CanHappen(s, Pins(b)) ==> Inv(Happen(s, Pins(b)))
    ensures CanHappen(s, Unpins(b)) ==> Inv(Happen(s, Unpins(b)))
  {
    if b < NBUF {
      SameBlocksCoherent(s.cache, Pin(s.cache, b, 1));
      SameBlocksCoherent(s.cache, Pin(s.cache, b, -1));
    }
  }

  lemma EventKeeps(s: Sys, e: Event)
    requires Inv(s) && CanHappen(s, e)
    ensures Inv(Happen(s, e))
  {
    match e
    case Gets(dev, blockno) => GetKeeps(s, dev, blockno);
    case Fills(b) => DataKeeps(s, b, OnDisk(s, KeyOf(s.cache.bufs[b])));
    case Modifies(b, data) => DataKeeps(s, b, data);
    case Stores(b) =>
    case Releases(b) => ReleaseKeeps(s, b);
    case Pins(b) => PinKeeps(s, b);
    case Unpins(b) => PinKeeps(s, b);
  }

  /** The events can happen in this order and the log's last pin on buffer b is never dropped. */
  ghost predicate RunsPinned(s: Sys, events: seq<Event>, b: nat, s': Sys)
    requires b < NBUF
    decreases |events|
  {
    && |s.pins| == NBUF && |s.held| == NBUF && s.pins[b] > 0 && Good(s.cache)
    && if events == [] then s == s'
       else CanHappen(s, events[0]) && RunsPinned(Happen(s, events[0]), events[1..], b, s')
  }

  lemma PinnedStep(s: Sys, e: Event, b: nat)
    requires Inv(s) && CanHappen(s, e) && b < NBUF && s.pins[b] > 0
    ensures var (was, now) := (s.cache.bufs[b], Happen(s, e).cache.bufs[b]);
            now.dev == was.dev && now.blockno == was.blockno && (!(e.Modifies? && e.b == b) ==> now.data == was.data)
  {
  }

  /**
   While the log has a pin on a buffer, the buffer keeps its block through any run, and its
   contents too except for writes by a holder; whoever asks for the block gets that buffer.
   */
  lemma {:induction false} PinnedStays(s: Sys, events: seq<Event>, b: nat, s': Sys)
    requires Inv(s) && b < NBUF && RunsPinned(s, events, b, s') && s.cache.bufs[b].dev != 0
    ensures Inv(s')
    ensures var (was, now) := (s.cache.bufs[b], s'.cache.bufs[b]);
            && now.dev == was.dev && now.blockno == was.blockno && now.valid
            && ((forall e | e in events :: !(e.Modifies? && e.b == b)) ==> now.data == was.data)
            && FirstHolding(s'.cache.bufs, s'.cache.order, was.dev, was.blockno) == b
    decreases |events|
  {
    if events == [] {
      FindsTheHolder(s.cache, s.cache.bufs[b].dev, s.cache.bufs[b].blockno, b);
    } else {
      var e := events[0];
      EventKeeps(s, e);
      var mid := Happen(s, e);
      PinnedStep(s, e, b);
      PinnedStays(mid, events[1..], b, s');
      if forall e | e in events :: !(e.Modifies? && e.b == b) {
        assert e in events;
        assert forall e | e in events[1..] :: e in events;
      }
    }
  }

  /** When as many different blocks are pinned as there are buffers, no other block can be brought in. */
  lemma PinnedBlocksFillCache(s: Cache, blocks: seq<nat>, where: seq<nat>, dev: nat, other: nat)
    requires Good(s) && dev != 0 && |blocks| == |where| == NBUF && other !in blocks
    requires forall i, j | 0 <= i < j < NBUF :: blocks[i] != blocks[j]
    requires forall i | 0 <= i < NBUF :: where[i] < NBUF && Holds(s.bufs[where[i]], dev, blocks[i]) && s.bufs[where[i]].refcnt > 0
    ensures Get(s, dev, other) == (-1, s)
  {
    DistinctCovers(where, NBUF);
    forall k | 0 <= k < NBUF ensures !Holds(s.bufs[k], dev, other) && s.bufs[k].refcnt != 0 {
      assert k in where;
      var i :| 0 <= i < NBUF && where[i] == k;
      assert blocks[i] in blocks;
    }
  }
}
