/** The buffer cache over whole runs: what bread returns, and which buffer a miss recycles. */
module CacheRuns {
  import opened BufferCache

  // Contents.

  /** What callers made of the block since it was read in, or else what the disk holds. */
  ghost function Latest(s: Sys, k: Key): Content { if k in s.mods then s.mods[k] else OnDisk(s, k) }

  /** A valid buffer is of a real device and holds the latest of its block. */
  ghost predicate RightAt(s: Sys, b: int)
  {
    0 <= b < |s.cache.bufs| && s.cache.bufs[b].valid ==>
      s.cache.bufs[b].dev != 0 && s.cache.bufs[b].data == Latest(s, KeyOf(s.cache.bufs[b]))
  }

  ghost predicate ValidFor(s: Sys, k: Key, b: int) { 0 <= b < |s.cache.bufs| && KeyOf(s.cache.bufs[b]) == k && s.cache.bufs[b].valid }

  /** A block with changes is in a valid buffer. */
  ghost predicate InCache(s: Sys, k: Key) { exists b :: ValidFor(s, k, b) }

  ghost predicate Faithful(s: Sys)
  {
    && Inv(s)
    && (forall b {:trigger RightAt(s, b)} :: RightAt(s, b))
    && (forall k {:trigger InCache(s, k)} | k in s.mods :: InCache(s, k))
  }

  /** Two valid buffers, or two of a real device, do not hold one block. */
  lemma OneBuffer(s: Sys, b: int, c: int)
    requires Inv(s) && 0 <= b < NBUF && 0 <= c < NBUF && KeyOf(s.cache.bufs[b]) == KeyOf(s.cache.bufs[c]) && s.cache.bufs[b].dev != 0
    ensures b == c
  {
    assert Holds(s.cache.bufs[c], s.cache.bufs[b].dev, s.cache.bufs[b].blockno);
  }

  /** Buffers keep their blocks, data and valid flags, and disk and changes are the same. */
  lemma SameFaithful(s: Sys, s': Sys)
    requires Faithful(s) && Inv(s') && s'.disk == s.disk && s'.mods == s.mods
    requires forall b | 0 <= b < NBUF ::
               var (was, now) := (s.cache.bufs[b], s'.cache.bufs[b]);
               KeyOf(now) == KeyOf(was) && now.data == was.data && now.valid == was.valid
    ensures Faithful(s')
  {
    forall b ensures RightAt(s', b) { assert RightAt(s, b); }
    forall k | k in s'.mods ensures InCache(s', k) {
      assert InCache(s, k);
      var b :| ValidFor(s, k, b);
      assert ValidFor(s', k, b);
    }
  }

  lemma ReleaseSame(s: Sys, b: nat)
    requires Inv(s) && b < NBUF
    ensures forall c | 0 <= c < NBUF ::
              var (was, now) := (s.cache.bufs[c], Release(s.cache, b).bufs[c]);
              KeyOf(now) == KeyOf(was) && now.data == was.data && now.valid == was.valid
  {
  }

  /** bget of a block that is cached changes no contents. */
  lemma HitFaithful(s: Sys, dev: nat, blockno: nat)
    requires Faithful(s) && CanHappen(s, Gets(dev, blockno)) && FirstHolding(s.cache.bufs, s.cache.order, dev, blockno) >= 0
    ensures Faithful(Happen(s, Gets(dev, blockno))) && Happen(s, Gets(dev, blockno)).mods == s.mods
  {
    var s' := Happen(s, Gets(dev, blockno));
    GetKeeps(s, dev, blockno);
    forall k | k in s.mods ensures Cached(s'.cache, k) {
      assert InCache(s, k);
      var b :| ValidFor(s, k, b);
      assert Holds(s'.cache.bufs[b], k.0, k.1);
    }
    assert s'.mods == s.mods;
    SameFaithful(s, s');
  }

  /** What a miss does: buffer b now stands for the block, with nothing read yet; the others are as they were. */
  lemma Missed(s: Sys, dev: nat, blockno: nat) returns (b: nat)
    requires Inv(s) && CanHappen(s, Gets(dev, blockno)) && FirstHolding(s.cache.bufs, s.cache.order, dev, blockno) < 0
    ensures b < NBUF && b == Get(s.cache, dev, blockno).0 && s.cache.bufs[b].refcnt == 0
    ensures var c := Get(s.cache, dev, blockno).1;
            && KeyOf(c.bufs[b]) == (dev, blockno) && !c.bufs[b].valid
            && forall i | 0 <= i < NBUF && i != b :: c.bufs[i] == s.cache.bufs[i]
    ensures forall i | 0 <= i < NBUF :: KeyOf(s.cache.bufs[i]) != (dev, blockno)
  {
    b := Get(s.cache, dev, blockno).0;
    forall i | 0 <= i < NBUF ensures KeyOf(s.cache.bufs[i]) != (dev, blockno) { OrderCovers(s.cache.order, i); }
  }

  lemma MissFaithful(s: Sys, dev: nat, blockno: nat)
    requires Faithful(s) && CanHappen(s, Gets(dev, blockno)) && FirstHolding(s.cache.bufs, s.cache.order, dev, blockno) < 0
    ensures Faithful(Happen(s, Gets(dev, blockno)))
  {
    var s' := Happen(s, Gets(dev, blockno));
    GetKeeps(s, dev, blockno);
    var b := Missed(s, dev, blockno);
    forall i ensures RightAt(s', i) {
      assert RightAt(s, i);
      if 0 <= i < NBUF && i != b { MissLatest(s, dev, blockno, i); }
    }
    forall k | k in s'.mods ensures InCache(s', k) { MissInCache(s, dev, blockno, k); }
  }

  /** The contents of a buffer that is not recycled stay the latest. */
  lemma MissLatest(s: Sys, dev: nat, blockno: nat, i: nat)
    requires Inv(s) && CanHappen(s, Gets(dev, blockno)) && i < NBUF && i != Get(s.cache, dev, blockno).0
    requires FirstHolding(s.cache.bufs, s.cache.order, dev, blockno) < 0
    ensures Latest(Happen(s, Gets(dev, blockno)), KeyOf(s.cache.bufs[i])) == Latest(s, KeyOf(s.cache.bufs[i]))
  {
    var b := Missed(s, dev, blockno);
    var k := KeyOf(s.cache.bufs[i]);
    assert Holds(Get(s.cache, dev, blockno).1.bufs[i], k.0, k.1);
  }

  lemma MissInCache(s: Sys, dev: nat, blockno: nat, k: Key)
    requires Faithful(s) && CanHappen(s, Gets(dev, blockno)) && k in Happen(s, Gets(dev, blockno)).mods
    requires FirstHolding(s.cache.bufs, s.cache.order, dev, blockno) < 0
    ensures InCache(Happen(s, Gets(dev, blockno)), k)
  {
    var s' := Happen(s, Gets(dev, blockno));
    GetKeeps(s, dev, blockno);
    var b := Missed(s, dev, blockno);
    assert InCache(s, k);
    var c :| ValidFor(s, k, c);
    assert RightAt(s, c);
    var i :| 0 <= i < |s'.cache.bufs| && Holds(s'.cache.bufs[i], k.0, k.1);
    assert i != b;
    OneBuffer(s, c, i);
    assert ValidFor(s', k, i);
  }

  /** Reading a block in, or changing it: its buffer then holds what is the latest of it. */
  lemma DataFaithful(s: Sys, s': Sys, b: nat, data: Content)
    requires Faithful(s) && Inv(s') && b < NBUF && s'.cache == SetData(s.cache, b, data) && s.cache.bufs[b].dev != 0
    requires s'.disk == s.disk && Latest(s', KeyOf(s.cache.bufs[b])) == data
    requires s'.mods == s.mods || s'.mods == s.mods[KeyOf(s.cache.bufs[b]) := data]
    ensures Faithful(s')
  {
    forall i ensures RightAt(s', i) {
      assert RightAt(s, i);
      if 0 <= i < NBUF && i != b && KeyOf(s.cache.bufs[i]) == KeyOf(s.cache.bufs[b]) { OneBuffer(s, b, i); }
    }
    assert ValidFor(s', KeyOf(s.cache.bufs[b]), b);
    forall k | k in s'.mods ensures InCache(s', k) {
      if k != KeyOf(s.cache.bufs[b]) {
        assert InCache(s, k);
        var c :| ValidFor(s, k, c);
        assert ValidFor(s', k, c);
      }
    }
  }

  /** A block whose buffer is not valid has no changes. */
  lemma NotChanged(s: Sys, b: nat)
    requires Faithful(s) && b < NBUF && !s.cache.bufs[b].valid && s.cache.bufs[b].dev != 0
    ensures KeyOf(s.cache.bufs[b]) !in s.mods
  {
    var k := KeyOf(s.cache.bufs[b]);
    forall c ensures !ValidFor(s, k, c) {
      if 0 <= c < NBUF && KeyOf(s.cache.bufs[c]) == k { OneBuffer(s, b, c); }
    }
    assert k in s.mods ==> InCache(s, k);
  }

  /** A held buffer is of a real device. */
  ghost predicate RealAt(s: Sys, b: int) { 0 <= b < |s.held| && b < |s.cache.bufs| && s.held[b] > 0 ==> s.cache.bufs[b].dev != 0 }

  ghost predicate Real(s: Sys) { forall b {:trigger RealAt(s, b)} :: RealAt(s, b) }

  lemma RealStep(s: Sys, e: Event)
    requires Inv(s) && Real(s) && CanHappen(s, e)
    ensures Real(Happen(s, e))
  {
    forall b ensures RealAt(Happen(s, e), b) {
      assert RealAt(s, b);
      if e.Gets? { GetCoherent(s.cache, e.dev, e.blockno); }
    }
  }

  lemma StoreFaithful(s: Sys, b: nat)
    requires Faithful(s) && CanHappen(s, Stores(b))
    ensures Faithful(Happen(s, Stores(b)))
  {
    var s' := Happen(s, Stores(b));
    assert RightAt(s, b);
    forall i ensures RightAt(s', i) { assert RightAt(s, i); }
    forall k | k in s'.mods ensures InCache(s', k) {
      assert InCache(s, k);
      var c :| ValidFor(s, k, c);
      assert ValidFor(s', k, c);
    }
  }

  lemma StepFaithful(s: Sys, e: Event)
    requires Faithful(s) && Real(s) && CanHappen(s, e)
    ensures Faithful(Happen(s, e))
  {
    EventKeeps(s, e);
    match e
    case Gets(dev, blockno) =>
      if FirstHolding(s.cache.bufs, s.cache.order, dev, blockno) >= 0 {
        HitFaithful(s, dev, blockno);
      } else {
        MissFaithful(s, dev, blockno);
      }
    case Fills(b) =>
      assert RealAt(s, b);
      NotChanged(s, b);
      DataFaithful(s, Happen(s, e), b, OnDisk(s, KeyOf(s.cache.bufs[b])));
    case Modifies(b, data) =>
      assert RealAt(s, b);
      DataFaithful(s, Happen(s, e), b, data);
    case Stores(b) => StoreFaithful(s, b);
    case Releases(b) =>
      ReleaseSame(s, b);
      SameFaithful(s, Happen(s, e));
    case Pins(b) => SameFaithful(s, Happen(s, e));
    case Unpins(b) => SameFaithful(s, Happen(s, e));
  }

  // Runs.

  ghost predicate Runs(s: Sys, events: seq<Event>, s': Sys)
    decreases |events|
  {
    if events == [] then s == s'
    else |s.held| == NBUF && |s.pins| == NBUF && Good(s.cache) && CanHappen(s, events[0]) && Runs(Happen(s, events[0]), events[1..], s')
  }

  /** As binit leaves the cache, over any disk. */
  ghost predicate Initial(s: Sys)
  {
    && Inv(s) && s.mods == map[]
    && forall b | 0 <= b < NBUF :: !s.cache.bufs[b].valid && s.held[b] == 0 && s.pins[b] == 0
  }

  lemma {:induction false} RunFaithful(s: Sys, events: seq<Event>, s': Sys)
    requires Faithful(s) && Real(s) && Runs(s, events, s')
    ensures Faithful(s') && Real(s')
    decreases |events|
  {
    if events != [] {
      StepFaithful(s, events[0]);
      RealStep(s, events[0]);
      RunFaithful(Happen(s, events[0]), events[1..], s');
    }
  }

  /**
   In every run bread gives a valid buffer of the block asked for that holds what callers made of
   the block since it was read in, or else what the disk holds.
   */
  lemma BreadGivesLatest(s0: Sys, events: seq<Event>, s: Sys, dev: nat, blockno: nat)
    requires Initial(s0) && Runs(s0, events, s) && Inv(s) && dev != 0
    ensures var (b, c) := Bread(s.cache, dev, blockno, OnDisk(s, (dev, blockno)));
            b >= 0 ==> b < NBUF && KeyOf(c.bufs[b]) == (dev, blockno) && c.bufs[b].valid && c.bufs[b].data == Latest(s, (dev, blockno))
  {
    RunFaithful(s0, events, s);
    var (b, c) := Get(s.cache, dev, blockno);
    if b >= 0 {
      var got := Happen(s, Gets(dev, blockno));
      StepFaithful(s, Gets(dev, blockno));
      GetCoherent(s.cache, dev, blockno);
      assert RightAt(got, b);
      LatestOfGot(s, dev, blockno);
      if !c.bufs[b].valid { NotChanged(got, b); }
    }
  }

  /** Asking for a block does not change what is the latest of it. */
  lemma LatestOfGot(s: Sys, dev: nat, blockno: nat)
    requires Faithful(s) && CanHappen(s, Gets(dev, blockno))
    ensures Latest(Happen(s, Gets(dev, blockno)), (dev, blockno)) == Latest(s, (dev, blockno))
  {
    if FirstHolding(s.cache.bufs, s.cache.order, dev, blockno) >= 0 {
      HitFaithful(s, dev, blockno);
    } else {
      var b := Missed(s, dev, blockno);
      assert (dev, blockno) in s.mods ==> InCache(s, (dev, blockno));
    }
  }

  /** A changed block is on the disk as changed, or its buffer is in use. */
  ghost predicate Safe(s: Sys, k: Key)
  {
    k in s.mods ==> s.mods[k] == OnDisk(s, k) || exists b :: ValidFor(s, k, b) && b < |s.held| && b < |s.pins| && s.held[b] + s.pins[b] > 0
  }

  lemma GetLosesNothing(s: Sys, dev: nat, blockno: nat, k: Key)
    requires Faithful(s) && CanHappen(s, Gets(dev, blockno)) && Safe(s, k)
    ensures Latest(Happen(s, Gets(dev, blockno)), k) == Latest(s, k)
  {
    if FirstHolding(s.cache.bufs, s.cache.order, dev, blockno) >= 0 {
      HitFaithful(s, dev, blockno);
    } else if k in s.mods && s.mods[k] != OnDisk(s, k) {
      var b := Missed(s, dev, blockno);
      var c :| ValidFor(s, k, c) && c < NBUF && s.held[c] + s.pins[c] > 0;
      MissLatest(s, dev, blockno, c);
    }
  }

  /** Of a block so kept, nothing but a change of it changes what bread would give. */
  lemma NothingIsLost(s: Sys, e: Event, k: Key)
    requires Faithful(s) && Real(s) && CanHappen(s, e) && Safe(s, k)
    requires !(e.Modifies? && KeyOf(s.cache.bufs[e.b]) == k)
    ensures Latest(Happen(s, e), k) == Latest(s, k)
  {
    match e
    case Gets(dev, blockno) => GetLosesNothing(s, dev, blockno, k);
    case Fills(b) =>
    case Modifies(b, data) =>
    case Stores(b) => assert RightAt(s, b);
    case Releases(b) =>
    case Pins(b) =>
    case Unpins(b) =>
  }

  // The order of recycling.

  /** With this event buffer b is released and nobody uses it any more. */
  ghost predicate FreesWith(s: Sys, e: Event, b: nat)
    requires |s.held| == NBUF && |s.pins| == NBUF && b < NBUF
  {
    e == Releases(b) && s.held[b] + s.pins[b] == 1
  }

  /** The place in the run of the last event that frees buffer b, or -1. */
  ghost function LastFreed(s: Sys, events: seq<Event>, s': Sys, b: nat): (i: int)
    requires Runs(s, events, s') && b < NBUF
    ensures -1 <= i < |events|
    decreases |events|
  {
    if events == [] then -1
    else
      var later := LastFreed(Happen(s, events[0]), events[1..], s', b);
      if later >= 0 then later + 1 else if FreesWith(s, events[0], b) then 0 else -1
  }

  /** An event that frees b makes b's stamp the newest; other events leave it. */
  lemma StampWith(s: Sys, e: Event, b: nat)
    requires Inv(s) && CanHappen(s, e) && b < NBUF
    ensures var s' := Happen(s, e);
            && Inv(s') && s'.cache.clock >= s.cache.clock
            && s'.cache.stamp[b] == if FreesWith(s, e, b) then s.cache.clock else s.cache.stamp[b]
  {
    EventKeeps(s, e);
  }

  lemma {:induction false} StampAfter(s: Sys, events: seq<Event>, s': Sys, b: nat)
    requires Inv(s) && Runs(s, events, s') && b < NBUF
    ensures Inv(s') && s'.cache.clock >= s.cache.clock
    ensures if LastFreed(s, events, s', b) < 0 then s'.cache.stamp[b] == s.cache.stamp[b] else s'.cache.stamp[b] >= s.cache.clock
    decreases |events|
  {
    if events != [] {
      StampWith(s, events[0], b);
      StampAfter(Happen(s, events[0]), events[1..], s', b);
    }
  }

  /** A buffer freed later has the newer stamp; of two not freed in the run the order is the old one. */
  lemma {:induction false} StampsFollowFrees(s: Sys, events: seq<Event>, s': Sys, b: nat, c: nat)
    requires Inv(s) && Runs(s, events, s') && b < NBUF && c < NBUF && b != c
    ensures Inv(s')
    ensures LastFreed(s, events, s', b) > LastFreed(s, events, s', c) ==> s'.cache.stamp[b] > s'.cache.stamp[c]
    decreases |events|
  {
    if events != [] {
      var (e, rest) := (events[0], events[1..]);
      var next := Happen(s, e);
      StampWith(s, e, b);
      StampWith(s, e, c);
      StampAfter(next, rest, s', b);
      StampAfter(next, rest, s', c);
      StampsFollowFrees(next, rest, s', b, c);
    }
  }

  /** In every run a miss recycles, of all buffers in nobody's use, one that no other has been so for longer than. */
  lemma MissRecyclesLongestFree(s: Sys, events: seq<Event>, s': Sys, dev: nat, blockno: nat, c: nat)
    requires Inv(s) && Runs(s, events, s') && Inv(s') && dev != 0 && c < NBUF && s'.held[c] + s'.pins[c] == 0
    requires FirstHolding(s'.cache.bufs, s'.cache.order, dev, blockno) < 0
    ensures var b := Get(s'.cache, dev, blockno).0;
            && 0 <= b < NBUF && s'.held[b] + s'.pins[b] == 0
            && LastFreed(s, events, s', b) <= LastFreed(s, events, s', c)
  {
    OrderCovers(s'.cache.order, c);
    assert s'.cache.order[..NBUF] == s'.cache.order;
    RecyclesTheOldest(s'.cache, NBUF, c);
    var b: nat := LastUnused(s'.cache.bufs, s'.cache.order);
    if b != c { StampsFollowFrees(s, events, s', b, c); }
  }
}
