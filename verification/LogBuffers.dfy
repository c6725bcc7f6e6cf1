/**
 The log and the buffer cache together: every block in the log header has a pinned buffer, so a
 commit has to find its own buffers among those the log leaves over.

 What blocks hold is left to LogCrash and LogDriver.
 */
module LogBuffers {
  import opened C = BufferCache
  import opened D = LogCrash
  import R = LogReservation

  /** ROOTDEV (kernel/param.h), the device the log is on. */
  const DEV: nat := 1

  // Which buffers are pinned and which are held.

  predicate IsOne(b: Buf, blocks: set<nat>) { b.dev == DEV && b.blockno in blocks }

  function Count(b: Buf, blocks: set<nat>): (n: nat) { if IsOne(b, blocks) then 1 else 0 }

  ghost predicate PinsAt(s: C.Sys, pinned: set<nat>, b: int)
  {
    0 <= b < NBUF && |s.pins| == NBUF && |s.cache.bufs| == NBUF ==> s.pins[b] == Count(s.cache.bufs[b], pinned)
  }

  ghost predicate HeldAt(s: C.Sys, open: set<nat>, b: int)
  {
    0 <= b < NBUF && |s.held| == NBUF && |s.cache.bufs| == NBUF ==> s.held[b] == Count(s.cache.bufs[b], open)
  }

  ghost predicate At(s: C.Sys, x: nat, b: int) { 0 <= b < |s.cache.bufs| && Holds(s.cache.bufs[b], DEV, x) }

  ghost predicate Present(s: C.Sys, x: nat) { exists b :: At(s, x, b) }

  /** Each of these blocks has a buffer with one pin, and there are no other pins. */
  ghost predicate Pinned(s: C.Sys, pinned: set<nat>)
  {
    && C.Inv(s)
    && (forall b {:trigger PinsAt(s, pinned, b)} :: PinsAt(s, pinned, b))
    && (forall x {:trigger Present(s, x)} | x in pinned :: Present(s, x))
  }

  /** Each of these blocks has a buffer that is held once, and no other buffer is held. */
  ghost predicate Held(s: C.Sys, open: set<nat>)
  {
    && (forall b {:trigger HeldAt(s, open, b)} :: HeldAt(s, open, b))
    && (forall x {:trigger Present(s, x)} | x in open :: Present(s, x))
  }

  lemma FoundAt(s: C.Sys, x: nat, b: int)
    requires C.Inv(s) && At(s, x, b)
    ensures FirstHolding(s.cache.bufs, s.cache.order, DEV, x) == b
  {
    FindsTheHolder(s.cache, DEV, x, b);
  }

  lemma Referenced(s: C.Sys, pinned: set<nat>, open: set<nat>, b: nat)
    requires Pinned(s, pinned) && Held(s, open) && b < NBUF
    ensures s.cache.bufs[b].refcnt >= 0
    ensures s.cache.bufs[b].refcnt > 0 <==> IsOne(s.cache.bufs[b], pinned + open)
  {
    assert PinsAt(s, pinned, b) && HeldAt(s, open, b);
  }

  // How many buffers are left over.

  /** If every buffer is referenced there are at least NBUF blocks pinned or held. */
  lemma AllReferenced(s: C.Sys, pinned: set<nat>, open: set<nat>)
    requires Pinned(s, pinned) && Held(s, open)
    requires forall b | 0 <= b < NBUF :: s.cache.bufs[b].refcnt > 0
    ensures |pinned + open| >= NBUF
  {
    var blocks := seq(NBUF, b requires 0 <= b < NBUF => s.cache.bufs[b].blockno);
    forall b | 0 <= b < NBUF ensures IsOne(s.cache.bufs[b], pinned + open) { Referenced(s, pinned, open, b); }
    forall i, j | 0 <= i < j < NBUF ensures blocks[i] != blocks[j] {
      assert IsOne(s.cache.bufs[i], pinned + open) && IsOne(s.cache.bufs[j], pinned + open);
    }
    DistinctSize(blocks);
    forall x | x in Elements(blocks) ensures x in pinned + open {
      var i :| 0 <= i < NBUF && blocks[i] == x;
      assert IsOne(s.cache.bufs[i], pinned + open);
    }
    SubsetSize(Elements(blocks), pinned + open);
  }

  lemma {:induction false} SomeBuffers(s: C.Sys, blocks: set<nat>, n: nat) returns (list: seq<nat>, where: seq<nat>)
    requires n <= |blocks| && forall x | x in blocks :: Present(s, x)
    ensures |list| == |where| == n && forall i, j | 0 <= i < j < n :: list[i] != list[j]
    ensures forall i | 0 <= i < n :: list[i] in blocks && At(s, list[i], where[i])
  {
    if n == 0 {
      list, where := [], [];
    } else {
      var x :| x in blocks;
      list, where := SomeBuffers(s, blocks - {x}, n - 1);
      assert Present(s, x);
      var b :| At(s, x, b);
      list, where := list + [x], where + [b];
    }
  }

  /** With NBUF blocks pinned or held, bget has no buffer for another. */
  lemma NoneLeft(s: C.Sys, pinned: set<nat>, open: set<nat>, x: nat)
    requires Pinned(s, pinned) && Held(s, open) && x !in pinned + open && |pinned + open| >= NBUF
    ensures Get(s.cache, DEV, x).0 < 0
  {
    var list, where := SomeBuffers(s, pinned + open, NBUF);
    forall i | 0 <= i < NBUF
      ensures where[i] < NBUF && Holds(s.cache.bufs[where[i]], DEV, list[i]) && s.cache.bufs[where[i]].refcnt > 0
    {
      assert At(s, list[i], where[i]);
      Referenced(s, pinned, open, where[i]);
    }
    PinnedBlocksFillCache(s.cache, list, where, DEV, x);
  }

  /** bget finds a buffer for a block exactly when it is pinned or held, or fewer than NBUF blocks are. */
  lemma BufferFoundIff(s: C.Sys, pinned: set<nat>, open: set<nat>, x: nat)
    requires Pinned(s, pinned) && Held(s, open)
    ensures Get(s.cache, DEV, x).0 >= 0 <==> x in pinned + open || |pinned + open| < NBUF
  {
    if x in pinned + open {
      assert Present(s, x);
      var b :| At(s, x, b);
      FoundAt(s, x, b);
    } else if |pinned + open| >= NBUF {
      NoneLeft(s, pinned, open, x);
    } else if forall b | 0 <= b < NBUF :: s.cache.bufs[b].refcnt > 0 {
      AllReferenced(s, pinned, open);
    } else {
      var b: nat :| b < NBUF && s.cache.bufs[b].refcnt <= 0;
      Referenced(s, pinned, open, b);
      OrderCovers(s.cache.order, b);
    }
  }

  // What a thread does to the cache, one call at a time.

  /** bread, brelse and bunpin; a buffer is named by the block it was read for, which it keeps while it is held. */
  datatype Op = Read(x: nat) | Release(x: nat) | Unpin(x: nat)

  /** NoBuffers is bget's panic; Misuse is a call on a buffer that is not held or not pinned. */
  datatype Outcome = NoBuffers | Misuse | Finished(s: C.Sys)

  ghost function Happens(s: C.Sys, e: C.Event): (r: C.Sys)
    requires C.Inv(s) && C.CanHappen(s, e)
    ensures C.Inv(r)
  {
    EventKeeps(s, e);
    C.Happen(s, e)
  }

  /** bread, once bget has found a buffer. */
  ghost function Bread(s: C.Sys, x: nat): (r: C.Sys)
    requires C.Inv(s) && Get(s.cache, DEV, x).0 >= 0
    ensures C.Inv(r)
  {
    var b := Get(s.cache, DEV, x).0;
    var got := Happens(s, Gets(DEV, x));
    if got.cache.bufs[b].valid then got else Happens(got, Fills(b))
  }

  ghost function Call(s: C.Sys, op: Op): (r: Outcome)
    requires C.Inv(s)
    ensures r.Finished? ==> C.Inv(r.s)
  {
    var b := FirstHolding(s.cache.bufs, s.cache.order, DEV, op.x);
    match op
    case Read(x) => if Get(s.cache, DEV, x).0 < 0 then NoBuffers else Finished(Bread(s, x))
    case Release(x) => if b < 0 || !C.CanHappen(s, Releases(b)) then Misuse else Finished(Happens(s, Releases(b)))
    case Unpin(x) => if b < 0 || !C.CanHappen(s, Unpins(b)) then Misuse else Finished(Happens(s, Unpins(b)))
  }

  ghost function Calls(s: C.Sys, ops: seq<Op>): (r: Outcome)
    requires C.Inv(s)
    ensures r.Finished? ==> C.Inv(r.s)
    decreases |ops|
  {
    if ops == [] then Finished(s) else
    var r := Call(s, ops[0]);
    if r.Finished? then Calls(r.s, ops[1..]) else r
  }

  /** Buffers other than b keep their blocks, pins and holders. */
  ghost predicate SameAt(s: C.Sys, s': C.Sys, b: int)
  {
    && 0 <= b < NBUF && |s.pins| == |s.held| == |s.cache.bufs| == |s'.pins| == |s'.held| == |s'.cache.bufs| == NBUF ==>
      s'.pins[b] == s.pins[b] && s'.held[b] == s.held[b]
      && s'.cache.bufs[b].dev == s.cache.bufs[b].dev && s'.cache.bufs[b].blockno == s.cache.bufs[b].blockno
  }

  /** s' differs from s at most in buffer b, which nobody referenced or which keeps its block. */
  ghost predicate OnlyAt(s: C.Sys, s': C.Sys, b: nat, x: nat)
  {
    && C.Inv(s) && C.Inv(s') && b < NBUF && At(s', x, b)
    && (At(s, x, b) || (s.cache.bufs[b].refcnt == 0 && !Present(s, x)))
    && (forall c {:trigger SameAt(s, s', c)} | c != b :: SameAt(s, s', c))
  }

  /** bget's buffer already holds the block, or no buffer does and this one is unreferenced. */
  lemma GotFrom(s: C.Sys, x: nat) returns (b: nat)
    requires C.Inv(s) && Get(s.cache, DEV, x).0 >= 0
    ensures b == Get(s.cache, DEV, x).0 && (At(s, x, b) || (s.cache.bufs[b].refcnt == 0 && !Present(s, x)))
  {
    b := Get(s.cache, DEV, x).0;
    if Present(s, x) {
      var c :| At(s, x, c);
      FoundAt(s, x, c);
    }
  }

  lemma GotAt(s: C.Sys, x: nat) returns (b: nat)
    requires C.Inv(s) && Get(s.cache, DEV, x).0 >= 0
    ensures b == Get(s.cache, DEV, x).0 && OnlyAt(s, Happens(s, Gets(DEV, x)), b, x)
    ensures Happens(s, Gets(DEV, x)).held[b] == s.held[b] + 1 && Happens(s, Gets(DEV, x)).pins[b] == s.pins[b]
  {
    b := GotFrom(s, x);
    GetCoherent(s.cache, DEV, x);
  }

  lemma FilledAt(s: C.Sys, b: nat)
    requires C.Inv(s) && b < NBUF && s.held[b] > 0 && !s.cache.bufs[b].valid
    ensures var s' := Happens(s, Fills(b));
            s'.cache.bufs[b].valid && forall c {:trigger SameAt(s, s', c)} :: SameAt(s, s', c)
  {
  }

  /** What a read leaves: the buffer holds the block and one more caller holds the buffer. */
  lemma BreadAt(s: C.Sys, x: nat) returns (b: nat, s': C.Sys)
    requires C.Inv(s) && Get(s.cache, DEV, x).0 >= 0
    ensures b == Get(s.cache, DEV, x).0 && s' == Bread(s, x)
    ensures OnlyAt(s, s', b, x) && s'.cache.bufs[b].valid && s'.held[b] == s.held[b] + 1 && s'.pins[b] == s.pins[b]
  {
    b := GotAt(s, x);
    var got := Happens(s, Gets(DEV, x));
    s' := Bread(s, x);
    if !got.cache.bufs[b].valid {
      FilledAt(got, b);
      assert SameAt(got, s', b);
      forall c | c != b ensures SameAt(s, s', c) { assert SameAt(s, got, c) && SameAt(got, s', c); }
    }
  }

  lemma OldBlocksStay(s: C.Sys, s': C.Sys, blocks: set<nat>, b: nat, x: nat)
    requires OnlyAt(s, s', b, x) && forall y {:trigger Present(s, y)} | y in blocks :: Present(s, y)
    requires At(s, x, b) || !IsOne(s.cache.bufs[b], blocks)
    ensures forall y {:trigger Present(s', y)} | y in blocks + {x} :: Present(s', y)
  {
    forall y | y in blocks + {x} ensures Present(s', y) {
      if y == x || At(s, y, b) {
        assert At(s', x, b);
      } else {
        assert Present(s, y);
        var c :| At(s, y, c);
        assert SameAt(s, s', c);
        assert At(s', y, c);
      }
    }
  }

  /** The pins after a call that leaves buffer b with one pin just when x is among them. */
  lemma PinsAfter(s: C.Sys, s': C.Sys, pinned: set<nat>, pinned': set<nat>, b: nat, x: nat)
    requires Pinned(s, pinned) && OnlyAt(s, s', b, x) && pinned - {x} <= pinned' <= pinned + {x}
    requires s'.pins[b] == if x in pinned' then 1 else 0
    ensures Pinned(s', pinned')
  {
    assert PinsAt(s, pinned, b);
    OldBlocksStay(s, s', pinned, b, x);
    forall c ensures PinsAt(s', pinned', c) {
      assert PinsAt(s, pinned, c);
      if c != b { OthersKeep(s, s', b, c, x, pinned, pinned'); }
    }
    forall y | y in pinned' ensures Present(s', y) { assert y in pinned + {x}; }
  }

  /** Another buffer than b cannot hold x, so it counts as before. */
  lemma OthersKeep(s: C.Sys, s': C.Sys, b: nat, c: int, x: nat, blocks: set<nat>, blocks': set<nat>)
    requires OnlyAt(s, s', b, x) && blocks - {x} <= blocks' <= blocks + {x} && c != b
    ensures SameAt(s, s', c)
    ensures 0 <= c < NBUF ==> Count(s'.cache.bufs[c], blocks') == Count(s.cache.bufs[c], blocks)
  {
    assert SameAt(s, s', c);
    if 0 <= c < NBUF && At(s', x, c) {
      FoundAt(s', x, c);
      FoundAt(s', x, b);
    }
  }

  lemma HeldAfter(s: C.Sys, s': C.Sys, open: set<nat>, open': set<nat>, b: nat, x: nat)
    requires Held(s, open) && OnlyAt(s, s', b, x) && open - {x} <= open' <= open + {x}
    requires s'.held[b] == if x in open' then 1 else 0
    ensures Held(s', open')
  {
    assert HeldAt(s, open, b);
    OldBlocksStay(s, s', open, b, x);
    forall c ensures HeldAt(s', open', c) {
      assert HeldAt(s, open, c);
      if c != b { OthersKeep(s, s', b, c, x, open, open'); }
    }
    forall y | y in open' ensures Present(s', y) { assert y in open + {x}; }
  }

  // Which calls go through.

  /** Nobody reads a block they hold; brelse and bunpin name blocks that are held, and pinned. */
  ghost predicate Proper(pinned: set<nat>, open: set<nat>, ops: seq<Op>)
    decreases |ops|
  {
    ops == [] ||
    match ops[0]
    case Read(x) => x !in open && Proper(pinned, open + {x}, ops[1..])
    case Release(x) => x in open && Proper(pinned, open - {x}, ops[1..])
    case Unpin(x) => x in open && x in pinned && Proper(pinned - {x}, open, ops[1..])
  }

  /** At every read of a block that is not pinned, fewer than NBUF blocks are pinned or held. */
  ghost predicate Fits(pinned: set<nat>, open: set<nat>, ops: seq<Op>)
    decreases |ops|
  {
    ops == [] ||
    match ops[0]
    case Read(x) => (x in pinned || |pinned + open| < NBUF) && Fits(pinned, open + {x}, ops[1..])
    case Release(x) => Fits(pinned, open - {x}, ops[1..])
    case Unpin(x) => Fits(pinned - {x}, open, ops[1..])
  }

  /** The blocks still pinned, and those still held, after the calls. */
  ghost function Left(pinned: set<nat>, open: set<nat>, ops: seq<Op>): (r: (set<nat>, set<nat>))
    decreases |ops|
  {
    if ops == [] then (pinned, open) else
    match ops[0]
    case Read(x) => Left(pinned, open + {x}, ops[1..])
    case Release(x) => Left(pinned, open - {x}, ops[1..])
    case Unpin(x) => Left(pinned - {x}, open, ops[1..])
  }

  lemma ReadOnce(s: C.Sys, pinned: set<nat>, open: set<nat>, x: nat)
    requires Pinned(s, pinned) && Held(s, open) && x !in open && (x in pinned || |pinned + open| < NBUF)
    ensures var r := Call(s, Read(x)); r.Finished? && Pinned(r.s, pinned) && Held(r.s, open + {x})
  {
    BufferFoundIff(s, pinned, open, x);
    var b, s' := BreadAt(s, x);
    assert PinsAt(s, pinned, b) && HeldAt(s, open, b);
    assert x in pinned ==> Present(s, x);
    PinsAfter(s, s', pinned, pinned, b, x);
    HeldAfter(s, s', open, open + {x}, b, x);
  }

  lemma ReleasedAt(s: C.Sys, b: nat, x: nat)
    requires C.Inv(s) && At(s, x, b) && s.held[b] > 0
    ensures var s' := Happens(s, Releases(b));
            OnlyAt(s, s', b, x) && s'.held[b] == s.held[b] - 1 && s'.pins[b] == s.pins[b]
  {
  }

  lemma UnpinnedAt(s: C.Sys, b: nat, x: nat)
    requires C.Inv(s) && At(s, x, b) && s.held[b] > 0 && s.pins[b] > 0
    ensures var s' := Happens(s, Unpins(b));
            OnlyAt(s, s', b, x) && s'.held[b] == s.held[b] && s'.pins[b] == s.pins[b] - 1
  {
  }

  lemma WhereHeld(s: C.Sys, open: set<nat>, x: nat) returns (b: nat)
    requires C.Inv(s) && Held(s, open) && x in open
    ensures At(s, x, b) && s.held[b] == 1 && FirstHolding(s.cache.bufs, s.cache.order, DEV, x) == b
  {
    assert Present(s, x);
    b :| At(s, x, b);
    FoundAt(s, x, b);
    assert HeldAt(s, open, b);
  }

  lemma ReleaseOnce(s: C.Sys, pinned: set<nat>, open: set<nat>, x: nat)
    requires Pinned(s, pinned) && Held(s, open) && x in open
    ensures var r := Call(s, Release(x)); r.Finished? && Pinned(r.s, pinned) && Held(r.s, open - {x})
  {
    var b := WhereHeld(s, open, x);
    ReleasedAt(s, b, x);
    var s' := Happens(s, Releases(b));
    assert PinsAt(s, pinned, b);
    PinsAfter(s, s', pinned, pinned, b, x);
    HeldAfter(s, s', open, open - {x}, b, x);
  }

  lemma UnpinOnce(s: C.Sys, pinned: set<nat>, open: set<nat>, x: nat)
    requires Pinned(s, pinned) && Held(s, open) && x in open && x in pinned
    ensures var r := Call(s, Unpin(x)); r.Finished? && Pinned(r.s, pinned - {x}) && Held(r.s, open)
  {
    var b := WhereHeld(s, open, x);
    assert PinsAt(s, pinned, b);
    UnpinnedAt(s, b, x);
    var s' := Happens(s, Unpins(b));
    PinsAfter(s, s', pinned, pinned - {x}, b, x);
    HeldAfter(s, s', open, open, b, x);
  }

  /** A thread alone with the cache gets through its calls exactly when every read finds room; otherwise bget panics. */
  lemma {:induction false} CallsFinishIff(s: C.Sys, pinned: set<nat>, open: set<nat>, ops: seq<Op>)
    requires Pinned(s, pinned) && Held(s, open) && Proper(pinned, open, ops)
    ensures var r := Calls(s, ops);
            if Fits(pinned, open, ops)
            then r.Finished? && Pinned(r.s, Left(pinned, open, ops).0) && Held(r.s, Left(pinned, open, ops).1)
            else r.NoBuffers?
    decreases |ops|
  {
    if ops != [] {
      match ops[0]
      case Read(x) =>
        if x in pinned || |pinned + open| < NBUF {
          ReadOnce(s, pinned, open, x);
          CallsFinishIff(Call(s, ops[0]).s, pinned, open + {x}, ops[1..]);
        } else {
          BufferFoundIff(s, pinned, open, x);
        }
      case Release(x) =>
        ReleaseOnce(s, pinned, open, x);
        CallsFinishIff(Call(s, ops[0]).s, pinned, open - {x}, ops[1..]);
      case Unpin(x) =>
        UnpinOnce(s, pinned, open, x);
        CallsFinishIff(Call(s, ops[0]).s, pinned - {x}, open, ops[1..]);
    }
  }

  // Commit.

  ghost function Blocks(lh: seq<nat>): set<nat> { set x | x in lh }

  lemma BlocksSize(lh: seq<nat>)
    requires Distinct(lh)
    ensures |Blocks(lh)| == |lh|
  {
    DistinctSize(lh);
    assert Blocks(lh) == Elements(lh);
  }

  /** One turn of write_log. */
  function CopyOps(at: nat, x: nat): seq<Op> { [Read(at), Read(x), Release(x), Release(at)] }

  /** One turn of install_trans when not recovering. */
  function InstallOps(at: nat, x: nat): seq<Op> { [Read(at), Read(x), Unpin(x), Release(at), Release(x)] }

  /** write_head. */
  function HeadOps(area: Area): seq<Op> { [Read(area.start), Release(area.start)] }

  /** write_log from position k on. */
  function WriteLog(area: Area, lh: seq<nat>, k: nat): seq<Op>
    requires k <= |lh|
    decreases |lh| - k
  {
    if k == |lh| then [] else CopyOps(area.start + k + 1, lh[k]) + WriteLog(area, lh, k + 1)
  }

  /** install_trans from position k on. */
  function Install(area: Area, lh: seq<nat>, k: nat): seq<Op>
    requires k <= |lh|
    decreases |lh| - k
  {
    if k == |lh| then [] else InstallOps(area.start + k + 1, lh[k]) + Install(area, lh, k + 1)
  }

  /** The calls commit makes. */
  function Commit(area: Area, lh: seq<nat>): seq<Op>
  {
    if lh == [] then [] else WriteLog(area, lh, 0) + (HeadOps(area) + (Install(area, lh, 0) + HeadOps(area)))
  }

  ghost predicate PassesTo(pinned: set<nat>, ops: seq<Op>, pinned': set<nat>, room: bool, rest: seq<Op>)
  {
    && (Proper(pinned, {}, ops + rest) <==> Proper(pinned', {}, rest))
    && (Fits(pinned, {}, ops + rest) <==> room && Fits(pinned', {}, rest))
    && Left(pinned, {}, ops + rest) == Left(pinned', {}, rest)
  }

  /** From nothing open to nothing open: the calls are proper, fit just when there is room, and leave pinned'. */
  ghost predicate Passes(pinned: set<nat>, ops: seq<Op>, pinned': set<nat>, room: bool)
  {
    forall rest {:trigger PassesTo(pinned, ops, pinned', room, rest)} :: PassesTo(pinned, ops, pinned', room, rest)
  }

  lemma PassesBoth(pinned: set<nat>, a: seq<Op>, mid: set<nat>, b: seq<Op>, pinned': set<nat>, roomA: bool, roomB: bool)
    requires Passes(pinned, a, mid, roomA) && Passes(mid, b, pinned', roomB)
    ensures Passes(pinned, a + b, pinned', roomA && roomB)
  {
    var (ops, room) := (a + b, roomA && roomB);
    forall rest ensures PassesTo(pinned, ops, pinned', room, rest) {
      assert PassesTo(pinned, a, mid, roomA, b + rest) && PassesTo(mid, b, pinned', roomB, rest);
      assert ops + rest == a + (b + rest);
    }
  }

  lemma ReadThen(pinned: set<nat>, open: set<nat>, x: nat, rest: seq<Op>)
    requires x !in open
    ensures Proper(pinned, open, [Read(x)] + rest) <==> Proper(pinned, open + {x}, rest)
    ensures Fits(pinned, open, [Read(x)] + rest) <==> (x in pinned || |pinned + open| < NBUF) && Fits(pinned, open + {x}, rest)
    ensures Left(pinned, open, [Read(x)] + rest) == Left(pinned, open + {x}, rest)
  {
    assert ([Read(x)] + rest)[1..] == rest;
  }

  lemma ReleaseThen(pinned: set<nat>, open: set<nat>, x: nat, rest: seq<Op>)
    requires x in open
    ensures Proper(pinned, open, [Release(x)] + rest) <==> Proper(pinned, open - {x}, rest)
    ensures Fits(pinned, open, [Release(x)] + rest) <==> Fits(pinned, open - {x}, rest)
    ensures Left(pinned, open, [Release(x)] + rest) == Left(pinned, open - {x}, rest)
  {
    assert ([Release(x)] + rest)[1..] == rest;
  }

  lemma UnpinThen(pinned: set<nat>, open: set<nat>, x: nat, rest: seq<Op>)
    requires x in open && x in pinned
    ensures Proper(pinned, open, [Unpin(x)] + rest) <==> Proper(pinned - {x}, open, rest)
    ensures Fits(pinned, open, [Unpin(x)] + rest) <==> Fits(pinned - {x}, open, rest)
    ensures Left(pinned, open, [Unpin(x)] + rest) == Left(pinned - {x}, open, rest)
  {
    assert ([Unpin(x)] + rest)[1..] == rest;
  }

  lemma CopyPassesTo(pinned: set<nat>, at: nat, x: nat, rest: seq<Op>)
    requires x in pinned && at !in pinned
    ensures PassesTo(pinned, CopyOps(at, x), pinned, |pinned| < NBUF, rest)
  {
    var r3 := [Release(at)] + rest;
    var r2 := [Release(x)] + r3;
    var r1 := [Read(x)] + r2;
    assert CopyOps(at, x) + rest == [Read(at)] + r1;
    ReadThen(pinned, {}, at, r1);
    assert pinned + {} == pinned && {} + {at} == {at};
    ReadThen(pinned, {at}, x, r2);
    ReleaseThen(pinned, {at} + {x}, x, r3);
    assert {at} + {x} - {x} == {at};
    ReleaseThen(pinned, {at}, at, rest);
    assert {at} - {at} == {};
  }

  lemma InstallPassesTo(pinned: set<nat>, at: nat, x: nat, rest: seq<Op>)
    requires x in pinned && at !in pinned
    ensures PassesTo(pinned, InstallOps(at, x), pinned - {x}, |pinned| < NBUF, rest)
  {
    var r4 := [Release(x)] + rest;
    var r3 := [Release(at)] + r4;
    var r2 := [Unpin(x)] + r3;
    var r1 := [Read(x)] + r2;
    assert InstallOps(at, x) + rest == [Read(at)] + r1;
    ReadThen(pinned, {}, at, r1);
    assert pinned + {} == pinned && {} + {at} == {at};
    ReadThen(pinned, {at}, x, r2);
    UnpinThen(pinned, {at} + {x}, x, r3);
    ReleaseThen(pinned - {x}, {at} + {x}, at, r4);
    assert {at} + {x} - {at} == {x};
    ReleaseThen(pinned - {x}, {x}, x, rest);
    assert {x} - {x} == {};
  }

  lemma HeadPassesTo(pinned: set<nat>, area: Area, rest: seq<Op>)
    requires area.start !in pinned
    ensures PassesTo(pinned, HeadOps(area), pinned, |pinned| < NBUF, rest)
  {
    var r1 := [Release(area.start)] + rest;
    assert HeadOps(area) + rest == [Read(area.start)] + r1;
    ReadThen(pinned, {}, area.start, r1);
    assert pinned + {} == pinned && {} + {area.start} == {area.start};
    ReleaseThen(pinned, {area.start}, area.start, rest);
    assert {area.start} - {area.start} == {};
  }

  lemma CopyPasses(pinned: set<nat>, at: nat, x: nat)
    requires x in pinned && at !in pinned
    ensures Passes(pinned, CopyOps(at, x), pinned, |pinned| < NBUF)
  {
    var (ops, room) := (CopyOps(at, x), |pinned| < NBUF);
    forall rest ensures PassesTo(pinned, ops, pinned, room, rest) { CopyPassesTo(pinned, at, x, rest); }
  }

  lemma InstallPasses(pinned: set<nat>, at: nat, x: nat)
    requires x in pinned && at !in pinned
    ensures Passes(pinned, InstallOps(at, x), pinned - {x}, |pinned| < NBUF)
  {
    var (ops, left, room) := (InstallOps(at, x), pinned - {x}, |pinned| < NBUF);
    forall rest ensures PassesTo(pinned, ops, left, room, rest) { InstallPassesTo(pinned, at, x, rest); }
  }

  lemma HeadPasses(pinned: set<nat>, area: Area)
    requires area.start !in pinned
    ensures Passes(pinned, HeadOps(area), pinned, |pinned| < NBUF)
  {
    var (ops, room) := (HeadOps(area), |pinned| < NBUF);
    forall rest ensures PassesTo(pinned, ops, pinned, room, rest) { HeadPassesTo(pinned, area, rest); }
  }

  lemma NothingPasses(pinned: set<nat>)
    ensures Passes(pinned, [], pinned, true)
  {
    forall rest: seq<Op> ensures PassesTo(pinned, [], pinned, true, rest) { assert [] + rest == rest; }
  }

  /** Different home blocks, no more than the log has room for. */
  ghost predicate Loggables(area: Area, lh: seq<nat>)
  {
    Distinct(lh) && (forall i | 0 <= i < |lh| :: !InLog(area, lh[i])) && (lh == [] || |lh| < area.size)
  }

  lemma WriteLogAt(area: Area, lh: seq<nat>, k: nat)
    requires k < |lh|
    ensures WriteLog(area, lh, k) == CopyOps(area.start + k + 1, lh[k]) + WriteLog(area, lh, k + 1)
  {
  }

  lemma InstallAt(area: Area, lh: seq<nat>, k: nat)
    requires k < |lh|
    ensures Install(area, lh, k) == InstallOps(area.start + k + 1, lh[k]) + Install(area, lh, k + 1)
  {
  }

  lemma CopyFirst(area: Area, lh: seq<nat>, k: nat, more: seq<Op>, room: bool)
    requires Loggables(area, lh) && k < |lh| && Passes(Blocks(lh), more, Blocks(lh), room)
    ensures Passes(Blocks(lh), CopyOps(area.start + k + 1, lh[k]) + more, Blocks(lh), |lh| < NBUF && room)
  {
    BlocksSize(lh);
    CopyPasses(Blocks(lh), area.start + k + 1, lh[k]);
    PassesBoth(Blocks(lh), CopyOps(area.start + k + 1, lh[k]), Blocks(lh), more, Blocks(lh), |lh| < NBUF, room);
  }

  lemma {:induction false} WriteLogPasses(area: Area, lh: seq<nat>, k: nat)
    requires Loggables(area, lh) && k <= |lh|
    ensures Passes(Blocks(lh), WriteLog(area, lh, k), Blocks(lh), k == |lh| || |lh| < NBUF)
    decreases |lh| - k
  {
    if k == |lh| {
      NothingPasses(Blocks(lh));
    } else {
      WriteLogPasses(area, lh, k + 1);
      CopyFirst(area, lh, k, WriteLog(area, lh, k + 1), k + 1 == |lh| || |lh| < NBUF);
      WriteLogAt(area, lh, k);
    }
  }

  lemma OneLess(lh: seq<nat>, k: nat)
    requires Distinct(lh) && k < |lh|
    ensures lh[k] in Blocks(lh[k..]) && Blocks(lh[k..]) - {lh[k]} == Blocks(lh[k + 1..]) && |Blocks(lh[k..])| == |lh| - k
    ensures Blocks(lh[k..]) <= Blocks(lh)
  {
    assert lh[k..] == [lh[k]] + lh[k + 1..];
    BlocksSize(lh[k..]);
  }

  lemma InstallFirst(area: Area, lh: seq<nat>, k: nat, more: seq<Op>, room: bool)
    requires Loggables(area, lh) && k < |lh| && Passes(Blocks(lh[k + 1..]), more, {}, room)
    ensures Passes(Blocks(lh[k..]), InstallOps(area.start + k + 1, lh[k]) + more, {}, |lh| - k < NBUF && room)
  {
    OneLess(lh, k);
    var pinned, pinned', room0 := Blocks(lh[k..]), Blocks(lh[k + 1..]), |lh| - k < NBUF;
    InstallPasses(pinned, area.start + k + 1, lh[k]);
    PassesBoth(pinned, InstallOps(area.start + k + 1, lh[k]), pinned', more, {}, room0, room);
  }

  lemma {:induction false} InstallAllPasses(area: Area, lh: seq<nat>, k: nat)
    requires Loggables(area, lh) && k <= |lh|
    ensures Passes(Blocks(lh[k..]), Install(area, lh, k), {}, k == |lh| || |lh| - k < NBUF)
    decreases |lh| - k
  {
    if k == |lh| {
      assert Blocks(lh[k..]) == {};
      NothingPasses({});
    } else {
      InstallAllPasses(area, lh, k + 1);
      InstallFirst(area, lh, k, Install(area, lh, k + 1), k + 1 == |lh| || |lh| - k - 1 < NBUF);
      InstallAt(area, lh, k);
    }
  }

  lemma CommitPasses(area: Area, lh: seq<nat>)
    requires Loggables(area, lh) && lh != []
    ensures Passes(Blocks(lh), Commit(area, lh), {}, |lh| < NBUF)
  {
    BlocksSize(lh);
    assert lh[0..] == lh;
    WriteLogPasses(area, lh, 0);
    HeadPasses(Blocks(lh), area);
    InstallAllPasses(area, lh, 0);
    HeadPasses({}, area);
    PassesBoth(Blocks(lh), Install(area, lh, 0), {}, HeadOps(area), {}, |lh| < NBUF, true);
    PassesBoth(Blocks(lh), HeadOps(area), Blocks(lh), Install(area, lh, 0) + HeadOps(area), {}, |lh| < NBUF, |lh| < NBUF);
    PassesBoth(Blocks(lh), WriteLog(area, lh, 0), Blocks(lh), HeadOps(area) + (Install(area, lh, 0) + HeadOps(area)), {},
               |lh| < NBUF, |lh| < NBUF);
  }

  /** A commit is proper, unpins and releases everything, and fits when the transaction leaves a buffer over. */
  lemma CommitFitsIff(area: Area, lh: seq<nat>)
    requires Loggables(area, lh)
    ensures Proper(Blocks(lh), {}, Commit(area, lh)) && Left(Blocks(lh), {}, Commit(area, lh)) == ({}, {})
    ensures Fits(Blocks(lh), {}, Commit(area, lh)) <==> |lh| < NBUF
  {
    if lh == [] {
      assert Blocks(lh) == {};
    } else {
      CommitPasses(area, lh);
      assert PassesTo(Blocks(lh), Commit(area, lh), {}, |lh| < NBUF, []);
      assert Commit(area, lh) + [] == Commit(area, lh);
    }
  }

  /**
   A commit that has the cache to itself gets every buffer it asks for, and leaves none pinned or
   held, exactly when its transaction leaves a buffer over; otherwise it panics.
   */
  lemma CommitFinishesIff(s: C.Sys, area: Area, lh: seq<nat>)
    requires Loggables(area, lh) && Pinned(s, Blocks(lh)) && Held(s, {})
    ensures var r := Calls(s, Commit(area, lh));
            if |lh| < NBUF then r.Finished? && Pinned(r.s, {}) && Held(r.s, {}) else r.NoBuffers?
  {
    CommitFitsIff(area, lh);
    CallsFinishIff(s, Blocks(lh), {}, Commit(area, lh));
  }

  // Runs of the log and the cache together.

  datatype Joint = Joint(log: R.Sys, cache: C.Sys)

  datatype Event =
    | Begins(op: nat)
    | Breads(x: nat)
    | LogWrites(op: nat, x: nat)
    | Brelses(x: nat)
    | Ends(op: nat)
    | Commits

  datatype Verdict = Logs(v: R.Verdict) | BufferPanic

  ghost predicate Panics(v: Verdict) { v.BufferPanic? || R.Panics(v.v) }

  function Lh(j: Joint): seq<nat> { j.log.log.lh }

  /** The buffer of block x, or -1. */
  ghost function BufferOf(s: C.Sys, x: nat): (b: int)
    requires C.Inv(s)
  {
    FirstHolding(s.cache.bufs, s.cache.order, DEV, x)
  }

  ghost predicate IsHeld(s: C.Sys, x: nat)
    requires C.Inv(s)
  {
    BufferOf(s, x) >= 0 && s.held[BufferOf(s, x)] > 0
  }

  ghost predicate CanLog(s: C.Sys, x: nat)
    requires C.Inv(s)
  {
    IsHeld(s, x) && s.cache.bufs[BufferOf(s, x)].valid
  }

  ghost function Bpin(s: C.Sys, x: nat): (r: C.Sys)
    requires C.Inv(s) && CanLog(s, x)
    ensures C.Inv(r)
  {
    Happens(s, Pins(BufferOf(s, x)))
  }

  ghost function Brelse(s: C.Sys, x: nat): (r: C.Sys)
    requires C.Inv(s) && IsHeld(s, x)
    ensures C.Inv(r)
  {
    Happens(s, Releases(BufferOf(s, x)))
  }

  /** log_write and brelse name a held buffer; log_write only one of a block outside the log; commit has the cache to itself. */
  ghost predicate CanHappen(area: Area, j: Joint, e: Event)
  {
    && C.Inv(j.cache)
    && match e
       case Begins(op) => R.CanHappen(j.log, R.Begins(op))
       case Breads(_) => true
       case LogWrites(op, x) =>
         CanLog(j.cache, x) && !InLog(area, x) && R.CanHappen(j.log, R.Writes(op, x))
       case Brelses(x) => IsHeld(j.cache, x)
       case Ends(op) => R.CanHappen(j.log, R.Ends(op))
       case Commits => R.CanHappen(j.log, R.Commits) && Held(j.cache, {})
  }

  ghost function Happen(area: Area, j: Joint, e: Event): (r: (Verdict, Joint))
    requires CanHappen(area, j, e)
  {
    match e
    case Begins(op) => var (v, l) := R.Happen(area.size, j.log, R.Begins(op)); (Logs(v), j.(log := l))
    case Breads(x) =>
      var r := Call(j.cache, Read(x));
      if r.Finished? then (Logs(R.Fine), j.(cache := r.s)) else (BufferPanic, j)
    case LogWrites(op, x) =>
      var (v, l) := R.Happen(area.size, j.log, R.Writes(op, x));
      (Logs(v), Joint(l, if |l.log.lh| > |Lh(j)| then Bpin(j.cache, x) else j.cache))
    case Brelses(x) => (Logs(R.Fine), j.(cache := Brelse(j.cache, x)))
    case Ends(op) => var (v, l) := R.Happen(area.size, j.log, R.Ends(op)); (Logs(v), j.(log := l))
    case Commits =>
      var r := Calls(j.cache, Commit(area, Lh(j)));
      if r.Finished? then (Logs(R.Fine), Joint(R.Happen(area.size, j.log, R.Commits).1, r.s)) else (BufferPanic, j)
  }

  /** e happens, without a panic. */
  ghost predicate Steps(area: Area, j: Joint, e: Event, j': Joint)
  {
    CanHappen(area, j, e) && var (v, next) := Happen(area, j, e); !Panics(v) && next == j'
  }

  /** The events happen in this order, without a panic, and lead from j to j'. */
  ghost predicate Runs(area: Area, j: Joint, events: seq<Event>, j': Joint)
    decreases |events|, 1
  {
    if events == [] then j == j' else exists mid :: RunsVia(area, j, events, mid, j')
  }

  /** The last event leads from mid to j'. */
  ghost predicate RunsVia(area: Area, j: Joint, events: seq<Event>, mid: Joint, j': Joint)
    requires events != []
    decreases |events|, 0
  {
    Runs(area, j, events[..|events| - 1], mid) && Steps(area, mid, events[|events| - 1], j')
  }

  /** An empty log beside a cache that nobody uses, such as the one binit leaves. */
  ghost predicate Fresh(j: Joint) { j.log == R.Start && Pinned(j.cache, {}) && Held(j.cache, {}) }

  ghost predicate Inv(area: Area, j: Joint) { Loggables(area, Lh(j)) && Pinned(j.cache, Blocks(Lh(j))) }

  lemma BreadKeeps(s: C.Sys, pinned: set<nat>, x: nat)
    requires Pinned(s, pinned) && Call(s, Read(x)).Finished?
    ensures Pinned(Call(s, Read(x)).s, pinned)
  {
    var b, s' := BreadAt(s, x);
    assert PinsAt(s, pinned, b);
    assert x in pinned ==> Present(s, x);
    PinsAfter(s, s', pinned, pinned, b, x);
  }

  lemma BrelseKeeps(s: C.Sys, pinned: set<nat>, x: nat)
    requires Pinned(s, pinned) && IsHeld(s, x)
    ensures Pinned(Brelse(s, x), pinned)
  {
    var b := BufferOf(s, x);
    ReleasedAt(s, b, x);
    assert PinsAt(s, pinned, b);
    PinsAfter(s, Happens(s, Releases(b)), pinned, pinned, b, x);
  }

  lemma PinnedAt(s: C.Sys, b: nat, x: nat)
    requires C.Inv(s) && At(s, x, b) && s.held[b] > 0 && s.cache.bufs[b].valid
    ensures var s' := Happens(s, Pins(b));
            OnlyAt(s, s', b, x) && s'.held[b] == s.held[b] && s'.pins[b] == s.pins[b] + 1
  {
  }

  lemma PinAdds(s: C.Sys, pinned: set<nat>, open: set<nat>, x: nat)
    requires Pinned(s, pinned) && x !in pinned && CanLog(s, x)
    ensures Pinned(Bpin(s, x), pinned + {x})
    ensures Held(s, open) && x in open ==> Held(Bpin(s, x), open)
  {
    var b := BufferOf(s, x);
    PinnedAt(s, b, x);
    assert PinsAt(s, pinned, b);
    PinsAfter(s, Happens(s, Pins(b)), pinned, pinned + {x}, b, x);
    if Held(s, open) && x in open {
      assert HeldAt(s, open, b);
      HeldAfter(s, Happens(s, Pins(b)), open, open, b, x);
    }
  }

  lemma MoreBlocks(lh: seq<nat>, x: nat)
    ensures Blocks(lh + [x]) == Blocks(lh) + {x}
  {
  }

  lemma LogWriteKeeps(area: Area, j: Joint, op: nat, x: nat)
    requires Inv(area, j) && CanHappen(area, j, LogWrites(op, x)) && !Panics(Happen(area, j, LogWrites(op, x)).0)
    ensures Inv(area, Happen(area, j, LogWrites(op, x)).1)
  {
    if x !in Lh(j) {
      PinAdds(j.cache, Blocks(Lh(j)), {}, x);
      MoreBlocks(Lh(j), x);
    }
  }

  /** Whatever happens short of a panic, the pinned buffers stay those of the logged blocks. */
  lemma StepKeeps(area: Area, j: Joint, e: Event)
    requires Inv(area, j) && CanHappen(area, j, e) && !Panics(Happen(area, j, e).0)
    ensures Inv(area, Happen(area, j, e).1)
  {
    match e
    case Begins(op) =>
    case Breads(x) => BreadKeeps(j.cache, Blocks(Lh(j)), x);
    case LogWrites(op, x) => LogWriteKeeps(area, j, op, x);
    case Brelses(x) => BrelseKeeps(j.cache, Blocks(Lh(j)), x);
    case Ends(op) =>
    case Commits =>
      CommitFinishesIff(j.cache, area, Lh(j));
      assert Blocks([]) == {};
  }

  lemma {:induction false} RunKeeps(area: Area, j: Joint, events: seq<Event>, j': Joint)
    requires Inv(area, j) && Runs(area, j, events, j')
    ensures Inv(area, j')
    decreases |events|
  {
    if events != [] {
      var mid :| RunsVia(area, j, events, mid, j');
      RunKeeps(area, j, events[..|events| - 1], mid);
      StepKeeps(area, mid, events[|events| - 1]);
    }
  }

  lemma FreshInv(area: Area, j: Joint)
    requires Fresh(j)
    ensures Inv(area, j)
  {
    assert Blocks([]) == {};
  }

  /** In every run, a commit panics for want of a buffer exactly when its transaction has NBUF blocks or more. */
  lemma CommitPanicsIff(area: Area, start: Joint, events: seq<Event>, j: Joint)
    requires Fresh(start) && Runs(area, start, events, j) && CanHappen(area, j, Commits)
    ensures Panics(Happen(area, j, Commits).0) <==> |Lh(j)| >= NBUF
  {
    FreshInv(area, start);
    RunKeeps(area, start, events, j);
    CommitFinishesIff(j.cache, area, Lh(j));
  }

  // A run to each panic.

  lemma RunsMore(area: Area, j: Joint, events: seq<Event>, mid: Joint, e: Event, j': Joint)
    requires Runs(area, j, events, mid) && Steps(area, mid, e, j')
    ensures Runs(area, j, events + [e], j')
  {
    var all := events + [e];
    assert all[..|all| - 1] == events && all[|all| - 1] == e;
    assert RunsVia(area, j, all, mid, j');
  }

  /** Nothing is held, and the log is m calls into a burst over the given blocks. */
  ghost predicate InBurst(area: Area, j: Joint, blocks: seq<nat>, m: nat)
    requires m <= LOGSIZE == |blocks|
  {
    Inv(area, j) && Held(j.cache, {}) && j.log == R.AfterBurst(blocks, m)
  }

  /** A block just read by the only holder can be logged. */
  lemma ReadThenLog(s: C.Sys, pinned: set<nat>, x: nat)
    requires Pinned(s, pinned) && Held(s, {}) && |pinned| < NBUF
    ensures var r := Call(s, Read(x)); r.Finished? && Pinned(r.s, pinned) && Held(r.s, {x}) && CanLog(r.s, x)
  {
    assert pinned + {} == pinned && {} + {x} == {x};
    ReadOnce(s, pinned, {}, x);
    var b, s' := BreadAt(s, x);
    FoundAt(s', x, b);
  }

  lemma BurstReads(area: Area, j: Joint, blocks: seq<nat>, m: nat) returns (j1: Joint)
    requires 0 < m <= LOGSIZE == |blocks| && InBurst(area, j, blocks, m - 1)
    ensures Steps(area, j, Breads(blocks[m - 1]), j1) && Inv(area, j1) && j1.log == j.log
    ensures Held(j1.cache, {blocks[m - 1]}) && CanLog(j1.cache, blocks[m - 1])
  {
    BlocksSize(Lh(j));
    ReadThenLog(j.cache, Blocks(Lh(j)), blocks[m - 1]);
    j1 := j.(cache := Call(j.cache, Read(blocks[m - 1])).s);
  }

  lemma BurstLogs(area: Area, j: Joint, blocks: seq<nat>, m: nat) returns (j2: Joint)
    requires 0 < m <= LOGSIZE == |blocks| && m < area.size && Inv(area, j) && j.log == R.AfterBurst(blocks, m - 1)
    requires Distinct(blocks) && !InLog(area, blocks[m - 1])
    requires Held(j.cache, {blocks[m - 1]}) && CanLog(j.cache, blocks[m - 1])
    ensures Steps(area, j, LogWrites((m - 1) / R.MAXOPBLOCKS, blocks[m - 1]), j2)
    ensures Inv(area, j2) && Held(j2.cache, {blocks[m - 1]}) && j2.log == R.AfterBurst(blocks, m)
  {
    var x, op := blocks[m - 1], (m - 1) / R.MAXOPBLOCKS;
    R.BurstStep(area.size, blocks, m);
    assert x !in Lh(j);
    PinAdds(j.cache, Blocks(Lh(j)), {x}, x);
    j2 := Joint(R.AfterBurst(blocks, m), Bpin(j.cache, x));
    StepKeeps(area, j, LogWrites(op, x));
  }

  lemma BurstReleases(area: Area, j: Joint, blocks: seq<nat>, m: nat) returns (j3: Joint)
    requires 0 < m <= LOGSIZE == |blocks| && Inv(area, j) && j.log == R.AfterBurst(blocks, m) && Held(j.cache, {blocks[m - 1]})
    ensures Steps(area, j, Brelses(blocks[m - 1]), j3) && InBurst(area, j3, blocks, m)
  {
    var x := blocks[m - 1];
    ReleaseOnce(j.cache, Blocks(Lh(j)), {x}, x);
    var b := WhereHeld(j.cache, {x}, x);
    j3 := j.(cache := Brelse(j.cache, x));
    assert {x} - {x} == {};
  }

  /** Three operations log m home blocks between them, releasing each; nothing panics while the log has room. */
  lemma {:induction false} BurstRuns(area: Area, start: Joint, blocks: seq<nat>, m: nat) returns (events: seq<Event>, j: Joint)
    requires Fresh(start) && Distinct(blocks) && m <= LOGSIZE == |blocks| && (m == 0 || m < area.size)
    requires forall i | 0 <= i < |blocks| :: !InLog(area, blocks[i])
    ensures Runs(area, start, events, j) && InBurst(area, j, blocks, m)
    decreases m
  {
    if m == 0 {
      events, j := BurstBegins(area, start, blocks);
    } else {
      events, j := BurstRuns(area, start, blocks, m - 1);
      var x := blocks[m - 1];
      var j1 := BurstReads(area, j, blocks, m);
      var j2 := BurstLogs(area, j1, blocks, m);
      var j3 := BurstReleases(area, j2, blocks, m);
      RunsMore(area, start, events, j, Breads(x), j1);
      RunsMore(area, start, events + [Breads(x)], j1, LogWrites((m - 1) / R.MAXOPBLOCKS, x), j2);
      RunsMore(area, start, events + [Breads(x)] + [LogWrites((m - 1) / R.MAXOPBLOCKS, x)], j2, Brelses(x), j3);
      events, j := events + [Breads(x)] + [LogWrites((m - 1) / R.MAXOPBLOCKS, x)] + [Brelses(x)], j3;
    }
  }

  lemma BurstBegins(area: Area, start: Joint, blocks: seq<nat>) returns (events: seq<Event>, j: Joint)
    requires Fresh(start) && |blocks| == LOGSIZE
    ensures Runs(area, start, events, j) && InBurst(area, j, blocks, 0)
  {
    R.BurstBegun(area.size, blocks);
    FreshInv(area, start);
    var j1 := Happen(area, start, Begins(0)).1;
    var j2 := Happen(area, j1, Begins(1)).1;
    j := Happen(area, j2, Begins(2)).1;
    assert Runs(area, start, [], start);
    RunsMore(area, start, [], start, Begins(0), j1);
    RunsMore(area, start, [] + [Begins(0)], j1, Begins(1), j2);
    RunsMore(area, start, [] + [Begins(0)] + [Begins(1)], j2, Begins(2), j);
    events := [] + [Begins(0)] + [Begins(1)] + [Begins(2)];
  }

  /** When every block of a small log is taken, the next log_write panics. */
  lemma BurstPanics(area: Area, j: Joint, blocks: seq<nat>)
    requires 1 <= area.size <= LOGSIZE == |blocks| && Inv(area, j) && j.log == R.AfterBurst(blocks, area.size - 1)
    requires !InLog(area, blocks[area.size - 1]) && CanLog(j.cache, blocks[area.size - 1])
    ensures var e := LogWrites((area.size - 1) / R.MAXOPBLOCKS, blocks[area.size - 1]);
            CanHappen(area, j, e) && Happen(area, j, e).0 == Logs(R.TooBig)
  {
    R.BurstOverflows(area.size, blocks);
  }

  /** A log of at most LOGSIZE blocks overflows: log_write's own check fails. */
  lemma SmallLogOverflows(area: Area, start: Joint, blocks: seq<nat>) returns (events: seq<Event>, j: Joint, e: Event)
    requires Fresh(start) && Distinct(blocks) && 1 <= area.size <= LOGSIZE == |blocks|
    requires forall i | 0 <= i < |blocks| :: !InLog(area, blocks[i])
    ensures Runs(area, start, events, j) && CanHappen(area, j, e) && Happen(area, j, e).0 == Logs(R.TooBig)
  {
    var x, op := blocks[area.size - 1], (area.size - 1) / R.MAXOPBLOCKS;
    var before, j0 := BurstRuns(area, start, blocks, area.size - 1);
    j := BurstReads(area, j0, blocks, area.size);
    RunsMore(area, start, before, j0, Breads(x), j);
    BurstPanics(area, j, blocks);
    events, e := before + [Breads(x)], LogWrites(op, x);
  }

  /** One operation ends after others; the last one has to commit. */
  lemma EndsNext(area: Area, start: Joint, before: seq<Event>, j: Joint, op: nat) returns (j': Joint)
    requires Runs(area, start, before, j) && C.Inv(j.cache) && op in j.log.left && j.log.log.outstanding > 0 && !j.log.log.committing
    ensures Runs(area, start, before + [Ends(op)], j') && j'.cache == j.cache && Lh(j') == Lh(j) && j'.log.left == j.log.left - {op}
    ensures j'.log.log.outstanding == j.log.log.outstanding - 1 && j'.log.log.committing == (j.log.log.outstanding == 1)
  {
    j' := Happen(area, j, Ends(op)).1;
    RunsMore(area, start, before, j, Ends(op), j');
  }

  /** The three operations end; the last one has to commit. */
  lemma BurstEnds(area: Area, start: Joint, before: seq<Event>, j0: Joint, blocks: seq<nat>) returns (events: seq<Event>, j: Joint)
    requires |blocks| == LOGSIZE && Runs(area, start, before, j0) && InBurst(area, j0, blocks, LOGSIZE)
    ensures Runs(area, start, events, j) && j.cache == j0.cache && Lh(j) == Lh(j0) && j.log.log.committing
  {
    var j1 := EndsNext(area, start, before, j0, 0);
    var j2 := EndsNext(area, start, before + [Ends(0)], j1, 1);
    j := EndsNext(area, start, before + [Ends(0)] + [Ends(1)], j2, 2);
    events := before + [Ends(0)] + [Ends(1)] + [Ends(2)];
  }

  /** A bigger log takes as many blocks as there are buffers: the commit that follows finds none. */
  lemma BigLogStarves(area: Area, start: Joint, blocks: seq<nat>) returns (events: seq<Event>, j: Joint)
    requires Fresh(start) && Distinct(blocks) && area.size > LOGSIZE == |blocks|
    requires forall i | 0 <= i < |blocks| :: !InLog(area, blocks[i])
    ensures Runs(area, start, events, j) && CanHappen(area, j, Commits) && Happen(area, j, Commits).0 == BufferPanic
  {
    var before, j0 := BurstRuns(area, start, blocks, LOGSIZE);
    events, j := BurstEnds(area, start, before, j0, blocks);
    CommitFinishesIff(j.cache, area, Lh(j));
  }

  /**
   Whatever the size of the log, some run of well-behaved operations on any LOGSIZE home blocks ends
   in a panic: in log_write when the log has at most LOGSIZE blocks, in the commit's bget otherwise.
   */
  lemma SomePanicIsReachable(area: Area, start: Joint, blocks: seq<nat>)
    requires Fresh(start) && Distinct(blocks) && area.size >= 1 && |blocks| == LOGSIZE
    requires forall i | 0 <= i < |blocks| :: !InLog(area, blocks[i])
    ensures exists events, j, e :: Runs(area, start, events, j) && CanHappen(area, j, e)
              && Happen(area, j, e).0 == if area.size <= LOGSIZE then Logs(R.TooBig) else BufferPanic
  {
    if area.size <= LOGSIZE {
      var events, j, e := SmallLogOverflows(area, start, blocks);
    } else {
      var events, j := BigLogStarves(area, start, blocks);
    }
  }
}
