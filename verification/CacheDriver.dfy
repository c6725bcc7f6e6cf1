/**
 The buffer cache as the kernel keeps it: an array of buffers strung on a doubly linked ring that
 starts and ends at a list head. Each method is proved to do what BufferCache says.
 */
module CacheDriver {
  import opened BufferCache

  /** The list head's place in the arrays of links. */
  const HEAD: nat := NBUF

  ghost function Chain(order: seq<nat>): (c: seq<nat>)
    ensures |c| == |order| + 2
  {
    [HEAD] + order + [HEAD]
  }

  ghost predicate Links(next: seq<nat>, prev: seq<nat>)
  {
    |next| == NBUF + 1 && |prev| == NBUF + 1
  }

  /** Following next from the head visits the buffers in this order and returns; prev goes the other way. */
  ghost predicate Ring(next: seq<nat>, prev: seq<nat>, order: seq<nat>)
  {
    && Links(next, prev)
    && (forall i | 0 <= i < |order| :: order[i] < NBUF)
    && (forall i, j | 0 <= i < j < |order| :: order[i] != order[j])
    && var c := Chain(order);
    && (forall i | 0 <= i <= |order| :: next[c[i]] == c[i + 1])
    && (forall i | 0 <= i <= |order| :: prev[c[i + 1]] == c[i])
  }

  /** Linking b in behind the head. */
  lemma LinkedInFront(next: seq<nat>, prev: seq<nat>, order: seq<nat>, b: nat)
    requires Ring(next, prev, order) && b < NBUF && b !in order
    ensures next[HEAD] <= NBUF
    ensures Ring(next[b := next[HEAD]][HEAD := b], prev[b := HEAD][next[HEAD] := b], [b] + order)
  {
    var (c, c') := (Chain(order), Chain([b] + order));
    assert c[0] == HEAD && c[|order| + 1] == HEAD;
    assert next[c[0]] == c[1];
    var (next', prev') := (next[b := next[HEAD]][HEAD := b], prev[b := HEAD][next[HEAD] := b]);
    forall i | 0 <= i <= |order| + 1 ensures next'[c'[i]] == c'[i + 1] {
      if i >= 2 { assert c'[i] == c[i - 1] == order[i - 2] && c'[i + 1] == c[i]; }
    }
    forall i | 0 <= i <= |order| + 1 ensures prev'[c'[i + 1]] == c'[i] {
      if i >= 2 {
        assert c'[i] == c[i - 1] && c'[i + 1] == c[i];
        assert c[i] != c[1];
      }
    }
  }

  lemma {:induction false} WithoutAt(order: seq<nat>, k: nat)
    requires k < |order| && forall i, j | 0 <= i < j < |order| :: order[i] != order[j]
    ensures Without(order, order[k]) == order[..k] + order[k + 1..]
    decreases |order|
  {
    if k == 0 {
      WithoutAbsent(order[1..], order[0]);
    } else {
      WithoutAt(order[1..], k - 1);
      assert order[1..][..k - 1] == order[1..k] && order[1..][k..] == order[k + 1..];
      assert [order[0]] + order[1..k] == order[..k];
    }
  }

  lemma {:induction false} WithoutAbsent(list: seq<nat>, b: nat)
    requires b !in list
    ensures Without(list, b) == list
    decreases |list|
  {
    if list != [] {
      WithoutAbsent(list[1..], b);
      assert list == [list[0]] + list[1..];
    }
  }

  /** Place i of the chain without its place k + 1, and which old links it keeps. */
  lemma ShorterChain(order: seq<nat>, k: nat, i: nat)
    requires k < |order| && i < |order|
    requires (forall j | 0 <= j < |order| :: order[j] < NBUF)
    requires (forall i, j | 0 <= i < j < |order| :: order[i] != order[j])
    ensures var (c, c') := (Chain(order), Chain(order[..k] + order[k + 1..]));
            && c'[i] == (if i <= k then c[i] else c[i + 1])
            && c'[i + 1] == (if i < k then c[i + 1] else c[i + 2])
            && (i < k ==> c[i] != c[k] && c[i + 1] != c[k + 2])
            && (i > k ==> c[i + 1] != c[k] && c[i + 2] != c[k + 2])
  {
  }

  lemma ShorterLink(next: seq<nat>, prev: seq<nat>, order: seq<nat>, k: nat, i: nat)
    requires Ring(next, prev, order) && k < |order| && i < |order|
    ensures var (c, c') := (Chain(order), Chain(order[..k] + order[k + 1..]));
            next[c[k] := c[k + 2]][c'[i]] == c'[i + 1] && prev[c[k + 2] := c[k]][c'[i + 1]] == c'[i]
  {
    var c := Chain(order);
    ShorterChain(order, k, i);
    assert next[c[i]] == c[i + 1] && prev[c[i + 1]] == c[i];
    assert i + 1 <= |order| ==> next[c[i + 1]] == c[i + 2] && prev[c[i + 2]] == c[i + 1];
  }

  /** Unlinking the buffer at place k. */
  lemma Unlinked(next: seq<nat>, prev: seq<nat>, order: seq<nat>, k: nat)
    requires Ring(next, prev, order) && k < |order|
    ensures var b := order[k];
            && next[b] <= NBUF && prev[b] <= NBUF && next[b] != b
            && Ring(next[prev[b] := next[b]], prev[next[b] := prev[b]], order[..k] + order[k + 1..])
  {
    var rest := order[..k] + order[k + 1..];
    var c := Chain(order);
    assert c[k + 1] == order[k] && next[c[k + 1]] == c[k + 2] && prev[c[k + 1]] == c[k];
    assert c[k + 2] != c[k + 1];
    forall i | 0 <= i <= |rest|
      ensures var c' := Chain(rest);
              next[c[k] := c[k + 2]][c'[i]] == c'[i + 1] && prev[c[k + 2] := c[k]][c'[i + 1]] == c'[i]
    {
      ShorterLink(next, prev, order, k, i);
    }
  }

  class Driver {
    var bufs: seq<Buf>
    var next: seq<nat>
    var prev: seq<nat>
    ghost var order: seq<nat>
    ghost var stamp: seq<nat>
    ghost var clock: nat

    ghost predicate Valid()
      reads this
    {
      Sorted(Value()) && Ring(next, prev, order)
    }

    ghost function Value(): Cache
      reads this
    {
      Cache(bufs, order, stamp, clock)
    }

    /** binit; buffers start out zeroed. */
    constructor ()
      ensures Valid() && Good(Value())
      ensures forall b | 0 <= b < NBUF :: bufs[b].refcnt == 0 && bufs[b].dev == 0 && stamp[b] == b
    {
      bufs := seq(NBUF, i => Buf(0, 0, false, 0, 0));
      stamp, clock := seq(NBUF, i => i), NBUF;
      order := [];
      next, prev := seq(NBUF + 1, i => HEAD), seq(NBUF + 1, i => HEAD);
      new;
      var b := 0;
      while b < NBUF
        invariant 0 <= b <= NBUF && |order| == b && Ring(next, prev, order)
        invariant forall i | 0 <= i < b :: order[i] == b - 1 - i
        invariant bufs == seq(NBUF, i => Buf(0, 0, false, 0, 0)) && stamp == seq(NBUF, i => i) && clock == NBUF
      {
        LinkedInFront(next, prev, order, b);
        next := next[b := next[HEAD]];
        prev := prev[b := HEAD];
        prev := prev[next[HEAD] := b];
        next := next[HEAD := b];
        order := [b] + order;
        b := b + 1;
      }
    }

    /** The first loop of bget. */
    method FindCached(dev: nat, blockno: nat) returns (b: int)
      requires Valid()
      ensures b == FirstHolding(bufs, order, dev, blockno)
    {
      ghost var c := Chain(order);
      assert c[0] == HEAD && next[c[0]] == c[1];
      var p := next[HEAD];
      ghost var i := 0;
      while p != HEAD
        invariant 0 <= i <= NBUF && p == c[i + 1]
        invariant FirstHolding(bufs, order, dev, blockno) == FirstHolding(bufs, order[i..], dev, blockno)
        decreases NBUF - i
      {
        assert p == order[i] == order[i..][0] && order[i..][1..] == order[i + 1..];
        if bufs[p].dev == dev && bufs[p].blockno == blockno { return p; }
        assert next[c[i + 1]] == c[i + 2];
        p := next[p];
        i := i + 1;
      }
      return -1;
    }

    /** The second loop of bget. */
    method FindUnused() returns (b: int)
      requires Valid()
      ensures b == LastUnused(bufs, order)
    {
      ghost var c := Chain(order);
      assert c[NBUF + 1] == HEAD && prev[c[NBUF + 1]] == c[NBUF];
      var p := prev[HEAD];
      ghost var i := NBUF;
      assert order[..NBUF] == order;
      while p != HEAD
        invariant 0 <= i <= NBUF && p == c[i]
        invariant LastUnused(bufs, order) == LastUnused(bufs, order[..i])
        decreases i
      {
        assert i > 0 && p == order[i - 1] == order[..i][i - 1] && order[..i][..i - 1] == order[..i - 1];
        if bufs[p].refcnt == 0 { return p; }
        assert prev[c[i]] == c[i - 1];
        p := prev[p];
        i := i - 1;
      }
      return -1;
    }

    /** bget; -1 stands for its panic. */
    method Bget(dev: nat, blockno: nat) returns (b: int)
      requires Valid()
      modifies this`bufs
      ensures Valid() && (b, Value()) == Get(old(Value()), dev, blockno)
    {
      b := FindCached(dev, blockno);
      if b >= 0 {
        bufs := bufs[b := bufs[b].(refcnt := bufs[b].refcnt + 1)];
        return;
      }
      b := FindUnused();
      if b >= 0 {
        bufs := bufs[b := bufs[b].(dev := dev, blockno := blockno, valid := false, refcnt := 1)];
      }
    }

    /** bread, where the disk holds content; -1 stands for bget's panic. */
    method Bread(dev: nat, blockno: nat, content: Content) returns (b: int)
      requires Valid()
      modifies this`bufs
      ensures Valid() && (b, Value()) == BufferCache.Bread(old(Value()), dev, blockno, content)
    {
      b := Bget(dev, blockno);
      if b >= 0 && !bufs[b].valid {
        bufs := bufs[b := bufs[b].(data := content, valid := true)];
      }
    }

    /** The splicing in brelse: the buffer goes to the front of the ring. */
    method MoveToFront(b: nat)
      requires Valid() && b < NBUF
      modifies this`next, this`prev
      ensures Ring(next, prev, [b] + Without(order, b))
    {
      OrderCovers(order, b);
      ghost var k :| 0 <= k < NBUF && order[k] == b;
      WithoutAt(order, k);
      Unlinked(next, prev, order, k);
      prev := prev[next[b] := prev[b]];
      next := next[prev[b] := next[b]];
      LinkedInFront(next, prev, Without(order, b), b);
      next := next[b := next[HEAD]];
      prev := prev[b := HEAD];
      prev := prev[next[HEAD] := b];
      next := next[HEAD := b];
    }

    /** brelse. */
    method Brelse(b: nat)
      requires Valid() && b < NBUF
      modifies this
      ensures Valid() && Value() == Release(old(Value()), b)
    {
      ReleaseSorted(Value(), b);
      bufs := bufs[b := bufs[b].(refcnt := bufs[b].refcnt - 1)];
      if bufs[b].refcnt == 0 {
        MoveToFront(b);
        order, stamp, clock := [b] + Without(order, b), stamp[b := clock], clock + 1;
      }
    }

    /** bpin. */
    method Bpin(b: nat)
      requires Valid() && b < NBUF
      modifies this`bufs
      ensures Valid() && Value() == Pin(old(Value()), b, 1)
    {
      bufs := bufs[b := bufs[b].(refcnt := bufs[b].refcnt + 1)];
    }

    /** bunpin. */
    method Bunpin(b: nat)
      requires Valid() && b < NBUF
      modifies this`bufs
      ensures Valid() && Value() == Pin(old(Value()), b, -1)
    {
      bufs := bufs[b := bufs[b].(refcnt := bufs[b].refcnt - 1)];
    }
  }
}
