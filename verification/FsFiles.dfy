/** Block allocation, the block map of an inode, and files as sequences of bytes. */
module FsFiles {
  import opened FsModel

  // balloc.

  /** The first free block at or after b, or sb.size. */
  ghost function FirstFree(sb: Super, bitmap: seq<bv8>, b: nat): (r: nat)
    requires b <= sb.size <= |bitmap| * 8
    ensures b <= r <= sb.size
    ensures r < sb.size ==> !Used(bitmap, r)
    ensures forall c | b <= c < r :: Used(bitmap, c)
    decreases sb.size - b
  {
    if b == sb.size || !Used(bitmap, b) then b else FirstFree(sb, bitmap, b + 1)
  }

  /** balloc: the first free block, marked and zeroed; 0 if there is none. */
  ghost function Alloc(sb: Super, fs: Fs): (r: (nat, Fs))
    requires Shaped(sb, fs)
    ensures Shaped(sb, r.1)
  {
    var b := FirstFree(sb, fs.bitmap, 0);
    if b == sb.size then (0, fs) else (b, Taken(fs, b))
  }

  lemma AllocOwned(sb: Super, fs: Fs, owner: map<nat, Slot>)
    requires Owned(sb, fs, owner, {})
    ensures var (b, fs') := Alloc(sb, fs);
            if b == 0 then fs' == fs && forall c | 0 <= c < sb.size :: Used(fs.bitmap, c)
            else sb.meta <= b < sb.size && !Used(fs.bitmap, b) && b !in owner && fs' == Taken(fs, b) && Owned(sb, fs', owner, {b})
  {
    var b := FirstFree(sb, fs.bitmap, 0);
    if b < sb.size { TakenOwned(sb, fs, owner, b); }
  }

  // bmap.

  function BlockSlot(ino: nat, bn: nat): (s: Slot)
  {
    if bn < NDIRECT then Direct(ino, bn) else Entry(ino, bn - NDIRECT)
  }

  /** The block that holds the bn'th block of a file, 0 for none. */
  ghost function Addr(fs: Fs, ino: nat, bn: nat): (b: nat)
    requires ino < |fs.inodes| && |fs.inodes[ino].addrs| == NDIRECT + 1 && bn < MAXFILE
  {
    At(fs, BlockSlot(ino, bn))
  }

  /** The block stored in slot s, allocated first if there is none. */
  ghost function Filled(sb: Super, fs: Fs, s: Slot): (r: (nat, Fs))
    requires Shaped(sb, fs) && IsSlot(fs, s)
    requires s.Entry? ==> 0 < fs.inodes[s.ino].addrs[NDIRECT] < |fs.blocks|
  {
    if At(fs, s) != 0 then (At(fs, s), fs)
    else
      var (b, fs') := Alloc(sb, fs);
      (b, if b == 0 then fs' else Stored(fs', s, b))
  }

  /** bmap, for a block number in range. */
  ghost function Bmap(sb: Super, fs: Fs, ino: nat, bn: nat): (r: (nat, Fs))
    requires Shaped(sb, fs) && ino < |fs.inodes| && bn < MAXFILE
  {
    if bn < NDIRECT then Filled(sb, fs, Direct(ino, bn))
    else
      var (ind, fs') := Filled(sb, fs, Indirect(ino));
      if ind == 0 then (0, fs')
      else if Shaped(sb, fs') && IsSlot(fs', Entry(ino, bn - NDIRECT)) && 0 < fs'.inodes[ino].addrs[NDIRECT] < |fs'.blocks|
      then Filled(sb, fs', Entry(ino, bn - NDIRECT))
      else (0, fs')
  }

  /** Slots whose blocks hold file data. */
  predicate IsData(s: Slot) { s.Direct? || s.Entry? }

  /** s itself, or the indirect slot on the way to it. */
  predicate OnTheWay(t: Slot, s: Slot) { t == s || (t.Indirect? && t.ino == s.ino) }

  /** Only s and the way to it may be filled; every block stored is where it was, data blocks with what they held. */
  ghost predicate Extends(fs: Fs, fs': Fs, s: Slot)
  {
    && |fs'.inodes| == |fs.inodes| && |fs'.blocks| == |fs.blocks|
    && (forall i | 0 <= i < |fs.inodes| :: |fs.inodes[i].addrs| == NDIRECT + 1 && |fs'.inodes[i].addrs| == NDIRECT + 1
                                           && fs'.inodes[i].size == fs.inodes[i].size)
    && (forall t | IsSlot(fs, t) && !OnTheWay(t, s) :: At(fs', t) == At(fs, t))
    && (forall t | IsSlot(fs, t) && At(fs, t) != 0 :: At(fs', t) == At(fs, t) < |fs.blocks|)
    && (forall t | IsSlot(fs, t) && IsData(t) && At(fs, t) != 0 :: fs'.blocks[At(fs, t)] == fs.blocks[At(fs, t)])
  }

  lemma ExtendsSelf(sb: Super, fs: Fs, owner: map<nat, Slot>, s: Slot)
    requires Owned(sb, fs, owner, {})
    ensures Extends(fs, fs, s)
  {
    forall t | IsSlot(fs, t) && At(fs, t) != 0 ensures At(fs, t) < |fs.blocks| { assert At(fs, t) in owner; }
  }

  lemma ExtendsTrans(a: Fs, b: Fs, c: Fs, s: Slot, s': Slot)
    requires Extends(a, b, s') && Extends(b, c, s) && OnTheWay(s', s)
    ensures Extends(a, c, s)
  {
    forall t | IsSlot(a, t) && At(a, t) != 0
      ensures At(c, t) == At(a, t) < |a.blocks| && (IsData(t) ==> c.blocks[At(a, t)] == a.blocks[At(a, t)])
    {
      assert IsSlot(b, t);
      assert At(b, t) == At(a, t);
    }
    forall t | IsSlot(a, t) && !OnTheWay(t, s) ensures At(c, t) == At(a, t) {
      assert IsSlot(b, t) && !OnTheWay(t, s');
    }
  }

  lemma TakenExtends(sb: Super, fs: Fs, owner: map<nat, Slot>, b: nat, s: Slot)
    requires Owned(sb, fs, owner, {}) && b < sb.size && !Used(fs.bitmap, b)
    ensures Extends(fs, Taken(fs, b), s)
  {
    forall t | IsSlot(fs, t) ensures At(Taken(fs, b), t) == At(fs, t) { TakenAt(sb, fs, owner, b, t); }
    forall t | IsSlot(fs, t) && At(fs, t) != 0 ensures At(fs, t) != b && At(fs, t) < sb.size { assert At(fs, t) in owner.Keys; }
  }

  lemma StoredExtends(sb: Super, fs: Fs, owner: map<nat, Slot>, s: Slot, b: nat)
    requires Owned(sb, fs, owner, {b}) && IsSlot(fs, s) && At(fs, s) == 0
    requires s.Entry? ==> 0 < fs.inodes[s.ino].addrs[NDIRECT] < |fs.blocks|
    requires s.Indirect? ==> fs.blocks[b] == ZeroBlock()
    ensures Extends(fs, Stored(fs, s, b), s)
  {
    assert b in {b};
    StoredSlots(sb, fs, owner, s, b);
    var fs' := Stored(fs, s, b);
    forall t | IsSlot(fs, t) ensures At(fs', t) == if t == s then b else At(fs, t) { assert IsSlot(fs', t); }
    forall t | IsSlot(fs, t) && At(fs, t) != 0
      ensures At(fs, t) < |fs.blocks| && (IsData(t) ==> fs'.blocks[At(fs, t)] == fs.blocks[At(fs, t)])
    {
      assert At(fs, t) in owner.Keys;
      if s.Entry? && IsData(t) { SlotsDistinct(sb, fs, owner, {b}, Indirect(s.ino), t); }
    }
  }

  /** Filling a slot keeps ownership, moves no data, and fails only when no block is free. */
  lemma FilledIs(sb: Super, fs: Fs, owner: map<nat, Slot>, s: Slot) returns (owner': map<nat, Slot>)
    requires Owned(sb, fs, owner, {}) && IsSlot(fs, s)
    requires s.Entry? ==> 0 < fs.inodes[s.ino].addrs[NDIRECT] < |fs.blocks|
    ensures var (b, fs') := Filled(sb, fs, s);
            && Owned(sb, fs', owner', {}) && Extends(fs, fs', s) && At(fs', s) == b
            && (b != 0 ==> sb.meta <= b < sb.size)
            && (b == 0 ==> fs' == fs && forall c | 0 <= c < sb.size :: Used(fs.bitmap, c))
            && (At(fs, s) != 0 ==> fs' == fs && b == At(fs, s))
            && (At(fs, s) == 0 && b != 0 ==> s.Direct? || s.Entry? || fs'.blocks[b] == ZeroBlock())
            && (At(fs, s) == 0 && b != 0 && IsData(s) ==> fs'.blocks[b] == ZeroBlock())
  {
    owner' := owner;
    ExtendsSelf(sb, fs, owner, s);
    if At(fs, s) != 0 {
      assert At(fs, s) in owner.Keys;
    } else {
      AllocOwned(sb, fs, owner);
      var (b, mid) := Alloc(sb, fs);
      if b != 0 {
        owner' := FilledFresh(sb, fs, owner, s, b);
      }
    }
  }

  lemma FilledFresh(sb: Super, fs: Fs, owner: map<nat, Slot>, s: Slot, b: nat) returns (owner': map<nat, Slot>)
    requires Owned(sb, fs, owner, {}) && IsSlot(fs, s) && At(fs, s) == 0
    requires s.Entry? ==> 0 < fs.inodes[s.ino].addrs[NDIRECT] < |fs.blocks|
    requires sb.meta <= b < sb.size && !Used(fs.bitmap, b) && Owned(sb, Taken(fs, b), owner, {b})
    ensures var fs' := Stored(Taken(fs, b), s, b);
            && Owned(sb, fs', owner', {}) && Extends(fs, fs', s) && At(fs', s) == b
            && fs'.blocks[b] == ZeroBlock()
  {
    var mid := Taken(fs, b);
    TakenAt(sb, fs, owner, b, s);
    TakenExtends(sb, fs, owner, b, s);
    StoredOwned(sb, mid, owner, s, b);
    StoredExtends(sb, mid, owner, s, b);
    StoredAt(sb, mid, owner, {b}, s, b, s);
    ExtendsTrans(fs, mid, Stored(mid, s, b), s, s);
    owner' := owner[b := s];
    if s.Entry? {
      assert At(mid, Indirect(s.ino)) in owner.Keys;
      assert b !in owner.Keys;
    }
  }

  /**
   bmap keeps every block's ownership. It maps the requested block of the file, or there is no free
   block left; every other block of every file stays where it is with what it holds, and a block
   newly mapped is zeroed.
   */
  lemma BmapIs(sb: Super, fs: Fs, owner: map<nat, Slot>, ino: nat, bn: nat) returns (owner': map<nat, Slot>)
    requires Owned(sb, fs, owner, {}) && ino < |fs.inodes| && bn < MAXFILE
    ensures var (b, fs') := Bmap(sb, fs, ino, bn);
            && Owned(sb, fs', owner', {}) && Extends(fs, fs', BlockSlot(ino, bn))
            && Addr(fs', ino, bn) == b
            && (b != 0 ==> sb.meta <= b < sb.size)
            && (b == 0 ==> forall c | 0 <= c < sb.size :: Used(fs'.bitmap, c))
            && (Addr(fs, ino, bn) != 0 ==> fs' == fs && b == Addr(fs, ino, bn))
            && (Addr(fs, ino, bn) == 0 && b != 0 ==> fs'.blocks[b] == ZeroBlock())
  {
    if bn < NDIRECT {
      owner' := FilledIs(sb, fs, owner, Direct(ino, bn));
    } else {
      var s := Entry(ino, bn - NDIRECT);
      owner' := FilledIs(sb, fs, owner, Indirect(ino));
      var (ind, mid) := Filled(sb, fs, Indirect(ino));
      if ind == 0 {
        assert Extends(fs, fs, s) by { ExtendsSelf(sb, fs, owner, s); }
      } else {
        owner' := FilledIs(sb, mid, owner', s);
        ExtendsTrans(fs, mid, Filled(sb, mid, s).1, s, Indirect(ino));
        if At(fs, s) == 0 { assert At(fs, Indirect(ino)) == 0 ==> mid.blocks[ind] == ZeroBlock(); }
        if At(fs, Indirect(ino)) == 0 { ZeroWord(s.k); }
      }
    }
  }

  // itrunc.

  lemma OwnerOf(sb: Super, fs: Fs, owner: map<nat, Slot>, s: Slot)
    requires Owned(sb, fs, owner, {}) && IsSlot(fs, s)
    ensures At(fs, s) != 0 ==> At(fs, s) in owner && owner[At(fs, s)] == s && At(fs, s) < sb.size && Used(fs.bitmap, At(fs, s))
    ensures forall b | b in owner && owner[b] == s :: b == At(fs, s) != 0
  {
    if At(fs, s) != 0 { assert At(fs, s) in owner.Keys; }
    forall b | b in owner && owner[b] == s ensures b == At(fs, s) != 0 { assert b in owner.Keys; }
  }

  ghost function BlocksOf(owner: map<nat, Slot>, ino: nat): (r: set<nat>)
  {
    set b | b in owner && owner[b].ino == ino
  }

  function EmptyInode(): Inode { Inode(seq(NDIRECT + 1, i => 0), 0) }

  /** fs' is fs with inode ino emptied and the bits of exactly its blocks cleared. */
  ghost predicate Truncated(sb: Super, fs: Fs, owner: map<nat, Slot>, ino: nat, fs': Fs)
    requires Shaped(sb, fs) && ino < |fs.inodes|
  {
    && fs'.blocks == fs.blocks && fs'.inodes == fs.inodes[ino := EmptyInode()] && |fs'.bitmap| == |fs.bitmap|
    && forall b | 0 <= b < sb.size :: Used(fs'.bitmap, b) <==> Used(fs.bitmap, b) && b !in BlocksOf(owner, ino)
  }

  lemma TruncatedAt(sb: Super, fs: Fs, owner: map<nat, Slot>, ino: nat, fs': Fs, s: Slot)
    requires Shaped(sb, fs) && ino < |fs.inodes| && Truncated(sb, fs, owner, ino, fs') && IsSlot(fs, s)
    ensures IsSlot(fs', s) && At(fs', s) == if s.ino == ino then 0 else At(fs, s)
  {
  }

  /** itrunc frees exactly the inode's blocks and disturbs no other inode. */
  lemma TruncatedOwned(sb: Super, fs: Fs, owner: map<nat, Slot>, ino: nat, fs': Fs)
    requires Owned(sb, fs, owner, {}) && ino < |fs.inodes| && Truncated(sb, fs, owner, ino, fs')
    ensures Owned(sb, fs', owner - BlocksOf(owner, ino), {})
    ensures forall s | IsSlot(fs, s) :: At(fs', s) == if s.ino == ino then 0 else At(fs, s)
  {
    var owner' := owner - BlocksOf(owner, ino);
    assert Shaped(sb, fs');
    forall s | IsSlot(fs, s) ensures At(fs', s) == if s.ino == ino then 0 else At(fs, s) {
      TruncatedAt(sb, fs, owner, ino, fs', s);
    }
    forall s | IsSlot(fs', s) && At(fs', s) != 0 ensures At(fs', s) in owner' && owner'[At(fs', s)] == s {
      assert IsSlot(fs, s);
      assert At(fs, s) in owner && owner[At(fs, s)] == s;
    }
    forall b | b in owner' ensures IsSlot(fs', owner'[b]) && At(fs', owner'[b]) == b {
      assert b in owner && owner[b].ino != ino && IsSlot(fs, owner[b]) && At(fs, owner[b]) == b;
      TruncatedAt(sb, fs, owner, ino, fs', owner[b]);
    }
    forall b | 0 <= b < sb.size ensures Used(fs'.bitmap, b) <==> b < sb.meta || b in owner'.Keys + {} {
      assert Used(fs.bitmap, b) <==> b < sb.meta || b in owner.Keys + {};
    }
  }

  // Files as bytes.

  /** Byte x of the file is on a mapped block. */
  ghost predicate Mapped(fs: Fs, ino: nat, x: nat)
    requires ino < |fs.inodes|
  {
    |fs.inodes[ino].addrs| == NDIRECT + 1 && x / BSIZE < MAXFILE && 0 < Addr(fs, ino, x / BSIZE) < |fs.blocks|
  }

  /** The byte at offset x as a reader sees it; where no block is mapped it is 0. */
  ghost function ByteOf(fs: Fs, ino: nat, x: nat): Byte
    requires ino < |fs.inodes|
  {
    if Mapped(fs, ino, x) then fs.blocks[Addr(fs, ino, x / BSIZE)][x % BSIZE] else 0
  }

  ghost function Content(fs: Fs, ino: nat): (c: seq<Byte>)
    requires ino < |fs.inodes|
    ensures |c| == fs.inodes[ino].size
  {
    seq(fs.inodes[ino].size, x requires 0 <= x < fs.inodes[ino].size => ByteOf(fs, ino, x))
  }

  /** Every byte below the file's size is on a mapped block. */
  ghost predicate Whole(fs: Fs, ino: nat)
    requires ino < |fs.inodes|
  {
    forall x | 0 <= x < fs.inodes[ino].size :: Mapped(fs, ino, x)
  }

  ghost predicate SameByte(fs: Fs, fs': Fs, i: nat, x: nat)
  {
    i < |fs.inodes| && i < |fs'.inodes| ==> ByteOf(fs', i, x) == ByteOf(fs, i, x) && (Mapped(fs, i, x) ==> Mapped(fs', i, x))
  }

  /** Every byte of every file, and every size, is the same, and what is mapped stays mapped. */
  ghost predicate SameFiles(fs: Fs, fs': Fs)
  {
    && |fs'.inodes| == |fs.inodes|
    && (forall i | 0 <= i < |fs.inodes| :: fs'.inodes[i].size == fs.inodes[i].size)
    && (forall i: nat, x: nat {:trigger SameByte(fs, fs', i, x)} :: SameByte(fs, fs', i, x))
  }

  lemma SameContent(fs: Fs, fs': Fs, i: nat)
    requires SameFiles(fs, fs') && i < |fs.inodes|
    ensures Content(fs', i) == Content(fs, i)
  {
    forall x: nat | x < fs.inodes[i].size ensures Content(fs', i)[x] == Content(fs, i)[x] { assert SameByte(fs, fs', i, x); }
  }

  lemma SameTrans(a: Fs, b: Fs, c: Fs)
    requires SameFiles(a, b) && SameFiles(b, c)
    ensures SameFiles(a, c)
  {
    forall i: nat, x: nat ensures SameByte(a, c, i, x) { assert SameByte(a, b, i, x) && SameByte(b, c, i, x); }
  }

  /** Filling a slot with a zeroed block changes nothing a reader sees. */
  lemma ExtendsSame(fs: Fs, fs': Fs, s: Slot)
    requires Extends(fs, fs', s) && IsSlot(fs, s) && IsData(s)
    requires At(fs, s) == 0 && At(fs', s) != 0 ==> At(fs', s) < |fs'.blocks| && fs'.blocks[At(fs', s)] == ZeroBlock()
    ensures SameFiles(fs, fs')
  {
    forall i: nat, x: nat ensures SameByte(fs, fs', i, x) {
      if i < |fs.inodes| && x / BSIZE < MAXFILE {
        var t := BlockSlot(i, x / BSIZE);
        assert IsSlot(fs, t) && IsData(t) && (t != s ==> !OnTheWay(t, s));
      }
    }
  }

  /** After itrunc the file is empty and every other file is as it was. */
  lemma TruncatedContent(sb: Super, fs: Fs, owner: map<nat, Slot>, ino: nat, fs': Fs, i: nat)
    requires Shaped(sb, fs) && ino < |fs.inodes| && Truncated(sb, fs, owner, ino, fs') && i < |fs.inodes|
    ensures Content(fs', i) == if i == ino then [] else Content(fs, i)
    ensures Whole(fs, i) ==> Whole(fs', i)
  {
    if i != ino {
      forall x: nat | x < fs.inodes[i].size
        ensures ByteOf(fs', i, x) == ByteOf(fs, i, x) && (Mapped(fs, i, x) ==> Mapped(fs', i, x))
      {
        if x / BSIZE < MAXFILE { TruncatedAt(sb, fs, owner, ino, fs', BlockSlot(i, x / BSIZE)); }
      }
    }
  }

  ghost predicate Full(sb: Super, bitmap: seq<bv8>)
    requires sb.size <= 8 * |bitmap|
  {
    forall b | 0 <= b < sb.size :: Used(bitmap, b)
  }

  /** What bmap means: the block is mapped or the disk is full, and no file reads differently. */
  ghost predicate BmapDoes(sb: Super, fs: Fs, fs': Fs, ino: nat, bn: nat, addr: nat)
    requires Shaped(sb, fs) && Shaped(sb, fs') && ino < |fs.inodes| && bn < MAXFILE
  {
    && Extends(fs, fs', BlockSlot(ino, bn)) && SameFiles(fs, fs')
    && Addr(fs', ino, bn) == addr && (addr != 0 ==> addr < |fs'.blocks|)
    && (addr == 0 ==> Full(sb, fs'.bitmap))
    && (Addr(fs, ino, bn) != 0 ==> fs' == fs)
  }

  lemma BmapReads(sb: Super, fs: Fs, owner: map<nat, Slot>, ino: nat, bn: nat) returns (owner': map<nat, Slot>)
    requires Owned(sb, fs, owner, {}) && ino < |fs.inodes| && bn < MAXFILE
    ensures var (b, fs') := Bmap(sb, fs, ino, bn); Owned(sb, fs', owner', {}) && BmapDoes(sb, fs, fs', ino, bn, b)
  {
    owner' := BmapIs(sb, fs, owner, ino, bn);
    ExtendsSame(fs, Bmap(sb, fs, ino, bn).1, BlockSlot(ino, bn));
  }

  /** A stretch of a file that stays within one block is a stretch of that block. */
  lemma ContentPiece(fs: Fs, ino: nat, o: nat, m: nat)
    requires ino < |fs.inodes| && Mapped(fs, ino, o) && o + m <= fs.inodes[ino].size && 0 < m <= BSIZE - o % BSIZE
    ensures fs.blocks[Addr(fs, ino, o / BSIZE)][o % BSIZE..o % BSIZE + m] == Content(fs, ino)[o..o + m]
  {
    var piece := fs.blocks[Addr(fs, ino, o / BSIZE)][o % BSIZE..o % BSIZE + m];
    forall k | 0 <= k < m ensures piece[k] == Content(fs, ino)[o + k] {
      SameBlock(o, m, o + k);
      assert Mapped(fs, ino, o + k);
    }
  }

  /** New bytes in a block from the given place on. */
  function Splice(b: Block, at: nat, bytes: seq<Byte>): (r: Block)
    requires at + |bytes| <= BSIZE
  {
    b[..at] + bytes + b[at + |bytes|..]
  }

  ghost function Poked(fs: Fs, b: nat, data: Block): Fs
    requires b < |fs.blocks|
  {
    fs.(blocks := fs.blocks[b := data])
  }

  /** Writing a data block changes no slot, and no other data block. */
  lemma PokedIs(sb: Super, fs: Fs, owner: map<nat, Slot>, s: Slot, data: Block)
    requires Owned(sb, fs, owner, {}) && IsSlot(fs, s) && IsData(s) && At(fs, s) != 0
    ensures At(fs, s) < |fs.blocks| && Owned(sb, Poked(fs, At(fs, s), data), owner, {})
    ensures forall t | IsSlot(fs, t) :: At(Poked(fs, At(fs, s), data), t) == At(fs, t)
    ensures forall t | IsSlot(fs, t) && t != s && At(fs, t) != 0 :: At(fs, t) != At(fs, s)
  {
    var b := At(fs, s);
    assert b in owner.Keys && owner[b] == s;
    var fs' := Poked(fs, b, data);
    forall t | IsSlot(fs, t) ensures At(fs', t) == At(fs, t) && (t != s && At(fs, t) != 0 ==> At(fs, t) != b) {
      if t != s && At(fs, t) != 0 { SlotsDistinct(sb, fs, owner, {}, t, s); }
      if t.Entry? && fs.inodes[t.ino].addrs[NDIRECT] != 0 { SlotsDistinct(sb, fs, owner, {}, Indirect(t.ino), s); }
    }
    forall t | IsSlot(fs', t) ensures IsSlot(fs, t) {}
  }

  /** Byte x of file i is as in fs0, unless it is one of the tot bytes of src put into file ino at off. */
  ghost predicate WroteAt(fs0: Fs, fs: Fs, ino: nat, off: nat, src: seq<Byte>, tot: nat, i: nat, x: nat)
  {
    i < |fs0.inodes| && i < |fs.inodes| ==>
      if i == ino && off <= x < off + tot && x - off < |src| then Mapped(fs, i, x) && ByteOf(fs, i, x) == src[x - off]
      else ByteOf(fs, i, x) == ByteOf(fs0, i, x) && (Mapped(fs0, i, x) ==> Mapped(fs, i, x))
  }

  /** tot bytes of src have reached the file at off; every other byte of every file is as in fs0. */
  ghost predicate Wrote(fs0: Fs, fs: Fs, ino: nat, off: nat, src: seq<Byte>, tot: nat)
  {
    && |fs.inodes| == |fs0.inodes|
    && (forall i | 0 <= i < |fs0.inodes| :: fs.inodes[i].size == fs0.inodes[i].size)
    && (forall i: nat, x: nat {:trigger WroteAt(fs0, fs, ino, off, src, tot, i, x)} :: WroteAt(fs0, fs, ino, off, src, tot, i, x))
  }

  lemma WroteNothing(fs: Fs, ino: nat, off: nat, src: seq<Byte>)
    ensures Wrote(fs, fs, ino, off, src, 0)
  {
  }

  lemma WroteSame(fs0: Fs, fs: Fs, fs': Fs, ino: nat, off: nat, src: seq<Byte>, tot: nat)
    requires Wrote(fs0, fs, ino, off, src, tot) && SameFiles(fs, fs')
    ensures Wrote(fs0, fs', ino, off, src, tot)
  {
    forall i: nat, x: nat ensures WroteAt(fs0, fs', ino, off, src, tot, i, x) {
      assert WroteAt(fs0, fs, ino, off, src, tot, i, x) && SameByte(fs, fs', i, x);
    }
  }

  /** Offsets reached without leaving the block of off are on that block. */
  lemma SameBlock(off: nat, m: nat, x: nat)
    requires off <= x < off + m && m <= BSIZE - off % BSIZE
    ensures x / BSIZE == off / BSIZE && x % BSIZE == off % BSIZE + (x - off)
  {
  }

  lemma OtherBlock(off: nat, m: nat, x: nat)
    requires m <= BSIZE - off % BSIZE && x / BSIZE == off / BSIZE && !(off <= x < off + m)
    ensures x % BSIZE < off % BSIZE || x % BSIZE >= off % BSIZE + m
  {
  }

  lemma PokedByte(sb: Super, fs: Fs, owner: map<nat, Slot>, ino: nat, off: nat, bytes: seq<Byte>, i: nat, x: nat)
    requires Owned(sb, fs, owner, {}) && ino < |fs.inodes| && i < |fs.inodes|
    requires Mapped(fs, ino, off) && |bytes| <= BSIZE - off % BSIZE
    ensures var b := Addr(fs, ino, off / BSIZE);
            var fs' := Poked(fs, b, Splice(fs.blocks[b], off % BSIZE, bytes));
            && ByteOf(fs', i, x) == (if i == ino && off <= x < off + |bytes| then bytes[x - off] else ByteOf(fs, i, x))
            && (Mapped(fs, i, x) || (i == ino && off <= x < off + |bytes|) ==> Mapped(fs', i, x))
  {
    if i == ino && x / BSIZE == off / BSIZE {
      PokedHere(sb, fs, owner, ino, off, bytes, x);
    } else {
      if i == ino && off <= x < off + |bytes| { SameBlock(off, |bytes|, x); }
      PokedElsewhere(sb, fs, owner, ino, off, bytes, i, x);
    }
  }

  lemma PokedHere(sb: Super, fs: Fs, owner: map<nat, Slot>, ino: nat, off: nat, bytes: seq<Byte>, x: nat)
    requires Owned(sb, fs, owner, {}) && ino < |fs.inodes|
    requires Mapped(fs, ino, off) && |bytes| <= BSIZE - off % BSIZE && x / BSIZE == off / BSIZE
    ensures var b := Addr(fs, ino, off / BSIZE);
            var fs' := Poked(fs, b, Splice(fs.blocks[b], off % BSIZE, bytes));
            Mapped(fs', ino, x) && ByteOf(fs', ino, x) == if off <= x < off + |bytes| then bytes[x - off] else ByteOf(fs, ino, x)
  {
    var s := BlockSlot(ino, off / BSIZE);
    PokedIs(sb, fs, owner, s, Splice(fs.blocks[At(fs, s)], off % BSIZE, bytes));
    if off <= x < off + |bytes| { SameBlock(off, |bytes|, x); } else { OtherBlock(off, |bytes|, x); }
  }

  lemma PokedElsewhere(sb: Super, fs: Fs, owner: map<nat, Slot>, ino: nat, off: nat, bytes: seq<Byte>, i: nat, x: nat)
    requires Owned(sb, fs, owner, {}) && ino < |fs.inodes| && i < |fs.inodes|
    requires Mapped(fs, ino, off) && |bytes| <= BSIZE - off % BSIZE && !(i == ino && x / BSIZE == off / BSIZE)
    ensures var b := Addr(fs, ino, off / BSIZE);
            var fs' := Poked(fs, b, Splice(fs.blocks[b], off % BSIZE, bytes));
            ByteOf(fs', i, x) == ByteOf(fs, i, x) && (Mapped(fs, i, x) ==> Mapped(fs', i, x))
  {
    var s := BlockSlot(ino, off / BSIZE);
    PokedIs(sb, fs, owner, s, Splice(fs.blocks[At(fs, s)], off % BSIZE, bytes));
    if x / BSIZE < MAXFILE {
      var t := BlockSlot(i, x / BSIZE);
      assert IsSlot(fs, t) && t != s;
    }
  }

  lemma WroteMore(fs0: Fs, fs: Fs, fs': Fs, ino: nat, off: nat, src: seq<Byte>, tot: nat, m: nat, i: nat, x: nat)
    requires i < |fs.inodes| && i < |fs'.inodes| && tot + m <= |src| && WroteAt(fs0, fs, ino, off, src, tot, i, x)
    requires ByteOf(fs', i, x) == if i == ino && off + tot <= x < off + tot + m then src[x - off] else ByteOf(fs, i, x)
    requires Mapped(fs, i, x) || (i == ino && off + tot <= x < off + tot + m) ==> Mapped(fs', i, x)
    ensures WroteAt(fs0, fs', ino, off, src, tot + m, i, x)
  {
  }

  lemma WroteChunkAt(sb: Super, fs0: Fs, fs: Fs, owner: map<nat, Slot>, ino: nat, off: nat, src: seq<Byte>, tot: nat, m: nat, i: nat, x: nat)
    requires Owned(sb, fs, owner, {}) && ino < |fs.inodes| && tot + m <= |src| && WroteAt(fs0, fs, ino, off, src, tot, i, x)
    requires Mapped(fs, ino, off + tot) && m <= BSIZE - (off + tot) % BSIZE
    ensures var (at, b) := (off + tot, Addr(fs, ino, (off + tot) / BSIZE));
            WroteAt(fs0, Poked(fs, b, Splice(fs.blocks[b], at % BSIZE, src[tot..tot + m])), ino, off, src, tot + m, i, x)
  {
    var (at, b) := (off + tot, Addr(fs, ino, (off + tot) / BSIZE));
    if i < |fs.inodes| {
      PokedByte(sb, fs, owner, ino, at, src[tot..tot + m], i, x);
      WroteMore(fs0, fs, Poked(fs, b, Splice(fs.blocks[b], at % BSIZE, src[tot..tot + m])), ino, off, src, tot, m, i, x);
    }
  }

  /** One turn of writei's loop: m bytes into the block that holds offset off + tot. */
  lemma WroteChunk(sb: Super, fs0: Fs, fs: Fs, owner: map<nat, Slot>, ino: nat, off: nat, src: seq<Byte>, tot: nat, m: nat)
    requires Owned(sb, fs, owner, {}) && ino < |fs0.inodes| && tot + m <= |src|
    requires Wrote(fs0, fs, ino, off, src, tot)
    requires Mapped(fs, ino, off + tot) && m <= BSIZE - (off + tot) % BSIZE
    ensures var (at, b) := (off + tot, Addr(fs, ino, (off + tot) / BSIZE));
            var fs' := Poked(fs, b, Splice(fs.blocks[b], at % BSIZE, src[tot..tot + m]));
            Owned(sb, fs', owner, {}) && Wrote(fs0, fs', ino, off, src, tot + m)
  {
    var (at, b) := (off + tot, Addr(fs, ino, (off + tot) / BSIZE));
    var fs' := Poked(fs, b, Splice(fs.blocks[b], at % BSIZE, src[tot..tot + m]));
    PokedIs(sb, fs, owner, BlockSlot(ino, at / BSIZE), fs'.blocks[b]);
    var tot' := tot + m;
    forall i: nat, x: nat ensures WroteAt(fs0, fs', ino, off, src, tot', i, x) {
      assert WroteAt(fs0, fs, ino, off, src, tot, i, x);
      WroteChunkAt(sb, fs0, fs, owner, ino, off, src, tot, m, i, x);
    }
  }

  /** The file after bytes are written over it at off, growing it if they reach past its end. */
  function Overlay(c: seq<Byte>, off: nat, bytes: seq<Byte>): (r: seq<Byte>)
    requires off <= |c|
  {
    c[..off] + bytes + (if off + |bytes| < |c| then c[off + |bytes|..] else [])
  }

  ghost function Resized(fs: Fs, ino: nat, size: nat): Fs
    requires ino < |fs.inodes|
  {
    fs.(inodes := fs.inodes[ino := fs.inodes[ino].(size := size)])
  }

  lemma ResizedIs(sb: Super, fs: Fs, owner: map<nat, Slot>, ino: nat, size: nat)
    requires Owned(sb, fs, owner, {}) && ino < |fs.inodes|
    ensures Owned(sb, Resized(fs, ino, size), owner, {})
    ensures forall i: nat, x: nat {:trigger SameByte(fs, Resized(fs, ino, size), i, x)} :: SameByte(fs, Resized(fs, ino, size), i, x)
  {
    var fs' := Resized(fs, ino, size);
    forall t | IsSlot(fs, t) ensures At(fs', t) == At(fs, t) {}
    forall t | IsSlot(fs', t) ensures IsSlot(fs, t) {}
  }

  function Max(a: nat, b: nat): nat { if a > b then a else b }

  lemma OverlayAt(c: seq<Byte>, off: nat, bytes: seq<Byte>, x: nat)
    requires off <= |c|
    ensures |Overlay(c, off, bytes)| == Max(|c|, off + |bytes|)
    ensures x < |Overlay(c, off, bytes)| ==>
              Overlay(c, off, bytes)[x] == if off <= x < off + |bytes| then bytes[x - off] else c[x]
  {
  }

  /**
   With the size set to cover tot bytes, of the put bytes that reached the block: the file is the
   overlay, cut at the new size, and every other file is as it was.
   */
  lemma WroteContent(sb: Super, fs0: Fs, fs: Fs, owner: map<nat, Slot>, ino: nat, off: nat, src: seq<Byte>, tot: nat, put: nat)
    requires Owned(sb, fs, owner, {}) && ino < |fs0.inodes| && tot <= put <= |src|
    requires Wrote(fs0, fs, ino, off, src, put) && off <= fs0.inodes[ino].size
    ensures var size := Max(off + tot, fs0.inodes[ino].size);
            var fs' := Resized(fs, ino, size);
            && Owned(sb, fs', owner, {}) && |Overlay(Content(fs0, ino), off, src[..put])| >= size
            && Content(fs', ino) == Overlay(Content(fs0, ino), off, src[..put])[..size]
            && (forall i | 0 <= i < |fs0.inodes| && i != ino :: Content(fs', i) == Content(fs0, i))
            && (forall i | 0 <= i < |fs0.inodes| && Whole(fs0, i) :: Whole(fs', i))
  {
    var size := Max(off + tot, fs0.inodes[ino].size);
    ResizedIs(sb, fs, owner, ino, size);
    WrittenFile(fs0, fs, ino, off, src, tot, put, size);
    forall i | 0 <= i < |fs0.inodes| && i != ino ensures Content(Resized(fs, ino, size), i) == Content(fs0, i) {
      OtherFile(fs0, fs, ino, off, src, put, size, i);
    }
    forall i | 0 <= i < |fs0.inodes| && Whole(fs0, i) ensures Whole(Resized(fs, ino, size), i) {
      StaysWhole(fs0, fs, ino, off, src, tot, put, size, i);
    }
  }

  lemma StaysWhole(fs0: Fs, fs: Fs, ino: nat, off: nat, src: seq<Byte>, tot: nat, put: nat, size: nat, i: nat)
    requires ino < |fs0.inodes| && tot <= put <= |src| && Wrote(fs0, fs, ino, off, src, put) && off <= fs0.inodes[ino].size
    requires size == Max(off + tot, fs0.inodes[ino].size) && i < |fs0.inodes| && Whole(fs0, i)
    requires forall i: nat, x: nat {:trigger SameByte(fs, Resized(fs, ino, size), i, x)} :: SameByte(fs, Resized(fs, ino, size), i, x)
    ensures Whole(Resized(fs, ino, size), i)
  {
    var fs' := Resized(fs, ino, size);
    forall x | 0 <= x < fs'.inodes[i].size ensures Mapped(fs', i, x) {
      assert SameByte(fs, fs', i, x) && WroteAt(fs0, fs, ino, off, src, put, i, x);
      assert x < fs0.inodes[i].size ==> Mapped(fs0, i, x);
    }
  }

  lemma WrittenFile(fs0: Fs, fs: Fs, ino: nat, off: nat, src: seq<Byte>, tot: nat, put: nat, size: nat)
    requires ino < |fs0.inodes| && tot <= put <= |src| && Wrote(fs0, fs, ino, off, src, put) && off <= fs0.inodes[ino].size
    requires size == Max(off + tot, fs0.inodes[ino].size)
    requires forall i: nat, x: nat {:trigger SameByte(fs, Resized(fs, ino, size), i, x)} :: SameByte(fs, Resized(fs, ino, size), i, x)
    ensures var fs' := Resized(fs, ino, size);
            && |Overlay(Content(fs0, ino), off, src[..put])| >= size
            && Content(fs', ino) == Overlay(Content(fs0, ino), off, src[..put])[..size]
  {
    var fs', c := Resized(fs, ino, size), Content(fs0, ino);
    OverlayAt(c, off, src[..put], 0);
    forall x: nat | x < size ensures Content(fs', ino)[x] == Overlay(c, off, src[..put])[x] {
      OverlayAt(c, off, src[..put], x);
      assert SameByte(fs, fs', ino, x) && WroteAt(fs0, fs, ino, off, src, put, ino, x);
    }
  }

  lemma OtherFile(fs0: Fs, fs: Fs, ino: nat, off: nat, src: seq<Byte>, put: nat, size: nat, i: nat)
    requires ino < |fs0.inodes| && i < |fs0.inodes| && i != ino && Wrote(fs0, fs, ino, off, src, put)
    requires forall i: nat, x: nat {:trigger SameByte(fs, Resized(fs, ino, size), i, x)} :: SameByte(fs, Resized(fs, ino, size), i, x)
    ensures Content(Resized(fs, ino, size), i) == Content(fs0, i)
  {
    var fs' := Resized(fs, ino, size);
    forall x: nat | x < fs0.inodes[i].size ensures Content(fs', i)[x] == Content(fs0, i)[x] {
      assert SameByte(fs, fs', i, x) && WroteAt(fs0, fs, ino, off, src, put, i, x);
    }
  }
}
