/** The file system's block bitmap, inodes and indirect blocks, and who owns which block. */
module FsModel {

  const BSIZE: nat := 1024
  const NDIRECT: nat := 12
  const NINDIRECT: nat := 256
  const MAXFILE: nat := NDIRECT + NINDIRECT
  const BPB: nat := BSIZE * 8

  const UINT: nat := 0x1_0000_0000     // 32-bit unsigned arithmetic wraps here

  type Byte = x: nat | x < 256

  type Block = b: seq<Byte> | |b| == BSIZE witness seq(BSIZE, i => 0)

  function ZeroBlock(): Block { seq(BSIZE, i => 0) }

  /** The on-disk inode's block addresses and size in bytes; addrs[NDIRECT] is the indirect block. */
  datatype Inode = Inode(addrs: seq<nat>, size: nat)

  /** sb.size and the first block that is neither boot block, superblock, log, inode nor bitmap block. */
  datatype Super = Super(size: nat, meta: nat)

  datatype Fs = Fs(bitmap: seq<bv8>, blocks: seq<Block>, inodes: seq<Inode>)

  // Bits.

  /** 1 << k. */
  function Mask(k: nat): bv8
    requires k < 8
  {
    if k == 0 then 1 else Mask(k - 1) << 1
  }

  predicate Bit(x: bv8, k: nat)
    requires k < 8
  {
    x & Mask(k) != 0
  }

  function SetBit(x: bv8, k: nat): bv8
    requires k < 8
  {
    x | Mask(k)
  }

  function ClearBit(x: bv8, k: nat): bv8
    requires k < 8
  {
    x & !Mask(k)
  }

  lemma MaskIs(k: nat)
    requires k < 8
    ensures Mask(k) == if k == 0 then 1 else if k == 1 then 2 else if k == 2 then 4 else if k == 3 then 8
                       else if k == 4 then 16 else if k == 5 then 32 else if k == 6 then 64 else 128
  {
    assert Mask(1) == 2 && Mask(2) == 4 && Mask(3) == 8;
    assert Mask(4) == 16 && Mask(5) == 32 && Mask(6) == 64;
  }

  lemma SetBitIs(x: bv8, k: nat, j: nat)
    requires k < 8 && j < 8
    ensures Bit(SetBit(x, k), j) == (k == j || Bit(x, j))
  {
    MaskIs(k);
    MaskIs(j);
  }

  lemma ClearBitIs(x: bv8, k: nat, j: nat)
    requires k < 8 && j < 8
    ensures Bit(ClearBit(x, k), j) == (k != j && Bit(x, j))
  {
    MaskIs(k);
    MaskIs(j);
  }

  predicate Used(bitmap: seq<bv8>, b: nat)
    requires b < |bitmap| * 8
  {
    Bit(bitmap[b / 8], b % 8)
  }

  function Mark(bitmap: seq<bv8>, b: nat): (r: seq<bv8>)
    requires b < |bitmap| * 8
    ensures |r| == |bitmap|
  {
    bitmap[b / 8 := SetBit(bitmap[b / 8], b % 8)]
  }

  function Clear(bitmap: seq<bv8>, b: nat): (r: seq<bv8>)
    requires b < |bitmap| * 8
    ensures |r| == |bitmap|
  {
    bitmap[b / 8 := ClearBit(bitmap[b / 8], b % 8)]
  }

  /** Marking or clearing one block's bit changes that block's bit only. */
  lemma MarkIs(bitmap: seq<bv8>, b: nat, c: nat)
    requires b < |bitmap| * 8 && c < |bitmap| * 8
    ensures Used(Mark(bitmap, b), c) == (c == b || Used(bitmap, c))
    ensures Used(Clear(bitmap, b), c) == (c != b && Used(bitmap, c))
  {
    SetBitIs(bitmap[b / 8], b % 8, c % 8);
    ClearBitIs(bitmap[b / 8], b % 8, c % 8);
    assert c == b <==> c / 8 == b / 8 && c % 8 == b % 8;
    if c / 8 == b / 8 {
      assert Mark(bitmap, b)[c / 8] == SetBit(bitmap[b / 8], b % 8);
      assert Clear(bitmap, b)[c / 8] == ClearBit(bitmap[b / 8], b % 8);
    } else {
      assert Mark(bitmap, b)[c / 8] == bitmap[c / 8] == Clear(bitmap, b)[c / 8];
    }
  }

  // Words of an indirect block.

  function Word(b: Block, k: nat): (w: nat)
    requires k < NINDIRECT
    ensures w < UINT
  {
    b[4 * k] as int + 0x100 * b[4 * k + 1] as int + 0x1_0000 * b[4 * k + 2] as int + 0x100_0000 * b[4 * k + 3] as int
  }

  function PutWord(b: Block, k: nat, w: nat): (r: Block)
    requires k < NINDIRECT && w < UINT
  {
    b[..4 * k] + [w % 0x100, w / 0x100 % 0x100, w / 0x1_0000 % 0x100, w / 0x100_0000] + b[4 * k + 4..]
  }

  lemma WordOfBytes(w: nat)
    requires w < UINT
    ensures w % 0x100 + 0x100 * (w / 0x100 % 0x100) + 0x1_0000 * (w / 0x1_0000 % 0x100) + 0x100_0000 * (w / 0x100_0000) == w
  {
    var q := w / 0x100;
    assert w / 0x1_0000 == q / 0x100 && w / 0x100_0000 == q / 0x100 / 0x100;
  }

  lemma PutWordIs(b: Block, k: nat, w: nat, j: nat)
    requires k < NINDIRECT && w < UINT && j < NINDIRECT
    ensures Word(PutWord(b, k, w), j) == if j == k then w else Word(b, j)
  {
    var r := PutWord(b, k, w);
    if j == k {
      assert r[4 * k] == w % 0x100 && r[4 * k + 1] == w / 0x100 % 0x100;
      assert r[4 * k + 2] == w / 0x1_0000 % 0x100 && r[4 * k + 3] == w / 0x100_0000;
      WordOfBytes(w);
    } else {
      assert r[4 * j] == b[4 * j] && r[4 * j + 1] == b[4 * j + 1] && r[4 * j + 2] == b[4 * j + 2] && r[4 * j + 3] == b[4 * j + 3];
    }
  }

  lemma ZeroWord(k: nat)
    requires k < NINDIRECT
    ensures Word(ZeroBlock(), k) == 0
  {
  }

  // Slots.

  /** The places a block number can be stored. */
  datatype Slot = Direct(ino: nat, k: nat) | Indirect(ino: nat) | Entry(ino: nat, k: nat)

  predicate IsSlot(fs: Fs, s: Slot)
  {
    s.ino < |fs.inodes| && (s.Direct? ==> s.k < NDIRECT) && (s.Entry? ==> s.k < NINDIRECT)
  }

  ghost predicate Shaped(sb: Super, fs: Fs)
  {
    && 1 <= sb.meta <= sb.size < UINT
    && sb.size <= |fs.bitmap| * 8 && |fs.blocks| == sb.size
    && forall i | 0 <= i < |fs.inodes| :: |fs.inodes[i].addrs| == NDIRECT + 1
  }

  /** The block number a slot stores, 0 for none. */
  function At(fs: Fs, s: Slot): (b: nat)
    requires IsSlot(fs, s) && |fs.inodes[s.ino].addrs| == NDIRECT + 1
  {
    var addrs := fs.inodes[s.ino].addrs;
    match s
    case Direct(_, k) => addrs[k]
    case Indirect(_) => addrs[NDIRECT]
    case Entry(_, k) => if 0 < addrs[NDIRECT] < |fs.blocks| then Word(fs.blocks[addrs[NDIRECT]], k) else 0
  }

  /** Every block number stored anywhere has that slot as its owner. */
  ghost predicate SlotsOwned(sb: Super, fs: Fs, owner: map<nat, Slot>)
    requires Shaped(sb, fs)
  {
    forall s | IsSlot(fs, s) && At(fs, s) != 0 :: At(fs, s) in owner && owner[At(fs, s)] == s
  }

  ghost predicate OwnersStore(sb: Super, fs: Fs, owner: map<nat, Slot>)
    requires Shaped(sb, fs)
  {
    forall b | b in owner :: IsSlot(fs, owner[b]) && At(fs, owner[b]) == b
  }

  /** The used data blocks are the owned ones and those in spare; every block before them is used. */
  ghost predicate UsedAre(sb: Super, bitmap: seq<bv8>, owned: set<nat>, spare: set<nat>)
    requires sb.size <= |bitmap| * 8
  {
    && owned !! spare
    && (forall b | b in owned + spare :: sb.meta <= b < sb.size)
    && (forall b | 0 <= b < sb.size :: Used(bitmap, b) <==> b < sb.meta || b in owned + spare)
  }

  /**
   Every block number stored anywhere is a data block marked used, stored there and nowhere else;
   every data block marked used is stored somewhere, or is in spare.
   */
  ghost predicate Owned(sb: Super, fs: Fs, owner: map<nat, Slot>, spare: set<nat>)
  {
    Shaped(sb, fs) && SlotsOwned(sb, fs, owner) && OwnersStore(sb, fs, owner) && UsedAre(sb, fs.bitmap, owner.Keys, spare)
  }

  /** Two slots never store the same block. */
  lemma SlotsDistinct(sb: Super, fs: Fs, owner: map<nat, Slot>, spare: set<nat>, s: Slot, t: Slot)
    requires Owned(sb, fs, owner, spare) && IsSlot(fs, s) && IsSlot(fs, t) && s != t && At(fs, s) != 0
    ensures At(fs, s) != At(fs, t)
    ensures sb.meta <= At(fs, s) < sb.size && Used(fs.bitmap, At(fs, s))
  {
    assert owner[At(fs, s)] == s;
  }

  ghost function Free(sb: Super, bitmap: seq<bv8>): (s: set<nat>)
    requires sb.size <= |bitmap| * 8
  {
    set b: nat | sb.meta <= b < sb.size && !Used(bitmap, b)
  }

  ghost function Range(lo: nat, hi: nat): (s: set<nat>)
    requires lo <= hi
    ensures forall b :: b in s <==> lo <= b < hi
    ensures |s| == hi - lo
  {
    if lo == hi then {} else Range(lo, hi - 1) + {hi - 1}
  }

  /** Every data block is free or owned, and not both: their numbers always add up. */
  lemma FreePlusOwned(sb: Super, fs: Fs, owner: map<nat, Slot>)
    requires Owned(sb, fs, owner, {}) && sb.meta <= sb.size
    ensures Free(sb, fs.bitmap) !! owner.Keys
    ensures |Free(sb, fs.bitmap)| + |owner.Keys| == sb.size - sb.meta
  {
    assert Free(sb, fs.bitmap) + owner.Keys == Range(sb.meta, sb.size);
  }

  // Taking a block.

  ghost function Taken(fs: Fs, b: nat): Fs
    requires b < |fs.bitmap| * 8 && b < |fs.blocks|
  {
    fs.(bitmap := Mark(fs.bitmap, b), blocks := fs.blocks[b := ZeroBlock()])
  }

  /** A free block is nobody's indirect block, so zeroing it changes no slot. */
  lemma TakenAt(sb: Super, fs: Fs, owner: map<nat, Slot>, b: nat, s: Slot)
    requires Owned(sb, fs, owner, {}) && b < sb.size && !Used(fs.bitmap, b) && IsSlot(fs, s)
    ensures IsSlot(Taken(fs, b), s) && At(Taken(fs, b), s) == At(fs, s)
  {
    if s.Entry? && fs.inodes[s.ino].addrs[NDIRECT] != 0 {
      assert At(fs, Indirect(s.ino)) in owner;
    }
  }

  lemma TakenOwned(sb: Super, fs: Fs, owner: map<nat, Slot>, b: nat)
    requires Owned(sb, fs, owner, {}) && b < sb.size && !Used(fs.bitmap, b)
    ensures Owned(sb, Taken(fs, b), owner, {b})
    ensures b !in owner && sb.meta <= b
  {
    var fs' := Taken(fs, b);
    forall s | IsSlot(fs', s) && At(fs', s) != 0 ensures At(fs', s) in owner && owner[At(fs', s)] == s {
      TakenAt(sb, fs, owner, b, s);
    }
    forall c | 0 <= c < sb.size ensures Used(fs'.bitmap, c) == (c == b || Used(fs.bitmap, c)) {
      MarkIs(fs.bitmap, b, c);
    }
    forall c | c in owner ensures IsSlot(fs', owner[c]) && At(fs', owner[c]) == c {
      TakenAt(sb, fs, owner, b, owner[c]);
    }
  }

  // Storing a block number in an empty slot.

  /** fs with slot s storing b. */
  function Stored(fs: Fs, s: Slot, b: nat): Fs
    requires IsSlot(fs, s) && |fs.inodes[s.ino].addrs| == NDIRECT + 1 && b < UINT
    requires s.Entry? ==> 0 < fs.inodes[s.ino].addrs[NDIRECT] < |fs.blocks|
  {
    var node := fs.inodes[s.ino];
    match s
    case Direct(i, k) => fs.(inodes := fs.inodes[i := node.(addrs := node.addrs[k := b])])
    case Indirect(i) => fs.(inodes := fs.inodes[i := node.(addrs := node.addrs[NDIRECT := b])])
    case Entry(i, k) =>
      var ind := node.addrs[NDIRECT];
      fs.(blocks := fs.blocks[ind := PutWord(fs.blocks[ind], k, b)])
  }

  /** Storing into one slot changes no other; a fresh indirect block stores nothing yet. */
  lemma StoredAt(sb: Super, fs: Fs, owner: map<nat, Slot>, spare: set<nat>, s: Slot, b: nat, t: Slot)
    requires Owned(sb, fs, owner, spare) && IsSlot(fs, s) && IsSlot(fs, t) && At(fs, s) == 0 && 0 < b < sb.size
    requires s.Entry? ==> fs.inodes[s.ino].addrs[NDIRECT] != 0
    requires s.Indirect? ==> fs.blocks[b] == ZeroBlock()
    ensures s.Entry? ==> 0 < fs.inodes[s.ino].addrs[NDIRECT] < |fs.blocks|
    ensures IsSlot(Stored(fs, s, b), t) && At(Stored(fs, s, b), t) == if t == s then b else At(fs, t)
  {
    match s
    case Direct(_, _) =>
    case Indirect(i) =>
      if t.Entry? && t.ino == i { ZeroWord(t.k); }
    case Entry(i, k) =>
      var ind := fs.inodes[i].addrs[NDIRECT];
      assert At(fs, Indirect(i)) == ind && owner[ind] == Indirect(i);
      if t.Entry? {
        PutWordIs(fs.blocks[ind], k, b, t.k);
        if t.ino != i && fs.inodes[t.ino].addrs[NDIRECT] != 0 {
          SlotsDistinct(sb, fs, owner, spare, Indirect(t.ino), Indirect(i));
        }
      }
  }

  lemma StoredSlots(sb: Super, fs: Fs, owner: map<nat, Slot>, s: Slot, b: nat)
    requires Owned(sb, fs, owner, {b}) && IsSlot(fs, s) && At(fs, s) == 0
    requires s.Entry? ==> 0 < fs.inodes[s.ino].addrs[NDIRECT] < |fs.blocks|
    requires s.Indirect? ==> fs.blocks[b] == ZeroBlock()
    ensures Shaped(sb, Stored(fs, s, b))
    ensures forall t | IsSlot(Stored(fs, s, b), t) :: IsSlot(fs, t) && At(Stored(fs, s, b), t) == if t == s then b else At(fs, t)
  {
    forall t | IsSlot(Stored(fs, s, b), t)
      ensures IsSlot(fs, t) && At(Stored(fs, s, b), t) == if t == s then b else At(fs, t)
    {
      assert IsSlot(fs, t);
      StoredAt(sb, fs, owner, {b}, s, b, t);
    }
  }

  lemma StoredOwned(sb: Super, fs: Fs, owner: map<nat, Slot>, s: Slot, b: nat)
    requires Owned(sb, fs, owner, {b}) && IsSlot(fs, s) && At(fs, s) == 0
    requires s.Entry? ==> fs.inodes[s.ino].addrs[NDIRECT] != 0
    requires s.Indirect? ==> fs.blocks[b] == ZeroBlock()
    ensures s.Entry? ==> 0 < fs.inodes[s.ino].addrs[NDIRECT] < |fs.blocks|
    ensures Owned(sb, Stored(fs, s, b), owner[b := s], {})
  {
    assert b in {b};
    StoredAt(sb, fs, owner, {b}, s, b, s);
    StoredSlots(sb, fs, owner, s, b);
    var (fs', owner') := (Stored(fs, s, b), owner[b := s]);
    assert UsedAre(sb, fs'.bitmap, owner'.Keys, {}) by {
      assert fs'.bitmap == fs.bitmap && owner'.Keys == owner.Keys + {b};
    }
    assert OwnersStore(sb, fs', owner') by {
      forall c | c in owner' ensures IsSlot(fs', owner'[c]) && At(fs', owner'[c]) == c {
        if c != b { assert c in owner; }
      }
    }
  }
}
