/**
 balloc, bfree, bmap, itrunc, readi and writei as the kernel runs them. Blocks are as the buffer
 cache has them; every call runs inside one log transaction with the inode locked.
 */
module FsDriver {
  import opened FsModel
  import opened FsFiles

  lemma SliceMore(c: seq<Byte>, i: nat, j: nat, k: nat)
    requires i <= j <= k <= |c|
    ensures c[i..j] + c[j..k] == c[i..k]
  {
  }

  /** How far readi and writei go in one turn: at most to the end of the block and of the request. */
  function Turn(off: nat, n: nat, tot: nat): (m: nat)
    requires tot <= n
    ensures tot + m <= n && (tot < n ==> m > 0) && m <= BSIZE - (off + tot) % BSIZE
  {
    var room := BSIZE - (off + tot) % BSIZE;
    if n - tot < room then n - tot else room
  }

  lemma InFile(off: nat, n: nat, tot: nat)
    requires tot < n && off + n <= MAXFILE * BSIZE
    ensures (off + tot) / BSIZE < MAXFILE
  {
  }

  /** What a read of n bytes at off returns at most. */
  ghost function Wanted(c: seq<Byte>, off: nat, n: nat): (w: seq<Byte>)
  {
    if off > |c| || off + n >= UINT then [] else c[off..if off + n > |c| then |c| else off + n]
  }

  /** A read of n bytes at off in a file of the given size owes its byte i: asked for, in the file, and no wrap-around. */
  predicate Owes(size: nat, off: nat, n: nat, i: nat) { i < n && off + i < size && off + n < UINT }

  lemma WantedIs(c: seq<Byte>, off: nat, n: nat, i: nat)
    ensures i < |Wanted(c, off, n)| <==> Owes(|c|, off, n, i)
    ensures i < |Wanted(c, off, n)| ==> Wanted(c, off, n)[i] == c[off + i]
  {
  }

  /** r bytes of w reached the caller, or -1 and as many as its memory of room bytes had place for. */
  ghost predicate ReadGives(w: seq<Byte>, room: nat, r: int, out: seq<Byte>)
  {
    -1 <= r <= |w| && if r == -1 then room < |w| && out == w[..room] else r <= room && out == w[..r]
  }

  /** The same for one turn, of the bytes at o; 0 bytes when there is no block for them. */
  ghost predicate TurnGives(c: seq<Byte>, o: nat, left: nat, room: nat, m: int, piece: seq<Byte>)
  {
    && -1 <= m <= left && o + left <= |c|
    && if m == -1 then room < left && piece == c[o..o + room] else m <= room && piece == c[o..o + m]
  }

  lemma ReadOn(c: seq<Byte>, off: nat, n: nat, room: nat, tot: nat, out: seq<Byte>, m: int, piece: seq<Byte>)
    requires tot <= n && off + n <= |c| && ReadGives(c[off..off + n], room, tot, out)
    requires TurnGives(c, off + tot, n - tot, room - tot, m, piece)
    ensures ReadGives(c[off..off + n], room, if m == -1 then -1 else tot + m, out + piece)
  {
    SliceMore(c, off, off + tot, off + tot + |piece|);
    assert out == c[off..off + tot];
    assert c[off..off + n][..tot + |piece|] == c[off..off + tot + |piece|];
  }

  /** Why writei's loop stopped at tot: all written, no block to be had, or the source out within the next turn. */
  ghost predicate Stopped(off: nat, n: nat, readable: nat, tot: nat, put: nat, full: bool)
  {
    && tot <= n
    && (tot == n ==> put == tot)
    && (put > tot ==> put == readable)
    && (tot < n ==> (full && put == tot) || (put == readable < tot + Turn(off, n, tot)))
  }

  /** An inode without an indirect block owns none of the other kinds. */
  lemma NoEntries(sb: Super, fs: Fs, owner: map<nat, Slot>, ino: nat)
    requires Owned(sb, fs, owner, {}) && ino < |fs.inodes|
    ensures fs.inodes[ino].addrs[NDIRECT] == 0 ==> forall b | b in owner && !owner[b].Direct? :: owner[b].ino != ino
  {
    forall b | b in owner && !owner[b].Direct? && fs.inodes[ino].addrs[NDIRECT] == 0 ensures owner[b].ino != ino {
      assert b in owner.Keys && IsSlot(fs, owner[b]) && At(fs, owner[b]) == b;
    }
  }

  class Driver {
    const sb: Super
    var bitmap: seq<bv8>
    var blocks: seq<Block>
    var inodes: seq<Inode>
    ghost var owner: map<nat, Slot>

    ghost function Value(): Fs
      reads this
    {
      Fs(bitmap, blocks, inodes)
    }

    ghost predicate Valid()
      reads this
    {
      Owned(sb, Value(), owner, {})
    }

    constructor (sb: Super, fs: Fs, ghost owner: map<nat, Slot>)
      requires Owned(sb, fs, owner, {})
      ensures Valid() && this.sb == sb && Value() == fs && this.owner == owner
    {
      this.sb, bitmap, blocks, inodes, this.owner := sb, fs.bitmap, fs.blocks, fs.inodes, owner;
    }

    /** balloc. */
    method Balloc() returns (r: nat)
      requires Shaped(sb, Value())
      modifies this`bitmap, this`blocks
      ensures (r, Value()) == Alloc(sb, old(Value()))
    {
      var b := 0;
      while b < sb.size
        invariant 0 <= b && Value() == old(Value())
        invariant b <= sb.size ==> FirstFree(sb, bitmap, 0) == FirstFree(sb, bitmap, b)
        invariant b > sb.size ==> FirstFree(sb, bitmap, 0) == sb.size
        decreases sb.size - b
      {
        var bi := 0;
        while bi < BPB && b + bi < sb.size
          invariant 0 <= bi <= BPB && b + bi <= sb.size && Value() == old(Value())
          invariant FirstFree(sb, bitmap, 0) == FirstFree(sb, bitmap, b + bi)
        {
          if !Used(bitmap, b + bi) {
            bitmap := Mark(bitmap, b + bi);
            blocks := blocks[b + bi := ZeroBlock()];
            return b + bi;
          }
          bi := bi + 1;
        }
        b := b + BPB;
      }
      return 0;
    }

    /** bfree; the block must be in use, or the kernel panics. */
    method Bfree(b: nat)
      requires Shaped(sb, Value()) && b < sb.size && Used(bitmap, b)
      modifies this`bitmap
      ensures |bitmap| == |old(bitmap)|
      ensures forall c | 0 <= c < sb.size :: Used(bitmap, c) <==> Used(old(bitmap), c) && c != b
    {
      forall c | 0 <= c < sb.size ensures Used(Clear(bitmap, b), c) <==> Used(bitmap, c) && c != b {
        MarkIs(bitmap, b, c);
      }
      bitmap := Clear(bitmap, b);
    }

    /** bmap; a block number past the largest file makes the kernel panic. */
    method Bmap(ino: nat, bn: nat) returns (addr: nat)
      requires Valid() && ino < |inodes| && bn < MAXFILE
      modifies this
      ensures Valid() && (addr, Value()) == FsFiles.Bmap(sb, old(Value()), ino, bn)
      ensures BmapDoes(sb, old(Value()), Value(), ino, bn, addr)
    {
      ghost var owner' := BmapReads(sb, Value(), owner, ino, bn);
      addr := BmapEither(ino, bn);
      owner := owner';
    }

    method BmapEither(ino: nat, bn: nat) returns (addr: nat)
      requires Valid() && ino < |inodes| && bn < MAXFILE
      modifies this`bitmap, this`blocks, this`inodes
      ensures (addr, Value()) == FsFiles.Bmap(sb, old(Value()), ino, bn)
    {
      if bn < NDIRECT {
        addr := BmapDirect(ino, bn);
      } else {
        addr := BmapIndirect(ino, bn - NDIRECT);
      }
    }

    /** The direct half of bmap. */
    method BmapDirect(ino: nat, bn: nat) returns (addr: nat)
      requires Valid() && ino < |inodes| && bn < NDIRECT
      modifies this`bitmap, this`blocks, this`inodes
      ensures (addr, Value()) == FsFiles.Bmap(sb, old(Value()), ino, bn)
    {
      addr := inodes[ino].addrs[bn];
      if addr == 0 {
        addr := Balloc();
        if addr != 0 {
          inodes := inodes[ino := inodes[ino].(addrs := inodes[ino].addrs[bn := addr])];
        }
      }
    }

    /** The indirect half of bmap. */
    method BmapIndirect(ino: nat, bn: nat) returns (addr: nat)
      requires Valid() && ino < |inodes| && bn < NINDIRECT
      modifies this`bitmap, this`blocks, this`inodes
      ensures (addr, Value()) == FsFiles.Bmap(sb, old(Value()), ino, bn + NDIRECT)
    {
      ghost var mid := FilledIs(sb, Value(), owner, Indirect(ino));
      addr := inodes[ino].addrs[NDIRECT];
      if addr == 0 {
        addr := Balloc();
        if addr == 0 { return; }
        inodes := inodes[ino := inodes[ino].(addrs := inodes[ino].addrs[NDIRECT := addr])];
      }
      assert (addr, Value()) == Filled(sb, old(Value()), Indirect(ino));
      addr := BmapEntry(ino, addr, bn, mid);
    }

    /** The end of bmap: entry bn of the indirect block. */
    method BmapEntry(ino: nat, ind: nat, bn: nat, ghost owner': map<nat, Slot>) returns (addr: nat)
      requires Owned(sb, Value(), owner', {}) && ino < |inodes| && bn < NINDIRECT && 0 < ind < |blocks|
      requires ind == inodes[ino].addrs[NDIRECT]
      modifies this`bitmap, this`blocks
      ensures IsSlot(old(Value()), Entry(ino, bn)) && (addr, Value()) == Filled(sb, old(Value()), Entry(ino, bn))
    {
      addr := Word(blocks[ind], bn);
      if addr == 0 {
        addr := Balloc();
        if addr != 0 {
          blocks := blocks[ind := PutWord(blocks[ind], bn, addr)];
        }
      }
    }

    /** The first loop of itrunc. */
    method FreeDirect(ino: nat)
      requires Valid() && ino < |inodes|
      modifies this`bitmap, this`inodes
      ensures |bitmap| == |old(bitmap)|
      ensures forall b | 0 <= b < sb.size ::
                Used(bitmap, b) <==> Used(old(bitmap), b) && !(b in owner && owner[b].Direct? && owner[b].ino == ino)
      ensures inodes == old(inodes)[ino := old(inodes)[ino].(addrs := seq(NDIRECT, i => 0) + [old(inodes)[ino].addrs[NDIRECT]])]
    {
      ghost var fs := Value();
      var i := 0;
      while i < NDIRECT
        invariant 0 <= i <= NDIRECT && |bitmap| == |fs.bitmap| && |inodes| == |fs.inodes|
        invariant |inodes[ino].addrs| == NDIRECT + 1 && inodes == fs.inodes[ino := fs.inodes[ino].(addrs := inodes[ino].addrs)]
        invariant forall k | 0 <= k <= NDIRECT :: inodes[ino].addrs[k] == if k < i then 0 else fs.inodes[ino].addrs[k]
        invariant forall b | 0 <= b < sb.size ::
                    Used(bitmap, b) <==> Used(fs.bitmap, b) && !(b in owner && owner[b].Direct? && owner[b].ino == ino && owner[b].k < i)
      {
        OwnerOf(sb, fs, owner, Direct(ino, i));
        if inodes[ino].addrs[i] != 0 {
          Bfree(inodes[ino].addrs[i]);
          inodes := inodes[ino := inodes[ino].(addrs := inodes[ino].addrs[i := 0])];
        }
        i := i + 1;
      }
      assert inodes[ino].addrs == seq(NDIRECT, i => 0) + [fs.inodes[ino].addrs[NDIRECT]];
    }

    /** The second loop of itrunc: the blocks listed in the indirect block, which is left as it is. */
    method FreeEntries(ino: nat, ghost fs: Fs)
      requires Owned(sb, fs, owner, {}) && ino < |fs.inodes| && blocks == fs.blocks && |bitmap| == |fs.bitmap|
      requires Shaped(sb, Value()) && ino < |inodes| && inodes[ino].addrs[NDIRECT] == fs.inodes[ino].addrs[NDIRECT] != 0
      requires forall b | b in owner && owner[b].Entry? && owner[b].ino == ino :: Used(bitmap, b)
      modifies this`bitmap
      ensures |bitmap| == |old(bitmap)|
      ensures forall b | 0 <= b < sb.size ::
                Used(bitmap, b) <==> Used(old(bitmap), b) && !(b in owner && owner[b].Entry? && owner[b].ino == ino)
    {
      OwnerOf(sb, fs, owner, Indirect(ino));
      var ind := inodes[ino].addrs[NDIRECT];
      var j := 0;
      while j < NINDIRECT
        invariant 0 <= j <= NINDIRECT && |bitmap| == |old(bitmap)|
        invariant forall b | 0 <= b < sb.size ::
                    Used(bitmap, b) <==> Used(old(bitmap), b) && !(b in owner && owner[b].Entry? && owner[b].ino == ino && owner[b].k < j)
      {
        var a := Word(blocks[ind], j);
        OwnerOf(sb, fs, owner, Entry(ino, j));
        if a != 0 {
          Bfree(a);
        }
        j := j + 1;
      }
    }

    /** The part of itrunc that frees the indirect block and what it lists. */
    method FreeIndirect(ino: nat, ghost fs: Fs)
      requires Owned(sb, fs, owner, {}) && ino < |fs.inodes| && blocks == fs.blocks && |bitmap| == |fs.bitmap|
      requires Shaped(sb, Value()) && ino < |inodes| && inodes[ino].addrs[NDIRECT] == fs.inodes[ino].addrs[NDIRECT]
      requires forall b | b in owner && !owner[b].Direct? && owner[b].ino == ino :: Used(bitmap, b)
      modifies this`bitmap, this`inodes
      ensures |bitmap| == |old(bitmap)|
      ensures forall b | 0 <= b < sb.size ::
                Used(bitmap, b) <==> Used(old(bitmap), b) && !(b in owner && !owner[b].Direct? && owner[b].ino == ino)
      ensures inodes == old(inodes)[ino := old(inodes)[ino].(addrs := old(inodes)[ino].addrs[NDIRECT := 0])]
    {
      OwnerOf(sb, fs, owner, Indirect(ino));
      NoEntries(sb, fs, owner, ino);
      if inodes[ino].addrs[NDIRECT] != 0 {
        FreeEntries(ino, fs);
        Bfree(inodes[ino].addrs[NDIRECT]);
        inodes := inodes[ino := inodes[ino].(addrs := inodes[ino].addrs[NDIRECT := 0])];
      } else {
        assert inodes[ino].addrs == inodes[ino].addrs[NDIRECT := 0];
      }
    }

    /** itrunc; every bfree it makes is of a block in use. */
    method Itrunc(ino: nat)
      requires Valid() && ino < |inodes|
      modifies this
      ensures Valid() && Truncated(sb, old(Value()), old(owner), ino, Value())
      ensures owner == old(owner) - BlocksOf(old(owner), ino)
      ensures Content(Value(), ino) == [] && |inodes| == |old(inodes)|
      ensures forall i | 0 <= i < |inodes| && i != ino :: Content(Value(), i) == Content(old(Value()), i)
    {
      TruncateAll(ino);
      forall i | 0 <= i < |inodes| ensures Content(Value(), i) == if i == ino then [] else Content(old(Value()), i) {
        TruncatedContent(sb, old(Value()), old(owner), ino, Value(), i);
      }
    }

    /** The body of itrunc. */
    method TruncateAll(ino: nat)
      requires Valid() && ino < |inodes|
      modifies this
      ensures Valid() && Truncated(sb, old(Value()), old(owner), ino, Value())
      ensures owner == old(owner) - BlocksOf(old(owner), ino)
    {
      ghost var fs := Value();
      FreeDirect(ino);
      FreeIndirect(ino, fs);
      inodes := inodes[ino := inodes[ino].(size := 0)];
      assert inodes[ino].addrs == EmptyInode().addrs;
      assert inodes == fs.inodes[ino := EmptyInode()];
      forall b | 0 <= b < sb.size ensures Used(bitmap, b) <==> Used(fs.bitmap, b) && b !in BlocksOf(owner, ino) {
        if b in owner && owner[b].ino == ino {
          assert At(fs, owner[b]) == b && b in owner.Keys;
        }
      }
      TruncatedOwned(sb, fs, owner, ino, Value());
      owner := owner - BlocksOf(owner, ino);
    }

    /** In the middle of readi: no file reads differently, and a file without holes has not been touched. */
    ghost predicate Reading(fs0: Fs, ino: nat)
      reads this
    {
      Valid() && ino < |fs0.inodes| && SameFiles(fs0, Value()) && (Whole(fs0, ino) ==> Value() == fs0)
    }

    /** The block of readi's current turn and the bytes wanted from it; addr is 0 if there is none. */
    method ReadPiece(ino: nat, o: nat, m: nat, ghost fs0: Fs) returns (addr: nat, piece: seq<Byte>)
      requires Reading(fs0, ino) && o + m <= inodes[ino].size <= MAXFILE * BSIZE && 0 < m <= BSIZE - o % BSIZE
      modifies this
      ensures Reading(fs0, ino) && (Whole(fs0, ino) ==> addr != 0)
      ensures addr == 0 ==> Full(sb, bitmap)
      ensures addr != 0 ==> piece == Content(fs0, ino)[o..o + m]
    {
      ghost var fs := Value();
      assert Whole(fs0, ino) ==> Mapped(fs0, ino, o);
      addr := Bmap(ino, o / BSIZE);
      SameTrans(fs0, fs, Value());
      if addr == 0 { return 0, []; }
      ContentPiece(Value(), ino, o, m);
      SameContent(fs0, Value(), ino);
      piece := blocks[addr][o % BSIZE..o % BSIZE + m];
    }

    /** One turn of readi's loop, into memory of which room bytes are left; taken counts those that reach it. */
    method ReadTurn(ino: nat, o: nat, left: nat, room: nat, ghost fs0: Fs) returns (m: int, out: seq<Byte>)
      requires Reading(fs0, ino) && 0 < left && o + left <= inodes[ino].size <= MAXFILE * BSIZE
      modifies this
      ensures Reading(fs0, ino)
      ensures m == 0 ==> Full(sb, bitmap) && !Whole(fs0, ino)
      ensures TurnGives(Content(fs0, ino), o, left, room, m, out)
    {
      var n := Turn(o, left, 0);
      var addr, piece := ReadPiece(ino, o, n, fs0);
      if addr == 0 { return 0, []; }
      if n > room { return -1, piece[..room]; }
      return n, piece;
    }

    /**
     readi into memory of which the first room bytes can be written; out is what reaches it. -1 says
     that the memory ran out first. A file with unmapped blocks is given zeroed ones on the way, and
     the read stops short if there are none.
     */
    method Readi(ino: nat, off: nat, n: nat, room: nat) returns (r: int, out: seq<Byte>)
      requires Valid() && ino < |inodes| && inodes[ino].size <= MAXFILE * BSIZE && off < UINT && n < UINT
      modifies this
      ensures Valid() && SameFiles(old(Value()), Value())
      ensures ReadGives(Wanted(Content(old(Value()), ino), off, n), room, r, out)
      ensures 0 <= r < |Wanted(Content(old(Value()), ino), off, n)| ==> Full(sb, bitmap)
      ensures forall i: nat {:trigger Owes(|Content(old(Value()), ino)|, off, n, i)} | i < |out| ::
                Owes(|Content(old(Value()), ino)|, off, n, i) && i < room && out[i] == Content(old(Value()), ino)[off + i]
      ensures Whole(old(Value()), ino) ==>
                forall i: nat {:trigger Owes(|Content(old(Value()), ino)|, off, n, i)} ::
                  Owes(|Content(old(Value()), ino)|, off, n, i) && i < room ==> i < |out|
      ensures Whole(old(Value()), ino) ==>
                Value() == old(Value()) && var w := Wanted(Content(old(Value()), ino), off, n); r == if room < |w| then -1 else |w|
    {
      r, out := ReadClipped(ino, off, n, room);
      ghost var c := Content(old(Value()), ino);
      forall i: nat ensures i < |out| ==> Owes(|c|, off, n, i) && i < room && out[i] == c[off + i] { WantedIs(c, off, n, i); }
      forall i: nat | Owes(|c|, off, n, i) ensures i < |Wanted(c, off, n)| { WantedIs(c, off, n, i); }
    }

    /** readi's checks, and its loop. */
    method ReadClipped(ino: nat, off: nat, n: nat, room: nat) returns (r: int, out: seq<Byte>)
      requires Valid() && ino < |inodes| && inodes[ino].size <= MAXFILE * BSIZE && off < UINT && n < UINT
      modifies this
      ensures Valid() && SameFiles(old(Value()), Value())
      ensures ReadGives(Wanted(Content(old(Value()), ino), off, n), room, r, out)
      ensures 0 <= r < |Wanted(Content(old(Value()), ino), off, n)| ==> Full(sb, bitmap)
      ensures Whole(old(Value()), ino) ==>
                Value() == old(Value()) && var w := Wanted(Content(old(Value()), ino), off, n); r == if room < |w| then -1 else |w|
    {
      r, out := 0, [];
      ghost var c := Content(Value(), ino);
      if off > inodes[ino].size || off + n >= UINT { return; }
      var n' := n;
      if off + n > inodes[ino].size { n' := inodes[ino].size - off; }
      assert Wanted(c, off, n) == c[off..off + n'];
      r, out := ReadLoop(ino, off, n', room);
    }

    /** A turn of readi's loop, added to what has reached the caller; m is -1 when its memory ran out. */
    method ReadNext(ino: nat, off: nat, n: nat, room: nat, tot: nat, out: seq<Byte>, ghost fs0: Fs) returns (m: int, out': seq<Byte>)
      requires Reading(fs0, ino) && tot < n && off + n <= inodes[ino].size <= MAXFILE * BSIZE
      requires ReadGives(Content(fs0, ino)[off..off + n], room, tot, out)
      modifies this
      ensures Reading(fs0, ino) && -1 <= m <= n - tot
      ensures ReadGives(Content(fs0, ino)[off..off + n], room, if m == -1 then -1 else tot + m, out')
      ensures m == 0 ==> Full(sb, bitmap) && !Whole(fs0, ino)
    {
      var piece;
      m, piece := ReadTurn(ino, off + tot, n - tot, room - tot, fs0);
      ReadOn(Content(fs0, ino), off, n, room, tot, out, m, piece);
      out' := out + piece;
    }

    /** The loop of readi, with n cut at the end of the file. */
    method ReadLoop(ino: nat, off: nat, n: nat, room: nat) returns (r: int, out: seq<Byte>)
      requires Valid() && ino < |inodes| && off + n <= inodes[ino].size <= MAXFILE * BSIZE
      modifies this
      ensures Reading(old(Value()), ino) && ReadGives(Content(old(Value()), ino)[off..off + n], room, r, out)
      ensures 0 <= r < n ==> Full(sb, bitmap)
      ensures Whole(old(Value()), ino) ==> r == if room < n then -1 else n
    {
      out := [];
      ghost var fs0 := Value();
      ghost var w := Content(fs0, ino)[off..off + n];
      var tot := 0;
      while tot < n
        invariant 0 <= tot <= n && Reading(fs0, ino) && ReadGives(w, room, tot, out)
      {
        var m;
        m, out := ReadNext(ino, off, n, room, tot, out, fs0);
        if m == 0 { return tot, out; }
        if m == -1 { return -1, out; }
        tot := tot + m;
      }
      r := tot;
    }

    /** In the middle of writei: tot bytes of src are in the file's blocks. */
    ghost predicate Writing(fs0: Fs, ino: nat, off: nat, src: seq<Byte>, tot: nat)
      reads this
    {
      Valid() && ino < |fs0.inodes| == |inodes| && tot <= |src| && Wrote(fs0, Value(), ino, off, src, tot)
    }

    /**
     writei of n bytes from memory of which only src can be read; -1 for an offset or length it
     refuses, otherwise the number of bytes written. When the source runs out within a block, its
     bytes up to there are in the buffer all the same; put counts them.
     */
    method Writei(ino: nat, off: nat, n: nat, src: seq<Byte>) returns (r: int, ghost put: nat)
      requires Valid() && ino < |inodes| && off < UINT && n < UINT
      modifies this
      ensures Valid() && |inodes| == |old(inodes)|
      ensures r == -1 <==> off > old(inodes)[ino].size || off + n >= UINT || off + n > MAXFILE * BSIZE
      ensures r == -1 ==> Value() == old(Value())
      ensures r >= 0 ==> r <= put <= |src| && Stopped(off, n, |src|, r, put, Full(sb, bitmap))
      ensures r >= 0 ==>
                var (c, size) := (Content(old(Value()), ino), Max(off + r, old(inodes)[ino].size));
                size <= |Overlay(c, off, src[..put])| && Content(Value(), ino) == Overlay(c, off, src[..put])[..size]
      ensures forall i | 0 <= i < |inodes| && i != ino :: Content(Value(), i) == Content(old(Value()), i)
      ensures forall i | 0 <= i < |inodes| && Whole(old(Value()), i) :: Whole(Value(), i)
    {
      put := 0;
      if off > inodes[ino].size || off + n >= UINT { return -1, 0; }
      if off + n > MAXFILE * BSIZE { return -1, 0; }
      ghost var fs0 := Value();
      var tot;
      tot, put := WriteLoop(ino, off, n, src);
      WroteContent(sb, fs0, Value(), owner, ino, off, src, tot, put);
      inodes := inodes[ino := inodes[ino].(size := if off + tot > inodes[ino].size then off + tot else inodes[ino].size)];
      r := tot;
    }

    /** The copy in writei's loop, into the mapped block at the current offset. */
    method CopyIn(ino: nat, off: nat, src: seq<Byte>, tot: nat, m: nat, addr: nat, ghost fs0: Fs)
      requires Writing(fs0, ino, off, src, tot) && tot + m <= |src| && Mapped(Value(), ino, off + tot)
      requires m <= BSIZE - (off + tot) % BSIZE && addr == Addr(Value(), ino, (off + tot) / BSIZE)
      modifies this`blocks
      ensures Writing(fs0, ino, off, src, tot + m)
    {
      WroteChunk(sb, fs0, Value(), owner, ino, off, src, tot, m);
      blocks := blocks[addr := Splice(blocks[addr], (off + tot) % BSIZE, src[tot..tot + m])];
    }

    /** The call to bmap in writei's loop. */
    method MapNext(ino: nat, off: nat, src: seq<Byte>, tot: nat, ghost fs0: Fs) returns (addr: nat)
      requires Writing(fs0, ino, off, src, tot) && (off + tot) / BSIZE < MAXFILE
      modifies this
      ensures Writing(fs0, ino, off, src, tot)
      ensures addr == 0 ==> Full(sb, bitmap)
      ensures addr != 0 ==> Mapped(Value(), ino, off + tot) && addr == Addr(Value(), ino, (off + tot) / BSIZE)
    {
      ghost var fs := Value();
      addr := Bmap(ino, (off + tot) / BSIZE);
      WroteSame(fs0, fs, Value(), ino, off, src, tot);
    }

    /** One turn of writei's loop, which wants to copy want bytes: it copies up to end; go says whether to go on. */
    method WritePiece(ino: nat, off: nat, src: seq<Byte>, tot: nat, want: nat, ghost fs0: Fs) returns (go: bool, ghost end: nat)
      requires Writing(fs0, ino, off, src, tot) && (off + tot) / BSIZE < MAXFILE && want <= BSIZE - (off + tot) % BSIZE
      modifies this
      ensures Writing(fs0, ino, off, src, end)
      ensures if go then end == tot + want else (end == tot && Full(sb, bitmap)) || (tot <= end == |src| < tot + want)
    {
      end := tot;
      var addr := MapNext(ino, off, src, tot, fs0);
      if addr == 0 { return false, tot; }
      go, end := CopySome(ino, off, src, tot, want, addr, fs0);
    }

    /** either_copyin in writei's loop: all that is wanted, or as much as the source has. */
    method CopySome(ino: nat, off: nat, src: seq<Byte>, tot: nat, want: nat, addr: nat, ghost fs0: Fs) returns (go: bool, ghost end: nat)
      requires Writing(fs0, ino, off, src, tot) && Mapped(Value(), ino, off + tot)
      requires want <= BSIZE - (off + tot) % BSIZE && addr == Addr(Value(), ino, (off + tot) / BSIZE)
      modifies this`blocks
      ensures Writing(fs0, ino, off, src, end)
      ensures if go then end == tot + want else tot <= end == |src| < tot + want
    {
      go := tot + want <= |src|;
      var got := if go then want else |src| - tot;
      end := tot + got;
      CopyIn(ino, off, src, tot, got, addr, fs0);
    }

    /** The loop of writei. */
    method WriteLoop(ino: nat, off: nat, n: nat, src: seq<Byte>) returns (tot: nat, ghost put: nat)
      requires Valid() && ino < |inodes| && off + n <= MAXFILE * BSIZE
      modifies this
      ensures Writing(old(Value()), ino, off, src, put) && tot <= put
      ensures Stopped(off, n, |src|, tot, put, Full(sb, bitmap))
    {
      tot, put := 0, 0;
      WroteNothing(Value(), ino, off, src);
      while tot < n
        invariant 0 <= tot <= n && put == tot && Writing(old(Value()), ino, off, src, put)
      {
        var want := Turn(off, n, tot);
        InFile(off, n, tot);
        var go;
        go, put := WritePiece(ino, off, src, tot, want, old(Value()));
        if !go { return; }
        tot := tot + want;
      }
    }
  }
}
