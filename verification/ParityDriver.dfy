/**
 The RAID4 and RAID5 calls as the kernel runs them: loops over disks and rows that exclusive-or
 into page buffers, write blocks and set flags. Each is proved to do what ParityArray says.
 */
module ParityDriver {
  import opened Blocks
  import opened Layouts
  import opened ParityArray

  function Contents(buf: array<bv8>): (b: Block)
    requires buf.Length == BSIZE
    reads buf
  {
    buf[..]
  }

  method Clear(acc: array<bv8>)
    requires acc.Length == BSIZE
    modifies acc
    ensures Contents(acc) == Zero()
  {
    for i := 0 to BSIZE
      invariant forall k | 0 <= k < i :: acc[k] == NUL
    {
      acc[i] := NUL;
    }
  }

  method XorInto(acc: array<bv8>, data: array<bv8>)
    requires acc.Length == BSIZE && data.Length == BSIZE && acc != data
    modifies acc
    ensures Contents(acc) == Xor(old(Contents(acc)), Contents(data))
  {
    for i := 0 to BSIZE
      invariant forall k | 0 <= k < i :: acc[k] == XorByte(old(acc[k]), data[k])
      invariant forall k | i <= k < BSIZE :: acc[k] == old(acc[k])
    {
      acc[i] := XorByte(acc[i], data[i]);
    }
  }

  method Copy(dst: array<bv8>, src: array<bv8>)
    requires dst.Length == BSIZE && src.Length == BSIZE && dst != src
    modifies dst
    ensures Contents(dst) == Contents(src)
  {
    for i := 0 to BSIZE
      invariant forall k | 0 <= k < i :: dst[k] == src[k]
    {
      dst[i] := src[i];
    }
  }

  lemma XorAllNext(row: seq<Block>, k: nat)
    requires k < |row|
    ensures XorAll(row[..k + 1]) == Xor(XorAll(row[..k]), row[k])
  {
    assert row[..k + 1][..k] == row[..k];
  }

  class Driver {
    const g: Geometry
    var media: seq<seq<Block>>
    var valid: seq<bool>
    var loaded: seq<bool>

    ghost predicate Valid()
      reads this
    {
      ParityGeometry(g) && Shaped(g, Value())
    }

    ghost function Value(): Array
      reads this
    {
      Array(media, valid, loaded)
    }

    constructor (g: Geometry, media: seq<seq<Block>>, valid: seq<bool>, loaded: seq<bool>)
      requires ParityGeometry(g) && Shaped(g, Array(media, valid, loaded))
      ensures Valid() && this.g == g && Value() == Array(media, valid, loaded)
    {
      this.g, this.media, this.valid, this.loaded := g, media, valid, loaded;
    }

    /** read_block; diskn counts from 1. */
    method ReadBlock(diskn: nat, b: nat, buf: array<bv8>)
      requires Valid() && 1 <= diskn <= g.disks && b < g.rows && buf.Length == BSIZE
      modifies buf
      ensures Contents(buf) == media[b][diskn - 1]
    {
      var src := media[b][diskn - 1];
      for i := 0 to BSIZE
        invariant forall k | 0 <= k < i :: buf[k] == src[k]
      {
        buf[i] := src[i];
      }
    }

    /** write_block; diskn counts from 1. */
    method WriteBlock(diskn: nat, b: nat, buf: array<bv8>)
      requires Valid() && 1 <= diskn <= g.disks && b < g.rows && buf.Length == BSIZE
      modifies this`media
      ensures Valid() && media == PutBlock(old(media), b, diskn - 1, Contents(buf))
    {
      media := PutBlock(media, b, diskn - 1, Contents(buf));
    }

    method AnotherInvalid(d: nat) returns (found: bool)
      requires Valid()
      ensures found <==> !OthersValid(valid, d)
    {
      for i := 0 to g.disks
        invariant forall k | 0 <= k < i && k != d :: valid[k]
      {
        if i != d && !valid[i] { return true; }
      }
      return false;
    }

    /** writeraidmeta. */
    method WriteMetaRow(image: array<bv8>)
      requires Valid() && image.Length == BSIZE
      modifies this`media
      ensures Valid() && Value() == WriteMeta(g, old(Value()), Contents(image))
    {
      var lastblockondisk := g.rows - 1;
      ghost var whole := MetaRow(media[lastblockondisk], valid, Contents(image));
      var i := 1;
      while i <= g.disks
        invariant 1 <= i <= g.disks + 1
        invariant Valid()
        invariant forall r | 0 <= r < g.rows && r != lastblockondisk :: media[r] == old(media)[r]
        invariant forall k | 0 <= k < g.disks ::
                    media[lastblockondisk][k] == if k < i - 1 then whole[k] else old(media)[lastblockondisk][k]
      {
        if i < g.disks && valid[i] {
          WriteBlock(i, lastblockondisk, image);
        }
        i := i + 1;
      }
      assert media[lastblockondisk] == whole;
      assert media == old(media)[lastblockondisk := whole];
    }

    /** The accumulation loop of the loader over one row. */
    method FoldRow(row: nat, p: nat, data: array<bv8>, parity: array<bv8>)
      requires Valid() && row < g.rows && p < g.disks
      requires data.Length == BSIZE && parity.Length == BSIZE && data != parity
      modifies data, parity
      ensures Contents(parity) == XorAll(Foldable(media[row], valid, p))
    {
      ghost var fold := Foldable(media[row], valid, p);
      Clear(parity);
      for diskn := 0 to g.disks
        invariant Contents(parity) == XorAll(fold[..diskn])
      {
        XorAllNext(fold, diskn);
        XorZero(XorAll(fold[..diskn]));
        if valid[diskn] && diskn != p {
          ReadBlock(diskn + 1, row, data);
          XorInto(parity, data);
        }
      }
      assert fold[..g.disks] == fold;
    }

    /** loadclusterraid4 and loadclusterraid5. */
    method LoadClusterBlocks(clustern: nat, image: array<bv8>)
      requires Valid() && clustern < |loaded| && image.Length == BSIZE
      modifies this`media, this`loaded
      ensures Valid() && Value() == LoadCluster(g, old(Value()), clustern, Contents(image))
    {
      var data, parity := new bv8[BSIZE], new bv8[BSIZE];
      var startblock := clustern * CLUSTER_SIZE;
      for i := startblock to startblock + CLUSTER_SIZE
        invariant Valid() && loaded == old(loaded)
        invariant forall r | 0 <= r < g.rows ::
                    media[r] == if startblock <= r < i then LoadRow(old(media)[r], valid, ParityDisk(g, r)) else old(media)[r]
      {
        var paritydiskn := ParityDisk(g, i);
        FoldRow(i, paritydiskn, data, parity);
        if valid[paritydiskn] {
          WriteBlock(paritydiskn + 1, i, parity);
        }
      }
      loaded := loaded[clustern := true];
      assert media == LoadRows(g, old(Value()), clustern).media;
      WriteMetaRow(image);
    }

    /** readinvalidraid4 and readinvalidraid5. */
    method ReadInvalid(diskn: nat, blockn: nat, data: array<bv8>)
      requires Valid() && diskn < g.disks && blockn < g.rows && data.Length == BSIZE
      modifies data
      ensures Contents(data) == XorOthers(media[blockn], diskn)
    {
      var buff, parity := new bv8[BSIZE], new bv8[BSIZE];
      ghost var others := media[blockn][diskn := Zero()];
      Clear(parity);
      for i := 0 to g.disks
        invariant Contents(parity) == XorAll(others[..i])
      {
        XorAllNext(others, i);
        XorZero(XorAll(others[..i]));
        if i != diskn {
          ReadBlock(i + 1, blockn, buff);
          XorInto(parity, buff);
        }
      }
      assert others[..g.disks] == others;
      Copy(data, parity);
    }

    /** raid4read and raid5read. */
    method ReadRaid(vblkn: int, data: array<bv8>) returns (r: Result)
      requires Valid() && data.Length == BSIZE
      modifies data
      ensures r == Read(g, Value(), vblkn).0
      ensures r.Ok? ==> Contents(data) == Read(g, Value(), vblkn).1
      ensures r.Error? ==> Contents(data) == old(Contents(data))
    {
      if vblkn < 0 || vblkn >= RaidBlocks(g) { return Error; }
      var Slot(diskn, stripe) := Place(g, vblkn);
      if !valid[diskn] {
        var more := AnotherInvalid(diskn);
        if more { return Error; }
        ReadInvalid(diskn, stripe, data);
      } else {
        ReadBlock(diskn + 1, stripe, data);
      }
      return Ok;
    }

    /** parity ^= prevdata ^ data, over a whole block. */
    method ShiftParity(parity: array<bv8>, prevdata: array<bv8>, data: array<bv8>)
      requires parity.Length == BSIZE && prevdata.Length == BSIZE && data.Length == BSIZE
      requires parity != prevdata && parity != data
      modifies parity
      ensures Contents(parity) == Shifted(old(Contents(parity)), Contents(prevdata), Contents(data))
    {
      for i := 0 to BSIZE
        invariant forall k | 0 <= k < i :: parity[k] == XorByte(old(parity[k]), XorByte(prevdata[k], data[k]))
        invariant forall k | i <= k < BSIZE :: parity[k] == old(parity[k])
      {
        parity[i] := XorByte(parity[i], XorByte(prevdata[i], data[i]));
      }
    }

    /** The part of a write after its cluster is known to be loaded. */
    method UpdateRow(diskn: nat, stripe: nat, data: array<bv8>)
      requires Valid() && diskn < g.disks && stripe < g.rows && data.Length == BSIZE
      requires diskn != ParityDisk(g, stripe)
      modifies this`media
      ensures Valid()
      ensures media == old(media)[stripe :=
                WriteRow(old(media)[stripe], valid, diskn, ParityDisk(g, stripe), Contents(data))]
    {
      var prevdata, parity := new bv8[BSIZE], new bv8[BSIZE];
      var paritydiskn := ParityDisk(g, stripe);
      if !valid[diskn] {
        ReadInvalid(diskn, stripe, prevdata);
        ReadBlock(paritydiskn + 1, stripe, parity);
        ShiftParity(parity, prevdata, data);
        WriteBlock(paritydiskn + 1, stripe, parity);
      } else if !valid[paritydiskn] {
        WriteBlock(diskn + 1, stripe, data);
      } else {
        ReadBlock(diskn + 1, stripe, prevdata);
        ReadBlock(paritydiskn + 1, stripe, parity);
        ShiftParity(parity, prevdata, data);
        WriteBlock(diskn + 1, stripe, data);
        WriteBlock(paritydiskn + 1, stripe, parity);
      }
    }

    /** raid4write and raid5write. */
    method WriteRaid(vblkn: int, data: array<bv8>, image: array<bv8>) returns (r: Result)
      requires Valid() && data.Length == BSIZE && image.Length == BSIZE
      modifies this`media, this`loaded
      ensures Valid()
      ensures (r, Value()) == Write(g, old(Value()), vblkn, Contents(data), Contents(image))
    {
      if vblkn < 0 || vblkn >= RaidBlocks(g) { return Error; }
      var Slot(diskn, stripe) := Place(g, vblkn);
      if !valid[diskn] {
        var more := AnotherInvalid(diskn);
        if more { return Error; }
      }
      var clustern := stripe / CLUSTER_SIZE;
      ClusterInRange(g, stripe);
      if !loaded[clustern] {
        LoadClusterBlocks(clustern, image);
      }
      UpdateRow(diskn, stripe, data);
      return Ok;
    }

    /** raidfail. */
    method RaidFail(diskn: int, image: array<bv8>) returns (r: Result)
      requires Valid() && image.Length == BSIZE
      modifies this`media, this`valid
      ensures Valid() && (r, Value()) == Fail(g, old(Value()), diskn, Contents(image))
    {
      if diskn - 1 < 0 || diskn - 1 >= g.disks { return Error; }
      valid := valid[diskn - 1 := false];
      WriteMetaRow(image);
      return Ok;
    }

    /** raidrepair. */
    method RaidRepair(diskn: int, image: array<bv8>) returns (r: Result)
      requires Valid() && image.Length == BSIZE
      modifies this`media, this`valid
      ensures Valid() && (r, Value()) == Repair(g, old(Value()), diskn, Contents(image))
    {
      var d := diskn - 1;
      if d < 0 || d >= g.disks { return Error; }
      if valid[d] { return Ok; }
      var more := AnotherInvalid(d);
      if more { return Error; }
      var parity := new bv8[BSIZE];
      for b := 0 to g.rows
        invariant Valid() && valid == old(valid)
        invariant forall r | 0 <= r < g.rows ::
                    media[r] == if r < b && loaded[Cluster(r)] then RebuildRow(old(media)[r], d) else old(media)[r]
      {
        ClusterInRange(g, b);
        if loaded[b / CLUSTER_SIZE] {
          ReadInvalid(d, b, parity);
          WriteBlock(d + 1, b, parity);
        }
      }
      valid := valid[d := true];
      assert media == RebuildRows(g, old(Value()), d).media;
      WriteMetaRow(image);
      return Ok;
    }

    /** The RAID4 and RAID5 arms of setraidtype. */
    method SetRaidType(image: array<bv8>) returns (r: Result)
      requires Valid() && image.Length == BSIZE
      modifies this`media, this`loaded
      ensures Valid() && (r, Value()) == Init(g, old(Value()), Contents(image))
    {
      var israidable := 0;
      ghost var first := 0;
      for i := 0 to g.disks
        invariant israidable == 0 ==> forall k | 0 <= k < i :: valid[k]
        invariant israidable == 1 ==> 0 <= first < i && !valid[first] && forall k | 0 <= k < i && k != first :: valid[k]
        invariant israidable > 1 ==> !AtMostOneInvalid(valid)
        invariant israidable >= 0
      {
        if !valid[i] {
          if israidable == 0 { first := i; }
          israidable := israidable + 1;
        }
      }
      if israidable > 1 { return Error; }
      assert AtMostOneInvalid(valid);
      loaded := seq(|loaded|, i => false);
      WriteMetaRow(image);
      return Ok;
    }
  }
}
