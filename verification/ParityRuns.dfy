/** Whole runs of a RAID4 or RAID5 array: writes, reads, disk failures and repairs in any order. */
module ParityRuns {
  import opened Blocks
  import opened Layouts
  import opened ParityArray

  // What every call keeps.

  /** The row at index row is below the metadata row and its cluster's parity has been filled in. */
  ghost predicate Covered(g: Geometry, a: Array, row: int)
    requires ParityGeometry(g) && Shaped(g, a)
  {
    && 0 <= row < DiskBlocks(g)
    && (ClusterInRange(g, row); a.loaded[Cluster(row)])
  }

  ghost predicate ParityClean(g: Geometry, a: Array)
    requires ParityGeometry(g) && Shaped(g, a)
  {
    forall row | Covered(g, a, row) :: XorAll(a.media[row]) == Zero()
  }

  /** Block b is on its disk, or, if that disk is the only invalid one, in the exclusive or of the rest. */
  ghost predicate Holds(g: Geometry, a: Array, v: nat, b: Block)
    requires ParityGeometry(g) && Shaped(g, a) && InRange(g, v)
  {
    var Slot(d, row) := Place(g, v);
    && Covered(g, a, row)
    && (a.valid[d] ==> a.media[row][d] == b)
    && (!a.valid[d] && OthersValid(a.valid, d) ==> XorOthers(a.media[row], d) == b)
  }

  /** The array remembers the last successful write to every block written since the array was set up. */
  ghost predicate Sound(g: Geometry, a: Array, last: map<nat, Block>)
  {
    && ParityGeometry(g)
    && Shaped(g, a)
    && (AllValid(a.valid) ==> ParityClean(g, a))
    && (forall v | v in last :: InRange(g, v) && Holds(g, a, v, last[v]))
  }

  // Rows.

  /** With every disk valid the loader leaves the row's parity exact. */
  lemma LoadRowCancels(row: seq<Block>, valid: seq<bool>, p: nat)
    requires p < |row| == |valid| && AllValid(valid)
    ensures XorAll(LoadRow(row, valid, p)) == Zero()
  {
    assert Foldable(row, valid, p) == row[p := Zero()];
    RebuiltRowCancels(row, p);
  }

  /** With every disk valid the loader's parity is the xor of the others. */
  lemma LoadRowAll(row: seq<Block>, valid: seq<bool>, p: nat)
    requires p < |row| == |valid| && AllValid(valid)
    ensures LoadRow(row, valid, p) == row[p := XorOthers(row, p)]
  {
    assert Foldable(row, valid, p) == row[p := Zero()];
  }

  /** The row with nothing on its invalid disks. */
  ghost function Readable(row: seq<Block>, valid: seq<bool>): (r: seq<Block>)
    requires |row| == |valid|
    ensures |r| == |row|
  {
    seq(|row|, i requires 0 <= i < |row| => if valid[i] then row[i] else Zero())
  }

  /**
   Whatever disks are invalid, the loader changes the parity block alone, if its disk is valid, and
   then what can be read of the row cancels out: a block on a lost disk rebuilds as zero.
   */
  lemma LoadRowIs(row: seq<Block>, valid: seq<bool>, p: nat)
    requires p < |row| == |valid|
    ensures forall i | 0 <= i < |row| && i != p :: LoadRow(row, valid, p)[i] == row[i]
    ensures if valid[p] then XorAll(Readable(LoadRow(row, valid, p), valid)) == Zero() else LoadRow(row, valid, p) == row
    ensures forall d | 0 <= d < |row| && d != p && !valid[d] && OthersValid(valid, d) :: XorOthers(LoadRow(row, valid, p), d) == Zero()
  {
    if valid[p] {
      var (fold, r) := (Foldable(row, valid, p), LoadRow(row, valid, p));
      assert fold[p := Zero()] == fold;
      RebuiltRowCancels(fold, p);
      assert Readable(r, valid) == fold[p := XorOthers(fold, p)];
      forall d | 0 <= d < |row| && d != p && !valid[d] && OthersValid(valid, d) ensures XorOthers(r, d) == Zero() {
        assert r[d := Zero()] == Readable(r, valid);
      }
    }
  }

  /** The read-modify-write gives the very row that a full recomputation would. */
  lemma IncrementalIsFull(row: seq<Block>, valid: seq<bool>, d: nat, p: nat, data: Block)
    requires d < |row| == |valid| && p < |row| && d != p
    requires AllValid(valid) && XorAll(row) == Zero()
    ensures WriteRow(row, valid, d, p, data) == LoadRow(row[d := data], valid, p)
  {
    var (next, parity) := (row[d := data], Shifted(row[p], row[d], data));
    LoadRowAll(next, valid, p);
    assert XorOthers(next, p) == parity by {
      RmwKeepsSum(row, d, p, data);
      ReconstructIff(next[p := parity], p);
      OthersIgnore(next, p, parity);
    }
  }

  /** A write to disk d leaves every other data disk of the row readable as before. */
  lemma WriteRowKeepsNeighbour(row: seq<Block>, valid: seq<bool>, d: nat, p: nat, data: Block, x: nat)
    requires d < |row| == |valid| && p < |row| && x < |row| && d != p && x != d && x != p
    requires valid[d] || OthersValid(valid, d)
    ensures valid[x] ==> WriteRow(row, valid, d, p, data)[x] == row[x]
    ensures !valid[x] && OthersValid(valid, x) ==>
              XorOthers(WriteRow(row, valid, d, p, data), x) == XorOthers(row, x)
  {
    if !valid[x] && OthersValid(valid, x) {
      RmwKeepsOthers(row, d, p, x, data);
    }
  }

  /** A write to disk d is what disk d then holds, or reconstructs to. */
  lemma WriteRowStores(row: seq<Block>, valid: seq<bool>, d: nat, p: nat, data: Block)
    requires d < |row| == |valid| && p < |row| && d != p
    ensures valid[d] ==> WriteRow(row, valid, d, p, data)[d] == data
    ensures !valid[d] ==> XorOthers(WriteRow(row, valid, d, p, data), d) == data
  {
    if !valid[d] {
      DegradedWriteReconstructs(row, d, p, data);
    }
  }

  // Calls.

  lemma MetaKeeps(g: Geometry, a: Array, last: map<nat, Block>, image: Block)
    requires Sound(g, a, last)
    ensures Sound(g, WriteMeta(g, a, image), last)
  {
    var b := WriteMeta(g, a, image);
    forall row | Covered(g, b, row)
      ensures Covered(g, a, row) && b.media[row] == a.media[row]
    {}
    forall v | v in last
      ensures Holds(g, b, v, last[v])
    {
      assert Holds(g, a, v, last[v]);
    }
  }

  lemma LoadKeeps(g: Geometry, a: Array, last: map<nat, Block>, c: nat, image: Block)
    requires Sound(g, a, last) && c < |a.loaded| && !a.loaded[c]
    ensures Sound(g, LoadCluster(g, a, c, image), last)
  {
    var b := LoadRows(g, a, c);
    forall v | v in last
      ensures Holds(g, b, v, last[v])
    {
      assert Holds(g, a, v, last[v]);
    }
    if AllValid(b.valid) {
      forall row | Covered(g, b, row)
        ensures XorAll(b.media[row]) == Zero()
      {
        if Cluster(row) == c {
          LoadRowCancels(a.media[row], a.valid, ParityDisk(g, row));
        } else {
          assert Covered(g, a, row);
        }
      }
    }
    MetaKeeps(g, b, last, image);
  }

  lemma EnsureLoadedKeeps(g: Geometry, a: Array, last: map<nat, Block>, row: nat, image: Block)
    requires Sound(g, a, last) && row < DiskBlocks(g)
    ensures Sound(g, EnsureLoaded(g, a, row, image), last)
    ensures Covered(g, EnsureLoaded(g, a, row, image), row)
    ensures EnsureLoaded(g, a, row, image).valid == a.valid
  {
    ClusterInRange(g, row);
    if !a.loaded[Cluster(row)] {
      LoadKeeps(g, a, last, Cluster(row), image);
    }
  }

  /** Changing one covered row by WriteRow keeps the array sound with the new data remembered. */
  lemma PutRowKeeps(g: Geometry, a: Array, last: map<nat, Block>, v: nat, data: Block)
    requires Sound(g, a, last) && InRange(g, v)
    requires Covered(g, a, Place(g, v).row) && CanReach(a, Place(g, v).unit)
    ensures var Slot(d, row) := Place(g, v);
            Sound(g, PutRow(g, a, row, WriteRow(a.media[row], a.valid, d, ParityDisk(g, row), data)), last[v := data])
  {
    var Slot(d, row) := Place(g, v);
    var p := ParityDisk(g, row);
    var b := PutRow(g, a, row, WriteRow(a.media[row], a.valid, d, p, data));
    var last' := last[v := data];
    forall u | u in last'
      ensures InRange(g, u) && Holds(g, b, u, last'[u])
    {
      WriteRowStores(a.media[row], a.valid, d, p, data);
      if u != v {
        assert Holds(g, a, u, last[u]);
        var x := Place(g, u).unit;
        if Place(g, u).row == row {
          if x == d { PlaceInjective(g, u, v); }
          WriteRowKeepsNeighbour(a.media[row], a.valid, d, p, data, x);
        }
      }
    }
    if AllValid(b.valid) {
      forall r | Covered(g, b, r)
        ensures XorAll(b.media[r]) == Zero()
      {
        assert Covered(g, a, r);
        if r == row { RmwKeepsSum(a.media[row], d, p, data); }
      }
    }
  }

  lemma WriteKeeps(g: Geometry, a: Array, last: map<nat, Block>, v: int, data: Block, image: Block)
    requires Sound(g, a, last)
    ensures var (r, b) := Write(g, a, v, data, image);
            Sound(g, b, if r.Ok? then last[v := data] else last)
  {
    if InRange(g, v) {
      var Slot(d, row) := Place(g, v);
      if CanReach(a, d) {
        EnsureLoadedKeeps(g, a, last, row, image);
        PutRowKeeps(g, EnsureLoaded(g, a, row, image), last, v, data);
      }
    }
  }

  /** A block of a disk that was the first to be lost reconstructs from the other disks. */
  lemma DropHolds(g: Geometry, a: Array, v: nat, d: nat, b: Block)
    requires ParityGeometry(g) && Shaped(g, a) && d < g.disks
    requires AllValid(a.valid) ==> ParityClean(g, a)
    requires InRange(g, v) && Holds(g, a, v, b)
    ensures Holds(g, a.(valid := a.valid[d := false]), v, b)
  {
    var Slot(x, row) := Place(g, v);
    var down := a.valid[d := false];
    assert !down[d] && forall i | 0 <= i < g.disks && i != d :: down[i] == a.valid[i];
    if x == d && a.valid[d] && OthersValid(down, d) {
      assert AllValid(a.valid);
      assert Covered(g, a, row);
      ReconstructIff(a.media[row], d);
    } else if x != d {
      assert !OthersValid(down, x);
    } else if !a.valid[d] {
      assert down == a.valid;
    }
  }

  /** Losing a disk loses no data as long as it is the first one lost. */
  lemma DropKeeps(g: Geometry, a: Array, last: map<nat, Block>, d: nat)
    requires Sound(g, a, last) && d < g.disks
    ensures Sound(g, a.(valid := a.valid[d := false]), last)
  {
    forall v | v in last
      ensures Holds(g, a.(valid := a.valid[d := false]), v, last[v])
    {
      DropHolds(g, a, v, d, last[v]);
    }
    assert !a.valid[d := false][d];
  }

  lemma FailKeeps(g: Geometry, a: Array, last: map<nat, Block>, diskn: int, image: Block)
    requires Sound(g, a, last)
    ensures Sound(g, Fail(g, a, diskn, image).1, last)
  {
    if 0 <= diskn - 1 < g.disks {
      DropKeeps(g, a, last, diskn - 1);
      MetaKeeps(g, a.(valid := a.valid[diskn - 1 := false]), last, image);
    }
  }

  /** Rebuilding the only invalid disk puts back every block it stood for and makes the parity exact. */
  lemma RebuildKeeps(g: Geometry, a: Array, last: map<nat, Block>, d: nat)
    requires Sound(g, a, last) && d < g.disks && !a.valid[d] && OthersValid(a.valid, d)
    ensures Sound(g, RebuildRows(g, a, d), last)
  {
    var b := RebuildRows(g, a, d);
    forall v | v in last
      ensures Holds(g, b, v, last[v])
    {
      assert Holds(g, a, v, last[v]);
    }
    forall row | Covered(g, b, row)
      ensures XorAll(b.media[row]) == Zero()
    {
      assert Covered(g, a, row);
      RebuiltRowCancels(a.media[row], d);
    }
  }

  lemma RepairKeeps(g: Geometry, a: Array, last: map<nat, Block>, diskn: int, image: Block)
    requires Sound(g, a, last)
    ensures Sound(g, Repair(g, a, diskn, image).1, last)
  {
    var d := diskn - 1;
    if 0 <= d < g.disks && !a.valid[d] && OthersValid(a.valid, d) {
      RebuildKeeps(g, a, last, d);
      MetaKeeps(g, RebuildRows(g, a, d), last, image);
    }
  }

  lemma ScrambleKeeps(g: Geometry, a: Array, last: map<nat, Block>, d: nat, junk: seq<Block>)
    requires Sound(g, a, last) && d < g.disks && !a.valid[d] && |junk| == g.rows
    ensures Sound(g, Scramble(g, a, d, junk), last)
  {
    var b := Scramble(g, a, d, junk);
    forall v | v in last
      ensures Holds(g, b, v, last[v])
    {
      assert Holds(g, a, v, last[v]);
      var Slot(x, row) := Place(g, v);
      OthersIgnore(a.media[row], d, junk[row]);
      if x != d { assert !OthersValid(a.valid, x); }
    }
  }

  lemma InitSound(g: Geometry, a: Array, image: Block)
    requires ParityGeometry(g) && Shaped(g, a) && Init(g, a, image).0.Ok?
    ensures Sound(g, Init(g, a, image).1, map[])
  {
  }

  // Runs.

  datatype Op =
    | DoWrite(v: int, data: Block, image: Block)
    | DoFail(diskn: int, image: Block)
    | DoRepair(diskn: int, image: Block)
    | DoScramble(d: nat, junk: seq<Block>)

  ghost predicate CanScramble(g: Geometry, a: Array, d: nat, junk: seq<Block>)
    requires Shaped(g, a)
  {
    d < g.disks && !a.valid[d] && |junk| == g.rows
  }

  /** One event, and what it makes the last successful write of each block. Reads change nothing. */
  ghost function Step(g: Geometry, a: Array, last: map<nat, Block>, op: Op): (r: (Array, map<nat, Block>))
    requires ParityGeometry(g) && Shaped(g, a)
    ensures Shaped(g, r.0)
  {
    match op
    case DoWrite(v, data, image) =>
      var (r, b) := Write(g, a, v, data, image);
      (b, if r.Ok? then last[v := data] else last)
    case DoFail(diskn, image) => (Fail(g, a, diskn, image).1, last)
    case DoRepair(diskn, image) => (Repair(g, a, diskn, image).1, last)
    case DoScramble(d, junk) => (if CanScramble(g, a, d, junk) then Scramble(g, a, d, junk) else a, last)
  }

  ghost function Run(g: Geometry, a: Array, last: map<nat, Block>, ops: seq<Op>): (r: (Array, map<nat, Block>))
    requires ParityGeometry(g) && Shaped(g, a)
    ensures Shaped(g, r.0)
    decreases |ops|
  {
    if ops == [] then (a, last) else
    var (b, next) := Step(g, a, last, ops[0]);
    Run(g, b, next, ops[1..])
  }

  lemma StepSound(g: Geometry, a: Array, last: map<nat, Block>, op: Op)
    requires Sound(g, a, last)
    ensures Sound(g, Step(g, a, last, op).0, Step(g, a, last, op).1)
  {
    match op
    case DoWrite(v, data, image) => WriteKeeps(g, a, last, v, data, image);
    case DoFail(diskn, image) => FailKeeps(g, a, last, diskn, image);
    case DoRepair(diskn, image) => RepairKeeps(g, a, last, diskn, image);
    case DoScramble(d, junk) =>
      if CanScramble(g, a, d, junk) {
        ScrambleKeeps(g, a, last, d, junk);
      }
  }

  lemma {:induction false} RunSound(g: Geometry, a: Array, last: map<nat, Block>, ops: seq<Op>)
    requires Sound(g, a, last)
    ensures Sound(g, Run(g, a, last, ops).0, Run(g, a, last, ops).1)
    decreases |ops|
  {
    if ops != [] {
      var (b, next) := Step(g, a, last, ops[0]);
      StepSound(g, a, last, ops[0]);
      RunSound(g, b, next, ops[1..]);
    }
  }

  /**
   After any run of writes, failures, junk on failed disks and repairs that follows a
   successful set-up, a read that succeeds gives the last successful write.
   */
  lemma ReadsGiveLastWrite(g: Geometry, a0: Array, image: Block, ops: seq<Op>, v: nat)
    requires ParityGeometry(g) && Shaped(g, a0) && Init(g, a0, image).0.Ok?
    requires v in Run(g, Init(g, a0, image).1, map[], ops).1
    ensures var (a, last) := Run(g, Init(g, a0, image).1, map[], ops);
            Read(g, a, v).0.Ok? ==> Read(g, a, v).1 == last[v]
  {
    InitSound(g, a0, image);
    RunSound(g, Init(g, a0, image).1, map[], ops);
    var (a, last) := Run(g, Init(g, a0, image).1, map[], ops);
    assert Holds(g, a, v, last[v]);
  }

  /** Up to one lost disk, every read and write of a block in range succeeds. */
  lemma OneLossServesAll(g: Geometry, a: Array, v: int, data: Block, image: Block)
    requires ParityGeometry(g) && Shaped(g, a) && AtMostOneInvalid(a.valid)
    ensures Read(g, a, v).0.Ok? <==> InRange(g, v)
    ensures Write(g, a, v, data, image).0.Ok? <==> InRange(g, v)
  {
  }

  /** A read or write of a lost block succeeds exactly while no second disk is lost. */
  lemma LostBlockReachableIff(g: Geometry, a: Array, v: int, data: Block, image: Block)
    requires ParityGeometry(g) && Shaped(g, a) && InRange(g, v)
    requires !a.valid[Place(g, v).unit]
    ensures Read(g, a, v).0.Ok? <==> AtMostOneInvalid(a.valid)
    ensures Write(g, a, v, data, image).0.Ok? <==> AtMostOneInvalid(a.valid)
  {
  }

  /** With two disks lost no run repairs either of them. */
  lemma {:induction false} TwoLossesAreFinal(g: Geometry, a: Array, last: map<nat, Block>, ops: seq<Op>, i: nat, j: nat,
                                             image: Block)
    requires ParityGeometry(g) && Shaped(g, a)
    requires i < g.disks && j < g.disks && i != j && !a.valid[i] && !a.valid[j]
    ensures var b := Run(g, a, last, ops).0; !b.valid[i] && !b.valid[j]
    ensures Repair(g, Run(g, a, last, ops).0, i + 1, image) == (Error, Run(g, a, last, ops).0)
    decreases |ops|
  {
    if ops != [] {
      var (b, next) := Step(g, a, last, ops[0]);
      assert !b.valid[i] && !b.valid[j];
      TwoLossesAreFinal(g, b, next, ops[1..], i, j, image);
    } else {
      assert !OthersValid(a.valid, i);
    }
  }

  /**
   A repair reports success exactly when its disk is there and is valid already or the only invalid
   one, a failure exactly when its disk is there; refused, both change nothing.
   */
  lemma RepairOkIff(g: Geometry, a: Array, diskn: int, image: Block)
    requires ParityGeometry(g) && Shaped(g, a)
    ensures Repair(g, a, diskn, image).0.Ok? <==> 1 <= diskn <= g.disks && (a.valid[diskn - 1] || AtMostOneInvalid(a.valid))
    ensures Fail(g, a, diskn, image).0.Ok? <==> 1 <= diskn <= g.disks
    ensures Repair(g, a, diskn, image).0.Error? ==> Repair(g, a, diskn, image).1 == a
    ensures Fail(g, a, diskn, image).0.Error? ==> Fail(g, a, diskn, image).1 == a
  {
    if 1 <= diskn <= g.disks && !a.valid[diskn - 1] && AtMostOneInvalid(a.valid) {
      assert OthersValid(a.valid, diskn - 1);
    }
  }

  /** A call on a block is served exactly if the block is in range and its own disk, or every other disk, is valid. */
  lemma ServedIff(g: Geometry, a: Array, v: int, data: Block, image: Block)
    requires ParityGeometry(g) && Shaped(g, a)
    ensures Read(g, a, v).0.Ok? <==>
              InRange(g, v) && (a.valid[Place(g, v).unit] || forall k | 0 <= k < g.disks && k != Place(g, v).unit :: a.valid[k])
    ensures Write(g, a, v, data, image).0 == Read(g, a, v).0
    ensures Write(g, a, v, data, image).0.Error? ==> Write(g, a, v, data, image).1 == a
  {
  }

  /** The failure of any one disk changes no read of a loaded cluster of a sound array. */
  lemma ReadsSurviveFailure(g: Geometry, a: Array, last: map<nat, Block>, v: nat, d: nat, image: Block)
    requires Sound(g, a, last) && AllValid(a.valid) && InRange(g, v) && Covered(g, a, Place(g, v).row) && d < g.disks
    ensures Read(g, Fail(g, a, d + 1, image).1, v) == Read(g, a, v)
  {
    var Slot(x, row) := Place(g, v);
    ReconstructIff(a.media[row], x);
  }

  /** A write changes no read of another block that is on a valid disk or in a loaded cluster, written before or not. */
  lemma OtherReadsStay(g: Geometry, a: Array, v: int, data: Block, image: Block, u: nat)
    requires ParityGeometry(g) && Shaped(g, a) && InRange(g, u) && u != v
    requires a.valid[Place(g, u).unit] || Covered(g, a, Place(g, u).row)
    ensures Read(g, Write(g, a, v, data, image).1, u) == Read(g, a, u)
  {
    if InRange(g, v) && CanReach(a, Place(g, v).unit) {
      var (Slot(x, r), Slot(d, row)) := (Place(g, u), Place(g, v));
      if x == d && r == row { PlaceInjective(g, u, v); }
      ClusterInRange(g, row);
      if r == row && !a.valid[x] && OthersValid(a.valid, x) {
        WriteRowKeepsNeighbour(a.media[row], a.valid, d, ParityDisk(g, row), data, x);
      }
    }
  }

  /** Nor does a repair, of blocks not on the repaired disk or in a loaded cluster. */
  lemma RepairKeepsReads(g: Geometry, a: Array, diskn: int, image: Block, u: nat)
    requires ParityGeometry(g) && Shaped(g, a) && InRange(g, u) && Read(g, a, u).0.Ok?
    requires Place(g, u).unit != diskn - 1 || a.valid[Place(g, u).unit] || Covered(g, a, Place(g, u).row)
    ensures Read(g, Repair(g, a, diskn, image).1, u) == Read(g, a, u)
  {
    ClusterInRange(g, Place(g, u).row);
  }

  /** A repair writes only to its disk, only in loaded clusters, and the metadata row. */
  lemma RepairTouches(g: Geometry, a: Array, diskn: int, image: Block, row: nat, k: nat)
    requires ParityGeometry(g) && Shaped(g, a) && row < DiskBlocks(g) && k < g.disks
    requires k != diskn - 1 || !Covered(g, a, row)
    ensures Repair(g, a, diskn, image).1.media[row][k] == a.media[row][k]
    ensures Repair(g, a, diskn, image).1.loaded == a.loaded
  {
    ClusterInRange(g, row);
  }

  /** Set-up succeeds exactly with no two disks invalid; it forgets which clusters are loaded and touches no data block. */
  lemma SetUpIs(g: Geometry, a: Array, image: Block)
    requires ParityGeometry(g) && Shaped(g, a)
    ensures Init(g, a, image).0.Ok? <==> forall i, j | 0 <= i < j < g.disks :: a.valid[i] || a.valid[j]
    ensures var (r, b) := Init(g, a, image);
            if r.Error? then b == a
            else b.valid == a.valid && (forall c | 0 <= c < |b.loaded| :: !b.loaded[c]) && MetaHolds(g, b, image)
                 && forall row | 0 <= row < DiskBlocks(g) :: b.media[row] == a.media[row]
  {
    MetaWritten(g, a.(loaded := seq(|a.loaded|, i => false)), image);
    if !AtMostOneInvalid(a.valid) {
      var i, j :| 0 <= i < g.disks && 0 <= j < g.disks && !a.valid[i] && !a.valid[j] && i != j;
      assert if i < j then !a.valid[i] && !a.valid[j] else !a.valid[j] && !a.valid[i];
    }
  }

  /** The metadata block of every disk that writeraidmeta reaches is the given one. */
  ghost predicate MetaHolds(g: Geometry, a: Array, image: Block)
    requires ParityGeometry(g) && Shaped(g, a)
  {
    forall i | 0 <= i < g.disks - 1 && a.valid[i + 1] :: a.media[DiskBlocks(g)][i] == image
  }

  lemma MetaWritten(g: Geometry, a: Array, image: Block)
    requires ParityGeometry(g) && Shaped(g, a)
    ensures var b := WriteMeta(g, a, image);
            && b.valid == a.valid && b.loaded == a.loaded && MetaHolds(g, b, image)
            && (forall row | 0 <= row < g.rows && row != DiskBlocks(g) :: b.media[row] == a.media[row])
            && (forall i | 0 <= i < g.disks && !(i + 1 < g.disks && a.valid[i + 1]) :: b.media[DiskBlocks(g)][i] == a.media[DiskBlocks(g)][i])
  {
  }

  /** An event that changes a valid or a loaded flag writes its metadata block, on the flags it leaves. */
  lemma FlagsArePersisted(g: Geometry, a: Array, last: map<nat, Block>, op: Op)
    requires ParityGeometry(g) && Shaped(g, a)
    ensures var b := Step(g, a, last, op).0;
            b.valid != a.valid || b.loaded != a.loaded ==> !op.DoScramble? && MetaHolds(g, b, op.image)
  {
    match op
    case DoWrite(v, data, image) =>
      if InRange(g, v) && CanReach(a, Place(g, v).unit) { MetaOfWrite(g, a, v, data, image); }
    case DoFail(diskn, image) =>
      if 0 <= diskn - 1 < g.disks { MetaWritten(g, a.(valid := a.valid[diskn - 1 := false]), image); }
    case DoRepair(diskn, image) =>
      if 0 <= diskn - 1 < g.disks { MetaWritten(g, RebuildRows(g, a, diskn - 1), image); }
    case DoScramble(d, junk) =>
  }

  lemma MetaOfWrite(g: Geometry, a: Array, v: int, data: Block, image: Block)
    requires ParityGeometry(g) && Shaped(g, a) && InRange(g, v) && CanReach(a, Place(g, v).unit)
    ensures var b := Write(g, a, v, data, image).1;
            b.valid == a.valid && (b.loaded == a.loaded || MetaHolds(g, b, image))
  {
    var Slot(d, row) := Place(g, v);
    ClusterInRange(g, row);
    if !a.loaded[Cluster(row)] { MetaWritten(g, LoadRows(g, a, Cluster(row)), image); }
  }

  // Which disks are valid, from the events alone.

  ghost predicate FailsDisk(op: Op, d: nat) { op.DoFail? && op.diskn == d + 1 }

  ghost predicate NeverFails(ops: seq<Op>, d: nat) { forall i | 0 <= i < |ops| :: !FailsDisk(ops[i], d) }

  /** Event i of the run is a repair of disk d that reports success. */
  ghost predicate RepairedAt(g: Geometry, a: Array, last: map<nat, Block>, ops: seq<Op>, i: nat, d: nat)
    requires ParityGeometry(g) && Shaped(g, a)
  {
    && i < |ops| && ops[i].DoRepair? && ops[i].diskn == d + 1
    && Repair(g, Run(g, a, last, ops[..i]).0, d + 1, ops[i].image).0.Ok?
  }

  ghost predicate LastRepaired(g: Geometry, a: Array, last: map<nat, Block>, ops: seq<Op>, i: nat, d: nat)
    requires ParityGeometry(g) && Shaped(g, a)
  {
    RepairedAt(g, a, last, ops, i, d) && NeverFails(ops[i + 1..], d)
  }

  lemma {:induction false} RunMore(g: Geometry, a: Array, last: map<nat, Block>, ops: seq<Op>, op: Op)
    requires ParityGeometry(g) && Shaped(g, a)
    ensures var (b, next) := Run(g, a, last, ops); Run(g, a, last, ops + [op]) == Step(g, b, next, op)
    decreases |ops|
  {
    if ops == [] {
      assert ([] + [op])[1..] == [];
    } else {
      var (b, next) := Step(g, a, last, ops[0]);
      assert (ops + [op])[1..] == ops[1..] + [op];
      RunMore(g, b, next, ops[1..], op);
    }
  }

  lemma StepValid(g: Geometry, a: Array, last: map<nat, Block>, op: Op, d: nat)
    requires ParityGeometry(g) && Shaped(g, a) && d < g.disks
    ensures Step(g, a, last, op).0.valid[d] <==>
              (a.valid[d] && !FailsDisk(op, d)) || (op.DoRepair? && op.diskn == d + 1 && Repair(g, a, d + 1, op.image).0.Ok?)
  {
  }

  /**
   After any run a disk is valid exactly if it was valid at the start and never failed, or a repair
   of it reported success after which it did not fail.
   */
  lemma {:induction false} ValidIff(g: Geometry, a: Array, last: map<nat, Block>, ops: seq<Op>, d: nat)
    requires ParityGeometry(g) && Shaped(g, a) && d < g.disks
    ensures Run(g, a, last, ops).0.valid[d] <==>
              (a.valid[d] && NeverFails(ops, d)) || exists i: nat :: i < |ops| && LastRepaired(g, a, last, ops, i, d)
    decreases |ops|
  {
    if ops != [] {
      var (n, op) := (|ops| - 1, ops[|ops| - 1]);
      var first := ops[..n];
      assert ops == first + [op];
      RunMore(g, a, last, first, op);
      var (b, next) := Run(g, a, last, first);
      StepValid(g, b, next, op, d);
      ValidIff(g, a, last, first, d);
      HistoryGrows(g, a, last, first, op, d);
    }
  }

  /** The two histories of ValidIff, with one more event. */
  lemma HistoryGrows(g: Geometry, a: Array, last: map<nat, Block>, first: seq<Op>, op: Op, d: nat)
    requires ParityGeometry(g) && Shaped(g, a) && d < g.disks
    ensures NeverFails(first + [op], d) <==> NeverFails(first, d) && !FailsDisk(op, d)
    ensures (exists i: nat :: i < |first| + 1 && LastRepaired(g, a, last, first + [op], i, d)) <==>
              ((exists i: nat :: i < |first| && LastRepaired(g, a, last, first, i, d)) && !FailsDisk(op, d))
              || (op.DoRepair? && op.diskn == d + 1 && Repair(g, Run(g, a, last, first).0, d + 1, op.image).0.Ok?)
  {
    var ops := first + [op];
    assert NeverFails(ops, d) <==> NeverFails(first, d) && !FailsDisk(op, d) by {
      assert forall i | 0 <= i < |first| :: ops[i] == first[i];
      assert ops[|first|] == op;
    }
    forall i: nat | i < |first|
      ensures LastRepaired(g, a, last, ops, i, d) <==> LastRepaired(g, a, last, first, i, d) && !FailsDisk(op, d)
    {
      assert ops[..i] == first[..i] && ops[i + 1..] == first[i + 1..] + [op];
      NeverFailsMore(first[i + 1..], op, d);
    }
    assert ops[..|first|] == first && ops[|first| + 1..] == [];
    assert LastRepaired(g, a, last, ops, |first|, d) <==>
             op.DoRepair? && op.diskn == d + 1 && Repair(g, Run(g, a, last, first).0, d + 1, op.image).0.Ok?;
  }

  lemma NeverFailsMore(ops: seq<Op>, op: Op, d: nat)
    ensures NeverFails(ops + [op], d) <==> NeverFails(ops, d) && !FailsDisk(op, d)
  {
    assert (ops + [op])[|ops|] == op;
    assert forall i | 0 <= i < |ops| :: (ops + [op])[i] == ops[i];
  }

  // A failure, writes, and the repair, against the same writes with no failure.

  ghost predicate Quiet(ops: seq<Op>)
  {
    forall op | op in ops :: op.DoWrite? || op.DoScramble?
  }

  /** h never lost a disk and k lost disk d; on the rows covered in a they agree but for disk d. */
  ghost predicate Twins(g: Geometry, a: Array, h: Array, k: Array, d: nat)
  {
    && ParityGeometry(g) && Shaped(g, a) && Shaped(g, h) && Shaped(g, k)
    && d < g.disks
    && AllValid(h.valid)
    && !k.valid[d] && OthersValid(k.valid, d)
    && (forall row | Covered(g, a, row) :: TwinRow(g, h, k, d, row))
  }

  ghost predicate TwinRow(g: Geometry, h: Array, k: Array, d: nat, row: nat)
    requires ParityGeometry(g) && Shaped(g, h) && Shaped(g, k) && row < g.rows && d < g.disks
  {
    && Covered(g, h, row) && Covered(g, k, row)
    && XorAll(h.media[row]) == Zero()
    && k.media[row] == h.media[row][d := k.media[row][d]]
  }

  /** The lost disk is the one written: its data goes into the parity alone. */
  lemma TwinWriteLost(h: seq<Block>, k: seq<Block>, up: seq<bool>, down: seq<bool>, d: nat, p: nat, data: Block)
    requires d < |h| == |k| == |up| == |down| && p < |h| && d != p
    requires AllValid(up) && !down[d] && XorAll(h) == Zero() && k == h[d := k[d]]
    ensures var (h', k') := (WriteRow(h, up, d, p, data), WriteRow(k, down, d, p, data)); k' == h'[d := k'[d]]
  {
    var parity := Shifted(h[p], h[d], data);
    assert Shifted(k[p], XorOthers(k, d), data) == parity by {
      OthersIgnore(h, d, k[d]);
      ReconstructIff(h, d);
    }
    assert k[p := parity] == h[d := data][p := parity][d := k[d]];
  }

  /** The lost disk is the parity disk, or neither of the two. */
  lemma TwinWriteOther(h: seq<Block>, k: seq<Block>, up: seq<bool>, down: seq<bool>, d: nat, x: nat, p: nat, data: Block)
    requires d < |h| == |k| == |up| == |down| && x < |h| && p < |h| && x != p && x != d
    requires AllValid(up) && !down[d] && OthersValid(down, d) && k == h[d := k[d]]
    ensures var (h', k') := (WriteRow(h, up, x, p, data), WriteRow(k, down, x, p, data)); k' == h'[d := k'[d]]
  {
    var parity := Shifted(h[p], h[x], data);
    if p == d {
      assert k[x := data] == h[x := data][p := parity][d := k[d]];
    } else {
      assert k[x := data][p := parity] == h[x := data][p := parity][d := k[d]];
    }
  }

  lemma TwinWriteRow(h: seq<Block>, k: seq<Block>, up: seq<bool>, down: seq<bool>, d: nat, x: nat, p: nat, data: Block)
    requires d < |h| == |k| == |up| == |down| && x < |h| && p < |h| && x != p
    requires AllValid(up) && !down[d] && OthersValid(down, d)
    requires XorAll(h) == Zero() && k == h[d := k[d]]
    ensures var (h', k') := (WriteRow(h, up, x, p, data), WriteRow(k, down, x, p, data));
            XorAll(h') == Zero() && k' == h'[d := k'[d]]
  {
    RmwKeepsSum(h, x, p, data);
    if x == d {
      TwinWriteLost(h, k, up, down, d, p, data);
    } else {
      TwinWriteOther(h, k, up, down, d, x, p, data);
    }
  }

  lemma TwinWrite(g: Geometry, a: Array, h: Array, k: Array, d: nat, v: int, data: Block, image: Block)
    requires Twins(g, a, h, k, d)
    ensures Twins(g, a, Write(g, h, v, data, image).1, Write(g, k, v, data, image).1, d)
    ensures Write(g, h, v, data, image).0 == Write(g, k, v, data, image).0
  {
    if InRange(g, v) {
      var Slot(x, row) := Place(g, v);
      var (h1, k1) := (EnsureLoaded(g, h, row, image), EnsureLoaded(g, k, row, image));
      var (h2, k2) := (Write(g, h, v, data, image).1, Write(g, k, v, data, image).1);
      forall r | Covered(g, a, r)
        ensures TwinRow(g, h2, k2, d, r)
      {
        assert TwinRow(g, h, k, d, r);
        assert h1.media[r] == h.media[r] && k1.media[r] == k.media[r];
        if r == row {
          TwinWriteRow(h.media[r], k.media[r], h.valid, k.valid, d, x, ParityDisk(g, row), data);
        }
      }
    }
  }

  lemma {:induction false} TwinRuns(g: Geometry, a: Array, h: Array, k: Array, d: nat,
                                    hl: map<nat, Block>, kl: map<nat, Block>, ops: seq<Op>)
    requires Twins(g, a, h, k, d) && Quiet(ops)
    ensures Twins(g, a, Run(g, h, hl, ops).0, Run(g, k, kl, ops).0, d)
    decreases |ops|
  {
    if ops != [] {
      var (h1, hl1) := Step(g, h, hl, ops[0]);
      var (k1, kl1) := Step(g, k, kl, ops[0]);
      assert Twins(g, a, h1, k1, d) by {
        match ops[0]
        case DoWrite(v, data, image) => TwinWrite(g, a, h, k, d, v, data, image);
        case DoScramble(x, junk) =>
          assert h1 == h;
          forall r | Covered(g, a, r)
            ensures TwinRow(g, h1, k1, d, r)
          {
            assert TwinRow(g, h, k, d, r);
          }
      }
      TwinRuns(g, a, h1, k1, d, hl1, kl1, ops[1..]);
    }
  }

  /**
   Lose disk d, write anything while it is gone and holds junk, repair it: on every row whose
   cluster was loaded before the loss, all data and parity are what they would be without the loss.
   */
  lemma FailureIsTransparent(g: Geometry, a: Array, last: map<nat, Block>, d: nat, ops: seq<Op>,
                             image: Block, image': Block)
    requires Sound(g, a, last) && AllValid(a.valid) && d < g.disks && Quiet(ops)
    ensures var h := Run(g, a, last, ops).0;
            var k := Run(g, Fail(g, a, d + 1, image).1, last, ops).0;
            var (r, b) := Repair(g, k, d + 1, image');
            && r.Ok? && AllValid(b.valid)
            && forall row | Covered(g, a, row) :: b.media[row] == h.media[row]
  {
    var k0 := Fail(g, a, d + 1, image).1;
    assert Twins(g, a, a, k0, d) by {
      forall r | Covered(g, a, r)
        ensures TwinRow(g, a, k0, d, r)
      {}
    }
    TwinRuns(g, a, a, k0, d, last, last, ops);
    var (h, k) := (Run(g, a, last, ops).0, Run(g, k0, last, ops).0);
    var b := Repair(g, k, d + 1, image').1;
    forall row | Covered(g, a, row)
      ensures b.media[row] == h.media[row]
    {
      assert TwinRow(g, h, k, d, row);
      OthersIgnore(h.media[row], d, k.media[row][d]);
      ReconstructIff(h.media[row], d);
      assert b.media[row] == RebuildRow(k.media[row], d);
    }
  }

  /** While every disk is valid, every covered row's parity is the exclusive or of its data blocks. */
  lemma ParityInvariant(g: Geometry, a0: Array, image: Block, ops: seq<Op>, row: nat)
    requires ParityGeometry(g) && Shaped(g, a0) && Init(g, a0, image).0.Ok?
    requires var a := Run(g, Init(g, a0, image).1, map[], ops).0; AllValid(a.valid) && Covered(g, a, row)
    ensures var a := Run(g, Init(g, a0, image).1, map[], ops).0;
            var p := ParityDisk(g, row);
            a.media[row][p] == XorOthers(a.media[row], p)
  {
    InitSound(g, a0, image);
    RunSound(g, Init(g, a0, image).1, map[], ops);
    var a := Run(g, Init(g, a0, image).1, map[], ops).0;
    ReconstructIff(a.media[row], ParityDisk(g, row));
  }
}
