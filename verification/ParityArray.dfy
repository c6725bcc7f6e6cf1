/**
 What one RAID4 or RAID5 call does to the disks, as functions on values.

 The two levels differ only in where the parity of a row lives (Layouts.ParityDisk) and
 where a virtual block lives (Layouts.Home), so one model serves both.
 */
module ParityArray {
  import opened Blocks
  import opened Layouts

  const CLUSTER_SIZE: nat := 128

  /** media[row][disk], the valid flag of each disk, and the cluster_loaded flags. */
  datatype Array = Array(media: seq<seq<Block>>, valid: seq<bool>, loaded: seq<bool>)

  datatype Result = Ok | Error

  /** The layouts, disk counts and disk sizes for which cluster_loaded covers every row. */
  ghost predicate ParityGeometry(g: Geometry)
  {
    && (g.layout.Raid4? || g.layout.Raid5?)
    && g.disks >= 2
    && g.rows >= 1
    && g.rows % CLUSTER_SIZE == 0
  }

  ghost predicate Shaped(g: Geometry, a: Array)
  {
    && |a.media| == g.rows
    && (forall r | 0 <= r < |a.media| :: |a.media[r]| == g.disks)
    && |a.valid| == g.disks
    && |a.loaded| == g.rows / CLUSTER_SIZE
  }

  function Cluster(row: nat): (c: nat) { row / CLUSTER_SIZE }

  lemma ClusterInRange(g: Geometry, row: nat)
    requires ParityGeometry(g) && row < g.rows
    ensures Cluster(row) < g.rows / CLUSTER_SIZE
  {
  }

  ghost predicate OthersValid(valid: seq<bool>, d: nat)
  {
    forall i | 0 <= i < |valid| && i != d :: valid[i]
  }

  ghost predicate AllValid(valid: seq<bool>)
  {
    forall i | 0 <= i < |valid| :: valid[i]
  }

  // Rows.

  /** write_block. */
  function PutBlock(media: seq<seq<Block>>, b: nat, d: nat, data: Block): (r: seq<seq<Block>>)
    requires b < |media| && d < |media[b]|
  {
    var row: seq<Block> := media[b];
    media[b := row[d := data]]
  }

  /** The blocks of a row that the loader folds into the parity: valid disks other than the parity disk. */
  function Foldable(row: seq<Block>, valid: seq<bool>, p: nat): (r: seq<Block>)
    requires |valid| == |row|
    ensures |r| == |row|
  {
    seq(|row|, i requires 0 <= i < |row| => if valid[i] && i != p then row[i] else Zero())
  }

  /** One row of loadcluster: recompute the parity block if its disk is valid. */
  function LoadRow(row: seq<Block>, valid: seq<bool>, p: nat): (r: seq<Block>)
    requires p < |row| == |valid|
    ensures |r| == |row|
  {
    if valid[p] then row[p := XorAll(Foldable(row, valid, p))] else row
  }

  /** The three ways a write treats its row: reconstruct, data only, read-modify-write. */
  function WriteRow(row: seq<Block>, valid: seq<bool>, d: nat, p: nat, data: Block): (r: seq<Block>)
    requires d < |row| == |valid| && p < |row|
    ensures |r| == |row|
  {
    if !valid[d] then row[p := Shifted(row[p], XorOthers(row, d), data)]
    else if !valid[p] then row[d := data]
    else row[d := data][p := Shifted(row[p], row[d], data)]
  }

  function RebuildRow(row: seq<Block>, d: nat): (r: seq<Block>)
    requires d < |row|
    ensures |r| == |row|
  {
    row[d := XorOthers(row, d)]
  }

  // Whole-array steps.

  /**
   writeraidmeta: image goes to the metadata row of disk number i (index i - 1) when
   diskinfo[i] is valid. The entry past the last disk is never valid.
   */
  function MetaRow(row: seq<Block>, valid: seq<bool>, image: Block): (r: seq<Block>)
    requires |valid| == |row|
    ensures |r| == |row|
  {
    seq(|row|, i requires 0 <= i < |row| => if i + 1 < |row| && valid[i + 1] then image else row[i])
  }

  function WriteMeta(g: Geometry, a: Array, image: Block): (r: Array)
    requires ParityGeometry(g) && Shaped(g, a)
    ensures Shaped(g, r)
  {
    a.(media := a.media[DiskBlocks(g) := MetaRow(a.media[DiskBlocks(g)], a.valid, image)])
  }

  function LoadRows(g: Geometry, a: Array, c: nat): (r: Array)
    requires ParityGeometry(g) && Shaped(g, a) && c < |a.loaded|
    ensures Shaped(g, r)
  {
    Array(seq(g.rows, row requires 0 <= row < g.rows =>
            if Cluster(row) == c then LoadRow(a.media[row], a.valid, ParityDisk(g, row)) else a.media[row]),
          a.valid, a.loaded[c := true])
  }

  /** loadclusterraid4 and loadclusterraid5. */
  function LoadCluster(g: Geometry, a: Array, c: nat, image: Block): (r: Array)
    requires ParityGeometry(g) && Shaped(g, a) && c < |a.loaded|
    ensures Shaped(g, r)
  {
    WriteMeta(g, LoadRows(g, a, c), image)
  }

  function EnsureLoaded(g: Geometry, a: Array, row: nat, image: Block): (r: Array)
    requires ParityGeometry(g) && Shaped(g, a) && row < g.rows
    ensures Shaped(g, r)
  {
    ClusterInRange(g, row);
    if a.loaded[Cluster(row)] then a else LoadCluster(g, a, Cluster(row), image)
  }

  function PutRow(g: Geometry, a: Array, row: nat, blocks: seq<Block>): (r: Array)
    requires ParityGeometry(g) && Shaped(g, a) && row < g.rows && |blocks| == g.disks
    ensures Shaped(g, r)
  {
    a.(media := a.media[row := blocks])
  }

  ghost predicate CanReach(a: Array, d: nat)
    requires d < |a.valid|
  {
    a.valid[d] || OthersValid(a.valid, d)
  }

  /** Where a block in range lives: below the metadata row and never on the row's parity disk. */
  function Place(g: Geometry, v: nat): (s: Slot)
    requires ParityGeometry(g) && InRange(g, v)
    ensures s.row < DiskBlocks(g) && s.unit < g.disks && s.unit != ParityDisk(g, s.row)
  {
    HomeThenResident(g, v);
    Home(g, v)
  }

  lemma PlaceInjective(g: Geometry, v: nat, u: nat)
    requires ParityGeometry(g) && InRange(g, v) && InRange(g, u) && Place(g, v) == Place(g, u)
    ensures v == u
  {
    HomeThenResident(g, v);
    HomeThenResident(g, u);
  }

  // Calls.

  /** raid4read and raid5read. */
  ghost function Read(g: Geometry, a: Array, v: int): (r: (Result, Block))
    requires ParityGeometry(g) && Shaped(g, a)
  {
    if !InRange(g, v) then (Error, Zero()) else
    var Slot(d, row) := Place(g, v);
    if a.valid[d] then (Ok, a.media[row][d])
    else if OthersValid(a.valid, d) then (Ok, XorOthers(a.media[row], d))
    else (Error, Zero())
  }

  /** raid4write and raid5write. */
  ghost function Write(g: Geometry, a: Array, v: int, data: Block, image: Block): (r: (Result, Array))
    requires ParityGeometry(g) && Shaped(g, a)
    ensures Shaped(g, r.1)
  {
    if !InRange(g, v) then (Error, a) else
    var Slot(d, row) := Place(g, v);
    if !CanReach(a, d) then (Error, a) else
    var b := EnsureLoaded(g, a, row, image);
    (Ok, PutRow(g, b, row, WriteRow(b.media[row], b.valid, d, ParityDisk(g, row), data)))
  }

  /** raidfail; diskn counts from 1. */
  function Fail(g: Geometry, a: Array, diskn: int, image: Block): (r: (Result, Array))
    requires ParityGeometry(g) && Shaped(g, a)
    ensures Shaped(g, r.1)
  {
    if diskn - 1 < 0 || diskn - 1 >= g.disks then (Error, a)
    else (Ok, WriteMeta(g, a.(valid := a.valid[diskn - 1 := false]), image))
  }

  function RebuildRows(g: Geometry, a: Array, d: nat): (r: Array)
    requires ParityGeometry(g) && Shaped(g, a) && d < g.disks
    ensures Shaped(g, r)
  {
    a.(media := seq(g.rows, row requires 0 <= row < g.rows =>
                  ClusterInRange(g, row);
                  if a.loaded[Cluster(row)] then RebuildRow(a.media[row], d) else a.media[row]),
       valid := a.valid[d := true])
  }

  /** raidrepair for RAID4 and RAID5; diskn counts from 1. */
  ghost function Repair(g: Geometry, a: Array, diskn: int, image: Block): (r: (Result, Array))
    requires ParityGeometry(g) && Shaped(g, a)
    ensures Shaped(g, r.1)
  {
    if diskn - 1 < 0 || diskn - 1 >= g.disks then (Error, a)
    else if a.valid[diskn - 1] then (Ok, a)
    else if !OthersValid(a.valid, diskn - 1) then (Error, a)
    else (Ok, WriteMeta(g, RebuildRows(g, a, diskn - 1), image))
  }

  /** setraidtype for RAID4 and RAID5, which refuses more than one invalid disk. */
  ghost function Init(g: Geometry, a: Array, image: Block): (r: (Result, Array))
    requires ParityGeometry(g) && Shaped(g, a)
    ensures Shaped(g, r.1)
  {
    if !AtMostOneInvalid(a.valid) then (Error, a)
    else (Ok, WriteMeta(g, a.(loaded := seq(|a.loaded|, i => false)), image))
  }

  ghost predicate AtMostOneInvalid(valid: seq<bool>)
  {
    forall i, j | 0 <= i < |valid| && 0 <= j < |valid| && !valid[i] && !valid[j] :: i == j
  }

  /** What a dead disk holds is anyone's guess: its contents change to anything. */
  function Scramble(g: Geometry, a: Array, d: nat, junk: seq<Block>): (r: Array)
    requires ParityGeometry(g) && Shaped(g, a) && d < g.disks && |junk| == g.rows
    ensures Shaped(g, r)
  {
    a.(media := seq(g.rows, row requires 0 <= row < g.rows => a.media[row][d := junk[row]]))
  }
}
