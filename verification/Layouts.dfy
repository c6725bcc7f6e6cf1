/** How the five RAID levels place virtual blocks on disks. */
module Layouts {

  datatype Layout = Raid0 | Raid1 | Raid01 | Raid4 | Raid5

  /** DISKS and the number of blocks on each disk, of which the last holds RAID metadata. */
  datatype Geometry = Geometry(layout: Layout, disks: nat, rows: nat)

  /** A row of one disk, or of one disk pair for the mirrored levels. */
  datatype Slot = Slot(unit: nat, row: nat)

  ghost predicate Sane(g: Geometry) { g.disks >= 1 && g.rows >= 1 }

  /** diskblockn(): the index of the last block of a disk, and so the number of blocks before it. */
  function DiskBlocks(g: Geometry): (n: nat)
    requires Sane(g)
  {
    g.rows - 1
  }

  /** How many disks or pairs hold distinct data in one row. */
  function Width(g: Geometry): (w: nat)
    requires Sane(g)
  {
    match g.layout
    case Raid0 => g.disks
    case Raid1 => (g.disks + 1) / 2
    case Raid01 => g.disks / 2
    case Raid4 => g.disks - 1
    case Raid5 => g.disks - 1
  }

  /** Some row has room for data. */
  ghost predicate Usable(g: Geometry)
    requires Sane(g)
  {
    Width(g) > 0 && DiskBlocks(g) > 0
  }

  /** raidblockn(). */
  function RaidBlocks(g: Geometry): (n: nat)
    requires Sane(g)
  {
    DiskBlocks(g) * Width(g)
  }

  ghost predicate InRange(g: Geometry, v: int)
    requires Sane(g)
  {
    0 <= v < RaidBlocks(g)
  }

  /** The disk that holds the parity of a row. */
  function ParityDisk(g: Geometry, row: nat): (p: nat)
    requires Sane(g) && (g.layout.Raid4? || g.layout.Raid5?)
    ensures p < g.disks
  {
    if g.layout.Raid4? then g.disks - 1 else row % g.disks
  }

  /** Where a virtual block lives, as the read and write functions of each level compute it. */
  function Home(g: Geometry, v: nat): (s: Slot)
    requires Sane(g) && Usable(g)
  {
    match g.layout
    case Raid0 => Slot(v % g.disks, v / g.disks)
    case Raid1 => Slot(v / DiskBlocks(g), v % DiskBlocks(g))
    case Raid01 => Slot(v % (g.disks / 2), v / (g.disks / 2))
    case Raid4 => Slot(v % (g.disks - 1), v / (g.disks - 1))
    case Raid5 =>
      var stripe := v / (g.disks - 1);
      var stripepos := v % (g.disks - 1);
      Slot((stripe % g.disks + 1 + stripepos) % g.disks, stripe)
  }

  /** The slots that hold file data: no parity disk, no metadata row, no missing disk. */
  ghost predicate IsDataSlot(g: Geometry, s: Slot)
    requires Sane(g)
  {
    && s.row < DiskBlocks(g)
    && match g.layout
       case Raid0 => s.unit < g.disks
       case Raid1 => s.unit < (g.disks + 1) / 2
       case Raid01 => s.unit < g.disks / 2
       case Raid4 => s.unit < g.disks && s.unit != ParityDisk(g, s.row)
       case Raid5 => s.unit < g.disks && s.unit != ParityDisk(g, s.row)
  }

  function Times(a: nat, b: nat): (c: nat)
    ensures c == a * b
  {
    assert 0 * b <= a * b;
    a * b
  }

  /** The virtual block a data slot holds; nothing in the source computes this. */
  function Resident(g: Geometry, s: Slot): (v: nat)
    requires Sane(g) && IsDataSlot(g, s)
  {
    match g.layout
    case Raid0 => Times(s.row, g.disks) + s.unit
    case Raid1 => Times(s.unit, DiskBlocks(g)) + s.row
    case Raid01 => Times(s.row, g.disks / 2) + s.unit
    case Raid4 => Times(s.row, g.disks - 1) + s.unit
    case Raid5 =>
      var p := ParityDisk(g, s.row);
      Times(s.row, g.disks - 1) + (if s.unit > p then s.unit - p - 1 else s.unit + g.disks - p - 1)
  }

  /** Placement is one to one: every virtual block has its own data slot. */
  lemma HomeThenResident(g: Geometry, v: nat)
    requires Sane(g) && InRange(g, v)
    ensures Usable(g) && IsDataSlot(g, Home(g, v)) && Resident(g, Home(g, v)) == v
  {
    InRangeMeans(g, v);
    var (w, n) := (Width(g), DiskBlocks(g));
    assert n * w == w * n;
    if g.layout.Raid1? {
      Split(v, n);
      QuotientBelow(v, n, w);
    } else {
      Split(v, w);
      QuotientBelow(v, w, n);
    }
    if g.layout.Raid5? {
      Rotate(g.disks, v / w % g.disks, v % w);
    }
  }

  /** A slot of a striped layout, or, with rows and units exchanged, of a concatenated one. */
  lemma StripeJoins(q: nat, r: nat, k: nat, n: nat)
    requires r < k && q < n
    ensures 0 <= q * k + r < n * k && n * k == k * n && n > 0 && k > 0
    ensures (q * k + r) / k == q && (q * k + r) % k == r
  {
    Join(q, r, k, n);
  }

  lemma Raid5Joins(g: Geometry, s: Slot)
    requires Sane(g) && g.layout.Raid5? && IsDataSlot(g, s)
    ensures Usable(g) && InRange(g, Resident(g, s)) && Home(g, Resident(g, s)) == s
  {
    var p := ParityDisk(g, s.row);
    var pos := if s.unit > p then s.unit - p - 1 else s.unit + g.disks - p - 1;
    var v := Times(s.row, g.disks - 1) + pos;
    assert Resident(g, s) == v;
    StripeJoins(s.row, pos, g.disks - 1, DiskBlocks(g));
    assert v / (g.disks - 1) == s.row && v % (g.disks - 1) == pos;
    Rotate(g.disks, p, pos);
  }

  /** Placement is onto: every data slot holds a virtual block, and no other slot does. */
  lemma ResidentThenHome(g: Geometry, s: Slot)
    requires Sane(g) && IsDataSlot(g, s)
    ensures Usable(g) && InRange(g, Resident(g, s)) && Home(g, Resident(g, s)) == s
  {
    if g.layout.Raid1? {
      StripeJoins(s.unit, s.row, DiskBlocks(g), Width(g));
    } else if g.layout.Raid5? {
      Raid5Joins(g, s);
    } else {
      StripeJoins(s.row, s.unit, Width(g), DiskBlocks(g));
    }
  }

  /** Two virtual blocks in one slot are the same block. */
  lemma HomeInjective(g: Geometry, v: nat, u: nat)
    requires Sane(g) && InRange(g, v) && InRange(g, u)
    requires Usable(g) && Home(g, v) == Home(g, u)
    ensures v == u
  {
    HomeThenResident(g, v);
    HomeThenResident(g, u);
  }

  /** The unit of a row that its first block is on. */
  ghost function FirstUnit(g: Geometry, row: nat): (u: nat)
    requires Sane(g)
  {
    if g.layout.Raid5? then if row % g.disks + 1 == g.disks then 0 else row % g.disks + 1 else 0
  }

  /** Unit u's neighbour, going round. */
  ghost function NextUnit(g: Geometry, u: nat): (n: nat)
    requires Sane(g)
  {
    if g.layout.Raid5? && u + 1 == g.disks then 0 else u + 1
  }

  /**
   Blocks are laid out in order. The striped levels fill a row from its first unit on, each block on
   the neighbour of the one before, and then the next row; RAID1 fills a pair and then the next.
   */
  lemma InOrder(g: Geometry, v: nat)
    requires Sane(g) && Usable(g)
    ensures Home(g, 0) == Slot(if g.layout.Raid1? then 0 else FirstUnit(g, 0), 0)
    ensures var (at, next) := (Home(g, v), Home(g, v + 1));
            if g.layout.Raid1? then
              next == if at.row + 1 < DiskBlocks(g) then Slot(at.unit, at.row + 1) else Slot(at.unit + 1, 0)
            else
              next == if v % Width(g) + 1 < Width(g) then Slot(NextUnit(g, at.unit), at.row) else Slot(FirstUnit(g, at.row + 1), at.row + 1)
  {
    var k := if g.layout.Raid1? then DiskBlocks(g) else Width(g);
    SplitAdd(v, 1, k);
    SplitZero(k);
    if g.layout.Raid5? {
      var p := v / k % g.disks;
      Rotate(g.disks, p, v % k);
      if v % k + 1 < k { Rotate(g.disks, p, v % k + 1); }
      Rotate(g.disks, (v / k + 1) % g.disks, 0);
      Rotate(g.disks, 0, 0);
      SplitZero(g.disks);
    }
  }

  /**
   RAID5 spreads parity: of any DISKS consecutive rows, each disk has the parity of exactly one.
   RAID4 keeps it on the last disk.
   */
  lemma ParityShared(g: Geometry, row: nat, d: nat) returns (at: nat)
    requires Sane(g) && (g.layout.Raid4? || g.layout.Raid5?) && d < g.disks
    ensures g.layout.Raid4? ==> (ParityDisk(g, row) == d <==> d + 1 == g.disks)
    ensures g.layout.Raid5? ==>
              row <= at < row + g.disks && forall r: nat | row <= r < row + g.disks :: ParityDisk(g, r) == d <==> r == at
  {
    var p := row % g.disks;
    at := row + if d >= p then d - p else d + g.disks - p;
    if g.layout.Raid5? {
      forall r: nat | row <= r < row + g.disks ensures ParityDisk(g, r) == d <==> r == at { SplitAdd(row, r - row, g.disks); }
    }
  }

  // Arithmetic.

  lemma SplitZero(k: nat)
    requires k > 0
    ensures 0 / k == 0 && 0 % k == 0
  {
    DivUnique(0, k, 0, 0);
  }

  /** Division of v + j, where q and r are quotient and remainder of v. */
  lemma Carry(q: nat, r: nat, j: nat, k: nat)
    requires r < k && j <= k
    ensures if r + j < k then (q * k + r + j) / k == q && (q * k + r + j) % k == r + j
            else (q * k + r + j) / k == q + 1 && (q * k + r + j) % k == r + j - k
  {
    if r + j < k {
      DivUnique(q * k + r + j, k, q, r + j);
    } else {
      MulNext(q, k);
      DivUnique(q * k + r + j, k, q + 1, r + j - k);
    }
  }

  lemma MulNext(q: nat, k: nat)
    ensures (q + 1) * k == q * k + k
  {
  }

  lemma SplitAdd(v: nat, j: nat, k: nat)
    requires 0 < k && j <= k
    ensures if v % k + j < k then (v + j) / k == v / k && (v + j) % k == v % k + j
            else (v + j) / k == v / k + 1 && (v + j) % k == v % k + j - k
  {
    Split(v, k);
    Carry(v / k, v % k, j, k);
  }

  lemma InRangeMeans(g: Geometry, v: nat)
    requires Sane(g) && InRange(g, v)
    ensures Usable(g)
  {
  }

  lemma Split(v: nat, k: nat)
    requires k > 0
    ensures v == v / k * k + v % k && v % k < k
  {
  }

  lemma MulMono(a: int, b: int, k: nat)
    requires a <= b
    ensures a * k <= b * k && k * a <= k * b
  {
    assert (b - a) * k >= 0;
  }

  lemma QuotientBelow(v: nat, k: nat, n: nat)
    requires k > 0 && v < n * k
    ensures v / k < n
  {
    Split(v, k);
    if n <= v / k {
      MulMono(n, v / k, k);
    }
  }

  lemma DivUnique(t: nat, k: nat, q: nat, r: nat)
    requires r < k && t == q * k + r
    ensures t / k == q && t % k == r
  {
    Split(t, k);
    if t / k < q {
      MulMono(t / k + 1, q, k);
    } else if q < t / k {
      MulMono(q + 1, t / k, k);
    }
  }

  lemma Join(q: nat, r: nat, k: nat, n: nat)
    requires r < k && q < n
    ensures (q * k + r) / k == q && (q * k + r) % k == r
    ensures q * k + r < n * k
  {
    MulMono(q + 1, n, k);
    DivUnique(q * k + r, k, q, r);
  }

  /** Walking round the disks from the one after the parity disk never meets the parity disk. */
  lemma Rotate(d: nat, p: nat, pos: nat)
    requires p < d && pos < d - 1
    ensures (p + 1 + pos) % d == if p + 1 + pos < d then p + 1 + pos else p + 1 + pos - d
    ensures (p + 1 + pos) % d != p
  {
    var t := p + 1 + pos;
    if t >= d {
      DivUnique(t, d, 1, t - d);
    } else {
      DivUnique(t, d, 0, t);
    }
  }
}
