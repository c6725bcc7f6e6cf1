/** Disk blocks and the byte-wise exclusive or that RAID4 and RAID5 build their parity from. */
module Blocks {

  /** BSIZE, the size of a block in bytes (kernel/fs.h). */
  const BSIZE: nat := 1024

  const NUL: bv8 := 0

  type Block = b: seq<bv8> | |b| == BSIZE witness seq(BSIZE, i => NUL)

  function Zero(): Block { seq(BSIZE, i => NUL) }

  function XorByte(x: bv8, y: bv8): bv8 { x ^ y }

  function Xor(a: Block, b: Block): (r: Block)
  {
    seq(BSIZE, i requires 0 <= i < BSIZE => XorByte(a[i], b[i]))
  }

  lemma XorComm(a: Block, b: Block)
    ensures Xor(a, b) == Xor(b, a)
  {
    assert forall i | 0 <= i < BSIZE :: a[i] ^ b[i] == b[i] ^ a[i];
  }

  lemma XorAssoc(a: Block, b: Block, c: Block)
    ensures Xor(Xor(a, b), c) == Xor(a, Xor(b, c))
  {
    assert forall i | 0 <= i < BSIZE :: (a[i] ^ b[i]) ^ c[i] == a[i] ^ (b[i] ^ c[i]);
  }

  lemma XorZero(a: Block)
    ensures Xor(a, Zero()) == a && Xor(Zero(), a) == a
  {
    assert forall i | 0 <= i < BSIZE :: a[i] ^ 0 == a[i] && 0 ^ a[i] == a[i];
  }

  lemma XorSelf(a: Block)
    ensures Xor(a, a) == Zero()
  {
    assert forall i | 0 <= i < BSIZE :: a[i] ^ a[i] == 0;
  }

  /** Xoring the same block in twice changes nothing. */
  lemma XorCancel(a: Block, b: Block)
    ensures Xor(Xor(a, b), b) == a && Xor(b, Xor(b, a)) == a
  {
    XorAssoc(a, b, b);
    XorAssoc(b, b, a);
    XorSelf(b);
    XorZero(a);
  }

  /** The exclusive or of every block of one row, one block per disk. */
  function XorAll(row: seq<Block>): (r: Block)
  {
    if row == [] then Zero() else Xor(XorAll(row[..|row| - 1]), row[|row| - 1])
  }

  /** Replacing one block of a row shifts the row's exclusive or by old xor new. */
  lemma {:induction false} XorAllUpdate(row: seq<Block>, k: nat, b: Block)
    requires k < |row|
    ensures XorAll(row[k := b]) == Xor(XorAll(row), Xor(row[k], b))
  {
    var n := |row| - 1;
    var front, x := XorAll(row[..n]), row[n];
    if k == n {
      assert row[k := b][..n] == row[..n];
      XorAssoc(front, x, Xor(x, b));
      XorCancel(b, x);
    } else {
      assert row[k := b][..n] == row[..n][k := b];
      XorAllUpdate(row[..n], k, b);
      var y := Xor(row[k], b);
      calc {
        XorAll(row[k := b]);
        Xor(Xor(front, y), x);
        { XorAssoc(front, y, x); XorComm(y, x); }
        Xor(front, Xor(x, y));
        { XorAssoc(front, x, y); }
        Xor(XorAll(row), y);
      }
    }
  }

  /** The exclusive or of the row without disk k, as the reconstruction loops compute it. */
  function XorOthers(row: seq<Block>, k: nat): (r: Block)
    requires k < |row|
  {
    XorAll(row[k := Zero()])
  }

  lemma XorOthersIs(row: seq<Block>, k: nat)
    requires k < |row|
    ensures XorOthers(row, k) == Xor(XorAll(row), row[k])
  {
    XorAllUpdate(row, k, Zero());
    XorZero(row[k]);
  }

  /** Block k is the exclusive or of the others exactly when the whole row cancels out. */
  lemma ReconstructIff(row: seq<Block>, k: nat)
    requires k < |row|
    ensures XorOthers(row, k) == row[k] <==> XorAll(row) == Zero()
  {
    XorOthersIs(row, k);
    if XorAll(row) == Zero() {
      XorZero(row[k]);
    }
    if XorOthers(row, k) == row[k] {
      XorCancel(XorAll(row), row[k]);
      XorSelf(row[k]);
    }
  }

  /** Filling disk k with the exclusive or of the others makes the row cancel out. */
  lemma RebuiltRowCancels(row: seq<Block>, k: nat)
    requires k < |row|
    ensures XorAll(row[k := XorOthers(row, k)]) == Zero()
  {
    var whole := row[k := XorOthers(row, k)];
    assert whole[k := Zero()] == row[k := Zero()];
    ReconstructIff(whole, k);
  }

  /** What the reconstruction loops see of disk k does not depend on disk k. */
  lemma OthersIgnore(row: seq<Block>, k: nat, b: Block)
    requires k < |row|
    ensures XorOthers(row[k := b], k) == XorOthers(row, k)
  {
    assert row[k := b][k := Zero()] == row[k := Zero()];
  }

  /** Parity after a read-modify-write: the old parity shifted by old data xor new data. */
  function Shifted(parity: Block, prev: Block, next: Block): (r: Block)
  {
    Xor(parity, Xor(prev, next))
  }

  /** A read-modify-write of data disk d and parity disk p keeps the row's exclusive or. */
  lemma RmwKeepsSum(row: seq<Block>, d: nat, p: nat, next: Block)
    requires d < |row| && p < |row| && d != p
    ensures XorAll(row[d := next][p := Shifted(row[p], row[d], next)]) == XorAll(row)
  {
    var y := Xor(row[d], next);
    var mid := row[d := next];
    XorAllUpdate(row, d, next);
    XorAllUpdate(mid, p, Xor(row[p], y));
    XorCancel(y, row[p]);
    XorCancel(XorAll(row), y);
  }

  /** The same update seen without some third disk x: x's reconstruction does not move. */
  lemma RmwKeepsOthers(row: seq<Block>, d: nat, p: nat, x: nat, next: Block)
    requires d < |row| && p < |row| && x < |row| && d != p && d != x && p != x
    ensures XorOthers(row[d := next][p := Shifted(row[p], row[d], next)], x) == XorOthers(row, x)
  {
    var after := row[d := next][p := Shifted(row[p], row[d], next)];
    var cut := row[x := Zero()];
    assert after[x := Zero()] == cut[d := next][p := Shifted(cut[p], cut[d], next)];
    RmwKeepsSum(cut, d, p, next);
  }

  /** A degraded write moves only the parity, and the lost disk then reconstructs to the new data. */
  lemma DegradedWriteReconstructs(row: seq<Block>, d: nat, p: nat, next: Block)
    requires d < |row| && p < |row| && d != p
    ensures XorOthers(row[p := Shifted(row[p], XorOthers(row, d), next)], d) == next
  {
    var prev := XorOthers(row, d);
    var cut := row[d := Zero()];
    var par := Shifted(row[p], prev, next);
    assert row[p := par][d := Zero()] == cut[p := par];
    XorAllUpdate(cut, p, par);
    XorCancel(Xor(prev, next), row[p]);
    XorCancel(next, prev);
  }
}
