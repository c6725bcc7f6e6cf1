/** What the mirrored pair keeps in every interleaving. */
module DiskPairProof {
  import opened DiskPair

  // The invariant.

  /** The lock is held exactly by the one thread whose flag is up. */
  ghost predicate Owned(lock: Lock, flags: seq<bool>)
  {
    && (forall t | 0 <= t < |flags| :: lock == HeldBy(t) <==> flags[t])
    && (lock.HeldBy? ==> lock.t < |flags|)
  }

  /** The lock after thread t has gone from holding it or not to holding it or not. */
  ghost function After(lock: Lock, t: nat, had: bool, has: bool): Lock
  {
    if has then HeldBy(t) else if had then Free else lock
  }

  lemma OwnedUpdate(lock: Lock, flags: seq<bool>, t: nat, has: bool)
    requires Owned(lock, flags) && t < |flags| && (has && !flags[t] ==> lock.Free?)
    ensures Owned(After(lock, t, flags[t], has), flags[t := has])
  {
  }

  ghost function MutexFlags(threads: seq<Thread>): seq<bool>
  {
    seq(|threads|, u requires 0 <= u < |threads| => HoldsMutex(threads[u].pc))
  }

  ghost function WriteFlags(threads: seq<Thread>): seq<bool>
  {
    seq(|threads|, u requires 0 <= u < |threads| => Writes(threads[u].pc))
  }

  ghost function ReadFlags(threads: seq<Thread>, i: nat): seq<bool>
  {
    seq(|threads|, u requires 0 <= u < |threads| => ReadsSide(threads[u].pc, i))
  }

  ghost function DiskFlags(threads: seq<Thread>, k: nat): seq<bool>
  {
    seq(|threads|, u requires 0 <= u < |threads| => HoldsDisk(threads[u].pc, k))
  }

  /** mutex, the disks' locks and each flag are held exactly by one thread between setting and clearing them. */
  ghost predicate Owns(s: Pair)
    requires Sized(s)
  {
    && Owned(s.mutex, MutexFlags(s.threads))
    && Owned(s.disk[0], DiskFlags(s.threads, 0)) && Owned(s.disk[1], DiskFlags(s.threads, 1))
    && Owned(s.writer, WriteFlags(s.threads)) && s.writing == s.writer.HeldBy?
    && Owned(s.reader[0], ReadFlags(s.threads, 0)) && s.reading[0] == s.reader[0].HeldBy?
    && Owned(s.reader[1], ReadFlags(s.threads, 1)) && s.reading[1] == s.reader[1].HeldBy?
  }

  /** What Owns says of one thread. */
  lemma OwnsAt(s: Pair, t: nat)
    requires Sized(s) && Owns(s) && t < |s.threads|
    ensures s.mutex == HeldBy(t) <==> HoldsMutex(s.threads[t].pc)
    ensures s.writer == HeldBy(t) <==> Writes(s.threads[t].pc)
    ensures s.reader[0] == HeldBy(t) <==> ReadsSide(s.threads[t].pc, 0)
    ensures s.reader[1] == HeldBy(t) <==> ReadsSide(s.threads[t].pc, 1)
    ensures s.disk[0] == HeldBy(t) <==> HoldsDisk(s.threads[t].pc, 0)
    ensures s.disk[1] == HeldBy(t) <==> HoldsDisk(s.threads[t].pc, 1)
    ensures Mine(s, t)
  {
    assert MutexFlags(s.threads)[t] == HoldsMutex(s.threads[t].pc);
    assert DiskFlags(s.threads, 0)[t] == HoldsDisk(s.threads[t].pc, 0);
    assert DiskFlags(s.threads, 1)[t] == HoldsDisk(s.threads[t].pc, 1);
    assert WriteFlags(s.threads)[t] == Writes(s.threads[t].pc);
    assert ReadFlags(s.threads, 0)[t] == ReadsSide(s.threads[t].pc, 0);
    assert ReadFlags(s.threads, 1)[t] == ReadsSide(s.threads[t].pc, 1);
  }

  ghost predicate NoReaderWhileWriting(s: Pair)
    requires Sized(s)
  {
    s.writing ==> !s.reading[0] && !s.reading[1]
  }

  /** Every valid side holds the last completed write of the row. */
  ghost predicate Mirrored(s: Pair, row: nat)
    requires Sized(s)
  {
    row in s.last && row < Rows(s) ==> forall i | 0 <= i < 2 && s.valid[i] :: s.media[i][row] == s.last[row]
  }

  ghost predicate CopiedTo(s: Pair, side: nat, n: nat)
    requires Sized(s) && side < 2 && n <= Rows(s)
  {
    forall q | 0 <= q < n :: s.media[side][q] == s.media[1 - side][q]
  }

  ghost predicate WriterOk(s: Pair, th: Thread)
    requires Sized(s) && Proper(Rows(s), th)
  {
    && (th.job.WriteJob? && th.pc.WriteDisk? && th.pc.i == 1 && s.valid[0] ==> s.media[0][th.job.row] == th.job.data)
    && (th.job.WriteJob? && (th.pc.PairFree? || th.pc.WriteWant? || th.pc.WriteClear?) ==>
          forall i | 0 <= i < 2 && s.valid[i] :: s.media[i][th.job.row] == th.job.data)
    && (th.job.WriteJob? && Writes(th.pc) ==> s.valid[0] || s.valid[1])
    && (th.job.RepairJob? && !th.pc.Idle? && !th.pc.Waking? ==> s.valid[1 - th.job.side])
    && (th.job.RepairJob? && (th.pc.WriteWant? || th.pc.WriteClear? || th.pc.Waking?) ==> s.valid[th.job.side])
    && (th.pc.CopyRow? ==> CopiedTo(s, th.job.side, th.pc.r))
    && (th.job.RepairJob? && (th.pc.PairFree? || th.pc.CopyDone?) ==> CopiedTo(s, th.job.side, Rows(s)))
  }

  ghost predicate ReaderOk(s: Pair, th: Thread)
    requires Sized(s) && Proper(Rows(s), th)
  {
    && ((th.pc.ReadLock? || th.pc.ReadDisk? || th.pc.ReadFree? || th.pc.ReadWant? || th.pc.ReadClear?) ==> s.valid[th.pc.i])
    && ((th.pc.ReadFree? || th.pc.ReadWant? || th.pc.ReadClear?) && th.job.row in s.last ==> th.pc.got == s.last[th.job.row])
  }

  /** The row a write is in the middle of replacing, or -1. */
  ghost function Replacing(s: Pair): int
    requires Sized(s) && Owns(s)
  {
    if s.writer.HeldBy? && s.threads[s.writer.t].job.WriteJob? then s.threads[s.writer.t].job.row else -1
  }

  ghost predicate DataOk(s: Pair)
    requires Sized(s) && Owns(s)
  {
    && (forall row | row in s.last && row != Replacing(s) :: Mirrored(s, row))
    && (forall t | 0 <= t < |s.threads| :: WriterOk(s, s.threads[t]) && ReaderOk(s, s.threads[t]))
  }

  /** Thread w is in wakeup() and has yet to look at process t. */
  ghost predicate WillWake(s: Pair, w: nat, t: nat)
  {
    w < |s.threads| && w != t && s.threads[w].pc.Waking? && s.threads[w].pc.k <= t
  }

  /** Nobody sleeps on a pair that is free unless someone is still on the way to wake it. */
  ghost predicate NoneForgotten(s: Pair)
    requires Sized(s)
  {
    forall t | 0 <= t < |s.threads| ::
      && (s.threads[t].pc.Doze? || s.threads[t].pc.DropMutex? ==> Busy(s))
      && (s.threads[t].pc.Nod? || s.threads[t].pc.Asleep? ==> Busy(s) || exists w: nat :: WillWake(s, w, t))
  }

  ghost predicate Inv(s: Pair)
  {
    Sized(s) && Owns(s) && NoReaderWhileWriting(s) && DataOk(s) && NoneForgotten(s)
  }

  // One step, as locks and flags see it.

  ghost predicate SameOrWoken(th: Thread, th': Thread)
  {
    th' == th || (th.pc.Asleep? && th' == th.(pc := Want))
  }

  ghost predicate ShapeKept(s: Pair, s': Pair)
    requires Sized(s)
  {
    && |s'.valid| == 2 && |s'.reading| == 2 && |s'.reader| == 2 && |s'.media| == 2 && |s'.disk| == 2
    && |s'.media[0]| == Rows(s) && |s'.media[1]| == Rows(s) && |s'.threads| == |s.threads|
  }

  /** The lock follows the thread's program counter. */
  ghost predicate LockMoved(lock: Lock, lock': Lock, t: nat, had: bool, has: bool)
  {
    lock' == After(lock, t, had, has) && (has && !had ==> lock.Free?)
  }

  /** Thread t moves and others at most wake up. */
  ghost predicate MovedThreads(s: Pair, s': Pair, t: nat)
    requires Sized(s) && t < |s.threads|
  {
    && ShapeKept(s, s')
    && (forall u | 0 <= u < |s.threads| && u != t :: SameOrWoken(s.threads[u], s'.threads[u]))
    && s'.threads[t].job == s.threads[t].job && Proper(Rows(s), s'.threads[t])
  }

  /** The disks' locks follow the program counter of thread t. */
  ghost predicate MovedDisks(s: Pair, s': Pair, t: nat)
    requires Sized(s) && t < |s.threads| && ShapeKept(s, s')
  {
    var (pc, pc') := (s.threads[t].pc, s'.threads[t].pc);
    && LockMoved(s.disk[0], s'.disk[0], t, HoldsDisk(pc, 0), HoldsDisk(pc', 0))
    && LockMoved(s.disk[1], s'.disk[1], t, HoldsDisk(pc, 1), HoldsDisk(pc', 1))
  }

  /** mutex and the flags follow the program counter of thread t. */
  ghost predicate MovedLocks(s: Pair, s': Pair, t: nat)
    requires Sized(s) && t < |s.threads| && ShapeKept(s, s')
  {
    var (pc, pc') := (s.threads[t].pc, s'.threads[t].pc);
    && LockMoved(s.mutex, s'.mutex, t, HoldsMutex(pc), HoldsMutex(pc'))
    && LockMoved(s.writer, s'.writer, t, Writes(pc), Writes(pc')) && s'.writing == s'.writer.HeldBy?
    && LockMoved(s.reader[0], s'.reader[0], t, ReadsSide(pc, 0), ReadsSide(pc', 0)) && s'.reading[0] == s'.reader[0].HeldBy?
    && LockMoved(s.reader[1], s'.reader[1], t, ReadsSide(pc, 1), ReadsSide(pc', 1)) && s'.reading[1] == s'.reader[1].HeldBy?
    && (Writes(pc') && !Writes(pc) ==> !Busy(s))
    && ((ReadsSide(pc', 0) && !ReadsSide(pc, 0)) || (ReadsSide(pc', 1) && !ReadsSide(pc, 1)) ==> !s.writing)
  }

  ghost predicate Moved(s: Pair, s': Pair, t: nat)
    requires Sized(s) && t < |s.threads|
  {
    MovedThreads(s, s', t) && MovedLocks(s, s', t) && MovedDisks(s, s', t)
  }

  lemma MovedSized(s: Pair, s': Pair, t: nat)
    requires Sized(s) && t < |s.threads| && Moved(s, s', t)
    ensures Sized(s') && Rows(s') == Rows(s)
  {
    forall u | 0 <= u < |s.threads| ensures Proper(Rows(s), s'.threads[u]) {
      if u != t { assert SameOrWoken(s.threads[u], s'.threads[u]); }
    }
  }

  lemma HoldFlagsMoved(s: Pair, s': Pair, t: nat)
    requires Sized(s) && t < |s.threads| && MovedThreads(s, s', t)
    ensures MutexFlags(s'.threads) == MutexFlags(s.threads)[t := HoldsMutex(s'.threads[t].pc)]
    ensures WriteFlags(s'.threads) == WriteFlags(s.threads)[t := Writes(s'.threads[t].pc)]
  {
  }

  lemma SideFlagsMoved(s: Pair, s': Pair, t: nat, i: nat)
    requires Sized(s) && t < |s.threads| && MovedThreads(s, s', t)
    ensures ReadFlags(s'.threads, i) == ReadFlags(s.threads, i)[t := ReadsSide(s'.threads[t].pc, i)]
    ensures DiskFlags(s'.threads, i) == DiskFlags(s.threads, i)[t := HoldsDisk(s'.threads[t].pc, i)]
  {
  }

  lemma OwnedMoved(lock: Lock, lock': Lock, flags: seq<bool>, t: nat, has: bool)
    requires Owned(lock, flags) && t < |flags| && LockMoved(lock, lock', t, flags[t], has)
    ensures Owned(lock', flags[t := has])
  {
    OwnedUpdate(lock, flags, t, has);
  }

  lemma MovedOwns(s: Pair, s': Pair, t: nat)
    requires Sized(s) && Owns(s) && NoReaderWhileWriting(s) && t < |s.threads| && Moved(s, s', t)
    ensures Sized(s') && Rows(s') == Rows(s) && Owns(s') && NoReaderWhileWriting(s')
  {
    MovedSized(s, s', t);
    HoldFlagsMoved(s, s', t);
    SideFlagsMoved(s, s', t, 0);
    SideFlagsMoved(s, s', t, 1);
    var pc' := s'.threads[t].pc;
    OwnedMoved(s.mutex, s'.mutex, MutexFlags(s.threads), t, HoldsMutex(pc'));
    OwnedMoved(s.disk[0], s'.disk[0], DiskFlags(s.threads, 0), t, HoldsDisk(pc', 0));
    OwnedMoved(s.disk[1], s'.disk[1], DiskFlags(s.threads, 1), t, HoldsDisk(pc', 1));
    OwnedMoved(s.writer, s'.writer, WriteFlags(s.threads), t, Writes(pc'));
    OwnedMoved(s.reader[0], s'.reader[0], ReadFlags(s.threads, 0), t, ReadsSide(pc', 0));
    OwnedMoved(s.reader[1], s'.reader[1], ReadFlags(s.threads, 1), t, ReadsSide(pc', 1));
  }

  ghost predicate Mine(s: Pair, t: nat)
    requires Sized(s) && t < |s.threads|
  {
    var pc := s.threads[t].pc;
    && (s.mutex == HeldBy(t) <==> HoldsMutex(pc))
    && (s.disk[0] == HeldBy(t) <==> HoldsDisk(pc, 0)) && (s.disk[1] == HeldBy(t) <==> HoldsDisk(pc, 1))
    && (s.writer == HeldBy(t) <==> Writes(pc)) && s.writing == s.writer.HeldBy?
    && (s.reader[0] == HeldBy(t) <==> ReadsSide(pc, 0)) && s.reading[0] == s.reader[0].HeldBy?
    && (s.reader[1] == HeldBy(t) <==> ReadsSide(pc, 1)) && s.reading[1] == s.reader[1].HeldBy?
  }

  /** A step that holds the same disks before and after, and leaves their locks alone. */
  lemma DisksStay(s: Pair, s': Pair, t: nat)
    requires Sized(s) && t < |s.threads| && Mine(s, t) && ShapeKept(s, s') && s'.disk == s.disk
    requires forall k: nat | k < 2 :: HoldsDisk(s'.threads[t].pc, k) == HoldsDisk(s.threads[t].pc, k)
    ensures MovedDisks(s, s', t)
  {
  }

  lemma TestDisks(s: Pair, t: nat)
    requires Sized(s) && t < |s.threads| && s.threads[t].pc.Test?
    ensures var s' := TestStep(s, t); ShapeKept(s, s') && s'.disk == s.disk && forall k: nat | k < 2 :: !HoldsDisk(s'.threads[t].pc, k)
  {
  }

  lemma DiskDisks(s: Pair, t: nat)
    requires Sized(s) && t < |s.threads| && IsDisk(s.threads[t].pc)
    ensures var s' := DiskStep(s, t); ShapeKept(s, s') && s'.disk == s.disk
    ensures forall k: nat | k < 2 :: HoldsDisk(DiskStep(s, t).threads[t].pc, k) == HoldsDisk(s.threads[t].pc, k)
  {
  }

  lemma MutexDisks(s: Pair, t: nat)
    requires Sized(s) && t < |s.threads| && IsMutex(s.threads[t].pc)
    ensures var s' := MutexStep(s, t); ShapeKept(s, s') && s'.disk == s.disk && forall k: nat | k < 2 :: !HoldsDisk(s'.threads[t].pc, k)
  {
  }

  lemma SleepDisks(s: Pair, t: nat)
    requires Sized(s) && t < |s.threads| && IsSleep(s.threads[t].pc)
    ensures var s' := SleepStep(s, t); ShapeKept(s, s') && s'.disk == s.disk && forall k: nat | k < 2 :: !HoldsDisk(s'.threads[t].pc, k)
  {
  }

  lemma TestMovesThreads(s: Pair, t: nat)
    requires Sized(s) && t < |s.threads| && s.threads[t].pc.Test?
    ensures MovedThreads(s, TestStep(s, t), t)
  {
  }

  /** The test lets the thread go, or sends it to sleep, or sends it home. */
  ghost predicate LetThrough(s: Pair, t: nat)
    requires Sized(s) && t < |s.threads|
  {
    var pc := TestStep(s, t).threads[t].pc;
    pc.ReadLock? || pc.PairLock?
  }

  lemma SentHomeMovesLocks(s: Pair, t: nat)
    requires Sized(s) && t < |s.threads| && Mine(s, t) && s.threads[t].pc.Test?
    ensures var s' := Go(s, t, Idle).(mutex := Free); ShapeKept(s, s') && MovedLocks(s, s', t)
  {
  }

  lemma DozingMovesLocks(s: Pair, t: nat)
    requires Sized(s) && t < |s.threads| && Mine(s, t) && s.threads[t].pc.Test?
    ensures ShapeKept(s, Go(s, t, Doze)) && MovedLocks(s, Go(s, t, Doze), t)
  {
  }

  lemma RefusedStep(s: Pair, t: nat)
    requires Sized(s) && t < |s.threads| && s.threads[t].pc.Test? && !LetThrough(s, t)
    ensures TestStep(s, t) == Go(s, t, Idle).(mutex := Free) || TestStep(s, t) == Go(s, t, Doze)
  {
  }

  lemma RefusedMovesLocks(s: Pair, t: nat)
    requires Sized(s) && t < |s.threads| && Mine(s, t) && s.threads[t].pc.Test? && !LetThrough(s, t)
    ensures ShapeKept(s, TestStep(s, t)) && MovedLocks(s, TestStep(s, t), t)
  {
    RefusedStep(s, t);
    SentHomeMovesLocks(s, t);
    DozingMovesLocks(s, t);
  }

  lemma ReaderMovesLocks(s: Pair, t: nat)
    requires Sized(s) && t < |s.threads| && Mine(s, t) && s.threads[t].pc.Test? && s.threads[t].job.ReadJob? && LetThrough(s, t)
    ensures ShapeKept(s, TestStep(s, t)) && MovedLocks(s, TestStep(s, t), t)
  {
    assert TestStep(s, t).threads[t].pc == ReadLock(FreeSide(s));
  }

  lemma WriterMovesLocks(s: Pair, t: nat)
    requires Sized(s) && t < |s.threads| && Mine(s, t) && s.threads[t].pc.Test? && !s.threads[t].job.ReadJob? && LetThrough(s, t)
    ensures ShapeKept(s, TestStep(s, t)) && MovedLocks(s, TestStep(s, t), t)
  {
    assert Writes(TestStep(s, t).threads[t].pc);
  }

  lemma TestMoves(s: Pair, t: nat)
    requires Sized(s) && Owns(s) && t < |s.threads| && s.threads[t].pc.Test?
    ensures Moved(s, TestStep(s, t), t)
  {
    OwnsAt(s, t);
    TestMovesThreads(s, t);
    TestDisks(s, t);
    DisksStay(s, TestStep(s, t), t);
    if !LetThrough(s, t) {
      RefusedMovesLocks(s, t);
    } else if s.threads[t].job.ReadJob? {
      ReaderMovesLocks(s, t);
    } else {
      WriterMovesLocks(s, t);
    }
  }

  lemma DiskMovesThreads(s: Pair, t: nat)
    requires Sized(s) && t < |s.threads| && IsDisk(s.threads[t].pc)
    ensures MovedThreads(s, DiskStep(s, t), t)
  {
  }

  lemma ReadMovesLocks(s: Pair, t: nat)
    requires Sized(s) && t < |s.threads| && Mine(s, t) && s.threads[t].pc.ReadDisk?
    ensures ShapeKept(s, DiskStep(s, t)) && MovedLocks(s, DiskStep(s, t), t)
  {
    assert DiskStep(s, t).threads[t].pc.ReadFree?;
  }

  lemma WriteMovesLocks(s: Pair, t: nat)
    requires Sized(s) && t < |s.threads| && Mine(s, t) && s.threads[t].pc.WriteDisk?
    ensures ShapeKept(s, DiskStep(s, t)) && MovedLocks(s, DiskStep(s, t), t)
  {
    assert Writes(DiskStep(s, t).threads[t].pc);
  }

  lemma CopyMovesLocks(s: Pair, t: nat)
    requires Sized(s) && t < |s.threads| && Mine(s, t) && (s.threads[t].pc.CopyRow? || s.threads[t].pc.CopyDone?)
    ensures ShapeKept(s, DiskStep(s, t)) && MovedLocks(s, DiskStep(s, t), t)
  {
  }

  lemma DiskMoves(s: Pair, t: nat)
    requires Sized(s) && Owns(s) && t < |s.threads| && IsDisk(s.threads[t].pc)
    ensures Moved(s, DiskStep(s, t), t)
  {
    OwnsAt(s, t);
    DiskMovesThreads(s, t);
    DiskDisks(s, t);
    DisksStay(s, DiskStep(s, t), t);
    if s.threads[t].pc.CopyRow? || s.threads[t].pc.CopyDone? {
      CopyMovesLocks(s, t);
    } else if s.threads[t].pc.ReadDisk? {
      ReadMovesLocks(s, t);
    } else {
      WriteMovesLocks(s, t);
    }
  }

  lemma LockMovesThreads(s: Pair, t: nat)
    requires Sized(s) && t < |s.threads| && IsLock(s.threads[t].pc)
    ensures MovedThreads(s, LockStep(s, t), t)
  {
  }

  /** The disks' locks have no part in mutex and the flags. */
  lemma LockMovesLocks(s: Pair, t: nat)
    requires Sized(s) && t < |s.threads| && Mine(s, t) && IsLock(s.threads[t].pc)
    ensures ShapeKept(s, LockStep(s, t)) && MovedLocks(s, LockStep(s, t), t)
  {
    LockSame(s, t);
    FlagsStay(s, LockStep(s, t), t);
  }

  lemma LockSame(s: Pair, t: nat)
    requires Sized(s) && t < |s.threads| && IsLock(s.threads[t].pc)
    ensures var s' := LockStep(s, t);
            && ShapeKept(s, s') && s'.mutex == s.mutex && s'.writer == s.writer && s'.writing == s.writing
            && s'.reader == s.reader && s'.reading == s.reading && SameFlags(s.threads[t].pc, s'.threads[t].pc)
  {
  }

  ghost predicate SameFlags(pc: Pc, pc': Pc)
  {
    && HoldsMutex(pc') == HoldsMutex(pc) && Writes(pc') == Writes(pc)
    && ReadsSide(pc', 0) == ReadsSide(pc, 0) && ReadsSide(pc', 1) == ReadsSide(pc, 1)
  }

  lemma FlagsStay(s: Pair, s': Pair, t: nat)
    requires Sized(s) && t < |s.threads| && Mine(s, t) && ShapeKept(s, s')
    requires s'.mutex == s.mutex && s'.writer == s.writer && s'.writing == s.writing
    requires s'.reader == s.reader && s'.reading == s.reading && SameFlags(s.threads[t].pc, s'.threads[t].pc)
    ensures MovedLocks(s, s', t)
  {
  }

  lemma TakeMovesDisk(s: Pair, t: nat)
    requires Sized(s) && t < |s.threads| && Mine(s, t) && Enabled(s, t) && s.threads[t].pc.ReadLock?
    ensures ShapeKept(s, LockStep(s, t)) && MovedDisks(s, LockStep(s, t), t)
  {
  }

  lemma TakeMovesDisks(s: Pair, t: nat)
    requires Sized(s) && t < |s.threads| && Mine(s, t) && Enabled(s, t) && IsLock(s.threads[t].pc) && WantsDisk(s.threads[t].pc) >= 0
    ensures ShapeKept(s, LockStep(s, t)) && MovedDisks(s, LockStep(s, t), t)
  {
    if s.threads[t].pc.ReadLock? { TakeMovesDisk(s, t); }
  }

  lemma GiveMovesDisk(s: Pair, t: nat)
    requires Sized(s) && t < |s.threads| && Mine(s, t) && s.threads[t].pc.ReadFree?
    ensures ShapeKept(s, LockStep(s, t)) && MovedDisks(s, LockStep(s, t), t)
  {
  }

  lemma GiveMovesDisks(s: Pair, t: nat)
    requires Sized(s) && t < |s.threads| && Mine(s, t) && IsLock(s.threads[t].pc) && WantsDisk(s.threads[t].pc) < 0
    ensures ShapeKept(s, LockStep(s, t)) && MovedDisks(s, LockStep(s, t), t)
  {
    if s.threads[t].pc.ReadFree? { GiveMovesDisk(s, t); }
  }

  lemma LockMoves(s: Pair, t: nat)
    requires Sized(s) && Owns(s) && t < |s.threads| && Enabled(s, t) && IsLock(s.threads[t].pc)
    ensures Moved(s, LockStep(s, t), t)
  {
    OwnsAt(s, t);
    LockMovesThreads(s, t);
    LockMovesLocks(s, t);
    if WantsDisk(s.threads[t].pc) >= 0 {
      TakeMovesDisks(s, t);
    } else {
      GiveMovesDisks(s, t);
    }
  }

  ghost predicate IsMutex(pc: Pc) { WantsMutex(pc) || pc.ReadClear? || pc.WriteClear? }

  lemma MutexMovesThreads(s: Pair, t: nat)
    requires Sized(s) && t < |s.threads| && IsMutex(s.threads[t].pc)
    ensures MovedThreads(s, MutexStep(s, t), t)
  {
  }

  lemma WantMovesLocks(s: Pair, t: nat)
    requires Sized(s) && t < |s.threads| && Mine(s, t) && Enabled(s, t) && WantsMutex(s.threads[t].pc)
    ensures ShapeKept(s, MutexStep(s, t)) && MovedLocks(s, MutexStep(s, t), t)
  {
    assert HoldsMutex(MutexStep(s, t).threads[t].pc);
  }

  lemma ClearMovesLocks(s: Pair, t: nat)
    requires Sized(s) && t < |s.threads| && Mine(s, t) && (s.threads[t].pc.ReadClear? || s.threads[t].pc.WriteClear?)
    ensures ShapeKept(s, MutexStep(s, t)) && MovedLocks(s, MutexStep(s, t), t)
  {
    assert MutexStep(s, t).threads[t].pc == Waking(0);
  }

  lemma MutexMoves(s: Pair, t: nat)
    requires Sized(s) && Owns(s) && t < |s.threads| && Enabled(s, t) && IsMutex(s.threads[t].pc)
    ensures Moved(s, MutexStep(s, t), t)
  {
    OwnsAt(s, t);
    MutexMovesThreads(s, t);
    MutexDisks(s, t);
    DisksStay(s, MutexStep(s, t), t);
    if WantsMutex(s.threads[t].pc) {
      WantMovesLocks(s, t);
    } else {
      ClearMovesLocks(s, t);
    }
  }

  lemma SleepMovesThreads(s: Pair, t: nat)
    requires Sized(s) && t < |s.threads| && IsSleep(s.threads[t].pc)
    ensures MovedThreads(s, SleepStep(s, t), t)
  {
  }

  lemma DropMovesLocks(s: Pair, t: nat)
    requires Sized(s) && t < |s.threads| && Mine(s, t) && s.threads[t].pc.DropMutex?
    ensures ShapeKept(s, SleepStep(s, t)) && MovedLocks(s, SleepStep(s, t), t)
  {
    assert SleepStep(s, t).threads[t].pc == Nod;
  }

  lemma DozeMovesLocks(s: Pair, t: nat)
    requires Sized(s) && t < |s.threads| && Mine(s, t) && (s.threads[t].pc.Doze? || s.threads[t].pc.Nod?)
    ensures ShapeKept(s, SleepStep(s, t)) && MovedLocks(s, SleepStep(s, t), t)
  {
    assert SleepStep(s, t).threads[t].pc == if s.threads[t].pc.Doze? then DropMutex else Asleep;
  }

  lemma WakingMovesLocks(s: Pair, t: nat)
    requires Sized(s) && t < |s.threads| && Mine(s, t) && s.threads[t].pc.Waking?
    ensures ShapeKept(s, SleepStep(s, t)) && MovedLocks(s, SleepStep(s, t), t)
  {
    var pc' := SleepStep(s, t).threads[t].pc;
    assert pc'.Idle? || pc'.Waking?;
  }

  lemma SleepMoves(s: Pair, t: nat)
    requires Sized(s) && Owns(s) && t < |s.threads| && IsSleep(s.threads[t].pc)
    ensures Moved(s, SleepStep(s, t), t)
  {
    OwnsAt(s, t);
    SleepMovesThreads(s, t);
    SleepDisks(s, t);
    DisksStay(s, SleepStep(s, t), t);
    if s.threads[t].pc.Waking? {
      WakingMovesLocks(s, t);
    } else if s.threads[t].pc.DropMutex? {
      DropMovesLocks(s, t);
    } else {
      DozeMovesLocks(s, t);
    }
  }

  // One step, as the data sees it.

  lemma WokenOk(s: Pair, th: Thread)
    requires Sized(s) && Proper(Rows(s), th) && th.pc.Asleep? && WriterOk(s, th)
    ensures Proper(Rows(s), th.(pc := Want)) && WriterOk(s, th.(pc := Want)) && ReaderOk(s, th.(pc := Want))
  {
  }

  ghost predicate SameData(s: Pair, s': Pair)
  {
    s'.media == s.media && s'.valid == s.valid && s'.last == s.last
  }

  lemma SameDataThread(s: Pair, s': Pair, th: Thread)
    requires Sized(s) && Sized(s') && SameData(s, s') && Proper(Rows(s), th) && WriterOk(s, th) && ReaderOk(s, th)
    ensures WriterOk(s', th) && ReaderOk(s', th)
  {
  }

  /** No write stops being under way. */
  lemma SameReplacing(s: Pair, s': Pair, t: nat)
    requires Sized(s) && Owns(s) && t < |s.threads| && Moved(s, s', t) && Sized(s') && Owns(s')
    requires s.threads[t].pc.WriteClear? ==> !s.threads[t].job.WriteJob?
    requires Writes(s.threads[t].pc) && !s.threads[t].pc.WriteClear? ==> Writes(s'.threads[t].pc)
    ensures Replacing(s) == -1 || Replacing(s') == Replacing(s)
  {
    OwnsAt(s, t);
    if s.writer.HeldBy? {
      OwnsAt(s, s.writer.t);
      if s.writer.t != t { assert SameOrWoken(s.threads[s.writer.t], s'.threads[s.writer.t]); }
    }
  }

  /** A step that leaves blocks, valid flags and last writes alone. */
  lemma DataSame(s: Pair, s': Pair, t: nat)
    requires Inv(s) && t < |s.threads| && Moved(s, s', t) && Sized(s') && Owns(s') && SameData(s, s')
    requires s.threads[t].pc.WriteClear? ==> !s.threads[t].job.WriteJob?
    requires Writes(s.threads[t].pc) && !s.threads[t].pc.WriteClear? ==> Writes(s'.threads[t].pc)
    requires WriterOk(s', s'.threads[t]) && ReaderOk(s', s'.threads[t])
    ensures DataOk(s')
  {
    SameReplacing(s, s', t);
    forall row | row in s'.last && row != Replacing(s') ensures Mirrored(s', row) {
      assert Mirrored(s, row);
    }
    forall u | 0 <= u < |s.threads| ensures WriterOk(s', s'.threads[u]) && ReaderOk(s', s'.threads[u]) {
      if u != t {
        assert SameOrWoken(s.threads[u], s'.threads[u]);
        if s'.threads[u] != s.threads[u] { WokenOk(s, s.threads[u]); }
        SameDataThread(s, s', s'.threads[u]);
      }
    }
  }

  /** While t writes, no other thread relies on the blocks. */
  lemma OthersIndifferent(s: Pair, s': Pair, t: nat, u: nat)
    requires Inv(s) && Sized(s') && t < |s.threads| && u < |s.threads| && u != t && Writes(s.threads[t].pc)
    requires Rows(s') == Rows(s)
    requires (s.valid[0] ==> s'.valid[0]) && (s.valid[1] ==> s'.valid[1])
    ensures WriterOk(s', s.threads[u]) && ReaderOk(s', s.threads[u])
  {
    OwnsAt(s, t);
    OwnsAt(s, u);
    assert WriterOk(s, s.threads[u]);
  }

  /** A step of the one writer: its own promises and the rows it leaves behind are all that matters. */
  lemma WriterData(s: Pair, s': Pair, t: nat)
    requires Inv(s) && Sized(s') && Owns(s') && Rows(s') == Rows(s) && t < |s.threads| && Writes(s.threads[t].pc)
    requires (s.valid[0] ==> s'.valid[0]) && (s.valid[1] ==> s'.valid[1])
    requires |s'.threads| == |s.threads| && forall u | 0 <= u < |s.threads| && u != t :: s'.threads[u] == s.threads[u]
    requires WriterOk(s', s'.threads[t]) && ReaderOk(s', s'.threads[t])
    requires forall row | row in s'.last && row != Replacing(s') :: Mirrored(s', row)
    ensures DataOk(s')
  {
    forall u | 0 <= u < |s.threads| ensures WriterOk(s', s'.threads[u]) && ReaderOk(s', s'.threads[u]) {
      if u != t { OthersIndifferent(s, s', t, u); }
    }
  }

  /** What a transfer of the writer leaves alone. */
  lemma TransferFrame(s: Pair, t: nat)
    requires Sized(s) && t < |s.threads| && (s.threads[t].pc.WriteDisk? || s.threads[t].pc.CopyRow? || s.threads[t].pc.CopyDone?)
    ensures var s' := DiskStep(s, t);
            && ShapeKept(s, s') && s'.last == s.last && s'.writer == s.writer && s'.threads[t].job == s.threads[t].job
            && (forall i | 0 <= i < 2 && s.valid[i] :: s'.valid[i])
            && (forall u | 0 <= u < |s.threads| && u != t :: s'.threads[u] == s.threads[u])
  {
  }

  lemma SameWriter(s: Pair, t: nat)
    requires Sized(s) && Owns(s) && t < |s.threads| && Writes(s.threads[t].pc)
    requires s.threads[t].pc.WriteDisk? || s.threads[t].pc.CopyRow? || s.threads[t].pc.CopyDone?
    requires Sized(DiskStep(s, t)) && Owns(DiskStep(s, t))
    ensures Replacing(s) == Replacing(DiskStep(s, t)) == if s.threads[t].job.WriteJob? then s.threads[t].job.row else -1
  {
    OwnsAt(s, t);
    TransferFrame(s, t);
  }

  lemma WriteDiskSelf(s: Pair, t: nat)
    requires Sized(s) && t < |s.threads| && s.threads[t].pc.WriteDisk? && WriterOk(s, s.threads[t]) && Sized(DiskStep(s, t))
    ensures var s' := DiskStep(s, t); WriterOk(s', s'.threads[t]) && ReaderOk(s', s'.threads[t])
  {
  }

  lemma WriteDiskMirrors(s: Pair, t: nat, row: nat)
    requires Sized(s) && t < |s.threads| && s.threads[t].pc.WriteDisk? && Mirrored(s, row) && row != s.threads[t].job.row
    requires Sized(DiskStep(s, t))
    ensures Mirrored(DiskStep(s, t), row)
  {
  }

  lemma WriteDiskData(s: Pair, t: nat)
    requires Inv(s) && t < |s.threads| && s.threads[t].pc.WriteDisk?
    requires Sized(DiskStep(s, t)) && Owns(DiskStep(s, t))
    ensures DataOk(DiskStep(s, t))
  {
    var s' := DiskStep(s, t);
    assert WriterOk(s, s.threads[t]);
    TransferFrame(s, t);
    SameWriter(s, t);
    WriteDiskSelf(s, t);
    forall row | row in s'.last && row != Replacing(s') ensures Mirrored(s', row) { WriteDiskMirrors(s, t, row); }
    WriterData(s, s', t);
  }

  lemma CopyRowSelf(s: Pair, t: nat)
    requires Sized(s) && t < |s.threads| && s.threads[t].pc.CopyRow? && WriterOk(s, s.threads[t]) && Sized(DiskStep(s, t))
    ensures var s' := DiskStep(s, t); WriterOk(s', s'.threads[t]) && ReaderOk(s', s'.threads[t])
  {
  }

  lemma CopyRowMirrors(s: Pair, t: nat, row: nat)
    requires Sized(s) && t < |s.threads| && s.threads[t].pc.CopyRow? && WriterOk(s, s.threads[t]) && Mirrored(s, row)
    requires Sized(DiskStep(s, t))
    ensures Mirrored(DiskStep(s, t), row)
  {
  }

  lemma CopyRowData(s: Pair, t: nat)
    requires Inv(s) && t < |s.threads| && s.threads[t].pc.CopyRow?
    requires Sized(DiskStep(s, t)) && Owns(DiskStep(s, t))
    ensures DataOk(DiskStep(s, t))
  {
    var s' := DiskStep(s, t);
    assert WriterOk(s, s.threads[t]);
    TransferFrame(s, t);
    SameWriter(s, t);
    CopyRowSelf(s, t);
    forall row | row in s'.last && row != Replacing(s') ensures Mirrored(s', row) { CopyRowMirrors(s, t, row); }
    WriterData(s, s', t);
  }

  lemma CopyDoneSelf(s: Pair, t: nat)
    requires Sized(s) && t < |s.threads| && s.threads[t].pc.CopyDone? && WriterOk(s, s.threads[t]) && Sized(DiskStep(s, t))
    ensures var s' := DiskStep(s, t); WriterOk(s', s'.threads[t]) && ReaderOk(s', s'.threads[t])
  {
  }

  /** The repaired side becomes valid only when every row has been copied to it. */
  lemma CopyDoneMirrors(s: Pair, t: nat, row: nat)
    requires Sized(s) && t < |s.threads| && s.threads[t].pc.CopyDone? && WriterOk(s, s.threads[t]) && Mirrored(s, row)
    requires Sized(DiskStep(s, t))
    ensures Mirrored(DiskStep(s, t), row)
  {
    if row in s.last && row < Rows(s) {
      var side := s.threads[t].job.side;
      assert s.media[side][row] == s.media[1 - side][row];
    }
  }

  lemma CopyDoneData(s: Pair, t: nat)
    requires Inv(s) && t < |s.threads| && s.threads[t].pc.CopyDone?
    requires Sized(DiskStep(s, t)) && Owns(DiskStep(s, t))
    ensures DataOk(DiskStep(s, t))
  {
    var s' := DiskStep(s, t);
    assert WriterOk(s, s.threads[t]);
    TransferFrame(s, t);
    SameWriter(s, t);
    CopyDoneSelf(s, t);
    forall row | row in s'.last && row != Replacing(s') ensures Mirrored(s', row) { CopyDoneMirrors(s, t, row); }
    WriterData(s, s', t);
  }

  lemma ReadDiskData(s: Pair, t: nat)
    requires Inv(s) && t < |s.threads| && s.threads[t].pc.ReadDisk?
    requires Moved(s, DiskStep(s, t), t) && Owns(DiskStep(s, t))
    ensures DataOk(DiskStep(s, t))
  {
    var th := s.threads[t];
    OwnsAt(s, t);
    assert ReaderOk(s, th);
    if th.job.row in s.last { assert Mirrored(s, th.job.row); }
    DataSame(s, DiskStep(s, t), t);
  }

  /** The write counts as completed when the writing flag is cleared. */
  lemma WriteClearData(s: Pair, t: nat)
    requires Inv(s) && t < |s.threads| && s.threads[t].pc.WriteClear? && s.threads[t].job.WriteJob?
    requires Moved(s, MutexStep(s, t), t) && Owns(MutexStep(s, t))
    ensures DataOk(MutexStep(s, t))
  {
    var s' := MutexStep(s, t);
    var th := s.threads[t];
    OwnsAt(s, t);
    assert WriterOk(s, th);
    forall row | row in s'.last && row != Replacing(s') ensures Mirrored(s', row) {
      if row != th.job.row { assert Mirrored(s, row); }
    }
    forall u | 0 <= u < |s.threads| ensures WriterOk(s', s'.threads[u]) && ReaderOk(s', s'.threads[u]) {
      if u != t { OthersIndifferent(s, s', t, u); }
    }
  }

  /** Where mutex, and a lock of a disk, take a thread. */
  ghost predicate Follows(th: Thread, pc': Pc)
  {
    match th.pc
    case Want => pc'.Test?
    case ReadWant(i, got) => pc' == ReadClear(i, got)
    case WriteWant => pc'.WriteClear?
    case ReadClear(_, _) => pc' == Waking(0)
    case WriteClear => pc' == Waking(0)
    case ReadLock(i) => pc' == ReadDisk(i)
    case ReadFree(i, got) => pc' == ReadWant(i, got)
    case PairLock(k) => pc' == if k == 0 then PairLock(1) else if th.job.WriteJob? then WriteDisk(0) else CopyRow(0)
    case PairFree(k) => pc' == if k == 0 then PairFree(1) else if th.job.WriteJob? then WriteWant else CopyDone
    case _ => pc'.Idle? || IsMeta(pc')
  }

  /** Thread t has gone on without touching any data. */
  ghost predicate Followed(s: Pair, s': Pair, t: nat)
    requires t < |s.threads|
  {
    && |s'.threads| == |s.threads| && SameData(s, s')
    && s'.threads[t].job == s.threads[t].job && Follows(s.threads[t], s'.threads[t].pc)
  }

  lemma FollowsOk(s: Pair, th: Thread, pc': Pc)
    requires Sized(s) && Proper(Rows(s), th) && Proper(Rows(s), th.(pc := pc')) && WriterOk(s, th) && ReaderOk(s, th)
    requires Follows(th, pc') && (IsMutex(th.pc) || IsLock(th.pc))
    ensures WriterOk(s, th.(pc := pc')) && ReaderOk(s, th.(pc := pc'))
  {
  }

  lemma FollowedSelf(s: Pair, s': Pair, t: nat)
    requires Sized(s) && Sized(s') && t < |s.threads| && Followed(s, s', t) && (IsMutex(s.threads[t].pc) || IsLock(s.threads[t].pc))
    requires WriterOk(s, s.threads[t]) && ReaderOk(s, s.threads[t])
    ensures WriterOk(s', s'.threads[t]) && ReaderOk(s', s'.threads[t])
  {
    FollowsOk(s, s.threads[t], s'.threads[t].pc);
    SameDataThread(s, s', s'.threads[t]);
  }

  lemma MutexGoes(s: Pair, t: nat)
    requires Sized(s) && t < |s.threads| && IsMutex(s.threads[t].pc)
    requires s.threads[t].pc.WriteClear? ==> !s.threads[t].job.WriteJob?
    ensures Followed(s, MutexStep(s, t), t)
  {
  }

  lemma LockGoes(s: Pair, t: nat)
    requires Sized(s) && t < |s.threads| && IsLock(s.threads[t].pc)
    ensures Followed(s, LockStep(s, t), t)
  {
  }

  lemma MutexWrites(s: Pair, t: nat)
    requires Sized(s) && t < |s.threads| && IsMutex(s.threads[t].pc)
    ensures Writes(s.threads[t].pc) && !s.threads[t].pc.WriteClear? ==> Writes(MutexStep(s, t).threads[t].pc)
  {
  }

  lemma MutexData(s: Pair, t: nat)
    requires Inv(s) && t < |s.threads| && Enabled(s, t)
    requires IsMutex(s.threads[t].pc)
    requires Moved(s, MutexStep(s, t), t) && Sized(MutexStep(s, t)) && Owns(MutexStep(s, t))
    ensures DataOk(MutexStep(s, t))
  {
    assert WriterOk(s, s.threads[t]) && ReaderOk(s, s.threads[t]);
    if s.threads[t].pc.WriteClear? && s.threads[t].job.WriteJob? {
      WriteClearData(s, t);
    } else {
      MutexGoes(s, t);
      FollowedSelf(s, MutexStep(s, t), t);
      MutexWrites(s, t);
      DataSame(s, MutexStep(s, t), t);
    }
  }

  // One step, as sleepers see it.

  /** A waker stays on its way as long as it does not itself step. */
  lemma WakersStay(s: Pair, s': Pair, t: nat)
    requires Sized(s) && Sized(s') && NoneForgotten(s) && t < |s.threads| == |s'.threads|
    requires (Busy(s) ==> Busy(s')) && !s.threads[t].pc.Waking?
    requires forall u | 0 <= u < |s.threads| && u != t :: s'.threads[u] == s.threads[u]
    requires var pc' := s'.threads[t].pc;
             pc'.Doze? || pc'.DropMutex? || pc'.Asleep? || pc'.Nod? ==>
               Busy(s') || (s.threads[t].pc.Nod? && pc'.Asleep?)
    ensures NoneForgotten(s')
  {
    forall u | 0 <= u < |s.threads| && (s'.threads[u].pc.Nod? || s'.threads[u].pc.Asleep?) && !Busy(s')
      ensures exists w: nat :: WillWake(s', w, u)
    {
      var w: nat :| WillWake(s, w, u);
      assert WillWake(s', w, u);
    }
  }

  lemma ClearStarts(s: Pair, t: nat)
    requires Sized(s) && t < |s.threads| && (s.threads[t].pc.ReadClear? || s.threads[t].pc.WriteClear?)
    ensures MutexStep(s, t).threads == s.threads[t := s.threads[t].(pc := Waking(0))]
  {
  }

  /** Whoever clears a flag is at once on the way to wake every sleeper. */
  lemma ClearWakes(s: Pair, t: nat)
    requires Inv(s) && t < |s.threads| && (s.threads[t].pc.ReadClear? || s.threads[t].pc.WriteClear?)
    requires Sized(MutexStep(s, t))
    ensures NoneForgotten(MutexStep(s, t))
  {
    var s' := MutexStep(s, t);
    ClearStarts(s, t);
    OwnsAt(s, t);
    forall u | 0 <= u < |s.threads| ensures !s'.threads[u].pc.Doze? && !s'.threads[u].pc.DropMutex? {
      OwnsAt(s, u);
    }
    forall u | 0 <= u < |s.threads| && (s'.threads[u].pc.Nod? || s'.threads[u].pc.Asleep?)
      ensures exists w: nat :: WillWake(s', w, u)
    {
      assert WillWake(s', t, u);
    }
  }

  /** Looking at process k wakes it if it sleeps, and leaves the rest of the walk to do. */
  lemma WakingForgetsNone(s: Pair, t: nat)
    requires Sized(s) && NoneForgotten(s) && t < |s.threads| && s.threads[t].pc.Waking? && Enabled(s, t)
    requires Sized(SleepStep(s, t))
    ensures NoneForgotten(SleepStep(s, t))
  {
    var s' := SleepStep(s, t);
    var k := s.threads[t].pc.k;
    forall u | 0 <= u < |s.threads| && (s'.threads[u].pc.Nod? || s'.threads[u].pc.Asleep?) && !Busy(s')
      ensures exists w: nat :: WillWake(s', w, u)
    {
      assert u != t && s'.threads[u] == s.threads[u];
      var w: nat :| WillWake(s, w, u);
      if w == t {
        assert u != k;
        assert WillWake(s', t, u);
      } else {
        assert WillWake(s', w, u);
      }
    }
  }

  // Every step.

  /** A thread that has not begun to transfer, or has nothing more to transfer, promises little. */
  lemma IdlyOk(s: Pair, th: Thread)
    requires Sized(s) && Proper(Rows(s), th)
    requires th.pc.Idle? || th.pc.Doze? || th.pc.DropMutex? || th.pc.Nod? || th.pc.Asleep? || th.pc.Waking? || th.pc.PairLock? || th.pc.ReadLock?
    requires th.job.RepairJob? && !th.pc.Idle? && !th.pc.Waking? ==> s.valid[1 - th.job.side]
    requires th.job.RepairJob? && th.pc.Waking? ==> s.valid[th.job.side]
    requires th.job.WriteJob? && th.pc.PairLock? ==> s.valid[0] || s.valid[1]
    requires th.pc.ReadLock? ==> s.valid[th.pc.i]
    ensures WriterOk(s, th) && ReaderOk(s, th)
  {
  }

  /** What a test of the gate leads to. */
  ghost predicate GoesOn(s: Pair, s': Pair, t: nat)
    requires Sized(s) && t < |s.threads| == |s'.threads|
  {
    var pc' := s'.threads[t].pc;
    && SameData(s, s') && s'.threads[t].job == s.threads[t].job
    && (pc'.PairLock? && s.threads[t].job.WriteJob? ==> s.valid[0] || s.valid[1])
    && (pc'.Idle? || pc'.Doze? || pc'.PairLock? || (pc'.ReadLock? && pc'.i < 2 && s.valid[pc'.i]))
  }

  lemma ReadGoes(s: Pair, t: nat)
    requires Sized(s) && t < |s.threads| && s.threads[t].pc.Test? && s.threads[t].job.ReadJob?
    ensures |TestStep(s, t).threads| == |s.threads| && GoesOn(s, TestStep(s, t), t)
  {
  }

  lemma TestGoes(s: Pair, t: nat)
    requires Sized(s) && t < |s.threads| && s.threads[t].pc.Test?
    ensures |TestStep(s, t).threads| == |s.threads| && GoesOn(s, TestStep(s, t), t)
  {
    if s.threads[t].job.ReadJob? {
      ReadGoes(s, t);
    }
  }

  lemma TestSelf(s: Pair, t: nat)
    requires Sized(s) && t < |s.threads| && s.threads[t].pc.Test? && WriterOk(s, s.threads[t])
    requires Sized(TestStep(s, t)) && Rows(TestStep(s, t)) == Rows(s)
    ensures var s' := TestStep(s, t);
            |s'.threads| == |s.threads| && SameData(s, s') && WriterOk(s', s'.threads[t]) && ReaderOk(s', s'.threads[t])
  {
    TestGoes(s, t);
    IdlyOk(TestStep(s, t), TestStep(s, t).threads[t]);
  }

  lemma SleepGoes(s: Pair, t: nat)
    requires Sized(s) && t < |s.threads| && IsSleep(s.threads[t].pc)
    ensures var (s', pc') := (SleepStep(s, t), SleepStep(s, t).threads[t].pc);
            && |s'.threads| == |s.threads| && SameData(s, s') && s'.threads[t].job == s.threads[t].job
            && (pc'.DropMutex? || pc'.Nod? || pc'.Asleep? || ((pc'.Idle? || pc'.Waking?) && s.threads[t].pc.Waking?))
  {
  }

  lemma SleepSelf(s: Pair, t: nat)
    requires Sized(s) && t < |s.threads| && IsSleep(s.threads[t].pc) && WriterOk(s, s.threads[t])
    requires Sized(SleepStep(s, t)) && Rows(SleepStep(s, t)) == Rows(s)
    ensures var s' := SleepStep(s, t);
            |s'.threads| == |s.threads| && SameData(s, s') && WriterOk(s', s'.threads[t]) && ReaderOk(s', s'.threads[t])
  {
    SleepGoes(s, t);
    IdlyOk(SleepStep(s, t), SleepStep(s, t).threads[t]);
  }

  lemma LockKeeps(s: Pair, t: nat)
    requires Inv(s) && t < |s.threads| && Enabled(s, t) && IsLock(s.threads[t].pc)
    ensures Inv(LockStep(s, t))
  {
    LockMoves(s, t);
    MovedOwns(s, LockStep(s, t), t);
    assert WriterOk(s, s.threads[t]) && ReaderOk(s, s.threads[t]);
    LockGoes(s, t);
    FollowedSelf(s, LockStep(s, t), t);
    DataSame(s, LockStep(s, t), t);
    LockForgetsNone(s, t);
  }

  lemma TestKeeps(s: Pair, t: nat)
    requires Inv(s) && t < |s.threads| && s.threads[t].pc.Test?
    ensures Inv(TestStep(s, t))
  {
    TestMoves(s, t);
    MovedOwns(s, TestStep(s, t), t);
    assert WriterOk(s, s.threads[t]);
    TestSelf(s, t);
    DataSame(s, TestStep(s, t), t);
    TestForgetsNone(s, t);
  }

  lemma TestForgetsNone(s: Pair, t: nat)
    requires Sized(s) && NoneForgotten(s) && t < |s.threads| && s.threads[t].pc.Test? && Sized(TestStep(s, t))
    ensures NoneForgotten(TestStep(s, t))
  {
    WakersStay(s, TestStep(s, t), t);
  }

  lemma LockForgetsNone(s: Pair, t: nat)
    requires Sized(s) && NoneForgotten(s) && t < |s.threads| && IsLock(s.threads[t].pc) && Sized(LockStep(s, t))
    ensures NoneForgotten(LockStep(s, t))
  {
    WakersStay(s, LockStep(s, t), t);
  }

  lemma DiskForgetsNone(s: Pair, t: nat)
    requires Sized(s) && NoneForgotten(s) && t < |s.threads| && IsDisk(s.threads[t].pc) && Sized(DiskStep(s, t))
    ensures NoneForgotten(DiskStep(s, t))
  {
    WakersStay(s, DiskStep(s, t), t);
  }

  lemma DiskKeeps(s: Pair, t: nat)
    requires Inv(s) && t < |s.threads| && IsDisk(s.threads[t].pc)
    ensures Inv(DiskStep(s, t))
  {
    DiskMoves(s, t);
    MovedOwns(s, DiskStep(s, t), t);
    match s.threads[t].pc {
      case ReadDisk(_) => ReadDiskData(s, t);
      case WriteDisk(_) => WriteDiskData(s, t);
      case CopyRow(_) => CopyRowData(s, t);
      case CopyDone => CopyDoneData(s, t);
    }
    DiskForgetsNone(s, t);
  }

  lemma MutexKeeps(s: Pair, t: nat)
    requires Inv(s) && t < |s.threads| && Enabled(s, t)
    requires IsMutex(s.threads[t].pc)
    ensures Inv(MutexStep(s, t))
  {
    MutexMoves(s, t);
    MovedOwns(s, MutexStep(s, t), t);
    MutexData(s, t);
    if s.threads[t].pc.ReadClear? || s.threads[t].pc.WriteClear? {
      ClearWakes(s, t);
    } else {
      WakersStay(s, MutexStep(s, t), t);
    }
  }

  lemma SleepKeeps(s: Pair, t: nat)
    requires Inv(s) && t < |s.threads| && IsSleep(s.threads[t].pc) && Enabled(s, t)
    ensures Inv(SleepStep(s, t))
  {
    SleepMoves(s, t);
    MovedOwns(s, SleepStep(s, t), t);
    assert WriterOk(s, s.threads[t]);
    SleepSelf(s, t);
    DataSame(s, SleepStep(s, t), t);
    if s.threads[t].pc.Waking? {
      WakingForgetsNone(s, t);
    } else {
      WakersStay(s, SleepStep(s, t), t);
    }
  }

  lemma StepKeeps(s: Pair, t: nat)
    requires Inv(s) && t < |s.threads| && Enabled(s, t)
    ensures Inv(Step(s, t))
  {
    var pc := s.threads[t].pc;
    if pc.Test? {
      TestKeeps(s, t);
    } else if IsDisk(pc) {
      DiskKeeps(s, t);
    } else if IsLock(pc) {
      LockKeeps(s, t);
    } else if IsSleep(pc) {
      SleepKeeps(s, t);
    } else {
      MutexKeeps(s, t);
    }
  }

  // The other events.

  /** A thread that holds nothing may be given a call, or be woken. */
  lemma SwapKeeps(s: Pair, t: nat, th: Thread)
    requires Inv(s) && t < |s.threads| && (s.threads[t].pc.Idle? || s.threads[t].pc.Asleep?)
    requires (th.pc.Want? || th.pc == MetaLock(0)) && Proper(Rows(s), th) && WriterOk(s, th)
    ensures Inv(s.(threads := s.threads[t := th]))
  {
    SwapOwns(s, t, th);
    SwapData(s, t, th);
    WakersStay(s, s.(threads := s.threads[t := th]), t);
  }

  lemma SwapFlags(threads: seq<Thread>, t: nat, th: Thread)
    requires t < |threads| && (threads[t].pc.Idle? || threads[t].pc.Asleep?) && (th.pc.Want? || th.pc == MetaLock(0))
    ensures var next := threads[t := th];
            && MutexFlags(next) == MutexFlags(threads) && WriteFlags(next) == WriteFlags(threads)
            && DiskFlags(next, 0) == DiskFlags(threads, 0) && DiskFlags(next, 1) == DiskFlags(threads, 1)
            && ReadFlags(next, 0) == ReadFlags(threads, 0) && ReadFlags(next, 1) == ReadFlags(threads, 1)
  {
  }

  lemma SwapOwns(s: Pair, t: nat, th: Thread)
    requires Sized(s) && Owns(s) && t < |s.threads| && (s.threads[t].pc.Idle? || s.threads[t].pc.Asleep?)
    requires (th.pc.Want? || th.pc == MetaLock(0)) && Proper(Rows(s), th)
    ensures Sized(s.(threads := s.threads[t := th])) && Owns(s.(threads := s.threads[t := th]))
  {
    SwapFlags(s.threads, t, th);
  }

  lemma SwapData(s: Pair, t: nat, th: Thread)
    requires Inv(s) && t < |s.threads| && (s.threads[t].pc.Idle? || s.threads[t].pc.Asleep?)
    requires (th.pc.Want? || th.pc == MetaLock(0)) && Proper(Rows(s), th) && WriterOk(s, th)
    requires Sized(s.(threads := s.threads[t := th])) && Owns(s.(threads := s.threads[t := th]))
    ensures DataOk(s.(threads := s.threads[t := th]))
  {
    var s' := s.(threads := s.threads[t := th]);
    if s.writer.HeldBy? { OwnsAt(s, s.writer.t); }
    forall row | row in s'.last && row != Replacing(s') ensures Mirrored(s', row) { assert Mirrored(s, row); }
    forall u | 0 <= u < |s.threads| ensures WriterOk(s', s'.threads[u]) && ReaderOk(s', s'.threads[u]) {
      if u != t { SameDataThread(s, s', s.threads[u]); } else { SameDataThread(s, s', th); }
    }
  }

  lemma StartKeeps(s: Pair, t: nat, job: Job)
    requires Inv(s) && CanHappen(s, Start(t, job))
    ensures Inv(Happen(s, Start(t, job)))
  {
    SwapKeeps(s, t, Thread(job, if job.MetaJob? then MetaLock(0) else Want));
  }

  lemma SpuriousKeeps(s: Pair, t: nat)
    requires Inv(s) && CanHappen(s, Spurious(t))
    ensures Inv(Happen(s, Spurious(t)))
  {
    assert WriterOk(s, s.threads[t]);
    WokenOk(s, s.threads[t]);
    SwapKeeps(s, t, s.threads[t].(pc := Want));
  }

  lemma FailsKeeps(s: Pair, side: nat, junk: seq<Content>)
    requires Inv(s) && CanHappen(s, Fails(side, junk))
    ensures Inv(Happen(s, Fails(side, junk)))
  {
    var s' := Happen(s, Fails(side, junk));
    if s.writer.HeldBy? { OwnsAt(s, s.writer.t); }
    forall row | row in s'.last && row != Replacing(s') ensures Mirrored(s', row) { assert Mirrored(s, row); }
  }

  lemma EventKeeps(s: Pair, e: Event)
    requires Inv(s) && CanHappen(s, e)
    ensures Inv(Happen(s, e))
  {
    match e
    case Start(t, job) => StartKeeps(s, t, job);
    case StepOf(t) => StepKeeps(s, t);
    case Spurious(t) => SpuriousKeeps(s, t);
    case Fails(side, junk) => FailsKeeps(s, side, junk);
  }

  lemma InitialInv(s: Pair)
    requires Initial(s)
    ensures Inv(s)
  {
  }

  lemma {:induction false} ReachableInv(s: Pair, events: seq<Event>, s': Pair)
    requires Inv(s) && Reaches(s, events, s')
    ensures Inv(s')
    decreases |events|
  {
    if events != [] {
      EventKeeps(s, events[0]);
      ReachableInv(Happen(s, events[0]), events[1..], s');
    }
  }

  // What every run of the pair guarantees.

  /** One writer or repairer at most, one reader per side at most, and no reader beside a writer. */
  lemma Exclusion(s0: Pair, events: seq<Event>, s: Pair, t: nat, u: nat)
    requires Initial(s0) && Reaches(s0, events, s) && t < |s.threads| && u < |s.threads|
    ensures Writes(s.threads[t].pc) && Writes(s.threads[u].pc) ==> t == u
    ensures forall i: nat | i < 2 && ReadsSide(s.threads[t].pc, i) ::
              !Writes(s.threads[u].pc) && (ReadsSide(s.threads[u].pc, i) ==> t == u)
    ensures Sized(s) && (Writes(s.threads[t].pc) ==> s.writing)
  {
    InitialInv(s0);
    ReachableInv(s0, events, s);
    OwnsAt(s, t);
    OwnsAt(s, u);
  }

  /** What a read brings back is the last completed write of its row. */
  lemma ReadsGiveLastWrite(s0: Pair, events: seq<Event>, s: Pair, t: nat)
    requires Initial(s0) && Reaches(s0, events, s) && t < |s.threads|
    requires s.threads[t].job.ReadJob? && (s.threads[t].pc.ReadFree? || s.threads[t].pc.ReadWant? || s.threads[t].pc.ReadClear?)
    requires s.threads[t].job.row in s.last
    ensures s.threads[t].pc.got == s.last[s.threads[t].job.row]
  {
    InitialInv(s0);
    ReachableInv(s0, events, s);
    assert ReaderOk(s, s.threads[t]);
  }

  /** With nobody writing, two valid sides agree on every row written since the pair was set up. */
  lemma SidesAgreeWhenIdle(s0: Pair, events: seq<Event>, s: Pair, row: nat)
    requires Initial(s0) && Reaches(s0, events, s) && row in s.last
    ensures Sized(s)
    ensures !s.writing && row < Rows(s) ==> forall i | 0 <= i < 2 && s.valid[i] :: s.media[i][row] == s.last[row]
  {
    InitialInv(s0);
    ReachableInv(s0, events, s);
    if !s.writing && row < Rows(s) { assert Mirrored(s, row); }
  }

  /** Whoever is asleep on the pair's mutex sleeps because it is in use, or is about to be woken. */
  lemma NoLostWakeup(s0: Pair, events: seq<Event>, s: Pair, t: nat)
    requires Initial(s0) && Reaches(s0, events, s) && t < |s.threads| && s.threads[t].pc.Asleep?
    ensures Sized(s) && (Busy(s) || exists w: nat :: WillWake(s, w, t))
  {
    InitialInv(s0);
    ReachableInv(s0, events, s);
  }

  /** One thread at a time transfers blocks to or from a disk, writeraidmeta included. */
  lemma DiskExclusion(s0: Pair, events: seq<Event>, s: Pair, t: nat, u: nat, k: nat)
    requires Initial(s0) && Reaches(s0, events, s) && t < |s.threads| && u < |s.threads| && k < 2
    ensures HoldsDisk(s.threads[t].pc, k) && HoldsDisk(s.threads[u].pc, k) ==> t == u
    ensures s.threads[t].pc.ReadDisk? && s.threads[t].pc.i == k ==> HoldsDisk(s.threads[t].pc, k)
    ensures s.threads[t].pc.WriteDisk? || s.threads[t].pc.CopyRow? || s.threads[t].pc.MetaWork? ==> HoldsDisk(s.threads[t].pc, k)
  {
    InitialInv(s0);
    ReachableInv(s0, events, s);
    OwnsAt(s, t);
    OwnsAt(s, u);
  }

  /** Whoever waits for a disk's lock waits for someone who can step: locks are taken in order. */
  lemma DiskHolderMoves(s: Pair, k: nat) returns (u: nat)
    requires Inv(s) && k < 2 && s.disk[k].HeldBy?
    ensures u < |s.threads| && Enabled(s, u)
  {
    u := s.disk[k].t;
    OwnsAt(s, u);
    if WantsDisk(s.threads[u].pc) >= 0 && s.disk[1].HeldBy? {
      u := s.disk[1].t;
      OwnsAt(s, u);
    }
  }

  /** Whoever is awake can step unless it waits for one who can. */
  lemma HolderMoves(s: Pair, t: nat) returns (u: nat)
    requires Inv(s) && t < |s.threads| && !s.threads[t].pc.Idle? && !s.threads[t].pc.Asleep?
    ensures u < |s.threads| && Enabled(s, u)
  {
    u := t;
    if WantsMutex(s.threads[t].pc) && s.mutex.HeldBy? {
      u := s.mutex.t;
      OwnsAt(s, u);
    } else if WantsDisk(s.threads[t].pc) >= 0 && s.disk[WantsDisk(s.threads[t].pc)].HeldBy? {
      u := DiskHolderMoves(s, WantsDisk(s.threads[t].pc));
    } else if s.threads[t].pc.Waking? && s.threads[t].pc.k < |s.threads| && s.threads[t].pc.k != t {
      var k := s.threads[t].pc.k;
      if s.threads[k].pc.DropMutex? || s.threads[k].pc.Nod? { u := k; }
    }
  }

  /** In every reachable state with a call unfinished, some thread can take a step. */
  lemma NoDeadlock(s0: Pair, events: seq<Event>, s: Pair, t: nat)
    requires Initial(s0) && Reaches(s0, events, s) && t < |s.threads| && !s.threads[t].pc.Idle?
    ensures Sized(s) && exists u: nat :: u < |s.threads| && Enabled(s, u)
  {
    InitialInv(s0);
    ReachableInv(s0, events, s);
    var awake := t;
    if s.threads[t].pc.Asleep? {
      if s.writing {
        awake := s.writer.t;
        OwnsAt(s, awake);
      } else if s.reading[0] {
        awake := s.reader[0].t;
        OwnsAt(s, awake);
      } else if s.reading[1] {
        awake := s.reader[1].t;
        OwnsAt(s, awake);
      } else {
        awake :| WillWake(s, awake, t);
      }
    }
    var u := HolderMoves(s, awake);
  }
}
