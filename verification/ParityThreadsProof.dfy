/** What holds in every interleaving of RAID4 and RAID5 calls. */
module ParityThreadsProof {
  import opened Blocks
  import opened Layouts
  import opened ParityArray
  import opened ParityRuns
  import opened ParityThreads

  // Counting.

  ghost function Count(flags: seq<bool>): (n: nat)
  {
    if flags == [] then 0 else Count(flags[..|flags| - 1]) + Bit(flags[|flags| - 1])
  }

  ghost function Bit(b: bool): nat { if b then 1 else 0 }

  lemma {:induction false} CountUpdate(flags: seq<bool>, t: nat, b: bool)
    requires t < |flags|
    ensures Count(flags[t := b]) == Count(flags) - Bit(flags[t]) + Bit(b)
  {
    var n := |flags| - 1;
    if t == n {
      assert flags[t := b][..n] == flags[..n];
    } else {
      assert flags[t := b][..n] == flags[..n][t := b];
      CountUpdate(flags[..n], t, b);
    }
  }

  lemma {:induction false} CountZero(flags: seq<bool>)
    ensures Count(flags) == 0 <==> forall i | 0 <= i < |flags| :: !flags[i]
  {
    if flags != [] {
      var n := |flags| - 1;
      CountZero(flags[..n]);
      assert forall i | 0 <= i < n :: flags[..n][i] == flags[i];
    }
  }

  ghost function WriteFlags(threads: seq<Thread>): (f: seq<bool>)
    ensures |f| == |threads|
  {
    seq(|threads|, i requires 0 <= i < |threads| => InWrite(threads[i]))
  }

  ghost function RepairFlags(threads: seq<Thread>): (f: seq<bool>)
    ensures |f| == |threads|
  {
    seq(|threads|, i requires 0 <= i < |threads| => InRepair(threads[i]))
  }

  // The invariant.

  ghost predicate OwnsDisks(g: Geometry, s: Sys)
    requires Sized(g, s)
  {
    && (forall k, t | 0 <= k < g.disks && 0 <= t < |s.threads| ::
          s.disk[k] == HeldBy(t) <==> HoldsDisk(g, s.threads[t], k))
    && (forall k | 0 <= k < g.disks && s.disk[k].HeldBy? :: s.disk[k].t < |s.threads|)
  }

  ghost predicate OwnsCluster(s: Sys)
  {
    && (forall t | 0 <= t < |s.threads| :: s.cluster == HeldBy(t) <==> HoldsCluster(s.threads[t]))
    && (s.cluster.HeldBy? ==> s.cluster.t < |s.threads|)
  }

  ghost predicate Counted(s: Sys)
  {
    && s.writecount == Count(WriteFlags(s.threads))
    && s.repairing == Count(RepairFlags(s.threads))
  }

  /** No write is under way while a repair is past its gate. */
  ghost predicate Gated(s: Sys)
  {
    forall t, u | 0 <= t < |s.threads| && 0 <= u < |s.threads| :: PastGate(s.threads[t]) ==> !InWrite(s.threads[u])
  }

  /** Whoever sleeps at the gate has a reason to. */
  ghost predicate SleepsForCause(s: Sys)
  {
    forall t | 0 <= t < |s.threads| && s.threads[t].pc.Asleep? ::
      && (s.threads[t].job.WriteJob? ==> s.repairing > 0)
      && (s.threads[t].job.RepairJob? ==> s.writecount > 0)
  }

  ghost predicate InLoad(pc: Pc)
  {
    pc.LoadingRow? || pc.MarkLoaded? || (pc.Take? && pc.why.Load?)
  }

  ghost predicate BeforeLoad(pc: Pc)
  {
    pc.Idle? || pc.Enter? || pc.Asleep? || pc.WantCluster? || pc.HaveCluster? || InLoad(pc)
  }

  ghost predicate InRecon(pc: Pc)
  {
    pc.ReconWork? || ((pc.Take? || pc.Give?) && pc.why.Recon?)
  }

  ghost predicate InSingle(pc: Pc) { pc.One? || pc.OneHeld? || pc.OneDone? }

  ghost predicate InPair(pc: Pc)
  {
    pc.First? || pc.Second? || pc.GotBoth? || pc.GotPrev? || pc.GotParity? || pc.DataPut? || pc.BothPut? || pc.OneLeft?
  }

  /** Rows from lo up to hi of the completed media cancel out, the metadata row aside. */
  ghost predicate CancelsIn(g: Geometry, whole: seq<seq<Block>>, lo: nat, hi: nat)
    requires Sane(g)
  {
    forall q | lo <= q < hi && q < |whole| && q < DiskBlocks(g) :: XorAll(whole[q]) == Zero()
  }

  /** Covered rows up to hi of the completed media cancel out. */
  ghost predicate RebuiltTo(g: Geometry, a: Array, whole: seq<seq<Block>>, hi: nat)
    requires ParityGeometry(g) && Shaped(g, a) && |whole| == g.rows
  {
    forall q | Covered(g, a, q) && q < hi :: XorAll(whole[q]) == Zero()
  }

  /** The flags a write has tested stay as it found them for as long as it relies on them. */
  ghost predicate WriterFlags(g: Geometry, valid: seq<bool>, loaded: seq<bool>, th: Thread)
    requires Proper(g, th) && th.job.WriteJob?
    requires |valid| == g.disks && |loaded| == g.rows / CLUSTER_SIZE
  {
    var (d, p, row) := (DataDisk(g, th), ParityOf(g, th), RowOf(g, th));
    ClusterInRange(g, row);
    && (!th.pc.Idle? ==> valid[d] || OthersValid(valid, d))
    && (InLoad(th.pc) ==> !loaded[Cluster(row)])
    && (!BeforeLoad(th.pc) ==> loaded[Cluster(row)])
    && (InRecon(th.pc) ==> !valid[d])
    && (InSingle(th.pc) ==> valid[d] && !valid[p])
    && (InPair(th.pc) ==> valid[d] && valid[p])
  }

  /** The rows a loader has been through have exact parity if no disk is missing. */
  ghost predicate WriterLoad(g: Geometry, a: Array, whole: seq<seq<Block>>, th: Thread)
    requires Proper(g, th) && th.job.WriteJob?
  {
    var c := Cluster(RowOf(g, th));
    && (th.pc.LoadingRow? ==> Cluster(th.pc.row) == c)
    && (th.pc.LoadingRow? && AllValid(a.valid) ==> CancelsIn(g, whole, c * CLUSTER_SIZE, th.pc.row))
    && (th.pc.MarkLoaded? && AllValid(a.valid) ==> CancelsIn(g, whole, c * CLUSTER_SIZE, (c + 1) * CLUSTER_SIZE))
  }

  /** What a read-modify-write has in its buffers still matches the blocks it read. */
  ghost predicate WriterRmw(g: Geometry, a: Array, whole: seq<seq<Block>>, th: Thread)
    requires Shaped(g, a) && Shaped(g, a.(media := whole)) && Proper(g, th) && th.job.WriteJob?
  {
    var (d, p, row) := (DataDisk(g, th), ParityOf(g, th), RowOf(g, th));
    && (th.pc.GotPrev? ==> th.pc.prev == a.media[row][d])
    && (th.pc.GotParity? ==> th.pc.par == Shifted(a.media[row][p], a.media[row][d], th.job.data))
    && (th.pc.DataPut? ==> th.pc.par == whole[row][p])
  }

  ghost predicate WriterOk(g: Geometry, a: Array, whole: seq<seq<Block>>, th: Thread)
    requires Shaped(g, a) && Shaped(g, a.(media := whole)) && Proper(g, th) && th.job.WriteJob?
  {
    WriterFlags(g, a.valid, a.loaded, th) && WriterLoad(g, a, whole, th) && WriterRmw(g, a, whole, th)
  }

  ghost predicate RepairOk(g: Geometry, a: Array, whole: seq<seq<Block>>, th: Thread)
    requires Shaped(g, a) && Proper(g, th) && th.job.RepairJob? && |whole| == g.rows
  {
    && (!th.pc.Idle? ==> OthersValid(a.valid, th.job.d))
    && (th.pc.RebuildWant? || th.pc.RebuildHave? || th.pc.RebuildAt? ==> RebuiltTo(g, a, whole, th.pc.row))
    && (th.pc.MarkValid? ==> RebuiltTo(g, a, whole, g.rows))
    && (th.pc.RebuildAt? ==> (ClusterInRange(g, th.pc.row); a.loaded[Cluster(th.pc.row)]))
  }

  ghost predicate ReaderOk(g: Geometry, a: Array, th: Thread)
    requires Shaped(g, a) && Proper(g, th) && th.job.ReadJob?
  {
    && (InSingle(th.pc) ==> a.valid[DataDisk(g, th)])
    && (!th.pc.Idle? && !InSingle(th.pc) ==> OthersValid(a.valid, DataDisk(g, th)))
  }

  /** After effect e its thread is again where it should be. */
  ghost predicate NextOk(g: Geometry, th: Thread, e: Effect)
  {
    && Proper(g, th.(pc := e.pc)) && Shaped(g, e.a) && Shaped(g, e.a.(media := e.whole))
    && LocalOk(g, e.a, e.whole, th.(pc := e.pc))
  }

  ghost predicate LocalOk(g: Geometry, a: Array, whole: seq<seq<Block>>, th: Thread)
    requires Shaped(g, a) && Shaped(g, a.(media := whole)) && Proper(g, th)
  {
    && (th.job.WriteJob? ==> WriterOk(g, a, whole, th))
    && (th.job.RepairJob? ==> RepairOk(g, a, whole, th))
    && (th.job.ReadJob? ==> ReaderOk(g, a, th))
  }

  /** Thread th has written its data but not yet its parity, and (r, k) is that parity block. */
  ghost predicate TornBy(g: Geometry, th: Thread, whole: seq<seq<Block>>, r: nat, k: nat)
    requires Proper(g, th) && r < |whole| && k < |whole[r]|
  {
    th.pc.DataPut? && r == RowOf(g, th) && k == ParityOf(g, th) && whole[r][k] == th.pc.par
  }

  /** Media and completed media differ only in a parity block whose disk is locked by the writer about to put it. */
  ghost predicate TornOnlyUnderLock(g: Geometry, s: Sys)
    requires Sized(g, s) && OwnsDisks(g, s)
  {
    forall r, k | 0 <= r < g.rows && 0 <= k < g.disks ::
      || s.a.media[r][k] == s.whole[r][k]
      || (s.disk[k].HeldBy? && TornBy(g, s.threads[s.disk[k].t], s.whole, r, k))
  }

  ghost predicate Inv(g: Geometry, s: Sys)
  {
    && Sized(g, s)
    && OwnsDisks(g, s) && OwnsCluster(s)
    && Counted(s) && Gated(s) && SleepsForCause(s)
    && (forall t | 0 <= t < |s.threads| :: Addressed(g, s.threads[t].job))
    && (forall t | 0 <= t < |s.threads| :: LocalOk(g, s.a, s.whole, s.threads[t]))
    && TornOnlyUnderLock(g, s)
    && Sound(g, Abstract(s), s.last)
  }

  // One step, as its own thread sees it.

  /** The locks a step takes and leaves are the ones its program counters say it holds. */
  ghost predicate LocksAgree(g: Geometry, th: Thread, e: Effect)
    requires Proper(g, th)
  {
    var th' := th.(pc := e.pc);
    && Proper(g, th')
    && e.grab == Needs(g, th)
    && (e.grab == Nothing || e.drop == Nothing)
    && (forall k | 0 <= k < g.disks ::
          && (HoldsDisk(g, th', k) <==> e.grab == Disk(k) || (HoldsDisk(g, th, k) && e.drop != Disk(k)))
          && (e.drop == Disk(k) ==> HoldsDisk(g, th, k)))
    && (HoldsCluster(th') <==> e.grab.ClusterLock? || (HoldsCluster(th) && !e.drop.ClusterLock?))
    && (e.drop.ClusterLock? ==> HoldsCluster(th))
  }

  ghost predicate IsWriting(pc: Pc)
  {
    !IsGate(pc) && !IsLocking(pc) && !pc.MetaWork? && !pc.Idle? && !pc.Asleep?
  }

  lemma LocksGate(g: Geometry, s: Sys, th: Thread)
    requires Proper(g, th) && IsGate(th.pc)
    ensures LocksAgree(g, th, GateStep(s, th))
  {
  }

  lemma LocksTakeGive(g: Geometry, s: Sys, th: Thread)
    requires Proper(g, th) && (th.pc.Take? || th.pc.Give?)
    ensures LocksAgree(g, th, LockStep(g, s, th))
  {
    if th.pc.Take? {
      if th.pc.why.Load? { assert RowOf(g, th) < g.rows; }
      match th.pc.why { case Load => case LoadMeta => case Recon => case Rebuild => case RepairMeta => case ReadLost => }
    } else {
      match th.pc.why { case Load => case LoadMeta => case Recon => case Rebuild => case RepairMeta => case ReadLost => }
    }
  }

  lemma LocksCluster(g: Geometry, s: Sys, th: Thread)
    requires Proper(g, th) && (th.pc.WantCluster? || th.pc.DropCluster? || th.pc.RebuildWant?)
    ensures LocksAgree(g, th, LockStep(g, s, th))
  {
  }

  lemma LocksSingle(g: Geometry, s: Sys, th: Thread)
    requires Proper(g, th) && (th.pc.One? || th.pc.OneDone?)
    ensures LocksAgree(g, th, LockStep(g, s, th))
  {
  }

  lemma LocksPair(g: Geometry, s: Sys, th: Thread)
    requires Proper(g, th) && (th.pc.First? || th.pc.Second?)
    ensures LocksAgree(g, th, LockStep(g, s, th))
  {
  }

  lemma LocksUnpair(g: Geometry, s: Sys, th: Thread)
    requires Proper(g, th) && (th.pc.BothPut? || th.pc.OneLeft?)
    ensures LocksAgree(g, th, LockStep(g, s, th))
  {
  }

  lemma LocksWrite(g: Geometry, s: Sys, th: Thread)
    requires Sized(g, s) && Proper(g, th) && th.job.WriteJob? && WriterOk(g, s.a, s.whole, th)
    requires IsWriting(th.pc)
    ensures LocksAgree(g, th, WriteStep(g, s, th))
  {
    assert RowOf(g, th) < g.rows;
    if th.pc.LoadingRow? { ClusterInRange(g, th.pc.row); }
  }

  lemma LocksRepair(g: Geometry, s: Sys, th: Thread)
    requires Sized(g, s) && Proper(g, th) && th.job.RepairJob?
    requires IsWriting(th.pc)
    ensures LocksAgree(g, th, RepairStep(g, s, th))
  {
  }

  lemma LocksAgreeAct(g: Geometry, s: Sys, t: nat, image: Block)
    requires Sized(g, s) && t < |s.threads| && !s.threads[t].pc.Idle? && !s.threads[t].pc.Asleep?
    requires LocalOk(g, s.a, s.whole, s.threads[t])
    ensures LocksAgree(g, s.threads[t], Act(g, s, t, image))
  {
    var th := s.threads[t];
    if IsGate(th.pc) {
      LocksGate(g, s, th);
    } else if th.pc.Take? || th.pc.Give? {
      LocksTakeGive(g, s, th);
    } else if th.pc.One? || th.pc.OneDone? {
      LocksSingle(g, s, th);
    } else if th.pc.First? || th.pc.Second? {
      LocksPair(g, s, th);
    } else if th.pc.BothPut? || th.pc.OneLeft? {
      LocksUnpair(g, s, th);
    } else if IsLocking(th.pc) {
      LocksCluster(g, s, th);
    } else if th.pc.MetaWork? || th.pc.LostWork? {
    } else if th.job.WriteJob? {
      LocksWrite(g, s, th);
    } else if th.job.RepairJob? {
      LocksRepair(g, s, th);
    }
  }

  /** How a step moves its thread through the gate, against the counters it sees there. */
  ghost predicate CountsAgree(s: Sys, th: Thread, e: Effect)
  {
    var th' := th.(pc := e.pc);
    && e.write == Bit(InWrite(th')) - Bit(InWrite(th))
    && e.repair == Bit(InRepair(th')) - Bit(InRepair(th))
    && (PastGate(th') ==> PastGate(th) || s.writecount == 0 || (InRepair(th) && s.repairing == 0))
    && (e.write == 1 ==> s.repairing == 0)
    && (e.write == -1 && s.writecount == 1 ==> e.wake.WakeRepairs?)
    && (e.repair == -1 && s.repairing == 1 ==> e.wake.WakeWriters?)
    && (e.pc.Asleep? ==> (th.job.WriteJob? && s.repairing != 0) || (th.job.RepairJob? && s.writecount != 0))
  }

  lemma CountsGate(g: Geometry, s: Sys, th: Thread)
    requires Proper(g, th) && IsGate(th.pc)
    ensures CountsAgree(s, th, GateStep(s, th))
  {
  }

  lemma CountsLock(g: Geometry, s: Sys, th: Thread)
    requires Proper(g, th) && IsLocking(th.pc)
    ensures CountsAgree(s, th, LockStep(g, s, th))
  {
  }

  lemma CountsWrite(g: Geometry, s: Sys, th: Thread)
    requires Sized(g, s) && Proper(g, th) && th.job.WriteJob?
    requires !IsGate(th.pc) && !IsLocking(th.pc) && !th.pc.Idle? && !th.pc.Asleep?
    ensures CountsAgree(s, th, WriteStep(g, s, th))
  {
  }

  lemma CountsRepair(g: Geometry, s: Sys, th: Thread)
    requires Sized(g, s) && Proper(g, th) && th.job.RepairJob?
    requires !IsGate(th.pc) && !IsLocking(th.pc) && !th.pc.Idle? && !th.pc.Asleep?
    ensures CountsAgree(s, th, RepairStep(g, s, th))
  {
  }

  lemma CountsAgreeAct(g: Geometry, s: Sys, t: nat, image: Block)
    requires Sized(g, s) && t < |s.threads| && !s.threads[t].pc.Idle? && !s.threads[t].pc.Asleep?
    ensures CountsAgree(s, s.threads[t], Act(g, s, t, image))
  {
    var th := s.threads[t];
    if IsGate(th.pc) {
      CountsGate(g, s, th);
    } else if IsLocking(th.pc) {
      CountsLock(g, s, th);
    } else if th.pc.MetaWork? || th.pc.LostWork? {
    } else if th.job.WriteJob? {
      CountsWrite(g, s, th);
    } else if th.job.RepairJob? {
      CountsRepair(g, s, th);
    }
  }

  /** A step changes blocks only of disks whose lock it holds, and flags only at the two marking steps. */
  ghost predicate Framed(g: Geometry, s: Sys, th: Thread, e: Effect)
    requires Sized(g, s) && Proper(g, th)
  {
    && Shaped(g, e.a) && Shaped(g, e.a.(media := e.whole))
    && (forall r, k | 0 <= r < g.rows && 0 <= k < g.disks && !HoldsDisk(g, th, k) ::
          e.a.media[r][k] == s.a.media[r][k] && e.whole[r][k] == s.whole[r][k])
    && (e.a.valid == s.a.valid || (th.pc.MarkValid? && e.a.valid == s.a.valid[th.job.d := true]))
    && (e.a.loaded == s.a.loaded || (th.pc.MarkLoaded? && th.job.WriteJob? && Grown(s.a.loaded, e.a.loaded)))
  }

  ghost predicate Grown(before: seq<bool>, after: seq<bool>)
  {
    |after| == |before| && forall i | 0 <= i < |before| && before[i] :: after[i]
  }

  lemma FramedWrite(g: Geometry, s: Sys, th: Thread)
    requires Sized(g, s) && Proper(g, th) && th.job.WriteJob?
    ensures Framed(g, s, th, WriteStep(g, s, th))
  {
  }

  lemma FramedRepair(g: Geometry, s: Sys, th: Thread)
    requires Sized(g, s) && Proper(g, th) && th.job.RepairJob?
    ensures Framed(g, s, th, RepairStep(g, s, th))
  {
  }

  lemma FramedAct(g: Geometry, s: Sys, t: nat, image: Block)
    requires Sized(g, s) && t < |s.threads|
    ensures Framed(g, s, s.threads[t], Act(g, s, t, image))
  {
    var th := s.threads[t];
    if IsGate(th.pc) || IsLocking(th.pc) || th.pc.MetaWork? || th.pc.LostWork? {
    } else if th.job.WriteJob? {
      FramedWrite(g, s, th);
    } else if th.job.RepairJob? {
      FramedRepair(g, s, th);
    }
  }

  // One step, as another thread sees it.

  ghost predicate Apart(g: Geometry, th: Thread, other: Thread)
    requires Proper(g, th) && Proper(g, other)
  {
    && (forall k | 0 <= k < g.disks :: !(HoldsDisk(g, th, k) && HoldsDisk(g, other, k)))
    && !(HoldsCluster(th) && HoldsCluster(other))
    && !(PastGate(th) && InWrite(other)) && !(PastGate(other) && InWrite(th))
  }

  lemma InvApart(g: Geometry, s: Sys, t: nat, u: nat)
    requires Sized(g, s) && OwnsDisks(g, s) && OwnsCluster(s) && Gated(s)
    requires t < |s.threads| && u < |s.threads| && t != u
    ensures Apart(g, s.threads[t], s.threads[u])
  {
    forall k | 0 <= k < g.disks
      ensures !(HoldsDisk(g, s.threads[t], k) && HoldsDisk(g, s.threads[u], k))
    {
      if HoldsDisk(g, s.threads[t], k) { assert s.disk[k] == HeldBy(t); }
      if HoldsDisk(g, s.threads[u], k) { assert s.disk[k] == HeldBy(u); }
    }
  }

  /** A thread that holds every disk lock sees no block change under it. */
  lemma AllHeldUnmoved(g: Geometry, s: Sys, th: Thread, e: Effect, other: Thread)
    requires Sized(g, s) && Proper(g, th) && Proper(g, other)
    requires Framed(g, s, th, e) && Apart(g, th, other) && HoldsAll(other.pc)
    ensures e.a.media == s.a.media && e.whole == s.whole
  {
    forall r | 0 <= r < g.rows
      ensures e.a.media[r] == s.a.media[r] && e.whole[r] == s.whole[r]
    {
      forall k | 0 <= k < g.disks
        ensures e.a.media[r][k] == s.a.media[r][k] && e.whole[r][k] == s.whole[r][k]
      {
        assert HoldsDisk(g, other, k);
        assert !HoldsDisk(g, th, k);
      }
    }
  }

  lemma ValidGrows(g: Geometry, s: Sys, th: Thread, e: Effect)
    requires Sized(g, s) && Proper(g, th) && Framed(g, s, th, e)
    ensures Grown(s.a.valid, e.a.valid)
  {
  }

  lemma OtherWriterFlags(g: Geometry, s: Sys, th: Thread, e: Effect, other: Thread)
    requires Sized(g, s) && Proper(g, th) && Proper(g, other) && other.job.WriteJob?
    requires Framed(g, s, th, e) && Apart(g, th, other) && WriterFlags(g, s.a.valid, s.a.loaded, other)
    ensures WriterFlags(g, e.a.valid, e.a.loaded, other)
    ensures InWrite(other) ==> e.a.valid == s.a.valid
  {
    ValidGrows(g, s, th, e);
    ClusterInRange(g, RowOf(g, other));
    assert Grown(s.a.loaded, e.a.loaded);
    assert InLoad(other.pc) ==> e.a.loaded == s.a.loaded;
    assert InWrite(other) ==> e.a.valid == s.a.valid;
  }

  /** A block whose disk lock a thread holds does not change under it. */
  lemma HeldUnmoved(g: Geometry, s: Sys, th: Thread, e: Effect, other: Thread, r: nat, k: nat)
    requires Sized(g, s) && Proper(g, th) && Proper(g, other) && Framed(g, s, th, e) && Apart(g, th, other)
    requires r < g.rows && k < g.disks && HoldsDisk(g, other, k)
    ensures e.a.media[r][k] == s.a.media[r][k] && e.whole[r][k] == s.whole[r][k]
  {
  }

  lemma OtherWriterRmw(g: Geometry, s: Sys, th: Thread, e: Effect, other: Thread)
    requires Sized(g, s) && Proper(g, th) && Proper(g, other) && other.job.WriteJob?
    requires Framed(g, s, th, e) && Apart(g, th, other) && WriterRmw(g, s.a, s.whole, other)
    ensures WriterRmw(g, e.a, e.whole, other)
  {
    if other.pc.GotPrev? || other.pc.GotParity? || other.pc.DataPut? {
      HeldUnmoved(g, s, th, e, other, RowOf(g, other), DataDisk(g, other));
      HeldUnmoved(g, s, th, e, other, RowOf(g, other), ParityOf(g, other));
    }
  }

  lemma OtherWriterOk(g: Geometry, s: Sys, th: Thread, e: Effect, other: Thread)
    requires Sized(g, s) && Proper(g, th) && Proper(g, other) && other.job.WriteJob?
    requires Framed(g, s, th, e) && Apart(g, th, other) && WriterOk(g, s.a, s.whole, other)
    ensures WriterOk(g, e.a, e.whole, other)
  {
    OtherWriterFlags(g, s, th, e, other);
    OtherWriterRmw(g, s, th, e, other);
    if other.pc.LoadingRow? || other.pc.MarkLoaded? {
      AllHeldUnmoved(g, s, th, e, other);
    }
  }

  lemma OtherRepairOk(g: Geometry, s: Sys, th: Thread, e: Effect, other: Thread)
    requires Sized(g, s) && Proper(g, th) && Proper(g, other) && other.job.RepairJob?
    requires Framed(g, s, th, e) && Apart(g, th, other) && RepairOk(g, s.a, s.whole, other)
    ensures RepairOk(g, e.a, e.whole, other)
  {
    ValidGrows(g, s, th, e);
    if PastGate(other) && HoldsAll(other.pc) {
      AllHeldUnmoved(g, s, th, e, other);
      assert e.a.loaded == s.a.loaded;
      forall q | Covered(g, e.a, q) ensures Covered(g, s.a, q) {}
    }
  }

  lemma OtherReaderOk(g: Geometry, s: Sys, th: Thread, e: Effect, other: Thread)
    requires Sized(g, s) && Proper(g, th) && Proper(g, other) && other.job.ReadJob?
    requires Framed(g, s, th, e) && ReaderOk(g, s.a, other)
    ensures ReaderOk(g, e.a, other)
  {
    ValidGrows(g, s, th, e);
  }

  lemma OtherLocalOk(g: Geometry, s: Sys, th: Thread, e: Effect, other: Thread)
    requires Sized(g, s) && Proper(g, th) && Proper(g, other)
    requires Framed(g, s, th, e) && Apart(g, th, other) && LocalOk(g, s.a, s.whole, other)
    ensures LocalOk(g, e.a, e.whole, other)
    ensures Proper(g, Woken(other, e.wake)) && LocalOk(g, e.a, e.whole, Woken(other, e.wake))
  {
    match other.job
    case NoJob =>
    case WriteJob(_, _, _) => OtherWriterOk(g, s, th, e, other);
    case RepairJob(_) => OtherRepairOk(g, s, th, e, other);
    case ReadJob(_, _) => OtherReaderOk(g, s, th, e, other);
  }

  // One step keeps what its own thread relies on.

  lemma LocalGate(g: Geometry, s: Sys, th: Thread)
    requires Sized(g, s) && Proper(g, th) && IsGate(th.pc) && LocalOk(g, s.a, s.whole, th)
    ensures NextOk(g, th, GateStep(s, th))
  {
    LocksGate(g, s, th);
  }

  lemma LocalTakeGive(g: Geometry, s: Sys, th: Thread)
    requires Sized(g, s) && Proper(g, th) && (th.pc.Take? || th.pc.Give?) && LocalOk(g, s.a, s.whole, th)
    ensures NextOk(g, th, LockStep(g, s, th))
  {
    LocksTakeGive(g, s, th);
    match th.pc.why { case Load => case LoadMeta => case Recon => case Rebuild => case RepairMeta => case ReadLost => }
  }

  lemma LocalLock(g: Geometry, s: Sys, th: Thread)
    requires Sized(g, s) && Proper(g, th) && IsLocking(th.pc) && !th.pc.Take? && !th.pc.Give?
    requires LocalOk(g, s.a, s.whole, th)
    ensures NextOk(g, th, LockStep(g, s, th))
  {
  }

  lemma LoadedRowCancels(g: Geometry, s: Sys, th: Thread)
    requires Sized(g, s) && Proper(g, th) && th.job.WriteJob? && th.pc.LoadingRow? && WriterLoad(g, s.a, s.whole, th)
    ensures var e := WriteStep(g, s, th); Proper(g, th.(pc := e.pc)) ==> WriterLoad(g, e.a, e.whole, th.(pc := e.pc))
  {
    var (c, r) := (Cluster(RowOf(g, th)), th.pc.row);
    var e := WriteStep(g, s, th);
    if AllValid(s.a.valid) {
      LoadRowCancels(s.a.media[r], s.a.valid, ParityDisk(g, r));
      assert CancelsIn(g, e.whole, c * CLUSTER_SIZE, r + 1);
    }
  }

  lemma LocalWriteFlags(g: Geometry, s: Sys, th: Thread)
    requires Sized(g, s) && Proper(g, th) && th.job.WriteJob? && WriterFlags(g, s.a.valid, s.a.loaded, th)
    requires IsWriting(th.pc) && Proper(g, th.(pc := WriteStep(g, s, th).pc))
    ensures var e := WriteStep(g, s, th); Shaped(g, e.a) && WriterFlags(g, e.a.valid, e.a.loaded, th.(pc := e.pc))
  {
    FramedWrite(g, s, th);
  }

  lemma LocalWriteRmw(g: Geometry, s: Sys, th: Thread)
    requires Sized(g, s) && Proper(g, th) && th.job.WriteJob? && WriterRmw(g, s.a, s.whole, th)
    requires th.pc.GotBoth? || th.pc.GotPrev? || th.pc.GotParity?
    ensures var e := WriteStep(g, s, th); WriterRmw(g, e.a, e.whole, th.(pc := e.pc))
  {
  }

  lemma LocalWrite(g: Geometry, s: Sys, th: Thread)
    requires Sized(g, s) && Proper(g, th) && th.job.WriteJob? && WriterOk(g, s.a, s.whole, th)
    requires IsWriting(th.pc)
    ensures NextOk(g, th, WriteStep(g, s, th))
  {
    LocksWrite(g, s, th);
    LocalWriteFlags(g, s, th);
    if th.pc.LoadingRow? {
      LoadedRowCancels(g, s, th);
    } else if th.pc.GotBoth? || th.pc.GotPrev? || th.pc.GotParity? {
      LocalWriteRmw(g, s, th);
    }
  }

  lemma LocalRepair(g: Geometry, s: Sys, th: Thread)
    requires Sized(g, s) && Proper(g, th) && th.job.RepairJob? && RepairOk(g, s.a, s.whole, th)
    requires IsWriting(th.pc)
    ensures NextOk(g, th, RepairStep(g, s, th))
  {
    LocksRepair(g, s, th);
    var e := RepairStep(g, s, th);
    if !th.pc.MarkValid? {
      var row := th.pc.row;
      forall q | Covered(g, e.a, q) && q <= row && !e.pc.RebuildAt?
        ensures XorAll(e.whole[q]) == Zero()
      {
        assert Covered(g, s.a, q);
        if q == row { RebuiltRowCancels(s.a.media[row], th.job.d); }
      }
    }
  }

  lemma LocalMeta(g: Geometry, s: Sys, th: Thread, image: Block)
    requires Sized(g, s) && Proper(g, th) && th.pc.MetaWork? && LocalOk(g, s.a, s.whole, th)
    ensures NextOk(g, th, MetaStep(g, s, th.pc.why, image))
  {
  }

  lemma LocalAct(g: Geometry, s: Sys, t: nat, image: Block)
    requires Sized(g, s) && t < |s.threads| && !s.threads[t].pc.Idle? && !s.threads[t].pc.Asleep?
    requires LocalOk(g, s.a, s.whole, s.threads[t])
    ensures NextOk(g, s.threads[t], Act(g, s, t, image))
  {
    var th := s.threads[t];
    if IsGate(th.pc) {
      LocalGate(g, s, th);
    } else if th.pc.Take? || th.pc.Give? {
      LocalTakeGive(g, s, th);
    } else if IsLocking(th.pc) {
      LocalLock(g, s, th);
    } else if th.pc.MetaWork? {
      LocalMeta(g, s, th, image);
    } else if th.pc.LostWork? {
    } else if th.job.WriteJob? {
      LocalWrite(g, s, th);
    } else if th.job.RepairJob? {
      LocalRepair(g, s, th);
    }
  }

  // One step keeps the array sound.

  /** A row no write relies on may change at will. */
  lemma UncoveredRowFree(g: Geometry, a: Array, last: map<nat, Block>, row: nat, blocks: seq<Block>)
    requires Sound(g, a, last) && row < g.rows && |blocks| == g.disks && !Covered(g, a, row)
    ensures Sound(g, PutRow(g, a, row, blocks), last)
  {
    var b := PutRow(g, a, row, blocks);
    forall q | Covered(g, b, q) ensures Covered(g, a, q) && b.media[q] == a.media[q] {}
    forall v | v in last ensures Holds(g, b, v, last[v]) { assert Holds(g, a, v, last[v]); }
  }

  lemma MarkLoadedKeeps(g: Geometry, a: Array, last: map<nat, Block>, c: nat)
    requires Sound(g, a, last) && c < |a.loaded|
    requires AllValid(a.valid) ==> CancelsIn(g, a.media, c * CLUSTER_SIZE, (c + 1) * CLUSTER_SIZE)
    ensures Sound(g, a.(loaded := a.loaded[c := true]), last)
  {
    var b := a.(loaded := a.loaded[c := true]);
    if AllValid(a.valid) {
      forall q | Covered(g, b, q) ensures XorAll(b.media[q]) == Zero() {
        if Cluster(q) != c { assert Covered(g, a, q); }
      }
    }
    forall v | v in last ensures Holds(g, b, v, last[v]) { assert Holds(g, a, v, last[v]); }
  }

  /** Rebuilding one row of a disk that is the only invalid one, or of a sound array, loses nothing. */
  lemma RebuildRowKeeps(g: Geometry, a: Array, last: map<nat, Block>, row: nat, d: nat)
    requires Sound(g, a, last) && row < g.rows && d < g.disks && OthersValid(a.valid, d)
    ensures Sound(g, PutRow(g, a, row, RebuildRow(a.media[row], d)), last)
  {
    if !Covered(g, a, row) {
      UncoveredRowFree(g, a, last, row, RebuildRow(a.media[row], d));
    } else if a.valid[d] {
      assert AllValid(a.valid);
      ReconstructIff(a.media[row], d);
      assert RebuildRow(a.media[row], d) == a.media[row];
      assert a.media[row := a.media[row]] == a.media;
    } else {
      var b := PutRow(g, a, row, RebuildRow(a.media[row], d));
      forall v | v in last ensures Holds(g, b, v, last[v]) {
        assert Holds(g, a, v, last[v]);
        OthersIgnore(a.media[row], d, XorOthers(a.media[row], d));
      }
    }
  }

  lemma MarkValidKeeps(g: Geometry, a: Array, last: map<nat, Block>, d: nat)
    requires Sound(g, a, last) && d < g.disks && OthersValid(a.valid, d) && ParityClean(g, a)
    ensures Sound(g, a.(valid := a.valid[d := true]), last)
  {
    var b := a.(valid := a.valid[d := true]);
    forall q | Covered(g, b, q) ensures XorAll(b.media[q]) == Zero() { assert Covered(g, a, q); }
    forall v | v in last ensures Holds(g, b, v, last[v]) {
      assert Holds(g, a, v, last[v]);
      var Slot(x, row) := Place(g, v);
      if x == d { ReconstructIff(a.media[row], d); }
    }
  }

  ghost function AbstractAfter(e: Effect): Array { Array(e.whole, e.a.valid, e.a.loaded) }

  /** Blocks under a thread's locks are whole, unless the thread itself is between its two writes. */
  ghost predicate HeldWhole(g: Geometry, s: Sys, th: Thread)
    requires Sized(g, s) && Proper(g, th)
  {
    forall r, k | 0 <= r < g.rows && 0 <= k < g.disks && HoldsDisk(g, th, k) ::
      s.a.media[r][k] == s.whole[r][k] || TornBy(g, th, s.whole, r, k)
  }

  lemma InvHeldWhole(g: Geometry, s: Sys, t: nat)
    requires Inv(g, s) && t < |s.threads|
    ensures HeldWhole(g, s, s.threads[t])
  {
    forall r, k | 0 <= r < g.rows && 0 <= k < g.disks && HoldsDisk(g, s.threads[t], k)
      ensures s.a.media[r][k] == s.whole[r][k] || TornBy(g, s.threads[t], s.whole, r, k)
    {
      assert s.disk[k] == HeldBy(t);
    }
  }

  lemma AllHeldWhole(g: Geometry, s: Sys, th: Thread, r: nat)
    requires Sized(g, s) && Proper(g, th) && HeldWhole(g, s, th) && HoldsAll(th.pc) && r < g.rows
    ensures s.a.media[r] == s.whole[r]
  {
    forall k | 0 <= k < g.disks ensures s.a.media[r][k] == s.whole[r][k] {
      assert HoldsDisk(g, th, k);
    }
  }

  lemma SoundLoading(g: Geometry, s: Sys, th: Thread)
    requires Sized(g, s) && Proper(g, th) && th.job.WriteJob? && (th.pc.LoadingRow? || th.pc.MarkLoaded?)
    requires WriterOk(g, s.a, s.whole, th) && Sound(g, Abstract(s), s.last)
    ensures var e := WriteStep(g, s, th); Sound(g, AbstractAfter(e), e.last)
  {
    var e := WriteStep(g, s, th);
    if th.pc.LoadingRow? {
      var r := th.pc.row;
      UncoveredRowFree(g, Abstract(s), s.last, r, LoadRow(s.a.media[r], s.a.valid, ParityDisk(g, r)));
      assert AbstractAfter(e) == PutRow(g, Abstract(s), r, LoadRow(s.a.media[r], s.a.valid, ParityDisk(g, r)));
    } else {
      ClusterInRange(g, RowOf(g, th));
      MarkLoadedKeeps(g, Abstract(s), s.last, Cluster(RowOf(g, th)));
    }
  }

  lemma ReconIsWriteRow(g: Geometry, s: Sys, th: Thread)
    requires Sized(g, s) && Proper(g, th) && th.job.WriteJob? && HeldWhole(g, s, th) && th.pc.ReconWork?
    requires !s.a.valid[DataDisk(g, th)]
    ensures WriteStep(g, s, th).whole[RowOf(g, th)] ==
              WriteRow(s.whole[RowOf(g, th)], s.a.valid, DataDisk(g, th), ParityOf(g, th), th.job.data)
  {
    AllHeldWhole(g, s, th, RowOf(g, th));
  }

  lemma PairIsWriteRow(g: Geometry, s: Sys, th: Thread)
    requires Sized(g, s) && Proper(g, th) && th.job.WriteJob? && HeldWhole(g, s, th) && th.pc.GotParity?
    requires s.a.valid[DataDisk(g, th)] && s.a.valid[ParityOf(g, th)] && WriterRmw(g, s.a, s.whole, th)
    ensures WriteStep(g, s, th).whole[RowOf(g, th)] ==
              WriteRow(s.whole[RowOf(g, th)], s.a.valid, DataDisk(g, th), ParityOf(g, th), th.job.data)
  {
    PairWhole(g, s, th);
    var (d, p, row) := (DataDisk(g, th), ParityOf(g, th), RowOf(g, th));
    PairRow(s.whole, s.a.valid, row, d, p, th.job.data, th.pc.par);
  }

  /** Under both its locks a writer reads whole blocks. */
  lemma PairWhole(g: Geometry, s: Sys, th: Thread)
    requires Sized(g, s) && Proper(g, th) && th.job.WriteJob? && HeldWhole(g, s, th) && th.pc.GotParity?
    ensures s.a.media[RowOf(g, th)][DataDisk(g, th)] == s.whole[RowOf(g, th)][DataDisk(g, th)]
    ensures s.a.media[RowOf(g, th)][ParityOf(g, th)] == s.whole[RowOf(g, th)][ParityOf(g, th)]
  {
    assert HoldsDisk(g, th, DataDisk(g, th)) && HoldsDisk(g, th, ParityOf(g, th));
  }

  lemma PairRow(whole: seq<seq<Block>>, valid: seq<bool>, row: nat, d: nat, p: nat, data: Block, par: Block)
    requires row < |whole| && |valid| == |whole[row]| && d < |valid| && p < |valid| && valid[d] && valid[p]
    requires par == Shifted(whole[row][p], whole[row][d], data)
    ensures PutBlock(PutBlock(whole, row, d, data), row, p, par)[row] == WriteRow(whole[row], valid, d, p, data)
  {
  }

  /** The step at which a write takes effect changes the completed row exactly as WriteRow does. */
  lemma EffectIsWriteRow(g: Geometry, s: Sys, th: Thread)
    requires Sized(g, s) && Proper(g, th) && th.job.WriteJob? && HeldWhole(g, s, th)
    requires th.pc.ReconWork? || th.pc.OneHeld? || th.pc.GotParity?
    requires WriterOk(g, s.a, s.whole, th)
    ensures WriteStep(g, s, th).whole[RowOf(g, th)] ==
              WriteRow(s.whole[RowOf(g, th)], s.a.valid, DataDisk(g, th), ParityOf(g, th), th.job.data)
  {
    if th.pc.ReconWork? {
      ReconIsWriteRow(g, s, th);
    } else if th.pc.GotParity? {
      PairIsWriteRow(g, s, th);
    }
  }

  lemma SoundPut(g: Geometry, s: Sys, th: Thread)
    requires Sized(g, s) && Proper(g, th) && th.job.WriteJob? && HeldWhole(g, s, th) && Addressed(g, th.job)
    requires th.pc.ReconWork? || th.pc.OneHeld? || th.pc.GotParity?
    requires WriterOk(g, s.a, s.whole, th) && Sound(g, Abstract(s), s.last)
    ensures var e := WriteStep(g, s, th); Sound(g, AbstractAfter(e), e.last)
  {
    var row := RowOf(g, th);
    var e := WriteStep(g, s, th);
    EffectIsWriteRow(g, s, th);
    ClusterInRange(g, row);
    assert Covered(g, Abstract(s), row);
    PutRowKeeps(g, Abstract(s), s.last, th.job.v, th.job.data);
    var put := WriteRow(s.whole[row], s.a.valid, DataDisk(g, th), ParityOf(g, th), th.job.data);
    assert e.whole == s.whole[row := put];
    assert AbstractAfter(e) == PutRow(g, Abstract(s), row, put);
  }

  lemma SoundRepair(g: Geometry, s: Sys, th: Thread)
    requires Sized(g, s) && Proper(g, th) && th.job.RepairJob? && HeldWhole(g, s, th)
    requires th.pc.RebuildAt? || th.pc.MarkValid?
    requires RepairOk(g, s.a, s.whole, th) && Sound(g, Abstract(s), s.last)
    ensures var e := RepairStep(g, s, th); Sound(g, AbstractAfter(e), e.last)
  {
    var e := RepairStep(g, s, th);
    if th.pc.RebuildAt? {
      var row := th.pc.row;
      AllHeldWhole(g, s, th, row);
      RebuildRowKeeps(g, Abstract(s), s.last, row, th.job.d);
      assert AbstractAfter(e) == PutRow(g, Abstract(s), row, RebuildRow(s.whole[row], th.job.d));
    } else {
      forall q | Covered(g, Abstract(s), q) ensures XorAll(s.whole[q]) == Zero() { assert Covered(g, s.a, q); }
      MarkValidKeeps(g, Abstract(s), s.last, th.job.d);
    }
  }

  /** The step touches no block, no flag and no record of a write. */
  ghost predicate Still(s: Sys, e: Effect) { e.a == s.a && e.whole == s.whole && e.last == s.last }

  lemma WriteStill(g: Geometry, s: Sys, th: Thread)
    requires Sized(g, s) && Proper(g, th) && th.job.WriteJob?
    requires !th.pc.LoadingRow? && !th.pc.MarkLoaded? && !th.pc.ReconWork? && !th.pc.OneHeld? && !th.pc.GotParity? && !th.pc.DataPut?
    ensures Still(s, WriteStep(g, s, th))
  {
  }

  /** The second half of a parity update reaches the media; the completed row already had it. */
  lemma DataPutStill(g: Geometry, s: Sys, th: Thread)
    requires Sized(g, s) && Proper(g, th) && th.job.WriteJob? && th.pc.DataPut?
    ensures var e := WriteStep(g, s, th); AbstractAfter(e) == Abstract(s) && e.last == s.last
  {
  }

  lemma SoundWrite(g: Geometry, s: Sys, th: Thread)
    requires Sized(g, s) && Proper(g, th) && th.job.WriteJob? && HeldWhole(g, s, th) && Addressed(g, th.job)
    requires LocalOk(g, s.a, s.whole, th) && Sound(g, Abstract(s), s.last)
    ensures var e := WriteStep(g, s, th); Sound(g, AbstractAfter(e), e.last)
  {
    if th.pc.LoadingRow? || th.pc.MarkLoaded? {
      SoundLoading(g, s, th);
    } else if th.pc.ReconWork? || th.pc.OneHeld? || th.pc.GotParity? {
      SoundPut(g, s, th);
    } else if th.pc.DataPut? {
      DataPutStill(g, s, th);
    } else {
      WriteStill(g, s, th);
    }
  }

  lemma RepairStill(g: Geometry, s: Sys, th: Thread)
    requires Sized(g, s) && Proper(g, th) && th.job.RepairJob? && !th.pc.RebuildAt? && !th.pc.MarkValid?
    ensures Still(s, RepairStep(g, s, th))
  {
  }

  lemma LockStill(g: Geometry, s: Sys, th: Thread)
    requires Proper(g, th)
    ensures Still(s, LockStep(g, s, th)) && Still(s, GateStep(s, th))
  {
  }

  lemma SoundMeta(g: Geometry, s: Sys, why: Purpose, image: Block)
    requires Sized(g, s) && Sound(g, Abstract(s), s.last)
    ensures var e := MetaStep(g, s, why, image); Sound(g, AbstractAfter(e), e.last)
  {
    var row := DiskBlocks(g);
    UncoveredRowFree(g, Abstract(s), s.last, row, MetaRow(s.a.media[row], s.a.valid, image));
  }

  lemma SoundAct(g: Geometry, s: Sys, t: nat, image: Block)
    requires Sized(g, s) && t < |s.threads|
    requires LocalOk(g, s.a, s.whole, s.threads[t]) && HeldWhole(g, s, s.threads[t]) && Addressed(g, s.threads[t].job)
    requires Sound(g, Abstract(s), s.last)
    ensures var e := Act(g, s, t, image); Sound(g, AbstractAfter(e), e.last)
  {
    var th := s.threads[t];
    LockStill(g, s, th);
    if IsGate(th.pc) || IsLocking(th.pc) {
    } else if th.pc.MetaWork? {
      SoundMeta(g, s, th.pc.why, image);
    } else if th.pc.LostWork? {
    } else if th.job.WriteJob? {
      SoundWrite(g, s, th);
    } else if th.job.RepairJob? && (th.pc.RebuildAt? || th.pc.MarkValid?) {
      SoundRepair(g, s, th);
    } else if th.job.RepairJob? {
      RepairStill(g, s, th);
    }
  }

  /** The step leaves blocks under its locks whole, or torn only by its thread's own half-done update. */
  ghost predicate TornNext(g: Geometry, th: Thread, e: Effect)
    requires Proper(g, th)
  {
    && Proper(g, th.(pc := e.pc)) && Shaped(g, e.a) && Shaped(g, AbstractAfter(e))
    && forall r, k | 0 <= r < g.rows && 0 <= k < g.disks && HoldsDisk(g, th, k) ::
         || e.a.media[r][k] == e.whole[r][k]
         || (HoldsDisk(g, th.(pc := e.pc), k) && TornBy(g, th.(pc := e.pc), e.whole, r, k))
  }

  lemma TornSame(g: Geometry, s: Sys, th: Thread, e: Effect)
    requires Sized(g, s) && Proper(g, th) && Proper(g, th.(pc := e.pc)) && HeldWhole(g, s, th) && !th.pc.DataPut?
    requires Shaped(g, e.a) && e.a.media == s.a.media && e.whole == s.whole
    ensures TornNext(g, th, e)
  {
  }

  lemma TornTouch(g: Geometry, s: Sys, th: Thread, row: nat, blocks: seq<Block>, pc: Pc)
    requires Sized(g, s) && Proper(g, th) && Proper(g, th.(pc := pc)) && HeldWhole(g, s, th) && !th.pc.DataPut?
    requires row < g.rows && |blocks| == g.disks
    ensures TornNext(g, th, Touch(s, row, blocks, pc))
  {
  }

  lemma TornSingle(g: Geometry, s: Sys, th: Thread)
    requires Sized(g, s) && Proper(g, th) && th.job.WriteJob? && HeldWhole(g, s, th) && th.pc.OneHeld?
    ensures TornNext(g, th, WriteStep(g, s, th))
  {
    var (e, row, d, data) := (WriteStep(g, s, th), RowOf(g, th), DataDisk(g, th), th.job.data);
    var (media, whole) := (s.a.media, s.whole);
    assert e.pc == OneDone && e.whole == PutBlock(whole, row, d, data) && e.a == s.a.(media := PutBlock(media, row, d, data));
    forall r, k | 0 <= r < g.rows && 0 <= k < g.disks && HoldsDisk(g, th, k) ensures e.a.media[r][k] == e.whole[r][k] {
      assert media[r][k] == whole[r][k] || TornBy(g, th, whole, r, k);
    }
  }

  lemma TornDataShape(g: Geometry, s: Sys, th: Thread)
    requires Sized(g, s) && Proper(g, th) && th.job.WriteJob? && th.pc.GotParity?
    ensures var e := WriteStep(g, s, th);
            Proper(g, th.(pc := e.pc)) && Shaped(g, e.a) && Shaped(g, AbstractAfter(e)) && e.pc == DataPut(th.pc.par)
  {
  }

  lemma TornDataPuts(g: Geometry, s: Sys, th: Thread, r: nat, k: nat)
    requires Sized(g, s) && Proper(g, th) && th.job.WriteJob? && HeldWhole(g, s, th) && th.pc.GotParity?
    requires r < g.rows && k < g.disks && HoldsDisk(g, th, k)
    ensures var e := WriteStep(g, s, th);
            r < |e.a.media| && r < |e.whole| && k < |e.a.media[r]| && k < |e.whole[r]| &&
            (e.a.media[r][k] == e.whole[r][k] || (r == RowOf(g, th) && k == ParityOf(g, th) && e.whole[r][k] == th.pc.par))
  {
    assert s.a.media[r][k] == s.whole[r][k] || TornBy(g, th, s.whole, r, k);
    DataThenParity(s.a.media, s.whole, RowOf(g, th), DataDisk(g, th), ParityOf(g, th), th.job.data, th.pc.par, r, k);
  }

  lemma HoldsWhenPut(g: Geometry, th: Thread, par: Block)
    requires Proper(g, th) && th.job.WriteJob? && th.pc.GotParity? && Proper(g, th.(pc := DataPut(par)))
    ensures HoldsDisk(g, th.(pc := DataPut(par)), ParityOf(g, th))
    ensures RowOf(g, th.(pc := DataPut(par))) == RowOf(g, th) && ParityOf(g, th.(pc := DataPut(par))) == ParityOf(g, th)
  {
  }

  /** The block is on the media as in the completed row, or it is the parity still to be written. */
  ghost predicate PutAt(g: Geometry, th: Thread, e: Effect, r: int, k: int)
    requires Proper(g, th) && th.job.WriteJob? && th.pc.GotParity?
  {
    0 <= r < g.rows && 0 <= k < g.disks && HoldsDisk(g, th, k) ==>
      r < |e.a.media| && r < |e.whole| && k < |e.a.media[r]| && k < |e.whole[r]| &&
      (e.a.media[r][k] == e.whole[r][k] || (r == RowOf(g, th) && k == ParityOf(g, th) && e.whole[r][k] == th.pc.par))
  }

  lemma TornIfPut(g: Geometry, th: Thread, e: Effect)
    requires Proper(g, th) && th.job.WriteJob? && th.pc.GotParity? && e.pc == DataPut(th.pc.par)
    requires Proper(g, th.(pc := e.pc)) && Shaped(g, e.a) && Shaped(g, AbstractAfter(e))
    requires forall r, k {:trigger PutAt(g, th, e, r, k)} :: PutAt(g, th, e, r, k)
    ensures TornNext(g, th, e)
  {
    HoldsWhenPut(g, th, th.pc.par);
    forall r, k | 0 <= r < g.rows && 0 <= k < g.disks && HoldsDisk(g, th, k)
      ensures e.a.media[r][k] == e.whole[r][k] || (HoldsDisk(g, th.(pc := e.pc), k) && TornBy(g, th.(pc := e.pc), e.whole, r, k))
    {
      assert PutAt(g, th, e, r, k);
    }
  }

  lemma TornData(g: Geometry, s: Sys, th: Thread)
    requires Sized(g, s) && Proper(g, th) && th.job.WriteJob? && HeldWhole(g, s, th) && th.pc.GotParity?
    ensures TornNext(g, th, WriteStep(g, s, th))
  {
    TornDataShape(g, s, th);
    var e := WriteStep(g, s, th);
    forall r, k ensures PutAt(g, th, e, r, k) {
      if 0 <= r < g.rows && 0 <= k < g.disks && HoldsDisk(g, th, k) { TornDataPuts(g, s, th, r, k); }
    }
    TornIfPut(g, th, e);
  }

  /** A row that gets its data but not yet its parity differs from the finished one in the parity at most. */
  lemma DataThenParity(media: seq<seq<Block>>, whole: seq<seq<Block>>, row: nat, d: nat, p: nat, data: Block, par: Block, r: nat, k: nat)
    requires r < |media| == |whole| && row < |media| && k < |media[r]| && k < |whole[r]|
    requires d < |media[row]| && d < |whole[row]| && p < |whole[row]| && media[r][k] == whole[r][k]
    ensures |PutBlock(media, row, d, data)[r]| == |media[r]|
    ensures |PutBlock(PutBlock(whole, row, d, data), row, p, par)[r]| == |whole[r]|
    ensures PutBlock(media, row, d, data)[r][k] == PutBlock(PutBlock(whole, row, d, data), row, p, par)[r][k] ||
            (r == row && k == p && PutBlock(PutBlock(whole, row, d, data), row, p, par)[r][k] == par)
  {
  }

  lemma TornParity(g: Geometry, s: Sys, th: Thread)
    requires Sized(g, s) && Proper(g, th) && th.job.WriteJob? && HeldWhole(g, s, th) && th.pc.DataPut?
    requires th.pc.par == s.whole[RowOf(g, th)][ParityOf(g, th)]
    ensures TornNext(g, th, WriteStep(g, s, th))
  {
    var (e, row, p) := (WriteStep(g, s, th), RowOf(g, th), ParityOf(g, th));
    var media := s.a.media;
    assert e.pc == BothPut && e.whole == s.whole && e.a == s.a.(media := PutBlock(media, row, p, th.pc.par));
    forall r, k | 0 <= r < g.rows && 0 <= k < g.disks && HoldsDisk(g, th, k) ensures e.a.media[r][k] == e.whole[r][k] {
      assert media[r][k] == s.whole[r][k] || TornBy(g, th, s.whole, r, k);
    }
  }

  lemma TornLoading(g: Geometry, s: Sys, th: Thread)
    requires Sized(g, s) && Proper(g, th) && th.job.WriteJob? && HeldWhole(g, s, th) && th.pc.LoadingRow?
    requires Proper(g, th.(pc := WriteStep(g, s, th).pc))
    ensures TornNext(g, th, WriteStep(g, s, th))
  {
    var (e, r) := (WriteStep(g, s, th), th.pc.row);
    TornTouch(g, s, th, r, LoadRow(s.a.media[r], s.a.valid, ParityDisk(g, r)), e.pc);
  }

  lemma TornRecon(g: Geometry, s: Sys, th: Thread)
    requires Sized(g, s) && Proper(g, th) && th.job.WriteJob? && HeldWhole(g, s, th) && th.pc.ReconWork?
    requires Proper(g, th.(pc := WriteStep(g, s, th).pc))
    ensures TornNext(g, th, WriteStep(g, s, th))
  {
    var (e, row) := (WriteStep(g, s, th), RowOf(g, th));
    TornTouch(g, s, th, row, e.whole[row], e.pc);
  }

  lemma TornQuiet(g: Geometry, s: Sys, th: Thread)
    requires Sized(g, s) && Proper(g, th) && th.job.WriteJob? && HeldWhole(g, s, th) && IsWriting(th.pc)
    requires !th.pc.OneHeld? && !th.pc.GotParity? && !th.pc.DataPut? && !th.pc.LoadingRow? && !th.pc.ReconWork?
    requires Proper(g, th.(pc := WriteStep(g, s, th).pc))
    ensures TornNext(g, th, WriteStep(g, s, th))
  {
    TornSame(g, s, th, WriteStep(g, s, th));
  }

  lemma TornWrite(g: Geometry, s: Sys, th: Thread)
    requires Sized(g, s) && Proper(g, th) && th.job.WriteJob? && HeldWhole(g, s, th) && IsWriting(th.pc)
    requires WriterRmw(g, s.a, s.whole, th) && Proper(g, th.(pc := WriteStep(g, s, th).pc))
    ensures TornNext(g, th, WriteStep(g, s, th))
  {
    if th.pc.OneHeld? {
      TornSingle(g, s, th);
    } else if th.pc.GotParity? {
      TornData(g, s, th);
    } else if th.pc.DataPut? {
      TornParity(g, s, th);
    } else if th.pc.LoadingRow? {
      TornLoading(g, s, th);
    } else if th.pc.ReconWork? {
      TornRecon(g, s, th);
    } else {
      TornQuiet(g, s, th);
    }
  }

  lemma TornRepair(g: Geometry, s: Sys, th: Thread)
    requires Sized(g, s) && Proper(g, th) && th.job.RepairJob? && HeldWhole(g, s, th) && IsWriting(th.pc)
    requires Proper(g, th.(pc := RepairStep(g, s, th).pc))
    ensures TornNext(g, th, RepairStep(g, s, th))
  {
    var e := RepairStep(g, s, th);
    if th.pc.RebuildAt? {
      TornTouch(g, s, th, th.pc.row, e.whole[th.pc.row], e.pc);
    } else {
      TornSame(g, s, th, e);
    }
  }

  lemma TornGate(g: Geometry, s: Sys, th: Thread)
    requires Sized(g, s) && Proper(g, th) && HeldWhole(g, s, th) && IsGate(th.pc)
    requires Proper(g, th.(pc := GateStep(s, th).pc))
    ensures TornNext(g, th, GateStep(s, th))
  {
    TornSame(g, s, th, GateStep(s, th));
  }

  lemma TornLock(g: Geometry, s: Sys, th: Thread)
    requires Sized(g, s) && Proper(g, th) && HeldWhole(g, s, th) && IsLocking(th.pc)
    requires Proper(g, th.(pc := LockStep(g, s, th).pc))
    ensures TornNext(g, th, LockStep(g, s, th))
  {
    TornSame(g, s, th, LockStep(g, s, th));
  }

  lemma TornAct(g: Geometry, s: Sys, t: nat, image: Block)
    requires Sized(g, s) && t < |s.threads| && !s.threads[t].pc.Idle? && !s.threads[t].pc.Asleep?
    requires HeldWhole(g, s, s.threads[t]) && LocalOk(g, s.a, s.whole, s.threads[t])
    requires Proper(g, s.threads[t].(pc := Act(g, s, t, image).pc))
    ensures TornNext(g, s.threads[t], Act(g, s, t, image))
  {
    var th := s.threads[t];
    if IsGate(th.pc) {
      TornGate(g, s, th);
    } else if IsLocking(th.pc) {
      TornLock(g, s, th);
    } else if th.pc.LostWork? {
      TornSame(g, s, th, Move(s, Give(0, ReadLost)));
    } else if th.pc.MetaWork? {
      TornTouch(g, s, th, DiskBlocks(g), MetaRow(s.a.media[DiskBlocks(g)], s.a.valid, image), Give(0, th.pc.why));
    } else if th.job.WriteJob? {
      TornWrite(g, s, th);
    } else if th.job.RepairJob? {
      TornRepair(g, s, th);
    } else {
      TornSame(g, s, th, Act(g, s, t, image));
    }
  }
}
