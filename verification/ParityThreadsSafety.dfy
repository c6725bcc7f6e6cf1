/** Safety and deadlock freedom of every run of concurrent RAID4 and RAID5 calls. */
module ParityThreadsSafety {
  import opened Blocks
  import opened Layouts
  import opened ParityArray
  import opened ParityRuns
  import opened ParityThreads
  import opened ParityThreadsProof

  // Applying one thread's effect to the whole system.

  lemma WokenSame(g: Geometry, th: Thread, wake: Wake)
    requires Proper(g, th)
    ensures Proper(g, Woken(th, wake))
    ensures forall k: nat :: HoldsDisk(g, Woken(th, wake), k) == HoldsDisk(g, th, k)
    ensures HoldsCluster(Woken(th, wake)) == HoldsCluster(th)
    ensures InWrite(Woken(th, wake)) == InWrite(th) && InRepair(Woken(th, wake)) == InRepair(th)
    ensures PastGate(Woken(th, wake)) == PastGate(th)
    ensures Woken(th, wake).pc.DataPut? || th.pc.DataPut? ==> Woken(th, wake) == th
    ensures Woken(th, wake).job == th.job
  {
  }

  ghost predicate GoodEffect(g: Geometry, s: Sys, t: nat, e: Effect)
    requires Sized(g, s) && t < |s.threads|
  {
    var th := s.threads[t];
    LocksAgree(g, th, e) && CountsAgree(s, th, e) && Framed(g, s, th, e)
    && NextOk(g, th, e) && TornNext(g, th, e) && Sound(g, AbstractAfter(e), e.last)
  }

  lemma ActGood(g: Geometry, s: Sys, t: nat, image: Block)
    requires Inv(g, s) && t < |s.threads| && Enabled(g, s, t)
    ensures GoodEffect(g, s, t, Act(g, s, t, image))
  {
    LocksAgreeAct(g, s, t, image);
    CountsAgreeAct(g, s, t, image);
    FramedAct(g, s, t, image);
    LocalAct(g, s, t, image);
    InvHeldWhole(g, s, t);
    TornAct(g, s, t, image);
    SoundAct(g, s, t, image);
  }

  lemma ApplySized(g: Geometry, s: Sys, t: nat, e: Effect)
    requires Sized(g, s) && t < |s.threads| && NextOk(g, s.threads[t], e)
    ensures Sized(g, Apply(s, t, e))
  {
    forall u | 0 <= u < |s.threads| ensures Proper(g, Apply(s, t, e).threads[u]) {
      WokenSame(g, s.threads[u], e.wake);
    }
  }

  lemma ApplyOwnsDisks(g: Geometry, s: Sys, t: nat, e: Effect)
    requires Sized(g, s) && OwnsDisks(g, s) && t < |s.threads| && Enabled(g, s, t)
    requires LocksAgree(g, s.threads[t], e) && Sized(g, Apply(s, t, e))
    ensures OwnsDisks(g, Apply(s, t, e))
  {
    var s' := Apply(s, t, e);
    forall k, u | 0 <= k < g.disks && 0 <= u < |s.threads|
      ensures s'.disk[k] == HeldBy(u) <==> HoldsDisk(g, s'.threads[u], k)
    {
      WokenSame(g, s.threads[u], e.wake);
      assert s.disk[k] == HeldBy(u) <==> HoldsDisk(g, s.threads[u], k);
      assert s.disk[k] == HeldBy(t) <==> HoldsDisk(g, s.threads[t], k);
    }
  }

  lemma ApplyOwnsCluster(g: Geometry, s: Sys, t: nat, e: Effect)
    requires Sized(g, s) && OwnsCluster(s) && t < |s.threads| && Enabled(g, s, t)
    requires LocksAgree(g, s.threads[t], e)
    ensures OwnsCluster(Apply(s, t, e))
  {
    var s' := Apply(s, t, e);
    forall u | 0 <= u < |s.threads|
      ensures s'.cluster == HeldBy(u) <==> HoldsCluster(s'.threads[u])
    {
      WokenSame(g, s.threads[u], e.wake);
    }
  }

  lemma ApplyFlags(g: Geometry, s: Sys, t: nat, e: Effect)
    requires Sized(g, s) && t < |s.threads|
    ensures var (s', th') := (Apply(s, t, e), s.threads[t].(pc := e.pc));
            && WriteFlags(s'.threads) == WriteFlags(s.threads)[t := InWrite(th')]
            && RepairFlags(s'.threads) == RepairFlags(s.threads)[t := InRepair(th')]
  {
    var s' := Apply(s, t, e);
    forall u | 0 <= u < |s.threads| && u != t
      ensures InWrite(s'.threads[u]) == InWrite(s.threads[u]) && InRepair(s'.threads[u]) == InRepair(s.threads[u])
    {
      WokenSame(g, s.threads[u], e.wake);
    }
  }

  lemma ApplyCounted(g: Geometry, s: Sys, t: nat, e: Effect)
    requires Sized(g, s) && Counted(s) && t < |s.threads| && CountsAgree(s, s.threads[t], e)
    ensures Counted(Apply(s, t, e))
  {
    var th' := s.threads[t].(pc := e.pc);
    ApplyFlags(g, s, t, e);
    CountUpdate(WriteFlags(s.threads), t, InWrite(th'));
    CountUpdate(RepairFlags(s.threads), t, InRepair(th'));
  }

  /** The counters are zero exactly when no thread is in the section they count. */
  lemma CountersMean(s: Sys)
    requires Counted(s)
    ensures s.writecount >= 0 && s.repairing >= 0
    ensures s.writecount == 0 <==> forall t | 0 <= t < |s.threads| :: !InWrite(s.threads[t])
    ensures s.repairing == 0 <==> forall t | 0 <= t < |s.threads| :: !InRepair(s.threads[t])
  {
    CountZero(WriteFlags(s.threads));
    CountZero(RepairFlags(s.threads));
    assert forall t | 0 <= t < |s.threads| :: WriteFlags(s.threads)[t] == InWrite(s.threads[t]);
    assert forall t | 0 <= t < |s.threads| :: RepairFlags(s.threads)[t] == InRepair(s.threads[t]);
  }

  lemma ApplyGated(g: Geometry, s: Sys, t: nat, e: Effect)
    requires Sized(g, s) && Counted(s) && Gated(s) && t < |s.threads| && CountsAgree(s, s.threads[t], e)
    ensures Gated(Apply(s, t, e))
  {
    var s' := Apply(s, t, e);
    CountersMean(s);
    forall x, u | 0 <= x < |s.threads| && 0 <= u < |s.threads| && PastGate(s'.threads[x])
      ensures !InWrite(s'.threads[u])
    {
      WokenSame(g, s.threads[x], e.wake);
      WokenSame(g, s.threads[u], e.wake);
      if x == t && !PastGate(s.threads[t]) {
        assert s.writecount == 0;
      }
    }
  }

  lemma ApplySleeps(g: Geometry, s: Sys, t: nat, e: Effect)
    requires Sized(g, s) && Counted(s) && SleepsForCause(s) && t < |s.threads| && CountsAgree(s, s.threads[t], e)
    ensures SleepsForCause(Apply(s, t, e))
  {
    CountersMean(s);
  }

  lemma ApplyLocal(g: Geometry, s: Sys, t: nat, e: Effect)
    requires Inv(g, s) && t < |s.threads| && Framed(g, s, s.threads[t], e) && NextOk(g, s.threads[t], e)
    requires Sized(g, Apply(s, t, e))
    ensures forall u | 0 <= u < |s.threads| :: LocalOk(g, e.a, e.whole, Apply(s, t, e).threads[u])
  {
    forall u | 0 <= u < |s.threads|
      ensures LocalOk(g, e.a, e.whole, Apply(s, t, e).threads[u])
    {
      if u != t {
        InvApart(g, s, t, u);
        OtherLocalOk(g, s, s.threads[t], e, s.threads[u]);
      }
    }
  }

  /** A block under another thread's lock is torn only as before, by that thread. */
  lemma TornElsewhere(g: Geometry, s: Sys, t: nat, e: Effect, r: nat, k: nat)
    requires Inv(g, s) && t < |s.threads| && Enabled(g, s, t)
    requires LocksAgree(g, s.threads[t], e) && Framed(g, s, s.threads[t], e)
    requires Sized(g, Apply(s, t, e)) && OwnsDisks(g, Apply(s, t, e))
    requires r < g.rows && k < g.disks && !HoldsDisk(g, s.threads[t], k) && e.a.media[r][k] != e.whole[r][k]
    ensures var s' := Apply(s, t, e);
            s'.disk[k].HeldBy? && TornBy(g, s'.threads[s'.disk[k].t], s'.whole, r, k)
  {
    var s' := Apply(s, t, e);
    var u := s.disk[k].t;
    assert s.disk[k].HeldBy? && TornBy(g, s.threads[u], s.whole, r, k);
    assert s.disk[k] == HeldBy(t) <==> HoldsDisk(g, s.threads[t], k);
    WokenSame(g, s.threads[u], e.wake);
    assert s'.threads[u] == s.threads[u] && s'.disk[k] == HeldBy(u);
  }

  lemma ApplyTorn(g: Geometry, s: Sys, t: nat, e: Effect)
    requires Inv(g, s) && t < |s.threads| && Enabled(g, s, t)
    requires LocksAgree(g, s.threads[t], e) && Framed(g, s, s.threads[t], e) && TornNext(g, s.threads[t], e)
    requires Sized(g, Apply(s, t, e)) && OwnsDisks(g, Apply(s, t, e))
    ensures TornOnlyUnderLock(g, Apply(s, t, e))
  {
    var s' := Apply(s, t, e);
    forall r, k | 0 <= r < g.rows && 0 <= k < g.disks && s'.a.media[r][k] != s'.whole[r][k]
      ensures s'.disk[k].HeldBy? && TornBy(g, s'.threads[s'.disk[k].t], s'.whole, r, k)
    {
      if HoldsDisk(g, s.threads[t], k) {
        assert s'.disk[k] == HeldBy(t) <==> HoldsDisk(g, s'.threads[t], k);
      } else {
        TornElsewhere(g, s, t, e, r, k);
      }
    }
  }

  lemma StepKeeps(g: Geometry, s: Sys, t: nat, image: Block)
    requires Inv(g, s) && t < |s.threads| && Enabled(g, s, t)
    ensures Inv(g, Apply(s, t, Act(g, s, t, image)))
  {
    var e := Act(g, s, t, image);
    ActGood(g, s, t, image);
    ApplySized(g, s, t, e);
    ApplyOwnsDisks(g, s, t, e);
    ApplyOwnsCluster(g, s, t, e);
    ApplyCounted(g, s, t, e);
    ApplyGated(g, s, t, e);
    ApplySleeps(g, s, t, e);
    ApplyLocal(g, s, t, e);
    ApplyTorn(g, s, t, e);
    var s' := Apply(s, t, e);
    assert Abstract(s') == AbstractAfter(e);
    forall u | 0 <= u < |s.threads| ensures Addressed(g, s'.threads[u].job) {
      WokenSame(g, s.threads[u], e.wake);
    }
  }

  // The other events.

  /** Replacing thread t by one with the same locks and the same place at the gate. */
  lemma SwapKeeps(g: Geometry, s: Sys, t: nat, th: Thread)
    requires Inv(g, s) && t < |s.threads| && Proper(g, th) && Addressed(g, th.job)
    requires LocalOk(g, s.a, s.whole, th)
    requires !th.pc.Asleep? && !th.pc.DataPut? && !s.threads[t].pc.DataPut?
    requires forall k: nat :: !HoldsDisk(g, th, k) && !HoldsDisk(g, s.threads[t], k)
    requires !HoldsCluster(th) && !HoldsCluster(s.threads[t])
    requires InWrite(th) == InWrite(s.threads[t]) && InRepair(th) == InRepair(s.threads[t])
    requires PastGate(th) == PastGate(s.threads[t])
    ensures Inv(g, s.(threads := s.threads[t := th]))
  {
    var s' := s.(threads := s.threads[t := th]);
    assert WriteFlags(s'.threads) == WriteFlags(s.threads);
    assert RepairFlags(s'.threads) == RepairFlags(s.threads);
    forall k, u | 0 <= k < g.disks && 0 <= u < |s.threads|
      ensures s'.disk[k] == HeldBy(u) <==> HoldsDisk(g, s'.threads[u], k)
    {
      assert s.disk[k] == HeldBy(u) <==> HoldsDisk(g, s.threads[u], k);
    }
    SwapTorn(g, s, t, th);
  }

  lemma SwapTorn(g: Geometry, s: Sys, t: nat, th: Thread)
    requires Inv(g, s) && t < |s.threads| && Proper(g, th) && !s.threads[t].pc.DataPut?
    requires Sized(g, s.(threads := s.threads[t := th])) && OwnsDisks(g, s.(threads := s.threads[t := th]))
    ensures TornOnlyUnderLock(g, s.(threads := s.threads[t := th]))
  {
    var s' := s.(threads := s.threads[t := th]);
    forall r, k | 0 <= r < g.rows && 0 <= k < g.disks && s'.a.media[r][k] != s'.whole[r][k]
      ensures s'.disk[k].HeldBy? && TornBy(g, s'.threads[s'.disk[k].t], s'.whole, r, k)
    {
      assert TornBy(g, s.threads[s.disk[k].t], s.whole, r, k);
    }
  }

  lemma StartKeeps(g: Geometry, s: Sys, t: nat, job: Job)
    requires Inv(g, s) && CanHappen(g, s, Start(t, job))
    ensures Inv(g, Happen(g, s, Start(t, job)))
  {
    SwapKeeps(g, s, t, Begin(g, s, job));
  }

  lemma SpuriousKeeps(g: Geometry, s: Sys, t: nat)
    requires Inv(g, s) && CanHappen(g, s, Spurious(t))
    ensures Inv(g, Happen(g, s, Spurious(t)))
  {
    SwapKeeps(g, s, t, s.threads[t].(pc := if s.threads[t].job.WriteJob? then Enter else WaitGate));
  }

  lemma IdleWhole(g: Geometry, s: Sys)
    requires Inv(g, s) && AllIdle(s)
    ensures s.whole == s.a.media && Abstract(s) == s.a
  {
    forall r | 0 <= r < g.rows ensures s.whole[r] == s.a.media[r] {
      forall k | 0 <= k < g.disks ensures s.whole[r][k] == s.a.media[r][k] {
        assert s.disk[k].HeldBy? ==> !TornBy(g, s.threads[s.disk[k].t], s.whole, r, k);
      }
    }
  }

  lemma IdleSwapOwns(g: Geometry, s: Sys, a: Array)
    requires Sized(g, s) && OwnsDisks(g, s) && Shaped(g, a)
    ensures Sized(g, s.(a := a, whole := a.media)) && OwnsDisks(g, s.(a := a, whole := a.media))
  {
    var s' := s.(a := a, whole := a.media);
    assert Abstract(s') == a;
    forall k, t | 0 <= k < g.disks && 0 <= t < |s.threads|
      ensures s'.disk[k] == HeldBy(t) <==> HoldsDisk(g, s'.threads[t], k)
    {
      assert s.disk[k] == HeldBy(t) <==> HoldsDisk(g, s.threads[t], k);
    }
  }

  lemma IdleLocalOk(g: Geometry, a: Array, whole: seq<seq<Block>>, th: Thread)
    requires ParityGeometry(g) && Shaped(g, a) && Shaped(g, a.(media := whole)) && Proper(g, th) && th.pc.Idle?
    ensures LocalOk(g, a, whole, th)
  {
  }

  /** With every call finished, the disks and flags may be swapped for any other sound array. */
  lemma IdleSwapKeeps(g: Geometry, s: Sys, a: Array)
    requires Inv(g, s) && AllIdle(s) && Shaped(g, a) && Sound(g, a, s.last)
    ensures Inv(g, s.(a := a, whole := a.media))
  {
    var s' := s.(a := a, whole := a.media);
    assert Abstract(s') == a && a.(media := a.media) == a;
    IdleSwapOwns(g, s, a);
    forall t | 0 <= t < |s.threads| ensures LocalOk(g, s'.a, s'.whole, s'.threads[t]) { IdleLocalOk(g, a, a.media, s.threads[t]); }
  }

  lemma FailsKeeps(g: Geometry, s: Sys, d: nat, image: Block)
    requires Inv(g, s) && CanHappen(g, s, Fails(d, image))
    ensures Inv(g, Happen(g, s, Fails(d, image)))
  {
    IdleWhole(g, s);
    FailKeeps(g, s.a, s.last, d + 1, image);
    IdleSwapKeeps(g, s, Fail(g, s.a, d + 1, image).1);
  }

  lemma ScrambledKeeps(g: Geometry, s: Sys, d: nat, junk: seq<Block>)
    requires Inv(g, s) && CanHappen(g, s, Scrambled(d, junk))
    ensures Inv(g, Happen(g, s, Scrambled(d, junk)))
  {
    IdleWhole(g, s);
    ScrambleKeeps(g, s.a, s.last, d, junk);
    IdleSwapKeeps(g, s, Scramble(g, s.a, d, junk));
  }

  lemma EventKeeps(g: Geometry, s: Sys, e: Event)
    requires Inv(g, s) && CanHappen(g, s, e)
    ensures Inv(g, Happen(g, s, e))
  {
    match e
    case Start(t, job) => StartKeeps(g, s, t, job);
    case StepOf(t, image) => StepKeeps(g, s, t, image);
    case Spurious(t) => SpuriousKeeps(g, s, t);
    case Fails(d, image) => FailsKeeps(g, s, d, image);
    case Scrambled(d, junk) => ScrambledKeeps(g, s, d, junk);
  }

  lemma IdleThread(g: Geometry, a: Array, whole: seq<seq<Block>>, th: Thread)
    requires Proper(g, th) && th.pc.Idle? && Shaped(g, a) && Shaped(g, a.(media := whole))
    ensures LocalOk(g, a, whole, th)
    ensures !InWrite(th) && !InRepair(th) && !PastGate(th) && !HoldsCluster(th)
    ensures forall k: nat :: !HoldsDisk(g, th, k)
  {
  }

  lemma InitialInv(g: Geometry, s: Sys)
    requires Initial(g, s)
    ensures Inv(g, s)
  {
    forall t | 0 <= t < |s.threads|
      ensures LocalOk(g, s.a, s.whole, s.threads[t])
      ensures !InWrite(s.threads[t]) && !InRepair(s.threads[t]) && !PastGate(s.threads[t])
      ensures !HoldsCluster(s.threads[t]) && forall k: nat :: !HoldsDisk(g, s.threads[t], k)
    {
      IdleThread(g, s.a, s.whole, s.threads[t]);
    }
    CountZero(WriteFlags(s.threads));
    CountZero(RepairFlags(s.threads));
    assert Sound(g, Abstract(s), map[]) by {
      assert forall row :: !Covered(g, Abstract(s), row);
    }
  }

  // Runs.

  /** Some sequence of events, each possible when it happens, leads from s to s'. */
  ghost predicate Reaches(g: Geometry, s: Sys, events: seq<Event>, s': Sys)
    decreases |events|
  {
    if events == [] then s == s'
    else Sized(g, s) && CanHappen(g, s, events[0]) && Reaches(g, Happen(g, s, events[0]), events[1..], s')
  }

  lemma {:induction false} ReachableInv(g: Geometry, s: Sys, events: seq<Event>, s': Sys)
    requires Inv(g, s) && Reaches(g, s, events, s')
    ensures Inv(g, s')
    decreases |events|
  {
    if events != [] {
      EventKeeps(g, s, events[0]);
      ReachableInv(g, Happen(g, s, events[0]), events[1..], s');
    }
  }

  /** Thread t is between writing its data block and writing the parity of the given row. */
  ghost predicate MidUpdate(g: Geometry, s: Sys, t: nat, row: nat)
    requires Sized(g, s)
  {
    t < |s.threads| && s.threads[t].pc.DataPut? && RowOf(g, s.threads[t]) == row
  }

  lemma UntornRow(g: Geometry, s: Sys, row: nat)
    requires Inv(g, s) && row < g.rows && forall t: nat :: !MidUpdate(g, s, t, row)
    ensures s.a.media[row] == s.whole[row]
  {
    forall k | 0 <= k < g.disks ensures s.a.media[row][k] == s.whole[row][k] {
      assert s.a.media[row][k] == s.whole[row][k] || (s.disk[k].HeldBy? && MidUpdate(g, s, s.disk[k].t, row));
    }
  }

  /**
   In every interleaving, with every disk valid, a row of a loaded cluster cancels out whenever
   no writer is between its data and its parity write; and such a writer holds the row's parity lock.
   */
  lemma ParityBetweenUpdates(g: Geometry, s0: Sys, events: seq<Event>, s: Sys, row: nat)
    requires Initial(g, s0) && Reaches(g, s0, events, s)
    ensures Sized(g, s)
    ensures AllValid(s.a.valid) && Covered(g, s.a, row) && (forall t: nat :: !MidUpdate(g, s, t, row))
            ==> XorAll(s.a.media[row]) == Zero()
    ensures forall t: nat :: MidUpdate(g, s, t, row) ==> s.disk[ParityDisk(g, row)] == HeldBy(t)
  {
    InitialInv(g, s0);
    ReachableInv(g, s0, events, s);
    if AllValid(s.a.valid) && Covered(g, s.a, row) && forall t: nat :: !MidUpdate(g, s, t, row) {
      UntornRow(g, s, row);
      assert Covered(g, Abstract(s), row);
    }
    forall t: nat | MidUpdate(g, s, t, row) ensures s.disk[ParityDisk(g, row)] == HeldBy(t) {
      assert HoldsDisk(g, s.threads[t], ParityDisk(g, row));
    }
  }

  /** The next step of thread t changes the block of disk k in the given row. */
  ghost predicate Changes(g: Geometry, s: Sys, t: nat, image: Block, row: nat, k: nat)
    requires Sized(g, s) && t < |s.threads| && row < g.rows && k < g.disks
  {
    var media := Act(g, s, t, image).a.media;
    row < |media| && k < |media[row]| && media[row][k] != s.a.media[row][k]
  }

  lemma ChangedDiskHeld(g: Geometry, s: Sys, t: nat, image: Block, row: nat, k: nat)
    requires Sized(g, s) && t < |s.threads| && row < g.rows && k < g.disks && Changes(g, s, t, image, row, k)
    ensures HoldsDisk(g, s.threads[t], k)
  {
    FramedAct(g, s, t, image);
  }

  lemma ChangedRowLoaded(g: Geometry, s: Sys, t: nat, image: Block, row: nat, k: nat)
    requires Sized(g, s) && t < |s.threads| && LocalOk(g, s.a, s.whole, s.threads[t])
    requires row < DiskBlocks(g) && k < g.disks && k != ParityDisk(g, row)
    requires Changes(g, s, t, image, row, k)
    ensures Covered(g, s.a, row)
  {
    ClusterInRange(g, row);
    var th := s.threads[t];
    if th.job.WriteJob? && IsWriting(th.pc) {
      assert row == RowOf(g, th);
    }
  }

  /** A step that changes a data block does so in a loaded cluster, with the block's disk lock held. */
  lemma DataWrittenOnlyWhenLoaded(g: Geometry, s0: Sys, events: seq<Event>, s: Sys, t: nat, image: Block, row: nat, k: nat)
    requires Initial(g, s0) && Reaches(g, s0, events, s)
    requires Sized(g, s) && t < |s.threads| && Enabled(g, s, t)
    requires row < DiskBlocks(g) && k < g.disks && k != ParityDisk(g, row)
    requires Changes(g, s, t, image, row, k)
    ensures Covered(g, s.a, row) && s.disk[k] == HeldBy(t)
  {
    InitialInv(g, s0);
    ReachableInv(g, s0, events, s);
    ChangedDiskHeld(g, s, t, image, row, k);
    ChangedRowLoaded(g, s, t, image, row, k);
  }

  // Reads and writes behave as if each happened at one instant of its call.

  /** The write has taken effect. */
  ghost predicate Applied(pc: Pc)
  {
    (pc.Give? && pc.why.Recon?) || pc.OneDone? || pc.DataPut? || pc.BothPut? || pc.OneLeft? || pc.Leave?
  }

  lemma EffectOfStep(g: Geometry, s: Sys, t: nat, image: Block)
    requires Sized(g, s) && t < |s.threads| && !s.threads[t].pc.Idle? && !s.threads[t].pc.Asleep?
    ensures var (th, e) := (s.threads[t], Act(g, s, t, image));
            if th.job.WriteJob? then
              && e.last == (if !Applied(th.pc) && Applied(e.pc) then s.last[th.job.v := th.job.data] else s.last)
              && (Applied(th.pc) ==> Applied(e.pc) || e.pc.Idle?)
              && (e.pc.Idle? ==> Applied(th.pc))
            else
              e.last == s.last
  {
    var th := s.threads[t];
    if th.job.WriteJob? && IsWriting(th.pc) {
      var e := WriteStep(g, s, th);
      assert Act(g, s, t, image) == e;
    }
  }

  /** A write of a thread taking effect. */
  datatype Put = Put(t: nat, v: nat, data: Block)

  ghost function PutOf(t: nat, job: Job): Put
    requires job.WriteJob?
  {
    Put(t, job.v, job.data)
  }

  /** Has taken effect or returned. */
  ghost predicate IsDone(th: Thread) { th.pc.Idle? || Applied(th.pc) }

  /** The write that takes effect with this event, if one does. */
  ghost function PutsWith(g: Geometry, s: Sys, e: Event): (r: seq<Put>)
    requires Sized(g, s) && CanHappen(g, s, e)
  {
    if e.StepOf? && s.threads[e.t].job.WriteJob? && !Applied(s.threads[e.t].pc) && Applied(Act(g, s, e.t, e.image).pc)
    then [PutOf(e.t, s.threads[e.t].job)] else []
  }

  /** The writes that take effect in a run, in order. */
  ghost function Puts(g: Geometry, s: Sys, events: seq<Event>, s': Sys): (r: seq<Put>)
    requires Reaches(g, s, events, s')
    decreases |events|
  {
    if events == [] then [] else PutsWith(g, s, events[0]) + Puts(g, Happen(g, s, events[0]), events[1..], s')
  }

  ghost function Replayed(last: map<nat, Block>, puts: seq<Put>): (r: map<nat, Block>)
    decreases |puts|
  {
    if puts == [] then last else Replayed(last[puts[0].v := puts[0].data], puts[1..])
  }

  ghost function By(t: nat, puts: seq<Put>): (r: seq<Put>)
  {
    if puts == [] then [] else (if puts[0].t == t then [puts[0]] else []) + By(t, puts[1..])
  }

  lemma LastWith(g: Geometry, s: Sys, e: Event)
    requires Sized(g, s) && CanHappen(g, s, e)
    ensures Happen(g, s, e).last == Replayed(s.last, PutsWith(g, s, e))
  {
    if e.StepOf? {
      EffectOfStep(g, s, e.t, e.image);
    }
  }

  lemma {:induction false} ReplayedAppend(last: map<nat, Block>, a: seq<Put>, b: seq<Put>)
    ensures Replayed(last, a + b) == Replayed(Replayed(last, a), b)
    decreases |a|
  {
    if a == [] {
      assert a + b == b;
    } else {
      assert (a + b)[1..] == a[1..] + b;
      ReplayedAppend(last[a[0].v := a[0].data], a[1..], b);
    }
  }

  /** The data of the last write to each block is what the effects of the run leave, one after the other. */
  lemma {:induction false} LastIsReplay(g: Geometry, s: Sys, events: seq<Event>, s': Sys)
    requires Reaches(g, s, events, s')
    ensures s'.last == Replayed(s.last, Puts(g, s, events, s'))
    decreases |events|
  {
    if events != [] {
      var next := Happen(g, s, events[0]);
      LastWith(g, s, events[0]);
      LastIsReplay(g, next, events[1..], s');
      ReplayedAppend(s.last, PutsWith(g, s, events[0]), Puts(g, next, events[1..], s'));
    }
  }

  lemma {:induction false} ByAppend(t: nat, a: seq<Put>, b: seq<Put>)
    ensures By(t, a + b) == By(t, a) + By(t, b)
    decreases |a|
  {
    if a == [] {
      assert a + b == b;
    } else {
      var head := if a[0].t == t then [a[0]] else [];
      assert (a + b)[1..] == a[1..] + b && (a + b)[0] == a[0];
      ByAppend(t, a[1..], b);
      assert head + (By(t, a[1..]) + By(t, b)) == head + By(t, a[1..]) + By(t, b);
    }
  }

  /** An event that starts no call of thread t: a write of t takes effect with it just when it becomes done. */
  lemma EffectWith(g: Geometry, s: Sys, e: Event, t: nat)
    requires Sized(g, s) && CanHappen(g, s, e) && t < |s.threads| && s.threads[t].job.WriteJob? && !(e.Start? && e.t == t)
    ensures var (th, s') := (s.threads[t], Happen(g, s, e));
            && |s'.threads| == |s.threads| && s'.threads[t].job == th.job && (IsDone(th) ==> IsDone(s'.threads[t]))
            && By(t, PutsWith(g, s, e)) == if !IsDone(th) && IsDone(s'.threads[t]) then [PutOf(t, th.job)] else []
  {
    if e.StepOf? {
      EffectOfStep(g, s, e.t, e.image);
    }
  }

  /**
   From where a write has entered, through any run in which its thread starts no other call: it has
   taken effect exactly once, with its own data, once it is done, and in particular once it has returned.
   */
  lemma {:induction false} WritesTakeEffectOnce(g: Geometry, s: Sys, events: seq<Event>, s': Sys, t: nat)
    requires Reaches(g, s, events, s') && t < |s.threads| && s.threads[t].job.WriteJob?
    requires forall e | e in events :: !(e.Start? && e.t == t)
    ensures t < |s'.threads| && (IsDone(s.threads[t]) ==> IsDone(s'.threads[t]))
    ensures By(t, Puts(g, s, events, s')) ==
              if !IsDone(s.threads[t]) && IsDone(s'.threads[t]) then [PutOf(t, s.threads[t].job)] else []
    decreases |events|
  {
    if events != [] {
      var next := Happen(g, s, events[0]);
      assert events[0] in events && forall e | e in events[1..] :: e in events;
      EffectWith(g, s, events[0], t);
      WritesTakeEffectOnce(g, next, events[1..], s', t);
      ByAppend(t, PutsWith(g, s, events[0]), Puts(g, next, events[1..], s'));
    }
  }

  /** What a read is about to return, at the step where it touches the disks. */
  ghost function Seen(g: Geometry, s: Sys, th: Thread): Block
    requires Sized(g, s) && Proper(g, th) && th.job.ReadJob? && (th.pc.OneHeld? || th.pc.LostWork?)
  {
    var (d, row) := (DataDisk(g, th), RowOf(g, th));
    if th.pc.OneHeld? then s.a.media[row][d] else XorOthers(s.a.media[row], d)
  }

  lemma SingleReadSees(g: Geometry, s: Sys, th: Thread)
    requires Sized(g, s) && Proper(g, th) && th.job.ReadJob? && th.pc.OneHeld? && th.job.v in s.last
    requires HeldWhole(g, s, th) && ReaderOk(g, s.a, th) && Addressed(g, th.job) && Sound(g, Abstract(s), s.last)
    ensures Seen(g, s, th) == s.last[th.job.v]
  {
    assert Holds(g, Abstract(s), th.job.v, s.last[th.job.v]);
    assert HoldsDisk(g, th, DataDisk(g, th));
    assert s.a.media[RowOf(g, th)][DataDisk(g, th)] == s.whole[RowOf(g, th)][DataDisk(g, th)];
  }

  /** A block whose disk was repaired while the read waited still reconstructs to what is on its disk. */
  lemma LostReadSees(g: Geometry, s: Sys, th: Thread)
    requires Sized(g, s) && Proper(g, th) && th.job.ReadJob? && th.pc.LostWork? && th.job.v in s.last
    requires HeldWhole(g, s, th) && ReaderOk(g, s.a, th) && Addressed(g, th.job) && Sound(g, Abstract(s), s.last)
    ensures Seen(g, s, th) == s.last[th.job.v]
  {
    var (d, row) := (DataDisk(g, th), RowOf(g, th));
    assert Holds(g, Abstract(s), th.job.v, s.last[th.job.v]);
    AllHeldWhole(g, s, th, row);
    if s.a.valid[d] {
      assert AllValid(s.a.valid);
      assert Covered(g, Abstract(s), row);
      ReconstructIff(s.whole[row], d);
    }
  }

  /** In every interleaving a read returns the last write to have taken effect on its block. */
  lemma ReadsSeeLastEffect(g: Geometry, s0: Sys, events: seq<Event>, s: Sys, t: nat)
    requires Initial(g, s0) && Reaches(g, s0, events, s) && Sized(g, s) && t < |s.threads|
    requires var th := s.threads[t];
             th.job.ReadJob? && (th.pc.OneHeld? || th.pc.LostWork?) && th.job.v in s.last
    ensures Seen(g, s, s.threads[t]) == s.last[s.threads[t].job.v]
  {
    InitialInv(g, s0);
    ReachableInv(g, s0, events, s);
    InvHeldWhole(g, s, t);
    if s.threads[t].pc.OneHeld? {
      SingleReadSees(g, s, s.threads[t]);
    } else {
      LostReadSees(g, s, s.threads[t]);
    }
  }

  /** Once every call has returned, the array holds the last write to take effect on every block. */
  lemma QuietArrayIsSound(g: Geometry, s0: Sys, events: seq<Event>, s: Sys, v: nat)
    requires Initial(g, s0) && Reaches(g, s0, events, s) && AllIdle(s) && v in s.last
    ensures ParityGeometry(g) && Shaped(g, s.a)
    ensures Read(g, s.a, v).0.Ok? ==> Read(g, s.a, v).1 == s.last[v]
  {
    InitialInv(g, s0);
    ReachableInv(g, s0, events, s);
    IdleWhole(g, s);
    assert Holds(g, s.a, v, s.last[v]);
  }

  // The gate and the locks.

  /** No write is under way while a repair is past its gate, and then the cluster lock is free for it. */
  lemma GateExcludes(g: Geometry, s0: Sys, events: seq<Event>, s: Sys, t: nat, u: nat)
    requires Initial(g, s0) && Reaches(g, s0, events, s)
    requires t < |s.threads| && u < |s.threads| && PastGate(s.threads[t])
    ensures !InWrite(s.threads[u])
    ensures s.threads[t].pc.RebuildWant? ==> s.cluster.Free?
  {
    InitialInv(g, s0);
    ReachableInv(g, s0, events, s);
    if s.threads[t].pc.RebuildWant? {
      ClusterFreeForRepair(g, s, t);
    }
  }

  lemma ClusterFreeForRepair(g: Geometry, s: Sys, t: nat)
    requires Inv(g, s) && t < |s.threads| && s.threads[t].pc.RebuildWant?
    ensures s.cluster.Free?
  {
    if s.cluster.HeldBy? {
      var w := s.cluster.t;
      assert HoldsCluster(s.threads[w]) && w != t;
      assert PastGate(s.threads[t]) && !InWrite(s.threads[w]);
      assert s.threads[w].pc.RebuildHave?;
      InvApart(g, s, t, w);
      assert HoldsDisk(g, s.threads[t], 0) && HoldsDisk(g, s.threads[w], 0);
    }
  }

  /** The highest locked disk below n, if any disk below n is locked. */
  lemma {:induction false} HighestLocked(disk: seq<Lock>, n: nat) returns (k: int)
    requires n <= |disk|
    ensures -1 <= k < n
    ensures k >= 0 ==> disk[k].HeldBy?
    ensures forall j | k < j < n :: disk[j].Free?
  {
    if n == 0 {
      k := -1;
    } else if disk[n - 1].HeldBy? {
      k := n - 1;
    } else {
      k := HighestLocked(disk, n - 1);
    }
  }

  /** Whoever holds the highest locked disk can go on: it wants a higher one, or the free cluster lock, or none. */
  lemma HighestHolderMoves(g: Geometry, s: Sys, k: nat)
    requires Inv(g, s) && k < g.disks && s.disk[k].HeldBy?
    requires forall j | k < j < g.disks :: s.disk[j].Free?
    ensures s.disk[k].t < |s.threads| && Enabled(g, s, s.disk[k].t)
  {
    var t := s.disk[k].t;
    var th := s.threads[t];
    assert HoldsDisk(g, th, k);
    if th.pc.RebuildWant? {
      ClusterFreeForRepair(g, s, t);
    }
  }

  /** With no disk locked, whoever holds the cluster lock can go on. */
  lemma ClusterHolderMoves(g: Geometry, s: Sys)
    requires Inv(g, s) && s.cluster.HeldBy? && forall j | 0 <= j < g.disks :: s.disk[j].Free?
    ensures s.cluster.t < |s.threads| && Enabled(g, s, s.cluster.t)
  {
    assert HoldsCluster(s.threads[s.cluster.t]);
  }

  /** Not everyone can be asleep at the gate: sleepers are owed a wake-up by someone who is not. */
  lemma SomeoneAwake(g: Geometry, s: Sys, t: nat) returns (u: nat)
    requires Inv(g, s) && t < |s.threads| && !s.threads[t].pc.Idle?
    ensures u < |s.threads| && !s.threads[u].pc.Idle? && !s.threads[u].pc.Asleep?
  {
    CountersMean(s);
    u := t;
    if s.threads[u].pc.Asleep? && s.threads[u].job.WriteJob? {
      u :| 0 <= u < |s.threads| && InRepair(s.threads[u]);
    }
    if s.threads[u].pc.Asleep? {
      u :| 0 <= u < |s.threads| && InWrite(s.threads[u]);
    }
  }

  /** With no lock held at all, whoever is awake can go on. */
  lemma AwakeMoves(g: Geometry, s: Sys, u: nat)
    requires Sized(g, s) && u < |s.threads| && !s.threads[u].pc.Idle? && !s.threads[u].pc.Asleep?
    requires s.cluster.Free? && forall j | 0 <= j < g.disks :: s.disk[j].Free?
    ensures Enabled(g, s, u)
  {
  }

  lemma SomeoneMoves(g: Geometry, s: Sys, t: nat) returns (u: nat)
    requires Inv(g, s) && t < |s.threads| && !s.threads[t].pc.Idle?
    ensures u < |s.threads| && Enabled(g, s, u)
  {
    var k := HighestLocked(s.disk, g.disks);
    if k >= 0 {
      HighestHolderMoves(g, s, k);
      u := s.disk[k].t;
    } else if s.cluster.HeldBy? {
      ClusterHolderMoves(g, s);
      u := s.cluster.t;
    } else {
      u := SomeoneAwake(g, s, t);
      AwakeMoves(g, s, u);
    }
  }

  /** In every reachable state with a call unfinished, some thread can take a step. */
  lemma NoDeadlock(g: Geometry, s0: Sys, events: seq<Event>, s: Sys, t: nat)
    requires Initial(g, s0) && Reaches(g, s0, events, s)
    requires t < |s.threads| && !s.threads[t].pc.Idle?
    ensures Sized(g, s) && exists u: nat :: u < |s.threads| && Enabled(g, s, u)
  {
    InitialInv(g, s0);
    ReachableInv(g, s0, events, s);
    var u := SomeoneMoves(g, s, t);
  }

  /** A write asleep at the gate waits for a repair that is still there, and a repair for a write that is. */
  lemma NoLostWakeup(g: Geometry, s0: Sys, events: seq<Event>, s: Sys, t: nat)
    requires Initial(g, s0) && Reaches(g, s0, events, s)
    requires t < |s.threads| && s.threads[t].pc.Asleep?
    ensures s.threads[t].job.WriteJob? || s.threads[t].job.RepairJob?
    ensures s.threads[t].job.WriteJob? ==>
              s.repairing > 0 && exists u: nat :: u < |s.threads| && u != t && InRepair(s.threads[u])
    ensures s.threads[t].job.RepairJob? ==>
              s.writecount > 0 && exists u: nat :: u < |s.threads| && u != t && InWrite(s.threads[u])
  {
    InitialInv(g, s0);
    ReachableInv(g, s0, events, s);
    CountersMean(s);
    assert s.threads[t].job.WriteJob? || s.threads[t].job.RepairJob?;
  }
}
