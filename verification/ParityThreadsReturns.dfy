/** What concurrent reads and repairs return, over whole runs, and when a call is turned away at its entry. */
module ParityThreadsReturns {
  import opened Blocks
  import opened Layouts
  import opened ParityArray
  import opened ParityRuns
  import opened ParityThreads
  import opened ParityThreadsProof
  import opened ParityThreadsSafety

  /** A read that has its data, or a repair that has rebuilt its disk. */
  datatype Deed = Got(t: nat, v: nat, data: Block) | Mended(t: nat, d: nat)

  /** The read or repair that gets there with this event, if one does. */
  ghost function DeedWith(g: Geometry, s: Sys, e: ParityThreads.Event): (r: seq<Deed>)
    requires Sized(g, s) && CanHappen(g, s, e)
  {
    if !e.StepOf? then []
    else
      var th := s.threads[e.t];
      if th.job.ReadJob? && (th.pc.OneHeld? || th.pc.LostWork?) then [Got(e.t, th.job.v, Seen(g, s, th))]
      else if th.job.RepairJob? && th.pc.MarkValid? then [Mended(e.t, th.job.d)]
      else []
  }

  ghost function Deeds(g: Geometry, s: Sys, events: seq<ParityThreads.Event>, s': Sys): (r: seq<Deed>)
    requires Reaches(g, s, events, s')
    decreases |events|
  {
    if events == [] then [] else DeedWith(g, s, events[0]) + Deeds(g, Happen(g, s, events[0]), events[1..], s')
  }

  ghost function DeedsBy(t: nat, deeds: seq<Deed>): (r: seq<Deed>)
    decreases |deeds|
  {
    if deeds == [] then [] else (if deeds[0].t == t then [deeds[0]] else []) + DeedsBy(t, deeds[1..])
  }

  lemma {:induction false} DeedsByAppend(t: nat, a: seq<Deed>, b: seq<Deed>)
    ensures DeedsBy(t, a + b) == DeedsBy(t, a) + DeedsBy(t, b)
    decreases |a|
  {
    if a == [] {
      assert a + b == b;
    } else {
      var head := if a[0].t == t then [a[0]] else [];
      assert (a + b)[1..] == a[1..] + b && (a + b)[0] == a[0];
      DeedsByAppend(t, a[1..], b);
      assert head + (DeedsBy(t, a[1..]) + DeedsBy(t, b)) == head + DeedsBy(t, a[1..]) + DeedsBy(t, b);
    }
  }

  /** A read that has its data, or a repair that has rebuilt its disk, or a call that has returned. */
  ghost predicate IsThrough(th: Thread)
  {
    match th.pc
    case Idle => true
    case OneDone => th.job.ReadJob?
    case Give(_, why) => why.ReadLost? || why.Rebuild? || why.RepairMeta?
    case RepairLeave => true
    case Take(_, why) => why.RepairMeta?
    case MetaWork(why) => why.RepairMeta?
    case _ => false
  }

  /** The deed is that of the thread's job. */
  ghost predicate Fulfils(d: Deed, t: nat, job: Job)
  {
    match d
    case Got(u, v, _) => u == t && job.ReadJob? && v == job.v
    case Mended(u, k) => u == t && job.RepairJob? && k == job.d
  }

  ghost predicate Reports(job: Job) { job.ReadJob? || job.RepairJob? }

  ghost predicate Tally(was: bool, through: bool, deeds: seq<Deed>, t: nat, job: Job)
  {
    (was ==> through) && if !was && through then |deeds| == 1 && Fulfils(deeds[0], t, job) else deeds == []
  }

  lemma TallyAdds(o0: bool, o1: bool, o2: bool, d1: seq<Deed>, d2: seq<Deed>, t: nat, job: Job)
    requires Tally(o0, o1, d1, t, job) && Tally(o1, o2, d2, t, job)
    ensures Tally(o0, o2, d1 + d2, t, job)
  {
    assert d1 == [] ==> d1 + d2 == d2;
    assert d2 == [] ==> d1 + d2 == d1;
  }

  /** Where a read's or a repair's own step takes it. */
  lemma OwnStep(g: Geometry, s: Sys, t: nat, image: Block)
    requires Sized(g, s) && t < |s.threads| && Reports(s.threads[t].job) && !s.threads[t].pc.Idle? && !s.threads[t].pc.Asleep?
    ensures var (th, pc') := (s.threads[t], Act(g, s, t, image).pc);
            IsThrough(th.(pc := pc')) <==>
              IsThrough(th) || (th.job.ReadJob? && (th.pc.OneHeld? || th.pc.LostWork?)) || (th.job.RepairJob? && th.pc.MarkValid?)
  {
  }

  lemma ThroughWith(g: Geometry, s: Sys, e: ParityThreads.Event, t: nat)
    requires Sized(g, s) && CanHappen(g, s, e) && t < |s.threads| && Reports(s.threads[t].job) && !(e.Start? && e.t == t)
    ensures var (th, s') := (s.threads[t], Happen(g, s, e));
            && |s'.threads| == |s.threads| && s'.threads[t].job == th.job
            && Tally(IsThrough(th), IsThrough(s'.threads[t]), DeedsBy(t, DeedWith(g, s, e)), t, th.job)
  {
    if e.StepOf? && e.t == t { OwnStep(g, s, t, e.image); }
  }

  /**
   From anywhere inside a read or a repair, through any interleaving in which its thread starts no
   other call: exactly once it has got data of its block, or has rebuilt its disk, when it is
   through, and in particular when it has returned.
   */
  lemma {:induction false} ReadsAndRepairsGetThroughOnce(g: Geometry, s: Sys, events: seq<ParityThreads.Event>, s': Sys, t: nat)
    requires Reaches(g, s, events, s') && t < |s.threads| && Reports(s.threads[t].job)
    requires forall e | e in events :: !(e.Start? && e.t == t)
    ensures t < |s'.threads| && s'.threads[t].job == s.threads[t].job
    ensures Tally(IsThrough(s.threads[t]), IsThrough(s'.threads[t]), DeedsBy(t, Deeds(g, s, events, s')), t, s.threads[t].job)
    decreases |events|
  {
    if events != [] {
      var (e, rest) := (events[0], events[1..]);
      var next := Happen(g, s, e);
      assert e in events && forall x | x in rest :: x in events;
      ThroughWith(g, s, e, t);
      ReadsAndRepairsGetThroughOnce(g, next, rest, s', t);
      DeedsByAppend(t, DeedWith(g, s, e), Deeds(g, next, rest, s'));
      TallyAdds(IsThrough(s.threads[t]), IsThrough(next.threads[t]), IsThrough(s'.threads[t]), DeedsBy(t, DeedWith(g, s, e)),
                DeedsBy(t, Deeds(g, next, rest, s')), t, s.threads[t].job);
    }
  }

  /** What a read gets is the last write to have taken effect on its block; a disk that is rebuilt becomes valid. */
  lemma DeedMeans(g: Geometry, s0: Sys, events: seq<ParityThreads.Event>, s: Sys, e: ParityThreads.Event)
    requires Initial(g, s0) && Reaches(g, s0, events, s) && Sized(g, s) && CanHappen(g, s, e) && DeedWith(g, s, e) != []
    ensures match DeedWith(g, s, e)[0]
            case Got(_, v, data) => v in s.last ==> data == s.last[v]
            case Mended(_, d) => d < |Happen(g, s, e).a.valid| && Happen(g, s, e).a.valid[d]
  {
    if s.threads[e.t].job.ReadJob? && s.threads[e.t].job.v in s.last {
      ReadsSeeLastEffect(g, s0, events, s, e.t);
    }
  }

  lemma WriteKeepsValid(g: Geometry, s: Sys, th: Thread)
    requires Sized(g, s) && Proper(g, th) && th.job.WriteJob?
    ensures WriteStep(g, s, th).a.valid == s.a.valid
  {
  }

  lemma RepairSetsValid(g: Geometry, s: Sys, th: Thread)
    requires Sized(g, s) && Proper(g, th) && th.job.RepairJob?
    ensures RepairStep(g, s, th).a.valid == if th.pc.MarkValid? then s.a.valid[th.job.d := true] else s.a.valid
  {
  }

  /** Only a repair's last step on the data changes a valid flag. */
  lemma ValidOfStep(g: Geometry, s: Sys, t: nat, image: Block)
    requires Sized(g, s) && t < |s.threads|
    ensures var th := s.threads[t];
            Act(g, s, t, image).a.valid == if th.job.RepairJob? && th.pc.MarkValid? then s.a.valid[th.job.d := true] else s.a.valid
  {
    var th := s.threads[t];
    LockStill(g, s, th);
    if th.job.WriteJob? {
      WriteKeepsValid(g, s, th);
    } else if th.job.RepairJob? {
      RepairSetsValid(g, s, th);
    }
  }

  /** With one event a disk is valid exactly if it was and does not fail, or if a repair of it gets through. */
  lemma ValidWith(g: Geometry, s: Sys, e: ParityThreads.Event, d: nat)
    requires Sized(g, s) && CanHappen(g, s, e) && d < g.disks
    ensures |Happen(g, s, e).a.valid| == g.disks
    ensures Happen(g, s, e).a.valid[d] <==>
              (s.a.valid[d] && !(e.Fails? && e.d == d)) || (e.StepOf? && DeedWith(g, s, e) == [Mended(e.t, d)])
  {
    if e.StepOf? { ValidOfStep(g, s, e.t, e.image); }
  }

  /** What the failures and the repairs that get through in a run say of disk d, the last one having the word; now is what held before. */
  ghost predicate SaysValid(g: Geometry, s: Sys, events: seq<ParityThreads.Event>, s': Sys, d: nat, now: bool)
    requires Reaches(g, s, events, s')
    decreases |events|
  {
    if events == [] then now
    else
      var e := events[0];
      SaysValid(g, Happen(g, s, e), events[1..], s', d,
                if e.Fails? && e.d == d then false else if e.StepOf? && DeedWith(g, s, e) == [Mended(e.t, d)] then true else now)
  }

  /** In every interleaving the valid flags are what the failures and the repairs that got through say. */
  lemma {:induction false} ValidIs(g: Geometry, s: Sys, events: seq<ParityThreads.Event>, s': Sys, d: nat)
    requires Reaches(g, s, events, s') && Sized(g, s) && d < g.disks
    ensures |s'.a.valid| == g.disks && (s'.a.valid[d] <==> SaysValid(g, s, events, s', d, s.a.valid[d]))
    decreases |events|
  {
    if events != [] {
      ValidWith(g, s, events[0], d);
      if events[1..] != [] { ValidIs(g, Happen(g, s, events[0]), events[1..], s', d); }
    }
  }

  /**
   A call is turned away at its entry exactly when the same call on an array at rest would fail; a
   repair also when its disk is valid and there is nothing to do.
   */
  lemma TurnedAwayIff(g: Geometry, s: Sys, job: Job, image: Block)
    requires Sized(g, s) && JobOk(g, job) && Addressed(g, job) && !job.NoJob?
    ensures Begin(g, s, job).job == job
    ensures Begin(g, s, job).pc.Idle? <==>
              match job
              case WriteJob(v, _, data) => Write(g, s.a, v, data, image).0.Error?
              case ReadJob(v, _) => Read(g, s.a, v).0.Error?
              case RepairJob(d) => s.a.valid[d] || Repair(g, s.a, d + 1, image).0.Error?
              case NoJob => true
  {
  }

  // The metadata row.

  /** The thread has set a loaded or a valid flag and has yet to write the metadata row. */
  ghost predicate OwesMeta(th: Thread)
  {
    match th.pc
    case Give(_, why) => why.Load? || why.Rebuild?
    case RepairLeave => true
    case Take(_, why) => why.LoadMeta? || why.RepairMeta?
    case MetaWork(_) => true
    case _ => false
  }

  lemma OwnDebt(g: Geometry, s: Sys, t: nat, image: Block)
    requires Sized(g, s) && t < |s.threads| && !s.threads[t].pc.Idle? && !s.threads[t].pc.Asleep?
    ensures var (th, e) := (s.threads[t], Act(g, s, t, image));
            && (OwesMeta(th) && !OwesMeta(th.(pc := e.pc)) ==> th.pc.MetaWork?)
            && (th.pc.MarkLoaded? || th.pc.MarkValid? ==> OwesMeta(th.(pc := e.pc)))
  {
  }

  lemma WriteLoads(g: Geometry, s: Sys, th: Thread)
    requires Sized(g, s) && Proper(g, th) && th.job.WriteJob?
    ensures th.pc.MarkLoaded? || WriteStep(g, s, th).a.loaded == s.a.loaded
  {
  }

  lemma LoadedOfStep(g: Geometry, s: Sys, t: nat, image: Block)
    requires Sized(g, s) && t < |s.threads|
    ensures s.threads[t].pc.MarkLoaded? || Act(g, s, t, image).a.loaded == s.a.loaded
  {
    var th := s.threads[t];
    LockStill(g, s, th);
    if th.job.WriteJob? { WriteLoads(g, s, th); }
  }

  lemma MetaStepWrites(g: Geometry, s: Sys, why: Purpose, image: Block)
    requires Sized(g, s)
    ensures Shaped(g, MetaStep(g, s, why, image).a) && MetaHolds(g, MetaStep(g, s, why, image).a, image)
  {
  }

  /**
   A step that sets a loaded or a valid flag leaves its thread owing the metadata row, and only the
   step that writes that row, on every disk writeraidmeta reaches, settles the debt; a call that has
   returned owes nothing.
   */
  lemma FlagsAreNoted(g: Geometry, s: Sys, t: nat, image: Block)
    requires Sized(g, s) && t < |s.threads| && Enabled(g, s, t)
    ensures var (th, s') := (s.threads[t], Apply(s, t, Act(g, s, t, image)));
            && (s'.a.valid != s.a.valid || s'.a.loaded != s.a.loaded ==> OwesMeta(s'.threads[t]))
            && (OwesMeta(th) && !OwesMeta(s'.threads[t]) ==> Shaped(g, s'.a) && MetaHolds(g, s'.a, image))
            && (s'.threads[t].pc.Idle? ==> !OwesMeta(s'.threads[t]))
  {
    OwnDebt(g, s, t, image);
    ValidOfStep(g, s, t, image);
    LoadedOfStep(g, s, t, image);
    if s.threads[t].pc.MetaWork? { MetaStepWrites(g, s, s.threads[t].pc.why, image); }
  }
}
