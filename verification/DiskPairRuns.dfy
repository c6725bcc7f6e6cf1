/** What calls on the mirrored pair return, over whole runs. */
module DiskPairRuns {
  import opened DiskPair
  import opened DiskPairProof

  /** A call that has done its work; got is what a read brought back. */
  datatype Done = Done(t: nat, job: Job, got: Content)

  /** The call that is done with this event, if one is. */
  ghost function DoneWith(s: Pair, e: Event): (r: seq<Done>)
    requires Sized(s) && CanHappen(s, e)
  {
    if !e.StepOf? then []
    else
      match s.threads[e.t].pc
      case ReadClear(_, got) => [Done(e.t, s.threads[e.t].job, got)]
      case WriteClear => [Done(e.t, s.threads[e.t].job, 0)]
      case _ => []
  }

  /** The calls done in a run, in order. */
  ghost function Dones(s: Pair, events: seq<Event>, s': Pair): (r: seq<Done>)
    requires Reaches(s, events, s')
    decreases |events|
  {
    if events == [] then [] else DoneWith(s, events[0]) + Dones(Happen(s, events[0]), events[1..], s')
  }

  /** With this event thread t finds both sides invalid. */
  ghost predicate RefusedWith(s: Pair, e: Event, t: nat)
    requires Sized(s) && CanHappen(s, e)
  {
    e == StepOf(t) && s.threads[t].pc.Test? && !s.threads[t].job.RepairJob? && !s.valid[0] && !s.valid[1]
  }

  ghost predicate Refused(s: Pair, events: seq<Event>, s': Pair, t: nat)
    requires Reaches(s, events, s')
    decreases |events|
  {
    events != [] && (RefusedWith(s, events[0], t) || Refused(Happen(s, events[0]), events[1..], s', t))
  }

  ghost function By(t: nat, dones: seq<Done>): (r: seq<Done>)
    decreases |dones|
  {
    if dones == [] then [] else (if dones[0].t == t then [dones[0]] else []) + By(t, dones[1..])
  }

  lemma {:induction false} ByAppend(t: nat, a: seq<Done>, b: seq<Done>)
    ensures By(t, a + b) == By(t, a) + By(t, b)
    decreases |a|
  {
    if a == [] {
      assert a + b == b;
    } else {
      var head := if a[0].t == t then [a[0]] else [];
      assert (a + b)[1..] == a[1..] + b && (a + b)[0] == a[0];
      ByAppend(t, a[1..], b);
      assert head + (By(t, a[1..]) + By(t, b)) == head + By(t, a[1..]) + By(t, b);
    }
  }

  ghost predicate OnPair(job: Job) { job.ReadJob? || job.WriteJob? || job.RepairJob? }

  /** The call has done its work or been refused: what is left is to wake the others and return. */
  ghost predicate IsOver(th: Thread) { th.pc.Idle? || th.pc.Waking? }

  lemma OthersStep(s: Pair, u: nat, t: nat)
    requires Sized(s) && u < |s.threads| && t < |s.threads| && t != u
    ensures |Step(s, u).threads| == |s.threads| && SameOrWoken(s.threads[t], Step(s, u).threads[t])
  {
    var pc := s.threads[u].pc;
    if pc.Test? {
      TestMovesThreads(s, u);
    } else if IsDisk(pc) {
      DiskMovesThreads(s, u);
    } else if IsLock(pc) {
      LockMovesThreads(s, u);
    } else if IsSleep(pc) {
      SleepMovesThreads(s, u);
    } else if IsMutex(pc) {
      MutexMovesThreads(s, u);
    }
  }

  lemma SameThread(s: Pair, e: Event, t: nat)
    requires Sized(s) && CanHappen(s, e) && t < |s.threads|
    requires !(e.Start? && e.t == t) && !(e.StepOf? && e.t == t)
    ensures var s' := Happen(s, e);
            |s'.threads| == |s.threads| && s'.threads[t].job == s.threads[t].job && (IsOver(s'.threads[t]) <==> IsOver(s.threads[t]))
  {
    if e.StepOf? { OthersStep(s, e.t, t); }
  }

  /** Where a step of its own takes a call. */
  lemma OwnStep(s: Pair, t: nat)
    requires Sized(s) && CanHappen(s, StepOf(t)) && OnPair(s.threads[t].job)
    ensures var (th, s') := (s.threads[t], Step(s, t));
            && |s'.threads| == |s.threads| && s'.threads[t].job == th.job
            && (IsOver(s'.threads[t]) <==>
                  IsOver(th) || th.pc.ReadClear? || th.pc.WriteClear? || RefusedWith(s, StepOf(t), t))
  {
    if s.threads[t].pc.Test? {
      TestGoes(s, t);
      TestRefuses(s, t);
    } else if IsDisk(s.threads[t].pc) {
      DiskGoesOn(s, t);
    } else if IsLock(s.threads[t].pc) {
      LockGoes(s, t);
    } else if IsSleep(s.threads[t].pc) {
      SleepGoes(s, t);
    } else {
      MutexGoesOn(s, t);
    }
  }

  lemma TestRefuses(s: Pair, t: nat)
    requires Sized(s) && t < |s.threads| && s.threads[t].pc.Test? && OnPair(s.threads[t].job)
    ensures TestStep(s, t).threads[t].pc.Idle? <==> !s.threads[t].job.RepairJob? && !s.valid[0] && !s.valid[1]
  {
  }

  lemma DiskGoesOn(s: Pair, t: nat)
    requires Sized(s) && t < |s.threads| && IsDisk(s.threads[t].pc)
    ensures var s' := DiskStep(s, t);
            |s'.threads| == |s.threads| && s'.threads[t].job == s.threads[t].job && !IsOver(s'.threads[t])
  {
  }

  lemma MutexGoesOn(s: Pair, t: nat)
    requires Sized(s) && t < |s.threads| && (WantsMutex(s.threads[t].pc) || s.threads[t].pc.ReadClear? || s.threads[t].pc.WriteClear?)
    ensures var s' := MutexStep(s, t);
            && |s'.threads| == |s.threads| && s'.threads[t].job == s.threads[t].job
            && (IsOver(s'.threads[t]) <==> s.threads[t].pc.ReadClear? || s.threads[t].pc.WriteClear?)
  {
  }

  /**
   A call that was over or not before, and is or is not after, with what it has done and whether it
   was refused in between: it becomes over exactly if it is done, once and as the job it is, or is
   refused, which a repair never is.
   */
  ghost predicate Tally(was: bool, over: bool, done: seq<Done>, refused: bool, job: Job)
  {
    && (was ==> over)
    && if !was && over
       then if refused then done == [] && !job.RepairJob? else |done| == 1 && done[0].job == job
       else done == [] && !refused
  }

  lemma TallyAdds(o0: bool, o1: bool, o2: bool, d1: seq<Done>, d2: seq<Done>, r1: bool, r2: bool, job: Job)
    requires Tally(o0, o1, d1, r1, job) && Tally(o1, o2, d2, r2, job)
    ensures Tally(o0, o2, d1 + d2, r1 || r2, job)
  {
    assert d1 == [] ==> d1 + d2 == d2;
    assert d2 == [] ==> d1 + d2 == d1;
  }

  lemma OverWith(s: Pair, e: Event, t: nat)
    requires Sized(s) && CanHappen(s, e) && t < |s.threads| && OnPair(s.threads[t].job) && !(e.Start? && e.t == t)
    ensures var (th, s') := (s.threads[t], Happen(s, e));
            && |s'.threads| == |s.threads| && s'.threads[t].job == th.job
            && Tally(IsOver(th), IsOver(s'.threads[t]), By(t, DoneWith(s, e)), RefusedWith(s, e, t), th.job)
  {
    if e.StepOf? && e.t == t {
      OwnStep(s, t);
    } else {
      SameThread(s, e, t);
    }
  }

  /**
   From anywhere inside a call, through any interleaving in which its thread starts no other: once
   it is over it has either been done exactly once, as the job it is, or found both sides invalid,
   which a repair never does; before that, neither.
   */
  lemma {:induction false} CallsAreDoneOnce(s: Pair, events: seq<Event>, s': Pair, t: nat)
    requires Reaches(s, events, s') && t < |s.threads| && OnPair(s.threads[t].job)
    requires forall e | e in events :: !(e.Start? && e.t == t)
    ensures t < |s'.threads| && s'.threads[t].job == s.threads[t].job
    ensures Tally(IsOver(s.threads[t]), IsOver(s'.threads[t]), By(t, Dones(s, events, s')), Refused(s, events, s', t), s.threads[t].job)
    decreases |events|
  {
    if events != [] {
      var (e, rest) := (events[0], events[1..]);
      var next := Happen(s, e);
      assert e in events && forall x | x in rest :: x in events;
      OverWith(s, e, t);
      CallsAreDoneOnce(next, rest, s', t);
      ByAppend(t, DoneWith(s, e), Dones(next, rest, s'));
      TallyAdds(IsOver(s.threads[t]), IsOver(next.threads[t]), IsOver(s'.threads[t]), By(t, DoneWith(s, e)), By(t, Dones(next, rest, s')),
                RefusedWith(s, e, t), Refused(next, rest, s', t), s.threads[t].job);
    }
  }

  /** A call that was let in and has returned was done exactly once, or found both sides invalid and was not done. */
  lemma ReturnedOnce(s: Pair, t: nat, job: Job, events: seq<Event>, s': Pair)
    requires Sized(s) && CanHappen(s, Start(t, job)) && OnPair(job) && Reaches(Happen(s, Start(t, job)), events, s')
    requires (forall e | e in events :: !(e.Start? && e.t == t)) && t < |s'.threads| && s'.threads[t].pc.Idle?
    ensures var (from, done) := (Happen(s, Start(t, job)), By(t, Dones(Happen(s, Start(t, job)), events, s')));
            if Refused(from, events, s', t) then done == [] && !job.RepairJob? else |done| == 1 && done[0].job == job
  {
    CallsAreDoneOnce(Happen(s, Start(t, job)), events, s', t);
  }

  ghost function Replayed(last: map<nat, Content>, dones: seq<Done>): (r: map<nat, Content>)
    decreases |dones|
  {
    if dones == [] then last
    else Replayed(if dones[0].job.WriteJob? then last[dones[0].job.row := dones[0].job.data] else last, dones[1..])
  }

  lemma {:induction false} ReplayedAppend(last: map<nat, Content>, a: seq<Done>, b: seq<Done>)
    ensures Replayed(last, a + b) == Replayed(Replayed(last, a), b)
    decreases |a|
  {
    if a == [] {
      assert a + b == b;
    } else {
      assert (a + b)[1..] == a[1..] + b && (a + b)[0] == a[0];
      ReplayedAppend(if a[0].job.WriteJob? then last[a[0].job.row := a[0].job.data] else last, a[1..], b);
    }
  }

  lemma LastWith(s: Pair, e: Event)
    requires Sized(s) && CanHappen(s, e)
    ensures Happen(s, e).last == Replayed(s.last, DoneWith(s, e))
  {
    if e.StepOf? { LastOfStep(s, e.t); }
  }

  lemma LastOfStep(s: Pair, t: nat)
    requires Sized(s) && t < |s.threads|
    ensures var th := s.threads[t];
            Step(s, t).last == if th.pc.WriteClear? && th.job.WriteJob? then s.last[th.job.row := th.job.data] else s.last
  {
    var pc := s.threads[t].pc;
    if pc.Test? {
      TestGoes(s, t);
    } else if IsLock(pc) {
      LockGoes(s, t);
    } else if IsSleep(pc) {
      SleepGoes(s, t);
    }
  }

  /** The last write of each row is what the calls done in the run leave, one after the other. */
  lemma {:induction false} LastIsReplay(s: Pair, events: seq<Event>, s': Pair)
    requires Reaches(s, events, s')
    ensures s'.last == Replayed(s.last, Dones(s, events, s'))
    decreases |events|
  {
    if events != [] {
      var next := Happen(s, events[0]);
      LastWith(s, events[0]);
      LastIsReplay(next, events[1..], s');
      ReplayedAppend(s.last, DoneWith(s, events[0]), Dones(next, events[1..], s'));
    }
  }

  /**
   What being done means, in every run: a write has its data on every valid side, of which there is
   one; a read brought back the last write of its row; a repaired side is valid.
   */
  lemma DoneMeans(s0: Pair, events: seq<Event>, s: Pair, e: Event)
    requires Initial(s0) && Reaches(s0, events, s) && Sized(s) && CanHappen(s, e) && DoneWith(s, e) != []
    ensures Sized(Happen(s, e))
    ensures var (d, s') := (DoneWith(s, e)[0], Happen(s, e));
            match d.job
            case ReadJob(row) => row in s.last ==> d.got == s.last[row]
            case WriteJob(row, data) =>
              row < Rows(s') && (s'.valid[0] || s'.valid[1]) && forall i | 0 <= i < 2 && s'.valid[i] :: s'.media[i][row] == data
            case RepairJob(side) => side < 2 && s'.valid[side]
            case _ => false
  {
    InitialInv(s0);
    ReachableInv(s0, events, s);
    EventKeeps(s, e);
    assert WriterOk(s, s.threads[e.t]) && ReaderOk(s, s.threads[e.t]);
  }

  /** Reads and writes of rows there are enter; a repair does exactly if its side is invalid and the other is not. */
  lemma EntersIff(s: Pair, job: Job)
    requires Sized(s) && OnPair(job)
    ensures Admitted(s, job) <==>
              if job.RepairJob? then job.side < 2 && (s.valid[0] || s.valid[1]) && !s.valid[job.side] else job.row < |s.media[1]|
  {
  }

  /** Who waits at the pair: a reader for a writer or for the sides it may read, a writer or repairer for anyone. */
  lemma WaitsIff(s: Pair, t: nat)
    requires Sized(s) && t < |s.threads| && s.threads[t].pc.Test? && OnPair(s.threads[t].job)
    ensures TestStep(s, t).threads[t].pc.Doze? <==>
              match s.threads[t].job
              case ReadJob(_) => (s.valid[0] || s.valid[1]) && (s.writing || forall i | 0 <= i < 2 && s.valid[i] :: s.reading[i])
              case WriteJob(_, _) => (s.valid[0] || s.valid[1]) && Busy(s)
              case _ => Busy(s)
  {
  }

  /** A block of a side that stays valid changes only to a write's data in the write's row, or when the side is repaired again. */
  lemma OnlyWritesChange(s: Pair, e: Event, i: nat, row: nat)
    requires Sized(s) && CanHappen(s, e) && i < 2 && row < Rows(s)
    ensures var s' := Happen(s, e);
            && |s'.valid| == 2 && |s'.media| == 2 && |s'.media[i]| == Rows(s)
            && (s.valid[i] && s'.valid[i] && s'.media[i][row] != s.media[i][row] ==>
                  e.StepOf? && (s.threads[e.t].job == WriteJob(row, s'.media[i][row])
                                || (s.threads[e.t].job == RepairJob(i) && s'.media[i][row] == s.media[1 - i][row])))
  {
    if e.StepOf? { BlockOfStep(s, e.t, i, row); }
  }

  lemma BlockOfStep(s: Pair, t: nat, i: nat, row: nat)
    requires Sized(s) && t < |s.threads| && i < 2 && row < Rows(s)
    ensures var s' := Step(s, t);
            && |s'.valid| == 2 && |s'.media| == 2 && |s'.media[i]| == Rows(s)
            && (s'.media[i][row] != s.media[i][row] ==>
                  s.threads[t].job == WriteJob(row, s'.media[i][row])
                  || (s.threads[t].job == RepairJob(i) && s'.media[i][row] == s.media[1 - i][row]))
  {
    var pc := s.threads[t].pc;
    if pc.Test? {
      TestGoes(s, t);
    } else if IsDisk(pc) {
    } else if IsLock(pc) {
      LockGoes(s, t);
    } else if IsSleep(pc) {
      SleepGoes(s, t);
    }
  }
}
