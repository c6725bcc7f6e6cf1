/** The log's accounting: begin_op, log_write and end_op under log.lock, and the panics they guard against. */
module LogReservation {
  import opened LogCrash

  /** MAXOPBLOCKS (kernel/param.h). */
  const MAXOPBLOCKS: nat := 10

  datatype Log = Log(lh: seq<nat>, outstanding: int, committing: bool)

  datatype Verdict = Fine | Waits | TooBig | OutsideTrans | Committing

  /** begin_op, one turn of its loop. */
  function Begin(l: Log): (r: (Verdict, Log))
  {
    if l.committing then (Waits, l)
    else if |l.lh| + (l.outstanding + 1) * MAXOPBLOCKS > LOGSIZE then (Waits, l)
    else (Fine, l.(outstanding := l.outstanding + 1))
  }

  /** log_write; size is log.size. */
  function LogWrite(size: int, l: Log, b: nat): (r: (Verdict, Log))
  {
    if |l.lh| >= LOGSIZE || |l.lh| >= size - 1 then (TooBig, l)
    else if l.outstanding < 1 then (OutsideTrans, l)
    else (Fine, if b in l.lh then l else l.(lh := l.lh + [b]))
  }

  /** end_op up to the release of log.lock; committing is set exactly when the caller must commit. */
  function End(l: Log): (r: (Verdict, Log))
  {
    var l' := l.(outstanding := l.outstanding - 1);
    if l.committing then (Committing, l')
    else (Fine, if l'.outstanding == 0 then l'.(committing := true) else l')
  }

  /** The end of commit and of end_op. */
  function Finish(l: Log): (r: Log) { l.(lh := [], committing := false) }

  // Runs.

  /** The log, and how many log_write calls each operation under way still has. */
  datatype Sys = Sys(log: Log, left: map<nat, nat>)

  datatype Event =
    | Begins(op: nat)
    | Writes(op: nat, b: nat)
    | Ends(op: nat)
    | Commits

  /** Every operation makes at most MAXOPBLOCKS log_write calls, all between its begin_op and its end_op. */
  ghost predicate CanHappen(s: Sys, e: Event)
  {
    match e
    case Begins(op) => op !in s.left
    case Writes(op, _) => op in s.left && s.left[op] > 0
    case Ends(op) => op in s.left
    case Commits => s.log.committing
  }

  ghost function Happen(size: int, s: Sys, e: Event): (r: (Verdict, Sys))
    requires CanHappen(s, e)
  {
    match e
    case Begins(op) =>
      var (v, l) := Begin(s.log);
      (v, if v.Fine? then Sys(l, s.left[op := MAXOPBLOCKS]) else s)
    case Writes(op, b) =>
      var (v, l) := LogWrite(size, s.log, b);
      (v, Sys(l, s.left[op := s.left[op] - 1]))
    case Ends(op) =>
      var (v, l) := End(s.log);
      (v, Sys(l, s.left - {op}))
    case Commits => (Fine, s.(log := Finish(s.log)))
  }

  ghost predicate Panics(v: Verdict) { v.TooBig? || v.OutsideTrans? || v.Committing? }

  /** The events can happen in this order, from s, without a panic before the last of them. */
  ghost predicate Runs(size: int, s: Sys, events: seq<Event>, s': Sys)
    decreases |events|
  {
    if events == [] then s == s'
    else CanHappen(s, events[0]) && var (v, next) := Happen(size, s, events[0]);
         !Panics(v) && Runs(size, next, events[1..], s')
  }

  const Start: Sys := Sys(Log([], 0, false), map[])

  // What every run keeps.

  ghost function Sum(m: map<nat, nat>): (n: nat)
    decreases |m|
  {
    if m == map[] then 0 else
    var k :| k in m;
    assert |m - {k}| < |m| by { assert (m - {k}).Keys == m.Keys - {k}; }
    m[k] + Sum(m - {k})
  }

  lemma {:induction false} SumRemove(m: map<nat, nat>, k: nat)
    requires k in m
    ensures Sum(m) == m[k] + Sum(m - {k})
    decreases |m|
  {
    var j :| j in m && Sum(m) == m[j] + Sum(m - {j});
    if j != k {
      assert |m - {j}| < |m| && |m - {k}| < |m| by {
        assert (m - {j}).Keys == m.Keys - {j} && (m - {k}).Keys == m.Keys - {k};
      }
      SumRemove(m - {j}, k);
      SumRemove(m - {k}, j);
      assert m - {j} - {k} == m - {k} - {j};
    }
  }

  lemma SumUpdate(m: map<nat, nat>, k: nat, v: nat)
    ensures Sum(m[k := v]) == Sum(m - {k}) + v
  {
    assert m[k := v] - {k} == m - {k};
    SumRemove(m[k := v], k);
  }

  lemma {:induction false} SumBound(m: map<nat, nat>)
    requires forall k | k in m :: m[k] <= MAXOPBLOCKS
    ensures Sum(m) <= MAXOPBLOCKS * |m|
    decreases |m|
  {
    if m != map[] {
      var k :| k in m;
      SumRemove(m, k);
      assert (m - {k}).Keys == m.Keys - {k};
      SumBound(m - {k});
    }
  }

  /** The blocks logged so far and the calls still to come fit in the log together. */
  ghost predicate Reserved(s: Sys)
  {
    && s.log.outstanding == |s.left|
    && (forall op | op in s.left :: s.left[op] <= MAXOPBLOCKS)
    && |s.log.lh| + Sum(s.left) <= LOGSIZE
    && Distinct(s.log.lh)
    && (s.log.committing ==> s.left == map[])
  }

  lemma BeginReserved(size: int, s: Sys, op: nat)
    requires Reserved(s) && op !in s.left
    ensures !Panics(Happen(size, s, Begins(op)).0) && Reserved(Happen(size, s, Begins(op)).1)
  {
    SumBound(s.left);
    SumUpdate(s.left, op, MAXOPBLOCKS);
    assert s.left - {op} == s.left;
    assert s.left[op := MAXOPBLOCKS].Keys == s.left.Keys + {op};
  }

  lemma WriteReserved(size: int, s: Sys, op: nat, b: nat)
    requires Reserved(s) && op in s.left && s.left[op] > 0 && size > LOGSIZE
    ensures !Panics(Happen(size, s, Writes(op, b)).0) && Reserved(Happen(size, s, Writes(op, b)).1)
  {
    SumRemove(s.left, op);
    SumUpdate(s.left, op, s.left[op] - 1);
    assert s.left[op := s.left[op] - 1].Keys == s.left.Keys;
    assert s.left.Keys != {};
  }

  lemma EndReserved(size: int, s: Sys, op: nat)
    requires Reserved(s) && op in s.left
    ensures !Panics(Happen(size, s, Ends(op)).0) && Reserved(Happen(size, s, Ends(op)).1)
  {
    SumRemove(s.left, op);
    assert (s.left - {op}).Keys == s.left.Keys - {op};
  }

  lemma StepReserved(size: int, s: Sys, e: Event)
    requires Reserved(s) && CanHappen(s, e) && size > LOGSIZE
    ensures !Panics(Happen(size, s, e).0) && Reserved(Happen(size, s, e).1)
  {
    match e
    case Begins(op) => BeginReserved(size, s, op);
    case Writes(op, b) => WriteReserved(size, s, op, b);
    case Ends(op) => EndReserved(size, s, op);
    case Commits =>
  }

  lemma {:induction false} RunReserved(size: int, s: Sys, events: seq<Event>, s': Sys)
    requires Reserved(s) && size > LOGSIZE && Runs(size, s, events, s')
    ensures Reserved(s')
    decreases |events|
  {
    if events != [] {
      StepReserved(size, s, events[0]);
      RunReserved(size, Happen(size, s, events[0]).1, events[1..], s');
    }
  }

  /** A log of more than LOGSIZE blocks never panics; a commit runs with no operation under way. */
  lemma BigLogNeverPanics(size: int, events: seq<Event>, s: Sys, e: Event)
    requires size > LOGSIZE && Runs(size, Start, events, s) && CanHappen(s, e)
    ensures !Panics(Happen(size, s, e).0)
    ensures s.log.committing ==> s.log.outstanding == 0 && s.left == map[]
    ensures Distinct(s.log.lh) && |s.log.lh| <= LOGSIZE
  {
    RunReserved(size, Start, events, s);
    StepReserved(size, s, e);
  }

  // When a commit is due, and whom it keeps out. These hold for a log of any size.

  /** Counters agree with the operations under way; a commit runs alone; nothing is logged while nobody is at work. */
  ghost predicate InStep(s: Sys)
  {
    && s.log.outstanding == |s.left|
    && (s.log.committing ==> s.left == map[])
    && (s.left == map[] && !s.log.committing ==> s.log.lh == [])
    && Distinct(s.log.lh)
  }

  lemma StepInStep(size: int, s: Sys, e: Event)
    requires InStep(s) && CanHappen(s, e) && !Panics(Happen(size, s, e).0)
    ensures InStep(Happen(size, s, e).1)
  {
    match e
    case Begins(op) => assert s.left[op := MAXOPBLOCKS].Keys == s.left.Keys + {op};
    case Writes(op, b) => assert s.left[op := s.left[op] - 1].Keys == s.left.Keys && op in s.left[op := s.left[op] - 1];
    case Ends(op) => assert (s.left - {op}).Keys == s.left.Keys - {op};
    case Commits =>
  }

  lemma {:induction false} RunInStep(size: int, s: Sys, events: seq<Event>, s': Sys)
    requires InStep(s) && Runs(size, s, events, s')
    ensures InStep(s')
    decreases |events|
  {
    if events != [] {
      StepInStep(size, s, events[0]);
      RunInStep(size, Happen(size, s, events[0]).1, events[1..], s');
    }
  }

  /** Whether an operation has been let in since the last commit; begun says whether one had been before the run. */
  ghost predicate Begun(size: int, s: Sys, events: seq<Event>, s': Sys, begun: bool)
    requires Runs(size, s, events, s')
    decreases |events|
  {
    if events == [] then begun
    else var (v, next) := Happen(size, s, events[0]);
         Begun(size, next, events[1..], s', !events[0].Commits? && (begun || (events[0].Begins? && v.Fine?)))
  }

  lemma {:induction false} DueAfter(size: int, s: Sys, events: seq<Event>, s': Sys, begun: bool)
    requires InStep(s) && Runs(size, s, events, s') && (begun <==> s.left != map[] || s.log.committing)
    ensures Begun(size, s, events, s', begun) <==> s'.left != map[] || s'.log.committing
    decreases |events|
  {
    if events != [] {
      var (v, next) := Happen(size, s, events[0]);
      StepInStep(size, s, events[0]);
      var begun' := !events[0].Commits? && (begun || (events[0].Begins? && v.Fine?));
      BegunStep(size, s, events[0], begun);
      DueAfter(size, next, events[1..], s', begun');
    }
  }

  lemma BegunStep(size: int, s: Sys, e: Event, begun: bool)
    requires InStep(s) && CanHappen(s, e) && !Panics(Happen(size, s, e).0) && (begun <==> s.left != map[] || s.log.committing)
    ensures var (v, next) := Happen(size, s, e);
            !e.Commits? && (begun || (e.Begins? && v.Fine?)) <==> next.left != map[] || next.log.committing
  {
    match e
    case Begins(op) => assert op in s.left[op := MAXOPBLOCKS];
    case Writes(op, b) => assert op in s.left[op := s.left[op] - 1];
    case Ends(op) =>
      assert (s.left - {op}).Keys == s.left.Keys - {op};
      assert |s.left - {op}| == |s.left| - 1;
      assert s.left - {op} == map[] <==> |s.left - {op}| == 0;
    case Commits =>
  }

  /** In every run a commit is due exactly if some operation was let in since the last one and all have ended. */
  lemma CommitDueIff(size: int, events: seq<Event>, s: Sys)
    requires Runs(size, Start, events, s)
    ensures CanHappen(s, Commits) <==> s.left == map[] && Begun(size, Start, events, s, false)
  {
    DueAfter(size, Start, events, s, false);
    RunInStep(size, Start, events, s);
  }

  /** From there until the commit nobody is let in and the header stays as it is. */
  lemma {:induction false} CommitKeepsOut(size: int, s: Sys, events: seq<Event>, s': Sys)
    requires InStep(s) && CanHappen(s, Commits) && Runs(size, s, events, s') && Commits !in events
    ensures s' == s && forall e | e in events :: e.Begins?
    decreases |events|
  {
    if events != [] {
      assert events[0] in events && forall e | e in events[1..] :: e in events;
      assert events[0].Begins?;
      CommitKeepsOut(size, Happen(size, s, events[0]).1, events[1..], s');
      forall e | e in events ensures e.Begins? {
        if e != events[0] { assert e in events[1..]; }
      }
    }
  }

  /** In every run an operation is let in exactly if no commit is due and the log can take all that may yet be logged. */
  lemma LetInIff(size: int, events: seq<Event>, s: Sys, op: nat)
    requires Runs(size, Start, events, s) && CanHappen(s, Begins(op))
    ensures Happen(size, s, Begins(op)).0.Fine? <==>
              !CanHappen(s, Commits) && |s.log.lh| + MAXOPBLOCKS * (|s.left| + 1) <= LOGSIZE
    ensures s.left == map[] && !CanHappen(s, Commits) ==> Happen(size, s, Begins(op)).0.Fine?
    ensures Happen(size, s, Begins(op)).1.left ==
              if Happen(size, s, Begins(op)).0.Fine? then s.left[op := MAXOPBLOCKS] else s.left
  {
    RunInStep(size, Start, events, s);
  }

  /** The blocks logged since the last commit; before is what had been logged before the run. */
  ghost function LoggedSince(before: set<nat>, events: seq<Event>): (blocks: set<nat>)
    decreases |events|
  {
    if events == [] then before
    else LoggedSince(if events[0].Writes? then before + {events[0].b} else if events[0].Commits? then {} else before, events[1..])
  }

  ghost function InHeader(s: Sys): (blocks: set<nat>) { set b | b in s.log.lh }

  /** In every run the header lists exactly the blocks logged since the last commit, each once. */
  lemma {:induction false} HeaderIs(size: int, s: Sys, events: seq<Event>, s': Sys)
    requires InStep(s) && Runs(size, s, events, s')
    ensures InHeader(s') == LoggedSince(InHeader(s), events) && Distinct(s'.log.lh)
    ensures Commits !in events ==> s.log.lh <= s'.log.lh
    decreases |events|
  {
    if events != [] {
      var e, next := events[0], Happen(size, s, events[0]).1;
      StepInStep(size, s, e);
      assert InHeader(next) == if e.Writes? then InHeader(s) + {e.b} else if e.Commits? then {} else InHeader(s);
      HeaderIs(size, next, events[1..], s');
      assert e in events && forall x | x in events[1..] :: x in events;
    }
  }

  // The log that mkfs makes.

  /** Three operations begin and make m calls between them, ten each, on the given blocks in order. */
  ghost function Burst(blocks: seq<nat>, m: nat): (events: seq<Event>)
    requires m <= |blocks|
  {
    if m == 0 then [Begins(0), Begins(1), Begins(2)]
    else Burst(blocks, m - 1) + [Writes((m - 1) / MAXOPBLOCKS, blocks[m - 1])]
  }

  ghost function Quota(m: nat, op: nat): int
  {
    if m <= op * MAXOPBLOCKS then MAXOPBLOCKS
    else if m >= (op + 1) * MAXOPBLOCKS then 0
    else (op + 1) * MAXOPBLOCKS - m
  }

  ghost function AfterBurst(blocks: seq<nat>, m: nat): (s: Sys)
    requires m <= LOGSIZE == |blocks|
  {
    Sys(Log(blocks[..m], 3, false), map op: nat | op < 3 :: Quota(m, op) as nat)
  }

  lemma {:induction false} RunsAppend(size: int, s: Sys, events: seq<Event>, mid: Sys, e: Event)
    requires Runs(size, s, events, mid) && CanHappen(mid, e) && !Panics(Happen(size, mid, e).0)
    ensures Runs(size, s, events + [e], Happen(size, mid, e).1)
    decreases |events|
  {
    if events == [] {
      assert Runs(size, Happen(size, s, e).1, [e][1..], Happen(size, mid, e).1);
    } else {
      var next := Happen(size, s, events[0]).1;
      RunsAppend(size, next, events[1..], mid, e);
      assert (events + [e])[1..] == events[1..] + [e];
    }
  }

  /** After the three begin_ops. */
  lemma BurstBegun(size: int, blocks: seq<nat>)
    requires |blocks| == LOGSIZE
    ensures var s1 := Happen(size, Start, Begins(0)); var s2 := Happen(size, s1.1, Begins(1)); var s3 := Happen(size, s2.1, Begins(2));
            s1.0.Fine? && s2.0.Fine? && s3.0.Fine? && s3.1 == AfterBurst(blocks, 0)
  {
    var s3 := Happen(size, Happen(size, Happen(size, Start, Begins(0)).1, Begins(1)).1, Begins(2)).1;
    assert s3.left == map[0 := MAXOPBLOCKS, 1 := MAXOPBLOCKS, 2 := MAXOPBLOCKS];
    assert s3.left == AfterBurst(blocks, 0).left;
  }

  lemma BurstBegins(size: int, blocks: seq<nat>)
    requires |blocks| == LOGSIZE
    ensures Runs(size, Start, Burst(blocks, 0), AfterBurst(blocks, 0))
  {
    var s1 := Happen(size, Start, Begins(0)).1;
    var s2 := Happen(size, s1, Begins(1)).1;
    BurstBegun(size, blocks);
    assert Runs(size, Start, [], Start);
    RunsAppend(size, Start, [], Start, Begins(0));
    RunsAppend(size, Start, [Begins(0)], s1, Begins(1));
    RunsAppend(size, Start, [Begins(0), Begins(1)], s2, Begins(2));
    assert [] + [Begins(0)] == [Begins(0)] && [Begins(0)] + [Begins(1)] == [Begins(0), Begins(1)];
    assert [Begins(0), Begins(1)] + [Begins(2)] == Burst(blocks, 0);
  }

  lemma QuotaStep(m: nat, op: nat)
    requires 0 < m <= LOGSIZE && op < 3
    ensures (m - 1) / MAXOPBLOCKS < 3 && Quota(m - 1, (m - 1) / MAXOPBLOCKS) > 0
    ensures Quota(m, op) == if op == (m - 1) / MAXOPBLOCKS then Quota(m - 1, op) - 1 else Quota(m - 1, op)
  {
    var k := (m - 1) / MAXOPBLOCKS;
    assert k * MAXOPBLOCKS < m <= (k + 1) * MAXOPBLOCKS;
  }

  /** The next call of the burst finds room. */
  lemma BurstStep(size: int, blocks: seq<nat>, m: nat)
    requires 0 < m <= LOGSIZE == |blocks| && m <= size - 1 && Distinct(blocks)
    ensures var e := Writes((m - 1) / MAXOPBLOCKS, blocks[m - 1]);
            CanHappen(AfterBurst(blocks, m - 1), e) && Happen(size, AfterBurst(blocks, m - 1), e) == (Fine, AfterBurst(blocks, m))
  {
    var (s, op, b) := (AfterBurst(blocks, m - 1), (m - 1) / MAXOPBLOCKS, blocks[m - 1]);
    QuotaStep(m, op);
    assert op in s.left && s.left[op] == Quota(m - 1, op);
    assert b !in s.log.lh;
    var s' := Happen(size, s, Writes(op, b)).1;
    assert s'.log.lh == AfterBurst(blocks, m).log.lh;
    forall o: nat | o < 3 ensures s'.left[o] == AfterBurst(blocks, m).left[o] { QuotaStep(m, o); }
    assert s'.left == AfterBurst(blocks, m).left;
  }

  /** The burst runs without a panic as long as it leaves a log block unused. */
  lemma {:induction false} BurstRuns(size: int, blocks: seq<nat>, m: nat)
    requires m <= LOGSIZE == |blocks| && m <= size - 1 && Distinct(blocks)
    ensures Runs(size, Start, Burst(blocks, m), AfterBurst(blocks, m))
    decreases m
  {
    if m == 0 {
      BurstBegins(size, blocks);
    } else {
      BurstRuns(size, blocks, m - 1);
      BurstStep(size, blocks, m);
      RunsAppend(size, Start, Burst(blocks, m - 1), AfterBurst(blocks, m - 1), Writes((m - 1) / MAXOPBLOCKS, blocks[m - 1]));
    }
  }

  /** With a log of at most LOGSIZE blocks, the call after size - 1 of them panics. */
  lemma BurstOverflows(size: int, blocks: seq<nat>)
    requires 1 <= size <= LOGSIZE == |blocks|
    ensures var (s, e) := (AfterBurst(blocks, size - 1), Writes((size - 1) / MAXOPBLOCKS, blocks[size - 1]));
            CanHappen(s, e) && Happen(size, s, e).0.TooBig?
  {
    QuotaStep(size, 0);
  }

  /** Three well-behaved operations fill a log of at most LOGSIZE blocks, with any blocks, until log_write panics. */
  lemma SmallLogPanics(size: int, blocks: seq<nat>)
    requires 1 <= size <= LOGSIZE == |blocks| && Distinct(blocks)
    ensures exists events, s, e :: Runs(size, Start, events, s) && CanHappen(s, e) && Happen(size, s, e).0.TooBig?
  {
    BurstRuns(size, blocks, size - 1);
    BurstOverflows(size, blocks);
  }

  /** Well-behaved operations can never make the log panic exactly when log.size exceeds LOGSIZE. */
  lemma NeverPanicsIff(size: int)
    requires size >= 1
    ensures size > LOGSIZE <==>
              forall events, s, e :: Runs(size, Start, events, s) && CanHappen(s, e) ==> !Panics(Happen(size, s, e).0)
  {
    if size > LOGSIZE {
      forall events, s, e | Runs(size, Start, events, s) && CanHappen(s, e)
        ensures !Panics(Happen(size, s, e).0)
      {
        BigLogNeverPanics(size, events, s, e);
      }
    } else {
      SmallLogPanics(size, seq(LOGSIZE, i => i));
    }
  }
}
