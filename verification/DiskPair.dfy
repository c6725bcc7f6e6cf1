/**
 A mirrored pair of disks under RAID1 or RAID0+1: the readers/writer protocol of readdiskpair,
 writediskpair and the mirrored arms of raidrepair, with sleep and wakeup step by step, and the
 sleeplocks of the two disks, for which writeraidmeta competes. Rows are those that hold data;
 what writeraidmeta stores behind them is left out.

 A thread's index is its place in the process table that wakeup walks. A process holds its own
 p->lock while it is at DropMutex or Nod; wakeup cannot get past it there.
 */
module DiskPair {

  /** What a block holds; the pair only copies and compares it. */
  type Content = int

  datatype Job = NoJob | ReadJob(row: nat) | WriteJob(row: nat, data: Content) | RepairJob(side: nat) | MetaJob

  datatype Pc =
    | Idle
    | Want                           // acquire(mutex), to test or to test again
    | Test                           // holds mutex, at the top of the loop
    | Doze                           // in sleep(), holds mutex, about to take p->lock
    | DropMutex                      // in sleep(), holds mutex and p->lock
    | Nod                            // in sleep(), mutex released, not yet SLEEPING
    | Asleep
    | ReadLock(i: nat)                 // acquiresleep(disk[i]->lock)
    | ReadDisk(i: nat)
    | ReadFree(i: nat, got: Content)   // releasesleep(disk[i]->lock)
    | ReadWant(i: nat, got: Content)   // acquire(mutex), to clear reading[i]
    | ReadClear(i: nat, got: Content)
    | PairLock(k: nat)               // holds the disk locks below k, acquiresleep of lock k
    | WriteDisk(i: nat)
    | CopyRow(r: nat)
    | PairFree(k: nat)               // holds the disk locks from k up, releasesleep of lock k
    | CopyDone
    | WriteWant                      // acquire(mutex), to clear writing
    | WriteClear
    | Waking(k: nat)                 // in wakeup(), about to look at process k
    | MetaLock(k: nat)
    | MetaWork
    | MetaFree(k: nat)

  datatype Thread = Thread(job: Job, pc: Pc)

  datatype Lock = Free | HeldBy(t: nat)

  /**
   media[side][row]; writer, reader[side] and last only record who set the flags and which data
   each row's last completed write stored.
   */
  datatype Pair = Pair(valid: seq<bool>, media: seq<seq<Content>>, writing: bool, reading: seq<bool>, mutex: Lock, disk: seq<Lock>,
                       threads: seq<Thread>, writer: Lock, reader: seq<Lock>, last: map<nat, Content>)

  ghost predicate IsMeta(pc: Pc) { pc.MetaLock? || pc.MetaWork? || pc.MetaFree? }

  ghost predicate Proper(rows: nat, th: Thread)
  {
    && (match th.job
        case NoJob => th.pc.Idle?
        case ReadJob(row) => row < rows
        case WriteJob(row, _) => row < rows
        case RepairJob(side) => side < 2
        case MetaJob => th.pc.Idle? || IsMeta(th.pc))
    && match th.pc
       case ReadLock(i) => th.job.ReadJob? && i < 2
       case ReadDisk(i) => th.job.ReadJob? && i < 2
       case ReadFree(i, _) => th.job.ReadJob? && i < 2
       case ReadWant(i, _) => th.job.ReadJob? && i < 2
       case ReadClear(i, _) => th.job.ReadJob? && i < 2
       case PairLock(k) => (th.job.WriteJob? || th.job.RepairJob?) && k < 2
       case PairFree(k) => (th.job.WriteJob? || th.job.RepairJob?) && k < 2
       case MetaLock(k) => th.job.MetaJob? && k < 2
       case MetaWork => th.job.MetaJob?
       case MetaFree(k) => th.job.MetaJob? && k < 2
       case WriteDisk(i) => th.job.WriteJob? && i < 2
       case CopyRow(r) => th.job.RepairJob? && r < rows
       case CopyDone => th.job.RepairJob?
       case WriteWant => th.job.WriteJob? || th.job.RepairJob?
       case WriteClear => th.job.WriteJob? || th.job.RepairJob?
       case _ => true
  }

  ghost function Rows(s: Pair): nat
    requires |s.media| == 2
  {
    |s.media[0]|
  }

  ghost predicate Sized(s: Pair)
  {
    && |s.valid| == 2 && |s.reading| == 2 && |s.reader| == 2 && |s.media| == 2 && |s.disk| == 2
    && |s.media[1]| == Rows(s) && Rows(s) > 0
    && forall t | 0 <= t < |s.threads| :: Proper(Rows(s), s.threads[t])
  }

  ghost predicate Busy(s: Pair)
    requires Sized(s)
  {
    s.writing || s.reading[0] || s.reading[1]
  }

  /** The side a reader would take: the first that is valid and not being read. */
  ghost function FreeSide(s: Pair): int
    requires Sized(s)
  {
    if !s.reading[0] && s.valid[0] then 0 else if !s.reading[1] && s.valid[1] then 1 else -1
  }

  ghost predicate HoldsMutex(pc: Pc)
  {
    pc.Test? || pc.Doze? || pc.DropMutex? || pc.ReadClear? || pc.WriteClear?
  }

  ghost predicate WantsMutex(pc: Pc) { pc.Want? || pc.ReadWant? || pc.WriteWant? }

  ghost predicate ReadsSide(pc: Pc, i: nat)
  {
    (pc.ReadLock? || pc.ReadDisk? || pc.ReadFree? || pc.ReadWant? || pc.ReadClear?) && pc.i == i
  }

  ghost predicate Writes(pc: Pc)
  {
    pc.PairLock? || pc.WriteDisk? || pc.CopyRow? || pc.PairFree? || pc.CopyDone? || pc.WriteWant? || pc.WriteClear?
  }

  ghost predicate HoldsDisk(pc: Pc, k: nat)
  {
    match pc
    case ReadDisk(i) => k == i
    case ReadFree(i, _) => k == i
    case PairLock(j) => k < j
    case WriteDisk(_) => true
    case CopyRow(_) => true
    case PairFree(j) => j <= k
    case MetaLock(j) => k < j
    case MetaWork => true
    case MetaFree(j) => j <= k
    case _ => false
  }

  /** The disk whose lock the thread is waiting for, or -1. */
  ghost function WantsDisk(pc: Pc): int
  {
    match pc
    case ReadLock(i) => i
    case PairLock(k) => k
    case MetaLock(k) => k
    case _ => -1
  }

  ghost predicate Enabled(s: Pair, t: nat)
    requires Sized(s) && t < |s.threads|
  {
    var pc := s.threads[t].pc;
    && !pc.Idle? && !pc.Asleep?
    && (WantsMutex(pc) ==> s.mutex.Free?)
    && (0 <= WantsDisk(pc) < 2 ==> s.disk[WantsDisk(pc)].Free?)
    && (pc.Waking? && pc.k < |s.threads| && pc.k != t ==> !s.threads[pc.k].pc.DropMutex? && !s.threads[pc.k].pc.Nod?)
  }

  ghost function Go(s: Pair, t: nat, pc: Pc): Pair
    requires t < |s.threads|
  {
    s.(threads := s.threads[t := s.threads[t].(pc := pc)])
  }

  /** The body of the wait loop, with mutex held. */
  ghost function TestStep(s: Pair, t: nat): Pair
    requires Sized(s) && t < |s.threads|
  {
    match s.threads[t].job
    case NoJob => s
    case MetaJob => s
    case ReadJob(_) =>
      if !s.valid[0] && !s.valid[1] then Go(s, t, Idle).(mutex := Free)
      else if s.writing || FreeSide(s) < 0 then Go(s, t, Doze)
      else
        var i := FreeSide(s);
        Go(s, t, ReadLock(i)).(mutex := Free, reading := s.reading[i := true], reader := s.reader[i := HeldBy(t)])
    case WriteJob(_, _) =>
      if !s.valid[0] && !s.valid[1] then Go(s, t, Idle).(mutex := Free)
      else if Busy(s) then Go(s, t, Doze)
      else Go(s, t, PairLock(0)).(mutex := Free, writing := true, writer := HeldBy(t))
    case RepairJob(_) =>
      if Busy(s) then Go(s, t, Doze)
      else Go(s, t, PairLock(0)).(mutex := Free, writing := true, writer := HeldBy(t))
  }

  ghost function PutBlock(media: seq<seq<Content>>, i: nat, row: nat, data: Content): seq<seq<Content>>
    requires i < |media| && row < |media[i]|
  {
    var side: seq<Content> := media[i];
    media[i := side[row := data]]
  }

  /** One block transfer, or the valid flag at the end of a repair. */
  ghost function DiskStep(s: Pair, t: nat): Pair
    requires Sized(s) && t < |s.threads|
  {
    var th := s.threads[t];
    match th.pc
    case ReadDisk(i) => Go(s, t, ReadFree(i, s.media[i][th.job.row]))
    case WriteDisk(i) =>
      var s' := Go(s, t, if i == 0 then WriteDisk(1) else PairFree(0));
      if s.valid[i] then s'.(media := PutBlock(s.media, i, th.job.row, th.job.data)) else s'
    case CopyRow(r) =>
      var side := th.job.side;
      Go(s, t, if r + 1 < Rows(s) then CopyRow(r + 1) else PairFree(0))
      .(media := PutBlock(s.media, side, r, s.media[1 - side][r]))
    case CopyDone => Go(s, t, WriteWant).(valid := s.valid[th.job.side := true])
    case _ => s
  }

  ghost function Locked(s: Pair, k: nat, lock: Lock): Pair
    requires Sized(s) && k < 2
  {
    s.(disk := s.disk[k := lock])
  }

  /** acquiresleep and releasesleep of the disks' locks, and writeraidmeta. */
  ghost function LockStep(s: Pair, t: nat): Pair
    requires Sized(s) && t < |s.threads|
  {
    var th := s.threads[t];
    match th.pc
    case ReadLock(i) => Go(Locked(s, i, HeldBy(t)), t, ReadDisk(i))
    case ReadFree(i, got) => Go(Locked(s, i, Free), t, ReadWant(i, got))
    case PairLock(k) =>
      Go(Locked(s, k, HeldBy(t)), t, if k == 0 then PairLock(1) else if th.job.WriteJob? then WriteDisk(0) else CopyRow(0))
    case PairFree(k) => Go(Locked(s, k, Free), t, if k == 0 then PairFree(1) else if th.job.WriteJob? then WriteWant else CopyDone)
    case MetaLock(k) => Go(Locked(s, k, HeldBy(t)), t, if k == 0 then MetaLock(1) else MetaWork)
    case MetaWork => Go(s, t, MetaFree(0))
    case MetaFree(k) => Go(Locked(s, k, Free), t, if k == 0 then MetaFree(1) else Idle)
    case _ => s
  }

  /** sleep() up to the point where the process is asleep, and wakeup(). */
  ghost function SleepStep(s: Pair, t: nat): Pair
    requires Sized(s) && t < |s.threads|
  {
    match s.threads[t].pc
    case Doze => Go(s, t, DropMutex)
    case DropMutex => Go(s, t, Nod).(mutex := Free)
    case Nod => Go(s, t, Asleep)
    case Waking(k) =>
      if k >= |s.threads| then Go(s, t, Idle)
      else
        var s' := Go(s, t, Waking(k + 1));
        if k != t && s.threads[k].pc.Asleep? then Go(s', k, Want) else s'
    case _ => s
  }

  ghost function MutexStep(s: Pair, t: nat): Pair
    requires Sized(s) && t < |s.threads|
  {
    var th := s.threads[t];
    match th.pc
    case Want => Go(s, t, Test).(mutex := HeldBy(t))
    case ReadWant(i, got) => Go(s, t, ReadClear(i, got)).(mutex := HeldBy(t))
    case WriteWant => Go(s, t, WriteClear).(mutex := HeldBy(t))
    case ReadClear(i, _) =>
      Go(s, t, Waking(0)).(mutex := Free, reading := s.reading[i := false], reader := s.reader[i := Free])
    case WriteClear =>
      Go(s, t, Waking(0)).(mutex := Free, writing := false, writer := Free,
                           last := if th.job.WriteJob? then s.last[th.job.row := th.job.data] else s.last)
    case _ => s
  }

  ghost predicate IsDisk(pc: Pc) { pc.ReadDisk? || pc.WriteDisk? || pc.CopyRow? || pc.CopyDone? }

  ghost predicate IsLock(pc: Pc)
  {
    pc.ReadLock? || pc.ReadFree? || pc.PairLock? || pc.PairFree? || pc.MetaLock? || pc.MetaWork? || pc.MetaFree?
  }

  ghost predicate IsSleep(pc: Pc) { pc.Doze? || pc.DropMutex? || pc.Nod? || pc.Waking? }

  ghost function Step(s: Pair, t: nat): Pair
    requires Sized(s) && t < |s.threads|
  {
    var pc := s.threads[t].pc;
    if pc.Test? then TestStep(s, t)
    else if IsDisk(pc) then DiskStep(s, t)
    else if IsLock(pc) then LockStep(s, t)
    else if IsSleep(pc) then SleepStep(s, t)
    else MutexStep(s, t)
  }

  ghost predicate AllIdle(s: Pair) { forall t | 0 <= t < |s.threads| :: s.threads[t].pc.Idle? }

  datatype Event =
    | Start(t: nat, job: Job)
    | StepOf(t: nat)
    | Spurious(t: nat)                          // a sleeper is made RUNNABLE by someone else
    | Fails(side: nat, junk: seq<Content>)        // between calls; the contents become anything

  /** Whether a call's unlocked entry checks let it reach the pair. */
  ghost predicate Admitted(s: Pair, job: Job)
    requires Sized(s)
  {
    match job
    case NoJob => false
    case ReadJob(row) => row < Rows(s)
    case WriteJob(row, _) => row < Rows(s)
    case RepairJob(side) => side < 2 && !s.valid[side] && s.valid[1 - side]
    case MetaJob => true
  }

  ghost predicate CanHappen(s: Pair, e: Event)
    requires Sized(s)
  {
    match e
    case Start(t, job) => t < |s.threads| && s.threads[t].pc.Idle? && Admitted(s, job)
    case StepOf(t) => t < |s.threads| && Enabled(s, t)
    case Spurious(t) => t < |s.threads| && s.threads[t].pc.Asleep?
    case Fails(side, junk) => side < 2 && |junk| == Rows(s) && AllIdle(s)
  }

  ghost function Happen(s: Pair, e: Event): Pair
    requires Sized(s) && CanHappen(s, e)
  {
    match e
    case Start(t, job) => s.(threads := s.threads[t := Thread(job, if job.MetaJob? then MetaLock(0) else Want)])
    case StepOf(t) => Step(s, t)
    case Spurious(t) => Go(s, t, Want)
    case Fails(side, junk) => s.(valid := s.valid[side := false], media := s.media[side := junk])
  }

  ghost predicate Initial(s: Pair)
  {
    && Sized(s)
    && !s.writing && !s.reading[0] && !s.reading[1] && s.mutex.Free?
    && s.disk[0].Free? && s.disk[1].Free?
    && s.writer.Free? && s.reader[0].Free? && s.reader[1].Free? && s.last == map[]
    && forall t | 0 <= t < |s.threads| :: s.threads[t] == Thread(NoJob, Idle)
  }

  ghost predicate Reaches(s: Pair, events: seq<Event>, s': Pair)
    decreases |events|
  {
    if events == [] then s == s'
    else Sized(s) && CanHappen(s, events[0]) && Reaches(Happen(s, events[0]), events[1..], s')
  }
}
