/**
 RAID4 and RAID5 calls running at the same time.

 Any number of threads run reads, writes and repairs; every lock acquisition and release, every
 entry and exit of the repair gate and every block access that another thread could come between
 is a step of its own. A stretch in which the thread holds every disk lock touches blocks in one
 step per row, because no other thread can reach any block meanwhile. Sections under repairlock
 are one step. Disks fail only while no call is running.
 */
module ParityThreads {
  import opened Blocks
  import opened Layouts
  import opened ParityArray

  /** at is where virtual block v lives. */
  datatype Job = NoJob | WriteJob(v: nat, at: Slot, data: Block) | ReadJob(v: nat, at: Slot) | RepairJob(d: nat)

  /** Why a thread takes every disk lock. */
  datatype Purpose = Load | LoadMeta | Recon | Rebuild | RepairMeta | ReadLost

  datatype Pc =
    | Idle
    | Enter                          // at the gate, repairlock not yet taken
    | Asleep                         // in sleep() at the gate
    | WaitGate                       // a repair woken up, to test writecount again
    | WantCluster
    | HaveCluster
    | Take(k: nat, why: Purpose)     // holds disk locks below k, wants lock k
    | Give(k: nat, why: Purpose)     // still holds disk locks from k up
    | LoadingRow(row: nat)
    | MarkLoaded
    | MetaWork(why: Purpose)
    | DropCluster
    | Pick
    | ReconWork
    | One                            // wants the data disk's lock alone
    | OneHeld
    | OneDone
    | First                          // wants the lower of data and parity disk
    | Second                         // holds it, wants the higher
    | GotBoth
    | GotPrev(prev: Block)
    | GotParity(par: Block)
    | DataPut(par: Block)            // data written, parity not yet
    | BothPut
    | OneLeft
    | Leave
    | LostWork
    | RebuildWant(row: nat)
    | RebuildHave(row: nat)
    | RebuildAt(row: nat)
    | MarkValid
    | RepairLeave

  datatype Thread = Thread(job: Job, pc: Pc)

  datatype Lock = Free | HeldBy(t: nat)

  datatype Need = Nothing | Disk(k: nat) | ClusterLock

  datatype Wake = NoWake | WakeWriters | WakeRepairs

  /**
   a is the shared state. whole is the media with every half-done parity update completed, and
   last the data of the last write to reach each block; both only record, no step reads them.
   */
  datatype Sys = Sys(a: Array, whole: seq<seq<Block>>, last: map<nat, Block>,
                     disk: seq<Lock>, cluster: Lock, writecount: int, repairing: int, threads: seq<Thread>)

  ghost function Abstract(s: Sys): Array { Array(s.whole, s.a.valid, s.a.loaded) }

  // Threads.

  /** A slot below the metadata row and off the row's parity disk. */
  ghost predicate SlotOk(g: Geometry, at: Slot)
    requires ParityGeometry(g)
  {
    at.row < DiskBlocks(g) && at.unit < g.disks && at.unit != ParityDisk(g, at.row)
  }

  ghost predicate JobOk(g: Geometry, job: Job)
    requires ParityGeometry(g)
  {
    match job
    case NoJob => true
    case WriteJob(_, at, _) => SlotOk(g, at)
    case ReadJob(_, at) => SlotOk(g, at)
    case RepairJob(d) => d < g.disks
  }

  /** The slot in the job is the one the layout assigns to its block. */
  ghost predicate Addressed(g: Geometry, job: Job)
    requires ParityGeometry(g)
  {
    && (job.WriteJob? ==> InRange(g, job.v) && job.at == Place(g, job.v))
    && (job.ReadJob? ==> InRange(g, job.v) && job.at == Place(g, job.v))
  }

  ghost predicate Serves(why: Purpose, job: Job)
  {
    match why
    case Load => job.WriteJob?
    case LoadMeta => job.WriteJob?
    case Recon => job.WriteJob?
    case Rebuild => job.RepairJob?
    case RepairMeta => job.RepairJob?
    case ReadLost => job.ReadJob?
  }

  /** The program counters each kind of call goes through. */
  ghost predicate Fits(g: Geometry, th: Thread)
  {
    match th.pc
    case Idle => true
    case Enter => th.job.WriteJob? || th.job.RepairJob?
    case Asleep => th.job.WriteJob? || th.job.RepairJob?
    case WaitGate => th.job.RepairJob?
    case Take(k, why) => k < g.disks && Serves(why, th.job)
    case Give(k, why) => k < g.disks && Serves(why, th.job)
    case MetaWork(why) => (why.LoadMeta? || why.RepairMeta?) && Serves(why, th.job)
    case One => th.job.WriteJob? || th.job.ReadJob?
    case OneHeld => th.job.WriteJob? || th.job.ReadJob?
    case OneDone => th.job.WriteJob? || th.job.ReadJob?
    case LostWork => th.job.ReadJob?
    case RebuildWant(row) => th.job.RepairJob? && row < g.rows
    case RebuildHave(row) => th.job.RepairJob? && row < g.rows
    case RebuildAt(row) => th.job.RepairJob? && row < g.rows
    case MarkValid => th.job.RepairJob?
    case RepairLeave => th.job.RepairJob?
    case LoadingRow(row) => th.job.WriteJob? && row < g.rows
    case _ => th.job.WriteJob?
  }

  ghost predicate Proper(g: Geometry, th: Thread)
  {
    ParityGeometry(g) && JobOk(g, th.job) && Fits(g, th)
  }

  ghost predicate HasBlock(th: Thread) { th.job.WriteJob? || th.job.ReadJob? }

  ghost function DataDisk(g: Geometry, th: Thread): (d: nat)
    requires Proper(g, th) && HasBlock(th)
    ensures d < g.disks
  {
    th.job.at.unit
  }

  ghost function RowOf(g: Geometry, th: Thread): (r: nat)
    requires Proper(g, th) && HasBlock(th)
    ensures r < DiskBlocks(g)
  {
    th.job.at.row
  }

  ghost function ParityOf(g: Geometry, th: Thread): (p: nat)
    requires Proper(g, th) && HasBlock(th)
    ensures p < g.disks && p != DataDisk(g, th)
  {
    ParityDisk(g, RowOf(g, th))
  }

  ghost function Lower(g: Geometry, th: Thread): (k: nat)
    requires Proper(g, th) && HasBlock(th)
  {
    if DataDisk(g, th) < ParityOf(g, th) then DataDisk(g, th) else ParityOf(g, th)
  }

  ghost function Higher(g: Geometry, th: Thread): (k: nat)
    requires Proper(g, th) && HasBlock(th)
  {
    if DataDisk(g, th) < ParityOf(g, th) then ParityOf(g, th) else DataDisk(g, th)
  }

  ghost predicate HoldsDisk(g: Geometry, th: Thread, k: nat)
    requires Proper(g, th)
  {
    && k < g.disks
    && match th.pc
       case Take(j, _) => k < j
       case Give(j, _) => j <= k
       case OneHeld => k == DataDisk(g, th)
       case OneDone => k == DataDisk(g, th)
       case Second => k == Lower(g, th)
       case OneLeft => k == Lower(g, th)
       case GotBoth => k == DataDisk(g, th) || k == ParityOf(g, th)
       case GotPrev(_) => k == DataDisk(g, th) || k == ParityOf(g, th)
       case GotParity(_) => k == DataDisk(g, th) || k == ParityOf(g, th)
       case DataPut(_) => k == DataDisk(g, th) || k == ParityOf(g, th)
       case BothPut => k == DataDisk(g, th) || k == ParityOf(g, th)
       case _ => HoldsAll(th.pc)
  }

  ghost predicate HoldsAll(pc: Pc)
  {
    pc.LoadingRow? || pc.MarkLoaded? || pc.MetaWork? || pc.ReconWork? || pc.LostWork?
    || pc.RebuildWant? || pc.RebuildHave? || pc.RebuildAt? || pc.MarkValid?
  }

  ghost predicate HoldsCluster(th: Thread)
  {
    match th.pc
    case HaveCluster => true
    case Take(_, why) => why.Load? || why.LoadMeta?
    case Give(_, why) => why.Load? || why.LoadMeta?
    case LoadingRow(_) => true
    case MarkLoaded => true
    case MetaWork(why) => why.LoadMeta?
    case DropCluster => true
    case RebuildHave(_) => true
    case _ => false
  }

  /** The lock the thread must get before it can take its next step. */
  ghost function Needs(g: Geometry, th: Thread): Need
    requires Proper(g, th)
  {
    match th.pc
    case WantCluster => ClusterLock
    case RebuildWant(_) => ClusterLock
    case Take(k, _) => Disk(k)
    case One => Disk(DataDisk(g, th))
    case First => Disk(Lower(g, th))
    case Second => Disk(Higher(g, th))
    case _ => Nothing
  }

  /** A write between its entry and its exit of the gate; writecount counts these. */
  ghost predicate InWrite(th: Thread)
  {
    th.job.WriteJob? && !th.pc.Idle? && !th.pc.Enter? && !th.pc.Asleep?
  }

  ghost predicate PastGate(th: Thread)
  {
    && th.job.RepairJob?
    && match th.pc
       case Take(_, why) => why.Rebuild?
       case Give(_, why) => why.Rebuild?
       case RebuildWant(_) => true
       case RebuildHave(_) => true
       case RebuildAt(_) => true
       case MarkValid => true
       case RepairLeave => true
       case _ => false
  }

  /** A repair that has announced itself; repairing counts these. */
  ghost predicate InRepair(th: Thread)
  {
    PastGate(th) || (th.job.RepairJob? && (th.pc.Asleep? || th.pc.WaitGate?))
  }

  // Steps.

  /** What one step of a thread does; media, whole, valid, loaded and last are the new values. */
  datatype Effect = Effect(a: Array, whole: seq<seq<Block>>, last: map<nat, Block>, pc: Pc,
                           grab: Need, drop: Need, write: int, repair: int, wake: Wake)

  ghost function Move(s: Sys, pc: Pc): Effect
  {
    Effect(s.a, s.whole, s.last, pc, Nothing, Nothing, 0, 0, NoWake)
  }

  /** Change one row the same way on the media and in whole. */
  ghost function Touch(s: Sys, row: nat, blocks: seq<Block>, pc: Pc): Effect
    requires row < |s.a.media| && row < |s.whole|
  {
    Move(s, pc).(a := s.a.(media := s.a.media[row := blocks]), whole := s.whole[row := blocks])
  }

  ghost predicate Sized(g: Geometry, s: Sys)
  {
    && ParityGeometry(g) && Shaped(g, s.a) && Shaped(g, Abstract(s))
    && |s.disk| == g.disks
    && (forall t | 0 <= t < |s.threads| :: Proper(g, s.threads[t]))
  }

  ghost function AfterTake(g: Geometry, th: Thread, why: Purpose): Pc
    requires Proper(g, th) && Serves(why, th.job)
  {
    match why
    case Load => LoadingRow(Cluster(RowOf(g, th)) * CLUSTER_SIZE)
    case LoadMeta => MetaWork(LoadMeta)
    case Recon => ReconWork
    case Rebuild => RebuildWant(0)
    case RepairMeta => MetaWork(RepairMeta)
    case ReadLost => LostWork
  }

  ghost function AfterGive(why: Purpose): Pc
  {
    match why
    case Load => Take(0, LoadMeta)
    case LoadMeta => DropCluster
    case Recon => Leave
    case Rebuild => RepairLeave
    case RepairMeta => Idle
    case ReadLost => Idle
  }

  ghost function NextRow(g: Geometry, row: nat): Pc
  {
    if row + 1 < g.rows then RebuildWant(row + 1) else MarkValid
  }

  /** The gate, from both sides. */
  ghost function GateStep(s: Sys, th: Thread): Effect
  {
    match th.pc
    case Enter =>
      if th.job.RepairJob? then
        Move(s, if s.writecount != 0 then Asleep else Take(0, Rebuild)).(repair := 1)
      else if s.repairing != 0 then Move(s, Asleep)
      else Move(s, WantCluster).(write := 1)
    case WaitGate => Move(s, if s.writecount != 0 && s.repairing != 0 then Asleep else Take(0, Rebuild))
    case Leave => Move(s, Idle).(write := -1, wake := if s.writecount == 1 then WakeRepairs else NoWake)
    case RepairLeave =>
      Move(s, Take(0, RepairMeta)).(repair := -1, wake := if s.repairing == 1 then WakeWriters else NoWake)
    case _ => Move(s, th.pc)
  }

  ghost function LockStep(g: Geometry, s: Sys, th: Thread): Effect
    requires Proper(g, th)
  {
    match th.pc
    case WantCluster => Move(s, HaveCluster).(grab := ClusterLock)
    case DropCluster => Move(s, Pick).(drop := ClusterLock)
    case Take(k, why) =>
      Move(s, if k + 1 < g.disks then Take(k + 1, why) else AfterTake(g, th, why)).(grab := Disk(k))
    case Give(k, why) => Move(s, if k + 1 < g.disks then Give(k + 1, why) else AfterGive(why)).(drop := Disk(k))
    case One => Move(s, OneHeld).(grab := Disk(DataDisk(g, th)))
    case OneDone => Move(s, if th.job.WriteJob? then Leave else Idle).(drop := Disk(DataDisk(g, th)))
    case First => Move(s, Second).(grab := Disk(Lower(g, th)))
    case Second => Move(s, GotBoth).(grab := Disk(Higher(g, th)))
    case BothPut => Move(s, OneLeft).(drop := Disk(Higher(g, th)))
    case OneLeft => Move(s, Leave).(drop := Disk(Lower(g, th)))
    case RebuildWant(row) => Move(s, RebuildHave(row)).(grab := ClusterLock)
    case _ => Move(s, th.pc)
  }

  ghost function WriteStep(g: Geometry, s: Sys, th: Thread): Effect
    requires Sized(g, s) && Proper(g, th) && th.job.WriteJob?
  {
    var (d, p, row, data) := (DataDisk(g, th), ParityOf(g, th), RowOf(g, th), th.job.data);
    ClusterInRange(g, row);
    var c := Cluster(row);
    var blocks := s.a.media[row];
    match th.pc
    case HaveCluster => Move(s, if s.a.loaded[c] then DropCluster else Take(0, Load))
    case LoadingRow(r) =>
      Touch(s, r, LoadRow(s.a.media[r], s.a.valid, ParityDisk(g, r)),
            if r + 1 < (c + 1) * CLUSTER_SIZE then LoadingRow(r + 1) else MarkLoaded)
    case MarkLoaded => Move(s, Give(0, Load)).(a := s.a.(loaded := s.a.loaded[c := true]))
    case Pick => Move(s, if !s.a.valid[d] then Take(0, Recon) else if !s.a.valid[p] then One else First)
    case ReconWork =>
      Touch(s, row, blocks[p := Shifted(blocks[p], XorOthers(blocks, d), data)], Give(0, Recon))
      .(last := s.last[th.job.v := data])
    case OneHeld =>
      Move(s, OneDone).(a := s.a.(media := PutBlock(s.a.media, row, d, data)),
                        whole := PutBlock(s.whole, row, d, data),
                        last := s.last[th.job.v := data])
    case GotBoth => Move(s, GotPrev(blocks[d]))
    case GotPrev(prev) => Move(s, GotParity(Shifted(blocks[p], prev, data)))
    case GotParity(par) =>
      Move(s, DataPut(par)).(a := s.a.(media := PutBlock(s.a.media, row, d, data)),
                             whole := PutBlock(PutBlock(s.whole, row, d, data), row, p, par),
                             last := s.last[th.job.v := data])
    case DataPut(par) => Move(s, BothPut).(a := s.a.(media := PutBlock(s.a.media, row, p, par)))
    case _ => Move(s, th.pc)
  }

  ghost function RepairStep(g: Geometry, s: Sys, th: Thread): Effect
    requires Sized(g, s) && Proper(g, th) && th.job.RepairJob?
  {
    var d := th.job.d;
    match th.pc
    case RebuildHave(row) =>
      ClusterInRange(g, row);
      Move(s, if s.a.loaded[Cluster(row)] then RebuildAt(row) else NextRow(g, row)).(drop := ClusterLock)
    case RebuildAt(row) => Touch(s, row, RebuildRow(s.a.media[row], d), NextRow(g, row))
    case MarkValid => Move(s, Give(0, Rebuild)).(a := s.a.(valid := s.a.valid[d := true]))
    case _ => Move(s, th.pc)
  }

  ghost function MetaStep(g: Geometry, s: Sys, why: Purpose, image: Block): Effect
    requires Sized(g, s)
  {
    var row := DiskBlocks(g);
    Touch(s, row, MetaRow(s.a.media[row], s.a.valid, image), Give(0, why))
  }

  ghost predicate IsGate(pc: Pc) { pc.Enter? || pc.WaitGate? || pc.Leave? || pc.RepairLeave? }

  ghost predicate IsLocking(pc: Pc)
  {
    pc.WantCluster? || pc.DropCluster? || pc.Take? || pc.Give? || pc.One? || pc.OneDone?
    || pc.First? || pc.Second? || pc.BothPut? || pc.OneLeft? || pc.RebuildWant?
  }

  /** The step a thread takes next; image is what a metadata write would store. */
  ghost function Act(g: Geometry, s: Sys, t: nat, image: Block): Effect
    requires Sized(g, s) && t < |s.threads|
  {
    var th := s.threads[t];
    if IsGate(th.pc) then GateStep(s, th)
    else if IsLocking(th.pc) then LockStep(g, s, th)
    else if th.pc.MetaWork? then MetaStep(g, s, th.pc.why, image)
    else if th.pc.LostWork? then Move(s, Give(0, ReadLost))
    else if th.job.WriteJob? then WriteStep(g, s, th)
    else if th.job.RepairJob? then RepairStep(g, s, th)
    else Move(s, if th.pc.OneHeld? then OneDone else th.pc)
  }

  ghost function Woken(th: Thread, wake: Wake): Thread
  {
    if th.pc.Asleep? && wake.WakeWriters? && th.job.WriteJob? then th.(pc := Enter)
    else if th.pc.Asleep? && wake.WakeRepairs? && th.job.RepairJob? then th.(pc := WaitGate)
    else th
  }

  ghost function Apply(s: Sys, t: nat, e: Effect): Sys
    requires t < |s.threads|
  {
    Sys(e.a, e.whole, e.last,
        seq(|s.disk|, k requires 0 <= k < |s.disk| =>
          if e.grab == Disk(k) then HeldBy(t) else if e.drop == Disk(k) then Free else s.disk[k]),
        if e.grab.ClusterLock? then HeldBy(t) else if e.drop.ClusterLock? then Free else s.cluster,
        s.writecount + e.write, s.repairing + e.repair,
        seq(|s.threads|, u requires 0 <= u < |s.threads| =>
          if u == t then s.threads[t].(pc := e.pc) else Woken(s.threads[u], e.wake)))
  }

  /** The thread has something to do and the lock it needs for it is free. */
  ghost predicate Enabled(g: Geometry, s: Sys, t: nat)
    requires Sized(g, s) && t < |s.threads|
  {
    var th := s.threads[t];
    && !th.pc.Idle? && !th.pc.Asleep?
    && match Needs(g, th)
       case Nothing => true
       case ClusterLock => s.cluster.Free?
       case Disk(k) => k < |s.disk| && s.disk[k].Free?
  }

  /** The checks a call makes on entry, before any lock; a call they turn away leaves its thread idle. */
  ghost function Begin(g: Geometry, s: Sys, job: Job): Thread
    requires Sized(g, s) && JobOk(g, job)
  {
    match job
    case NoJob => Thread(NoJob, Idle)
    case WriteJob(_, at, _) => Thread(job, if CanReach(s.a, at.unit) then Enter else Idle)
    case ReadJob(_, at) =>
      Thread(job, if s.a.valid[at.unit] then One
                  else if OthersValid(s.a.valid, at.unit) then Take(0, ReadLost) else Idle)
    case RepairJob(d) => Thread(job, if !s.a.valid[d] && OthersValid(s.a.valid, d) then Enter else Idle)
  }

  ghost predicate AllIdle(s: Sys) { forall t | 0 <= t < |s.threads| :: s.threads[t].pc.Idle? }

  datatype Event =
    | Start(t: nat, job: Job)
    | StepOf(t: nat, image: Block)
    | Spurious(t: nat)                       // a sleeper returns from sleep() for no reason
    | Fails(d: nat, image: Block)
    | Scrambled(d: nat, junk: seq<Block>)

  ghost predicate CanHappen(g: Geometry, s: Sys, e: Event)
    requires Sized(g, s)
  {
    match e
    case Start(t, job) => t < |s.threads| && s.threads[t].pc.Idle? && JobOk(g, job) && Addressed(g, job)
    case StepOf(t, _) => t < |s.threads| && Enabled(g, s, t)
    case Spurious(t) => t < |s.threads| && s.threads[t].pc.Asleep?
    case Fails(d, _) => d < g.disks && AllIdle(s)
    case Scrambled(d, junk) => d < g.disks && !s.a.valid[d] && |junk| == g.rows && AllIdle(s)
  }

  ghost function Happen(g: Geometry, s: Sys, e: Event): Sys
    requires Sized(g, s) && CanHappen(g, s, e)
  {
    match e
    case Start(t, job) => s.(threads := s.threads[t := Begin(g, s, job)])
    case StepOf(t, image) => Apply(s, t, Act(g, s, t, image))
    case Spurious(t) =>
      s.(threads := s.threads[t := s.threads[t].(pc := if s.threads[t].job.WriteJob? then Enter else WaitGate)])
    case Fails(d, image) =>
      var a := Fail(g, s.a, d + 1, image).1;
      s.(a := a, whole := a.media)
    case Scrambled(d, junk) =>
      var a := Scramble(g, s.a, d, junk);
      s.(a := a, whole := a.media)
  }

  /** Set up and quiet: no call running, no lock held, nothing written yet. */
  ghost predicate Initial(g: Geometry, s: Sys)
  {
    && Sized(g, s)
    && s.whole == s.a.media && s.last == map[]
    && (forall c | 0 <= c < |s.a.loaded| :: !s.a.loaded[c])
    && (forall k | 0 <= k < |s.disk| :: s.disk[k].Free?) && s.cluster.Free?
    && s.writecount == 0 && s.repairing == 0
    && (forall t | 0 <= t < |s.threads| :: s.threads[t] == Thread(NoJob, Idle))
  }
}
