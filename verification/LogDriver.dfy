/**
 The redo log as the kernel runs it: a header in memory, blocks modified in the buffer cache,
 and loops that copy blocks to the log and home. Each method is proved to issue exactly the disk
 writes, in the order, that LogCrash reasons about.
 */
module LogDriver {
  import opened LogCrash
  import LogReservation

  /** What the cache holds for the logged blocks. */
  ghost function News(lh: seq<nat>, dirty: map<nat, Block>): (news: seq<Block>)
    requires forall i | 0 <= i < |lh| :: lh[i] in dirty
    ensures |news| == |lh|
  {
    seq(|lh|, i requires 0 <= i < |lh| => dirty[lh[i]])
  }

  /** The pinned buffers that are left when those of the listed blocks are unpinned. */
  ghost function Without(dirty: map<nat, Block>, blocks: seq<nat>): (r: map<nat, Block>)
  {
    map b | b in dirty && b !in blocks :: dirty[b]
  }

  lemma WithoutNext(dirty: map<nat, Block>, blocks: seq<nat>, n: nat)
    requires n < |blocks|
    ensures Without(dirty, blocks[..n + 1]) == Without(dirty, blocks[..n]) - {blocks[n]}
  {
    assert blocks[..n + 1] == blocks[..n] + [blocks[n]];
  }

  lemma PlayNext(d: Disk, ws: seq<Write>, n: nat)
    requires Fits(d, ws) && n < |ws|
    ensures Fits(d, ws[..n + 1]) && Play(d, ws[..n + 1]) == Play(d, ws[..n])[ws[n].at := ws[n].data]
    ensures ws[..n + 1] == ws[..n] + [ws[n]]
  {
    assert ws[..n + 1][..n] == ws[..n];
  }

  lemma WritesFit(d: Disk, ats: seq<nat>, datas: seq<Block>)
    requires |datas| == |ats| && forall i | 0 <= i < |ats| :: ats[i] < |d|
    ensures Fits(d, Writes(ats, datas))
  {
  }

  /** After the logging half of a commit, the log holds the new contents and the header the block numbers. */
  lemma LoggedNews(area: Area, pre: Disk, lh: seq<nat>, news: seq<Block>)
    requires Loggable(area, pre, lh) && |news| == |lh| && pre[area.start][0] == 0
    ensures var ws := LoggingWrites(area, lh, news, PutHead(pre[area.start], lh));
            && Fits(pre, ws) && Loggable(area, Play(pre, ws), lh) && Logged(area, Play(pre, ws), |lh|) == news
            && Play(pre, ws)[area.start] == PutHead(pre[area.start], lh)
  {
    LoggingCut(area, pre, lh, news, |lh| + 1);
    var ws := LoggingWrites(area, lh, news, PutHead(pre[area.start], lh));
    assert ws[..|lh| + 1] == ws;
  }

  class Driver {
    const area: Area
    var disk: Disk
    var dirty: map<nat, Block>      // pinned buffers whose contents the disk does not have yet
    var lh: seq<nat>                // log.lh
    var outstanding: int
    var committing: bool
    ghost var trace: seq<Write>     // every bwrite so far

    ghost predicate Valid()
      reads this
    {
      && Loggable(area, disk, lh)
      && (forall i | 0 <= i < |lh| :: lh[i] in dirty)
    }

    ghost function Value(): LogReservation.Log
      reads this
    {
      LogReservation.Log(lh, outstanding, committing)
    }

    constructor (area: Area, disk: Disk)
      requires area.start + area.size <= |disk| && area.size >= 1
      ensures Valid() && this.area == area && this.disk == disk && dirty == map[] && trace == []
      ensures Value() == LogReservation.Start.log
    {
      this.area, this.disk := area, disk;
      dirty, lh, outstanding, committing, trace := map[], [], 0, false, [];
    }

    /** bread: the cached contents if the cache has changes of its own, the disk's otherwise. */
    method Bread(b: nat) returns (data: Block)
      requires b < |disk|
      ensures data == if b in dirty then dirty[b] else disk[b]
    {
      if b in dirty { return dirty[b]; }
      return disk[b];
    }

    method Bwrite(b: nat, data: Block)
      requires b < |disk|
      modifies this`disk, this`trace
      ensures disk == old(disk)[b := data] && trace == old(trace) + [Write(b, data)]
    {
      disk := disk[b := data];
      trace := trace + [Write(b, data)];
    }

    /** write_log. */
    method WriteLog()
      requires Valid() && (forall b | InLog(area, b) :: b !in dirty)
      modifies this`disk, this`trace
      ensures trace == old(trace) + Writes(Slots(area, |lh|), News(lh, dirty))
      ensures Fits(old(disk), Writes(Slots(area, |lh|), News(lh, dirty)))
      ensures disk == Play(old(disk), Writes(Slots(area, |lh|), News(lh, dirty)))
    {
      ghost var ws := Writes(Slots(area, |lh|), News(lh, dirty));
      var tail := 0;
      while tail < |lh|
        invariant 0 <= tail <= |lh| && |disk| == |old(disk)|
        invariant trace == old(trace) + ws[..tail]
        invariant disk == Play(old(disk), ws[..tail])
        invariant forall b | 0 <= b < |disk| && !InLog(area, b) :: disk[b] == old(disk)[b]
      {
        var from := Bread(lh[tail]);
        assert ws[tail] == Write(area.start + tail + 1, from);
        PlayNext(old(disk), ws, tail);
        Bwrite(area.start + tail + 1, from);
        tail := tail + 1;
      }
      assert ws[..|lh|] == ws;
    }

    /** write_head. */
    method WriteHead()
      requires area.start < |disk| && area.start !in dirty && |lh| < WORDS
      modifies this`disk, this`trace
      ensures disk == old(disk)[area.start := PutHead(old(disk)[area.start], lh)]
      ensures trace == old(trace) + [Write(area.start, PutHead(old(disk)[area.start], lh))]
    {
      var hb: seq<nat> := Bread(area.start);
      ghost var was := hb;
      hb := hb[0 := |lh|];
      var i := 0;
      while i < |lh|
        invariant 0 <= i <= |lh| && |hb| == WORDS
        invariant hb[0] == |lh| && hb[1..i + 1] == lh[..i] && hb[i + 1..] == was[i + 1..]
      {
        hb := hb[i + 1 := lh[i]];
        i := i + 1;
      }
      assert hb == PutHead(was, lh);
      Bwrite(area.start, hb);
    }

    /** install_trans; a block copied home outside recovery is unpinned, the disk now having its contents. */
    method InstallTrans(recovering: bool)
      requires Loggable(area, disk, lh) && (forall b | InLog(area, b) :: b !in dirty)
      requires forall i | 0 <= i < |lh| :: recovering || lh[i] in dirty
      modifies this`disk, this`trace, this`dirty
      ensures Fits(old(disk), Writes(lh, Logged(area, old(disk), |lh|)))
      ensures disk == Play(old(disk), Writes(lh, Logged(area, old(disk), |lh|)))
      ensures trace == old(trace) + Writes(lh, Logged(area, old(disk), |lh|))
      ensures dirty == if recovering then old(dirty) else Without(old(dirty), lh)
      ensures disk[area.start] == old(disk)[area.start]
    {
      ghost var ws := Writes(lh, Logged(area, disk, |lh|));
      WritesFit(disk, lh, Logged(area, disk, |lh|));
      var tail := 0;
      while tail < |lh|
        invariant 0 <= tail <= |lh| && |disk| == |old(disk)|
        invariant trace == old(trace) + ws[..tail]
        invariant disk == Play(old(disk), ws[..tail])
        invariant forall b | 0 <= b < |disk| && InLog(area, b) :: disk[b] == old(disk)[b]
        invariant dirty == if recovering then old(dirty) else Without(old(dirty), lh[..tail])
        invariant forall b | InLog(area, b) :: b !in dirty
      {
        WithoutNext(old(dirty), lh, tail);
        InstallNext(recovering, tail, old(disk), ws);
        assert trace == old(trace) + (ws[..tail] + [ws[tail]]);
        tail := tail + 1;
      }
      assert ws[..|lh|] == ws;
      assert lh[..|lh|] == lh;
    }

    /** One turn of install_trans: block tail of the log goes home. */
    method InstallNext(recovering: bool, tail: nat, ghost was: Disk, ghost ws: seq<Write>)
      requires Loggable(area, was, lh) && tail < |lh| && ws == Writes(lh, Logged(area, was, |lh|)) && Fits(was, ws)
      requires |disk| == |was| && disk == Play(was, ws[..tail]) && (forall b | InLog(area, b) :: b !in dirty)
      requires forall b | 0 <= b < |disk| && InLog(area, b) :: disk[b] == was[b]
      modifies this`disk, this`trace, this`dirty
      ensures |disk| == |was| && Fits(was, ws[..tail + 1]) && disk == Play(was, ws[..tail + 1])
      ensures ws[..tail + 1] == ws[..tail] + [ws[tail]] && trace == old(trace) + [ws[tail]]
      ensures forall b | 0 <= b < |disk| && InLog(area, b) :: disk[b] == was[b]
      ensures dirty == if recovering then old(dirty) else old(dirty) - {lh[tail]}
    {
      var lbuf := Bread(area.start + tail + 1);
      assert lbuf == was[area.start + tail + 1] == Logged(area, was, |lh|)[tail];
      assert ws[tail] == Write(lh[tail], lbuf);
      PlayNext(was, ws, tail);
      Bwrite(lh[tail], lbuf);
      if !recovering {
        dirty := dirty - {lh[tail]};
      }
    }

    /** The first half of commit, up to and with the header write that commits. */
    method LogTransaction()
      requires Valid() && (forall b | InLog(area, b) :: b !in dirty)
      modifies this`disk, this`trace
      ensures var ws := LoggingWrites(area, lh, News(lh, dirty), PutHead(old(disk)[area.start], lh));
              Fits(old(disk), ws) && disk == Play(old(disk), ws) && trace == old(trace) + ws
    {
      ghost var (pre, news) := (disk, News(lh, dirty));
      WriteLog();
      PlayWrites(pre, Slots(area, |lh|), news);
      AppliedAt(pre, Slots(area, |lh|), news);
      assert area.start !in Slots(area, |lh|);
      WriteHead();
      PlayAppend(pre, Writes(Slots(area, |lh|), news), [Write(area.start, PutHead(pre[area.start], lh))]);
    }

    /** The second half of commit, and of recovery. */
    method InstallAndClear(recovering: bool)
      requires Loggable(area, disk, lh) && (forall b | InLog(area, b) :: b !in dirty)
      requires forall i | 0 <= i < |lh| :: recovering || lh[i] in dirty
      modifies this`disk, this`trace, this`dirty, this`lh
      ensures var ws := HomingWrites(area, old(lh), Logged(area, old(disk), |old(lh)|), PutHead(old(disk)[area.start], []));
              Fits(old(disk), ws) && disk == Play(old(disk), ws) && trace == old(trace) + ws
      ensures lh == [] && dirty == if recovering then old(dirty) else Without(old(dirty), old(lh))
    {
      ghost var d := disk;
      InstallTrans(recovering);
      lh := [];
      WriteHead();
      ghost var (us, vs) := (Writes(old(lh), Logged(area, d, |old(lh)|)), [Write(area.start, PutHead(d[area.start], []))]);
      PlayAppend(d, us, vs);
      assert trace == old(trace) + (us + vs);
    }

    /** commit with blocks to commit: the log first, then home. */
    method CommitBlocks()
      requires Valid() && (forall b | InLog(area, b) :: b !in dirty) && disk[area.start][0] == 0 && |lh| > 0
      modifies this`disk, this`trace, this`dirty, this`lh
      ensures var ws := CommitWrites(area, old(disk), old(lh), News(old(lh), old(dirty)));
              Fits(old(disk), ws) && disk == Play(old(disk), ws) && trace == old(trace) + ws
      ensures lh == [] && dirty == Without(old(dirty), old(lh))
    {
      ghost var (pre, news) := (disk, News(lh, dirty));
      ghost var head := PutHead(pre[area.start], lh);
      ghost var us := LoggingWrites(area, lh, news, head);
      LogTransaction();
      LoggedNews(area, pre, lh, news);
      InstallAndClear(false);
      ghost var vs := HomingWrites(area, old(lh), news, PutHead(head, []));
      PlayAppend(pre, us, vs);
      assert trace == old(trace) + (us + vs);
    }

    /** commit. */
    method Commit()
      requires Valid() && (forall b | InLog(area, b) :: b !in dirty) && disk[area.start][0] == 0
      modifies this`disk, this`trace, this`dirty, this`lh
      ensures var ws := CommitWrites(area, old(disk), old(lh), News(old(lh), old(dirty)));
              Fits(old(disk), ws) && disk == Play(old(disk), ws) && trace == old(trace) + ws
      ensures lh == [] && dirty == Without(old(dirty), old(lh))
    {
      if |lh| > 0 {
        CommitBlocks();
      }
    }

    /** read_head. */
    method ReadHead()
      requires Recoverable(area, disk) && area.start !in dirty
      modifies this`lh
      ensures lh == GetHead(disk[area.start])
    {
      var buf: seq<nat> := Bread(area.start);
      var n := buf[0];
      lh := [];
      var i := 0;
      while i < n
        invariant 0 <= i <= n && lh == buf[1..i + 1]
      {
        lh := lh + [buf[i + 1]];
        i := i + 1;
      }
    }

    /** recover_from_log, on a machine that has just booted. */
    method RecoverFromLog()
      requires Recoverable(area, disk) && dirty == map[] && Loggable(area, disk, GetHead(disk[area.start]))
      modifies this`disk, this`trace, this`dirty, this`lh
      ensures Fits(old(disk), RecoverWrites(area, old(disk)))
      ensures disk == Recovered(area, old(disk))
      ensures trace == old(trace) + RecoverWrites(area, old(disk))
      ensures lh == [] && dirty == map[]
    {
      ReadHead();
      InstallAndClear(true);
    }

    /** One turn of begin_op's loop; waits says that the caller must sleep and try again. */
    method BeginOp() returns (waits: bool)
      modifies this`outstanding
      ensures Value() == LogReservation.Begin(old(Value())).1
      ensures waits <==> LogReservation.Begin(old(Value())).0.Waits?
    {
      if committing {
        return true;
      } else if |lh| + (outstanding + 1) * LogReservation.MAXOPBLOCKS > LOGSIZE {
        return true;
      }
      outstanding := outstanding + 1;
      return false;
    }

    /** log_write of block b, whose buffer now holds data. */
    method LogWrite(b: nat, data: Block) returns (v: LogReservation.Verdict)
      requires Valid() && b < |disk| && !InLog(area, b)
      modifies this`lh, this`dirty
      ensures Valid() && (v, Value()) == LogReservation.LogWrite(area.size, old(Value()), b)
      ensures v.Fine? ==> dirty == old(dirty)[b := data] && b in lh
      ensures !v.Fine? ==> dirty == old(dirty)
    {
      if |lh| >= LOGSIZE || |lh| >= area.size - 1 { return LogReservation.TooBig; }
      if outstanding < 1 { return LogReservation.OutsideTrans; }
      var i := 0;
      while i < |lh|
        invariant 0 <= i <= |lh| && forall j | 0 <= j < i :: lh[j] != b
      {
        if lh[i] == b { break; }
        i := i + 1;
      }
      if i == |lh| {
        lh := lh + [b];
      } else {
        lh := lh[i := b];
        assert lh == old(lh);
      }
      dirty := dirty[b := data];
      return LogReservation.Fine;
    }

    /** end_op up to the release of log.lock. */
    method EndOp() returns (v: LogReservation.Verdict, doCommit: bool)
      modifies this`outstanding, this`committing
      ensures (v, Value()) == LogReservation.End(old(Value()))
      ensures doCommit <==> v.Fine? && outstanding == 0
      ensures doCommit <==> committing && !old(committing)
    {
      outstanding := outstanding - 1;
      if committing { return LogReservation.Committing, false; }
      if outstanding == 0 {
        committing := true;
        return LogReservation.Fine, true;
      }
      return LogReservation.Fine, false;
    }

    /** The rest of end_op, when it has to commit: the transaction is at home, and the log is empty and open again. */
    method EndOpCommits()
      requires Valid() && committing && (forall b | InLog(area, b) :: b !in dirty) && disk[area.start][0] == 0
      modifies this`disk, this`trace, this`dirty, this`lh, this`committing
      ensures Valid() && Value() == LogReservation.Finish(old(Value())) && dirty == Without(old(dirty), old(lh))
      ensures trace == old(trace) + CommitWrites(area, old(disk), old(lh), News(old(lh), old(dirty)))
      ensures CleanAs(area, disk, Applied(old(disk), old(lh), News(old(lh), old(dirty))))
    {
      ghost var txn := Done(lh, News(lh, dirty));
      OutcomeAtomic(area, disk, disk, txn);
      Commit();
      committing := false;
    }
  }
}
