/**
 The redo log on disk: what commit and recovery write, block by block, and what is left of a
 transaction when the machine stops after any of those writes.

 A block is its 32-bit words. Block writes are atomic and reach the disk in the order issued.
 */
module LogCrash {

  /** LOGSIZE (kernel/param.h). */
  const LOGSIZE: nat := 30

  const WORDS: nat := 256

  type Block = b: seq<nat> | |b| == WORDS witness seq(WORDS, i => 0)

  type Disk = seq<Block>

  datatype Write = Write(at: nat, data: Block)

  /** log.start and log.size: the header block and the log blocks behind it. */
  datatype Area = Area(start: nat, size: nat)

  ghost predicate InLog(area: Area, b: nat) { area.start <= b < area.start + area.size }

  ghost predicate Distinct(s: seq<nat>) { forall i, j | 0 <= i < j < |s| :: s[i] != s[j] }

  /** Block numbers that may be logged: distinct home blocks, few enough for the log. */
  ghost predicate Loggable(area: Area, disk: Disk, lh: seq<nat>)
  {
    && area.start + area.size <= |disk|
    && |lh| + 1 <= area.size && |lh| <= LOGSIZE
    && Distinct(lh)
    && (forall i | 0 <= i < |lh| :: lh[i] < |disk| && !InLog(area, lh[i]))
  }

  // The header block.

  /** write_head: n and the first n block numbers; the words behind them stay. */
  function PutHead(was: Block, lh: seq<nat>): (r: Block)
    requires |lh| < WORDS
  {
    [|lh|] + lh + was[|lh| + 1..]
  }

  /** read_head. */
  function GetHead(b: Block): (lh: seq<nat>)
    requires b[0] < WORDS
    ensures |lh| == b[0]
  {
    b[1..b[0] + 1]
  }

  lemma HeadRoundTrip(was: Block, lh: seq<nat>)
    requires |lh| < WORDS
    ensures PutHead(was, lh)[0] == |lh| && GetHead(PutHead(was, lh)) == lh
  {
  }

  // The writes.

  ghost predicate Fits(disk: Disk, ws: seq<Write>)
  {
    forall i | 0 <= i < |ws| :: ws[i].at < |disk|
  }

  function Play(disk: Disk, ws: seq<Write>): (r: Disk)
    requires Fits(disk, ws)
    ensures |r| == |disk|
    decreases |ws|
  {
    if ws == [] then disk else
    var last := ws[|ws| - 1];
    Play(disk, ws[..|ws| - 1])[last.at := last.data]
  }

  /** datas[i] goes to block ats[i], in order. */
  function Writes(ats: seq<nat>, datas: seq<Block>): (ws: seq<Write>)
    requires |datas| == |ats|
    ensures |ws| == |ats|
  {
    seq(|ats|, i requires 0 <= i < |ats| => Write(ats[i], datas[i]))
  }

  /** The numbers of the first n log blocks. */
  function Slots(area: Area, n: nat): (r: seq<nat>)
    ensures |r| == n
  {
    seq(n, i => area.start + 1 + i)
  }

  /** The contents of the first n log blocks. */
  function Logged(area: Area, disk: Disk, n: nat): (r: seq<Block>)
    requires area.start + n < |disk|
    ensures |r| == n
  {
    disk[area.start + 1..area.start + 1 + n]
  }

  /** write_log and then write_head. */
  function LoggingWrites(area: Area, lh: seq<nat>, news: seq<Block>, head: Block): (ws: seq<Write>)
    requires |news| == |lh|
  {
    Writes(Slots(area, |lh|), news) + [Write(area.start, head)]
  }

  /** install_trans and then write_head. */
  function HomingWrites(area: Area, lh: seq<nat>, news: seq<Block>, head: Block): (ws: seq<Write>)
    requires |news| == |lh|
  {
    Writes(lh, news) + [Write(area.start, head)]
  }

  /** Everything commit writes; news[i] is what the cache holds for block lh[i]. */
  function CommitWrites(area: Area, disk: Disk, lh: seq<nat>, news: seq<Block>): (ws: seq<Write>)
    requires area.start + |lh| < |disk| && |news| == |lh| < WORDS
  {
    var head := PutHead(disk[area.start], lh);
    if lh == [] then []
    else LoggingWrites(area, lh, news, head) + HomingWrites(area, lh, news, PutHead(head, []))
  }

  /** Everything recover_from_log writes. */
  function RecoverWrites(area: Area, disk: Disk): (ws: seq<Write>)
    requires area.start < |disk| && disk[area.start][0] < WORDS && area.start + disk[area.start][0] < |disk|
  {
    var lh := GetHead(disk[area.start]);
    HomingWrites(area, lh, Logged(area, disk, |lh|), PutHead(disk[area.start], []))
  }

  // Playing writes.

  /** The disk with datas[i] in block ats[i]. */
  function Applied(disk: Disk, ats: seq<nat>, datas: seq<Block>): (r: Disk)
    requires |datas| == |ats| && forall i | 0 <= i < |ats| :: ats[i] < |disk|
    ensures |r| == |disk|
    decreases |ats|
  {
    if ats == [] then disk else
    var n := |ats| - 1;
    Applied(disk, ats[..n], datas[..n])[ats[n] := datas[n]]
  }

  lemma {:induction false} AppliedAt(disk: Disk, ats: seq<nat>, datas: seq<Block>)
    requires |datas| == |ats| && Distinct(ats) && forall i | 0 <= i < |ats| :: ats[i] < |disk|
    ensures forall i | 0 <= i < |ats| :: Applied(disk, ats, datas)[ats[i]] == datas[i]
    ensures forall b | 0 <= b < |disk| && b !in ats :: Applied(disk, ats, datas)[b] == disk[b]
    decreases |ats|
  {
    if ats != [] {
      var n := |ats| - 1;
      AppliedAt(disk, ats[..n], datas[..n]);
      assert ats[n] !in ats[..n];
    }
  }

  lemma {:induction false} PlayWrites(disk: Disk, ats: seq<nat>, datas: seq<Block>)
    requires |datas| == |ats| && forall i | 0 <= i < |ats| :: ats[i] < |disk|
    ensures Fits(disk, Writes(ats, datas)) && Play(disk, Writes(ats, datas)) == Applied(disk, ats, datas)
    decreases |ats|
  {
    if ats != [] {
      var n := |ats| - 1;
      assert Writes(ats, datas)[..n] == Writes(ats[..n], datas[..n]);
      PlayWrites(disk, ats[..n], datas[..n]);
    }
  }

  lemma {:induction false} PlayAppend(disk: Disk, us: seq<Write>, vs: seq<Write>)
    requires Fits(disk, us) && Fits(disk, vs)
    ensures Fits(disk, us + vs) && Play(disk, us + vs) == Play(Play(disk, us), vs)
    decreases |vs|
  {
    if vs == [] {
      assert us + vs == us;
    } else {
      var n := |vs| - 1;
      assert (us + vs)[..|us + vs| - 1] == us + vs[..n];
      PlayAppend(disk, us, vs[..n]);
    }
  }

  // Where a disk can be in the life of one transaction.

  ghost predicate SameHome(area: Area, d: Disk, e: Disk)
  {
    |d| == |e| && forall b | 0 <= b < |d| && !InLog(area, b) :: d[b] == e[b]
  }

  /** No transaction in the log, and the home blocks are those of e. */
  ghost predicate CleanAs(area: Area, d: Disk, e: Disk)
  {
    area.start < |d| && d[area.start][0] == 0 && SameHome(area, d, e)
  }

  /** The log holds the whole transaction; its home blocks may or may not have been copied yet. */
  ghost predicate Committed(area: Area, d: Disk, lh: seq<nat>, news: seq<Block>, post: Disk)
  {
    && |d| == |post| && Loggable(area, d, lh) && |news| == |lh|
    && d[area.start][0] == |lh| && GetHead(d[area.start]) == lh
    && Logged(area, d, |lh|) == news
    && (forall b | 0 <= b < |d| && !InLog(area, b) && b !in lh :: d[b] == post[b])
    && (forall i | 0 <= i < |lh| :: post[lh[i]] == news[i])
  }

  /** Filling log blocks changes no home block and leaves the header clean. */
  lemma {:induction false} LoggingIsInvisible(area: Area, pre: Disk, news: seq<Block>)
    requires area.start + area.size <= |pre| && |news| < area.size && pre[area.start][0] == 0
    ensures Fits(pre, Writes(Slots(area, |news|), news))
    ensures CleanAs(area, Play(pre, Writes(Slots(area, |news|), news)), pre)
    ensures Logged(area, Play(pre, Writes(Slots(area, |news|), news)), |news|) == news
    ensures Play(pre, Writes(Slots(area, |news|), news))[area.start] == pre[area.start]
  {
    var slots := Slots(area, |news|);
    PlayWrites(pre, slots, news);
    AppliedAt(pre, slots, news);
    var d := Applied(pre, slots, news);
    assert area.start !in slots;
    forall i | 0 <= i < |news| ensures Logged(area, d, |news|)[i] == news[i] {
      assert slots[i] == area.start + 1 + i;
    }
  }

  /** Copying any prefix of the log home leaves the transaction committed. */
  lemma {:induction false} InstallingStaysCommitted(area: Area, d: Disk, lh: seq<nat>, news: seq<Block>, post: Disk, k: nat)
    requires Committed(area, d, lh, news, post) && k <= |lh|
    ensures Fits(d, Writes(lh, news)[..k])
    ensures Committed(area, Play(d, Writes(lh, news)[..k]), lh, news, post)
    decreases k
  {
    var ws := Writes(lh, news);
    if k > 0 {
      InstallingStaysCommitted(area, d, lh, news, post, k - 1);
      assert ws[..k][..k - 1] == ws[..k - 1];
      var before := Play(d, ws[..k - 1]);
      var after := before[lh[k - 1] := news[k - 1]];
      assert Play(d, ws[..k]) == after;
      assert Logged(area, after, |lh|) == Logged(area, before, |lh|);
    }
  }

  /** Copying the whole log home gives every home block its new contents. */
  lemma InstalledIsPost(area: Area, d: Disk, lh: seq<nat>, news: seq<Block>, post: Disk)
    requires Committed(area, d, lh, news, post)
    ensures Fits(d, Writes(lh, news)) && SameHome(area, Play(d, Writes(lh, news)), post)
    ensures Play(d, Writes(lh, news))[area.start] == d[area.start]
  {
    PlayWrites(d, lh, news);
    AppliedAt(d, lh, news);
    var e := Play(d, Writes(lh, news));
    assert area.start !in lh;
    forall b | 0 <= b < |d| && !InLog(area, b) ensures e[b] == post[b] {
      if b in lh {
        var i :| 0 <= i < |lh| && lh[i] == b;
      }
    }
  }

  /** Copying home, cut anywhere, leaves the transaction committed until the header is cleared, and over then. */
  lemma HomingCut(area: Area, d: Disk, lh: seq<nat>, news: seq<Block>, post: Disk, head: Block, k: nat)
    requires Committed(area, d, lh, news, post) && head[0] == 0 && k <= |lh| + 1
    ensures Fits(d, HomingWrites(area, lh, news, head))
    ensures var e := Cut(d, HomingWrites(area, lh, news, head), k);
            if k <= |lh| then Committed(area, e, lh, news, post) else CleanAs(area, e, post)
  {
    var (homing, last) := (Writes(lh, news), [Write(area.start, head)]);
    if k <= |lh| {
      assert (homing + last)[..k] == homing[..k];
      InstallingStaysCommitted(area, d, lh, news, post, k);
    } else {
      assert (homing + last)[..k] == homing + last;
      InstalledIsPost(area, d, lh, news, post);
      PlayAppend(d, homing, last);
    }
  }

  // One transaction, cut short anywhere.

  /** The disk after the first k of the writes. */
  ghost function Cut(d: Disk, ws: seq<Write>, k: nat): (r: Disk)
    requires Fits(d, ws) && k <= |ws|
    ensures |r| == |d|
  {
    Play(d, ws[..k])
  }

  lemma CutAppend(d: Disk, us: seq<Write>, vs: seq<Write>, k: nat)
    requires Fits(d, us) && Fits(d, vs) && k <= |us| + |vs|
    ensures Fits(d, us + vs)
    ensures k <= |us| ==> Cut(d, us + vs, k) == Cut(d, us, k)
    ensures k >= |us| ==> Cut(d, us + vs, k) == Cut(Play(d, us), vs, k - |us|)
  {
    if k <= |us| {
      assert (us + vs)[..k] == us[..k];
    } else {
      assert (us + vs)[..k] == us + vs[..k - |us|];
      PlayAppend(d, us, vs[..k - |us|]);
    }
    if k == |us| {
      assert us[..k] == us;
    }
  }

  /** Cut before the header write: nothing has happened. */
  lemma LoggingCutShort(area: Area, pre: Disk, lh: seq<nat>, news: seq<Block>, k: nat)
    requires Loggable(area, pre, lh) && |news| == |lh| && pre[area.start][0] == 0 && k <= |lh|
    ensures var ws := LoggingWrites(area, lh, news, PutHead(pre[area.start], lh));
            Fits(pre, ws) && CleanAs(area, Cut(pre, ws, k), pre)
  {
    var (logging, last) := (Writes(Slots(area, |lh|), news), [Write(area.start, PutHead(pre[area.start], lh))]);
    assert (logging + last)[..k] == Writes(Slots(area, k), news[..k]);
    LoggingIsInvisible(area, pre, news);
    LoggingIsInvisible(area, pre, news[..k]);
  }

  /** Writing the header over a filled log. */
  lemma HeaderCommits(area: Area, pre: Disk, d: Disk, lh: seq<nat>, news: seq<Block>)
    requires Loggable(area, pre, lh) && |news| == |lh| && |d| == |pre| && CleanAs(area, d, pre) && Logged(area, d, |lh|) == news
    ensures Committed(area, d[area.start := PutHead(pre[area.start], lh)], lh, news, Applied(pre, lh, news))
  {
    var head := PutHead(pre[area.start], lh);
    HeadRoundTrip(pre[area.start], lh);
    AppliedAt(pre, lh, news);
    assert Logged(area, d[area.start := head], |lh|) == Logged(area, d, |lh|);
  }

  /** With the header write: the transaction is in the log. */
  lemma LoggingDone(area: Area, pre: Disk, lh: seq<nat>, news: seq<Block>)
    requires Loggable(area, pre, lh) && |news| == |lh| && pre[area.start][0] == 0
    ensures var ws := LoggingWrites(area, lh, news, PutHead(pre[area.start], lh));
            && Fits(pre, ws) && Committed(area, Cut(pre, ws, |lh| + 1), lh, news, Applied(pre, lh, news))
            && Cut(pre, ws, |lh| + 1)[area.start] == PutHead(pre[area.start], lh)
  {
    var (logging, head) := (Writes(Slots(area, |lh|), news), PutHead(pre[area.start], lh));
    var last := [Write(area.start, head)];
    LoggingIsInvisible(area, pre, news);
    PlayAppend(pre, logging, last);
    assert (logging + last)[..|lh| + 1] == logging + last;
    HeaderCommits(area, pre, Play(pre, logging), lh, news);
  }

  /** The header write is the commit point. */
  lemma LoggingCut(area: Area, pre: Disk, lh: seq<nat>, news: seq<Block>, k: nat)
    requires Loggable(area, pre, lh) && |news| == |lh| && pre[area.start][0] == 0 && k <= |lh| + 1
    ensures var ws := LoggingWrites(area, lh, news, PutHead(pre[area.start], lh));
            && Fits(pre, ws)
            && (if k <= |lh| then CleanAs(area, Cut(pre, ws, k), pre)
                else Committed(area, Cut(pre, ws, k), lh, news, Applied(pre, lh, news)))
            && Cut(pre, ws, |lh| + 1)[area.start] == PutHead(pre[area.start], lh)
  {
    LoggingDone(area, pre, lh, news);
    if k <= |lh| { LoggingCutShort(area, pre, lh, news, k); }
  }

  /** Before the header write the disk is as it was; from it on the transaction is in the log or at home. */
  lemma CommitCut(area: Area, pre: Disk, lh: seq<nat>, news: seq<Block>, k: nat)
    requires Loggable(area, pre, lh) && |news| == |lh| > 0 && pre[area.start][0] == 0 && k <= 2 * |lh| + 2
    ensures Fits(pre, CommitWrites(area, pre, lh, news)) && |CommitWrites(area, pre, lh, news)| == 2 * |lh| + 2
    ensures var (d, post) := (Cut(pre, CommitWrites(area, pre, lh, news), k), Applied(pre, lh, news));
            if k <= |lh| then CleanAs(area, d, pre)
            else if k <= 2 * |lh| + 1 then Committed(area, d, lh, news, post)
            else CleanAs(area, d, post)
  {
    var (n, head) := (|lh|, PutHead(pre[area.start], lh));
    var (us, vs) := (LoggingWrites(area, lh, news, head), HomingWrites(area, lh, news, PutHead(head, [])));
    HeadRoundTrip(head, []);
    LoggingCut(area, pre, lh, news, n + 1);
    assert us[..n + 1] == us;
    HomingCut(area, Play(pre, us), lh, news, Applied(pre, lh, news), PutHead(head, []), if k <= n then 0 else k - n - 1);
    CutAppend(pre, us, vs, k);
    if k <= n {
      LoggingCut(area, pre, lh, news, k);
    }
  }

  // Recovery, cut short and started again any number of times.

  ghost predicate Recoverable(area: Area, d: Disk)
  {
    && area.start + area.size <= |d| && area.size > 0
    && d[area.start][0] < area.size && d[area.start][0] < WORDS
    && (forall i | 0 <= i < d[area.start][0] :: GetHead(d[area.start])[i] < |d|)
  }

  /** The disk after each recovery in turn stopped after cuts[0], cuts[1], ... of its writes. */
  ghost function Interrupted(area: Area, d: Disk, cuts: seq<nat>): (r: Disk)
    requires Recoverable(area, d)
    ensures |r| == |d|
    decreases |cuts|
  {
    if cuts == [] then d else
    var ws := RecoverWrites(area, d);
    var e := Cut(d, ws, if cuts[0] < |ws| then cuts[0] else |ws|);
    if Recoverable(area, e) then Interrupted(area, e, cuts[1..]) else e
  }

  ghost function Recovered(area: Area, d: Disk): (r: Disk)
    requires Recoverable(area, d)
  {
    Play(d, RecoverWrites(area, d))
  }

  /** A cut recovery of a committed disk leaves it committed, or finishes it. */
  lemma RecoverCutCommitted(area: Area, d: Disk, lh: seq<nat>, news: seq<Block>, post: Disk, k: nat)
    requires Committed(area, d, lh, news, post)
    requires k <= |lh| + 1
    ensures Recoverable(area, d) && |RecoverWrites(area, d)| == |lh| + 1 && Fits(d, RecoverWrites(area, d))
    ensures var e := Cut(d, RecoverWrites(area, d), k);
            if k <= |lh| then Committed(area, e, lh, news, post) else CleanAs(area, e, post)
  {
    HeadRoundTrip(d[area.start], []);
    HomingCut(area, d, lh, news, post, PutHead(d[area.start], []), k);
  }

  lemma RecoverCutClean(area: Area, d: Disk, e: Disk, k: nat)
    requires CleanAs(area, d, e) && area.start + area.size <= |d| && area.size > 0
    requires k <= 1
    ensures Recoverable(area, d) && |RecoverWrites(area, d)| == 1 && Fits(d, RecoverWrites(area, d))
    ensures CleanAs(area, Cut(d, RecoverWrites(area, d), k), e)
  {
    var ws := RecoverWrites(area, d);
    HeadRoundTrip(d[area.start], []);
    assert ws == [Write(area.start, PutHead(d[area.start], []))];
    assert Play(d, ws[..0]) == d;
    assert ws[..1] == ws && ws[..0] == [];
  }

  lemma {:induction false} InterruptedClean(area: Area, d: Disk, e: Disk, cuts: seq<nat>)
    requires CleanAs(area, d, e) && area.start + area.size <= |d| && area.size > 0
    ensures Recoverable(area, d) && CleanAs(area, Interrupted(area, d, cuts), e)
    decreases |cuts|
  {
    RecoverCutClean(area, d, e, 0);
    if cuts != [] {
      var k := if cuts[0] < 1 then cuts[0] else 1;
      RecoverCutClean(area, d, e, k);
      InterruptedClean(area, Cut(d, RecoverWrites(area, d), k), e, cuts[1..]);
    }
  }

  lemma {:induction false} InterruptedCommitted(area: Area, d: Disk, lh: seq<nat>, news: seq<Block>, post: Disk, cuts: seq<nat>)
    requires Committed(area, d, lh, news, post)
    ensures Recoverable(area, d)
    ensures var e := Interrupted(area, d, cuts); Committed(area, e, lh, news, post) || CleanAs(area, e, post)
    decreases |cuts|
  {
    RecoverCutCommitted(area, d, lh, news, post, 0);
    if cuts != [] {
      var k := if cuts[0] < |lh| + 1 then cuts[0] else |lh| + 1;
      RecoverCutCommitted(area, d, lh, news, post, k);
      var e := Cut(d, RecoverWrites(area, d), k);
      if k <= |lh| {
        InterruptedCommitted(area, e, lh, news, post, cuts[1..]);
      } else {
        InterruptedClean(area, e, post, cuts[1..]);
      }
    }
  }

  /** A recovery that runs to its end leaves a clean log and, of a committed disk, the new home blocks. */
  lemma RecoveredIs(area: Area, d: Disk, lh: seq<nat>, news: seq<Block>, post: Disk)
    requires area.start + area.size <= |d| && area.size > 0
    requires Committed(area, d, lh, news, post) || CleanAs(area, d, post)
    ensures Recoverable(area, d) && Fits(d, RecoverWrites(area, d)) && CleanAs(area, Recovered(area, d), post)
  {
    if Committed(area, d, lh, news, post) {
      RecoverCutCommitted(area, d, lh, news, post, |lh| + 1);
      assert RecoverWrites(area, d)[..|lh| + 1] == RecoverWrites(area, d);
    } else {
      RecoverCutClean(area, d, post, 1);
      assert RecoverWrites(area, d)[..1] == RecoverWrites(area, d);
    }
  }

  /**
   Stop the machine after any k of commit's writes, let recovery be cut short and restarted any
   number of times and then run to its end: the home blocks are exactly those from before the
   transaction if the header had not been written, exactly the new ones if it had.
   */
  lemma CrashAtomic(area: Area, pre: Disk, lh: seq<nat>, news: seq<Block>, k: nat, cuts: seq<nat>)
    requires Loggable(area, pre, lh) && |news| == |lh| && pre[area.start][0] == 0
    requires k <= |CommitWrites(area, pre, lh, news)|
    ensures Fits(pre, CommitWrites(area, pre, lh, news))
    ensures var d := Cut(pre, CommitWrites(area, pre, lh, news), k);
            && Recoverable(area, d) && Recoverable(area, Interrupted(area, d, cuts))
            && Fits(Interrupted(area, d, cuts), RecoverWrites(area, Interrupted(area, d, cuts)))
            && CleanAs(area, Recovered(area, Interrupted(area, d, cuts)),
                       if k <= |lh| then pre else Applied(pre, lh, news))
  {
    var post := Applied(pre, lh, news);
    if lh == [] {
      InterruptedClean(area, pre, pre, cuts);
      RecoveredIs(area, Interrupted(area, pre, cuts), lh, news, pre);
    } else {
      CommitCut(area, pre, lh, news, k);
      var d := Cut(pre, CommitWrites(area, pre, lh, news), k);
      if k <= |lh| {
        InterruptedClean(area, d, pre, cuts);
        RecoveredIs(area, Interrupted(area, d, cuts), lh, news, pre);
      } else if k <= 2 * |lh| + 1 {
        InterruptedCommitted(area, d, lh, news, post, cuts);
        RecoveredIs(area, Interrupted(area, d, cuts), lh, news, post);
      } else {
        InterruptedClean(area, d, post, cuts);
        RecoveredIs(area, Interrupted(area, d, cuts), lh, news, post);
      }
    }
  }

  // Many transactions, some of them cut short.

  /** A transaction that commits undisturbed, or during whose commit the machine stops. */
  datatype Txn =
    | Done(lh: seq<nat>, news: seq<Block>)
    | Crashed(lh: seq<nat>, news: seq<Block>, k: nat, cuts: seq<nat>)

  ghost predicate Possible(area: Area, d: Disk, txn: Txn)
  {
    && Loggable(area, d, txn.lh) && |txn.news| == |txn.lh| && d[area.start][0] == 0
    && (txn.Crashed? ==> txn.k <= |CommitWrites(area, d, txn.lh, txn.news)|)
  }

  /** The disk once the transaction, and the recovery from its crash if it had one, is over. */
  ghost function Outcome(area: Area, d: Disk, txn: Txn): (r: Disk)
    requires Possible(area, d, txn)
  {
    match txn
    case Done(lh, news) =>
      CommitFits(area, d, lh, news);
      Play(d, CommitWrites(area, d, lh, news))
    case Crashed(lh, news, k, cuts) =>
      CrashAtomic(area, d, lh, news, k, cuts);
      Recovered(area, Interrupted(area, Cut(d, CommitWrites(area, d, lh, news), k), cuts))
  }

  lemma CommitFits(area: Area, d: Disk, lh: seq<nat>, news: seq<Block>)
    requires Loggable(area, d, lh) && |news| == |lh|
    ensures Fits(d, CommitWrites(area, d, lh, news))
  {
  }

  /** Whether the transaction's header reached the disk. */
  ghost predicate TookPlace(txn: Txn) { txn.Done? || txn.k > |txn.lh| }

  ghost predicate PossibleRun(area: Area, d: Disk, txns: seq<Txn>)
    decreases |txns|
  {
    txns == [] || (Possible(area, d, txns[0]) && PossibleRun(area, Outcome(area, d, txns[0]), txns[1..]))
  }

  ghost function RunAll(area: Area, d: Disk, txns: seq<Txn>): Disk
    requires PossibleRun(area, d, txns)
    decreases |txns|
  {
    if txns == [] then d else RunAll(area, Outcome(area, d, txns[0]), txns[1..])
  }

  /** The transaction has data for each of its blocks, and they are on a disk of n blocks. */
  ghost predicate TxnFits(txn: Txn, n: nat) { |txn.news| == |txn.lh| && forall i | 0 <= i < |txn.lh| :: txn.lh[i] < n }

  ghost predicate AllFit(txns: seq<Txn>, n: nat) { forall j | 0 <= j < |txns| :: TxnFits(txns[j], n) }

  /** What the home blocks should be: each transaction that took place, whole and in order. */
  ghost function Ideal(e: Disk, txns: seq<Txn>): Disk
    requires AllFit(txns, |e|)
    decreases |txns|
  {
    if txns == [] then e
    else Ideal(if TookPlace(txns[0]) then Applied(e, txns[0].lh, txns[0].news) else e, txns[1..])
  }

  lemma AppliedSameHome(area: Area, d: Disk, e: Disk, lh: seq<nat>, news: seq<Block>)
    requires Loggable(area, d, lh) && |news| == |lh| && SameHome(area, d, e)
    ensures SameHome(area, Applied(d, lh, news), Applied(e, lh, news))
  {
    AppliedAt(d, lh, news);
    AppliedAt(e, lh, news);
    forall b | 0 <= b < |d| && !InLog(area, b) ensures Applied(d, lh, news)[b] == Applied(e, lh, news)[b] {
      if b in lh {
        var i :| 0 <= i < |lh| && lh[i] == b;
      }
    }
  }

  /** One transaction, cut short or not, takes place whole or not at all. */
  lemma OutcomeAtomic(area: Area, d: Disk, e: Disk, txn: Txn)
    requires Possible(area, d, txn) && SameHome(area, d, e)
    ensures CleanAs(area, Outcome(area, d, txn), if TookPlace(txn) then Applied(e, txn.lh, txn.news) else e)
  {
    var (lh, news) := (txn.lh, txn.news);
    AppliedSameHome(area, d, e, lh, news);
    if txn.Crashed? {
      CrashAtomic(area, d, lh, news, txn.k, txn.cuts);
    } else {
      CommitFits(area, d, lh, news);
      var ws := CommitWrites(area, d, lh, news);
      assert ws[..|ws|] == ws;
      if lh != [] {
        CommitCut(area, d, lh, news, |ws|);
      }
    }
  }

  lemma OutcomeSize(area: Area, d: Disk, txn: Txn)
    requires Possible(area, d, txn)
    ensures |Outcome(area, d, txn)| == |d| && TxnFits(txn, |d|)
  {
    assert SameHome(area, d, d);
    OutcomeAtomic(area, d, d, txn);
  }

  lemma {:induction false} RunFits(area: Area, d: Disk, txns: seq<Txn>)
    requires PossibleRun(area, d, txns)
    ensures AllFit(txns, |d|)
    decreases |txns|
  {
    if txns != [] {
      OutcomeSize(area, d, txns[0]);
      RunFits(area, Outcome(area, d, txns[0]), txns[1..]);
      forall j | 0 <= j < |txns| ensures TxnFits(txns[j], |d|) {
        if j > 0 { assert TxnFits(txns[1..][j - 1], |d|); }
      }
    }
  }

  /** Over any run of transactions and crashes the home blocks are those of the transactions that took place. */
  lemma {:induction false} RunIsAtomic(area: Area, d: Disk, e: Disk, txns: seq<Txn>)
    requires PossibleRun(area, d, txns) && CleanAs(area, d, e)
    ensures AllFit(txns, |e|) && CleanAs(area, RunAll(area, d, txns), Ideal(e, txns))
    decreases |txns|
  {
    RunFits(area, d, txns);
    if txns != [] {
      var txn := txns[0];
      OutcomeAtomic(area, d, e, txn);
      var e' := if TookPlace(txn) then Applied(e, txn.lh, txn.news) else e;
      RunIsAtomic(area, Outcome(area, d, txn), e', txns[1..]);
    }
  }
}
