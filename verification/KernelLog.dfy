/** log.c as it runs: the in-memory log structure updated in place, with every disk
    write recorded in the order it is issued. */
module KernelLog {
  import opened Storage
  import opened RedoLog
  import LogRuns

  datatype Outcome = Ok | Panic(reason: string)

  class Log {
    const l: Layout
    var disk: Disk
    var dirty: map<int, Block>     // buffers holding B_DIRTY contents
    var n: int                     // lh.n
    var block: array<int>          // lh.block
    var outstanding: int
    var committing: bool
    var sleepers: set<int>         // processes asleep on &log
    ghost var trace: seq<Write>    // every bwrite so far

    ghost predicate Valid()
      reads this, block
    {
      && block.Length == LOGSIZE
      && 0 <= n <= LOGSIZE
      && 1 <= l.size
      && Listable(l, block[..n])
      && (forall b :: b in dirty ==> !InLog(l, b))
    }

    /** The list fits the log area. */
    predicate Fits()
      reads this
    {
      n <= Capacity(l)
    }

    function Lh(): seq<int>
      reads this, block
      requires 0 <= n <= block.Length
    {
      block[..n]
    }

    /** The transaction's blocks as the cache holds them. */
    function LoggedData(): (data: seq<Block>)
      reads this, block
      requires 0 <= n <= block.Length
    {
      Views(disk, dirty, Lh())
    }

    constructor (l: Layout, d: Disk)
      requires 1 <= l.size
      ensures Valid() && disk == d && dirty == map[] && n == 0 && outstanding == 0 && !committing && sleepers == {}
      ensures this.l == l && trace == [] && fresh(block)
    {
      this.l := l;
      disk := d;
      dirty := map[];
      n := 0;
      block := new int[LOGSIZE];
      outstanding := 0;
      committing := false;
      sleepers := {};
      trace := [];
    }

    /** bwrite: one atomic disk step; the buffer is clean afterwards. */
    method Bwrite(b: int, data: Block)
      modifies `disk, `dirty, `trace
      ensures trace == old(trace) + [Write(b, data)]
      ensures disk == old(disk)[b := data]
      ensures dirty == old(dirty) - {b}
    {
      disk := disk[b := data];
      dirty := dirty - {b};
      trace := trace + [Write(b, data)];
    }

    /** Copies the cached blocks to the log area and changes nothing else. */
    method WriteLog()
      requires Valid() && Fits()
      modifies `disk, `dirty, `trace
      ensures Valid() && dirty == old(dirty)
      ensures trace == old(trace) + LogPart(l, old(LoggedData()))
      ensures disk == Apply(old(disk), LogPart(l, old(LoggedData())))
    {
      ghost var ws := LogPart(l, LoggedData());
      for tail := 0 to n
        invariant dirty == old(dirty)
        invariant trace == old(trace) + ws[..tail]
        invariant disk == Apply(old(disk), ws[..tail])
        invariant forall b :: !InLog(l, b) ==> Read(disk, b) == Read(old(disk), b)
      {
        LogOneBlock(tail, old(disk), old(trace), ws);
      }
      assert ws[..n] == ws;
    }

    /** One turn of write_log's loop. */
    method LogOneBlock(tail: int, ghost disk0: Disk, ghost trace0: seq<Write>, ghost ws: seq<Write>)
      requires Valid() && Fits() && 0 <= tail < n && |ws| == n
                && ws[tail] == Write(l.start + tail + 1, View(disk0, dirty, block[tail]))
      requires trace == trace0 + ws[..tail] && disk == Apply(disk0, ws[..tail])
      requires forall b :: !InLog(l, b) ==> Read(disk, b) == Read(disk0, b)
      modifies `disk, `dirty, `trace
      ensures dirty == old(dirty) && trace == trace0 + ws[..tail + 1] && disk == Apply(disk0, ws[..tail + 1])
      ensures forall b :: !InLog(l, b) ==> Read(disk, b) == Read(disk0, b)
    {
      var data := View(disk, dirty, block[tail]);
      assert block[..n][tail] == block[tail];
      assert data == View(disk0, dirty, block[tail]);
      assert ws[..tail + 1] == ws[..tail] + [ws[tail]];
      ApplySnoc(disk0, ws[..tail], ws[tail]);
      Bwrite(l.start + tail + 1, data);
      assert dirty == old(dirty);
    }

    /** Writes n and the first n entries into the header block, word by word. */
    method WriteHead()
      requires Valid()
      modifies `disk, `dirty, `trace
      ensures Valid() && dirty == old(dirty)
      ensures trace == old(trace) + [HeadWrite(l, old(disk), Lh())]
      ensures disk == old(disk)[l.start := HeadBlock(Read(old(disk), l.start), Lh())]
    {
      assert InLog(l, l.start);
      var h0: Block := View(disk, dirty, l.start);
      var h: Block := h0[0 := n];
      for i := 0 to n
        invariant h == [n] + block[..i] + h0[1 + i..]
      {
        h := h[1 + i := block[i]];
      }
      Bwrite(l.start, h);
      assert dirty == old(dirty);
    }

    /** Copies the log blocks home, one write each, and unpins them. */
    method InstallTrans()
      requires Valid() && Fits()
      modifies `disk, `dirty, `trace
      ensures Valid()
      ensures trace == old(trace) + HomePart(Lh(), LogData(l, old(disk), n))
      ensures disk == Apply(old(disk), HomePart(Lh(), LogData(l, old(disk), n)))
      ensures forall b :: b in dirty <==> b in old(dirty) && b !in Lh()
      ensures forall b :: b in dirty ==> dirty[b] == old(dirty)[b]
    {
      ghost var data := LogData(l, disk, n);
      ghost var ws := HomePart(Lh(), data);
      for tail := 0 to n
        invariant forall b :: b in dirty <==> b in old(dirty) && b !in block[..tail]
        invariant forall b :: b in dirty ==> dirty[b] == old(dirty)[b]
        invariant trace == old(trace) + ws[..tail]
        invariant disk == Apply(old(disk), ws[..tail])
        invariant forall b :: InLog(l, b) ==> Read(disk, b) == Read(old(disk), b)
      {
        assert InLog(l, l.start + tail + 1);
        var lbuf := View(disk, dirty, l.start + tail + 1);
        assert lbuf == data[tail];
        assert ws[..tail + 1] == ws[..tail] + [ws[tail]];
        ApplySnoc(old(disk), ws[..tail], ws[tail]);
        assert !InLog(l, Lh()[tail]);
        Bwrite(block[tail], lbuf);
        assert block[..tail + 1] == block[..tail] + [block[tail]];
      }
      assert ws[..n] == ws;
    }

    /** Loads the on-disk header's list into memory. */
    method ReadHead()
      requires Valid() && HeaderOk(l, disk)
      modifies `n, block
      ensures Valid() && Fits() && Lh() == HeaderList(l, disk)
    {
      assert InLog(l, l.start);
      var h := View(disk, dirty, l.start);
      n := h[0];
      for i := 0 to n
        invariant n == h[0] && block[..i] == h[1..1 + i]
      {
        block[i] := h[1 + i];
      }
    }

    /** Recovery performs exactly the writes RecoverWrites lists and leaves an empty log. */
    method RecoverFromLog()
      requires Valid() && HeaderOk(l, disk) && dirty == map[]
      modifies this, block
      ensures Valid() && n == 0 && dirty == map[] && block == old(block)
      ensures outstanding == old(outstanding) && committing == old(committing)
      ensures trace == old(trace) + RecoverWrites(l, old(disk))
      ensures disk == Recover(l, old(disk)) && LogEmpty(l, disk)
    {
      ReadHead();
      RecoverResult(old(disk));
      InstallAndClear();
    }

    lemma RecoverResult(d: Disk)
      requires HeaderOk(l, d)
      ensures var lh := HeaderList(l, d);
              var home := HomePart(lh, LogData(l, d, |lh|));
              var w := HeadWrite(l, Apply(d, home), []);
              && RecoverWrites(l, d) == home + [w] && Recover(l, d) == Apply(d, home)[l.start := w.data]
              && LogEmpty(l, Recover(l, d))
    {
      var lh := HeaderList(l, d);
      var home := HomePart(lh, LogData(l, d, |lh|));
      assert l.start !in lh;
      ApplyElsewhere(d, home, l.start);
      ApplySnoc(d, home, HeadWrite(l, d, []));
      ClearHead(l, Apply(d, home));
    }

    /** A commit performs exactly the writes CommitWrites lists, and ends with the
        transaction installed, nothing pinned and an empty log. */
    method Commit()
      requires Valid() && Fits() && LogEmpty(l, disk)
      requires forall b :: b in dirty <==> b in Lh()
      modifies `disk, `dirty, `trace, `n
      ensures Valid() && n == 0 && dirty == map[]
      ensures trace == old(trace) + CommitWrites(l, old(disk), old(Lh()), old(LoggedData()))
      ensures disk == Apply(old(disk), CommitWrites(l, old(disk), old(Lh()), old(LoggedData())))
      ensures LogEmpty(l, disk)
      ensures forall b :: !InLog(l, b) ==> View(disk, dirty, b) == View(old(disk), old(dirty), b) == Read(disk, b)
    {
      ghost var lh, data, d0 := Lh(), LoggedData(), disk;
      CommitResult(d0, dirty, lh, data);
      if n > 0 {
        CommitLogged();
      }
    }

    /** write_log and write_head: everything up to the commit point. */
    method LogAndHead()
      requires Valid() && Fits() && HeaderOk(l, disk)
      modifies `disk, `dirty, `trace
      ensures Valid() && dirty == old(dirty)
      ensures trace == old(trace) + CommitPoint(l, old(disk), Lh(), old(LoggedData()))
      ensures disk == Apply(old(disk), CommitPoint(l, old(disk), Lh(), old(LoggedData())))
      ensures LogData(l, disk, n) == old(LoggedData())
    {
      ghost var lh, data, d0 := Lh(), LoggedData(), disk;
      WriteLog();
      LogThenHead(d0, lh, data, disk);
      WriteHead();
    }

    /** install_trans and the write_head that erases the transaction. */
    method InstallAndClear()
      requires Valid() && Fits() && forall b :: b in dirty ==> b in Lh()
      modifies `disk, `dirty, `trace, `n
      ensures Valid() && n == 0 && dirty == map[]
      ensures var home := HomePart(old(Lh()), LogData(l, old(disk), old(n)));
              var w := HeadWrite(l, Apply(old(disk), home), []);
              && trace == old(trace) + (home + [w])
              && disk == Apply(old(disk), home)[l.start := w.data]
    {
      InstallTrans();
      assert forall b :: b !in dirty;
      n := 0;
      WriteHead();
    }

    method CommitLogged()
      requires Valid() && Fits() && HeaderOk(l, disk) && n > 0
      requires forall b :: b in dirty <==> b in Lh()
      modifies `disk, `dirty, `trace, `n
      ensures Valid() && n == 0 && dirty == map[]
      ensures trace == old(trace) + CommitWrites(l, old(disk), old(Lh()), old(LoggedData()))
      ensures disk == Apply(old(disk), CommitWrites(l, old(disk), old(Lh()), old(LoggedData())))
    {
      ghost var lh, data, d0 := Lh(), LoggedData(), disk;
      LogAndHead();
      ghost var d2 := disk;
      HomeThenClear(d0, lh, data, d2, Overlay(d2, lh, data));
      InstallAndClear();
    }

    lemma CommitResult(d: Disk, dirty: map<int, Block>, lh: seq<int>, data: seq<Block>)
      requires LogEmpty(l, d) && Loggable(l, lh) && data == Views(d, dirty, lh)
      requires forall b :: b in dirty <==> b in lh
      ensures var e := Apply(d, CommitWrites(l, d, lh, data));
              LogEmpty(l, e) && forall b :: !InLog(l, b) ==> Read(e, b) == View(d, dirty, b)
    {
      CommitEnd(l, d, lh, data);
      forall b | !InLog(l, b)
        ensures Read(Overlay(d, lh, data), b) == View(d, dirty, b)
      {
        OverlayRead(d, lh, data, b);
      }
    }

    lemma LogThenHead(d: Disk, lh: seq<int>, data: seq<Block>, d1: Disk)
      requires HeaderOk(l, d) && Loggable(l, lh) && |data| == |lh|
      requires d1 == Apply(d, LogPart(l, data))
      ensures HeadWrite(l, d1, lh) == HeadWrite(l, d, lh)
      ensures var d2 := d1[l.start := HeadBlock(Read(d1, l.start), lh)];
              d2 == Apply(d, CommitPoint(l, d, lh, data)) && LogData(l, d2, |lh|) == data
    {
      ApplyElsewhere(d, LogPart(l, data), l.start);
      ApplySnoc(d, LogPart(l, data), HeadWrite(l, d, lh));
      HeaderWriteCommits(l, d, lh, data);
    }

    lemma HomeThenClear(d: Disk, lh: seq<int>, data: seq<Block>, d2: Disk, d3: Disk)
      requires HeaderOk(l, d) && Loggable(l, lh) && |data| == |lh| > 0
      requires d2 == Apply(d, CommitPoint(l, d, lh, data)) && d3 == Overlay(d2, lh, data)
      ensures var w := HeadWrite(l, d3, []);
              && CommitWrites(l, d, lh, data) == CommitPoint(l, d, lh, data) + (HomePart(lh, data) + [w])
              && Apply(d, CommitWrites(l, d, lh, data)) == d3[l.start := w.data]
    {
      var a := CommitPoint(l, d, lh, data);
      var head := HeadBlock(Read(d, l.start), lh);
      assert Read(d3, l.start) == head by {
        assert l.start !in lh;
        ApplyElsewhere(d2, HomePart(lh, data), l.start);
        ApplyLast(d, a, |lh|);
      }
      ApplyConcat(d, a, HomePart(lh, data));
      ApplySnoc(d, a + HomePart(lh, data), Write(l.start, HeadBlock(head, [])));
    }

    /** The log with the lock free, as the state s of the runs that start from the disk d; a
        commit that has been decided on has not begun to write. */
    ghost predicate Models(s: LogRuns.State, d: Disk)
      reads this, block
    {
      && Valid() && LogRuns.Reachable(l, d, s)
      && s.disk == disk && s.dirty == dirty && s.lh == Lh() && |s.ops| == outstanding
      && if committing then s.phase == LogRuns.Committing(disk, LoggedData(), 0) else s.phase == LogRuns.Running
    }

    /** begin_op would let another operation in. */
    predicate Admits()
      reads this
    {
      !committing && n + (outstanding + 1) * MAXOPBLOCKS <= LOGSIZE
    }

    /** Nobody sleeps in begin_op who could go on. */
    predicate NobodyForgotten()
      reads this
    {
      sleepers != {} ==> !Admits()
    }

    /** recover_from_log at boot, after which the log is in a state of the runs. */
    method Initlog(ghost d: Disk, ghost most: nat) returns (ghost s: LogRuns.State)
      requires Valid() && HeaderOk(l, disk) && disk == d && dirty == map[] && outstanding == 0 && !committing
      requires most <= MAXOPBLOCKS
      modifies this, block
      ensures Models(s, d) && s.most == most && trace == old(trace) + RecoverWrites(l, d)
    {
      RecoverFromLog();
      s := LogRuns.RecoverAll(l, d, most);
    }

    /** begin_op by process p, up to its return or its sleep. It is admitted exactly when the
        run may take a BeginOp step, so lh.n plus all reserved blocks stays within LOGSIZE. */
    method BeginOp(p: int, ghost s: LogRuns.State, ghost d: Disk) returns (admitted: bool)
      requires Valid()
      modifies `outstanding, `sleepers
      ensures admitted == old(Admits()) && sleepers == if admitted then old(sleepers) else old(sleepers) + {p}
      ensures outstanding == old(outstanding) + if admitted then 1 else 0
      ensures old(NobodyForgotten()) ==> NobodyForgotten()
      ensures old(Models(s, d)) ==> admitted == LogRuns.Enabled(l, s, LogRuns.BeginOp)
      ensures old(Models(s, d)) ==> Models(if admitted then LogRuns.Do(l, s, LogRuns.BeginOp) else s, d)
    {
      if committing || n + (outstanding + 1) * MAXOPBLOCKS > LOGSIZE {
        sleepers := sleepers + {p};
        return false;
      }
      outstanding := outstanding + 1;
      BeginRefines(s, d);
      return true;
    }

    lemma BeginRefines(s: LogRuns.State, d: Disk)
      ensures LogRuns.Reachable(l, d, s) && LogRuns.Enabled(l, s, LogRuns.BeginOp) ==>
                LogRuns.Reachable(l, d, LogRuns.Do(l, s, LogRuns.BeginOp))
    {
      if LogRuns.Reachable(l, d, s) && LogRuns.Enabled(l, s, LogRuns.BeginOp) {
        LogRuns.ReachStep(l, d, s, LogRuns.BeginOp);
      }
    }

    /** end_op's first critical section: the last operation out is to commit, the others only
        leave, and then everybody asleep in begin_op is woken. */
    method LeaveOp() returns (r: Outcome, commit: bool)
      requires Valid()
      modifies `outstanding, `committing, `sleepers
      ensures outstanding == old(outstanding) - 1 && committing == (old(committing) || commit)
      ensures r.Panic? <==> old(committing)
      ensures commit <==> r.Ok? && outstanding == 0
      ensures sleepers == if r.Ok? && !commit then {} else old(sleepers)
      ensures r.Ok? ==> NobodyForgotten()
    {
      outstanding := outstanding - 1;
      if committing {
        return Panic("log.committing"), false;
      }
      if outstanding == 0 {
        committing := true;
        return Ok, true;
      }
      sleepers := {};
      return Ok, false;
    }

    /** The rest of end_op for the last operation out: the whole group is committed, and then
        everybody who went to sleep in begin_op, also while the commit ran, is woken. */
    method FinishCommit()
      requires Valid() && Fits() && LogEmpty(l, disk) && committing
      requires forall b :: b in dirty <==> b in Lh()
      modifies `committing, `disk, `dirty, `trace, `n, `sleepers
      ensures Valid() && !committing && sleepers == {} && n == 0 && dirty == map[]
      ensures trace == old(trace) + CommitWrites(l, old(disk), old(Lh()), old(LoggedData()))
      ensures disk == Apply(old(disk), CommitWrites(l, old(disk), old(Lh()), old(LoggedData())))
      ensures LogEmpty(l, disk) && forall b :: !InLog(l, b) ==> Read(disk, b) == View(old(disk), old(dirty), b)
    {
      Commit();
      committing := false;
      sleepers := {};
    }

    lemma ViewsCached(s: LogRuns.State)
      requires LogRuns.Pinned(s)
      ensures Views(s.disk, s.dirty, s.lh) == LogRuns.Cached(s)
    {
    }

    /** LeaveOp by operation i of a run is the run's EndOp step, never the panic. */
    method LeaveRunningOp(ghost s: LogRuns.State, ghost i: nat, ghost d: Disk) returns (commit: bool)
      requires Models(s, d) && !committing && i < |s.ops| && !s.ops[i].past
      modifies `outstanding, `committing, `sleepers
      ensures commit == committing == (|s.ops| == 1) && NobodyForgotten()
      ensures LogRuns.Enabled(l, s, LogRuns.EndOp(i)) && Models(LogRuns.Do(l, s, LogRuns.EndOp(i)), d)
    {
      LogRuns.ListFits(l, d, s);
      ViewsCached(s);
      LogRuns.ReachStep(l, d, s, LogRuns.EndOp(i));
      var r;
      r, commit := LeaveOp();
    }

    /** FinishCommit in a run with a spacious log leads where the steps of a whole commit lead. */
    method FinishRunningCommit(ghost s: LogRuns.State, ghost d: Disk) returns (ghost t: LogRuns.State)
      requires Models(s, d) && committing && LogRuns.Spacious(l, s.most)
      modifies `committing, `disk, `dirty, `trace, `n, `sleepers
      ensures Models(t, d) && LogRuns.Leads(l, s, t) && !committing && t.ops == [] && t.lh == [] && NobodyForgotten()
      ensures LogEmpty(l, disk) && forall b :: !InLog(l, b) ==> Read(disk, b) == View(s.disk, s.dirty, b)
    {
      LogRuns.ReachableInv(l, d, s);
      LogRuns.SpaciousFits(l, s);
      FinishCommit();
      t := LogRuns.CommitAll(l, d, s);
    }

    /** log_write up to acquire(&log.lock): it reads lh.n and outstanding without the lock. */
    method LogTest() returns (r: Outcome)
      ensures r.Panic? <==> n >= LOGSIZE || n >= l.size - 1 || outstanding < 1
    {
      if n >= LOGSIZE || n >= l.size - 1 {
        return Panic("too big a transaction");
      }
      if outstanding < 1 {
        return Panic("log_write outside of trans");
      }
      return Ok;
    }

    /** log_write's critical section: lists the block once, however often it is logged, and pins
        its buffer. */
    method LogAppend(b: int, data: Block)
      requires Valid() && !InLog(l, b) && (b in Lh() || n < LOGSIZE)
      modifies `n, `dirty, block
      ensures Valid() && Lh() == LogRuns.Absorb(old(Lh()), b) && dirty == old(dirty)[b := data]
    {
      var i := 0;
      while i < n && block[i] != b
        invariant 0 <= i <= n && b !in block[..i]
      {
        i := i + 1;
      }
      ghost var lh := Lh();
      if i < n {
        assert b == lh[i];
      } else {
        assert b !in lh;
      }
      block[i] := b;
      if i == n {
        n := n + 1;
        assert Lh() == lh + [b];
      } else {
        assert Lh() == lh;
      }
      dirty := dirty[b := data];
    }

    /** The test by operation i of a run panics exactly when the run's guard fires, and else is
        the run's Test step. */
    method LogRunningTest(ghost s: LogRuns.State, ghost i: nat, ghost d: Disk) returns (r: Outcome)
      requires Models(s, d) && !committing && i < |s.ops| && !s.ops[i].past
      ensures r.Panic? <==> LogRuns.GuardFires(l, s)
      ensures r.Ok? ==> LogRuns.Enabled(l, s, LogRuns.Test(i)) && Models(LogRuns.Do(l, s, LogRuns.Test(i)), d)
    {
      r := LogTest();
      if r.Ok? {
        LogRuns.ReachStep(l, d, s, LogRuns.Test(i));
      }
    }

    /** The critical section by an operation that is past the test, within its budget, is the
        run's Append step, whatever has been listed since the test. */
    method LogRunningAppend(b: int, data: Block, ghost s: LogRuns.State, ghost i: nat, ghost d: Disk)
      requires Models(s, d) && LogRuns.Enabled(l, s, LogRuns.Append(i, Write(b, data)))
      modifies `n, `dirty, block
      ensures Models(LogRuns.Do(l, s, LogRuns.Append(i, Write(b, data))), d)
    {
      LogRuns.AppendFits(l, d, s, i, Write(b, data));
      LogRuns.ReachStep(l, d, s, LogRuns.Append(i, Write(b, data)));
      LogAppend(b, data);
    }
  }
}
