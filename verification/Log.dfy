/** The redo log of log.c on values: the disk writes that a commit and a recovery
    issue, and what a crash between any two of them leaves behind. */
module RedoLog {
  import opened Storage

  /** `start` is the header block; the log blocks follow it, `size` blocks in all. */
  datatype Layout = Layout(start: int, size: int)

  predicate InLog(l: Layout, b: int) {
    l.start <= b < l.start + l.size
  }

  /** How many blocks one transaction can hold. */
  function Capacity(l: Layout): int {
    if LOGSIZE <= l.size - 1 then LOGSIZE else l.size - 1
  }

  /** Distinct home blocks. */
  predicate Listable(l: Layout, lh: seq<int>) {
    Distinct(lh) && forall i :: 0 <= i < |lh| ==> !InLog(l, lh[i])
  }

  /** A block list the header can name: distinct home blocks that fit the log. */
  predicate Loggable(l: Layout, lh: seq<int>) {
    |lh| <= Capacity(l) && Listable(l, lh)
  }

  // ---- the header block: word 0 is n, the next n words are the block numbers ----

  predicate HeaderOk(l: Layout, d: Disk) {
    var h := Read(d, l.start);
    && 1 <= l.size
    && 0 <= h[0] <= Capacity(l)
    && Loggable(l, h[1..1 + h[0]])
  }

  /** The header's count is one that lh.block has room for. */
  predicate HeaderFits(l: Layout, d: Disk) {
    0 <= Read(d, l.start)[0] <= LOGSIZE
  }

  function HeaderList(l: Layout, d: Disk): seq<int>
    requires HeaderFits(l, d)
  {
    var h := Read(d, l.start);
    h[1..1 + h[0]]
  }

  /** The header as `write_head` leaves it: words past the n-th entry are not touched. */
  function HeadBlock(h: Block, lh: seq<int>): Block
    requires |lh| <= LOGSIZE
  {
    [|lh|] + lh + h[1 + |lh|..]
  }

  // ---- the writes each routine issues ----

  function LogPart(l: Layout, data: seq<Block>): (ws: seq<Write>) {
    seq(|data|, i requires 0 <= i < |data| => Write(l.start + 1 + i, data[i]))
  }

  function HomePart(lh: seq<int>, data: seq<Block>): (ws: seq<Write>)
    requires |lh| == |data|
  {
    seq(|lh|, i requires 0 <= i < |lh| => Write(lh[i], data[i]))
  }

  /** What the log area holds for the first `n` entries. */
  function LogData(l: Layout, d: Disk, n: nat): (data: seq<Block>)
    ensures |data| == n
  {
    seq<Block>(n, i requires 0 <= i < n => Read(d, l.start + 1 + i))
  }

  function HeadWrite(l: Layout, d: Disk, lh: seq<int>): Write
    requires |lh| <= LOGSIZE
  {
    Write(l.start, HeadBlock(Read(d, l.start), lh))
  }

  /** Every disk write of one `commit`, in order; `data` is the cached contents of `lh`. */
  function CommitWrites(l: Layout, d: Disk, lh: seq<int>, data: seq<Block>): (ws: seq<Write>)
    requires |lh| == |data| <= LOGSIZE
  {
    if lh == [] then []
    else
      var head := HeadBlock(Read(d, l.start), lh);
      LogPart(l, data) + [Write(l.start, head)] + HomePart(lh, data) + [Write(l.start, HeadBlock(head, []))]
  }

  /** Every disk write of one `recover_from_log`. */
  function RecoverWrites(l: Layout, d: Disk): (ws: seq<Write>)
    requires HeaderFits(l, d)
  {
    var lh := HeaderList(l, d);
    HomePart(lh, LogData(l, d, |lh|)) + [HeadWrite(l, d, [])]
  }

  function Recover(l: Layout, d: Disk): Disk
    requires HeaderFits(l, d)
  {
    Apply(d, RecoverWrites(l, d))
  }

  /** `d` with the blocks of the transaction replaced: the intended effect of a commit. */
  function Overlay(d: Disk, lh: seq<int>, data: seq<Block>): Disk
    requires |lh| == |data|
  {
    Apply(d, HomePart(lh, data))
  }

  /** Agreement on every block outside the log area. */
  ghost predicate HomeEq(l: Layout, d: Disk, e: Disk) {
    forall b :: !InLog(l, b) ==> Read(d, b) == Read(e, b)
  }

  predicate LogEmpty(l: Layout, d: Disk) {
    HeaderOk(l, d) && HeaderList(l, d) == []
  }

  // ---- what a disk with a committed transaction looks like ----

  /** `e` carries the committed transaction (lh, data) over `d`; any subset of it may be installed. */
  ghost predicate Committed(l: Layout, d: Disk, e: Disk, lh: seq<int>, data: seq<Block>) {
    && |lh| == |data|
    && HeaderOk(l, e) && HeaderList(l, e) == lh
    && LogData(l, e, |lh|) == data
    && forall b :: !InLog(l, b) && b !in lh ==> Read(e, b) == Read(d, b)
  }

  lemma OverlayRead(d: Disk, lh: seq<int>, data: seq<Block>, b: int)
    requires |lh| == |data| && Distinct(lh)
    ensures b !in lh ==> Read(Overlay(d, lh, data), b) == Read(d, b)
    ensures forall i :: 0 <= i < |lh| && lh[i] == b ==> Read(Overlay(d, lh, data), b) == data[i]
  {
    var ws := HomePart(lh, data);
    if b in lh {
      var i :| 0 <= i < |lh| && lh[i] == b;
      ApplyLast(d, ws, i);
    } else {
      ApplyElsewhere(d, ws, b);
    }
  }

  lemma OverlayCongruent(l: Layout, d: Disk, e: Disk, lh: seq<int>, data: seq<Block>)
    requires |lh| == |data| && Distinct(lh)
    requires forall b :: !InLog(l, b) && b !in lh ==> Read(e, b) == Read(d, b)
    ensures HomeEq(l, Overlay(e, lh, data), Overlay(d, lh, data))
  {
    forall b | !InLog(l, b)
      ensures Read(Overlay(e, lh, data), b) == Read(Overlay(d, lh, data), b)
    {
      OverlayRead(d, lh, data, b);
      OverlayRead(e, lh, data, b);
    }
  }

  lemma HeadBlockRead(l: Layout, d: Disk, lh: seq<int>)
    requires 1 <= l.size && Loggable(l, lh)
    ensures HeadBlock(Read(d, l.start), lh)[0] == |lh|
    ensures HeadBlock(Read(d, l.start), lh)[1..1 + |lh|] == lh
  {
  }

  /** Clearing the header empties the log and changes no home block. */
  lemma ClearHead(l: Layout, d: Disk)
    requires 1 <= l.size
    ensures var e := d[l.start := HeadBlock(Read(d, l.start), [])];
            LogEmpty(l, e) && HomeEq(l, e, d)
  {
    HeadBlockRead(l, d, []);
  }

  lemma RecoverCommitted(l: Layout, d: Disk, e: Disk, lh: seq<int>, data: seq<Block>)
    requires Committed(l, d, e, lh, data)
    ensures HomeEq(l, Recover(l, e), Overlay(d, lh, data)) && LogEmpty(l, Recover(l, e))
  {
    var w := HeadWrite(l, e, []);
    var f := Overlay(e, lh, data);
    ApplySnoc(e, HomePart(lh, data), w);
    ApplyElsewhere(e, HomePart(lh, data), l.start);
    ClearHead(l, f);
    OverlayCongruent(l, d, e, lh, data);
  }

  /** Installing any number of the transaction's blocks leaves it committed. */
  lemma InstallKeepsCommitted(l: Layout, d: Disk, e: Disk, lh: seq<int>, data: seq<Block>, k: nat)
    requires Committed(l, d, e, lh, data) && k <= |lh|
    ensures Committed(l, d, Apply(e, HomePart(lh, data)[..k]), lh, data)
  {
    var ws := HomePart(lh, data)[..k];
    var f := Apply(e, ws);
    forall b | b !in lh
      ensures Read(f, b) == Read(e, b)
    {
      ApplyElsewhere(e, ws, b);
    }
    assert l.start !in lh;
    assert LogData(l, f, |lh|) == data by {
      forall i | 0 <= i < |lh|
        ensures LogData(l, f, |lh|)[i] == data[i]
      {
        assert InLog(l, l.start + 1 + i);
        assert l.start + 1 + i !in lh;
        assert LogData(l, e, |lh|)[i] == Read(e, l.start + 1 + i);
      }
    }
  }

  /** Writing the log and then the header is what commits the transaction. */
  lemma HeaderWriteCommits(l: Layout, d: Disk, lh: seq<int>, data: seq<Block>)
    requires HeaderOk(l, d) && Loggable(l, lh) && |data| == |lh|
    ensures Committed(l, d, Apply(d, LogPart(l, data) + [HeadWrite(l, d, lh)]), lh, data)
  {
    var ws := LogPart(l, data) + [HeadWrite(l, d, lh)];
    var e := Apply(d, ws);
    ApplyLast(d, ws, |lh|);
    HeadBlockRead(l, d, lh);
    assert HeaderOk(l, e) && HeaderList(l, e) == lh;
    forall i | 0 <= i < |lh|
      ensures LogData(l, e, |lh|)[i] == data[i]
    {
      ApplyLast(d, ws, i);
      assert ws[i] == Write(l.start + 1 + i, data[i]);
    }
    assert LogData(l, e, |lh|) == data;
    forall b | !InLog(l, b) && b !in lh
      ensures Read(e, b) == Read(d, b)
    {
      ApplyElsewhere(d, ws, b);
    }
  }

  /** Log writes alone change no home block and leave the log empty. */
  lemma LogWritesInvisible(l: Layout, d: Disk, data: seq<Block>, k: nat)
    requires LogEmpty(l, d) && k <= |data| <= Capacity(l)
    ensures var e := Apply(d, LogPart(l, data)[..k]);
            LogEmpty(l, e) && HomeEq(l, e, d)
  {
    var ws := LogPart(l, data)[..k];
    forall b | !InLog(l, b) || b == l.start
      ensures Read(Apply(d, ws), b) == Read(d, b)
    {
      ApplyElsewhere(d, ws, b);
    }
  }

  lemma RecoverEmpty(l: Layout, d: Disk)
    requires LogEmpty(l, d)
    ensures HomeEq(l, Recover(l, d), d) && LogEmpty(l, Recover(l, d))
  {
    assert LogData(l, d, 0) == [];
    assert Committed(l, d, d, [], []);
    RecoverCommitted(l, d, d, [], []);
    assert Overlay(d, [], []) == d;
  }

  // ---- the main results ----

  /** The writes of a commit up to and including the header. */
  function CommitPoint(l: Layout, d: Disk, lh: seq<int>, data: seq<Block>): (ws: seq<Write>)
    requires |lh| == |data| <= LOGSIZE
  {
    LogPart(l, data) + [HeadWrite(l, d, lh)]
  }

  lemma CommitPrefix(l: Layout, d: Disk, lh: seq<int>, data: seq<Block>, k: nat)
    requires |lh| == |data| <= LOGSIZE && lh != []
    ensures var n := |lh|; var ws := CommitWrites(l, d, lh, data);
            && |ws| == 2 * n + 2
            && (k <= n ==> ws[..k] == LogPart(l, data)[..k])
            && (n < k <= 2 * n + 1 ==> ws[..k] == CommitPoint(l, d, lh, data) + HomePart(lh, data)[..k - n - 1])
  {
  }

  /** Between the header write and its erasure the transaction is committed. */
  lemma CommitMiddle(l: Layout, d: Disk, lh: seq<int>, data: seq<Block>, k: nat)
    requires LogEmpty(l, d) && Loggable(l, lh) && |data| == |lh|
    requires lh != [] && |lh| < k <= 2 * |lh| + 1
    ensures k <= |CommitWrites(l, d, lh, data)|
    ensures Committed(l, d, Apply(d, CommitWrites(l, d, lh, data)[..k]), lh, data)
  {
    var n := |lh|;
    CommitPrefix(l, d, lh, data, k);
    HeaderWriteCommits(l, d, lh, data);
    var a := CommitPoint(l, d, lh, data);
    ApplyConcat(d, a, HomePart(lh, data)[..k - n - 1]);
    InstallKeepsCommitted(l, d, Apply(d, a), lh, data, k - n - 1);
  }

  /** A finished commit: the new home blocks, and an empty log again. */
  lemma CommitEnd(l: Layout, d: Disk, lh: seq<int>, data: seq<Block>)
    requires LogEmpty(l, d) && Loggable(l, lh) && |data| == |lh|
    ensures var e := Apply(d, CommitWrites(l, d, lh, data));
            HomeEq(l, e, Overlay(d, lh, data)) && LogEmpty(l, e)
  {
    if lh != [] {
      var n := |lh|;
      var ws := CommitWrites(l, d, lh, data);
      var a := CommitPoint(l, d, lh, data);
      var c := Apply(d, a);
      HeaderWriteCommits(l, d, lh, data);
      ApplyConcat(d, a, HomePart(lh, data));
      var f := Overlay(c, lh, data);
      var head := HeadBlock(Read(d, l.start), lh);
      assert Read(f, l.start) == head by {
        assert l.start !in lh;
        ApplyElsewhere(c, HomePart(lh, data), l.start);
        ApplyLast(d, a, n);
      }
      var last := Write(l.start, HeadBlock(head, []));
      assert ws == (a + HomePart(lh, data)) + [last];
      ApplySnoc(d, a + HomePart(lh, data), last);
      ClearHead(l, f);
      OverlayCongruent(l, d, c, lh, data);
    }
  }

  /** Crash atomicity: a crash after any number of a commit's writes, followed by
      recovery, yields the old home blocks if the header was not yet written and
      all of the new ones if it was; the log is empty either way. */
  lemma CommitAtomic(l: Layout, d: Disk, lh: seq<int>, data: seq<Block>, k: nat)
    requires LogEmpty(l, d) && Loggable(l, lh) && |data| == |lh|
    requires k <= |CommitWrites(l, d, lh, data)|
    ensures var e := Apply(d, CommitWrites(l, d, lh, data)[..k]);
            && HeaderOk(l, e)
            && LogEmpty(l, Recover(l, e))
            && HomeEq(l, Recover(l, e), if k <= |lh| then d else Overlay(d, lh, data))
  {
    var e := Apply(d, CommitWrites(l, d, lh, data)[..k]);
    if lh == [] {
      RecoverEmpty(l, d);
    } else {
      CommitPrefix(l, d, lh, data, k);
      if k <= |lh| {
        LogWritesInvisible(l, d, data, k);
        RecoverEmpty(l, e);
      } else if k <= 2 * |lh| + 1 {
        CommitMiddle(l, d, lh, data, k);
        RecoverCommitted(l, d, e, lh, data);
      } else {
        CommitEnd(l, d, lh, data);
        assert CommitWrites(l, d, lh, data)[..k] == CommitWrites(l, d, lh, data);
        RecoverEmpty(l, e);
      }
    }
  }

  /** A crash inside recovery loses nothing: recovering again reaches the same home blocks. */
  lemma RecoverAtomic(l: Layout, d: Disk, k: nat)
    requires HeaderOk(l, d) && k <= |RecoverWrites(l, d)|
    ensures var e := Apply(d, RecoverWrites(l, d)[..k]);
            && HeaderOk(l, e)
            && HomeEq(l, Recover(l, e), Recover(l, d))
            && LogEmpty(l, Recover(l, e))
  {
    var lh := HeaderList(l, d);
    var data := LogData(l, d, |lh|);
    var ws := RecoverWrites(l, d);
    var e := Apply(d, ws[..k]);
    assert Committed(l, d, d, lh, data);
    RecoverCommitted(l, d, d, lh, data);
    if k < |ws| {
      assert ws[..k] == HomePart(lh, data)[..k];
      InstallKeepsCommitted(l, d, d, lh, data, k);
      RecoverCommitted(l, d, e, lh, data);
    } else {
      assert ws[..k] == ws;
      RecoverEmpty(l, e);
    }
  }

  /** The disk after recoveries that each crash after the listed number of writes. */
  function Crashes(l: Layout, d: Disk, ks: seq<nat>): (e: Disk)
    requires HeaderOk(l, d)
    decreases |ks|
  {
    if ks == [] then d
    else
      var ws := RecoverWrites(l, d);
      var k := if ks[0] <= |ws| then ks[0] else |ws|;
      RecoverAtomic(l, d, k);
      Crashes(l, Apply(d, ws[..k]), ks[1..])
  }

  lemma {:induction false} CrashesHarmless(l: Layout, d: Disk, ks: seq<nat>)
    requires HeaderOk(l, d)
    ensures var e := Crashes(l, d, ks);
            HeaderOk(l, e) && HomeEq(l, Recover(l, e), Recover(l, d)) && LogEmpty(l, Recover(l, e))
    decreases |ks|
  {
    RecoverAtomic(l, d, 0);
    assert RecoverWrites(l, d)[..0] == [];
    if ks != [] {
      var ws := RecoverWrites(l, d);
      var k := if ks[0] <= |ws| then ks[0] else |ws|;
      RecoverAtomic(l, d, k);
      CrashesHarmless(l, Apply(d, ws[..k]), ks[1..]);
    }
  }

  /** A crash anywhere in a commit, then any number of crashes in recovery, then one
      full recovery: all of the transaction or none of it. */
  lemma CrashSafe(l: Layout, d: Disk, lh: seq<int>, data: seq<Block>, k: nat, ks: seq<nat>)
    requires LogEmpty(l, d) && Loggable(l, lh) && |data| == |lh|
    requires k <= |CommitWrites(l, d, lh, data)|
    ensures var e := Apply(d, CommitWrites(l, d, lh, data)[..k]);
            && HeaderOk(l, e) && HeaderOk(l, Crashes(l, e, ks))
            && var r := Recover(l, Crashes(l, e, ks));
               LogEmpty(l, r) && HomeEq(l, r, if k <= |lh| then d else Overlay(d, lh, data))
  {
    CommitAtomic(l, d, lh, data, k);
    CrashesHarmless(l, Apply(d, CommitWrites(l, d, lh, data)[..k]), ks);
  }
}
