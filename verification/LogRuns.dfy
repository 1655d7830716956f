/** Whole runs of the log: any interleaving of begin_op, log_write and end_op by any
    number of operations, commits and recoveries cut into single disk writes, and a
    crash possible between any two steps. log_write is two steps: it tests the size of the
    transaction before it takes the lock, and lists the block after. */
module LogRuns {
  import opened Storage
  import opened RedoLog

  /** One log_write, and the operation that issued it. */
  datatype Entry = Entry(op: nat, w: Write)

  /** One committed transaction: the log_writes of the operations lo..hi-1. */
  datatype Group = Group(lo: nat, hi: nat, entries: seq<Entry>)

  /** An operation between begin_op and end_op, with the blocks it has logged so far; `past` if
      it is in log_write, past the test. */
  datatype Op = Op(id: nat, used: set<int>, past: bool)

  /** `Committing` and `Recovering` count the disk writes done since the disk was `d0`. */
  datatype Phase =
    | Running
    | Committing(d0: Disk, data: seq<Block>, k: nat)
    | Recovering(d0: Disk, k: nat)

  datatype State = State(
    most: nat,                       // how many blocks an operation may log, never changed
    disk: Disk,
    dirty: map<int, Block>,          // cached blocks pinned by log_write
    lh: seq<int>,                    // the in-memory header's block list
    ops: seq<Op>,                    // log.outstanding == |ops|
    phase: Phase,                    // log.committing == phase.Committing?
    committed: seq<Group>,           // history: transactions whose header reached the disk
    current: seq<Entry>,             // history: log_writes of the transaction being built
    first: nat,                      // operations first..next-1 belong to that transaction
    next: nat,
    issued: map<nat, seq<Entry>>)    // history: everything each operation ever logged

  datatype Step =
    | BeginOp
    | Test(i: nat)
    | Append(i: nat, w: Write)
    | EndOp(i: nat)
    | CommitWrite
    | CommitDone
    | Crash
    | RecoverWrite
    | RecoverDone

  /** The condition under which log_write panics with "too big a transaction". */
  predicate GuardFires(l: Layout, s: State) {
    |s.lh| >= LOGSIZE || |s.lh| >= l.size - 1
  }

  /** Logging b stays within the distinct blocks an operation may log. */
  predicate WithinBudget(s: State, i: nat, b: int)
    requires i < |s.ops|
  {
    |s.ops[i].used + {b}| <= s.most
  }

  predicate Pinned(s: State) {
    forall i :: 0 <= i < |s.lh| ==> s.lh[i] in s.dirty
  }

  function Cached(s: State): (data: seq<Block>)
    requires Pinned(s)
    ensures |data| == |s.lh|
    ensures forall i :: 0 <= i < |data| ==> data[i] == s.dirty[s.lh[i]]
  {
    seq<Block>(|s.lh|, i requires 0 <= i < |s.lh| => s.dirty[s.lh[i]])
  }

  predicate Enabled(l: Layout, s: State, step: Step) {
    match step
    case BeginOp => s.phase.Running? && |s.lh| + (|s.ops| + 1) * MAXOPBLOCKS <= LOGSIZE
    case Test(i) => s.phase.Running? && i < |s.ops| && !s.ops[i].past && !GuardFires(l, s)
    case Append(i, w) =>
      && s.phase.Running? && i < |s.ops| && s.ops[i].past
      && !InLog(l, w.blockno) && WithinBudget(s, i, w.blockno)
    case EndOp(i) => i < |s.ops| && !s.ops[i].past && !s.phase.Committing? && Pinned(s)
    case CommitWrite =>
      && s.phase.Committing? && |s.phase.data| == |s.lh| <= LOGSIZE
      && s.phase.k < |CommitWrites(l, s.phase.d0, s.lh, s.phase.data)|
    case CommitDone =>
      && s.phase.Committing? && |s.phase.data| == |s.lh| <= LOGSIZE
      && s.phase.k == |CommitWrites(l, s.phase.d0, s.lh, s.phase.data)|
    case Crash => true
    case RecoverWrite =>
      && s.phase.Recovering? && HeaderFits(l, s.phase.d0)
      && s.phase.k < |RecoverWrites(l, s.phase.d0)|
    case RecoverDone =>
      && s.phase.Recovering? && HeaderFits(l, s.phase.d0)
      && s.phase.k == |RecoverWrites(l, s.phase.d0)|
  }

  /** log absorption: a block already listed is not listed twice. */
  function Absorb(lh: seq<int>, b: int): seq<int> {
    if b in lh then lh else lh + [b]
  }

  function Issue(issued: map<nat, seq<Entry>>, e: Entry): map<nat, seq<Entry>> {
    issued[e.op := (if e.op in issued then issued[e.op] else []) + [e]]
  }

  /** One disk write w of a commit. */
  function CommitOne(s: State, w: Write): State
    requires s.phase.Committing?
  {
    var k := s.phase.k;
    var n := |s.lh|;
    var t := s.(disk := s.disk[w.blockno := w.data], phase := Committing(s.phase.d0, s.phase.data, k + 1));
    if k == n then  // the header write
      t.(committed := s.committed + [Group(s.first, s.next, s.current)], current := [], first := s.next)
    else if n < k <= 2 * n then  // an install: the buffer is clean again
      t.(dirty := s.dirty - {w.blockno})
    else t
  }

  function Do(l: Layout, s: State, step: Step): State
    requires Enabled(l, s, step)
  {
    match step
    case BeginOp =>
      s.(ops := s.ops + [Op(s.next, {}, false)], next := s.next + 1, issued := s.issued[s.next := []])
    case Test(i) => s.(ops := s.ops[i := s.ops[i].(past := true)])
    case Append(i, w) =>
      var e := Entry(s.ops[i].id, w);
      s.(lh := Absorb(s.lh, w.blockno), dirty := s.dirty[w.blockno := w.data],
         ops := s.ops[i := Op(s.ops[i].id, s.ops[i].used + {w.blockno}, false)],
         current := s.current + [e], issued := Issue(s.issued, e))
    case EndOp(i) =>
      var ops := s.ops[..i] + s.ops[i + 1..];
      s.(ops := ops, phase := if ops == [] then Committing(s.disk, Cached(s), 0) else s.phase)
    case CommitWrite =>
      CommitOne(s, CommitWrites(l, s.phase.d0, s.lh, s.phase.data)[s.phase.k])
    case CommitDone =>
      s.(phase := Running, lh := [], dirty := map[], current := [], first := s.next)
    case Crash =>
      s.(phase := Recovering(s.disk, 0), lh := [], dirty := map[], ops := [], current := [], first := s.next)
    case RecoverWrite =>
      var w := RecoverWrites(l, s.phase.d0)[s.phase.k];
      s.(disk := s.disk[w.blockno := w.data], phase := Recovering(s.phase.d0, s.phase.k + 1))
    case RecoverDone => s.(phase := Running)
  }

  function Boot(d: Disk, most: nat): State {
    State(most, d, map[], [], [], Recovering(d, 0), [], [], 0, 0, map[])
  }

  predicate IsRun(l: Layout, s: State, steps: seq<Step>)
    decreases |steps|
  {
    steps == [] || (Enabled(l, s, steps[0]) && IsRun(l, Do(l, s, steps[0]), steps[1..]))
  }

  function Run(l: Layout, s: State, steps: seq<Step>): State
    requires IsRun(l, s, steps)
    decreases |steps|
  {
    if steps == [] then s else Run(l, Do(l, s, steps[0]), steps[1..])
  }

  // ---- what the history says the disk should hold ----

  function Effects(es: seq<Entry>): (ws: seq<Write>) {
    seq(|es|, i requires 0 <= i < |es| => es[i].w)
  }

  function Replay(base: Disk, groups: seq<Group>): Disk {
    if groups == [] then base
    else Apply(Replay(base, groups[..|groups| - 1]), Effects(groups[|groups| - 1].entries))
  }

  function OpEntries(es: seq<Entry>, id: nat): (r: seq<Entry>) {
    if es == [] then []
    else
      var e := es[|es| - 1];
      OpEntries(es[..|es| - 1], id) + if e.op == id then [e] else []
  }

  // ---- invariants ----

  /** What the operations may still log if each may log m blocks in all. */
  function Budget(m: int, ops: seq<Op>): int {
    if ops == [] then 0
    else m - |ops[|ops| - 1].used| + Budget(m, ops[..|ops| - 1])
  }

  /** Whatever the interleaving, the list fits the log area: no operation logs anything, the log
      area is the header alone and nothing passes the test, or there is room for the longest
      list that begin_op's reservation lets happen. */
  predicate Spacious(l: Layout, most: nat) {
    most == 0 || l.size == 1 || l.size > MAXOPBLOCKS + 2 * most
  }

  /** Two bounds on the list. begin_op's test gives the first; the second is what becomes of it
      when an operation logs fewer blocks than it reserves. */
  ghost predicate Bounded(s: State) {
    && s.most <= MAXOPBLOCKS
    && (forall i :: 0 <= i < |s.ops| ==> |s.ops[i].used| <= s.most)
    && |s.lh| + Budget(MAXOPBLOCKS, s.ops) <= LOGSIZE
    && |s.lh| + Budget(s.most, s.ops) <= MAXOPBLOCKS + 2 * s.most
  }

  /** With nothing to log, or no room for anything, nothing is ever listed. */
  ghost predicate NothingListed(l: Layout, s: State) {
    && (l.size == 1 ==> forall i :: 0 <= i < |s.ops| ==> !s.ops[i].past)
    && (l.size == 1 || s.most == 0 ==> s.lh == [])
  }

  ghost predicate Reserved(l: Layout, s: State) {
    && 1 <= l.size
    && Listable(l, s.lh) && Bounded(s) && NothingListed(l, s)
    && (forall i, b :: 0 <= i < |s.ops| && b in s.ops[i].used ==> b in s.lh)
    && (!s.phase.Running? ==> s.ops == [])
    && (s.lh == [] ==> s.current == [])
    && (s.phase.Running? ==> forall b :: b in s.dirty <==> b in s.lh)
    && (s.phase.Running? && s.ops == [] ==> s.lh == [])
    && (s.phase.Recovering? ==> s.lh == [] && s.dirty == map[])
  }

  lemma SpaciousFits(l: Layout, s: State)
    requires Reserved(l, s) && Spacious(l, s.most)
    ensures Loggable(l, s.lh)
  {
    BudgetBounds(s.most, s.ops);
    BudgetBounds(MAXOPBLOCKS, s.ops);
  }

  ghost predicate HistoryOk(s: State) {
    && s.first <= s.next
    && (forall id: nat :: id in s.issued <==> id < s.next)
    && (forall i :: 0 <= i < |s.ops| ==> s.first <= s.ops[i].id < s.next)
    && InRange(s.current, s.first, s.next)
    && (forall id: nat :: s.first <= id < s.next ==> OpEntries(s.current, id) == s.issued[id])
    && (forall j :: 0 <= j < |s.committed| ==> GroupOk(s, s.committed[j]))
    && (forall i, j :: 0 <= i < j < |s.committed| ==> s.committed[i].hi <= s.committed[j].lo)
  }

  ghost predicate InRange(es: seq<Entry>, lo: nat, hi: nat) {
    forall i :: 0 <= i < |es| ==> lo <= es[i].op < hi
  }

  ghost predicate GroupOk(s: State, g: Group) {
    && g.lo <= g.hi <= s.first <= s.next
    && InRange(g.entries, g.lo, g.hi)
    && forall id: nat :: g.lo <= id < g.hi && id in s.issued ==> OpEntries(g.entries, id) == s.issued[id]
  }

  /** The first k writes of the commit have reached the disk. */
  ghost predicate CommitDisk(l: Layout, disk: Disk, d0: Disk, lh: seq<int>, data: seq<Block>, k: int)
    requires |lh| == |data| <= LOGSIZE
  {
    0 <= k <= |CommitWrites(l, d0, lh, data)| && disk == Apply(d0, CommitWrites(l, d0, lh, data)[..k])
  }

  /** The transaction counts as committed from the header write on. */
  ghost predicate CommitHome(l: Layout, now: Disk, d0: Disk, lh: seq<int>, data: seq<Block>, k: int,
      current: seq<Entry>)
    requires |lh| == |data| <= LOGSIZE
  {
    if k <= |lh| then HomeEq(l, d0, now) && HomeEq(l, Overlay(d0, lh, data), Apply(now, Effects(current)))
    else HomeEq(l, Overlay(d0, lh, data), now) && current == []
  }

  ghost predicate Durable(l: Layout, base: Disk, s: State) {
    var now := Replay(base, s.committed);
    match s.phase
    case Running =>
      && LogEmpty(l, s.disk) && HomeEq(l, s.disk, now)
      && (forall b :: b in s.dirty <==> b in s.lh) && Pinned(s)
      && HomeEq(l, Overlay(s.disk, s.lh, Cached(s)), Apply(now, Effects(s.current)))
    case Committing(d0, data, k) =>
      && LogEmpty(l, d0) && |data| == |s.lh| <= LOGSIZE
      && CommitDisk(l, s.disk, d0, s.lh, data, k) && CommitHome(l, now, d0, s.lh, data, k, s.current)
    case Recovering(d0, k) =>
      && HeaderOk(l, d0) && k <= |RecoverWrites(l, d0)|
      && s.disk == Apply(d0, RecoverWrites(l, d0)[..k])
      && HomeEq(l, Recover(l, d0), now)
      && s.lh == [] && s.current == [] && s.dirty == map[]
  }

  /** During a commit a buffer stays pinned until its own block is installed. */
  ghost predicate PinsOk(s: State) {
    s.phase.Committing? ==>
      && |s.phase.data| == |s.lh|
      && (forall b :: b in s.dirty ==> b in s.lh)
      && (forall i :: 0 <= i < |s.lh| ==> (s.lh[i] in s.dirty <==> s.phase.k <= |s.lh| + 1 + i))
      && (forall i :: 0 <= i < |s.lh| && s.lh[i] in s.dirty ==> s.dirty[s.lh[i]] == s.phase.data[i])
  }

  ghost predicate Inv(l: Layout, base: Disk, s: State) {
    Reserved(l, s) && HistoryOk(s) && (Spacious(l, s.most) ==> Durable(l, base, s) && PinsOk(s))
  }

  // ---- the crash view of a state ----

  /** Whatever the state, a crash now recovers to exactly the committed transactions. */
  lemma CrashView(l: Layout, base: Disk, s: State)
    requires Reserved(l, s) && Spacious(l, s.most) && Durable(l, base, s)
    ensures HeaderOk(l, s.disk)
    ensures LogEmpty(l, Recover(l, s.disk))
    ensures HomeEq(l, Recover(l, s.disk), Replay(base, s.committed))
  {
    SpaciousFits(l, s);
    match s.phase
    case Running => RecoverEmpty(l, s.disk);
    case Committing(d0, data, k) => CommitAtomic(l, d0, s.lh, data, k);
    case Recovering(d0, k) => RecoverAtomic(l, d0, k);
  }

  // ---- every step keeps the reservation ----

  lemma BudgetAppend(m: int, ops: seq<Op>, op: Op)
    ensures Budget(m, ops + [op]) == Budget(m, ops) + m - |op.used|
  {
    assert (ops + [op])[..|ops|] == ops;
  }

  lemma BudgetSplit(m: int, a: seq<Op>, b: seq<Op>)
    ensures Budget(m, a + b) == Budget(m, a) + Budget(m, b)
  {
    if b == [] {
      assert a + b == a;
    } else {
      var i := |b| - 1;
      assert (a + b)[..|a| + i] == a + b[..i];
      BudgetSplit(m, a, b[..i]);
    }
  }

  lemma BudgetAt(m: int, ops: seq<Op>, i: nat)
    requires i < |ops|
    ensures Budget(m, ops) == Budget(m, ops[..i]) + (m - |ops[i].used|) + Budget(m, ops[i + 1..])
  {
    assert ops == ops[..i] + [ops[i]] + ops[i + 1..];
    BudgetSplit(m, ops[..i] + [ops[i]], ops[i + 1..]);
    BudgetAppend(m, ops[..i], ops[i]);
  }

  lemma BudgetBounds(m: int, ops: seq<Op>)
    requires forall i :: 0 <= i < |ops| ==> |ops[i].used| <= m
    ensures 0 <= Budget(m, ops) <= |ops| * m
  {
    if ops != [] { BudgetBounds(m, ops[..|ops| - 1]); }
  }

  /** Changing one operation changes the budget by what it has used more. */
  lemma BudgetChanged(m: int, ops: seq<Op>, i: nat, op: Op)
    requires i < |ops|
    ensures Budget(m, ops[i := op]) == Budget(m, ops) + |ops[i].used| - |op.used|
  {
    var t := ops[i := op];
    BudgetAt(m, ops, i);
    BudgetAt(m, t, i);
    assert t[..i] == ops[..i] && t[i + 1..] == ops[i + 1..];
  }

  lemma BudgetEnded(m: int, ops: seq<Op>, i: nat)
    requires i < |ops|
    ensures Budget(m, ops[..i] + ops[i + 1..]) == Budget(m, ops) - (m - |ops[i].used|)
  {
    BudgetAt(m, ops, i);
    BudgetSplit(m, ops[..i], ops[i + 1..]);
  }

  /** Three operations only start together; a second one starts with at most ten blocks listed. */
  lemma BoundedBegin(l: Layout, s: State)
    requires Reserved(l, s) && Enabled(l, s, BeginOp)
    ensures Bounded(Do(l, s, BeginOp))
  {
    var op := Op(s.next, {}, false);
    BudgetAppend(MAXOPBLOCKS, s.ops, op);
    BudgetAppend(s.most, s.ops, op);
    BudgetBounds(MAXOPBLOCKS, s.ops);
    BudgetBounds(s.most, s.ops);
    BeginFits(|s.lh|, |s.ops|, s.most);
  }

  lemma BeginFits(n: int, k: int, most: int)
    requires 0 <= n && 0 <= k && 0 <= most <= MAXOPBLOCKS && n + (k + 1) * MAXOPBLOCKS <= LOGSIZE && (k == 0 ==> n == 0)
    ensures n + k * most + most <= MAXOPBLOCKS + 2 * most
  {
    assert k <= 2;
  }

  lemma ReservedBegin(l: Layout, s: State)
    requires Reserved(l, s) && Enabled(l, s, BeginOp)
    ensures Reserved(l, Do(l, s, BeginOp))
  {
    BoundedBegin(l, s);
  }

  lemma ReservedEnd(l: Layout, s: State, i: nat)
    requires Reserved(l, s) && Enabled(l, s, EndOp(i))
    ensures Reserved(l, Do(l, s, EndOp(i)))
  {
    BudgetEnded(MAXOPBLOCKS, s.ops, i);
    BudgetEnded(s.most, s.ops, i);
  }

  lemma ReservedTest(l: Layout, s: State, i: nat)
    requires Reserved(l, s) && Enabled(l, s, Test(i))
    ensures Reserved(l, Do(l, s, Test(i)))
  {
    BudgetChanged(MAXOPBLOCKS, s.ops, i, s.ops[i].(past := true));
    BudgetChanged(s.most, s.ops, i, s.ops[i].(past := true));
  }

  lemma BoundedAppend(l: Layout, s: State, i: nat, w: Write)
    requires Reserved(l, s) && Enabled(l, s, Append(i, w))
    ensures Bounded(Do(l, s, Append(i, w)))
  {
    var used := s.ops[i].used;
    var op := Op(s.ops[i].id, used + {w.blockno}, false);
    BudgetChanged(MAXOPBLOCKS, s.ops, i, op);
    BudgetChanged(s.most, s.ops, i, op);
    if w.blockno !in s.lh {
      assert w.blockno !in used;
      assert |used + {w.blockno}| == |used| + 1;
    }
    if w.blockno in used { assert used + {w.blockno} == used; }
  }

  lemma ReservedAppend(l: Layout, s: State, i: nat, w: Write)
    requires Reserved(l, s) && Enabled(l, s, Append(i, w))
    ensures Reserved(l, Do(l, s, Append(i, w)))
  {
    BoundedAppend(l, s, i, w);
    assert w.blockno in s.ops[i].used + {w.blockno};
  }

  /** lh.n plus the unused budgets of the operations in progress never exceeds LOGSIZE. */
  lemma ReservedStep(l: Layout, s: State, step: Step)
    requires Reserved(l, s) && Enabled(l, s, step)
    ensures Reserved(l, Do(l, s, step)) && Do(l, s, step).most == s.most
  {
    match step
    case BeginOp => ReservedBegin(l, s);
    case Test(i) => ReservedTest(l, s, i);
    case Append(i, w) => ReservedAppend(l, s, i, w);
    case EndOp(i) => ReservedEnd(l, s, i);
    case _ =>
  }

  // ---- every step keeps the history consistent ----

  lemma OpEntriesAppend(es: seq<Entry>, e: Entry, id: nat)
    ensures OpEntries(es + [e], id) == OpEntries(es, id) + if e.op == id then [e] else []
  {
    assert (es + [e])[..|es|] == es;
  }

  lemma OpEntriesNone(es: seq<Entry>, lo: nat, hi: nat, id: nat)
    requires InRange(es, lo, hi) && !(lo <= id < hi)
    ensures OpEntries(es, id) == []
  {
    if es != [] { OpEntriesNone(es[..|es| - 1], lo, hi, id); }
  }

  lemma HistoryAppend(l: Layout, s: State, i: nat, w: Write)
    requires HistoryOk(s) && Enabled(l, s, Append(i, w))
    ensures HistoryOk(Do(l, s, Append(i, w)))
  {
    var e := Entry(s.ops[i].id, w);
    forall id: nat { OpEntriesAppend(s.current, e, id); }
  }

  lemma HistoryBegin(l: Layout, s: State)
    requires HistoryOk(s) && Enabled(l, s, BeginOp)
    ensures HistoryOk(Do(l, s, BeginOp))
  {
    OpEntriesNone(s.current, s.first, s.next, s.next);
  }

  lemma HistoryCommitWrite(l: Layout, s: State)
    requires Reserved(l, s) && HistoryOk(s) && Enabled(l, s, CommitWrite)
    ensures HistoryOk(Do(l, s, CommitWrite))
  {
    HistoryCommitOne(s, CommitWrites(l, s.phase.d0, s.lh, s.phase.data)[s.phase.k]);
  }

  lemma HistoryCommitOne(s: State, w: Write)
    requires HistoryOk(s) && s.phase.Committing? && s.ops == []
    ensures HistoryOk(CommitOne(s, w))
  {
    var t := CommitOne(s, w);
    forall j | 0 <= j < |t.committed|
      ensures GroupOk(t, t.committed[j])
    {
      if j < |s.committed| { assert GroupOk(s, s.committed[j]); }
    }
    forall i, j | 0 <= i < j < |t.committed|
      ensures t.committed[i].hi <= t.committed[j].lo
    {
      assert GroupOk(s, s.committed[i]);
    }
  }

  /** Dropping the transaction being built (a crash), or finishing one already recorded. */
  lemma HistoryDrop(s: State, t: State)
    requires HistoryOk(s)
    requires t.committed == s.committed && t.issued == s.issued && t.next == s.next
    requires t.current == [] && t.first == t.next && t.ops == []
    ensures HistoryOk(t)
  {
    forall j | 0 <= j < |t.committed|
      ensures GroupOk(t, t.committed[j])
    {
      assert GroupOk(s, s.committed[j]);
    }
  }

  lemma HistorySame(s: State, t: State)
    requires HistoryOk(s)
    requires t.committed == s.committed && t.issued == s.issued && t.next == s.next
    requires t.current == s.current && t.first == s.first
    requires forall i :: 0 <= i < |t.ops| ==> exists j :: 0 <= j < |s.ops| && s.ops[j].id == t.ops[i].id
    ensures HistoryOk(t)
  {
    forall j | 0 <= j < |t.committed|
      ensures GroupOk(t, t.committed[j])
    {
      assert GroupOk(s, s.committed[j]);
    }
  }

  lemma HistoryEnd(l: Layout, s: State, i: nat)
    requires HistoryOk(s) && Enabled(l, s, EndOp(i))
    ensures HistoryOk(Do(l, s, EndOp(i)))
  {
    var t := Do(l, s, EndOp(i));
    forall k | 0 <= k < |t.ops|
      ensures exists j :: 0 <= j < |s.ops| && s.ops[j].id == t.ops[k].id
    {
      assert t.ops[k] == s.ops[if k < i then k else k + 1];
    }
    HistorySame(s, t);
  }

  lemma HistoryStep(l: Layout, s: State, step: Step)
    requires Reserved(l, s) && HistoryOk(s) && Enabled(l, s, step)
    ensures HistoryOk(Do(l, s, step))
  {
    match step
    case BeginOp => HistoryBegin(l, s);
    case Append(i, w) => HistoryAppend(l, s, i, w);
    case Test(i) => HistorySame(s, Do(l, s, step));
    case EndOp(i) => HistoryEnd(l, s, i);
    case CommitWrite => HistoryCommitWrite(l, s);
    case CommitDone => HistoryDrop(s, Do(l, s, step));
    case Crash => HistoryDrop(s, Do(l, s, step));
    case _ => HistorySame(s, Do(l, s, step));
  }

  // ---- every step keeps the disk and the history together ----

  lemma EffectsAppend(d: Disk, es: seq<Entry>, e: Entry)
    ensures Apply(d, Effects(es + [e])) == Apply(d, Effects(es))[e.w.blockno := e.w.data]
  {
    assert Effects(es + [e]) == Effects(es) + [e.w];
    ApplySnoc(d, Effects(es), e.w);
  }

  /** What the cache and the log list hold of block b after a log_write. */
  lemma OverlayAppend(l: Layout, s: State, i: nat, w: Write, b: int)
    requires Reserved(l, s) && Enabled(l, s, Append(i, w)) && Distinct(s.lh) && Pinned(s)
    requires Distinct(Do(l, s, Append(i, w)).lh) && Pinned(Do(l, s, Append(i, w)))
    ensures var t := Do(l, s, Append(i, w));
            Read(Overlay(t.disk, t.lh, Cached(t)), b) == if b == w.blockno then w.data
                else Read(Overlay(s.disk, s.lh, Cached(s)), b)
  {
    var t := Do(l, s, Append(i, w));
    OverlayRead(s.disk, s.lh, Cached(s), b);
    OverlayRead(t.disk, t.lh, Cached(t), b);
    if b in t.lh {
      var j :| 0 <= j < |t.lh| && t.lh[j] == b;
      if b != w.blockno { assert j < |s.lh| && s.lh[j] == b; }
    }
  }

  lemma DurableAppend(l: Layout, base: Disk, s: State, i: nat, w: Write)
    requires Reserved(l, s) && Spacious(l, s.most) && Durable(l, base, s) && Enabled(l, s, Append(i, w))
    ensures Durable(l, base, Do(l, s, Append(i, w)))
  {
    var t := Do(l, s, Append(i, w));
    var now := Replay(base, s.committed);
    ReservedAppend(l, s, i, w);
    EffectsAppend(now, s.current, Entry(s.ops[i].id, w));
    forall b | !InLog(l, b)
      ensures Read(Overlay(t.disk, t.lh, Cached(t)), b) == Read(Apply(now, Effects(t.current)), b)
    {
      OverlayAppend(l, s, i, w, b);
    }
  }

  lemma PrefixStep(d: Disk, ws: seq<Write>, k: int)
    requires 0 <= k < |ws|
    ensures Apply(d, ws[..k + 1]) == Apply(d, ws[..k])[ws[k].blockno := ws[k].data]
  {
    assert ws[..k + 1] == ws[..k] + [ws[k]];
    ApplySnoc(d, ws[..k], ws[k]);
  }

  lemma ReplaySnoc(base: Disk, groups: seq<Group>, g: Group)
    ensures Replay(base, groups + [g]) == Apply(Replay(base, groups), Effects(g.entries))
  {
    assert (groups + [g])[..|groups|] == groups;
  }

  lemma CommitDiskStep(l: Layout, disk: Disk, d0: Disk, lh: seq<int>, data: seq<Block>, k: int)
    requires |lh| == |data| <= LOGSIZE && CommitDisk(l, disk, d0, lh, data, k) && k < |CommitWrites(l, d0, lh, data)|
    ensures var w := CommitWrites(l, d0, lh, data)[k]; CommitDisk(l, disk[w.blockno := w.data], d0, lh, data, k + 1)
  {
    PrefixStep(d0, CommitWrites(l, d0, lh, data), k);
  }

  lemma CommitHomeStep(l: Layout, now: Disk, d0: Disk, lh: seq<int>, data: seq<Block>, k: int, current: seq<Entry>)
    requires |lh| == |data| <= LOGSIZE && CommitHome(l, now, d0, lh, data, k, current)
    ensures if k == |lh| then CommitHome(l, Apply(now, Effects(current)), d0, lh, data, k + 1, [])
            else CommitHome(l, now, d0, lh, data, k + 1, current)
  {
  }

  lemma CommitOneFields(s: State, w: Write)
    requires s.phase.Committing?
    ensures var t := CommitOne(s, w);
            && t.phase == Committing(s.phase.d0, s.phase.data, s.phase.k + 1) && t.lh == s.lh
                 && t.disk == s.disk[w.blockno := w.data]
            && (if s.phase.k == |s.lh|
                then t.committed == s.committed + [Group(s.first, s.next, s.current)] && t.current == []
                else t.committed == s.committed && t.current == s.current)
  {
  }

  /** Recording the transaction at the header write keeps the replayed contents right. */
  lemma DurableCommitOne(l: Layout, base: Disk, s: State, t: State)
    requires Durable(l, base, s) && s.phase.Committing?
    requires CommitDisk(l, t.disk, s.phase.d0, s.lh, s.phase.data, s.phase.k + 1)
    requires t.phase == Committing(s.phase.d0, s.phase.data, s.phase.k + 1) && t.lh == s.lh
    requires if s.phase.k == |s.lh|
             then t.committed == s.committed + [Group(s.first, s.next, s.current)] && t.current == []
             else t.committed == s.committed && t.current == s.current
    ensures Durable(l, base, t)
  {
    CommitHomeStep(l, Replay(base, s.committed), s.phase.d0, s.lh, s.phase.data, s.phase.k, s.current);
    ReplaySnoc(base, s.committed, Group(s.first, s.next, s.current));
  }

  lemma DurableCommitWrite(l: Layout, base: Disk, s: State)
    requires Reserved(l, s) && Spacious(l, s.most) && Durable(l, base, s) && Enabled(l, s, CommitWrite)
    ensures Durable(l, base, Do(l, s, CommitWrite))
  {
    CommitDiskStep(l, s.disk, s.phase.d0, s.lh, s.phase.data, s.phase.k);
    CommitOneFields(s, CommitWrites(l, s.phase.d0, s.lh, s.phase.data)[s.phase.k]);
    DurableCommitOne(l, base, s, Do(l, s, CommitWrite));
  }

  lemma DurableCommitDone(l: Layout, base: Disk, s: State)
    requires Reserved(l, s) && Spacious(l, s.most) && Durable(l, base, s) && Enabled(l, s, CommitDone)
    ensures Durable(l, base, Do(l, s, CommitDone))
  {
    var ws := CommitWrites(l, s.phase.d0, s.lh, s.phase.data);
    assert ws[..|ws|] == ws;
    SpaciousFits(l, s);
    CommitEnd(l, s.phase.d0, s.lh, s.phase.data);
    var t := Do(l, s, CommitDone);
    assert Cached(t) == [];
    assert Effects([]) == [];
  }

  lemma DurableRecoverWrite(l: Layout, base: Disk, s: State)
    requires Durable(l, base, s) && Enabled(l, s, RecoverWrite)
    ensures Durable(l, base, Do(l, s, RecoverWrite))
  {
    PrefixStep(s.phase.d0, RecoverWrites(l, s.phase.d0), s.phase.k);
  }

  lemma DurableRecoverDone(l: Layout, base: Disk, s: State)
    requires Durable(l, base, s) && Enabled(l, s, RecoverDone)
    ensures Durable(l, base, Do(l, s, RecoverDone))
  {
    var d0 := s.phase.d0;
    var ws := RecoverWrites(l, d0);
    assert ws[..|ws|] == ws;
    RecoverAtomic(l, d0, 0);
    assert ws[..0] == [];
    var t := Do(l, s, RecoverDone);
    assert Cached(t) == [];
    assert Effects([]) == [];
  }

  lemma DurableEndOp(l: Layout, base: Disk, s: State, i: nat)
    requires Reserved(l, s) && Spacious(l, s.most) && Durable(l, base, s) && Enabled(l, s, EndOp(i))
    ensures Durable(l, base, Do(l, s, EndOp(i)))
  {
    var t := Do(l, s, EndOp(i));
    SpaciousFits(l, s);
    if t.phase.Committing? {
      DurableLastOut(l, base, s, t);
    } else {
      assert Cached(t) == Cached(s);
    }
  }

  lemma DurableLastOut(l: Layout, base: Disk, s: State, t: State)
    requires Durable(l, base, s) && s.phase.Running? && |s.lh| <= LOGSIZE && Pinned(s)
    requires t.phase == Committing(s.disk, Cached(s), 0) && t.disk == s.disk && t.lh == s.lh
    requires t.current == s.current && t.committed == s.committed
    ensures Durable(l, base, t)
  {
    assert CommitWrites(l, s.disk, s.lh, Cached(s))[..0] == [];
  }

  lemma DurableTest(l: Layout, base: Disk, s: State, i: nat)
    requires Durable(l, base, s) && Enabled(l, s, Test(i))
    ensures Durable(l, base, Do(l, s, Test(i)))
  {
    assert Cached(Do(l, s, Test(i))) == Cached(s);
  }

  lemma DurableBeginOp(l: Layout, base: Disk, s: State)
    requires Durable(l, base, s) && Enabled(l, s, BeginOp)
    ensures Durable(l, base, Do(l, s, BeginOp))
  {
    assert Cached(Do(l, s, BeginOp)) == Cached(s);
  }

  lemma DurableCrash(l: Layout, base: Disk, s: State)
    requires Reserved(l, s) && Spacious(l, s.most) && Durable(l, base, s)
    ensures Durable(l, base, Do(l, s, Crash))
  {
    CrashView(l, base, s);
    DurableBooting(l, base, Do(l, s, Crash));
  }

  lemma DurableBooting(l: Layout, base: Disk, t: State)
    requires HeaderOk(l, t.disk) && HomeEq(l, Recover(l, t.disk), Replay(base, t.committed))
    requires t.phase == Recovering(t.disk, 0) && t.lh == [] && t.current == [] && t.dirty == map[]
    ensures Durable(l, base, t)
  {
    assert RecoverWrites(l, t.disk)[..0] == [];
  }

  lemma DurableStep(l: Layout, base: Disk, s: State, step: Step)
    requires Reserved(l, s) && Spacious(l, s.most) && Durable(l, base, s) && Enabled(l, s, step)
    ensures Durable(l, base, Do(l, s, step))
  {
    match step
    case BeginOp => DurableBeginOp(l, base, s);
    case Test(i) => DurableTest(l, base, s, i);
    case Append(i, w) => DurableAppend(l, base, s, i, w);
    case EndOp(i) => DurableEndOp(l, base, s, i);
    case CommitWrite => DurableCommitWrite(l, base, s);
    case CommitDone => DurableCommitDone(l, base, s);
    case Crash => DurableCrash(l, base, s);
    case RecoverWrite => DurableRecoverWrite(l, base, s);
    case RecoverDone => DurableRecoverDone(l, base, s);
  }

  lemma PinsCommitWrite(s: State, w: Write)
    requires PinsOk(s) && s.phase.Committing? && Distinct(s.lh)
    requires |s.lh| < s.phase.k <= 2 * |s.lh| ==> w.blockno == s.lh[s.phase.k - |s.lh| - 1]
    ensures PinsOk(CommitOne(s, w))
  {
  }

  lemma InstallWrite(l: Layout, d: Disk, lh: seq<int>, data: seq<Block>, k: int)
    requires |lh| == |data| <= LOGSIZE && |lh| < k <= 2 * |lh|
    ensures k < |CommitWrites(l, d, lh, data)|
              && CommitWrites(l, d, lh, data)[k] == Write(lh[k - |lh| - 1], data[k - |lh| - 1])
  {
  }

  lemma PinsStep(l: Layout, base: Disk, s: State, step: Step)
    requires Reserved(l, s) && Spacious(l, s.most) && Durable(l, base, s) && PinsOk(s) && Enabled(l, s, step)
    ensures PinsOk(Do(l, s, step))
  {
    if step.CommitWrite? {
      var k := s.phase.k;
      if |s.lh| < k <= 2 * |s.lh| {
        InstallWrite(l, s.phase.d0, s.lh, s.phase.data, k);
      }
      PinsCommitWrite(s, CommitWrites(l, s.phase.d0, s.lh, s.phase.data)[k]);
    } else if step.EndOp? {
      PinsEndOp(l, base, s, step.i);
    }
  }

  lemma PinsEndOp(l: Layout, base: Disk, s: State, i: int)
    requires Reserved(l, s) && Durable(l, base, s) && PinsOk(s) && 0 <= i && Enabled(l, s, EndOp(i))
    ensures PinsOk(Do(l, s, EndOp(i)))
  {
  }

  lemma StepKeepsInv(l: Layout, base: Disk, s: State, step: Step)
    requires Inv(l, base, s) && Enabled(l, s, step)
    ensures Inv(l, base, Do(l, s, step))
  {
    ReservedStep(l, s, step);
    HistoryStep(l, s, step);
    if Spacious(l, s.most) {
      DurableStep(l, base, s, step);
      PinsStep(l, base, s, step);
    }
  }

  lemma BootInv(l: Layout, d: Disk, most: nat)
    requires HeaderOk(l, d) && most <= MAXOPBLOCKS
    ensures Inv(l, Recover(l, d), Boot(d, most))
  {
    DurableBooting(l, Recover(l, d), Boot(d, most));
    BootReserved(l, d, most);
  }

  lemma BootReserved(l: Layout, d: Disk, most: nat)
    requires 1 <= l.size && most <= MAXOPBLOCKS
    ensures Reserved(l, Boot(d, most)) && HistoryOk(Boot(d, most))
  {
  }

  lemma {:induction false} RunKeepsInv(l: Layout, base: Disk, s: State, steps: seq<Step>)
    requires Inv(l, base, s) && IsRun(l, s, steps)
    ensures Inv(l, base, Run(l, s, steps))
    decreases |steps|
  {
    if steps != [] {
      StepKeepsInv(l, base, s, steps[0]);
      RunKeepsInv(l, base, Do(l, s, steps[0]), steps[1..]);
    }
  }

  // ---- the main results, for every run from every bootable disk ----

  ghost predicate Reachable(l: Layout, d: Disk, s: State) {
    && HeaderOk(l, d) && s.most <= MAXOPBLOCKS
    && exists steps :: IsRun(l, Boot(d, s.most), steps) && s == Run(l, Boot(d, s.most), steps)
  }

  lemma ReachableInv(l: Layout, d: Disk, s: State)
    requires Reachable(l, d, s)
    ensures Inv(l, Recover(l, d), s)
  {
    var steps :| IsRun(l, Boot(d, s.most), steps) && s == Run(l, Boot(d, s.most), steps);
    BootInv(l, d, s.most);
    RunKeepsInv(l, Recover(l, d), Boot(d, s.most), steps);
  }

  /** Durability: a crash in any reachable state recovers to the initial home blocks
      plus exactly the committed transactions, in order. */
  lemma CrashRecoversCommitted(l: Layout, d: Disk, s: State)
    requires Reachable(l, d, s) && Spacious(l, s.most)
    ensures HeaderOk(l, s.disk)
    ensures HomeEq(l, Recover(l, s.disk), Replay(Recover(l, d), s.committed))
  {
    ReachableInv(l, d, s);
    CrashView(l, Recover(l, d), s);
  }

  /** Each operation is wholly in one committed transaction or in none of them. */
  lemma OperationAllOrNothing(l: Layout, d: Disk, s: State, id: nat)
    requires Reachable(l, d, s) && id < s.next
    ensures id in s.issued
    ensures (forall j :: 0 <= j < |s.committed| ==> OpEntries(s.committed[j].entries, id) == [])
         || exists j :: && 0 <= j < |s.committed| && OpEntries(s.committed[j].entries, id) == s.issued[id]
                        && forall i :: 0 <= i < |s.committed| && i != j ==> OpEntries(s.committed[i].entries, id) == []
  {
    ReachableInv(l, d, s);
    forall j | 0 <= j < |s.committed| && !(s.committed[j].lo <= id < s.committed[j].hi)
      ensures OpEntries(s.committed[j].entries, id) == []
    {
      assert GroupOk(s, s.committed[j]);
      OpEntriesNone(s.committed[j].entries, s.committed[j].lo, s.committed[j].hi, id);
    }
    if j :| 0 <= j < |s.committed| && s.committed[j].lo <= id < s.committed[j].hi {
      assert GroupOk(s, s.committed[j]);
      assert OpEntries(s.committed[j].entries, id) == s.issued[id];
    }
  }

  /** Nothing committed is ever taken back: later transactions are only appended. */
  lemma {:induction false} CommittedGrows(l: Layout, s: State, steps: seq<Step>)
    requires IsRun(l, s, steps)
    ensures s.committed <= Run(l, s, steps).committed
    decreases |steps|
  {
    if steps != [] {
      CommittedGrows(l, Do(l, s, steps[0]), steps[1..]);
    }
  }

  /** What a partly done commit has put on the home blocks. */
  lemma CommitHomeRead(l: Layout, d: Disk, lh: seq<int>, data: seq<Block>, k: nat, b: int)
    requires Loggable(l, lh) && |data| == |lh| && lh != [] && !InLog(l, b)
    requires k <= |CommitWrites(l, d, lh, data)|
    ensures var e := Apply(d, CommitWrites(l, d, lh, data)[..k]);
            && (b !in lh ==> Read(e, b) == Read(d, b))
            && forall i :: 0 <= i < |lh| && lh[i] == b && |lh| + 1 + i < k ==> Read(e, b) == data[i]
  {
    var ws := CommitWrites(l, d, lh, data)[..k];
    CommitPrefix(l, d, lh, data, k);
    if b !in lh {
      ApplyElsewhere(d, ws, b);
    } else {
      var i :| 0 <= i < |lh| && lh[i] == b;
      if |lh| + 1 + i < k {
        assert ws[|lh| + 1 + i] == Write(b, data[i]);
        ApplyLast(d, ws, |lh| + 1 + i);
      }
    }
  }

  /** Outside recovery a reader always sees the committed transactions plus every
      log_write of the one being built, also while its blocks are being installed. */
  lemma ReadersSeeLatest(l: Layout, d: Disk, s: State, b: int)
    requires Reachable(l, d, s) && Spacious(l, s.most) && !s.phase.Recovering? && !InLog(l, b)
    ensures View(s.disk, s.dirty, b) == Read(Apply(Replay(Recover(l, d), s.committed), Effects(s.current)), b)
  {
    ReachableInv(l, d, s);
    SpaciousFits(l, s);
    assert Effects([]) == [];
    if s.phase.Running? {
      OverlayRead(s.disk, s.lh, Cached(s), b);
    } else {
      var d0, data, k := s.phase.d0, s.phase.data, s.phase.k;
      OverlayRead(d0, s.lh, data, b);
      if s.lh != [] {
        CommitHomeRead(l, d0, s.lh, data, k, b);
        if b in s.lh {
          var i :| 0 <= i < |s.lh| && s.lh[i] == b;
        }
      }
    }
  }

  /** With no operation in progress and no commit running, everything that was ever
      logged since the last crash is durable: readers see what recovery would restore. */
  lemma QuiescentDurable(l: Layout, d: Disk, s: State)
    requires Reachable(l, d, s) && Spacious(l, s.most) && s.phase.Running? && s.ops == []
    ensures s.current == [] && HeaderOk(l, s.disk)
    ensures forall b :: !InLog(l, b) ==> View(s.disk, s.dirty, b) == Read(Recover(l, s.disk), b)
  {
    ReachableInv(l, d, s);
    RecoverEmpty(l, s.disk);
  }

  /** end_op's panic("log.committing") cannot be reached. */
  lemma NoCommitWhileOutstanding(l: Layout, d: Disk, s: State)
    requires Reachable(l, d, s) && s.ops != []
    ensures s.phase.Running?
  {
    ReachableInv(l, d, s);
  }

  // ---- the reservation and log_write's size guard ----

  /** lh.block is never overrun, whatever the log's size. */
  lemma HeaderNeverOverrun(l: Layout, d: Disk, s: State)
    requires Reachable(l, d, s)
    ensures |s.lh| + Budget(MAXOPBLOCKS, s.ops) <= LOGSIZE && 0 <= Budget(MAXOPBLOCKS, s.ops)
    ensures Distinct(s.lh)
  {
    ReachableInv(l, d, s);
    BudgetBounds(MAXOPBLOCKS, s.ops);
  }

  lemma {:induction false} RunAppend(l: Layout, s: State, steps: seq<Step>, step: Step)
    requires IsRun(l, s, steps) && Enabled(l, Run(l, s, steps), step)
    ensures IsRun(l, s, steps + [step])
    ensures Run(l, s, steps + [step]) == Do(l, Run(l, s, steps), step)
    decreases |steps|
  {
    if steps == [] {
      assert IsRun(l, Do(l, s, step), []);
    } else {
      RunAppend(l, Do(l, s, steps[0]), steps[1..], step);
      assert (steps + [step])[1..] == steps[1..] + [step];
    }
  }

  lemma ReachStep(l: Layout, d: Disk, s: State, step: Step)
    requires Reachable(l, d, s) && Enabled(l, s, step)
    ensures Reachable(l, d, Do(l, s, step))
  {
    var steps :| IsRun(l, Boot(d, s.most), steps) && s == Run(l, Boot(d, s.most), steps);
    RunAppend(l, Boot(d, s.most), steps, step);
  }

  ghost predicate Leads(l: Layout, s: State, t: State) {
    exists steps :: IsRun(l, s, steps) && t == Run(l, s, steps)
  }

  lemma LeadsStep(l: Layout, s: State, t: State, step: Step)
    requires Leads(l, s, t) && Enabled(l, t, step)
    ensures Leads(l, s, Do(l, t, step))
  {
    var steps :| IsRun(l, s, steps) && t == Run(l, s, steps);
    RunAppend(l, s, steps, step);
  }

  /** The disk writes of a commit under way, up to the k-th. */
  lemma CommitTo(l: Layout, d: Disk, s: State, k: nat) returns (t: State)
    requires Reachable(l, d, s) && s.phase.Committing? && s.phase.k == 0 && s.disk == s.phase.d0
    requires |s.phase.data| == |s.lh| <= LOGSIZE && k <= |CommitWrites(l, s.phase.d0, s.lh, s.phase.data)|
    ensures Reachable(l, d, t) && Leads(l, s, t) && t.phase == Committing(s.phase.d0, s.phase.data, k)
    ensures t.lh == s.lh && t.ops == s.ops && t.most == s.most && (k <= |s.lh| ==> t.committed == s.committed)
    ensures t.disk == Apply(s.disk, CommitWrites(l, s.disk, s.lh, s.phase.data)[..k])
  {
    if k == 0 {
      t := s;
      assert IsRun(l, s, []) && Run(l, s, []) == s;
      assert CommitWrites(l, s.disk, s.lh, s.phase.data)[..0] == [];
    } else {
      var a := CommitTo(l, d, s, k - 1);
      var ws := CommitWrites(l, s.disk, s.lh, s.phase.data);
      PrefixStep(s.disk, ws, k - 1);
      t := CommitNext(l, d, s, a, ws[k - 1]);
    }
  }

  lemma CommitNext(l: Layout, d: Disk, s: State, a: State, w: Write) returns (t: State)
    requires Reachable(l, d, a) && Leads(l, s, a) && Enabled(l, a, CommitWrite)
    requires w == CommitWrites(l, a.phase.d0, a.lh, a.phase.data)[a.phase.k]
    ensures Reachable(l, d, t) && Leads(l, s, t) && t == CommitOne(a, w)
    ensures t.ops == a.ops && t.most == a.most && t.lh == a.lh && t.disk == a.disk[w.blockno := w.data]
    ensures t.phase == Committing(a.phase.d0, a.phase.data, a.phase.k + 1)
    ensures a.phase.k < |a.lh| ==> t.committed == a.committed
  {
    ReachStep(l, d, a, CommitWrite);
    LeadsStep(l, s, a, CommitWrite);
    t := Do(l, a, CommitWrite);
  }

  lemma ListFits(l: Layout, d: Disk, s: State)
    requires Reachable(l, d, s)
    ensures |s.lh| <= LOGSIZE && (s.phase.Running? ==> Pinned(s))
  {
    ReachableInv(l, d, s);
    BudgetBounds(MAXOPBLOCKS, s.ops);
  }

  /** log_write's store into lh.block stays inside it. */
  lemma AppendFits(l: Layout, d: Disk, s: State, i: nat, w: Write)
    requires Reachable(l, d, s) && Enabled(l, s, Append(i, w))
    ensures w.blockno in s.lh || |s.lh| < LOGSIZE
  {
    ReachableInv(l, d, s);
    BudgetAt(MAXOPBLOCKS, s.ops, i);
    BudgetBounds(MAXOPBLOCKS, s.ops[..i]);
    BudgetBounds(MAXOPBLOCKS, s.ops[i + 1..]);
    if w.blockno !in s.lh {
      assert w.blockno !in s.ops[i].used;
      assert |s.ops[i].used + {w.blockno}| == |s.ops[i].used| + 1;
    }
  }

  /** From the last end_op's first critical section to the end of its commit. */
  lemma CommitAll(l: Layout, d: Disk, s: State) returns (t: State)
    requires Reachable(l, d, s) && s.phase.Committing? && s.phase.k == 0 && s.disk == s.phase.d0
    requires |s.phase.data| == |s.lh|
    ensures Reachable(l, d, t) && Leads(l, s, t) && t.phase == Running && t.ops == [] && t.lh == [] && t.dirty == map[]
    ensures t.most == s.most && |s.lh| <= LOGSIZE
    ensures t.disk == Apply(s.disk, CommitWrites(l, s.disk, s.lh, s.phase.data))
  {
    ListFits(l, d, s);
    ReachableInv(l, d, s);
    var ws := CommitWrites(l, s.disk, s.lh, s.phase.data);
    var b := CommitTo(l, d, s, |ws|);
    assert ws[..|ws|] == ws;
    ReachStep(l, d, b, CommitDone);
    LeadsStep(l, s, b, CommitDone);
    t := Do(l, b, CommitDone);
  }

  /** From a crash or the first boot to the end of recovery. */
  lemma RecoverAll(l: Layout, d: Disk, most: nat) returns (t: State)
    requires HeaderOk(l, d) && most <= MAXOPBLOCKS
    ensures Reachable(l, d, t) && t.most == most && t.committed == [] && t.phase == Running && t.ops == []
              && t.lh == [] && t.dirty == map[]
    ensures t.disk == Recover(l, d)
  {
    var ws := RecoverWrites(l, d);
    var b := ReachRecovered(l, d, most, |ws|);
    assert ws[..|ws|] == ws;
    ReachStep(l, d, b, RecoverDone);
    t := Do(l, b, RecoverDone);
  }

  lemma ReachRecovered(l: Layout, d: Disk, most: nat, k: nat) returns (s: State)
    requires HeaderOk(l, d) && most <= MAXOPBLOCKS && k <= |RecoverWrites(l, d)|
    ensures Reachable(l, d, s) && s.phase == Recovering(d, k) && s.lh == [] && s.ops == []
    ensures s.most == most && s.committed == [] && s.dirty == map[] && s.disk == Apply(d, RecoverWrites(l, d)[..k])
  {
    if k == 0 {
      s := Boot(d, most);
      assert IsRun(l, s, []) && Run(l, s, []) == s;
    } else {
      var t := ReachRecovered(l, d, most, k - 1);
      PrefixStep(d, RecoverWrites(l, d), k - 1);
      ReachStep(l, d, t, RecoverWrite);
      s := Do(l, t, RecoverWrite);
    }
  }
}
