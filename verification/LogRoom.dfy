/** How long the list of a transaction can get: when log_write meets its size panic, and when the
    list outgrows the log area because two operations pass the size test together. */
module LogRoom {
  import opened Storage
  import opened RedoLog
  import opened LogRuns

  // ---- getting there ----

  lemma ReachBegin(l: Layout, d: Disk, t: State) returns (s: State)
    requires Reachable(l, d, t) && Enabled(l, t, BeginOp)
    ensures Reachable(l, d, s) && s == Do(l, t, BeginOp)
  {
    ReachStep(l, d, t, BeginOp);
    s := Do(l, t, BeginOp);
  }

  /** A whole log_write of a new block by operation i. */
  lemma ReachLogged(l: Layout, d: Disk, t: State, i: nat, w: Write) returns (s: State)
    requires Reachable(l, d, t) && Enabled(l, t, Test(i)) && !InLog(l, w.blockno) && w.blockno !in t.lh
    requires |t.ops[i].used| < t.most
    ensures Reachable(l, d, s) && s == Logged(t, i, w)
  {
    ReachableInv(l, d, t);
    assert w.blockno !in t.ops[i].used;
    ReachStep(l, d, t, Test(i));
    var a := Do(l, t, Test(i));
    assert a.ops[i].used + {w.blockno} == t.ops[i].used + {w.blockno};
    ReachStep(l, d, a, Append(i, w));
    s := Do(l, a, Append(i, w));
    assert s.ops == t.ops[i := Op(t.ops[i].id, t.ops[i].used + {w.blockno}, false)];
  }

  /** The state after operation i has logged a new block. */
  ghost function Logged(t: State, i: nat, w: Write): (s: State)
    requires i < |t.ops| && w.blockno !in t.lh
    ensures s.lh == t.lh + [w.blockno] && s.phase == t.phase && s.disk == t.disk && s.most == t.most
    ensures s.committed == t.committed && s.dirty == t.dirty[w.blockno := w.data]
    ensures s.ops == t.ops[i := Op(t.ops[i].id, t.ops[i].used + {w.blockno}, false)]
    ensures |s.ops[i].used| == |t.ops[i].used| + if w.blockno in t.ops[i].used then 0 else 1
  {
    var e := Entry(t.ops[i].id, w);
    var s := t.(lh := t.lh + [w.blockno], dirty := t.dirty[w.blockno := w.data],
                ops := t.ops[i := Op(t.ops[i].id, t.ops[i].used + {w.blockno}, false)],
                current := t.current + [e], issued := Issue(t.issued, e));
    assert w.blockno in t.ops[i].used ==> t.ops[i].used + {w.blockno} == t.ops[i].used;
    s
  }

  lemma ReachBegun(l: Layout, d: Disk, most: nat, k: nat) returns (s: State)
    requires HeaderOk(l, d) && most <= MAXOPBLOCKS && k <= 3
    ensures Reachable(l, d, s) && s.phase.Running? && s.lh == [] && |s.ops| == k && s.most == most
    ensures s.committed == [] && s.disk == Recover(l, d)
    ensures forall i :: 0 <= i < k ==> s.ops[i].used == {} && !s.ops[i].past
  {
    if k == 0 {
      s := RecoverAll(l, d, most);
    } else {
      var t := ReachBegun(l, d, most, k - 1);
      s := ReachBegin(l, d, t);
    }
  }

  // ---- log_write's size panic ----

  /** The operation that logs the k-th block when operation 0 is to log u and each other ten. */
  function Filler(u: nat, k: nat): nat {
    if k < u then 0 else 1 + (k - u) / MAXOPBLOCKS
  }

  /** How many of the first m blocks operation i logs then. */
  function Share(u: nat, m: nat, i: nat): int {
    if i == 0 then (if m <= u then m else u)
    else if m <= u + MAXOPBLOCKS * (i - 1) then 0
    else if m <= u + MAXOPBLOCKS * i then m - u - MAXOPBLOCKS * (i - 1)
    else MAXOPBLOCKS
  }

  lemma ShareStep(u: nat, m: nat, i: nat)
    requires u <= MAXOPBLOCKS && 0 < m <= u + 2 * MAXOPBLOCKS && i < 3
    ensures Filler(u, m - 1) < 3 && Share(u, m - 1, Filler(u, m - 1)) < MAXOPBLOCKS
    ensures Share(u, m, i) == Share(u, m - 1, i) + if i == Filler(u, m - 1) then 1 else 0
  {
  }

  /** Three operations, one log_write at a time, have filled the log with m blocks. */
  ghost predicate Filled(l: Layout, s: State, u: nat, m: nat) {
    && s.phase.Running? && s.most == MAXOPBLOCKS && |s.lh| == m && |s.ops| == 3
    && (forall j :: 0 <= j < m ==> s.lh[j] == l.start + l.size + j)
    && (forall i :: 0 <= i < 3 ==> |s.ops[i].used| == Share(u, m, i) && !s.ops[i].past)
    && (0 < u && 0 < m ==> s.lh[0] in s.ops[0].used)
  }

  /** Three operations can between them fill the log up to any size it admits, the first of
      them with exactly u blocks. */
  lemma ReachFilled(l: Layout, d: Disk, u: nat, m: nat) returns (s: State)
    requires HeaderOk(l, d) && u <= MAXOPBLOCKS && m <= Capacity(l) && m <= u + 2 * MAXOPBLOCKS
    ensures Reachable(l, d, s) && Filled(l, s, u, m)
  {
    if m == 0 {
      s := ReachBegun(l, d, MAXOPBLOCKS, 3);
    } else {
      var t := ReachFilled(l, d, u, m - 1);
      s := FillOne(l, d, u, m, t);
    }
  }

  lemma FillOne(l: Layout, d: Disk, u: nat, m: nat, t: State) returns (s: State)
    requires HeaderOk(l, d) && u <= MAXOPBLOCKS && 0 < m <= Capacity(l) && m <= u + 2 * MAXOPBLOCKS
    requires Reachable(l, d, t) && Filled(l, t, u, m - 1)
    ensures Reachable(l, d, s) && Filled(l, s, u, m)
  {
    var i := Filler(u, m - 1);
    ShareStep(u, m, 0);
    var b := l.start + l.size + m - 1;
    NotUsed(l, d, t, i, b);
    s := ReachLogged(l, d, t, i, Write(b, ZeroBlock()));
    FilledMore(l, t, s, u, m, Write(b, ZeroBlock()));
  }

  lemma NotUsed(l: Layout, d: Disk, t: State, i: nat, b: int)
    requires Reachable(l, d, t) && i < |t.ops| && b !in t.lh
    ensures b !in t.ops[i].used
  {
    ReachableInv(l, d, t);
  }

  lemma FilledMore(l: Layout, t: State, s: State, u: nat, m: nat, w: Write)
    requires u <= MAXOPBLOCKS && 0 < m <= u + 2 * MAXOPBLOCKS && Filled(l, t, u, m - 1)
    requires w.blockno == l.start + l.size + m - 1 && w.blockno !in t.lh
    requires Filler(u, m - 1) < 3 && w.blockno !in t.ops[Filler(u, m - 1)].used && s == Logged(t, Filler(u, m - 1), w)
    ensures Filled(l, s, u, m)
  {
    var i := Filler(u, m - 1);
    forall k: nat | k < 3
      ensures |s.ops[k].used| == Share(u, m, k) && !s.ops[k].past
    {
      ShareStep(u, m, k);
      assert k != i ==> s.ops[k] == t.ops[k];
    }
  }

  /** In no reachable state does an operation that has logged u blocks so far find the log too
      full for another log_write, of a new block or of one already listed. */
  ghost predicate NeverTooBig(l: Layout, d: Disk, u: nat) {
    forall s, i :: Reachable(l, d, s) && 0 <= i < |s.ops| && |s.ops[i].used| == u ==> !GuardFires(l, s)
  }

  lemma RoomForMore(l: Layout, d: Disk, s: State, i: nat)
    requires Reachable(l, d, s) && i < |s.ops|
    ensures |s.ops[i].used| <= MAXOPBLOCKS && |s.lh| <= LOGSIZE - MAXOPBLOCKS + |s.ops[i].used|
  {
    ReachableInv(l, d, s);
    BudgetAt(MAXOPBLOCKS, s.ops, i);
    BudgetBounds(MAXOPBLOCKS, s.ops[..i]);
    BudgetBounds(MAXOPBLOCKS, s.ops[i + 1..]);
  }

  /** log_write pins no more buffers than that: with LOGSIZE of them, as NBUF is, an operation that
      has logged u blocks finds at least MAXOPBLOCKS - u that are not pinned. */
  lemma PinsLeave(l: Layout, d: Disk, s: State, i: nat)
    requires Reachable(l, d, s) && i < |s.ops|
    ensures |s.dirty| <= LOGSIZE - MAXOPBLOCKS + |s.ops[i].used|
  {
    RoomForMore(l, d, s, i);
    ReachableInv(l, d, s);
    var keys := s.dirty.Keys;
    forall b | b in keys ensures b in s.lh { assert b in s.dirty; }
    Listed(s.lh, keys);
    assert |s.dirty| == |keys|;
  }

  lemma {:induction false} Listed<T>(lh: seq<T>, keys: set<T>)
    requires forall b :: b in keys ==> b in lh
    ensures |keys| <= |lh|
    decreases |lh|
  {
    if lh == [] {
      assert keys == {};
    } else {
      var n := |lh| - 1;
      forall b | b in keys - {lh[n]} ensures b in lh[..n] {
        var j :| 0 <= j < |lh| && lh[j] == b;
        assert lh[..n][j] == b;
      }
      Listed(lh[..n], keys - {lh[n]});
      assert keys <= (keys - {lh[n]}) + {lh[n]};
      assert |keys| <= |keys - {lh[n]}| + 1;
    }
  }

  /** "too big a transaction" is ruled out for an operation with u blocks logged exactly when
      it has budget left and the log beats what the others may have reserved. */
  lemma GuardSilentIff(l: Layout, d: Disk, u: nat)
    requires HeaderOk(l, d) && u <= Capacity(l) && u <= MAXOPBLOCKS
    ensures NeverTooBig(l, d, u) <==> u < MAXOPBLOCKS && l.size - 1 > LOGSIZE - MAXOPBLOCKS + u
  {
    if u < MAXOPBLOCKS && l.size - 1 > LOGSIZE - MAXOPBLOCKS + u {
      forall s, i | Reachable(l, d, s) && 0 <= i < |s.ops| && |s.ops[i].used| == u
        ensures !GuardFires(l, s)
      {
        RoomForMore(l, d, s, i);
      }
    } else {
      var s := ReachFilled(l, d, u, Capacity(l));
      assert 0 <= 0 < |s.ops| && |s.ops[0].used| == u && GuardFires(l, s);
    }
  }

  /** filewrite's chunks log at most seven blocks, and that is safe with the log mkfs makes. */
  lemma FilewriteNeverTooBig(l: Layout, d: Disk, u: nat)
    requires HeaderOk(l, d) && l.size == LOGSIZE && u <= 7
    ensures NeverTooBig(l, d, u)
  {
    GuardSilentIff(l, d, u);
  }

  /** The guard looks at lh.n before absorption, so with a full log even an operation
      that logs one of its own blocks again panics, however large the log area is. */
  lemma FullLogRejectsAbsorption(l: Layout, d: Disk) returns (s: State, i: nat, b: int)
    requires HeaderOk(l, d) && l.size >= 2
    ensures Reachable(l, d, s) && i < |s.ops| && b in s.ops[i].used && b in s.lh
    ensures WithinBudget(s, i, b) && GuardFires(l, s)
  {
    s := ReachFilled(l, d, MAXOPBLOCKS, Capacity(l));
    i, b := 0, s.lh[0];
    assert s.ops[0].used + {b} == s.ops[0].used;
  }

  // ---- the test is made before the lock is taken ----

  /** m blocks are listed, k operations are in progress, and nothing has been committed yet. */
  ghost predicate Level(l: Layout, d: Disk, s: State, most: nat, k: nat, m: nat) {
    && Reachable(l, d, s) && s.phase.Running? && s.most == most && |s.ops| == k && |s.lh| == m
    && (forall j :: 0 <= j < m ==> s.lh[j] == l.start + l.size + 1 + j)
    && (forall i :: 0 <= i < k ==> !s.ops[i].past)
    && s.committed == [] && s.disk == Recover(l, d)
  }

  lemma LevelMore(l: Layout, d: Disk, t: State, most: nat, k: nat, m: nat, i: nat, x: Block) returns (s: State)
    requires Level(l, d, t, most, k, m) && i < k && |t.ops[i].used| < most && !GuardFires(l, t)
    ensures Level(l, d, s, most, k, m + 1) && |s.ops[i].used| == |t.ops[i].used| + 1
    ensures forall j :: 0 <= j < k && j != i ==> s.ops[j] == t.ops[j]
  {
    ReachableInv(l, d, t);
    var w := Write(l.start + l.size + 1 + m, x);
    assert w.blockno !in t.lh && w.blockno !in t.ops[i].used;
    s := ReachLogged(l, d, t, i, w);
  }

  /** A patient first operation, and short ones that come, log one block each and go. */
  lemma ReachSolo(l: Layout, d: Disk, most: nat, m: nat) returns (s: State)
    requires HeaderOk(l, d) && 1 <= most <= MAXOPBLOCKS && m <= MAXOPBLOCKS && m <= l.size - 1
    ensures Level(l, d, s, most, 1, m) && s.ops[0].used == {}
  {
    if m == 0 {
      s := ReachBegun(l, d, most, 1);
    } else {
      var t := ReachSolo(l, d, most, m - 1);
      var a := SecondBegins(l, d, t, most, m - 1);
      var b := LevelMore(l, d, a, most, 2, m - 1, 1, ZeroBlock());
      s := SecondEnds(l, d, b, most, m);
    }
  }

  lemma SecondBegins(l: Layout, d: Disk, t: State, most: nat, m: nat) returns (s: State)
    requires Level(l, d, t, most, 1, m) && m <= MAXOPBLOCKS
    ensures Level(l, d, s, most, 2, m) && s.ops[0] == t.ops[0] && s.ops[1].used == {}
  {
    s := ReachBegin(l, d, t);
  }

  lemma SecondEnds(l: Layout, d: Disk, t: State, most: nat, m: nat) returns (s: State)
    requires Level(l, d, t, most, 2, m)
    ensures Level(l, d, s, most, 1, m) && s.ops[0] == t.ops[0]
  {
    ListFits(l, d, t);
    ReachStep(l, d, t, EndOp(1));
    s := Do(l, t, EndOp(1));
    assert s.ops == [t.ops[0]];
  }

  /** How many of m blocks two operations log, the first as many as it can with one to spare. */
  function PairShare(most: int, m: int, i: int): int {
    var rest := if m <= MAXOPBLOCKS then 0 else m - MAXOPBLOCKS;
    var first := if rest <= most - 1 then rest else most - 1;
    if i == 0 then first else rest - first
  }

  ghost predicate Pair(l: Layout, d: Disk, s: State, most: nat, m: nat) {
    && Level(l, d, s, most, 2, m)
    && |s.ops[0].used| == PairShare(most, m, 0) && |s.ops[1].used| == PairShare(most, m, 1)
  }

  lemma PairMore(l: Layout, d: Disk, t: State, most: nat, m: nat) returns (s: State)
    requires HeaderOk(l, d) && 1 <= most <= MAXOPBLOCKS && MAXOPBLOCKS <= m < MAXOPBLOCKS + 2 * (most - 1)
    requires m < l.size - 1 && Pair(l, d, t, most, m)
    ensures Pair(l, d, s, most, m + 1)
  {
    PairShareStep(most, m);
    if m - MAXOPBLOCKS < most - 1 {
      s := LevelMore(l, d, t, most, 2, m, 0, ZeroBlock());
      assert s.ops[1] == t.ops[1];
    } else {
      s := LevelMore(l, d, t, most, 2, m, 1, ZeroBlock());
      assert s.ops[0] == t.ops[0];
    }
  }

  lemma PairShareStep(most: int, m: int)
    requires 1 <= most <= MAXOPBLOCKS && MAXOPBLOCKS <= m < MAXOPBLOCKS + 2 * (most - 1)
    ensures var i := if m - MAXOPBLOCKS < most - 1 then 0 else 1;
            && PairShare(most, m, i) < most && PairShare(most, m + 1, i) == PairShare(most, m, i) + 1
            && PairShare(most, m + 1, 1 - i) == PairShare(most, m, 1 - i)
  {
  }

  /** Two operations with budget left, and m blocks listed. */
  lemma ReachPair(l: Layout, d: Disk, most: nat, m: nat) returns (s: State)
    requires HeaderOk(l, d) && 1 <= most <= MAXOPBLOCKS && m <= MAXOPBLOCKS + 2 * (most - 1) && m <= l.size - 1
    ensures Pair(l, d, s, most, m)
  {
    if m <= MAXOPBLOCKS {
      var t := ReachSolo(l, d, most, m);
      s := SecondBegins(l, d, t, most, m);
    } else {
      var t := ReachPair(l, d, most, m - 1);
      s := PairMore(l, d, t, most, m - 1);
    }
  }

  /** Both of them pass the test. */
  lemma PairTests(l: Layout, d: Disk, t: State, most: nat, m: nat) returns (s: State)
    requires HeaderOk(l, d) && Level(l, d, t, most, 2, m) && !GuardFires(l, t)
    ensures Reachable(l, d, s) && s == t.(ops := [t.ops[0].(past := true), t.ops[1].(past := true)])
  {
    ReachStep(l, d, t, Test(0));
    var a := Do(l, t, Test(0));
    ReachStep(l, d, a, Test(1));
    s := Do(l, a, Test(1));
    assert s.ops == [t.ops[0].(past := true), t.ops[1].(past := true)];
  }

  /** Then both append: the list is one block longer than the log area holds. */
  lemma ReachOverrun(l: Layout, d: Disk, most: nat, x: Block) returns (s: State)
    requires HeaderOk(l, d) && most <= MAXOPBLOCKS && !Spacious(l, most)
    ensures Level(l, d, s, most, 2, l.size) && s.lh[l.size - 1] in s.dirty && s.dirty[s.lh[l.size - 1]] == x
  {
    var m := l.size - 2;
    var t := ReachPair(l, d, most, m);
    var b := PairTests(l, d, t, most, m);
    var e := l.start + l.size + 1 + m;
    assert e !in t.lh && e + 1 !in t.lh;
    s := AppendBoth(l, d, b, e, x);
    assert s.lh == t.lh + [e, e + 1];
  }

  lemma AppendBoth(l: Layout, d: Disk, t: State, e: int, x: Block) returns (s: State)
    requires Reachable(l, d, t) && t.phase.Running? && |t.ops| == 2 && t.ops[0].past && t.ops[1].past
    requires !InLog(l, e) && !InLog(l, e + 1) && e !in t.lh && e + 1 !in t.lh
    requires |t.ops[0].used| < t.most && |t.ops[1].used| < t.most
    ensures Reachable(l, d, s) && s.phase.Running? && s.most == t.most && |s.ops| == 2
    ensures !s.ops[0].past && !s.ops[1].past && s.committed == t.committed && s.disk == t.disk
    ensures s.lh == t.lh + [e, e + 1] && e + 1 in s.dirty && s.dirty[e + 1] == x
  {
    NotUsed(l, d, t, 0, e);
    NotUsed(l, d, t, 1, e + 1);
    var c := AppendNew(l, d, t, 0, Write(e, x));
    assert c.ops[1] == t.ops[1];
    s := AppendNew(l, d, c, 1, Write(e + 1, x));
    assert s.ops[0] == c.ops[0];
  }

  lemma AppendNew(l: Layout, d: Disk, t: State, i: nat, w: Write) returns (s: State)
    requires Reachable(l, d, t) && t.phase.Running? && i < |t.ops| && t.ops[i].past && !InLog(l, w.blockno)
    requires w.blockno !in t.lh && w.blockno !in t.ops[i].used && |t.ops[i].used| < t.most
    ensures Reachable(l, d, s) && s == Logged(t, i, w)
  {
    assert |t.ops[i].used + {w.blockno}| == |t.ops[i].used| + 1;
    ReachStep(l, d, t, Append(i, w));
    s := Do(l, t, Append(i, w));
  }

  ghost predicate NeverOverruns(l: Layout, d: Disk, most: nat) {
    forall s :: Reachable(l, d, s) && s.most == most ==> |s.lh| <= l.size - 1
  }

  /** The list fits the log area in every reachable state exactly when the log area is spacious. */
  lemma OverrunIff(l: Layout, d: Disk, most: nat)
    requires HeaderOk(l, d) && most <= MAXOPBLOCKS
    ensures NeverOverruns(l, d, most) <==> Spacious(l, most)
  {
    if Spacious(l, most) {
      forall s | Reachable(l, d, s) && s.most == most
        ensures |s.lh| <= l.size - 1
      {
        ReachableInv(l, d, s);
        SpaciousFits(l, s);
      }
    } else {
      var s := ReachOverrun(l, d, most, ZeroBlock());
      assert Reachable(l, d, s) && s.most == most;
    }
  }

  /** With operations that may log all they reserve, a log area longer than LOGSIZE is needed;
      the one mkfs makes, LOGSIZE blocks, does for operations that leave a block of it unused. */
  lemma RoomNeeded(l: Layout, most: nat)
    requires 2 <= l.size && 0 < most <= MAXOPBLOCKS
    ensures most == MAXOPBLOCKS ==> (Spacious(l, most) <==> l.size > LOGSIZE)
    ensures l.size == LOGSIZE ==> (Spacious(l, most) <==> most < MAXOPBLOCKS)
  {
  }

  // ---- what an overrun does ----

  /** In every reachable state a crash recovers exactly the committed transactions. */
  ghost predicate AlwaysRecovers(l: Layout, d: Disk, most: nat) {
    forall s :: Reachable(l, d, s) && s.most == most ==>
      HeaderFits(l, s.disk) && HomeEq(l, Recover(l, s.disk), Replay(Recover(l, d), s.committed))
  }

  function Other(x: Block): (y: Block)
    ensures y != x
  {
    x[0 := x[0] + 1]
  }

  /** The last copy goes past the log area, over a home block, before anything is committed. */
  lemma OverrunClobbers(l: Layout, d: Disk, most: nat) returns (t: State)
    requires HeaderOk(l, d) && most <= MAXOPBLOCKS && !Spacious(l, most)
    ensures Reachable(l, d, t) && t.most == most && t.committed == [] && LogEmpty(l, t.disk)
    ensures Read(t.disk, l.start + l.size) != Read(Recover(l, d), l.start + l.size)
  {
    var b := l.start + l.size;
    var x := Other(Read(Recover(l, d), b));
    var s := ReachOverrun(l, d, most, x);
    var c := ReachCommitting(l, d, s, most);
    t := CommitTo(l, d, c, l.size);
    CommitPrefix(l, c.disk, c.lh, c.phase.data, l.size);
    var ws := LogPart(l, c.phase.data);
    assert ws[..l.size] == ws && ws[l.size - 1] == Write(b, x);
    ApplyLast(c.disk, ws, l.size - 1);
    ApplyElsewhere(c.disk, ws, l.start);
    RecoverAtomic(l, d, 0);
    assert RecoverWrites(l, d)[..0] == [];
  }

  lemma ReachCommitting(l: Layout, d: Disk, s: State, most: nat) returns (c: State)
    requires 1 <= l.size && Level(l, d, s, most, 2, l.size)
    ensures Reachable(l, d, c) && c.most == most && c.committed == [] && c.lh == s.lh && |c.lh| <= LOGSIZE
    ensures c.phase.Committing? && c.phase.k == 0 && c.disk == c.phase.d0 == Recover(l, d)
    ensures Pinned(s) && c.phase.data == Cached(s)
  {
    ListFits(l, d, s);
    ReachStep(l, d, s, EndOp(1));
    var a := Do(l, s, EndOp(1));
    assert a.ops == [s.ops[0]];
    ListFits(l, d, a);
    ReachStep(l, d, a, EndOp(0));
    c := Do(l, a, EndOp(0));
    assert Cached(a) == Cached(s);
  }

  /** Durability, exactly: it holds for every run and every crash if and only if the log area is
      spacious. */
  lemma RecoversIff(l: Layout, d: Disk, most: nat)
    requires HeaderOk(l, d) && most <= MAXOPBLOCKS
    ensures AlwaysRecovers(l, d, most) <==> Spacious(l, most)
  {
    if Spacious(l, most) {
      forall s | Reachable(l, d, s) && s.most == most
        ensures HeaderFits(l, s.disk) && HomeEq(l, Recover(l, s.disk), Replay(Recover(l, d), s.committed))
      {
        CrashRecoversCommitted(l, d, s);
      }
    } else {
      var t := OverrunClobbers(l, d, most);
      RecoverEmpty(l, t.disk);
      var b := l.start + l.size;
      assert !InLog(l, b) && Replay(Recover(l, d), []) == Recover(l, d);
      assert Read(Recover(l, t.disk), b) == Read(t.disk, b);
    }
  }
}
