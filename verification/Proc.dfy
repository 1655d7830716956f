/** The process table of proc.c. Each method is one stretch of code under ptable.lock,
    so the table between calls is the table as seen with the lock free. */
module ProcTable {
  datatype State = UNUSED | EMBRYO | SLEEPING | RUNNABLE | RUNNING | ZOMBIE
  datatype Prio = NORMAL | HIGH

  /** A sleep channel: the address of a process slot, or anything else. */
  datatype Chan = NoChan | SlotAddr(slot: int) | OtherAddr(addr: int)

  const NOBODY := -1

  datatype Proc = Proc(state: State, prio: Prio, pid: int, ret: int, parent: int, chan: Chan, killed: bool)

  type Table = seq<Proc>

  const EMPTY := Proc(UNUSED, NORMAL, 0, 0, NOBODY, NoChan, false)

  // ---- invariants ----

  predicate IsSlot(t: Table, i: int) {
    0 <= i < |t|
  }

  /** In the kernel on its own behalf: created, and neither exited nor being built. */
  predicate Alive(p: Proc) {
    p.state == SLEEPING || p.state == RUNNABLE || p.state == RUNNING
  }

  predicate AsleepInWait(t: Table, i: int) {
    IsSlot(t, i) && t[i].state == SLEEPING && t[i].chan == SlotAddr(i)
  }

  /** A parent asleep in wait() has nothing to collect. */
  ghost predicate NoMissedChild(t: Table) {
    forall j :: 0 <= j < |t| && t[j].state == ZOMBIE ==> !AsleepInWait(t, t[j].parent)
  }

  predicate HasLiveParent(t: Table, j: int)
    requires 0 <= j < |t|
  {
    IsSlot(t, t[j].parent) && Alive(t[t[j].parent])
  }

  /** Every process but init has a parent that is alive and can wait for it. */
  ghost predicate Adopted(t: Table, init: int) {
    && IsSlot(t, init) && Alive(t[init])
    && (forall j :: 0 <= j < |t| && j != init && (Alive(t[j]) || t[j].state == ZOMBIE) ==>
         HasLiveParent(t, j) && t[j].parent != j)
    && (forall j :: 0 <= j < |t| && (t[j].state == UNUSED || t[j].state == EMBRYO) ==> t[j].parent == NOBODY)
  }

  ghost predicate PidsUnique(t: Table, nextpid: int) {
    && (forall i :: 0 <= i < |t| && t[i].state != UNUSED ==> 0 < t[i].pid < nextpid)
    && (forall i, j :: 0 <= i < j < |t| && t[i].state != UNUSED && t[j].state != UNUSED ==> t[i].pid != t[j].pid)
  }

  lemma PidsSame(t: Table, r: Table, nextpid: int)
    requires PidsUnique(t, nextpid) && |r| == |t|
    requires forall i :: 0 <= i < |t| ==> r[i].pid == t[i].pid && (r[i].state == UNUSED <==> t[i].state == UNUSED)
    ensures PidsUnique(r, nextpid)
  {
  }

  ghost predicate Inv(t: Table, init: int, nextpid: int) {
    NoMissedChild(t) && Adopted(t, init) && PidsUnique(t, nextpid)
  }

  // ---- wakeup ----

  function Wake(p: Proc, chan: Chan): Proc {
    if p.state == SLEEPING && p.chan == chan then p.(state := RUNNABLE) else p
  }

  function WakeAll(t: Table, chan: Chan): (r: Table)
    ensures |r| == |t|
  {
    seq(|t|, i requires 0 <= i < |t| => Wake(t[i], chan))
  }

  /** r is t with some sleepers made runnable; nothing else differs but `killed`. */
  ghost predicate WokenSome(t: Table, r: Table) {
    && |r| == |t|
    && forall i :: 0 <= i < |t| ==>
         r[i] == t[i].(state := r[i].state, killed := r[i].killed)
             && (r[i].state == t[i].state || (t[i].state == SLEEPING && r[i].state == RUNNABLE))
  }

  lemma WakeAllWakes(t: Table, chan: Chan)
    ensures WokenSome(t, WakeAll(t, chan))
    ensures forall i :: 0 <= i < |t| ==> !(WakeAll(t, chan)[i].state == SLEEPING && WakeAll(t, chan)[i].chan == chan)
  {
  }

  lemma WokenNoMissedChild(t: Table, r: Table)
    requires NoMissedChild(t) && WokenSome(t, r)
    ensures NoMissedChild(r)
  {
    forall j | 0 <= j < |r| && r[j].state == ZOMBIE
      ensures !AsleepInWait(r, r[j].parent)
    {
      assert t[j].state == ZOMBIE && !AsleepInWait(t, t[j].parent);
    }
  }

  lemma WokenAdopted(t: Table, r: Table, init: int)
    requires Adopted(t, init) && WokenSome(t, r)
    ensures Adopted(r, init)
  {
    forall j | 0 <= j < |r| && j != init && (Alive(r[j]) || r[j].state == ZOMBIE)
      ensures HasLiveParent(r, j) && r[j].parent != j
    {
      assert r[j].parent == t[j].parent && HasLiveParent(t, j);
    }
  }

  /** Waking sleepers, whichever they are, never breaks the table. */
  lemma WokenKeeps(t: Table, r: Table, init: int, nextpid: int)
    requires Inv(t, init, nextpid) && WokenSome(t, r)
    ensures Inv(r, init, nextpid)
  {
    WokenNoMissedChild(t, r);
    WokenAdopted(t, r, init);
    PidsSame(t, r, nextpid);
  }

  // ---- exit ----

  ghost predicate HasZombieChild(t: Table, i: int) {
    exists j :: 0 <= j < |t| && t[j].parent == i && t[j].state == ZOMBIE
  }

  ghost predicate HasChild(t: Table, i: int) {
    exists j :: 0 <= j < |t| && t[j].parent == i
  }

  /** The slot of a process asleep in wait. */
  function InWait(t: Table, i: int): Proc
    requires IsSlot(t, i)
  {
    t[i].(state := SLEEPING, chan := SlotAddr(i))
  }

  function Reparent(p: Proc, from: int, to: int): Proc {
    if p.parent == from then p.(parent := to) else p
  }

  /** What exit makes of another slot: its parent is woken, its children go to init, and
      init is woken if one of them is already a zombie. */
  ghost function AfterExit(t: Table, init: int, cur: int, i: int): Proc
    requires IsSlot(t, cur) && IsSlot(t, i)
  {
    var p := Wake(t[i], SlotAddr(t[cur].parent));
    Reparent(if HasZombieChild(t, cur) then Wake(p, SlotAddr(init)) else p, cur, init)
  }

  /** The table after exit; the process itself is a zombie. */
  ghost predicate Exited(t: Table, r: Table, init: int, cur: int, status: int)
    requires IsSlot(t, cur)
  {
    && |r| == |t|
    && r[cur] == t[cur].(state := ZOMBIE, ret := status)
    && forall i :: 0 <= i < |t| && i != cur ==> r[i] == AfterExit(t, init, cur, i)
  }

  /** exit only wakes and reparents the others. */
  lemma AfterExitFacts(t: Table, init: int, cur: int, i: int)
    requires IsSlot(t, cur) && IsSlot(t, i)
    ensures var p := AfterExit(t, init, cur, i);
            && (Alive(p) <==> Alive(t[i])) && (!Alive(t[i]) ==> p.state == t[i].state)
            && p.parent == (if t[i].parent == cur then init else t[i].parent)
            && p.pid == t[i].pid && p.ret == t[i].ret
  {
  }

  lemma ExitLeavesNoMissedChild(t: Table, r: Table, init: int, cur: int, status: int)
    requires NoMissedChild(t) && IsSlot(t, cur) && IsSlot(t, init)
    requires Exited(t, r, init, cur, status)
    ensures NoMissedChild(r)
  {
    forall j | 0 <= j < |r| && r[j].state == ZOMBIE
      ensures !AsleepInWait(r, r[j].parent)
    {
      var i := r[j].parent;
      if IsSlot(r, i) && i != cur {
        assert r[i] == AfterExit(t, init, cur, i);
        if j != cur {
          assert r[j] == AfterExit(t, init, cur, j);
          assert t[j].state == ZOMBIE && !AsleepInWait(t, t[j].parent);
          if t[j].parent == cur { assert HasZombieChild(t, cur); }
        }
      }
    }
  }

  lemma ExitKeepsAdoption(t: Table, r: Table, init: int, cur: int, status: int)
    requires Adopted(t, init) && IsSlot(t, cur) && cur != init && t[cur].state == RUNNING
    requires Exited(t, r, init, cur, status)
    ensures Adopted(r, init)
  {
    AfterExitFacts(t, init, cur, init);
    forall j | 0 <= j < |r| && j != init && (Alive(r[j]) || r[j].state == ZOMBIE)
      ensures HasLiveParent(r, j) && r[j].parent != j
    {
      AfterExitFacts(t, init, cur, j);
      ParentAfterExit(t, r, init, cur, status, j);
    }
    forall j | 0 <= j < |r| && (r[j].state == UNUSED || r[j].state == EMBRYO)
      ensures r[j].parent == NOBODY
    {
      AfterExitFacts(t, init, cur, j);
    }
  }

  lemma ParentAfterExit(t: Table, r: Table, init: int, cur: int, status: int, j: int)
    requires IsSlot(t, cur) && IsSlot(t, init) && Alive(t[init]) && cur != init && Exited(t, r, init, cur, status)
    requires IsSlot(t, j) && j != init && HasLiveParent(t, j) && t[j].parent != j
    ensures HasLiveParent(r, j) && r[j].parent != j
  {
    var i := t[j].parent;
    AfterExitFacts(t, init, cur, init);
    AfterExitFacts(t, init, cur, j);
    AfterExitFacts(t, init, cur, i);
  }

  lemma ExitKeeps(t: Table, r: Table, init: int, nextpid: int, cur: int, status: int)
    requires Inv(t, init, nextpid) && IsSlot(t, cur) && t[cur].state == RUNNING && cur != init
    requires Exited(t, r, init, cur, status)
    ensures Inv(r, init, nextpid)
  {
    ExitLeavesNoMissedChild(t, r, init, cur, status);
    ExitKeepsAdoption(t, r, init, cur, status);
    forall i | 0 <= i < |t|
      ensures r[i].pid == t[i].pid && (r[i].state == UNUSED <==> t[i].state == UNUSED)
    {
      AfterExitFacts(t, init, cur, i);
    }
    PidsSame(t, r, nextpid);
  }

  // ---- one slot at a time ----

  /** Giving one slot a new record keeps the table if the new record is as sound as the old. */
  lemma SlotChangeKeeps(t: Table, init: int, nextpid: int, i: int, p: Proc)
    requires Inv(t, init, nextpid) && IsSlot(t, i) && p.pid == t[i].pid && (p.state == UNUSED <==> t[i].state == UNUSED)
    requires Alive(t[i]) && Alive(p) && p.parent == t[i].parent
    requires p.state == SLEEPING && p.chan == SlotAddr(i) ==> forall j :: 0 <= j < |t| && t[j].state == ZOMBIE ==>
              t[j].parent != i
    ensures Inv(t[i := p], init, nextpid)
  {
    var r := t[i := p];
    PidsSame(t, r, nextpid);
    forall j | 0 <= j < |r| && r[j].state == ZOMBIE
      ensures !AsleepInWait(r, r[j].parent)
    {
      assert !AsleepInWait(t, t[j].parent);
    }
    forall j | 0 <= j < |r| && j != init && (Alive(r[j]) || r[j].state == ZOMBIE)
      ensures HasLiveParent(r, j) && r[j].parent != j
    {
      assert HasLiveParent(t, j);
    }
  }

  lemma NewProcKeeps(t: Table, init: int, nextpid: int, i: int, p: Proc)
    requires Inv(t, init, nextpid) && IsSlot(t, i) && t[i].state == UNUSED
    requires p.state == EMBRYO && p.pid == nextpid && p.parent == NOBODY && nextpid > 0
    ensures Inv(t[i := p], init, nextpid + 1)
  {
    var r := t[i := p];
    forall j | 0 <= j < |r| && r[j].state == ZOMBIE
      ensures !AsleepInWait(r, r[j].parent)
    {
      assert !AsleepInWait(t, t[j].parent);
    }
    forall j | 0 <= j < |r| && j != init && (Alive(r[j]) || r[j].state == ZOMBIE)
      ensures HasLiveParent(r, j) && r[j].parent != j
    {
      assert HasLiveParent(t, j);
    }
  }

  /** An embryo starts to run, with a live parent, or is given up. */
  lemma EmbryoKeeps(t: Table, init: int, nextpid: int, i: int, p: Proc)
    requires Inv(t, init, nextpid) && IsSlot(t, i) && t[i].state == EMBRYO && p.pid == t[i].pid
    requires (p.state == UNUSED && p.parent == NOBODY)
              || (p.state == RUNNABLE && IsSlot(t, p.parent) && Alive(t[p.parent]) && p.parent != i)
    ensures Inv(t[i := p], init, nextpid)
  {
    var r := t[i := p];
    forall j | 0 <= j < |r| && r[j].state == ZOMBIE
      ensures !AsleepInWait(r, r[j].parent)
    {
      assert !AsleepInWait(t, t[j].parent);
    }
    forall j | 0 <= j < |r| && j != init && (Alive(r[j]) || r[j].state == ZOMBIE)
      ensures HasLiveParent(r, j) && r[j].parent != j
    {
      if j != i { assert HasLiveParent(t, j); }
    }
  }

  lemma ReapKeeps(t: Table, init: int, nextpid: int, i: int)
    requires Inv(t, init, nextpid) && IsSlot(t, i) && t[i].state == ZOMBIE
    ensures Inv(t[i := Reaped(t[i])], init, nextpid)
  {
    var r := t[i := Reaped(t[i])];
    forall j | 0 <= j < |r| && r[j].state == ZOMBIE
      ensures !AsleepInWait(r, r[j].parent)
    {
      assert !AsleepInWait(t, t[j].parent);
    }
    forall j | 0 <= j < |r| && j != init && (Alive(r[j]) || r[j].state == ZOMBIE)
      ensures HasLiveParent(r, j) && r[j].parent != j
    {
      assert HasLiveParent(t, j);
    }
  }

  function Reaped(p: Proc): Proc {
    p.(state := UNUSED, pid := 0, parent := NOBODY, killed := false)
  }

  // ---- exit statuses ----

  /** `exited` records each exit, `reaped` each status handed to a parent: what is not yet
      reaped sits in exactly one zombie slot, `where` saying which. */
  ghost predicate StatusesKept(t: Table, nextpid: int, exited: map<int, int>, reaped: map<int, int>,
                               where: map<int, int>) {
    && (forall pid :: pid in exited ==> 0 < pid < nextpid)
    && (forall pid :: pid in reaped ==> pid in exited && reaped[pid] == exited[pid])
    && (forall pid :: pid in exited && pid !in reaped ==>
          pid in where && IsSlot(t, where[pid]) && t[where[pid]].state == ZOMBIE && t[where[pid]].pid == pid
              && t[where[pid]].ret == exited[pid])
    && (forall i :: 0 <= i < |t| && t[i].state == ZOMBIE ==> t[i].pid in exited && t[i].pid !in reaped)
    && (forall i :: 0 <= i < |t| && (Alive(t[i]) || t[i].state == EMBRYO) ==> t[i].pid !in exited)
  }

  /** Whatever leaves the zombies alone and lets nobody exit leaves the statuses alone. */
  lemma StatusesSame(t: Table, r: Table, nextpid: int, exited: map<int, int>, reaped: map<int, int>,
                     where: map<int, int>)
    requires StatusesKept(t, nextpid, exited, reaped, where) && |r| == |t|
    requires forall i :: 0 <= i < |t| ==> (r[i].state == ZOMBIE <==> t[i].state == ZOMBIE)
    requires forall i :: 0 <= i < |t| ==> r[i].pid == t[i].pid && r[i].ret == t[i].ret
    requires forall i :: 0 <= i < |t| && (Alive(r[i]) || r[i].state == EMBRYO) ==> Alive(t[i]) || t[i].state == EMBRYO
    ensures StatusesKept(r, nextpid, exited, reaped, where)
  {
  }

  lemma StatusesNew(t: Table, nextpid: int, exited: map<int, int>, reaped: map<int, int>, where: map<int, int>, i: int,
      p: Proc)
    requires StatusesKept(t, nextpid, exited, reaped, where) && IsSlot(t, i) && t[i].state == UNUSED
    requires p.state == EMBRYO && p.pid == nextpid
    ensures StatusesKept(t[i := p], nextpid + 1, exited, reaped, where)
  {
  }

  lemma StatusesExit(t: Table, r: Table, init: int, nextpid: int, cur: int, status: int, exited: map<int, int>,
      reaped: map<int, int>, where: map<int, int>)
    requires StatusesKept(t, nextpid, exited, reaped, where) && PidsUnique(t, nextpid) && IsSlot(t, cur)
              && t[cur].state == RUNNING
    requires Exited(t, r, init, cur, status)
    ensures t[cur].pid !in exited
    ensures StatusesKept(r, nextpid, exited[t[cur].pid := status], reaped, where[t[cur].pid := cur])
  {
    var pid := t[cur].pid;
    forall i | 0 <= i < |t|
      ensures i != cur ==>
                r[i].pid == t[i].pid && r[i].ret == t[i].ret && (r[i].state == ZOMBIE <==> t[i].state == ZOMBIE)
                && (Alive(r[i]) <==> Alive(t[i])) && (r[i].state == EMBRYO <==> t[i].state == EMBRYO)
    {
      AfterExitFacts(t, init, cur, i);
    }
  }

  lemma StatusesReap(t: Table, nextpid: int, exited: map<int, int>, reaped: map<int, int>, where: map<int, int>, i: int)
    requires StatusesKept(t, nextpid, exited, reaped, where) && PidsUnique(t, nextpid) && IsSlot(t, i)
              && t[i].state == ZOMBIE
    ensures t[i].pid in exited && t[i].pid !in reaped && exited[t[i].pid] == t[i].ret
    ensures StatusesKept(t[i := Reaped(t[i])], nextpid, exited, reaped[t[i].pid := t[i].ret], where)
  {
    var pid := t[i].pid;
    assert where[pid] == i;
  }

  predicate IsZombieChild(p: Proc, parent: int, r: WaitResult) {
    p.state == ZOMBIE && p.parent == parent && r == Child(p.pid, p.ret)
  }

  // ---- processors ----

  /** RUNNING processes and busy processors correspond one to one. */
  ghost predicate CpusMatch(t: Table, cpu: seq<int>, on: map<int, int>) {
    && (forall c :: 0 <= c < |cpu| && cpu[c] != NOBODY ==>
          IsSlot(t, cpu[c]) && t[cpu[c]].state == RUNNING && cpu[c] in on && on[cpu[c]] == c)
    && (forall i :: 0 <= i < |t| && t[i].state == RUNNING ==> i in on && 0 <= on[i] < |cpu| && cpu[on[i]] == i)
  }

  lemma CpusSame(t: Table, r: Table, cpu: seq<int>, on: map<int, int>)
    requires CpusMatch(t, cpu, on) && |r| == |t|
    requires forall i :: 0 <= i < |t| ==> (r[i].state == RUNNING <==> t[i].state == RUNNING)
    ensures CpusMatch(r, cpu, on)
  {
  }

  lemma CpuStarts(t: Table, cpu: seq<int>, on: map<int, int>, c: int, i: int, p: Proc)
    requires CpusMatch(t, cpu, on) && 0 <= c < |cpu| && cpu[c] == NOBODY && IsSlot(t, i) && t[i].state != RUNNING
              && p.state == RUNNING
    ensures CpusMatch(t[i := p], cpu[c := i], on[i := c])
  {
  }

  /** The process on processor c stops running, whatever else happens to the table. */
  lemma CpuStops(t: Table, r: Table, cpu: seq<int>, on: map<int, int>, c: int)
    requires CpusMatch(t, cpu, on) && 0 <= c < |cpu| && cpu[c] != NOBODY && |r| == |t|
    requires forall i :: 0 <= i < |t| ==> (r[i].state == RUNNING <==> t[i].state == RUNNING && i != cpu[c])
    ensures CpusMatch(r, cpu[c := NOBODY], on)
  {
    forall d | 0 <= d < |cpu| && cpu[c := NOBODY][d] != NOBODY
      ensures IsSlot(r, cpu[d]) && r[cpu[d]].state == RUNNING && cpu[d] in on && on[cpu[d]] == d
    {
      assert d != c;
    }
  }

  ghost function AbandonedSoFar(t0: Table, init: int, cur: int, j: int, i: int, woken: bool): Proc
    requires IsSlot(t0, cur) && IsSlot(t0, j)
  {
    var p := Wake(t0[j], SlotAddr(t0[cur].parent));
    var q := if woken then Wake(p, SlotAddr(init)) else p;
    if j < i then Reparent(q, cur, init) else q
  }

  /** Who exited with which status, who of them was waited for, and from which slot each exited. */
  datatype Books = Books(exited: map<int, int>, reaped: map<int, int>, where: map<int, int>)

  ghost predicate Sound(t: Table, init: int, nextpid: int, b: Books, cpu: seq<int>, on: map<int, int>) {
    && Inv(t, init, nextpid) && 0 < nextpid
    && StatusesKept(t, nextpid, b.exited, b.reaped, b.where)
    && CpusMatch(t, cpu, on)
  }

  lemma WokenSound(t: Table, r: Table, init: int, nextpid: int, b: Books, cpu: seq<int>, on: map<int, int>)
    requires Sound(t, init, nextpid, b, cpu, on) && WokenSome(t, r)
    ensures Sound(r, init, nextpid, b, cpu, on)
  {
    WokenKeeps(t, r, init, nextpid);
    StatusesSame(t, r, nextpid, b.exited, b.reaped, b.where);
    CpusSame(t, r, cpu, on);
  }

  lemma MarkedWakes(t: Table, i: int)
    requires IsSlot(t, i)
    ensures WokenSome(t, t[i := Marked(t[i])])
  {
  }

  lemma NewProcSound(t: Table, init: int, nextpid: int, b: Books, cpu: seq<int>, on: map<int, int>, i: int)
    requires Sound(t, init, nextpid, b, cpu, on) && IsSlot(t, i) && t[i].state == UNUSED
    ensures Sound(t[i := t[i].(state := EMBRYO, pid := nextpid)], init, nextpid + 1, b, cpu, on)
  {
    var p := t[i].(state := EMBRYO, pid := nextpid);
    NewProcKeeps(t, init, nextpid, i, p);
    StatusesNew(t, nextpid, b.exited, b.reaped, b.where, i, p);
    CpusSame(t, t[i := p], cpu, on);
  }

  lemma EmbryoSound(t: Table, init: int, nextpid: int, b: Books, cpu: seq<int>, on: map<int, int>, i: int, p: Proc)
    requires Sound(t, init, nextpid, b, cpu, on) && IsSlot(t, i) && t[i].state == EMBRYO && p.pid == t[i].pid
              && p.ret == t[i].ret
    requires (p.state == UNUSED && p.parent == NOBODY)
              || (p.state == RUNNABLE && IsSlot(t, p.parent) && Alive(t[p.parent]) && p.parent != i)
    ensures Sound(t[i := p], init, nextpid, b, cpu, on)
  {
    EmbryoKeeps(t, init, nextpid, i, p);
    StatusesSame(t, t[i := p], nextpid, b.exited, b.reaped, b.where);
    CpusSame(t, t[i := p], cpu, on);
  }

  lemma StartSound(t: Table, init: int, nextpid: int, b: Books, cpu: seq<int>, on: map<int, int>, c: int, i: int)
    requires Sound(t, init, nextpid, b, cpu, on) && 0 <= c < |cpu| && cpu[c] == NOBODY && IsSlot(t, i)
              && t[i].state == RUNNABLE
    ensures Sound(t[i := t[i].(state := RUNNING)], init, nextpid, b, cpu[c := i], on[i := c])
  {
    var p := t[i].(state := RUNNING);
    SlotChangeKeeps(t, init, nextpid, i, p);
    CpuStarts(t, cpu, on, c, i, p);
    StatusesSame(t, t[i := p], nextpid, b.exited, b.reaped, b.where);
  }

  lemma StopSound(t: Table, init: int, nextpid: int, b: Books, cpu: seq<int>, on: map<int, int>, c: int, next: State,
      chan: Chan)
    requires Sound(t, init, nextpid, b, cpu, on) && 0 <= c < |cpu| && cpu[c] != NOBODY
              && (next == RUNNABLE || next == SLEEPING)
    requires next == SLEEPING && chan == SlotAddr(cpu[c]) ==> !HasZombieChild(t, cpu[c])
    ensures IsSlot(t, cpu[c])
              && Sound(t[cpu[c] := t[cpu[c]].(state := next, chan := chan)], init, nextpid, b, cpu[c := NOBODY], on)
  {
    var i := cpu[c];
    var p := t[i].(state := next, chan := chan);
    SlotChangeKeeps(t, init, nextpid, i, p);
    StatusesSame(t, t[i := p], nextpid, b.exited, b.reaped, b.where);
    CpuStops(t, t[i := p], cpu, on, c);
  }

  lemma AfterExitSelf(t: Table, init: int, cur: int)
    requires IsSlot(t, cur) && t[cur].state == RUNNING && t[cur].parent != cur
    ensures AfterExit(t, init, cur, cur) == t[cur]
  {
  }

  lemma ExitStops(t: Table, r: Table, init: int, cur: int, status: int)
    requires IsSlot(t, cur) && Exited(t, r, init, cur, status)
    ensures forall i :: 0 <= i < |t| ==> (r[i].state == RUNNING <==> t[i].state == RUNNING && i != cur)
  {
    forall i | 0 <= i < |t| && i != cur
      ensures r[i].state == RUNNING <==> t[i].state == RUNNING
    {
      assert r[i] == AfterExit(t, init, cur, i);
    }
  }

  lemma ExitSound(t: Table, r: Table, init: int, nextpid: int, b: Books, cpu: seq<int>, on: map<int, int>, c: int,
      status: int)
    requires Sound(t, init, nextpid, b, cpu, on) && 0 <= c < |cpu| && IsSlot(t, cpu[c]) && t[cpu[c]].state == RUNNING
              && cpu[c] != init
    requires Exited(t, r, init, cpu[c], status)
    ensures t[cpu[c]].pid !in b.exited
    ensures Sound(r, init, nextpid,
              b.(exited := b.exited[t[cpu[c]].pid := status], where := b.where[t[cpu[c]].pid := cpu[c]]),
              cpu[c := NOBODY], on)
  {
    var cur := cpu[c];
    ExitKeeps(t, r, init, nextpid, cur, status);
    StatusesExit(t, r, init, nextpid, cur, status, b.exited, b.reaped, b.where);
    ExitStops(t, r, init, cur, status);
    CpuStops(t, r, cpu, on, c);
  }

  lemma ReapSound(t: Table, init: int, nextpid: int, b: Books, cpu: seq<int>, on: map<int, int>, i: int)
    requires Sound(t, init, nextpid, b, cpu, on) && IsSlot(t, i) && t[i].state == ZOMBIE
    ensures t[i].pid in b.exited && t[i].pid !in b.reaped && b.exited[t[i].pid] == t[i].ret
    ensures Sound(t[i := Reaped(t[i])], init, nextpid, b.(reaped := b.reaped[t[i].pid := t[i].ret]), cpu, on)
  {
    ReapKeeps(t, init, nextpid, i);
    StatusesReap(t, nextpid, b.exited, b.reaped, b.where, i);
    CpusSame(t, t[i := Reaped(t[i])], cpu, on);
  }

  function Marked(p: Proc): Proc {
    p.(killed := true, state := if p.state == SLEEPING then RUNNABLE else p.state)
  }

  ghost predicate FirstWithPid(t: Table, i: int, pid: int) {
    IsSlot(t, i) && t[i].pid == pid && forall j :: 0 <= j < i ==> t[j].pid != pid
  }

  datatype WaitResult = Child(pid: int, status: int) | NoChild | Blocked

  /** Nobody has been marked in a slot that is not in use. allocproc does not clear the mark, so
      a process given such a slot starts out killed. */
  ghost predicate Unmarked(t: Table) {
    forall i :: 0 <= i < |t| && t[i].state == UNUSED ==> !t[i].killed
  }

  /** kill leaves a mark behind exactly when the first slot with the pid is not in use. */
  lemma KillMarksUnused(t: Table, pid: int, i: int)
    requires Unmarked(t) && FirstWithPid(t, i, pid)
    ensures Unmarked(t[i := Marked(t[i])]) <==> t[i].state != UNUSED
  {
    assert t[i := Marked(t[i])][i].killed;
  }

  /** kill(0) does so whenever it finds a slot at all. */
  lemma KillZero(t: Table, nextpid: int, i: int)
    requires PidsUnique(t, nextpid) && FirstWithPid(t, i, 0)
    ensures t[i].state == UNUSED && Marked(t[i]).killed
  {
  }

  class PTable {
    const init: int                     // initproc
    var t: Table
    var cpu: seq<int>                   // cpus[c].proc
    var nextpid: int
    ghost var on: map<int, int>
    ghost var exited: map<int, int>
    ghost var reaped: map<int, int>
    ghost var where: map<int, int>

    ghost predicate Valid()
      reads this
    {
      Sound(t, init, nextpid, Books(exited, reaped, where), cpu, on)
    }

    /** The table once userinit has made the first process runnable. */
    constructor (nproc: int, ncpu: int)
      requires 0 < nproc && 0 <= ncpu
      ensures Valid() && |t| == nproc && |cpu| == ncpu && exited == map[] && reaped == map[]
    {
      init := 0;
      t := [EMPTY.(state := RUNNABLE, pid := 1)] + seq(nproc - 1, i => EMPTY);
      cpu := seq(ncpu, i => NOBODY);
      nextpid := 2;
      on, exited, reaped, where := map[], map[], map[], map[];
    }

    /** wakeup1: everyone asleep on the channel becomes runnable, and nobody else changes. */
    method Wakeup1(chan: Chan)
      modifies `t
      ensures t == WakeAll(old(t), chan)
    {
      var i := 0;
      while i < |t|
        invariant 0 <= i <= |t| == |old(t)|
        invariant forall j :: 0 <= j < |t| ==> t[j] == if j < i then Wake(old(t)[j], chan) else old(t)[j]
      {
        if t[i].state == SLEEPING && t[i].chan == chan {
          t := t[i := t[i].(state := RUNNABLE)];
        }
        i := i + 1;
      }
    }

    /** wakeup: afterwards nobody is asleep on the channel. */
    method Wakeup(chan: Chan)
      requires Valid()
      modifies `t
      ensures Valid() && t == WakeAll(old(t), chan)
      ensures forall i :: 0 <= i < |t| ==> !(t[i].state == SLEEPING && t[i].chan == chan)
    {
      Wakeup1(chan);
      WakeAllWakes(old(t), chan);
      WokenSound(old(t), t, init, nextpid, Books(exited, reaped, where), cpu, on);
    }

    /** kill's scan: the first slot with the pid, or -1. */
    method FindPid(pid: int) returns (i: int)
      ensures i == -1 ==> forall j :: 0 <= j < |t| ==> t[j].pid != pid
      ensures i != -1 ==> FirstWithPid(t, i, pid)
    {
      i := 0;
      while i < |t|
        invariant 0 <= i <= |t|
        invariant forall j :: 0 <= j < i ==> t[j].pid != pid
      {
        if t[i].pid == pid {
          return;
        }
        i := i + 1;
      }
      i := -1;
    }

    /** kill: the first slot with the pid is marked, and woken if asleep; fails exactly when
        no slot has the pid. */
    method Kill(pid: int) returns (ok: bool)
      requires Valid()
      modifies `t
      ensures Valid()
      ensures !ok ==> t == old(t) && forall i :: 0 <= i < |t| ==> t[i].pid != pid
      ensures ok ==> exists i :: FirstWithPid(old(t), i, pid) && t == old(t)[i := Marked(old(t)[i])]
      ensures old(Unmarked(t)) ==>
                (Unmarked(t) <==> forall i :: FirstWithPid(old(t), i, pid) ==> old(t)[i].state != UNUSED)
    {
      var i := FindPid(pid);
      if i == -1 {
        return false;
      }
      MarkedWakes(t, i);
      if Unmarked(t) { KillMarksUnused(t, pid, i); }
      t := t[i := Marked(t[i])];
      WokenSound(old(t), t, init, nextpid, Books(exited, reaped, where), cpu, on);
      return true;
    }

    /** allocproc's search; -1 when the table is full. */
    method FindUnused() returns (i: int)
      ensures i == -1 ==> forall j :: 0 <= j < |t| ==> t[j].state != UNUSED
      ensures i != -1 ==> IsSlot(t, i) && t[i].state == UNUSED && forall j :: 0 <= j < i ==> t[j].state != UNUSED
    {
      i := 0;
      while i < |t|
        invariant 0 <= i <= |t|
        invariant forall j :: 0 <= j < i ==> t[j].state != UNUSED
      {
        if t[i].state == UNUSED {
          return;
        }
        i := i + 1;
      }
      i := -1;
    }

    /** allocproc: the first unused slot gets a pid nobody has had; fails only on a full table. */
    method Allocproc() returns (i: int)
      requires Valid()
      modifies `t, `nextpid
      ensures Valid()
      ensures i == -1 ==> t == old(t) && nextpid == old(nextpid) && forall j :: 0 <= j < |t| ==> t[j].state != UNUSED
      ensures i != -1 ==> IsSlot(old(t), i) && old(t)[i].state == UNUSED && nextpid == old(nextpid) + 1
      ensures i != -1 ==> forall j :: 0 <= j < i ==> old(t)[j].state != UNUSED
      ensures i != -1 ==> t == old(t)[i := old(t)[i].(state := EMBRYO, pid := old(nextpid))]
      ensures old(Unmarked(t)) ==> Unmarked(t) && (i != -1 ==> !t[i].killed)
    {
      i := FindUnused();
      if i != -1 {
        NewProcSound(t, init, nextpid, Books(exited, reaped, where), cpu, on, i);
        t := t[i := t[i].(state := EMBRYO, pid := nextpid)];
        nextpid := nextpid + 1;
      }
    }

    /** fork's last step: the child, a copy of the caller's priority, becomes runnable.
        `false` is the failure path, which gives the slot back. */
    method FinishFork(i: int, cur: int, copied: bool)
      requires Valid() && IsSlot(t, i) && t[i].state == EMBRYO && IsSlot(t, cur) && t[cur].state == RUNNING
      modifies `t
      ensures Valid()
      ensures t == old(t)[i := if copied then old(t)[i].(state := RUNNABLE, parent := cur, prio := old(t)[cur].prio)
                              else old(t)[i].(state := UNUSED)]
    {
      var p := if copied then t[i].(state := RUNNABLE, parent := cur, prio := t[cur].prio) else t[i].(state := UNUSED);
      EmbryoSound(t, init, nextpid, Books(exited, reaped, where), cpu, on, i, p);
      t := t[i := p];
    }

    /** The scheduler puts a runnable process on its processor. */
    method Dispatch(c: int, i: int)
      requires Valid() && 0 <= c < |cpu| && cpu[c] == NOBODY && IsSlot(t, i) && t[i].state == RUNNABLE
      modifies `t, `cpu, `on
      ensures Valid() && t == old(t)[i := old(t)[i].(state := RUNNING)] && cpu == old(cpu)[c := i]
    {
      StartSound(t, init, nextpid, Books(exited, reaped, where), cpu, on, c, i);
      t := t[i := t[i].(state := RUNNING)];
      cpu := cpu[c := i];
      on := on[i := c];
    }

    /** yield and sleep, through sched back to the scheduler's c->proc = 0. A process may
        sleep on its own slot, as wait does, only with no zombie child. */
    method Stop(c: int, next: State, chan: Chan)
      requires Valid() && 0 <= c < |cpu| && cpu[c] != NOBODY && (next == RUNNABLE || next == SLEEPING)
      requires next == SLEEPING && chan == SlotAddr(cpu[c]) ==> !HasZombieChild(t, cpu[c])
      modifies `t, `cpu
      ensures Valid() && cpu == old(cpu)[c := NOBODY]
      ensures t == old(t)[old(cpu)[c] := old(t)[old(cpu)[c]].(state := next, chan := chan)]
    {
      var i := cpu[c];
      StopSound(t, init, nextpid, Books(exited, reaped, where), cpu, on, c, next, chan);
      t := t[i := t[i].(state := next, chan := chan)];
      cpu := cpu[c := NOBODY];
    }

    /** exit's two wakeups and its loop over the children, before the process itself is marked. */
    method AbandonChildren(cur: int)
      requires IsSlot(t, cur) && IsSlot(t, init) && t[cur].state == RUNNING && t[cur].parent != cur
      modifies `t
      ensures |t| == |old(t)| && forall i :: 0 <= i < |t| ==> t[i] == AfterExit(old(t), init, cur, i)
    {
      Wakeup1(SlotAddr(t[cur].parent));
      ghost var woken := false;
      var i := 0;
      while i < |t|
        invariant 0 <= i <= |t| == |old(t)|
        invariant woken <==> exists j :: 0 <= j < i && old(t)[j].parent == cur && old(t)[j].state == ZOMBIE
        invariant forall j :: 0 <= j < |t| ==> t[j] == AbandonedSoFar(old(t), init, cur, j, i, woken)
      {
        if t[i].parent == cur {
          var zombie := t[i].state == ZOMBIE;
          t := t[i := t[i].(parent := init)];
          if zombie {
            Wakeup1(SlotAddr(init));
            woken := true;
          }
        }
        i := i + 1;
      }
      assert woken <==> HasZombieChild(old(t), cur);
    }

    /** exit, or its panic("init exiting"). */
    method Exit(c: int, status: int) returns (ok: bool)
      requires Valid() && 0 <= c < |cpu| && cpu[c] != NOBODY
      modifies `t, `cpu, `exited, `where
      ensures Valid() && ok == (old(cpu)[c] != init)
      ensures !ok ==> t == old(t) && cpu == old(cpu) && exited == old(exited)
      ensures ok ==> Exited(old(t), t, init, old(cpu)[c], status) && cpu == old(cpu)[c := NOBODY]
      ensures ok ==> old(t)[old(cpu)[c]].pid !in old(exited) && exited == old(exited)[old(t)[old(cpu)[c]].pid := status]
    {
      ok := cpu[c] != init;
      if ok {
        Leave(c, status);
      }
    }

    /** exit: the status is on record, the parent is awake, and no child is left behind. */
    method Leave(c: int, status: int)
      requires Valid() && 0 <= c < |cpu| && cpu[c] != NOBODY && cpu[c] != init
      modifies `t, `cpu, `exited, `where
      ensures Valid() && Exited(old(t), t, init, old(cpu)[c], status) && cpu == old(cpu)[c := NOBODY]
      ensures old(t)[old(cpu)[c]].pid !in old(exited) && exited == old(exited)[old(t)[old(cpu)[c]].pid := status]
    {
      var cur := cpu[c];
      AbandonChildren(cur);
      t := t[cur := t[cur].(state := ZOMBIE, ret := status)];
      AfterExitSelf(old(t), init, cur);
      ExitSound(old(t), t, init, nextpid, Books(exited, reaped, where), cpu, on, c, status);
      exited := exited[t[cur].pid := status];
      where := where[t[cur].pid := cur];
      cpu := cpu[c := NOBODY];
    }

    /** wait's scan: the first zombie child, or -1, and whether there are children at all. */
    method ScanChildren(cur: int) returns (i: int, havekids: bool)
      ensures i == -1 ==> !HasZombieChild(t, cur) && (havekids <==> HasChild(t, cur))
      ensures i != -1 ==> IsSlot(t, i) && t[i].parent == cur && t[i].state == ZOMBIE
    {
      i, havekids := 0, false;
      while i < |t|
        invariant 0 <= i <= |t|
        invariant forall j :: 0 <= j < i ==> !(t[j].parent == cur && t[j].state == ZOMBIE)
        invariant havekids <==> exists j :: 0 <= j < i && t[j].parent == cur
      {
        if t[i].parent == cur {
          havekids := true;
          if t[i].state == ZOMBIE {
            return;
          }
        }
        i := i + 1;
      }
      i := -1;
    }

    /** One pass of wait under the lock. A child's status is handed over once: it was on
        record and not yet reaped. The caller goes to sleep only with children and none of
        them a zombie. */
    method Wait(c: int) returns (r: WaitResult)
      requires Valid() && 0 <= c < |cpu| && cpu[c] != NOBODY
      modifies `t, `cpu, `reaped
      ensures Valid()
      ensures r.Child? ==> && r.pid in old(exited) && r.pid !in old(reaped) && old(exited)[r.pid] == r.status
                           && reaped == old(reaped)[r.pid := r.status] && cpu == old(cpu)
      ensures r.Child? ==>
                exists i :: 0 <= i < |old(t)| && IsZombieChild(old(t)[i], old(cpu)[c], r) &&
                            t == old(t)[i := Reaped(old(t)[i])]
      ensures r.Child? <==> HasZombieChild(old(t), old(cpu)[c])
      ensures r.NoChild? <==>
                !HasZombieChild(old(t), old(cpu)[c]) && (old(t)[old(cpu)[c]].killed || !HasChild(old(t), old(cpu)[c]))
      ensures r.NoChild? ==> t == old(t) && cpu == old(cpu) && reaped == old(reaped)
      ensures r.Blocked? ==> t == old(t)[old(cpu)[c] := InWait(old(t), old(cpu)[c])] && cpu == old(cpu)[c := NOBODY]
      ensures r.Blocked? ==> reaped == old(reaped) && AsleepInWait(t, old(cpu)[c])
    {
      var cur := cpu[c];
      var i, havekids := ScanChildren(cur);
      if i != -1 {
        r := Child(t[i].pid, t[i].ret);
        ReapSound(t, init, nextpid, Books(exited, reaped, where), cpu, on, i);
        reaped := reaped[t[i].pid := t[i].ret];
        t := t[i := Reaped(t[i])];
      } else if !havekids || t[cur].killed {
        r := NoChild;
      } else {
        Stop(c, SLEEPING, SlotAddr(cur));
        r := Blocked;
      }
    }
  }
}
