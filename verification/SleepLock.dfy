/** sleeplock.c over proc.c's sleep and wakeup: any number of processes interleave at every
    point where one of the two spinlocks, lk->lk and ptable.lock, is taken or dropped. Each
    step is one or two of SleepWakeup's, with the condition that the lock is not taken. */
module SleepLocks {
  import W = SleepWakeup

  /** Where a process is. The comment says what it does next. */
  datatype Pc =
    | Idle        // may call acquiresleep
    | Want        // acquire(&lk->lk)
    | Test        // while (lk->locked)
    | Sleep1      // sleep: acquire(&ptable.lock)
    | Sleep2      // release(lk)
    | Sleep3      // state = SLEEPING; sched()
    | Asleep      // nothing, until woken
    | Runnable    // nothing, until dispatched
    | Back        // release(&ptable.lock)
    | Retake      // acquire(lk)
    | Took        // release(&lk->lk)
    | Holding     // may call releasesleep
    | Rel0        // acquire(&lk->lk)
    | Rel1        // lk->locked = 0
    | Rel2        // wakeup: acquire(&ptable.lock)
    | Rel3        // wakeup1
    | Rel4        // release(&ptable.lock)
    | Rel5        // release(&lk->lk)

  /** Took the sleep lock, gave it back. */
  datatype Event = Got(p: int) | Gave(p: int)

  datatype State = State(
    locked: bool, pid: int,          // the sleep lock
    lk: W.Owner, pt: W.Owner,            // the two spinlocks
    pc: map<int, Pc>,
    events: seq<Event>)

  datatype Step =
    | Start(p: int)                  // calls acquiresleep
    | Finish(p: int)                 // calls releasesleep
    | Go(p: int)                     // a process runs on
    | Take                           // the scheduler acquires ptable.lock
    | Drop                           // and releases it
    | Dispatch(p: int)               // or hands it to a process it switches to
    | Kill(p: int)                   // kill wakes a sleeper

  predicate HoldsLk(c: Pc) {
    c in {Test, Sleep1, Sleep2, Took, Rel1, Rel2, Rel3, Rel4, Rel5}
  }

  predicate HoldsPt(c: Pc) {
    c in {Sleep2, Sleep3, Back, Rel3, Rel4}
  }

  /** The process has the sleep lock. */
  predicate Owns(c: Pc) {
    c in {Took, Holding, Rel0, Rel1}
  }

  /** The process has a next statement, and no spinlock it needs for it is taken. */
  predicate CanGo(s: State, p: int)
    requires p in s.pc
  {
    match s.pc[p]
    case Idle | Asleep | Runnable | Holding => false
    case Want | Retake | Rel0 => s.lk == W.Free
    case Sleep1 | Rel2 => s.pt == W.Free
    case _ => true
  }

  predicate Enabled(s: State, e: Step) {
    match e
    case Start(p) => p in s.pc && s.pc[p] == Idle
    case Finish(p) => p in s.pc && s.pc[p] == Holding
    case Go(p) => p in s.pc && CanGo(s, p)
    case Take => s.pt == W.Free
    case Drop => s.pt == W.Scheduler
    case Dispatch(p) => s.pt == W.Scheduler && p in s.pc && s.pc[p] == Runnable
    case Kill(p) => s.pt == W.Free && p in s.pc && s.pc[p] == Asleep
  }

  function WakeSleepers(pc: map<int, Pc>): map<int, Pc> {
    map p | p in pc :: if pc[p] == Asleep then Runnable else pc[p]
  }

  function Next(s: State, p: int): State
    requires p in s.pc && CanGo(s, p)
  {
    match s.pc[p]
    case Want | Retake => s.(lk := W.Process(p), pc := s.pc[p := Test])
    case Test =>
      if s.locked then s.(pc := s.pc[p := Sleep1])
      else s.(locked := true, pid := p, pc := s.pc[p := Took], events := s.events + [Got(p)])
    case Sleep1 => s.(pt := W.Process(p), pc := s.pc[p := Sleep2])
    case Sleep2 => s.(lk := W.Free, pc := s.pc[p := Sleep3])
    case Sleep3 => s.(pt := W.Scheduler, pc := s.pc[p := Asleep])
    case Back => s.(pt := W.Free, pc := s.pc[p := Retake])
    case Took => s.(lk := W.Free, pc := s.pc[p := Holding])
    case Rel0 => s.(lk := W.Process(p), pc := s.pc[p := Rel1])
    case Rel1 => s.(locked := false, pid := 0, pc := s.pc[p := Rel2], events := s.events + [Gave(p)])
    case Rel2 => s.(pt := W.Process(p), pc := s.pc[p := Rel3])
    case Rel3 => s.(pc := WakeSleepers(s.pc)[p := Rel4])
    case Rel4 => s.(pt := W.Free, pc := s.pc[p := Rel5])
    case Rel5 => s.(lk := W.Free, pc := s.pc[p := Idle])
  }

  function Do(s: State, e: Step): State
    requires Enabled(s, e)
  {
    match e
    case Start(p) => s.(pc := s.pc[p := Want])
    case Finish(p) => s.(pc := s.pc[p := Rel0])
    case Go(p) => Next(s, p)
    case Take => s.(pt := W.Scheduler)
    case Drop => s.(pt := W.Free)
    case Dispatch(p) => s.(pt := W.Process(p), pc := s.pc[p := Back])
    case Kill(p) => s.(pc := s.pc[p := Runnable])
  }

  // ---- the invariant, process by process ----

  ghost predicate LkHeld(s: State) {
    forall p :: p in s.pc ==> (HoldsLk(s.pc[p]) <==> s.lk == W.Process(p))
  }

  ghost predicate PtHeld(s: State) {
    forall p :: p in s.pc ==> (HoldsPt(s.pc[p]) <==> s.pt == W.Process(p))
  }

  ghost predicate OwnerKnown(s: State) {
    && (s.lk.Process? ==> s.lk.p in s.pc)
    && (s.pt.Process? ==> s.pt.p in s.pc)
    && s.lk != W.Scheduler
    && (s.locked ==> s.pid in s.pc)
  }

  ghost predicate OneOwner(s: State) {
    forall p :: p in s.pc ==> (Owns(s.pc[p]) <==> s.locked && s.pid == p)
  }

  predicate InTurn(events: seq<Event>, i: int)
    requires 0 <= i < |events|
  {
    if i % 2 == 0 then events[i].Got? else events[i].Gave? && events[i].p == events[i - 1].p
  }

  /** Got and Gave alternate, each Gave by the last to have Got it. */
  ghost predicate Alternates(events: seq<Event>) {
    forall i :: 0 <= i < |events| ==> InTurn(events, i)
  }

  ghost predicate LogMatches(s: State) {
    && Alternates(s.events)
    && (s.locked <==> |s.events| % 2 == 1)
    && (s.locked ==> s.events[|s.events| - 1].p == s.pid)
  }

  ghost predicate Inv(s: State) {
    OwnerKnown(s) && LkHeld(s) && PtHeld(s) && OneOwner(s) && LogMatches(s)
  }

  ghost predicate Initial(s: State) {
    && !s.locked && s.lk == W.Free && s.pt == W.Free && s.events == []
    && forall p :: p in s.pc ==> s.pc[p] == Idle
  }

  lemma GoKeepsSpinlocks(s: State, p: int)
    requires Inv(s) && p in s.pc && CanGo(s, p)
    ensures OwnerKnown(Next(s, p)) && LkHeld(Next(s, p)) && PtHeld(Next(s, p)) && Next(s, p).pc.Keys == s.pc.Keys
  {
  }

  lemma GoKeepsOneOwner(s: State, p: int)
    requires Inv(s) && p in s.pc && CanGo(s, p)
    ensures OneOwner(Next(s, p))
  {
  }

  lemma AlternatesSnoc(events: seq<Event>, e: Event)
    requires Alternates(events)
    requires if |events| % 2 == 0 then e.Got? else e == Gave(events[|events| - 1].p)
    ensures Alternates(events + [e])
  {
    var r := events + [e];
    forall i | 0 <= i < |r|
      ensures InTurn(r, i)
    {
      assert i < |events| ==> InTurn(events, i);
    }
  }

  lemma GoKeepsLog(s: State, p: int)
    requires Inv(s) && p in s.pc && CanGo(s, p)
    ensures LogMatches(Next(s, p))
  {
    if s.pc[p] == Rel1 {
      AlternatesSnoc(s.events, Gave(p));
    } else if s.pc[p] == Test && !s.locked {
      AlternatesSnoc(s.events, Got(p));
    }
  }

  lemma GoKeepsInv(s: State, p: int)
    requires Inv(s) && p in s.pc && CanGo(s, p)
    ensures Inv(Next(s, p)) && Next(s, p).pc.Keys == s.pc.Keys
  {
    GoKeepsSpinlocks(s, p);
    GoKeepsOneOwner(s, p);
    GoKeepsLog(s, p);
  }

  lemma StepKeepsInv(s: State, e: Step)
    requires Inv(s) && Enabled(s, e)
    ensures Inv(Do(s, e)) && Do(s, e).pc.Keys == s.pc.Keys
  {
    if e.Go? {
      GoKeepsInv(s, e.p);
    }
  }

  // ---- runs ----

  ghost predicate IsRun(s: State, es: seq<Step>)
    decreases |es|
  {
    es == [] || (Enabled(s, es[0]) && IsRun(Do(s, es[0]), es[1..]))
  }

  ghost function Run(s: State, es: seq<Step>): State
    requires IsRun(s, es)
    decreases |es|
  {
    if es == [] then s else Run(Do(s, es[0]), es[1..])
  }

  lemma {:induction false} RunKeepsInv(s: State, es: seq<Step>)
    requires Inv(s) && IsRun(s, es)
    ensures Inv(Run(s, es))
    decreases |es|
  {
    if es != [] {
      StepKeepsInv(s, es[0]);
      RunKeepsInv(Do(s, es[0]), es[1..]);
    }
  }

  /** At most one process is between acquiresleep's return and releasesleep. */
  lemma {:induction false} MutualExclusion(s: State, es: seq<Step>, p: int, q: int)
    requires Initial(s) && IsRun(s, es)
    requires p in Run(s, es).pc && q in Run(s, es).pc && Owns(Run(s, es).pc[p]) && Owns(Run(s, es).pc[q])
    ensures p == q
  {
    RunKeepsInv(s, es);
  }

  // ---- every run is a run of sleep and wakeup ----

  predicate Unlocked(p: int, locked: bool) {
    !locked
  }

  function AbsPc(c: Pc): W.Pc {
    match c
    case Idle | Holding => W.Idle
    case Want | Rel0 => W.Want
    case Test | Took | Rel1 | Rel5 => W.Inside
    case Sleep1 => W.Sleep1
    case Sleep2 => W.Sleep2
    case Sleep3 => W.Sleep3
    case Asleep => W.Asleep
    case Runnable => W.Runnable
    case Back => W.Back
    case Retake => W.Retake
    case Rel2 => W.Wake1(true)
    case Rel3 => W.Wake2(true)
    case Rel4 => W.Wake3(true)
  }

  /** The lock seen as a value with waiters; a release owes its wakeup until wakeup1 is done. */
  function Abs(s: State): W.State<bool> {
    W.State(s.locked, s.lk, s.pt, AbsPcs(s.pc), Debtors(s.pc))
  }

  function AbsPcs(pc: map<int, Pc>): map<int, W.Pc> {
    map p | p in pc :: AbsPc(pc[p])
  }

  function Debtors(pc: map<int, Pc>): set<int> {
    set p | p in pc && (pc[p] == Rel2 || pc[p] == Rel3)
  }

  lemma PcMoves(pc: map<int, Pc>, p: int, c: Pc)
    requires p in pc
    ensures AbsPcs(pc[p := c]) == AbsPcs(pc)[p := AbsPc(c)]
    ensures Debtors(pc[p := c]) == if c == Rel2 || c == Rel3 then Debtors(pc) + {p} else Debtors(pc) - {p}
  {
  }

  lemma PcsWake(pc: map<int, Pc>)
    ensures AbsPcs(WakeSleepers(pc)) == W.WakeSleepers(AbsPcs(pc)) && Debtors(WakeSleepers(pc)) == Debtors(pc)
  {
    var a, b := AbsPcs(WakeSleepers(pc)), W.WakeSleepers(AbsPcs(pc));
    forall p | p in pc
      ensures a[p] == b[p]
    {
      assert AbsPc(pc[p]) == W.Asleep <==> pc[p] == Asleep;
    }
    assert a.Keys == pc.Keys == b.Keys;
  }

  lemma NoDebtors(pc: map<int, Pc>)
    requires forall p :: p in pc ==> pc[p] == Idle
    ensures Debtors(pc) == {}
  {
    if Debtors(pc) != {} {
      var p := Member(Debtors(pc));
    }
  }

  lemma Member<T>(a: set<T>) returns (x: T)
    requires a != {}
    ensures x in a
  {
    x :| x in a;
  }

  function StepsOf(s: State, e: Step): seq<W.Step<bool>>
    requires Enabled(s, e)
  {
    match e
    case Start(p) => [W.Enter(p)]
    case Finish(p) => [W.Enter(p)]
    case Take => [W.Take]
    case Drop => [W.Drop]
    case Dispatch(p) => [W.Dispatch(p)]
    case Kill(p) => [W.Kill(p)]
    case Go(p) =>
      match s.pc[p]
      case Test => if s.locked then [W.Sleep(p)] else [W.Set(p, true)]
      case Took | Rel5 => [W.Leave(p)]
      case Rel1 => [W.Set(p, false), W.Wakeup(p)]
      case _ => [W.Go(p)]
  }

  lemma OneStep(a: W.State<bool>, e: W.Step<bool>)
    requires W.Enabled(Unlocked, a, e)
    ensures W.IsRun(Unlocked, a, [e]) && W.Run(Unlocked, a, [e]) == W.Do(Unlocked, a, e)
  {
    assert W.IsRun(Unlocked, W.Do(Unlocked, a, e), []);
  }

  lemma ReleaseSimulates(s: State, p: int)
    requires Inv(s) && p in s.pc && s.pc[p] == Rel1
    ensures W.IsRun(Unlocked, Abs(s), StepsOf(s, Go(p)))
              && W.Run(Unlocked, Abs(s), StepsOf(s, Go(p))) == Abs(Next(s, p))
  {
    var a := Abs(s);
    assert !Unlocked(p, true) && Unlocked(p, false);
    var b := W.Do(Unlocked, a, W.Set(p, false));
    OneStep(a, W.Set(p, false));
    OneStep(b, W.Wakeup(p));
    W.RunConcat(Unlocked, a, [W.Set(p, false)], [W.Wakeup(p)]);
    assert [W.Set(p, false)] + [W.Wakeup(p)] == [W.Set(p, false), W.Wakeup(p)];
    PcMoves(s.pc, p, Rel2);
  }

  lemma WakeSimulates(s: State, p: int)
    requires p in s.pc && s.pc[p] == Rel3
    ensures W.Next(Abs(s), p) == Abs(Next(s, p))
  {
    PcsWake(s.pc);
    PcMoves(WakeSleepers(s.pc), p, Rel4);
  }

  lemma TestSimulates(s: State, p: int)
    requires p in s.pc && s.pc[p] == Test
    ensures W.Enabled(Unlocked, Abs(s), StepsOf(s, Go(p))[0])
    ensures W.Do(Unlocked, Abs(s), StepsOf(s, Go(p))[0]) == Abs(Next(s, p))
  {
    assert p !in Debtors(s.pc);
    PcMoves(s.pc, p, Next(s, p).pc[p]);
  }

  /** Steps that take or drop lk->lk. */
  lemma LkSimulates(s: State, p: int)
    requires p in s.pc && CanGo(s, p) && s.pc[p] in {Want, Retake, Rel0, Sleep2}
    ensures W.CanGo(Abs(s), p) && W.Next(Abs(s), p) == Abs(Next(s, p))
  {
    assert p !in Debtors(s.pc);
    PcMoves(s.pc, p, Next(s, p).pc[p]);
  }

  /** Steps that take or drop ptable.lock. */
  lemma PtSimulates(s: State, p: int)
    requires p in s.pc && CanGo(s, p) && s.pc[p] in {Sleep1, Sleep3, Back, Rel2, Rel4}
    ensures W.CanGo(Abs(s), p) && W.Next(Abs(s), p) == Abs(Next(s, p))
  {
    assert p in Debtors(s.pc) <==> s.pc[p] == Rel2;
    PcMoves(s.pc, p, Next(s, p).pc[p]);
  }

  lemma GoSimulates(s: State, p: int)
    requires p in s.pc && CanGo(s, p) && s.pc[p] != Rel1
    ensures W.Enabled(Unlocked, Abs(s), StepsOf(s, Go(p))[0]) && |StepsOf(s, Go(p))| == 1
    ensures W.Do(Unlocked, Abs(s), StepsOf(s, Go(p))[0]) == Abs(Next(s, p))
  {
    match s.pc[p]
    case Test => TestSimulates(s, p);
    case Rel3 => WakeSimulates(s, p);
    case Took | Rel5 =>
      assert p !in Debtors(s.pc);
      PcMoves(s.pc, p, Next(s, p).pc[p]);
    case Want | Retake | Rel0 | Sleep2 => LkSimulates(s, p);
    case _ => PtSimulates(s, p);
  }

  lemma OtherSimulates(s: State, e: Step)
    requires Inv(s) && Enabled(s, e) && !e.Go?
    ensures |StepsOf(s, e)| == 1 && W.Enabled(Unlocked, Abs(s), StepsOf(s, e)[0])
    ensures W.Do(Unlocked, Abs(s), StepsOf(s, e)[0]) == Abs(Do(s, e))
  {
    if e.Start? || e.Finish? || e.Dispatch? || e.Kill? {
      PcMoves(s.pc, e.p, Do(s, e).pc[e.p]);
      assert e.p !in Debtors(s.pc);
    }
  }

  lemma StepSimulates(s: State, e: Step)
    requires Inv(s) && Enabled(s, e)
    ensures W.IsRun(Unlocked, Abs(s), StepsOf(s, e)) && W.Run(Unlocked, Abs(s), StepsOf(s, e)) == Abs(Do(s, e))
  {
    if e.Go? && s.pc[e.p] == Rel1 {
      ReleaseSimulates(s, e.p);
    } else {
      var w := StepsOf(s, e)[0];
      if e.Go? {
        GoSimulates(s, e.p);
      } else {
        OtherSimulates(s, e);
      }
      OneStep(Abs(s), w);
      assert StepsOf(s, e) == [w];
    }
  }

  /** A run of acquiresleep and releasesleep is a run of sleep and wakeup. */
  lemma {:induction false} RunSimulates(s: State, es: seq<Step>) returns (ws: seq<W.Step<bool>>)
    requires Inv(s) && IsRun(s, es)
    ensures W.IsRun(Unlocked, Abs(s), ws) && W.Run(Unlocked, Abs(s), ws) == Abs(Run(s, es))
    decreases |es|
  {
    if es == [] {
      ws := [];
    } else {
      StepKeepsInv(s, es[0]);
      StepSimulates(s, es[0]);
      ws := RunSimulates(Do(s, es[0]), es[1..]);
      W.RunConcat(Unlocked, Abs(s), StepsOf(s, es[0]), ws);
      ws := StepsOf(s, es[0]) + ws;
    }
  }

  /** Whenever the lock is free and no release is still under way, nobody sleeps on it. */
  lemma {:induction false} NoMissedWakeup(s: State, es: seq<Step>, p: int)
    requires Initial(s) && IsRun(s, es)
    requires !Run(s, es).locked && Run(s, es).lk == W.Free && p in Run(s, es).pc
    ensures Run(s, es).pc[p] != Asleep && Run(s, es).pc[p] != Sleep3
  {
    var t := Run(s, es);
    var ws := RunSimulates(s, es);
    RunKeepsInv(s, es);
    NoDebtors(s.pc);
    if W.GoneToSleep(Abs(t).pc[p]) {
      W.NoLostWakeup(Unlocked, Abs(s), ws, p);
      var q := Member(Abs(t).owes);
      assert HoldsLk(t.pc[q]);
    }
  }

  /** Whatever the interleaving, the lock is taken and given back in turn, by the same process. */
  lemma {:induction false} TakenInTurn(s: State, es: seq<Step>)
    requires Initial(s) && IsRun(s, es)
    ensures Alternates(Run(s, es).events)
  {
    RunKeepsInv(s, es);
  }

  /** Nobody is stuck: while some process is inside acquiresleep or releasesleep or has the
      lock, a process can move or be dispatched, at most after the scheduler takes or drops
      ptable.lock once. */
  lemma {:induction false} NoDeadlock(s: State, es: seq<Step>, p: int) returns (first: seq<Step>, e: Step)
    requires Initial(s) && IsRun(s, es) && p in Run(s, es).pc && Run(s, es).pc[p] != Idle
    ensures first in {[], [Take], [Drop]} && IsRun(Run(s, es), first)
    ensures Enabled(Run(Run(s, es), first), e) && (e.Go? || e.Finish? || e.Dispatch?)
  {
    RunKeepsInv(s, es);
    if Run(s, es).lk == W.Free && !Run(s, es).locked {
      NoMissedWakeup(s, es, p);
    }
    first, e := Mover(Run(s, es), p);
  }

  /** Who moves: the holder of ptable.lock, else the holder of lk->lk, else the process
      itself, else the owner it sleeps for. */
  lemma Mover(s: State, p: int) returns (first: seq<Step>, e: Step)
    requires Inv(s) && p in s.pc && s.pc[p] != Idle && (s.lk == W.Free && !s.locked ==> s.pc[p] != Asleep)
    ensures first in {[], [Take], [Drop]} && IsRun(s, first)
    ensures Enabled(Run(s, first), e) && (e.Go? || e.Finish? || e.Dispatch?)
  {
    if s.pt.Process? {
      return [], Go(s.pt.p);
    }
    if s.pc[p] == Runnable {
      return if s.pt == W.Free then [Take] else [], Dispatch(p);
    }
    first := if s.pt == W.Free then [] else [Drop];
    if s.lk.Process? {
      return first, Go(s.lk.p);
    }
    var q := if s.pc[p] == Asleep then s.pid else p;
    return first, if s.pc[q] == Holding then Finish(q) else Go(q);
  }
}
