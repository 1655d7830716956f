/** sleep and wakeup of proc.c for any condition. Any number of processes share a value that
    they read and write holding a spinlock lk; each may wait for a condition of its own on it,
    all on one channel. Every point where lk or ptable.lock changes hands is a step. */
module SleepWakeup {
  /** Where a process is. The comment says what it does next. */
  datatype Pc =
    | Idle                    // may ask for lk, or call wakeup
    | Want                    // acquire(lk)
    | Inside                  // reads and writes the value; may sleep, call wakeup, release(lk)
    | Sleep1                  // sleep: acquire(&ptable.lock)
    | Sleep2                  // release(lk)
    | Sleep3                  // state = SLEEPING; sched()
    | Asleep                  // nothing, until woken
    | Runnable                // nothing, until dispatched
    | Back                    // release(&ptable.lock)
    | Retake                  // acquire(lk)
    | Wake1(locked: bool)     // wakeup, with or without lk: acquire(&ptable.lock)
    | Wake2(locked: bool)     // wakeup1
    | Wake3(locked: bool)     // release(&ptable.lock)

  datatype Owner = Free | Scheduler | Process(p: int)

  /** `owes` are the processes that made some condition true and have not called wakeup since. */
  datatype State<V> = State(value: V, lk: Owner, pt: Owner, pc: map<int, Pc>, owes: set<int>)

  datatype Step<V> =
    | Enter(p: int)           // asks for lk
    | Set(p: int, v: V)       // changes the value
    | Sleep(p: int)           // finds its condition false and calls sleep
    | Wakeup(p: int)          // calls wakeup
    | Leave(p: int)           // releases lk
    | Go(p: int)              // runs on inside sleep, wakeup or acquire
    | Take                    // the scheduler acquires ptable.lock
    | Drop                    // and releases it
    | Dispatch(p: int)        // or hands it to a process it switches to
    | Kill(p: int)            // kill wakes a sleeper

  predicate HoldsLk(c: Pc) {
    match c
    case Inside | Sleep1 | Sleep2 => true
    case Wake1(locked) => locked
    case Wake2(locked) => locked
    case Wake3(locked) => locked
    case _ => false
  }

  predicate HoldsPt(c: Pc) {
    c == Sleep2 || c == Sleep3 || c == Back || c.Wake2? || c.Wake3?
  }

  /** Asleep, or past the point of no return on the way there. */
  predicate GoneToSleep(c: Pc) {
    c == Sleep3 || c == Asleep
  }

  predicate CanGo<V>(s: State<V>, p: int)
    requires p in s.pc
  {
    match s.pc[p]
    case Idle | Inside | Asleep | Runnable => false
    case Want | Retake => s.lk == Free
    case Sleep1 => s.pt == Free
    case Wake1(_) => s.pt == Free
    case _ => true
  }

  /** A process may sleep only on a condition it has just found false, and not with a wakeup
      still to be made. */
  predicate Enabled<V>(ready: (int, V) -> bool, s: State<V>, e: Step<V>) {
    match e
    case Enter(p) => p in s.pc && s.pc[p] == Idle
    case Set(p, _) => p in s.pc && s.pc[p] == Inside
    case Sleep(p) => p in s.pc && s.pc[p] == Inside && !ready(p, s.value) && p !in s.owes
    case Wakeup(p) => p in s.pc && (s.pc[p] == Inside || s.pc[p] == Idle)
    case Leave(p) => p in s.pc && s.pc[p] == Inside
    case Go(p) => p in s.pc && CanGo(s, p)
    case Take => s.pt == Free
    case Drop => s.pt == Scheduler
    case Dispatch(p) => s.pt == Scheduler && p in s.pc && s.pc[p] == Runnable
    case Kill(p) => s.pt == Free && p in s.pc && s.pc[p] == Asleep
  }

  function WakeSleepers(pc: map<int, Pc>): map<int, Pc> {
    map p | p in pc :: if pc[p] == Asleep then Runnable else pc[p]
  }

  /** The change makes somebody's condition true. */
  ghost predicate Helps<V>(ready: (int, V) -> bool, v: V, w: V) {
    exists p :: !ready(p, v) && ready(p, w)
  }

  function Next<V>(s: State<V>, p: int): State<V>
    requires p in s.pc && CanGo(s, p)
  {
    match s.pc[p]
    case Want | Retake => s.(lk := Process(p), pc := s.pc[p := Inside])
    case Sleep1 => s.(pt := Process(p), pc := s.pc[p := Sleep2])
    case Sleep2 => s.(lk := Free, pc := s.pc[p := Sleep3])
    case Sleep3 => s.(pt := Scheduler, pc := s.pc[p := Asleep])
    case Back => s.(pt := Free, pc := s.pc[p := Retake])
    case Wake1(locked) => s.(pt := Process(p), pc := s.pc[p := Wake2(locked)])
    case Wake2(locked) => s.(pc := WakeSleepers(s.pc)[p := Wake3(locked)], owes := s.owes - {p})
    case Wake3(locked) => s.(pt := Free, pc := s.pc[p := if locked then Inside else Idle])
  }

  ghost function Do<V>(ready: (int, V) -> bool, s: State<V>, e: Step<V>): State<V>
    requires Enabled(ready, s, e)
  {
    match e
    case Enter(p) => s.(pc := s.pc[p := Want])
    case Set(p, v) => s.(value := v, owes := if Helps(ready, s.value, v) then s.owes + {p} else s.owes)
    case Sleep(p) => s.(pc := s.pc[p := Sleep1])
    case Wakeup(p) => s.(pc := s.pc[p := Wake1(s.pc[p] == Inside)])
    case Leave(p) => s.(lk := Free, pc := s.pc[p := Idle])
    case Go(p) => Next(s, p)
    case Take => s.(pt := Scheduler)
    case Drop => s.(pt := Free)
    case Dispatch(p) => s.(pt := Process(p), pc := s.pc[p := Back])
    case Kill(p) => s.(pc := s.pc[p := Runnable])
  }

  // ---- the invariant ----

  ghost predicate LkHeld<V>(s: State<V>) {
    && s.lk != Scheduler && (s.lk.Process? ==> s.lk.p in s.pc)
    && forall p :: p in s.pc ==> (HoldsLk(s.pc[p]) <==> s.lk == Process(p))
  }

  ghost predicate PtHeld<V>(s: State<V>) {
    && (s.pt.Process? ==> s.pt.p in s.pc)
    && forall p :: p in s.pc ==> (HoldsPt(s.pc[p]) <==> s.pt == Process(p))
  }

  /** Whoever owes a wakeup is awake, and not on the way to sleep. */
  ghost predicate DebtorsAwake<V>(s: State<V>) {
    forall p :: p in s.owes ==> p in s.pc && (s.pc[p] in {Idle, Want, Inside} || s.pc[p].Wake1? || s.pc[p].Wake2?)
  }

  ghost predicate NobodyForgotten<V>(ready: (int, V) -> bool, s: State<V>) {
    forall p :: p in s.pc && ready(p, s.value) ==>
      && s.pc[p] != Sleep1 && s.pc[p] != Sleep2
      && (GoneToSleep(s.pc[p]) ==> s.owes != {})
  }

  ghost predicate Inv<V>(ready: (int, V) -> bool, s: State<V>) {
    LkHeld(s) && PtHeld(s) && DebtorsAwake(s) && NobodyForgotten(ready, s)
  }

  ghost predicate Initial<V>(s: State<V>) {
    s.lk == Free && s.pt == Free && s.owes == {} && forall p :: p in s.pc ==> s.pc[p] == Idle
  }

  lemma GoKeepsLocks<V>(s: State<V>, p: int)
    requires LkHeld(s) && PtHeld(s) && p in s.pc && CanGo(s, p)
    ensures LkHeld(Next(s, p)) && PtHeld(Next(s, p))
  {
  }

  lemma GoForgetsNobody<V>(ready: (int, V) -> bool, s: State<V>, p: int)
    requires Inv(ready, s) && p in s.pc && CanGo(s, p)
    ensures DebtorsAwake(Next(s, p)) && NobodyForgotten(ready, Next(s, p))
  {
  }

  lemma SetForgetsNobody<V>(ready: (int, V) -> bool, s: State<V>, p: int, v: V)
    requires Inv(ready, s) && p in s.pc && s.pc[p] == Inside
    ensures Inv(ready, Do(ready, s, Set(p, v)))
  {
    var r := Do(ready, s, Set(p, v));
    forall q | q in r.pc && ready(q, r.value)
      ensures r.pc[q] != Sleep1 && r.pc[q] != Sleep2 && (GoneToSleep(r.pc[q]) ==> r.owes != {})
    {
      if GoneToSleep(r.pc[q]) {
        if ready(q, s.value) {
          assert s.owes != {};
        } else {
          assert p in r.owes;
        }
      }
    }
  }

  lemma StepKeepsInv<V>(ready: (int, V) -> bool, s: State<V>, e: Step<V>)
    requires Inv(ready, s) && Enabled(ready, s, e)
    ensures Inv(ready, Do(ready, s, e))
  {
    if e.Go? {
      GoKeepsLocks(s, e.p);
      GoForgetsNobody(ready, s, e.p);
    } else if e.Set? {
      SetForgetsNobody(ready, s, e.p, e.v);
    }
  }

  // ---- runs ----

  ghost predicate IsRun<V>(ready: (int, V) -> bool, s: State<V>, es: seq<Step<V>>)
    decreases |es|
  {
    es == [] || (Enabled(ready, s, es[0]) && IsRun(ready, Do(ready, s, es[0]), es[1..]))
  }

  ghost function Run<V>(ready: (int, V) -> bool, s: State<V>, es: seq<Step<V>>): State<V>
    requires IsRun(ready, s, es)
    decreases |es|
  {
    if es == [] then s else Run(ready, Do(ready, s, es[0]), es[1..])
  }

  lemma {:induction false} RunKeepsInv<V>(ready: (int, V) -> bool, s: State<V>, es: seq<Step<V>>)
    requires Inv(ready, s) && IsRun(ready, s, es)
    ensures Inv(ready, Run(ready, s, es))
    decreases |es|
  {
    if es != [] {
      StepKeepsInv(ready, s, es[0]);
      RunKeepsInv(ready, Do(ready, s, es[0]), es[1..]);
    }
  }

  lemma {:induction false} RunConcat<V>(ready: (int, V) -> bool, s: State<V>, a: seq<Step<V>>, b: seq<Step<V>>)
    requires IsRun(ready, s, a) && IsRun(ready, Run(ready, s, a), b)
    ensures IsRun(ready, s, a + b) && Run(ready, s, a + b) == Run(ready, Run(ready, s, a), b)
    decreases |a|
  {
    if a == [] {
      assert a + b == b;
    } else {
      assert (a + b)[1..] == a[1..] + b;
      RunConcat(ready, Do(ready, s, a[0]), a[1..], b);
    }
  }

  /** No lost wakeup. In every run, whatever the conditions and whoever changes the value, a
      process that sleeps, or is about to, has its condition false, unless a wakeup is still
      owed; and then it is owed by somebody who is awake. */
  lemma {:induction false} NoLostWakeup<V>(ready: (int, V) -> bool, s: State<V>, es: seq<Step<V>>, p: int)
    requires Initial(s) && IsRun(ready, s, es)
    requires p in Run(ready, s, es).pc && GoneToSleep(Run(ready, s, es).pc[p]) && ready(p, Run(ready, s, es).value)
    ensures Run(ready, s, es).owes != {}
    ensures forall q :: q in Run(ready, s, es).owes ==>
              q in Run(ready, s, es).pc && !GoneToSleep(Run(ready, s, es).pc[q])
  {
    RunKeepsInv(ready, s, es);
  }

  /** And a wakeup pays: when it is done nobody sleeps any more. */
  lemma {:induction false} WakeupWakes<V>(ready: (int, V) -> bool, s: State<V>, es: seq<Step<V>>, p: int, q: int)
    requires Initial(s) && IsRun(ready, s, es) && p in Run(ready, s, es).pc && Run(ready, s, es).pc[p].Wake2?
    requires q in Run(ready, s, es).pc
    ensures !GoneToSleep(Next(Run(ready, s, es), p).pc[q]) && p !in Next(Run(ready, s, es), p).owes
  {
    RunKeepsInv(ready, s, es);
  }
}
