/** One round of proc.c's two-priority scheduler. Between swtch into a process and back, that
    process and the other processors may leave any table behind: env(k) is the table as it
    stands after the k-th switch. */
module Scheduling {
  import opened ProcTable

  type Env = nat -> Table

  /** The slot switched to, and the table at that moment. */
  datatype Pick = Pick(p: int, t: Table)

  datatype Scan = Scan(picks: seq<Pick>, t: Table, k: nat, pnormal: int)

  predicate Ready(t: Table, i: int) {
    0 <= i < |t| && t[i].state == RUNNABLE
  }

  predicate ReadyHigh(t: Table, i: int) {
    Ready(t, i) && t[i].prio == HIGH
  }

  ghost predicate AnyHigh(t: Table) {
    exists i :: ReadyHigh(t, i)
  }

  ghost predicate AnyReady(t: Table) {
    exists i :: Ready(t, i)
  }

  /** Slots do not come and go. */
  ghost predicate EnvOk(env: Env, n: nat) {
    forall k: nat :: |env(k)| == n
  }

  /** The first loop, from slot i on. */
  ghost function Pass1(t: Table, i: nat, k: nat, pnormal: int, env: Env, n: nat): (r: Scan)
    requires |t| == n && EnvOk(env, n) && i <= n
    ensures |r.t| == n && (-1 <= pnormal < n ==> -1 <= r.pnormal < n)
    decreases n - i
  {
    if i == n then Scan([], t, k, pnormal)
    else if !Ready(t, i) then Pass1(t, i + 1, k, pnormal, env, n)
    else if t[i].prio == HIGH then
      var rest := Pass1(env(k), i + 1, k + 1, pnormal, env, n);
      rest.(picks := [Pick(i, t)] + rest.picks)
    else Pass1(t, i + 1, k, if pnormal == -1 then i else pnormal, env, n)
  }

  /** The second loop, from slot i on. */
  ghost function Pass2(t: Table, i: nat, k: nat, env: Env, n: nat): Scan
    requires |t| == n && EnvOk(env, n) && i <= n
    decreases n - i
  {
    if i == n then Scan([], t, k, -1)
    else if !Ready(t, i) then Pass2(t, i + 1, k, env, n)
    else
      var rest := Pass2(env(k), i + 1, k + 1, env, n);
      rest.(picks := [Pick(i, t)] + rest.picks)
  }

  /** A round, the body of the scheduler's for (;;). */
  ghost function Round(t: Table, env: Env, n: nat): (r: seq<Pick>)
    requires |t| == n && EnvOk(env, n)
  {
    var one := Pass1(t, 0, 0, -1, env, n);
    if one.picks == [] && one.pnormal != -1 then Pass2(one.t, one.pnormal, one.k, env, n).picks else one.picks
  }

  // ---- the loops ----

  /** The scheduler's two loops compute the round. */
  method RunRound(start: Table, env: Env) returns (t: Table, picks: seq<Pick>)
    requires EnvOk(env, |start|)
    ensures picks == Round(start, env, |start|) && |t| == |start|
  {
    var nalta, pnormal, k: nat, p := 0, -1, 0, 0;
    t, picks := start, [];
    ghost var one := Pass1(start, 0, 0, -1, env, |start|);
    while p < |t|
      invariant 0 <= p <= |t| == |start| && nalta == |picks| && -1 <= pnormal < |t|
      invariant var rest := Pass1(t, p, k, pnormal, env, |start|); one == rest.(picks := picks + rest.picks)
    {
      if t[p].state == RUNNABLE {
        if t[p].prio == HIGH {
          nalta := nalta + 1;
          picks := picks + [Pick(p, t)];
          t, k := env(k), k + 1;
        } else if pnormal == -1 {
          pnormal := p;
        }
      }
      p := p + 1;
    }
    if nalta == 0 && pnormal != -1 {
      t, picks := RunSecond(t, pnormal, k, env);
    }
  }

  method RunSecond(start: Table, pnormal: int, k0: nat, env: Env) returns (t: Table, picks: seq<Pick>)
    requires EnvOk(env, |start|) && 0 <= pnormal < |start|
    ensures picks == Pass2(start, pnormal, k0, env, |start|).picks && |t| == |start|
  {
    var p, k := pnormal, k0;
    t, picks := start, [];
    ghost var two := Pass2(start, pnormal, k0, env, |start|).picks;
    while p < |t|
      invariant pnormal <= p <= |t| == |start|
      invariant two == picks + Pass2(t, p, k, env, |start|).picks
    {
      if t[p].state == RUNNABLE {
        picks := picks + [Pick(p, t)];
        t, k := env(k), k + 1;
      }
      p := p + 1;
    }
  }

  // ---- what a round does ----

  ghost predicate Ascending(picks: seq<Pick>, from: int, n: int) {
    && (forall j :: 0 <= j < |picks| ==> from <= picks[j].p && |picks[j].t| == n && Ready(picks[j].t, picks[j].p))
    && (forall j, l :: 0 <= j < l < |picks| ==> picks[j].p < picks[l].p)
  }

  lemma {:induction false} PicksFit(picks: seq<Pick>, from: int, n: int)
    requires Ascending(picks, from, n) && from <= n
    ensures |picks| <= n - from
    decreases |picks|
  {
    if picks != [] {
      PicksFit(picks[1..], picks[0].p + 1, n);
    }
  }

  lemma {:induction false} Pass1Picks(t: Table, i: nat, k: nat, pnormal: int, env: Env, n: nat)
    requires |t| == n && EnvOk(env, n) && i <= n
    ensures Ascending(Pass1(t, i, k, pnormal, env, n).picks, i, n)
    ensures forall j :: 0 <= j < |Pass1(t, i, k, pnormal, env, n).picks| ==>
              ReadyHigh(Pass1(t, i, k, pnormal, env, n).picks[j].t, Pass1(t, i, k, pnormal, env, n).picks[j].p)
    decreases n - i
  {
    if i < n {
      if !Ready(t, i) {
        Pass1Picks(t, i + 1, k, pnormal, env, n);
      } else if t[i].prio == HIGH {
        Pass1Picks(env(k), i + 1, k + 1, pnormal, env, n);
      } else {
        Pass1Picks(t, i + 1, k, if pnormal == -1 then i else pnormal, env, n);
      }
    }
  }

  lemma {:induction false} Pass2Picks(t: Table, i: nat, k: nat, env: Env, n: nat)
    requires |t| == n && EnvOk(env, n) && i <= n
    ensures Ascending(Pass2(t, i, k, env, n).picks, i, n)
    decreases n - i
  {
    if i < n {
      if !Ready(t, i) {
        Pass2Picks(t, i + 1, k, env, n);
      } else {
        Pass2Picks(env(k), i + 1, k + 1, env, n);
      }
    }
  }

  /** With a high-priority process ready from slot i on, the first loop switches to the first
      such; with none it leaves everything alone and finds the first ready process. */
  lemma {:induction false} Pass1First(t: Table, i: nat, k: nat, pnormal: int, env: Env, n: nat)
    requires |t| == n && EnvOk(env, n) && i <= n && -1 <= pnormal < i
    ensures var r := Pass1(t, i, k, pnormal, env, n);
            if exists j :: i <= j && ReadyHigh(t, j) then
              && r.picks != [] && r.picks[0].t == t
              && forall j :: i <= j < r.picks[0].p ==> !ReadyHigh(t, j)
            else
              && r.picks == [] && r.t == t && r.k == k
              && (pnormal != -1 ==> r.pnormal == pnormal)
              && (pnormal == -1 ==> FirstReady(t, i, r.pnormal))
    decreases n - i
  {
    if i < n {
      if ReadyHigh(t, i) {
        assert i <= i;
      } else {
        var pn := if Ready(t, i) && pnormal == -1 then i else pnormal;
        Pass1First(t, i + 1, k, pn, env, n);
        assert (exists j :: i <= j && ReadyHigh(t, j)) <==> exists j :: i + 1 <= j && ReadyHigh(t, j);
      }
    }
  }

  ghost predicate FirstReady(t: Table, i: nat, p: int) {
    if p == -1 then forall j :: i <= j ==> !Ready(t, j)
    else i <= p && Ready(t, p) && forall j :: i <= j < p ==> !Ready(t, j)
  }

  /** Each slot runs at most once in a round, and only when ready; a round that runs any
      high-priority process first runs only those. */
  lemma {:induction false} RoundPicks(t: Table, env: Env, n: nat)
    requires |t| == n && EnvOk(env, n)
    ensures Ascending(Round(t, env, n), 0, n)
    ensures AnyHigh(t) ==> forall j :: 0 <= j < |Round(t, env, n)| ==>
              ReadyHigh(Round(t, env, n)[j].t, Round(t, env, n)[j].p)
  {
    Pass1Picks(t, 0, 0, -1, env, n);
    Pass1First(t, 0, 0, -1, env, n);
    var one := Pass1(t, 0, 0, -1, env, n);
    if one.picks == [] && one.pnormal != -1 {
      Pass2Picks(one.t, one.pnormal, one.k, env, n);
    }
  }

  /** A round runs somebody exactly when somebody is ready. The first it runs is the first
      ready high-priority process, and if there is none the first ready process. */
  lemma {:induction false} FirstPick(t: Table, env: Env, n: nat)
    requires |t| == n && EnvOk(env, n)
    ensures Round(t, env, n) != [] <==> AnyReady(t)
    ensures AnyReady(t) ==>
              && Round(t, env, n)[0].t == t
              && (AnyHigh(t) ==> forall j :: 0 <= j < Round(t, env, n)[0].p ==> !ReadyHigh(t, j))
              && (!AnyHigh(t) ==> FirstReady(t, 0, Round(t, env, n)[0].p))
  {
    Pass1First(t, 0, 0, -1, env, n);
    var one := Pass1(t, 0, 0, -1, env, n);
    if AnyHigh(t) {
      var i :| ReadyHigh(t, i);
      assert Ready(t, i);
    } else {
      assert one.picks == [] && FirstReady(t, 0, one.pnormal);
      if one.pnormal != -1 {
        assert Ready(t, one.pnormal);
      }
    }
  }

  // ---- nobody ready is passed over ----

  lemma {:induction false} Pass1Serves(t: Table, i: nat, k: nat, pnormal: int, env: Env, n: nat, p: int)
      returns (j: int)
    requires |t| == n && EnvOk(env, n) && i <= p < n
    requires ReadyHigh(t, p) && forall l: nat :: ReadyHigh(env(l), p)
    ensures 0 <= j < |Pass1(t, i, k, pnormal, env, n).picks| && Pass1(t, i, k, pnormal, env, n).picks[j].p == p
    decreases n - i
  {
    if !Ready(t, i) {
      j := Pass1Serves(t, i + 1, k, pnormal, env, n, p);
    } else if t[i].prio != HIGH {
      j := Pass1Serves(t, i + 1, k, if pnormal == -1 then i else pnormal, env, n, p);
    } else if i == p {
      j := 0;
    } else {
      j := Pass1Serves(env(k), i + 1, k + 1, pnormal, env, n, p);
      j := j + 1;
    }
  }

  lemma {:induction false} Pass2Serves(t: Table, i: nat, k: nat, env: Env, n: nat, p: int) returns (j: int)
    requires |t| == n && EnvOk(env, n) && i <= p < n
    requires Ready(t, p) && forall l: nat :: Ready(env(l), p)
    ensures 0 <= j < |Pass2(t, i, k, env, n).picks| && Pass2(t, i, k, env, n).picks[j].p == p
    decreases n - i
  {
    if !Ready(t, i) {
      j := Pass2Serves(t, i + 1, k, env, n, p);
    } else if i == p {
      j := 0;
    } else {
      j := Pass2Serves(env(k), i + 1, k + 1, env, n, p);
      j := j + 1;
    }
  }

  /** A process that stays ready with high priority runs in the very next round. */
  lemma {:induction false} HighServed(t: Table, env: Env, n: nat, p: int) returns (j: int)
    requires |t| == n && EnvOk(env, n)
    requires ReadyHigh(t, p) && forall l: nat :: ReadyHigh(env(l), p)
    ensures 0 <= j < |Round(t, env, n)| && Round(t, env, n)[j].p == p
  {
    j := Pass1Serves(t, 0, 0, -1, env, n, p);
  }

  /** So does any process that stays ready, if no high-priority one is ready at the start. */
  lemma {:induction false} NormalServed(t: Table, env: Env, n: nat, p: int) returns (j: int)
    requires |t| == n && EnvOk(env, n) && !AnyHigh(t)
    requires Ready(t, p) && forall l: nat :: Ready(env(l), p)
    ensures 0 <= j < |Round(t, env, n)| && Round(t, env, n)[j].p == p
  {
    Pass1First(t, 0, 0, -1, env, n);
    var one := Pass1(t, 0, 0, -1, env, n);
    assert FirstReady(t, 0, one.pnormal);
    j := Pass2Serves(one.t, one.pnormal, one.k, env, n, p);
  }

  // ---- does a normal process run only when no high-priority one is ready? ----

  /** What the comment above scheduler() promises: the highest priority that is ready runs. */
  ghost predicate HighFirst(picks: seq<Pick>) {
    forall j :: 0 <= j < |picks| ==> ReadyHigh(picks[j].t, picks[j].p) || !AnyHigh(picks[j].t)
  }

  /** Somebody ready has high priority, or nobody is ready below the last slot. */
  ghost predicate SafeStart(t: Table) {
    AnyHigh(t) || forall i :: Ready(t, i) ==> i == |t| - 1
  }

  /** From a safe start the promise holds, whatever happens during the switches. */
  lemma {:induction false} SafeStartKeepsPromise(t: Table, env: Env, n: nat)
    requires |t| == n && EnvOk(env, n) && SafeStart(t)
    ensures HighFirst(Round(t, env, n))
  {
    RoundPicks(t, env, n);
    FirstPick(t, env, n);
    var picks := Round(t, env, n);
    if !AnyHigh(t) && picks != [] {
      assert picks[0].p == n - 1;
      PicksFit(picks, n - 1, n);
    }
  }

  /** While slot p ran it took high priority and yielded, and the process in the next slot,
      woken or just forked by p, is ready with normal priority. */
  function Upset(t: Table, p: int, nextpid: int): (r: Table)
    requires 0 <= p && p + 1 < |t|
    ensures |r| == |t|
  {
    var next := if Alive(t[p + 1]) then t[p + 1].(state := RUNNABLE, prio := NORMAL)
                else Proc(RUNNABLE, NORMAL, nextpid, 0, p, NoChan, false);
    t[p := t[p].(state := RUNNABLE, prio := HIGH)][p + 1 := next]
  }

  lemma UpsetFrame(t: Table, p: int, nextpid: int)
    requires 0 <= p && p + 1 < |t| && Alive(t[p])
    ensures var r := Upset(t, p, nextpid);
            && (forall j :: 0 <= j < |t| && j != p && j != p + 1 ==> r[j] == t[j])
            && r[p] == t[p].(state := RUNNABLE, prio := HIGH)
            && r[p + 1] == if Alive(t[p + 1]) then t[p + 1].(state := RUNNABLE, prio := NORMAL)
                           else Proc(RUNNABLE, NORMAL, nextpid, 0, p, NoChan, false)
  {
  }

  lemma UpsetAdopted(t: Table, r: Table, p: int, init: int, nextpid: int)
    requires 0 <= p && p + 1 < |t| && Alive(t[p]) && Adopted(t, init) && r == Upset(t, p, nextpid)
    ensures Adopted(r, init)
  {
    UpsetFrame(t, p, nextpid);
    forall j | 0 <= j < |r| && j != init && (Alive(r[j]) || r[j].state == ZOMBIE)
      ensures HasLiveParent(r, j) && r[j].parent != j
    {
      if j != p + 1 || Alive(t[j]) {
        assert HasLiveParent(t, j) && r[j].parent == t[j].parent;
      }
    }
  }

  lemma UpsetPids(t: Table, r: Table, p: int, nextpid: int)
    requires 0 <= p && p + 1 < |t| && Alive(t[p]) && PidsUnique(t, nextpid) && r == Upset(t, p, nextpid)
    ensures PidsUnique(r, nextpid + 1)
  {
    UpsetFrame(t, p, nextpid);
    assert 0 < t[p].pid < nextpid;
    forall i | 0 <= i < |t| && r[i].state != UNUSED
      ensures (i == p + 1 && r[i].pid == nextpid) || (t[i].state != UNUSED && r[i].pid == t[i].pid)
    {
    }
  }

  lemma UpsetMissesNone(t: Table, r: Table, p: int, nextpid: int)
    requires 0 <= p && p + 1 < |t| && Alive(t[p]) && NoMissedChild(t) && r == Upset(t, p, nextpid)
    ensures NoMissedChild(r)
  {
    UpsetFrame(t, p, nextpid);
    forall j | 0 <= j < |r| && r[j].state == ZOMBIE
      ensures !AsleepInWait(r, r[j].parent)
    {
      assert t[j].state == ZOMBIE && !AsleepInWait(t, t[j].parent);
    }
  }

  /** The kernel can have that table. */
  lemma UpsetKeepsInv(t: Table, p: int, init: int, nextpid: int)
    requires 0 <= p && p + 1 < |t| && Alive(t[p]) && Inv(t, init, nextpid)
    ensures Inv(Upset(t, p, nextpid), init, nextpid + 1)
  {
    var r := Upset(t, p, nextpid);
    UpsetMissesNone(t, r, p, nextpid);
    UpsetAdopted(t, r, p, init, nextpid);
    UpsetPids(t, r, p, nextpid);
  }

  /** From any other start it can be broken: the first normal process comes back with high
      priority and ready, and the second loop goes on to the next slot. */
  lemma {:induction false} UnsafeStartBreaksPromise(t: Table, n: nat, init: int, nextpid: int) returns (env: Env)
    requires |t| == n && !SafeStart(t)
    ensures EnvOk(env, n) && !HighFirst(Round(t, env, n))
    ensures Inv(t, init, nextpid) ==> forall k: nat :: Inv(env(k), init, nextpid + 1)
  {
    var q :| Ready(t, q) && q != n - 1;
    var p := LeastReady(t, q);
    var after := Upset(t, p, nextpid);
    env := k => after;
    if Inv(t, init, nextpid) {
      UpsetKeepsInv(t, p, init, nextpid);
    }
    Pass1First(t, 0, 0, -1, env, n);
    var one := Pass1(t, 0, 0, -1, env, n);
    assert one.picks == [] && FirstReady(t, 0, one.pnormal) && one.pnormal == p;
    assert Pass2(t, p, 0, env, n).picks == [Pick(p, t)] + Pass2(after, p + 1, 1, env, n).picks;
    assert Pass2(after, p + 1, 1, env, n).picks[0] == Pick(p + 1, after);
    assert Round(t, env, n)[1] == Pick(p + 1, after);
    assert ReadyHigh(after, p);
  }

  lemma LeastReady(t: Table, q: int) returns (p: int)
    requires Ready(t, q)
    ensures FirstReady(t, 0, p) && 0 <= p <= q
  {
    p := 0;
    while !Ready(t, p)
      invariant 0 <= p <= q && forall j :: 0 <= j < p ==> !Ready(t, j)
      decreases q - p
    {
      p := p + 1;
    }
  }
}
