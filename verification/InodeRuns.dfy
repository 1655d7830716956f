/** Every interleaving of the holders of inodes: iget, ilock, ialloc, changes of the link count, and
    iput cut at its locks. iput tests ip->ref under the inode's lock, frees if it was one, and
    gives its own reference up later, under icache.lock alone. */
module InodeRuns {
  /** What the inode says on disk: allocated (type != 0), and the number of its names. */
  datatype Node = Node(typed: bool, nlink: nat)

  datatype State = State(
    nodes: map<int, Node>,
    refs: multiset<int>,      // ip->ref, as one occurrence per reference
    valid: set<int>,          // ip->valid
    tested: multiset<int>,    // references in iput past the test, or past the freeing, and not yet given up
    freeing: set<int>)        // inodes that an iput has seen ref == 1 on and is freeing

  datatype Step =
    | Get(i: int)               // iget and idup
    | Lock(i: int)              // ilock, up to reading the inode
    | Alloc(i: int)             // ialloc
    | Relink(i: int, n: nat)    // ip->nlink++ or ip->nlink--, and iupdate
    | Test(i: int)              // iput up to the test, and on to releasesleep if it does not free
    | Free(i: int)              // itrunc, type = 0, iupdate, releasesleep
    | Drop(i: int)              // ip->ref--

  /** A reference to i whose holder is not in iput. */
  predicate Held(s: State, i: int) {
    i in s.nodes && s.refs[i] > s.tested[i] && i !in s.freeing
  }

  predicate Enabled(s: State, step: Step) {
    match step
    case Get(i) => i in s.nodes
    case Lock(i) => Held(s, i) && (i in s.valid || s.nodes[i].typed)
    case Alloc(i) => i in s.nodes && !s.nodes[i].typed
    case Relink(i, n) => Held(s, i) && i in s.valid
    case Test(i) => Held(s, i)
    case Free(i) => i in s.nodes && i in s.freeing
    case Drop(i) => i in s.tested
  }

  /** iput frees. */
  predicate LastOne(s: State, i: int) {
    i in s.valid && i in s.nodes && s.nodes[i].nlink == 0 && s.refs[i] == 1
  }

  function Taken(s: State, i: int): State {
    s.(refs := s.refs + multiset{i}, valid := if i in s.refs then s.valid else s.valid - {i})
  }

  function Do(s: State, step: Step): State
    requires Enabled(s, step)
  {
    match step
    case Get(i) => Taken(s, i)
    case Lock(i) => s.(valid := s.valid + {i})
    case Alloc(i) => Taken(s.(nodes := s.nodes[i := Node(true, 0)]), i)
    case Relink(i, n) => s.(nodes := s.nodes[i := s.nodes[i].(nlink := n)])
    case Test(i) =>
      if LastOne(s, i) then s.(freeing := s.freeing + {i}) else s.(tested := s.tested + multiset{i})
    case Free(i) =>
      s.(nodes := s.nodes[i := Node(false, 0)], valid := s.valid - {i}, freeing := s.freeing - {i},
         tested := s.tested + multiset{i})
    case Drop(i) => s.(refs := s.refs - multiset{i}, tested := s.tested - multiset{i})
  }

  // ---- what every step keeps ----

  ghost predicate Inv(s: State) {
    && (forall i :: i in s.refs ==> i in s.nodes)
    && (forall i :: i in s.nodes && !s.nodes[i].typed ==> s.nodes[i].nlink == 0)
    && (forall i :: i in s.valid ==> i in s.nodes && s.nodes[i].typed)
    && s.tested <= s.refs
    && (forall i :: i in s.freeing ==>
          i in s.nodes && i in s.valid && s.nodes[i].typed && s.nodes[i].nlink == 0 && s.refs[i] > s.tested[i])
  }

  lemma StepKeepsInv(s: State, step: Step)
    requires Inv(s) && Enabled(s, step)
    ensures Inv(Do(s, step)) && Do(s, step).nodes.Keys == s.nodes.Keys
  {
  }

  predicate IsRun(s: State, steps: seq<Step>)
    decreases |steps|
  {
    steps == [] || (Enabled(s, steps[0]) && IsRun(Do(s, steps[0]), steps[1..]))
  }

  function Run(s: State, steps: seq<Step>): State
    requires IsRun(s, steps)
    decreases |steps|
  {
    if steps == [] then s else Run(Do(s, steps[0]), steps[1..])
  }

  lemma {:induction false} RunKeepsInv(s: State, steps: seq<Step>)
    requires Inv(s) && IsRun(s, steps)
    ensures Inv(Run(s, steps))
    decreases |steps|
  {
    if steps != [] {
      StepKeepsInv(s, steps[0]);
      RunKeepsInv(Do(s, steps[0]), steps[1..]);
    }
  }

  // ---- inodes left behind ----

  /** Allocated without a name, and nobody is left who will still test for it in iput. */
  predicate Orphan(s: State, i: int) {
    i in s.nodes && s.nodes[i].typed && s.nodes[i].nlink == 0 && s.refs[i] == s.tested[i]
  }

  ghost predicate AnyOrphan(s: State) {
    exists i :: Orphan(s, i)
  }

  /** The last holder of an inode without a name to make the test finds another reference still
      counted, or has never read the inode, and so does not free it. */
  predicate Careless(s: State, step: Step) {
    && step.Test? && step.i in s.nodes && s.nodes[step.i].typed && s.nodes[step.i].nlink == 0
    && s.refs[step.i] == s.tested[step.i] + 1 && !LastOne(s, step.i)
  }

  /** That is the one way to lose an inode. */
  lemma OrphanStep(s: State, step: Step, i: int)
    requires Inv(s) && Enabled(s, step)
    ensures Orphan(Do(s, step), i) && !Orphan(s, i) <==> Careless(s, step) && step.i == i
  {
    var t := Do(s, step);
    if i != step.i {
      assert t.refs[i] == s.refs[i] && t.tested[i] == s.tested[i];
    }
  }

  ghost predicate EverOrphan(s: State, steps: seq<Step>)
    requires IsRun(s, steps)
    decreases |steps|
  {
    AnyOrphan(s) || (steps != [] && EverOrphan(Do(s, steps[0]), steps[1..]))
  }

  ghost predicate EverCareless(s: State, steps: seq<Step>)
    requires IsRun(s, steps)
    decreases |steps|
  {
    steps != [] && (Careless(s, steps[0]) || EverCareless(Do(s, steps[0]), steps[1..]))
  }

  /** A run loses an inode exactly if it has a careless test. */
  lemma {:induction false} OrphanIff(s: State, steps: seq<Step>)
    requires Inv(s) && IsRun(s, steps) && !AnyOrphan(s)
    ensures EverOrphan(s, steps) <==> EverCareless(s, steps)
    decreases |steps|
  {
    if steps != [] {
      var step, t := steps[0], Do(s, steps[0]);
      StepKeepsInv(s, step);
      if Careless(s, step) {
        OrphanStep(s, step, step.i);
        assert AnyOrphan(t);
      } else {
        forall i ensures !Orphan(t, i) { OrphanStep(s, step, i); }
        OrphanIff(t, steps[1..]);
      }
    }
  }

  /** With no iput under way an orphan is allocated with no name and no reference. */
  lemma OrphanLeftBehind(s: State, i: int)
    requires Inv(s) && Orphan(s, i) && i !in s.tested
    ensures s.nodes[i].typed && s.nodes[i].nlink == 0 && i !in s.refs
  {
  }

  lemma {:induction false} Extend(s: State, steps: seq<Step>, t: State, step: Step)
    requires IsRun(s, steps) && Run(s, steps) == t && Enabled(t, step)
    ensures IsRun(s, steps + [step]) && Run(s, steps + [step]) == Do(t, step)
    decreases |steps|
  {
    if steps == [] {
      assert IsRun(Do(s, step), []) && (steps + [step])[1..] == [];
    } else {
      Extend(Do(s, steps[0]), steps[1..], t, step);
      assert (steps + [step])[1..] == steps[1..] + [step];
    }
  }

  /** One inode, 1, as the runs below see it. */
  function Lone(typed: bool, nlink: nat, refs: nat, tested: nat): State {
    State(map[1 := Node(typed, nlink)], multiset{}[1 := refs], if typed && refs > 0 then {1} else {},
          multiset{}[1 := tested], {})
  }

  lemma LoneSteps(refs: nat, tested: nat)
    ensures refs > tested + 1 ==>
              && Enabled(Lone(true, 0, refs, tested), Test(1))
              && Do(Lone(true, 0, refs, tested), Test(1)) == Lone(true, 0, refs, tested + 1)
    ensures refs == tested + 1 && tested > 0 ==>
              && Enabled(Lone(true, 0, refs, tested), Test(1))
              && Do(Lone(true, 0, refs, tested), Test(1)) == Lone(true, 0, refs, tested + 1)
  {
    var s := Lone(true, 0, refs, tested);
    assert s.tested + multiset{1} == multiset{}[1 := tested + 1];
  }

  lemma LoneDrop(refs: nat)
    requires refs > 1
    ensures Enabled(Lone(true, 0, refs, refs), Drop(1))
    ensures Do(Lone(true, 0, refs, refs), Drop(1)) == Lone(true, 0, refs - 1, refs - 1)
  {
    var s := Lone(true, 0, refs, refs);
    assert s.refs - multiset{1} == multiset{}[1 := refs - 1];
  }

  /** Two holders of a file that has lost its name close it together: both see the other's
      reference, neither frees, and the inode is left behind. */
  lemma TwoHolders() returns (s: State, steps: seq<Step>)
    ensures s == Lone(true, 0, 2, 0) && Inv(s) && !AnyOrphan(s) && steps == [Test(1), Test(1), Drop(1), Drop(1)]
    ensures IsRun(s, steps) && Orphan(Run(s, steps), 1) && 1 !in Run(s, steps).refs && 1 !in Run(s, steps).tested
  {
    s, steps := Lone(true, 0, 2, 0), [];
    LoneSteps(2, 0);
    Extend(s, steps, s, Test(1));
    LoneSteps(2, 1);
    Extend(s, [Test(1)], Lone(true, 0, 2, 1), Test(1));
    LoneDrop(2);
    Extend(s, [Test(1), Test(1)], Lone(true, 0, 2, 2), Drop(1));
    var t := Lone(true, 0, 1, 1);
    Extend(s, [Test(1), Test(1), Drop(1)], t, Drop(1));
    steps := [Test(1), Test(1), Drop(1), Drop(1)];
    assert Do(t, Drop(1)).refs == multiset{} && Do(t, Drop(1)).tested == multiset{};
  }

  // ---- inodes freed early, and references to freed ones ----

  /** An inode is being freed while somebody else has a reference to it. */
  ghost predicate FreedEarly(s: State) {
    exists i :: i in s.freeing && s.refs[i] > 1
  }

  /** A reference is taken to an inode that an iput has just found nobody else to hold. */
  predicate LateGet(s: State, step: Step) {
    step.Get? && step.i in s.freeing
  }

  lemma EarlyStep(s: State, step: Step)
    requires Inv(s) && Enabled(s, step) && !FreedEarly(s)
    ensures FreedEarly(Do(s, step)) <==> LateGet(s, step)
  {
    var t := Do(s, step);
    forall i | i in t.freeing && t.refs[i] > 1
      ensures LateGet(s, step)
    {
      assert i in s.freeing ==> s.refs[i] == 1;
    }
    if LateGet(s, step) {
      assert step.i in t.freeing && t.refs[step.i] > 1;
    }
  }

  /** Whoever is not in iput holds an allocated inode, so ilock does not panic. */
  ghost predicate HoldersTyped(s: State) {
    forall i :: Held(s, i) ==> s.nodes[i].typed
  }

  /** A reference is taken to a free inode. */
  predicate DeadGet(s: State, step: Step) {
    step.Get? && step.i in s.nodes && !s.nodes[step.i].typed
  }

  /** Only a reference to a free inode, or to one while it is being freed, can lead there. */
  lemma HoldersStep(s: State, step: Step)
    requires Inv(s) && Enabled(s, step) && HoldersTyped(s) && !FreedEarly(s) && !LateGet(s, step)
    ensures HoldersTyped(Do(s, step)) <==> !DeadGet(s, step)
  {
    var t := Do(s, step);
    if DeadGet(s, step) {
      assert Held(t, step.i) && !t.nodes[step.i].typed;
    } else {
      forall i | Held(t, i)
        ensures t.nodes[i].typed
      {
        if i != step.i || !(step.Get? || step.Alloc?) {
          assert s.refs[i] == t.refs[i] || step.Drop?;
          assert step.Free? && i == step.i ==> s.refs[i] == 1;
        }
      }
    }
  }

  ghost predicate Safe(s: State) {
    Inv(s) && HoldersTyped(s) && !FreedEarly(s)
  }

  /** iget of an inode that has a name, or idup by somebody who holds it. */
  predicate ProperGet(s: State, step: Step) {
    step.Get? ==> step.i in s.nodes && (s.nodes[step.i].nlink > 0 || Held(s, step.i))
  }

  ghost predicate ProperRun(s: State, steps: seq<Step>)
    requires IsRun(s, steps)
    decreases |steps|
  {
    steps == [] || (ProperGet(s, steps[0]) && ProperRun(Do(s, steps[0]), steps[1..]))
  }

  /** In every run that takes references by name or by copying one's own, no inode is freed while
      somebody else holds it, and every holder's inode is allocated. */
  lemma {:induction false} ProperRunSafe(s: State, steps: seq<Step>)
    requires Safe(s) && IsRun(s, steps) && ProperRun(s, steps)
    ensures Safe(Run(s, steps))
    decreases |steps|
  {
    if steps != [] {
      StepKeepsInv(s, steps[0]);
      EarlyStep(s, steps[0]);
      HoldersStep(s, steps[0]);
      ProperRunSafe(Do(s, steps[0]), steps[1..]);
    }
  }

  /** ilock panics exactly when its inode is free. */
  lemma LockPanics(s: State, i: int)
    requires Inv(s) && Held(s, i)
    ensures Enabled(s, Lock(i)) <==> s.nodes[i].typed
  {
  }

  /** Otherwise one that finds a removed directory through the ".." of another is enough: the last
      iput has tested, a reference is taken, and the inode is freed under its new holder. */
  lemma LateHolder() returns (s: State, steps: seq<Step>)
    ensures s == Lone(true, 0, 1, 0) && Safe(s) && steps == [Test(1), Get(1), Free(1)] && IsRun(s, steps)
    ensures Held(Run(s, steps), 1) && !Enabled(Run(s, steps), Lock(1))
  {
    s, steps := Lone(true, 0, 1, 0), [];
    var a := s.(freeing := {1});
    assert Do(s, Test(1)) == a;
    Extend(s, [], s, Test(1));
    var b := a.(refs := multiset{}[1 := 2]);
    assert a.refs + multiset{1} == b.refs;
    assert Do(a, Get(1)) == b;
    Extend(s, [Test(1)], a, Get(1));
    Extend(s, [Test(1), Get(1)], b, Free(1));
    steps := [Test(1), Get(1), Free(1)];
  }
}
