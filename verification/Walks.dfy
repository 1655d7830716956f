/** Which walks can meet an inode that has been freed: Paths.Resolve on the directories that a run of
    Names leaves. */
module Walks {
  import opened FsBlocks
  import opened Dirs
  import opened Files
  import opened Paths
  import N = Names

  /** The directories' bytes hold the entries of s. */
  ghost predicate Shows(nodes: Nodes, s: N.State) {
    && nodes.Keys == s.nlink.Keys
    && (forall i :: i in nodes ==> (nodes[i].isDir <==> i in s.dirs) && nodes[i].nlink == s.nlink[i])
    && (forall i, n: Name {:trigger Lookup(nodes[i].data, n)} :: i in nodes && i in s.dirs ==>
          Lookup(nodes[i].data, n) ==
            if N.Key(i, n) in s.entries then Some(s.entries[N.Key(i, n)]) else None)
  }

  /** The walk has locked a free inode, or hands one to a caller who is going to. */
  predicate MeetsFreed(nodes: Nodes, r: Outcome) {
    r.NoType? || (r.To? && r.inum !in nodes)
  }

  /** A walk from a directory below the root, so every absolute path and every path of a process
      whose directory has not been removed, meets no free inode. */
  lemma {:induction false} AttachedSafe(nodes: Nodes, s: N.State, parent: bool, i: int, es: seq<Name>)
    requires N.Reachable(s) && Shows(nodes, s) && i in s.attached
    ensures !MeetsFreed(nodes, Resolve(nodes, parent, i, es))
    decreases |es|
  {
    N.ReachableInv(s);
    if es != [] {
      var k := N.Key(i, Cut(es[0]));
      if k in s.entries {
        N.AttachedLive(s, k);
        if s.entries[k] in s.dirs {
          AttachedSafe(nodes, s, parent, s.entries[k], es[1..]);
        }
      }
    }
  }

  lemma AbsoluteSafe(nodes: Nodes, s: N.State, parent: bool, es: seq<Name>)
    requires N.Reachable(s) && Shows(nodes, s)
    ensures !MeetsFreed(nodes, Resolve(nodes, parent, ROOTINO, es))
  {
    N.ReachableInv(s);
    AttachedSafe(nodes, s, parent, ROOTINO, es);
  }

  /** Element k is a ".." taken in a removed directory whose parent has been freed. */
  ghost predicate Strands(nodes: Nodes, s: N.State, i: int, es: seq<Name>, k: int) {
    && 0 <= k < |es| && Cut(es[k]) == N.DOTDOT
    && var r := Resolve(nodes, false, i, es[..k]);
       && r.To? && r.inum in s.gone && N.Key(r.inum, N.DOTDOT) in s.entries
       && s.entries[N.Key(r.inum, N.DOTDOT)] !in nodes
  }

  /** From any held directory, removed or not, a walk meets a free inode exactly there. */
  lemma {:induction false} FreedIff(nodes: Nodes, s: N.State, i: int, es: seq<Name>)
    requires N.Reachable(s) && Shows(nodes, s) && i in nodes
    ensures MeetsFreed(nodes, Resolve(nodes, false, i, es)) <==> exists k :: Strands(nodes, s, i, es, k)
    decreases |es|
  {
    N.ReachableInv(s);
    if es != [] {
      assert es[..0] == [];
      var key := N.Key(i, Cut(es[0]));
      if i in s.dirs && key in s.entries {
        var j := s.entries[key];
        if j in nodes {
          FreedIff(nodes, s, j, es[1..]);
          FirstSafe(nodes, s, i, es, j);
        } else {
          N.EntriesLive(s, key);
          assert Strands(nodes, s, i, es, 0);
        }
      } else {
        forall k ensures !Strands(nodes, s, i, es, k) { NoFirst(nodes, s, i, es, k); }
      }
    }
  }

  /** After a first element that leads to an allocated inode, the rest decides. */
  lemma FirstSafe(nodes: Nodes, s: N.State, i: int, es: seq<Name>, j: int)
    requires Shows(nodes, s) && i in nodes && i in s.dirs && es != [] && j in nodes
    requires Lookup(nodes[i].data, Cut(es[0])) == Some(j)
    ensures (exists k :: Strands(nodes, s, i, es, k)) <==> exists k :: Strands(nodes, s, j, es[1..], k)
  {
    forall k ensures Strands(nodes, s, i, es, k) <==> Strands(nodes, s, j, es[1..], k - 1) {
      if k == 0 {
        assert es[..0] == [];
      } else if 0 < k < |es| {
        assert es[..k][1..] == es[1..][..k - 1] && es[..k][0] == es[0] && es[1..][k - 1] == es[k];
      }
    }
    if k :| Strands(nodes, s, j, es[1..], k) {
      assert Strands(nodes, s, i, es, k + 1);
    }
  }

  lemma NoFirst(nodes: Nodes, s: N.State, i: int, es: seq<Name>, k: int)
    requires N.Inv(s) && Shows(nodes, s) && i in nodes && es != []
    requires i !in s.dirs || N.Key(i, Cut(es[0])) !in s.entries
    ensures !Strands(nodes, s, i, es, k)
  {
    if k == 0 {
      assert es[..0] == [];
    } else if 0 < k < |es| {
      assert es[..k][0] == es[0] && Resolve(nodes, false, i, es[..k]) == NoSuch;
    }
  }

  /** nameiparent panics in the walk exactly when namei does. */
  lemma ParentSame(nodes: Nodes, i: int, es: seq<Name>)
    requires es != []
    ensures Resolve(nodes, true, i, es).NoType? <==> Resolve(nodes, false, i, es).NoType?
  {
    ParentThenLast(nodes, i, es);
  }

  // ---- a walk that does ----

  /** The bytes of an empty directory d in p. */
  function EmptyDir(d: int, p: int): seq<Byte>
    requires 0 < d < 65536 && 0 < p < 65536
  {
    Put(Put([], 0, N.DOT, d), 1, N.DOTDOT, p)
  }

  lemma EmptyDirLookup(d: int, p: int, n: Name)
    requires 0 < d < 65536 && 0 < p < 65536
    ensures Lookup(EmptyDir(d, p), n) == if n == N.DOT then Some(d) else if n == N.DOTDOT then Some(p) else None
  {
    var a := Put([], 0, N.DOT, d);
    assert Cut(N.DOT) == N.DOT && Cut(N.DOTDOT) == N.DOTDOT;
    LinkBinds([], 0, N.DOT, d);
    if n != N.DOT { LinkKeepsOthers([], 0, N.DOT, d, n); }
    LinkKeepsOthers([], 0, N.DOT, d, N.DOTDOT);
    LinkBinds(a, 1, N.DOTDOT, p);
    if n != N.DOTDOT { LinkKeepsOthers(a, 1, N.DOTDOT, p, n); }
  }

  predicate Plain(n: Name) {
    n != N.DOT && n != N.DOTDOT
  }

  /** "." and ".." of directory d in p. */
  function Dots(m: map<N.Key, int>, d: int, p: int): map<N.Key, int> {
    m[N.Key(d, N.DOT) := d][N.Key(d, N.DOTDOT) := p]
  }

  /** Directory 2 has been made in the root, as a, */
  function MadeOne(a: Name): N.State {
    N.State(Dots(N.Fresh().entries, 2, 1)[N.Key(1, a) := 2], map[1 := 2, 2 := 1], {1, 2}, {}, {1, 2})
  }

  /** and directory 3 in it, as b. */
  function MadeBoth(a: Name, b: Name): N.State {
    N.State(Dots(MadeOne(a).entries, 3, 2)[N.Key(2, b) := 3], map[1 := 2, 2 := 2, 3 := 1], {1, 2, 3}, {}, {1, 2, 3})
  }

  /** Then b has been removed, */
  function RemovedOne(a: Name): N.State {
    N.State(Dots(MadeOne(a).entries, 3, 2), map[1 := 2, 2 := 1, 3 := 0], {1, 2, 3}, {3}, {1, 2})
  }

  function RemovedTwo(): N.State {
    N.State(Dots(Dots(N.Fresh().entries, 2, 1), 3, 2), map[1 := 1, 2 := 0, 3 := 0], {1, 2, 3}, {2, 3}, {1})
  }

  /** and a, which nobody holds, removed and freed, while somebody stands in b. */
  function RemovedBoth(): N.State {
    N.State(Dots(N.Fresh().entries, 3, 2), map[1 := 1, 3 := 0], {1, 3}, {3}, {1})
  }

  lemma ReachMadeOne(a: Name)
    requires Plain(a)
    ensures N.Reachable(MadeOne(a))
  {
    var s := N.Fresh();
    assert N.IsRun(s, []) && N.Run(s, []) == s;
    N.ReachStep(s, N.Mkdir(1, a, 2));
  }

  lemma ReachMadeBoth(a: Name, b: Name)
    requires Plain(a) && Plain(b)
    ensures N.Reachable(MadeBoth(a, b))
  {
    ReachMadeOne(a);
    N.ReachStep(MadeOne(a), N.Mkdir(2, b, 3));
  }

  /** Taking away what was put in. */
  lemma PutBack(m: map<N.Key, int>, k: N.Key, v: int)
    requires k !in m
    ensures m[k := v] - {k} == m
  {
  }

  lemma DotsLater(m: map<N.Key, int>, k: N.Key, v: int, d: int, p: int)
    requires Plain(k.name)
    ensures Dots(m[k := v], d, p) == Dots(m, d, p)[k := v]
  {
  }

  lemma DirThreeEmpty(a: Name, b: Name)
    requires Plain(a) && Plain(b)
    ensures N.Empty(MadeBoth(a, b), 3) && N.Key(2, b) !in RemovedOne(a).entries
  {
  }

  lemma ReachRemovedOne(a: Name, b: Name)
    requires Plain(a) && Plain(b)
    ensures N.Reachable(RemovedOne(a))
  {
    ReachMadeBoth(a, b);
    DirThreeEmpty(a, b);
    PutBack(RemovedOne(a).entries, N.Key(2, b), 3);
    N.ReachStep(MadeBoth(a, b), N.Rmdir(2, b));
  }

  lemma DirTwoEmpty(a: Name)
    requires Plain(a)
    ensures N.Empty(RemovedOne(a), 2) && N.Key(1, a) !in RemovedTwo().entries
  {
  }

  lemma ReachRemovedTwo(a: Name, b: Name)
    requires Plain(a) && Plain(b)
    ensures N.Reachable(RemovedTwo())
  {
    ReachRemovedOne(a, b);
    DirTwoEmpty(a);
    DotsLater(Dots(N.Fresh().entries, 2, 1), N.Key(1, a), 2, 3, 2);
    PutBack(RemovedTwo().entries, N.Key(1, a), 2);
    N.ReachStep(RemovedOne(a), N.Rmdir(1, a));
  }

  lemma FreeTwo()
    ensures (map k | k in RemovedTwo().entries && k.dir != 2 :: RemovedTwo().entries[k]) == RemovedBoth().entries
  {
  }

  lemma ReachRemovedBoth(a: Name, b: Name)
    requires Plain(a) && Plain(b)
    ensures N.Reachable(RemovedBoth())
  {
    ReachRemovedTwo(a, b);
    FreeTwo();
    FreeTwoCounts();
    N.ReachStep(RemovedTwo(), N.Free(2));
  }

  lemma FreeTwoCounts()
    ensures var s, t := RemovedTwo(), RemovedBoth();
            s.nlink - {2} == t.nlink && s.dirs - {2} == t.dirs && s.gone - {2} == t.gone && s.attached == t.attached
  {
  }

  function Stranded(): Nodes {
    map[1 := Node(true, 1, EmptyDir(1, 1)), 3 := Node(true, 0, EmptyDir(3, 2))]
  }

  lemma StrandedShows()
    ensures Shows(Stranded(), RemovedBoth())
  {
    var nodes, s := Stranded(), RemovedBoth();
    forall i, n: Name | i in nodes && i in s.dirs
      ensures Lookup(nodes[i].data, n) == if N.Key(i, n) in s.entries then Some(s.entries[N.Key(i, n)]) else None
    {
      if i == 1 { EmptyDirLookup(1, 1, n); } else { EmptyDirLookup(3, 2, n); }
    }
  }

  /** From b the path ".." then leads to a, which is free: the caller's ilock panics, or the walk's
      own if the path goes on. */
  lemma StrandedParent(n: Name) returns (nodes: Nodes)
    ensures N.Reachable(RemovedBoth()) && Shows(nodes, RemovedBoth()) && 3 in nodes && 2 !in nodes
    ensures Resolve(nodes, false, 3, [N.DOTDOT]) == To(2) && Resolve(nodes, false, 3, [N.DOTDOT, n]) == NoType
  {
    nodes := Stranded();
    ReachRemovedBoth([97], [98]);
    StrandedShows();
    EmptyDirLookup(3, 2, N.DOTDOT);
    assert Cut(N.DOTDOT) == N.DOTDOT;
    assert [N.DOTDOT][1..] == [] && [N.DOTDOT, n][1..] == [n];
  }
}
