/** Names and link counts: what create, mkdir, link and unlink do to the directory entries of the
    whole file system, in any order, with directories removed under processes that still stand in
    them, and freed once iput finds them without a name. */
module Names {
  import opened FsBlocks
  import opened Dirs

  const ROOTINO := 1
  const DOT: Name := [46]
  const DOTDOT: Name := [46, 46]

  datatype Key = Key(dir: int, name: Name)

  datatype State = State(
    entries: map<Key, int>,     // every entry of every allocated directory
    nlink: map<int, int>,       // of the allocated inodes
    dirs: set<int>,             // those of type T_DIR
    gone: set<int>,             // directories that have been unlinked, and are not freed yet
    attached: set<int>)         // directories made, and not removed, below the root

  datatype Step =
    | Create(dp: int, name: Name, i: int)
    | Mkdir(dp: int, name: Name, i: int)
    | Link(f: int, dp: int, name: Name)
    | Unlink(dp: int, name: Name)
    | Rmdir(dp: int, name: Name)
    | Free(i: int)

  /** A name that somebody gave, not "." or "..". */
  predicate Given(k: Key) {
    k.name != DOT && k.name != DOTDOT
  }

  predicate Empty(s: State, b: int) {
    forall k :: k in s.entries && k.dir == b ==> !Given(k)
  }

  predicate Enabled(s: State, step: Step) {
    match step
    case Create(dp, n, i) => dp in s.dirs && Key(dp, n) !in s.entries && i !in s.nlink
    case Mkdir(dp, n, i) => dp in s.dirs && dp in s.nlink && Key(dp, n) !in s.entries && i !in s.nlink
    case Link(f, dp, n) => f in s.nlink && f !in s.dirs && dp in s.dirs && Key(dp, n) !in s.entries
    case Unlink(dp, n) =>
      var k := Key(dp, n);
      Given(k) && k in s.entries && s.entries[k] in s.nlink && s.entries[k] !in s.dirs
    case Rmdir(dp, n) =>
      var k := Key(dp, n);
      && Given(k) && k in s.entries && dp in s.nlink && s.entries[k] in s.nlink
      && s.entries[k] in s.dirs && Empty(s, s.entries[k])
    case Free(i) => i in s.nlink && s.nlink[i] == 0
  }

  function Plus(m: map<int, int>, i: int, n: int): map<int, int>
    requires i in m
  {
    m[i := m[i] + n]
  }

  function Do(s: State, step: Step): State
    requires Enabled(s, step)
  {
    match step
    case Create(dp, n, i) => s.(entries := s.entries[Key(dp, n) := i], nlink := s.nlink[i := 1])
    case Mkdir(dp, n, i) =>
      s.(entries := s.entries[Key(i, DOT) := i][Key(i, DOTDOT) := dp][Key(dp, n) := i],
         nlink := Plus(s.nlink, dp, 1)[i := 1], dirs := s.dirs + {i},
         attached := if dp in s.attached then s.attached + {i} else s.attached)
    case Link(f, dp, n) => s.(entries := s.entries[Key(dp, n) := f], nlink := Plus(s.nlink, f, 1))
    case Unlink(dp, n) =>
      s.(entries := s.entries - {Key(dp, n)}, nlink := Plus(s.nlink, s.entries[Key(dp, n)], -1))
    case Rmdir(dp, n) =>
      var b := s.entries[Key(dp, n)];
      s.(entries := s.entries - {Key(dp, n)}, nlink := Plus(Plus(s.nlink, dp, -1), b, -1),
         gone := s.gone + {b}, attached := s.attached - {b})
    case Free(i) =>
      s.(entries := map k | k in s.entries && k.dir != i :: s.entries[k], nlink := s.nlink - {i},
         dirs := s.dirs - {i}, gone := s.gone - {i})
  }

  /** What mkfs leaves: the root, its own parent. */
  function Fresh(): State {
    State(map[Key(ROOTINO, DOT) := ROOTINO, Key(ROOTINO, DOTDOT) := ROOTINO], map[ROOTINO := 1], {ROOTINO}, {},
        {ROOTINO})
  }

  predicate IsRun(s: State, steps: seq<Step>)
    decreases |steps|
  {
    steps == [] || (Enabled(s, steps[0]) && IsRun(Do(s, steps[0]), steps[1..]))
  }

  function Run(s: State, steps: seq<Step>): State
    requires IsRun(s, steps)
    decreases |steps|
  {
    if steps == [] then s else Run(Do(s, steps[0]), steps[1..])
  }

  // ---- link counts ----

  /** An entry the link count of its target counts: not ".", and not the ".." that a removed
      directory keeps. */
  predicate Counted(s: State, k: Key) {
    k in s.entries && k.name != DOT && !(k.name == DOTDOT && k.dir in s.gone)
  }

  ghost function Into(s: State, f: int): set<Key> {
    set k | k in s.entries && Counted(s, k) && s.entries[k] == f
  }

  function Links(s: State, f: int): int {
    if f in s.nlink then s.nlink[f] else 0
  }

  /** Every inode has at least as many links as entries that count; so what they lead to is
      allocated. */
  ghost predicate LinksCover(s: State) {
    forall f :: |Into(s, f)| <= Links(s, f)
  }

  ghost predicate Sets(s: State) {
    && s.dirs <= s.nlink.Keys && s.gone <= s.dirs && s.attached <= s.dirs && s.attached !! s.gone
         && ROOTINO in s.attached
    && (forall k :: k in s.entries ==> k.dir in s.dirs)
    && (forall d :: d in s.dirs ==>
         Key(d, DOT) in s.entries && s.entries[Key(d, DOT)] == d && Key(d, DOTDOT) in s.entries)
    && s.entries[Key(ROOTINO, DOTDOT)] == ROOTINO
  }

  /** k is the name that directory b was made with. */
  predicate NameOf(s: State, k: Key, b: int) {
    Given(k) && k in s.entries && s.entries[k] == b
  }

  /** Directories form a tree: one that has a name has one, in the directory its ".." leads to, and
      each but the root and the removed has one. */
  ghost predicate Tree(s: State)
    requires Sets(s)
  {
    && (forall k, b :: b in s.dirs && NameOf(s, k, b) ==>
          s.entries[Key(b, DOTDOT)] == k.dir && b !in s.gone && b != ROOTINO)
    && (forall j, k, b :: b in s.dirs && NameOf(s, j, b) && NameOf(s, k, b) ==> j == k)
    && (forall b :: b in s.dirs && b !in s.gone && b != ROOTINO ==> exists k :: NameOf(s, k, b))
  }

  /** No entry leads out of the tree below the root. */
  ghost predicate Closed(s: State) {
    forall k :: k in s.entries && k.dir in s.attached && s.entries[k] in s.dirs ==> s.entries[k] in s.attached
  }

  ghost predicate Inv(s: State) {
    Sets(s) && Tree(s) && Closed(s) && LinksCover(s)
  }

  // ---- counting entries ----

  lemma IntoMember(s: State, f: int, k: Key)
    requires LinksCover(s) && Counted(s, k) && s.entries[k] == f
    ensures k in Into(s, f) && Links(s, f) >= 1 && f in s.nlink
  {
    assert k in Into(s, f);
    assert |Into(s, f)| >= 1 by {
      assert {k} <= Into(s, f);
      Smaller({k}, Into(s, f));
    }
  }

  lemma Smaller<T>(a: set<T>, b: set<T>)
    requires a <= b
    ensures |a| <= |b|
  {
    assert b == a + (b - a);
  }

  lemma Remove<T>(a: set<T>, b: set<T>, x: T)
    requires x in a && b <= a - {x}
    ensures |b| <= |a| - 1
  {
    Smaller(b, a - {x});
    assert a == (a - {x}) + {x};
  }

  lemma Insert<T>(a: set<T>, b: set<T>, x: T)
    requires b <= a + {x}
    ensures |b| <= |a| + 1
  {
    Smaller(b, a + {x});
    assert |a + {x}| <= |a| + 1;
  }

  // ---- each step ----

  lemma CreateKeeps(s: State, dp: int, n: Name, i: int)
    requires Inv(s) && Enabled(s, Create(dp, n, i))
    ensures Inv(Do(s, Create(dp, n, i)))
  {
    var t := Do(s, Create(dp, n, i));
    assert forall k :: k in s.entries ==> t.entries[k] == s.entries[k];
    forall f ensures |Into(t, f)| <= Links(t, f) {
      if f == i {
        Insert(Into(s, f), Into(t, f), Key(dp, n));
      } else {
        assert Into(t, f) == Into(s, f);
      }
    }
    TreeSame(s, t);
  }

  /** New and changed entries that lead to no directory leave the tree as it is. */
  lemma TreeSame(s: State, t: State)
    requires Sets(s) && Tree(s) && Sets(t) && t.dirs == s.dirs && t.gone == s.gone
    requires forall k, b :: b in s.dirs ==> (NameOf(s, k, b) <==> NameOf(t, k, b))
    requires forall b :: b in s.dirs ==> t.entries[Key(b, DOTDOT)] == s.entries[Key(b, DOTDOT)]
    ensures Tree(t)
  {
    forall b | b in t.dirs && b !in t.gone && b != ROOTINO
      ensures exists k :: NameOf(t, k, b)
    {
      var k :| NameOf(s, k, b);
      assert NameOf(t, k, b);
    }
  }

  lemma LinkKeeps(s: State, f: int, dp: int, n: Name)
    requires Inv(s) && Enabled(s, Link(f, dp, n))
    ensures Inv(Do(s, Link(f, dp, n)))
  {
    var t := Do(s, Link(f, dp, n));
    assert forall k :: k in s.entries ==> t.entries[k] == s.entries[k];
    forall g ensures |Into(t, g)| <= Links(t, g) {
      if g == f {
        Insert(Into(s, g), Into(t, g), Key(dp, n));
      } else {
        assert Into(t, g) == Into(s, g);
      }
    }
    TreeSame(s, t);
  }

  lemma UnlinkKeeps(s: State, dp: int, n: Name)
    requires Inv(s) && Enabled(s, Unlink(dp, n))
    ensures Inv(Do(s, Unlink(dp, n)))
  {
    var t := Do(s, Unlink(dp, n));
    var k0 := Key(dp, n);
    var f := s.entries[k0];
    assert forall k :: k in t.entries ==> k in s.entries && k != k0 && t.entries[k] == s.entries[k];
    forall g ensures |Into(t, g)| <= Links(t, g) {
      if g == f {
        Remove(Into(s, g), Into(t, g), k0);
      } else {
        assert Into(t, g) == Into(s, g);
      }
    }
    TreeSame(s, t);
  }

  /** Nothing that counts leads to an inode without links, or to a free one. */
  lemma NothingInto(s: State, i: int)
    requires LinksCover(s) && Links(s, i) == 0
    ensures Into(s, i) == {} && forall k :: Counted(s, k) ==> s.entries[k] != i
  {
    assert |Into(s, i)| <= 0;
    assert forall k :: Counted(s, k) && s.entries[k] == i ==> k in Into(s, i);
  }

  /** mkdir adds three entries. */
  ghost predicate Made(s: State, t: State, dp: int, n: Name, i: int) {
    && i != dp && Given(Key(dp, n)) && i !in s.nlink && i !in s.dirs && t.gone == s.gone && t.dirs == s.dirs + {i}
    && t.attached == (if dp in s.attached then s.attached + {i} else s.attached)
    && (forall k :: k in t.entries <==> k in s.entries || k == Key(i, DOT) || k == Key(i, DOTDOT) || k == Key(dp, n))
    && (forall k :: k in s.entries ==> k.dir != i && k != Key(dp, n) && t.entries[k] == s.entries[k])
    && t.entries[Key(i, DOT)] == i && t.entries[Key(i, DOTDOT)] == dp && t.entries[Key(dp, n)] == i
  }

  lemma MkdirMade(s: State, dp: int, n: Name, i: int)
    requires Inv(s) && Enabled(s, Mkdir(dp, n, i))
    ensures Made(s, Do(s, Mkdir(dp, n, i)), dp, n, i)
  {
  }

  lemma MkdirKeeps(s: State, dp: int, n: Name, i: int)
    requires Inv(s) && Enabled(s, Mkdir(dp, n, i))
    ensures Inv(Do(s, Mkdir(dp, n, i)))
  {
    var t := Do(s, Mkdir(dp, n, i));
    MkdirMade(s, dp, n, i);
    MkdirSets(s, dp, n, i, t);
    MkdirLinks(s, dp, n, i, t);
    MkdirTree(s, dp, n, i, t);
    MkdirClosed(s, dp, n, i, t);
  }

  lemma MkdirSets(s: State, dp: int, n: Name, i: int, t: State)
    requires Sets(s) && dp in s.dirs && Made(s, t, dp, n, i) && s.nlink.Keys + {i} <= t.nlink.Keys
    ensures Sets(t)
  {
  }

  lemma MkdirClosed(s: State, dp: int, n: Name, i: int, t: State)
    requires Sets(s) && Closed(s) && LinksCover(s) && dp in s.dirs && Made(s, t, dp, n, i)
    ensures Closed(t)
  {
    NothingInto(s, i);
    forall k | k in t.entries && k.dir in t.attached && t.entries[k] in t.dirs
      ensures t.entries[k] in t.attached
    {
      if k in s.entries {
        assert k.dir in s.attached && (k.name == DOT || Counted(s, k));
      }
    }
  }

  lemma MkdirLinks(s: State, dp: int, n: Name, i: int, t: State)
    requires Sets(s) && LinksCover(s) && Made(s, t, dp, n, i) && dp in s.nlink
              && t.nlink == Plus(s.nlink, dp, 1)[i := 1]
    ensures LinksCover(t)
  {
    NothingInto(s, i);
    forall f ensures |Into(t, f)| <= Links(t, f) {
      MkdirInto(s, dp, n, i, t, f);
      if f == i {
        Insert({}, Into(t, f), Key(dp, n));
      } else if f == dp {
        Insert(Into(s, f), Into(t, f), Key(i, DOTDOT));
      } else {
        Smaller(Into(t, f), Into(s, f));
      }
    }
  }

  lemma MkdirInto(s: State, dp: int, n: Name, i: int, t: State, f: int)
    requires Sets(s) && Made(s, t, dp, n, i) && Into(s, i) == {}
    ensures Into(t, f) <= if f == i then {Key(dp, n)} else if f == dp then Into(s, f) + {Key(i, DOTDOT)} else Into(s, f)
  {
    forall k | k in Into(t, f)
      ensures k in if f == i then {Key(dp, n)} else if f == dp then Into(s, f) + {Key(i, DOTDOT)} else Into(s, f)
    {
      if k in s.entries {
        assert k in Into(s, f);
      }
    }
  }

  lemma MkdirNames(s: State, dp: int, n: Name, i: int, t: State, k: Key, b: int)
    requires Sets(s) && LinksCover(s) && Made(s, t, dp, n, i) && b in t.dirs
    ensures NameOf(t, k, b) <==> (k == Key(dp, n) && b == i) || (b in s.dirs && b != i && NameOf(s, k, b))
  {
    NothingInto(s, i);
    if Given(k) && k in s.entries {
      assert Counted(s, k) && s.entries[k] != i;
    }
  }

  lemma MkdirTree(s: State, dp: int, n: Name, i: int, t: State)
    requires Inv(s) && Sets(t) && Made(s, t, dp, n, i)
    ensures Tree(t)
  {
    forall k, b | b in t.dirs
      ensures NameOf(t, k, b) <==> (k == Key(dp, n) && b == i) || (b in s.dirs && b != i && NameOf(s, k, b))
    {
      MkdirNames(s, dp, n, i, t, k, b);
    }
    forall b | b in t.dirs && b !in t.gone && b != ROOTINO
      ensures exists k :: NameOf(t, k, b)
    {
      if b == i {
        assert NameOf(t, Key(dp, n), i);
      } else {
        var k :| NameOf(s, k, b);
        assert NameOf(t, k, b);
      }
    }
  }

  /** rmdir takes the name away from directory b in dp, and what counted b as a child. */
  ghost predicate Removed(s: State, t: State, dp: int, n: Name, b: int) {
    && b in s.dirs && NameOf(s, Key(dp, n), b) && Empty(s, b) && dp != b
    && t.dirs == s.dirs && t.gone == s.gone + {b} && t.attached == s.attached - {b}
    && t.nlink.Keys == s.nlink.Keys && t.entries == s.entries - {Key(dp, n)}
  }

  lemma RmdirKeeps(s: State, dp: int, n: Name)
    requires Inv(s) && Enabled(s, Rmdir(dp, n))
    ensures Inv(Do(s, Rmdir(dp, n)))
  {
    var b := s.entries[Key(dp, n)];
    var t := Do(s, Rmdir(dp, n));
    assert NameOf(s, Key(dp, n), b);
    DirNotItself(s, Key(dp, n), b);
    RmdirSets(s, dp, n, b, t);
    RmdirLinks(s, dp, n, b, t);
    RmdirTree(s, dp, n, b, t);
    RmdirClosed(s, dp, n, b, t);
  }

  /** A directory is not in itself: that name would stop the removal. */
  lemma DirNotItself(s: State, k: Key, b: int)
    requires Inv(s) && b in s.dirs && NameOf(s, k, b) && Empty(s, b)
    ensures k.dir != b
  {
  }

  lemma RmdirSets(s: State, dp: int, n: Name, b: int, t: State)
    requires Sets(s) && Tree(s) && Removed(s, t, dp, n, b)
    ensures Sets(t)
  {
  }

  lemma RmdirLinks(s: State, dp: int, n: Name, b: int, t: State)
    requires Inv(s) && Removed(s, t, dp, n, b) && dp in s.nlink && b in s.nlink
    requires t.nlink == Plus(Plus(s.nlink, dp, -1), b, -1)
    ensures LinksCover(t)
  {
    assert b !in s.gone && s.entries[Key(b, DOTDOT)] == dp;
    forall f ensures |Into(t, f)| <= Links(t, f) {
      assert Into(t, f) <= Into(s, f);
      if f == b {
        Remove(Into(s, f), Into(t, f), Key(dp, n));
      } else if f == dp {
        Remove(Into(s, f), Into(t, f), Key(b, DOTDOT));
      } else {
        Smaller(Into(t, f), Into(s, f));
      }
    }
  }

  lemma RmdirTree(s: State, dp: int, n: Name, b: int, t: State)
    requires Sets(s) && Tree(s) && Sets(t) && Removed(s, t, dp, n, b)
    ensures Tree(t)
  {
    forall k, c | c in t.dirs
      ensures NameOf(t, k, c) <==> NameOf(s, k, c) && c != b
    {
      assert NameOf(s, k, b) ==> k == Key(dp, n);
    }
    forall c | c in t.dirs && c !in t.gone && c != ROOTINO
      ensures exists k :: NameOf(t, k, c)
    {
      var k :| NameOf(s, k, c);
      assert NameOf(t, k, c);
    }
  }

  /** No directory below the root leads to the removed one any more. */
  lemma RmdirClosed(s: State, dp: int, n: Name, b: int, t: State)
    requires Inv(s) && Removed(s, t, dp, n, b)
    ensures Closed(t)
  {
    forall k | k in t.entries && k.dir in t.attached && t.entries[k] in t.dirs
      ensures t.entries[k] in t.attached
    {
      OtherWays(s, dp, n, b, k);
    }
  }

  lemma OtherWays(s: State, dp: int, n: Name, b: int, k: Key)
    requires Sets(s) && Tree(s) && b in s.dirs && NameOf(s, Key(dp, n), b) && Empty(s, b)
    requires k in s.entries && k != Key(dp, n) && k.dir in s.attached && k.dir != b
    ensures s.entries[k] != b
  {
    if Given(k) {
      assert NameOf(s, k, b) ==> k == Key(dp, n);
    } else if k.name == DOTDOT {
      NoChildren(s, b, k.dir);
    }
  }

  lemma NoChildren(s: State, b: int, c: int)
    requires Sets(s) && Tree(s) && b in s.dirs && b != ROOTINO && Empty(s, b) && c in s.attached
    ensures s.entries[Key(c, DOTDOT)] != b
  {
    if c != ROOTINO {
      var k :| NameOf(s, k, c);
    }
  }

  /** A directory that has not been removed has a link. */
  lemma StandingHasLink(s: State, i: int)
    requires Inv(s) && i in s.dirs && i !in s.gone
    ensures Links(s, i) >= 1
  {
    if i == ROOTINO {
      IntoMember(s, i, Key(ROOTINO, DOTDOT));
    } else {
      var k :| NameOf(s, k, i);
      IntoMember(s, i, k);
    }
  }

  lemma FreeKeeps(s: State, i: int)
    requires Inv(s) && Enabled(s, Free(i))
    ensures Inv(Do(s, Free(i)))
  {
    var t := Do(s, Free(i));
    if i in s.dirs && i !in s.gone { StandingHasLink(s, i); }
    assert forall k :: k in t.entries <==> k in s.entries && k.dir != i;
    NothingInto(s, i);
    FreeLinks(s, i, t);
    FreeSets(s, i, t);
    FreeTree(s, i, t);
  }

  lemma FreeLinks(s: State, i: int, t: State)
    requires Inv(s) && Enabled(s, Free(i)) && t == Do(s, Free(i))
    ensures LinksCover(t)
  {
    NothingInto(s, i);
    forall f ensures |Into(t, f)| <= Links(t, f) {
      assert Into(t, f) <= Into(s, f);
      Smaller(Into(t, f), Into(s, f));
    }
  }

  lemma FreeSets(s: State, i: int, t: State)
    requires Inv(s) && Enabled(s, Free(i)) && t == Do(s, Free(i)) && i !in s.attached
    ensures Sets(t) && Closed(t)
  {
  }

  lemma FreeTree(s: State, i: int, t: State)
    requires Sets(s) && Tree(s) && Sets(t) && t.dirs == s.dirs - {i} && t.gone == s.gone - {i}
              && (i in s.dirs ==> i in s.gone)
    requires forall k :: k in t.entries <==> k in s.entries && k.dir != i
    requires forall k :: k in t.entries ==> t.entries[k] == s.entries[k]
    requires forall k :: Counted(s, k) ==> s.entries[k] != i
    ensures Tree(t)
  {
    assert forall k, c :: NameOf(t, k, c) ==> NameOf(s, k, c);
    forall c | c in t.dirs
      ensures c != i && t.entries[Key(c, DOTDOT)] == s.entries[Key(c, DOTDOT)]
    {
      assert Key(c, DOTDOT) in t.entries;
    }
    forall c | c in t.dirs && c !in t.gone && c != ROOTINO
      ensures exists k :: NameOf(t, k, c)
    {
      FreeKeepsName(s, i, t, c);
    }
  }

  lemma FreeKeepsName(s: State, i: int, t: State, c: int)
    requires Sets(s) && Tree(s) && c in s.dirs && c !in s.gone && c != ROOTINO
    requires forall k :: k in s.entries && k.dir != i ==> k in t.entries && t.entries[k] == s.entries[k]
    requires forall k :: Counted(s, k) ==> s.entries[k] != i
    ensures exists k :: NameOf(t, k, c)
  {
    var k :| NameOf(s, k, c);
    assert Counted(s, Key(c, DOTDOT));
    assert NameOf(t, k, c);
  }

  lemma StepKeepsInv(s: State, step: Step)
    requires Inv(s) && Enabled(s, step)
    ensures Inv(Do(s, step))
  {
    match step
    case Create(dp, n, i) => CreateKeeps(s, dp, n, i);
    case Mkdir(dp, n, i) => MkdirKeeps(s, dp, n, i);
    case Link(f, dp, n) => LinkKeeps(s, f, dp, n);
    case Unlink(dp, n) => UnlinkKeeps(s, dp, n);
    case Rmdir(dp, n) => RmdirKeeps(s, dp, n);
    case Free(i) => FreeKeeps(s, i);
  }

  lemma FreshInv()
    ensures Inv(Fresh())
  {
    var s := Fresh();
    forall f ensures |Into(s, f)| <= Links(s, f) {
      if f == ROOTINO {
        Insert({}, Into(s, f), Key(ROOTINO, DOTDOT));
      } else {
        assert Into(s, f) == {};
      }
    }
  }

  lemma {:induction false} RunKeepsInv(s: State, steps: seq<Step>)
    requires Inv(s) && IsRun(s, steps)
    ensures Inv(Run(s, steps))
    decreases |steps|
  {
    if steps != [] {
      StepKeepsInv(s, steps[0]);
      RunKeepsInv(Do(s, steps[0]), steps[1..]);
    }
  }

  // ---- what a lookup can find ----

  ghost predicate Reachable(s: State) {
    exists steps :: IsRun(Fresh(), steps) && s == Run(Fresh(), steps)
  }

  lemma ReachableInv(s: State)
    requires Reachable(s)
    ensures Inv(s)
  {
    var steps :| IsRun(Fresh(), steps) && s == Run(Fresh(), steps);
    FreshInv();
    RunKeepsInv(Fresh(), steps);
  }

  lemma {:induction false} RunAppend(s: State, steps: seq<Step>, step: Step)
    requires IsRun(s, steps) && Enabled(Run(s, steps), step)
    ensures IsRun(s, steps + [step]) && Run(s, steps + [step]) == Do(Run(s, steps), step)
    decreases |steps|
  {
    if steps == [] {
      assert IsRun(Do(s, step), []) && (steps + [step])[1..] == [];
    } else {
      RunAppend(Do(s, steps[0]), steps[1..], step);
      assert (steps + [step])[1..] == steps[1..] + [step];
    }
  }

  lemma ReachStep(s: State, step: Step)
    requires Reachable(s) && Enabled(s, step)
    ensures Reachable(Do(s, step))
  {
    var steps :| IsRun(Fresh(), steps) && s == Run(Fresh(), steps);
    RunAppend(Fresh(), steps, step);
  }

  /** In every run, an entry leads to an allocated inode, unless it is the ".." of a directory that
      has been removed. */
  lemma EntriesLive(s: State, k: Key)
    requires Reachable(s) && k in s.entries
    ensures s.entries[k] in s.nlink || (k.name == DOTDOT && k.dir in s.gone)
  {
    ReachableInv(s);
    if Counted(s, k) {
      IntoMember(s, s.entries[k], k);
    }
  }

  /** And from a directory below the root, the root itself included, every entry leads to an
      allocated inode, and to a directory only if that is below the root too. */
  lemma AttachedLive(s: State, k: Key)
    requires Reachable(s) && k in s.entries && k.dir in s.attached
    ensures s.entries[k] in s.nlink && (s.entries[k] in s.dirs ==> s.entries[k] in s.attached)
  {
    ReachableInv(s);
    EntriesLive(s, k);
  }

  /** unlink's panic, a name whose inode counts no link, is not reached. */
  lemma UnlinkCounts(s: State, k: Key)
    requires Reachable(s) && Given(k) && k in s.entries
    ensures s.entries[k] in s.nlink && s.nlink[s.entries[k]] >= 1
  {
    ReachableInv(s);
    IntoMember(s, s.entries[k], k);
  }
}
