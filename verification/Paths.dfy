/** Path names: skipelem takes one element off a path, and namex walks directories
    holding exactly one reference at a time. */
module Paths {
  import opened FsBlocks
  import opened Dirs
  import opened Files

  const SLASH: Byte := 47
  const ROOTINO := 1

  // ---- splitting a path, by definition ----

  /** The pieces of a path, given its first byte and the pieces of the rest. */
  function Prefixed(c: Byte, rest: seq<Name>): (r: seq<Name>)
    requires rest != [] && c != 0
    ensures r != []
  {
    if c == SLASH then [[]] + rest else [[c] + rest[0]] + rest[1..]
  }

  function Split(p: Name): (r: seq<Name>)
    ensures r != []
  {
    if p == [] then [[]] else Prefixed(p[0], Split(p[1..]))
  }

  function NonEmpty(s: seq<Name>): (r: seq<Name>) {
    if s == [] then [] else (if s[0] == [] then [] else [s[0]]) + NonEmpty(s[1..])
  }

  /** The elements of a path: what lies between slashes, empties dropped. */
  function Elements(p: Name): (r: seq<Name>) {
    NonEmpty(Split(p))
  }

  lemma PrefixedConcat(c: Byte, s: seq<Name>, t: seq<Name>)
    requires s != [] && c != 0
    ensures Prefixed(c, s + t) == Prefixed(c, s) + t
  {
    assert (s + t)[1..] == s[1..] + t;
  }

  lemma {:induction false} SplitSlash(p: Name, q: Name)
    ensures Split(p + [SLASH] + q) == Split(p) + Split(q)
  {
    var s := p + [SLASH] + q;
    if p == [] {
      assert s[1..] == q;
    } else {
      SplitSlash(p[1..], q);
      assert s[1..] == p[1..] + [SLASH] + q;
      PrefixedConcat(p[0], Split(p[1..]), Split(q));
    }
  }

  lemma Regroup<T>(a: seq<T>, b: seq<T>, c: seq<T>)
    ensures a + (b + c) == (a + b) + c
  {
  }

  lemma {:induction false} NonEmptyConcat(s: seq<Name>, t: seq<Name>)
    ensures NonEmpty(s + t) == NonEmpty(s) + NonEmpty(t)
  {
    if s == [] {
      assert s + t == t;
    } else {
      NonEmptyConcat(s[1..], t);
      assert (s + t)[1..] == s[1..] + t;
      Regroup(if s[0] == [] then [] else [s[0]], NonEmpty(s[1..]), NonEmpty(t));
    }
  }

  /** A slash anywhere only separates: so any number of them, before, between or after the
      elements, is as good as one, or as none at the ends. */
  lemma ElementsSlash(p: Name, q: Name)
    ensures Elements(p + [SLASH] + q) == Elements(p) + Elements(q)
  {
    SplitSlash(p, q);
    NonEmptyConcat(Split(p), Split(q));
  }

  lemma {:induction false} SplitConcat(e: Name, q: Name)
    requires SLASH !in e
    ensures Split(e + q) == [e + Split(q)[0]] + Split(q)[1..]
  {
    if e == [] {
      assert e + q == q && e + Split(q)[0] == Split(q)[0];
    } else {
      assert (e + q)[1..] == e[1..] + q;
      SplitConcat(e[1..], q);
      var t := Split(q);
      assert Split(e[1..] + q) == [e[1..] + t[0]] + t[1..];
      assert [e[0]] + (e[1..] + t[0]) == e + t[0];
    }
  }

  lemma ElementsFirst(e: Name, q: Name)
    requires SLASH !in e && e != [] && (q == [] || q[0] == SLASH)
    ensures Elements(e + q) == [e] + Elements(q)
  {
    SplitConcat(e, q);
    var s := Split(e + q);
    assert s[0] == e && s[1..] == Split(q)[1..];
  }

  lemma NoElements(p: Name)
    requires p == [] || p[0] != SLASH
    ensures Elements(p) == [] <==> p == []
  {
    if p != [] {
      assert Split(p)[0] != [];
    }
  }

  method SkipSlashes(path: Name) returns (rest: Name)
    ensures Elements(rest) == Elements(path) && (rest == [] || rest[0] != SLASH) && |rest| <= |path|
  {
    rest := path;
    while rest != [] && rest[0] == SLASH
      invariant Elements(rest) == Elements(path) && |rest| <= |path|
      decreases |rest|
    {
      assert rest == [] + [SLASH] + rest[1..] && Elements([]) == [];
      ElementsSlash([], rest[1..]);
      rest := rest[1..];
    }
  }

  /** The next element, cut to 14 bytes, and the path after it without leading slashes. */
  method Skipelem(path: Name) returns (more: bool, rest: Name, name: Name)
    ensures more <==> Elements(path) != []
    ensures more ==> name == Cut(Elements(path)[0]) && Elements(path)[1..] == Elements(rest)
    ensures more ==> |rest| < |path| && (rest == [] || rest[0] != SLASH)
  {
    var p := SkipSlashes(path);
    NoElements(p);
    if p == [] {
      return false, [], [];
    }
    var len := 0;
    while len < |p| && p[len] != SLASH
      invariant 0 <= len <= |p| && SLASH !in p[..len]
    {
      len := len + 1;
    }
    name := Cut(p[..len]);
    assert p == p[..len] + p[len..];
    ElementsFirst(p[..len], p[len..]);
    rest := SkipSlashes(p[len..]);
    more := true;
  }

  // ---- walking ----

  datatype Node = Node(isDir: bool, nlink: int, data: seq<Byte>)

  type Nodes = map<int, Node>

  /** How a walk ends: at an inode, nowhere, or in ilock's panic over a free inode. */
  datatype Outcome = To(inum: int) | NoSuch | NoType

  /** A path is a fold of directory lookups: all elements, or for the parent all but the
      last, each looked up in a directory. A walk locks every inode it looks something up in;
      one that is not in `nodes` is free. */
  function Resolve(nodes: Nodes, parent: bool, i: int, es: seq<Name>): (r: Outcome)
    decreases |es|
  {
    if es == [] then (if parent then NoSuch else To(i))
    else if i !in nodes then NoType
    else if !nodes[i].isDir then NoSuch
    else if parent && |es| == 1 then To(i)
    else match Lookup(nodes[i].data, Cut(es[0]))
      case None => NoSuch
      case Some(j) => Resolve(nodes, parent, j, es[1..])
  }

  /** Looking up the last name in the parent is looking up the path. */
  lemma {:induction false} ParentThenLast(nodes: Nodes, i: int, es: seq<Name>)
    requires es != []
    ensures match Resolve(nodes, true, i, es)
            case To(dp) =>
              && dp in nodes
              && (match Lookup(nodes[dp].data, Cut(es[|es| - 1]))
                  case None => Resolve(nodes, false, i, es) == NoSuch
                  case Some(j) => Resolve(nodes, false, i, es) == To(j))
            case r => Resolve(nodes, false, i, es) == r
    decreases |es|
  {
    if i in nodes && nodes[i].isDir && |es| > 1 {
      match Lookup(nodes[i].data, Cut(es[0]))
      case None =>
      case Some(j) => ParentThenLast(nodes, j, es[1..]);
    }
  }

  /** Whoever has no name is held by somebody. */
  ghost predicate UnnamedHeld(nodes: Nodes, refs: multiset<int>) {
    forall i :: i in nodes && nodes[i].nlink == 0 ==> i in refs
  }

  lemma MoveRef<T>(m: multiset<T>, a: T)
    ensures m + multiset{a} - multiset{a} == m && a in m + multiset{a} && (m + multiset{a})[a] == m[a] + 1
  {
  }

  /** What skipelem has just split off, and what is left of the path. */
  ghost predicate Pending(more: bool, rest: Name, name: Name, todo: seq<Name>) {
    && (more <==> todo != [])
    && (more ==> name == Cut(todo[0]) && todo[1..] == Elements(rest) && (rest == [] || rest[0] != SLASH))
  }

  ghost predicate SameLast(es: seq<Name>, todo: seq<Name>) {
    todo != [] ==> es != [] && todo[|todo| - 1] == es[|es| - 1]
  }

  lemma SameLastStep(es: seq<Name>, todo: seq<Name>)
    requires todo != [] && SameLast(es, todo)
    ensures SameLast(es, todo[1..])
  {
  }

  class Icache {
    const nodes: Nodes
    var refs: multiset<int>     // ip->ref, as one occurrence per reference
    var freed: set<int>         // inodes iput has truncated and freed

    constructor (nodes: Nodes)
      ensures this.nodes == nodes && refs == multiset{} && freed == {}
    {
      this.nodes, refs, freed := nodes, multiset{}, {};
    }

    /** iget, and idup of an inode already held. */
    method Iget(i: int)
      modifies `refs
      ensures refs == old(refs) + multiset{i}
    {
      refs := refs + multiset{i};
    }

    /** The last reference to an unlinked inode frees it; the methods of InodeCache.Cache are the
        whole of that. */
    method Iput(i: int)
      requires i in refs
      modifies `refs, `freed
      ensures refs == old(refs) - multiset{i}
      ensures freed == old(freed) + if i in nodes && nodes[i].nlink == 0 && old(refs)[i] == 1 then {i} else {}
    {
      if i in nodes && nodes[i].nlink == 0 && refs[i] == 1 {
        freed := freed + {i};
      }
      refs := refs - multiset{i};
    }

    /** iput of a reference that is not the last on an unlinked inode. */
    method Release(ip: int, ghost left: multiset<int>, ghost others: multiset<int>)
      requires refs == left + multiset{ip} && others <= left && UnnamedHeld(nodes, others)
      modifies `refs, `freed
      ensures refs == left && freed == old(freed)
    {
      MoveRef(left, ip);
      Iput(ip);
    }

    method Entry(ip: int, name: Name) returns (next: Option<int>)
      requires ip in nodes
      ensures next == if nodes[ip].isDir then Lookup(nodes[ip].data, name) else None
    {
      next := if nodes[ip].isDir then Lookup(nodes[ip].data, name) else None;
    }

    /** One step of the walk: the reference moves from ip to the entry, or is dropped. */
    method Advance(ip: int, name: Name, ghost others: multiset<int>) returns (next: Option<int>)
      requires ip in nodes && refs == others + multiset{ip} && UnnamedHeld(nodes, others)
      modifies `refs, `freed
      ensures next == if nodes[ip].isDir then Lookup(nodes[ip].data, name) else None
      ensures refs == others + if next.Some? then multiset{next.value} else multiset{}
      ensures freed == old(freed)
    {
      next := Entry(ip, name);
      if next.Some? {
        Iget(next.value);
        assert others + multiset{ip} + multiset{next.value} == others + multiset{next.value} + multiset{ip};
        Release(ip, others + multiset{next.value}, others);
      } else {
        Release(ip, others, others);
        assert others + multiset{} == others;
      }
    }

    /** namex's loop, started at ip with one reference on it beside the others. */
    method Walk(start: int, path: Name, parent: bool, ghost others: multiset<int>) returns (r: Outcome, name: Name)
      requires refs == others + multiset{start} && UnnamedHeld(nodes, others)
      modifies `refs, `freed
      ensures r == Resolve(nodes, parent, start, Elements(path)) && freed == old(freed)
      ensures parent && r.To? ==> name == Cut(Elements(path)[|Elements(path)| - 1])
      ensures r.To? ==> refs == others + multiset{r.inum}
      ensures r.NoSuch? ==> refs == others
    {
      var ip := start;
      var more, rest;
      more, rest, name := Skipelem(path);
      ghost var es, todo := Elements(path), Elements(path);
      while more
        invariant Pending(more, rest, name, todo)
        invariant Resolve(nodes, parent, start, es) == Resolve(nodes, parent, ip, todo)
        invariant SameLast(es, todo)
        invariant refs == others + multiset{ip} && freed == old(freed)
        decreases |todo|
      {
        NoElements(rest);
        if ip !in nodes {
          return NoType, name;
        }
        if parent && nodes[ip].isDir && rest == [] {
          return To(ip), name;
        }
        var next := Advance(ip, name, others);
        if next.None? {
          return NoSuch, name;
        }
        ip := next.value;
        SameLastStep(es, todo);
        todo := todo[1..];
        more, rest, name := Skipelem(rest);
      }
      if parent {
        Release(ip, others, others);
        return NoSuch, name;
      }
      return To(ip), name;
    }

    /** namex, from any directory, removed ones included: the inode the path leads to, or its
        parent directory and the last name. The caller ends up with one more reference on the
        result and none on anything else, also on failure, and no inode is freed on the way.
        NoType is ilock's panic. */
    method Namex(path: Name, parent: bool, cwd: int) returns (r: Outcome, name: Name)
      requires cwd in refs && UnnamedHeld(nodes, refs)
      modifies `refs, `freed
      ensures var start := if path != [] && path[0] == SLASH then ROOTINO else cwd;
              r == Resolve(nodes, parent, start, Elements(path))
      ensures parent && r.To? ==> name == Cut(Elements(path)[|Elements(path)| - 1])
      ensures r.To? ==> refs == old(refs) + multiset{r.inum}
      ensures r.NoSuch? ==> refs == old(refs)
      ensures freed == old(freed)
    {
      var start := if path != [] && path[0] == SLASH then ROOTINO else cwd;
      Iget(start);
      r, name := Walk(start, path, parent, old(refs));
    }
  }
}
