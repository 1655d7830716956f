/** The life of an inode in fs.c: ialloc, iget, ilock, the link count, and iput, over the
    files and blocks of Files.Fs. */
module InodeCache {
  import opened FsBlocks
  import opened FileBlocks
  import opened Files
  import R = InodeRuns

  /** dip->type. */
  function DiskType(g: Geometry, d: Disk, i: int): int
    requires 0 <= i
  {
    var lo: int, hi: int := Read(d, IBlock(g, i))[InodeAt(i)], Read(d, IBlock(g, i))[InodeAt(i) + 1];
    lo + 256 * hi
  }

  lemma SyncedType(g: Geometry, d: Disk, ip: Inode, i: int)
    requires 0 <= i && 0 <= ip.size < UINT && Synced(g, d, ip, i)
    ensures DiskType(g, d, i) == ip.itype
  {
    var b, o := Read(d, IBlock(g, i)), InodeAt(i);
    assert b[o] == b[o..o + 64][0] && b[o + 1] == b[o..o + 64][1];
  }

  ghost predicate AllSynced(g: Geometry, d: Disk, inodes: Inodes) {
    forall i :: i in inodes ==> 0 <= i && 0 <= inodes[i].size < UINT && Synced(g, d, inodes[i], i)
  }

  function Blank(itype: Short): Inode {
    Inode(itype, 0, 0, 0, 0, NoAddrs())
  }

  function Freed(ip: Inode): Inode {
    ip.(itype := 0, size := 0, addrs := NoAddrs())
  }

  /** The inodes as the runs of their holders see them. */
  ghost function NodesOf(inodes: Inodes): map<int, R.Node> {
    map i | i in inodes :: R.Node(inodes[i].itype != 0, inodes[i].nlink)
  }

  lemma NodesOfUpdate(inodes: Inodes, i: int, ip: Inode)
    requires i in inodes
    ensures NodesOf(inodes[i := ip]) == NodesOf(inodes)[i := R.Node(ip.itype != 0, ip.nlink)]
  {
  }

  lemma FreedNodes(inodes: Inodes, i: int)
    requires i in inodes && inodes[i].nlink == 0
    ensures NodesOf(inodes[i := Freed(inodes[i])]) == NodesOf(inodes)[i := R.Node(false, 0)]
    ensures FreeBlank(inodes) ==> FreeBlank(inodes[i := Freed(inodes[i])])
  {
  }

  lemma ClaimedNodes(inodes: Inodes, i: int, itype: Short)
    requires i in inodes && itype != 0
    ensures NodesOf(inodes[i := Blank(itype)]) == NodesOf(inodes)[i := R.Node(true, 0)]
    ensures FreeBlank(inodes) ==> FreeBlank(inodes[i := Blank(itype)])
  {
  }

  /** A free inode has no blocks. */
  ghost predicate FreeBlank(inodes: Inodes) {
    forall i :: i in inodes && inodes[i].itype == 0 ==> inodes[i].addrs == NoAddrs()
  }

  /** Nothing but the slots of an inode says which blocks it owns. */
  lemma HeaderKeepsOwn(g: Geometry, d: Disk, inodes: Inodes, owner: Owner, i: int, ip: Inode)
    requires Own(g, d, inodes, owner) && i in inodes && ip.addrs == inodes[i].addrs
    ensures var after := inodes[i := ip]; Own(g, d, after, owner) && KeepsOthers(g, d, inodes, d, after, i)
  {
    var after := inodes[i := ip];
    assert forall j, s :: j in after && 0 <= s < NSLOTS ==> SlotBlock(d, after[j], s) == SlotBlock(d, inodes[j], s);
  }

  /** In the free map exactly the blocks of i have become free. */
  ghost predicate Released(g: Geometry, d: Disk, owner: Owner, e: Disk, i: int) {
    forall b :: 0 <= b < g.size ==> (Used(g, e, b) <==> Used(g, d, b) && !(b in owner && owner[b].inum == i))
  }

  lemma OwnerReleased(g: Geometry, d: Disk, inodes: Inodes, owner: Owner, e: Disk, after: Inodes, owner': Owner, i: int)
    requires Own(g, d, inodes, owner) && Own(g, e, after, owner')
    requires forall c :: c in owner' <==> c in owner && owner[c].inum != i
    ensures Released(g, d, owner, e, i)
  {
  }

  lemma OnlyChanged(g: Geometry, d: Disk, inodes: Inodes, e: Disk, after: Inodes, i: int)
    requires KeepsOthers(g, d, inodes, e, after, i) && i in inodes
    ensures after == inodes[i := after[i]]
  {
    var m := inodes[i := after[i]];
    assert after.Keys == m.Keys;
    forall j | j in after ensures after[j] == m[j] {
      assert j in inodes;
    }
  }

  class Cache {
    const fs: Fs
    var refs: multiset<int>          // ip->ref, as one occurrence per reference
    var valid: set<int>              // ip->valid
    ghost var tested: multiset<int>  // references in iput, past the test and not yet given up
    ghost var freeing: set<int>      // inodes an iput has found itself the last holder of

    ghost function Abs(): R.State
      reads this, fs
    {
      R.State(NodesOf(fs.inodes), refs, valid, tested, freeing)
    }

    ghost predicate Valid()
      reads this, fs
    {
      && fs.Valid() && AllSynced(fs.g, fs.disk, fs.inodes) && FreeBlank(fs.inodes) && R.Inv(Abs())
      && forall i :: 0 < i < fs.g.ninodes ==> i in fs.inodes
    }

    constructor (fs: Fs)
      requires fs.Valid() && AllSynced(fs.g, fs.disk, fs.inodes) && FreeBlank(fs.inodes)
      requires forall i :: i in fs.inodes && fs.inodes[i].itype == 0 ==> fs.inodes[i].nlink == 0
      requires forall i :: 0 < i < fs.g.ninodes ==> i in fs.inodes
      ensures Valid() && this.fs == fs && Abs() == R.State(NodesOf(fs.inodes), multiset{}, {}, multiset{}, {})
    {
      this.fs, refs, valid, tested, freeing := fs, multiset{}, {}, multiset{}, {};
    }

    /** A changed field of the inode, and iupdate. */
    method Update(i: int, ip: Inode)
      requires fs.Valid() && AllSynced(fs.g, fs.disk, fs.inodes) && i in fs.inodes
      requires ip.addrs == fs.inodes[i].addrs && 0 <= ip.size <= MAXFILE * BSIZE
      modifies fs`disk, fs`inodes, fs`logged
      ensures fs.Valid() && AllSynced(fs.g, fs.disk, fs.inodes) && fs.inodes == old(fs.inodes)[i := ip]
      ensures KeepsOthers(fs.g, old(fs.disk), old(fs.inodes), fs.disk, fs.inodes, i)
    {
      ghost var d0, i0 := fs.disk, fs.inodes;
      HeaderKeepsOwn(fs.g, d0, i0, fs.owner, i, ip);
      fs.inodes := fs.inodes[i := ip];
      PutInodeOthers(fs.g, fs.disk, fs.inodes, fs.owner, i);
      forall j | j in fs.inodes { PutInodeSynced(fs.g, d0, ip, i, fs.inodes[j], j); }
      fs.Iupdate(i);
      OthersTransitive(fs.g, d0, i0, d0, fs.inodes, fs.disk, fs.inodes, i);
    }

    /** iget, of whatever inode a directory entry names, and idup. */
    method Iget(i: int)
      requires Valid() && i in fs.inodes
      modifies `refs, `valid
      ensures Valid() && R.Enabled(old(Abs()), R.Get(i)) && Abs() == R.Do(old(Abs()), R.Get(i))
    {
      R.StepKeepsInv(Abs(), R.Get(i));
      if i !in refs {
        valid := valid - {i};
      }
      refs := refs + multiset{i};
    }

    /** ilock, once the inode's lock is free: the copy is read if need be; `false` is
        panic("ilock: no type"), and that is exactly a reference to a free inode. */
    method Ilock(i: int) returns (ok: bool)
      requires Valid() && R.Held(Abs(), i)
      modifies `valid
      ensures Valid() && (ok <==> fs.inodes[i].itype != 0) && (ok <==> R.Enabled(old(Abs()), R.Lock(i)))
      ensures ok ==> Abs() == R.Do(old(Abs()), R.Lock(i))
      ensures !ok ==> Abs() == old(Abs())
    {
      ok := true;
      if i !in valid {
        SyncedType(fs.g, fs.disk, fs.inodes[i], i);
        if DiskType(fs.g, fs.disk, i) == 0 {
          return false;
        }
        R.StepKeepsInv(Abs(), R.Lock(i));
        valid := valid + {i};
      }
      assert valid == old(valid) + {i};
    }

    /** ialloc: the first free inode, cleared and given its type on disk, and one reference to
        it; `false` is panic("ialloc: no inodes"). */
    method Ialloc(itype: Short) returns (ok: bool, i: int)
      requires Valid() && itype != 0
      modifies `refs, `valid, fs`disk, fs`inodes, fs`logged
      ensures Valid()
      ensures !ok ==> (forall j :: j in fs.inodes ==> fs.inodes[j].itype != 0) && Abs() == old(Abs())
      ensures ok ==> i in old(fs.inodes) && old(fs.inodes)[i].itype == 0
      ensures ok ==> forall j :: 0 < j < i && j in fs.inodes ==> old(fs.inodes)[j].itype != 0
      ensures ok ==> fs.inodes == old(fs.inodes)[i := Blank(itype)]
      ensures ok ==> R.Enabled(old(Abs()), R.Alloc(i)) && Abs() == R.Do(old(Abs()), R.Alloc(i))
      ensures ok ==> KeepsOthers(fs.g, old(fs.disk), old(fs.inodes), fs.disk, fs.inodes, i)
    {
      i := FirstFree();
      ok := i < fs.g.ninodes;
      if ok {
        Claim(i, itype);
      }
    }

    /** ialloc's loop: the first inode whose type on disk is 0, or ninodes. */
    method FirstFree() returns (i: int)
      requires Valid()
      ensures 0 < i && forall j :: 0 < j < i && j in fs.inodes ==> fs.inodes[j].itype != 0
      ensures i < fs.g.ninodes ==> i in fs.inodes && fs.inodes[i].itype == 0
    {
      i := 1;
      while i < fs.g.ninodes
        invariant 0 < i && forall j :: 0 < j < i && j in fs.inodes ==> fs.inodes[j].itype != 0
      {
        SyncedType(fs.g, fs.disk, fs.inodes[i], i);
        if DiskType(fs.g, fs.disk, i) == 0 {
          return;
        }
        i := i + 1;
      }
    }

    /** The free inode ialloc has found, and iget of it. */
    method Claim(i: int, itype: Short)
      requires Valid() && itype != 0 && i in fs.inodes && fs.inodes[i].itype == 0
      modifies `refs, `valid, fs`disk, fs`inodes, fs`logged
      ensures Valid() && fs.inodes == old(fs.inodes)[i := Blank(itype)]
      ensures R.Enabled(old(Abs()), R.Alloc(i)) && Abs() == R.Do(old(Abs()), R.Alloc(i))
      ensures KeepsOthers(fs.g, old(fs.disk), old(fs.inodes), fs.disk, fs.inodes, i)
    {
      ghost var t := R.Do(Abs(), R.Alloc(i));
      R.StepKeepsInv(Abs(), R.Alloc(i));
      ClaimedNodes(fs.inodes, i, itype);
      Update(i, Blank(itype));
      valid, refs := if i in refs then valid else valid - {i}, refs + multiset{i};
      assert Abs() == t;
    }

    /** ip->nlink++ or ip->nlink--, and iupdate, by somebody who has the inode locked. */
    method Relink(i: int, nlink: Short)
      requires Valid() && R.Enabled(Abs(), R.Relink(i, nlink))
      modifies fs`disk, fs`inodes, fs`logged
      ensures Valid() && fs.inodes == old(fs.inodes)[i := old(fs.inodes)[i].(nlink := nlink)]
      ensures Abs() == R.Do(old(Abs()), R.Relink(i, nlink))
      ensures KeepsOthers(fs.g, old(fs.disk), old(fs.inodes), fs.disk, fs.inodes, i)
    {
      R.StepKeepsInv(Abs(), R.Relink(i, nlink));
      NodesOfUpdate(fs.inodes, i, fs.inodes[i].(nlink := nlink));
      Update(i, fs.inodes[i].(nlink := nlink));
    }

    /** iput up to its test, under the inode's lock and, for ip->ref, icache.lock: is the inode to
        be freed? */
    method IputTest(i: int) returns (free: bool)
      requires Valid() && R.Held(Abs(), i)
      modifies `tested, `freeing
      ensures Valid() && Abs() == R.Do(old(Abs()), R.Test(i)) && (free <==> i in freeing)
    {
      R.StepKeepsInv(Abs(), R.Test(i));
      free := false;
      if i in valid && fs.inodes[i].nlink == 0 {
        var r := refs[i];
        if r == 1 {
          free := true;
        }
      }
      if free {
        freeing := freeing + {i};
      } else {
        tested := tested + multiset{i};
      }
    }

    /** The freeing, under the inode's lock: its blocks, and no others, go back to the free map,
        its type on disk becomes 0, and no other file is disturbed. */
    method IputFree(i: int)
      requires Valid() && i in freeing
      modifies `valid, `tested, `freeing, fs
      ensures Valid() && R.Enabled(old(Abs()), R.Free(i)) && Abs() == R.Do(old(Abs()), R.Free(i))
      ensures fs.inodes == old(fs.inodes)[i := Freed(old(fs.inodes)[i])] && DiskType(fs.g, fs.disk, i) == 0
      ensures KeepsOthers(fs.g, old(fs.disk), old(fs.inodes), fs.disk, fs.inodes, i)
      ensures Released(fs.g, old(fs.disk), old(fs.owner), fs.disk, i)
    {
      ghost var t := R.Do(Abs(), R.Free(i));
      R.StepKeepsInv(Abs(), R.Free(i));
      FreedNodes(fs.inodes, i);
      Free(i);
      SyncedType(fs.g, fs.disk, fs.inodes[i], i);
      valid, tested, freeing := valid - {i}, tested + multiset{i}, freeing - {i};
      assert Abs() == t;
    }

    /** The end of iput, under icache.lock. */
    method IputDrop(i: int)
      requires Valid() && i in tested
      modifies `refs, `tested
      ensures Valid() && Abs() == R.Do(old(Abs()), R.Drop(i))
    {
      R.StepKeepsInv(Abs(), R.Drop(i));
      refs := refs - multiset{i};
      tested := tested - multiset{i};
    }

    /** itrunc, type 0, iupdate. */
    method Free(i: int)
      requires fs.Valid() && AllSynced(fs.g, fs.disk, fs.inodes) && i in fs.inodes
      modifies fs
      ensures fs.Valid() && AllSynced(fs.g, fs.disk, fs.inodes)
      ensures fs.inodes == old(fs.inodes)[i := Freed(old(fs.inodes)[i])]
      ensures KeepsOthers(fs.g, old(fs.disk), old(fs.inodes), fs.disk, fs.inodes, i)
      ensures Released(fs.g, old(fs.disk), old(fs.owner), fs.disk, i)
    {
      ghost var d0, i0 := fs.disk, fs.inodes;
      var _ := fs.Itrunc(i);
      ghost var d1, i1 := fs.disk, fs.inodes;
      OnlyChanged(fs.g, d0, i0, d1, i1, i);
      Update(i, fs.inodes[i].(itype := 0));
      OthersTransitive(fs.g, d0, i0, d1, i1, fs.disk, fs.inodes, i);
      OwnerReleased(fs.g, d0, i0, old(fs.owner), fs.disk, fs.inodes, fs.owner, i);
    }
  }
}
